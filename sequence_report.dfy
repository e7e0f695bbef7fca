/** The comment that the HTML tag sequence test writes into its report row,
    built from the checker's four values. */
module SequenceReport {
  import opened TagCase
  import opened TagSequence

  const CorrectComment := "Tag sequence is correct."
  const MissingLabel := "Missing tags: "
  const BrokenLabel := "Broken sequence: "

  /** Python's `sep.join(parts)`. */
  function Join(sep: string, parts: seq<string>): (r: string)
    ensures |parts| == 0 ==> r == ""
    ensures |parts| > 0 ==> StartsWith(r, parts[0]) && EndsWith(r, parts[|parts| - 1])
    ensures |parts| == 2 ==> r == parts[0] + sep + parts[1]
  {
    if |parts| == 0 then ""
    else if |parts| == 1 then parts[0]
    else parts[0] + sep + Join(sep, parts[1..])
  }

  /** String concatenation is associative. */
  lemma AppendAssoc(a: string, b: string, c: string)
    ensures a + (b + c) == (a + b) + c
  {
  }

  /** Joining one more part appends the separator and that part: every part
      appears, in order, with the separator between each two neighbours. */
  lemma {:induction false} JoinAppend(sep: string, parts: seq<string>, x: string)
    requires |parts| >= 1
    ensures Join(sep, parts + [x]) == Join(sep, parts) + sep + x
  {
    if |parts| >= 2 {
      var rest := parts[1..];
      JoinAppend(sep, rest, x);
      assert (parts + [x])[1..] == rest + [x];
      var head, j := parts[0] + sep, Join(sep, rest);
      assert Join(sep, parts + [x]) == head + ((j + sep) + x);
      assert Join(sep, parts) == head + j;
      AppendAssoc(head, j + sep, x);
      AppendAssoc(head, j, sep);
    }
  }

  /** s begins with p. */
  predicate StartsWith(s: string, p: string) {
    |p| <= |s| && s[..|p|] == p
  }

  /** s ends with p. */
  predicate EndsWith(s: string, p: string) {
    |p| <= |s| && s[|s| - |p|..] == p
  }

  /** p occurs in s starting at position i. */
  predicate OccursAt(s: string, p: string, i: int) {
    0 <= i <= |s| - |p| && s[i..i + |p|] == p
  }

  /** p occurs in s as a contiguous piece (Python's `p in s`). */
  predicate Contains(s: string, p: string) {
    exists i :: 0 <= i <= |s| - |p| && OccursAt(s, p, i)
  }

  /** The comment, case by case: the fixed sentence when the verdict is
      correct; otherwise the part for the missing tags, the part for a broken
      order (which lists the whole detected sequence), or both separated by
      one space. */
  function Comment(isCorrect: bool, missing: seq<string>, broken: seq<string>, detected: seq<string>): (r: string)
    ensures isCorrect ==> r == CorrectComment
    ensures !isCorrect && missing == [] && broken == [] ==> r == ""
    ensures !isCorrect && missing != [] ==> StartsWith(r, MissingLabel + Join(", ", missing))
    ensures !isCorrect && broken != [] ==> EndsWith(r, BrokenLabel + Join(", ", detected))
  {
    if isCorrect then CorrectComment
    else if missing != [] && broken != [] then
      var m, b := MissingLabel + Join(", ", missing), BrokenLabel + Join(", ", detected);
      assert (m + " " + b)[..|m|] == m && (m + " " + b)[|m + " "|..] == b;
      m + " " + b
    else if missing != [] then MissingLabel + Join(", ", missing)
    else if broken != [] then BrokenLabel + Join(", ", detected)
    else ""
  }

  /** The comment-building branch of `run_html_tag_sequence_test`: collect the
      parts in a list, then join them with a space. */
  method BuildComment(isCorrect: bool, missing: seq<string>, broken: seq<string>, detected: seq<string>)
    returns (comments: string)
    ensures comments == Comment(isCorrect, missing, broken, detected)
  {
    if isCorrect {
      comments := CorrectComment;
    } else {
      var parts: seq<string> := [];
      if missing != [] {
        parts := parts + [MissingLabel + Join(", ", missing)];
      }
      if broken != [] {
        parts := parts + [BrokenLabel + Join(", ", detected)];
      }
      comments := Join(" ", parts);
      if |parts| == 2 {
        assert parts[1..] == [parts[1]] && Join(" ", parts[1..]) == parts[1];
        assert comments == parts[0] + " " + parts[1];
      }
    }
  }

  /** Joining lower-case parts with a lower-case separator gives a lower-case string. */
  lemma {:induction false} JoinLowerCase(sep: string, parts: seq<string>)
    requires IsLowerCase(sep)
    requires forall i :: 0 <= i < |parts| ==> IsLowerCase(parts[i])
    ensures IsLowerCase(Join(sep, parts))
  {
    if |parts| > 1 {
      JoinLowerCase(sep, parts[1..]);
      var rest := Join(sep, parts[1..]);
      assert Join(sep, parts) == parts[0] + sep + rest;
    }
  }

  /** A string that lacks a character of p does not contain p. */
  lemma MissingCharNotContained(s: string, p: string, c: char)
    requires c in p && c !in s
    ensures !Contains(s, p)
  {
  }

  /** A lower-case string following a label holds no capital letter but the label's. */
  lemma CapitalNotAfterLabel(prefix: string, rest: string, c: char)
    requires IsUpper(c) && c !in prefix && IsLowerCase(rest)
    ensures c !in prefix + rest
  {
  }

  /** The fixed sentence names neither missing tags nor a broken order. */
  lemma CorrectSentenceOnly()
    ensures !Contains(CorrectComment, MissingLabel) && !Contains(CorrectComment, BrokenLabel)
  {
    assert MissingLabel[0] == 'M' && BrokenLabel[0] == 'B';
    assert 'M' !in CorrectComment && 'B' !in CorrectComment;
    MissingCharNotContained(CorrectComment, MissingLabel, 'M');
    MissingCharNotContained(CorrectComment, BrokenLabel, 'B');
  }

  /** A comment made of the missing-tags part alone names no broken order. */
  lemma MissingPartOnly(m: string)
    requires IsLowerCase(m)
    ensures MissingLabel + m != CorrectComment
    ensures Contains(MissingLabel + m, MissingLabel) && !Contains(MissingLabel + m, BrokenLabel)
  {
    assert (MissingLabel + m)[0] == 'M' != CorrectComment[0];
    assert OccursAt(MissingLabel + m, MissingLabel, 0);
    assert BrokenLabel[0] == 'B';
    CapitalNotAfterLabel(MissingLabel, m, 'B');
    MissingCharNotContained(MissingLabel + m, BrokenLabel, 'B');
  }

  /** A comment made of the broken-order part alone names no missing tags. */
  lemma BrokenPartOnly(d: string)
    requires IsLowerCase(d)
    ensures BrokenLabel + d != CorrectComment
    ensures Contains(BrokenLabel + d, BrokenLabel) && !Contains(BrokenLabel + d, MissingLabel)
  {
    assert (BrokenLabel + d)[0] == 'B' != CorrectComment[0];
    assert OccursAt(BrokenLabel + d, BrokenLabel, 0);
    assert MissingLabel[0] == 'M';
    CapitalNotAfterLabel(BrokenLabel, d, 'M');
    MissingCharNotContained(BrokenLabel + d, MissingLabel, 'M');
  }

  /** A comment made of both parts contains both labels. */
  lemma BothParts(m: string, d: string)
    ensures MissingLabel + m + " " + BrokenLabel + d != CorrectComment
    ensures Contains(MissingLabel + m + " " + BrokenLabel + d, MissingLabel)
    ensures Contains(MissingLabel + m + " " + BrokenLabel + d, BrokenLabel)
  {
    var c := MissingLabel + m + " " + BrokenLabel + d;
    assert c[0] == 'M' != CorrectComment[0];
    assert OccursAt(c, MissingLabel, 0);
    assert OccursAt(c, BrokenLabel, |MissingLabel + m + " "|);
  }

  /** The comment for any values in which the verdict is correct exactly when
      both lists are empty, and the joined lists hold no capital letter. */
  lemma CommentParts(isCorrect: bool, missing: seq<string>, broken: seq<string>, detected: seq<string>)
    requires isCorrect <==> missing == [] && broken == []
    requires IsLowerCase(Join(", ", missing)) && IsLowerCase(Join(", ", detected))
    ensures var c := Comment(isCorrect, missing, broken, detected);
      && (c == CorrectComment <==> isCorrect)
      && (Contains(c, MissingLabel) <==> missing != [])
      && (Contains(c, BrokenLabel) <==> broken != [])
  {
    if isCorrect {
      CorrectSentenceOnly();
    } else {
      var m := Join(", ", missing);
      var d := Join(", ", detected);
      CommentText(isCorrect, missing, broken, detected);
      if missing != [] && broken != [] {
        BothParts(m, d);
      } else if missing != [] {
        MissingPartOnly(m);
      } else {
        BrokenPartOnly(d);
      }
    }
  }

  /** The comment's exact text for an incorrect verdict, by which parts are present. */
  lemma CommentText(isCorrect: bool, missing: seq<string>, broken: seq<string>, detected: seq<string>)
    requires !isCorrect
    ensures var c := Comment(isCorrect, missing, broken, detected);
      && (missing != [] && broken == [] ==> c == MissingLabel + Join(", ", missing))
      && (missing == [] && broken != [] ==> c == BrokenLabel + Join(", ", detected))
      && (missing != [] && broken != [] ==>
            c == MissingLabel + Join(", ", missing) + " " + BrokenLabel + Join(", ", detected))
  {
  }

  /** The two lists the comment joins hold no capital letter. */
  lemma CheckListsLowerCase(tags: seq<string>)
    ensures IsLowerCase(Join(", ", Check(tags).missing)) && IsLowerCase(Join(", ", Check(tags).detected))
  {
    var v := Check(tags);
    forall i | 0 <= i < |v.missing| ensures IsLowerCase(v.missing[i]) {
      assert v.missing[i] in Expected;
    }
    JoinLowerCase(", ", v.missing);
    JoinLowerCase(", ", v.detected);
  }

  /** The comment for a result of the checker: it is the fixed sentence
      exactly when the verdict is correct; it has a part naming the missing
      tags exactly when some are missing, and a broken-order part exactly
      when some tag is flagged; the broken-order part lists the whole detected
      sequence, and when both parts are present they are separated by one
      space. */
  lemma CommentOfCheck(tags: seq<string>)
    ensures var v := Check(tags);
      var c := Comment(v.isCorrect, v.missing, v.broken, v.detected);
      && (c == CorrectComment <==> v.isCorrect)
      && (Contains(c, MissingLabel) <==> v.missing != [])
      && (Contains(c, BrokenLabel) <==> v.broken != [])
      && (v.missing != [] && v.broken == [] ==> c == MissingLabel + Join(", ", v.missing))
      && (v.missing == [] && v.broken != [] ==> c == BrokenLabel + Join(", ", v.detected))
      && (v.missing != [] && v.broken != [] ==>
            c == MissingLabel + Join(", ", v.missing) + " " + BrokenLabel + Join(", ", v.detected))
  {
    var v := Check(tags);
    CheckListsLowerCase(tags);
    CommentParts(v.isCorrect, v.missing, v.broken, v.detected);
    if !v.isCorrect {
      CommentText(v.isCorrect, v.missing, v.broken, v.detected);
    }
  }
}
