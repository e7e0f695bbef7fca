/** The heading-order checker `check_html_tag_sequence`: it walks the reference
    tags h1..h6 and, for each one present in the lower-cased input, compares the
    index of its first occurrence with that of the previously present reference
    tag. */
module TagSequence {
  import opened TagCase

  /** The reference order the checker walks. */
  const Expected: seq<string> := ["h1", "h2", "h3", "h4", "h5", "h6"]

  /** The index of the first occurrence of t in s (Python's `list.index`). */
  function FirstIndex(s: seq<string>, t: string): (k: nat)
    requires t in s
    ensures k < |s| && s[k] == t
    ensures forall j :: 0 <= j < k ==> s[j] != t
  {
    if s[0] == t then 0
    else
      assert t in s[1..] by { assert s == [s[0]] + s[1..]; }
      1 + FirstIndex(s[1..], t)
  }

  /** A first occurrence is determined by its two defining properties. */
  lemma FirstIndexAt(s: seq<string>, t: string, k: nat)
    requires k < |s| && s[k] == t
    requires forall j :: 0 <= j < k ==> s[j] != t
    ensures t in s && FirstIndex(s, t) == k
  {
  }

  /** The position of a reference tag in h1..h6. */
  function Rank(t: string): nat
    requires t in Expected
  {
    FirstIndex(Expected, t)
  }

  /** The six reference tags are distinct, so each one's rank is its index. */
  lemma RankOf(k: nat)
    requires k < |Expected|
    ensures Rank(Expected[k]) == k
  {
  }

  /** xs lists reference tags only, in h1..h6 order, with no tag twice. */
  ghost predicate InExpectedOrder(xs: seq<string>) {
    && (forall a :: 0 <= a < |xs| ==> xs[a] in Expected)
    && (forall a, b :: 0 <= a < b < |xs| ==> Rank(xs[a]) < Rank(xs[b]))
  }

  /** The index into Expected of the nearest reference tag before position i
      that occurs in ts, or -1 when none of Expected[..i] occurs in ts. */
  function Nearest(ts: seq<string>, i: nat): (p: int)
    requires i <= |Expected|
    ensures -1 <= p < i
    ensures p == -1 ==> forall j :: 0 <= j < i ==> Expected[j] !in ts
    ensures 0 <= p ==> Expected[p] in ts && forall j :: p < j < i ==> Expected[j] !in ts
  {
    if i == 0 then -1
    else if Expected[i - 1] in ts then i - 1
    else Nearest(ts, i - 1)
  }

  /** The value `last_tag_index` holds when reference tag i is examined: the
      first-occurrence index of the nearest earlier present reference tag,
      or the initial -1. */
  function Tracker(ts: seq<string>, i: nat): (last: int)
    requires i <= |Expected|
    ensures -1 <= last < |ts|
    ensures last == -1 <==> Nearest(ts, i) == -1
    ensures 0 <= last ==> ts[last] == Expected[Nearest(ts, i)]
    ensures 0 <= last ==> forall j :: 0 <= j < last ==> ts[j] != Expected[Nearest(ts, i)]
  {
    var p := Nearest(ts, i);
    if p < 0 then -1 else FirstIndex(ts, Expected[p])
  }

  /** Reference tag k is flagged: it occurs, and its first occurrence comes
      before the tracked index. */
  predicate IsBroken(ts: seq<string>, k: nat)
    requires k < |Expected|
  {
    Expected[k] in ts && FirstIndex(ts, Expected[k]) < Tracker(ts, k)
  }

  /** `missing_tags` after the first i iterations of the loop. */
  function MissingUpTo(ts: seq<string>, i: nat): seq<string>
    requires i <= |Expected|
  {
    if i == 0 then []
    else MissingUpTo(ts, i - 1) + (if Expected[i - 1] in ts then [] else [Expected[i - 1]])
  }

  /** `broken_sequence` after the first i iterations of the loop. */
  function BrokenUpTo(ts: seq<string>, i: nat): seq<string>
    requires i <= |Expected|
  {
    if i == 0 then []
    else BrokenUpTo(ts, i - 1) + (if IsBroken(ts, i - 1) then [Expected[i - 1]] else [])
  }

  function MissingTags(ts: seq<string>): seq<string> {
    MissingUpTo(ts, |Expected|)
  }

  function BrokenTags(ts: seq<string>): seq<string> {
    BrokenUpTo(ts, |Expected|)
  }

  /** The four values the checker returns. */
  datatype Verdict = Verdict(isCorrect: bool, missing: seq<string>, broken: seq<string>, detected: seq<string>)

  /** The checker's result, as a function of its input. */
  function Check(tags: seq<string>): (r: Verdict)
    ensures |r.detected| == |tags| && forall i :: 0 <= i < |tags| ==> r.detected[i] == Lower(tags[i])
    ensures forall t :: t in r.missing <==> t in Expected && t !in r.detected
    ensures forall t :: t in r.broken ==> t in Expected && t in r.detected
    ensures "h1" !in r.broken
    ensures r.isCorrect <==> r.missing == [] && r.broken == []
  {
    var detected := LowerAll(tags);
    var missing := MissingTags(detected);
    var broken := BrokenTags(detected);
    MissingTagsExact(detected);
    BrokenTagsExact(detected);
    FirstTagNeverBroken(detected);
    Verdict(|broken| == 0 && |missing| == 0, missing, broken, detected)
  }

  /** `check_html_tag_sequence(tags)`. */
  method CheckHtmlTagSequence(tags: seq<string>)
    returns (isCorrect: bool, missing: seq<string>, broken: seq<string>, detected: seq<string>)
    ensures Verdict(isCorrect, missing, broken, detected) == Check(tags)
    ensures |detected| == |tags| && forall i :: 0 <= i < |tags| ==> detected[i] == Lower(tags[i])
    ensures isCorrect <==> missing == [] && broken == []
  {
    detected := LowerAll(tags);
    var last: int := -1;
    broken, missing := [], [];
    for i := 0 to |Expected|
      invariant last == Tracker(detected, i)
      invariant broken == BrokenUpTo(detected, i)
      invariant missing == MissingUpTo(detected, i)
    {
      var tag := Expected[i];
      if tag in detected {
        var current := FirstIndex(detected, tag);
        if current < last {
          broken := broken + [tag];
        }
        last := current;
      } else {
        missing := missing + [tag];
      }
    }
    isCorrect := |broken| == 0 && |missing| == 0;
  }

  // ----- What missing_tags holds -----

  lemma {:induction false} MissingUpToExact(ts: seq<string>, i: nat)
    requires i <= |Expected|
    ensures forall t :: t in MissingUpTo(ts, i) <==> t in Expected[..i] && t !in ts
    ensures InExpectedOrder(MissingUpTo(ts, i))
    ensures forall a :: 0 <= a < |MissingUpTo(ts, i)| ==> Rank(MissingUpTo(ts, i)[a]) < i
  {
    if i > 0 {
      MissingUpToExact(ts, i - 1);
      assert Expected[..i] == Expected[..i - 1] + [Expected[i - 1]];
      if Expected[i - 1] !in ts {
        AppendInOrder(MissingUpTo(ts, i - 1), i - 1);
      }
    }
  }

  /** Appending reference tag i to a list of lower-ranked tags keeps it in order. */
  lemma AppendInOrder(xs: seq<string>, i: nat)
    requires i < |Expected|
    requires InExpectedOrder(xs)
    requires forall a :: 0 <= a < |xs| ==> Rank(xs[a]) < i
    ensures InExpectedOrder(xs + [Expected[i]])
    ensures forall a :: 0 <= a < |xs| + 1 ==> Rank((xs + [Expected[i]])[a]) < i + 1
  {
    RankOf(i);
  }

  /** `missing_tags` is exactly the reference tags absent from the input,
      in h1..h6 order, each once. */
  lemma MissingTagsExact(ts: seq<string>)
    ensures forall t :: t in MissingTags(ts) <==> t in Expected && t !in ts
    ensures InExpectedOrder(MissingTags(ts))
  {
    MissingUpToExact(ts, |Expected|);
    assert Expected[..|Expected|] == Expected;
  }

  // ----- What broken_sequence holds -----

  lemma {:induction false} BrokenUpToExact(ts: seq<string>, i: nat)
    requires i <= |Expected|
    ensures forall k :: 0 <= k < |Expected| ==> (Expected[k] in BrokenUpTo(ts, i) <==> k < i && IsBroken(ts, k))
    ensures InExpectedOrder(BrokenUpTo(ts, i))
    ensures forall a :: 0 <= a < |BrokenUpTo(ts, i)| ==> Rank(BrokenUpTo(ts, i)[a]) < i
  {
    if i > 0 {
      BrokenUpToExact(ts, i - 1);
      var prev := BrokenUpTo(ts, i - 1);
      forall k | 0 <= k < |Expected|
        ensures Expected[k] in BrokenUpTo(ts, i) <==> k < i && IsBroken(ts, k)
      {
        RankOf(k);
        RankOf(i - 1);
      }
      if IsBroken(ts, i - 1) {
        AppendInOrder(prev, i - 1);
      }
    }
  }

  /** `broken_sequence` holds exactly the flagged reference tags, in h1..h6
      order, each once; each of them occurs in the input. */
  lemma BrokenTagsExact(ts: seq<string>)
    ensures forall k :: 0 <= k < |Expected| ==> (Expected[k] in BrokenTags(ts) <==> IsBroken(ts, k))
    ensures forall t :: t in BrokenTags(ts) ==> t in Expected && t in ts
    ensures InExpectedOrder(BrokenTags(ts))
  {
    BrokenUpToExact(ts, |Expected|);
    forall t | t in BrokenTags(ts) ensures t in Expected && t in ts {
      var a :| 0 <= a < |BrokenTags(ts)| && BrokenTags(ts)[a] == t;
      RankOf(Rank(t));
    }
  }

  /** A present reference tag is flagged exactly when its first occurrence
      comes before the first occurrence of the nearest earlier reference tag
      that is present. */
  lemma BrokenMeansBeforeNearestPresent(ts: seq<string>, k: nat)
    requires k < |Expected|
    ensures IsBroken(ts, k) <==>
      && Expected[k] in ts
      && exists j :: 0 <= j < k && Expected[j] in ts
           && (forall m :: j < m < k ==> Expected[m] !in ts)
           && FirstIndex(ts, Expected[k]) < FirstIndex(ts, Expected[j])
  {
  }

  /** h1 is never flagged: the tracker starts at -1 and indices are not negative. */
  lemma FirstTagNeverBroken(ts: seq<string>)
    ensures "h1" !in BrokenTags(ts)
  {
    BrokenTagsExact(ts);
    assert Expected[0] == "h1";
  }

  /** No reference tag is both missing and flagged. */
  lemma MissingBrokenDisjoint(ts: seq<string>)
    ensures forall t :: !(t in MissingTags(ts) && t in BrokenTags(ts))
  {
    MissingTagsExact(ts);
    BrokenTagsExact(ts);
  }

  /** The checker's result as the caller sees it: the detected sequence is the
      lower-cased input, the two lists are as above, and the verdict is
      correct exactly when both lists are empty. */
  lemma CheckSummary(tags: seq<string>)
    ensures var v := Check(tags);
      && v.detected == LowerAll(tags)
      && (forall t :: t in v.missing <==> t in Expected && t !in v.detected)
      && InExpectedOrder(v.missing)
      && (forall k :: 0 <= k < |Expected| ==> (Expected[k] in v.broken <==> IsBroken(v.detected, k)))
      && InExpectedOrder(v.broken)
      && (forall t :: !(t in v.missing && t in v.broken))
      && (v.isCorrect <==> forall t :: t in Expected ==> t in v.detected && t !in v.broken)
  {
    var v := Check(tags);
    MissingTagsExact(v.detected);
    BrokenTagsExact(v.detected);
    MissingBrokenDisjoint(v.detected);
    if !v.isCorrect {
      if v.missing != [] {
        assert v.missing[0] in v.missing;
      } else {
        assert v.broken[0] in v.broken;
      }
    }
  }

  // ----- The verdict depends only on the order of first occurrences -----

  /** s1 and s2 contain the same reference tags. */
  ghost predicate SamePresent(s1: seq<string>, s2: seq<string>) {
    forall k :: 0 <= k < |Expected| ==> (Expected[k] in s1 <==> Expected[k] in s2)
  }

  /** s1 and s2 contain the same reference tags, and the first occurrences of
      those tags come in the same relative order in both. */
  ghost predicate SameHeadingProfile(s1: seq<string>, s2: seq<string>) {
    && SamePresent(s1, s2)
    && (forall j, k ::
          0 <= j < |Expected| && 0 <= k < |Expected| &&
          Expected[j] in s1 && Expected[k] in s1 && Expected[j] in s2 && Expected[k] in s2 ==>
            (FirstIndex(s1, Expected[j]) < FirstIndex(s1, Expected[k]) <==>
             FirstIndex(s2, Expected[j]) < FirstIndex(s2, Expected[k])))
  }

  /** With the same reference tags present, the tracker follows the same
      reference tag in both inputs. */
  lemma SamePresentSameNearest(s1: seq<string>, s2: seq<string>, i: nat)
    requires i <= |Expected|
    requires SamePresent(s1, s2)
    ensures Nearest(s1, i) == Nearest(s2, i)
  {
  }

  /** With the same reference tags present, `missing_tags` grows the same way. */
  lemma {:induction false} SamePresentSameMissing(s1: seq<string>, s2: seq<string>, i: nat)
    requires i <= |Expected|
    requires SamePresent(s1, s2)
    ensures MissingUpTo(s1, i) == MissingUpTo(s2, i)
  {
    if i > 0 {
      SamePresentSameMissing(s1, s2, i - 1);
    }
  }

  /** When the same reference tags are flagged, `broken_sequence` grows the
      same way. */
  lemma {:induction false} SameFlagsSameBroken(s1: seq<string>, s2: seq<string>, i: nat)
    requires i <= |Expected|
    requires forall k :: 0 <= k < |Expected| ==> IsBroken(s1, k) == IsBroken(s2, k)
    ensures BrokenUpTo(s1, i) == BrokenUpTo(s2, i)
  {
    if i > 0 {
      SameFlagsSameBroken(s1, s2, i - 1);
    }
  }

  /** With the same heading profile, reference tag k is flagged in both
      inputs or in neither. */
  lemma SameProfileSameFlag(s1: seq<string>, s2: seq<string>, k: nat)
    requires k < |Expected|
    requires SameHeadingProfile(s1, s2)
    requires Nearest(s1, k) == Nearest(s2, k)
    ensures IsBroken(s1, k) == IsBroken(s2, k)
  {
  }

  /** Two lower-cased inputs with the same heading profile get the same lists. */
  lemma SameProfileSameVerdict(s1: seq<string>, s2: seq<string>)
    requires SameHeadingProfile(s1, s2)
    ensures MissingTags(s1) == MissingTags(s2)
    ensures BrokenTags(s1) == BrokenTags(s2)
  {
    SamePresentSameMissing(s1, s2, |Expected|);
    forall k | 0 <= k < |Expected| ensures IsBroken(s1, k) == IsBroken(s2, k) {
      SamePresentSameNearest(s1, s2, k);
      SameProfileSameFlag(s1, s2, k);
    }
    SameFlagsSameBroken(s1, s2, |Expected|);
  }

  /** A tag's first occurrence moves by one when a string that is not that
      tag is inserted at or before it, and stays put otherwise. */
  lemma InsertionShiftsFirstIndex(ts: seq<string>, i: nat, x: string, t: string)
    requires i <= |ts| && t in ts
    requires x != t || FirstIndex(ts, t) < i
    ensures t in ts[..i] + [x] + ts[i..]
    ensures FirstIndex(ts[..i] + [x] + ts[i..], t) ==
      if FirstIndex(ts, t) < i then FirstIndex(ts, t) else FirstIndex(ts, t) + 1
  {
    var u := ts[..i] + [x] + ts[i..];
    var f := FirstIndex(ts, t);
    if f < i {
      FirstIndexAt(u, t, f);
    } else {
      forall j | 0 <= j < f + 1 ensures u[j] != t {
        if j > i { assert u[j] == ts[j - 1]; }
      }
      FirstIndexAt(u, t, f + 1);
    }
  }

  /** An inserted string that is no reference tag, or that already occurs,
      adds no reference tag to those present. */
  lemma InsertionAddsNoTag(ts: seq<string>, i: nat, x: string, t: string)
    requires i <= |ts|
    requires x !in Expected || x in ts[..i]
    requires t in Expected && t in ts[..i] + [x] + ts[i..]
    ensures t in ts
  {
    var u := ts[..i] + [x] + ts[i..];
    var a :| 0 <= a < |u| && u[a] == t;
    if a < i {
      assert ts[a] == t;
    } else if a == i {
      var b :| 0 <= b < i && ts[..i][b] == x;
      assert ts[b] == t;
    } else {
      assert ts[a - 1] == t;
    }
  }

  /** Inserting, at position i, a string that is no reference tag or that
      already occurs before i keeps the heading profile. */
  lemma RedundantInsertionKeepsProfile(ts: seq<string>, i: nat, x: string)
    requires i <= |ts|
    requires x !in Expected || x in ts[..i]
    ensures SameHeadingProfile(ts, ts[..i] + [x] + ts[i..])
  {
    var u := ts[..i] + [x] + ts[i..];
    forall t | t in Expected && t in ts
      ensures t in u && FirstIndex(u, t) == if FirstIndex(ts, t) < i then FirstIndex(ts, t) else FirstIndex(ts, t) + 1
    {
      if x == t && x in ts[..i] {
        var b :| 0 <= b < i && ts[..i][b] == x;
        assert ts[b] == t;
      }
      InsertionShiftsFirstIndex(ts, i, x, t);
    }
    forall t | t in Expected && t in u ensures t in ts {
      InsertionAddsNoTag(ts, i, x, t);
    }
  }

  /** Repeating a tag after its first occurrence, or inserting a string that
      is no heading tag anywhere, leaves the verdict and both lists
      unchanged. */
  lemma VerdictDependsOnFirstOccurrences(tags: seq<string>, i: nat, x: string)
    requires i <= |tags|
    requires Lower(x) !in Expected || Lower(x) in LowerAll(tags[..i])
    ensures var v, w := Check(tags), Check(tags[..i] + [x] + tags[i..]);
      v.isCorrect == w.isCorrect && v.missing == w.missing && v.broken == w.broken
  {
    var d := LowerAll(tags);
    LowerAllInsert(tags, i, x);
    RedundantInsertionKeepsProfile(d, i, Lower(x));
    SameProfileSameVerdict(d, d[..i] + [Lower(x)] + d[i..]);
  }

  /** Checking the already lower-cased sequence gives the same four values. */
  lemma CheckIgnoresCase(tags: seq<string>)
    ensures Check(LowerAll(tags)) == Check(tags)
  {
    LowerAllIdempotent(tags);
  }

  // ----- Worked inputs -----

  /** Empty input: all six tags missing, none flagged, not correct. */
  lemma EmptyInput()
    ensures Check([]) == Verdict(false, Expected, [], [])
  {
    var e: seq<string> := [];
    assert LowerAll([]) == e;
    assert MissingUpTo(e, 3) == ["h1", "h2", "h3"];
    assert MissingUpTo(e, 6) == Expected;
    assert BrokenUpTo(e, 3) == [];
    assert BrokenUpTo(e, 6) == [];
  }

  lemma {:induction false} InOrderUpTo(ts: seq<string>, i: nat)
    requires i <= |Expected|
    requires forall k :: 0 <= k < |Expected| ==> Expected[k] in ts
    requires forall k :: 0 < k < |Expected| ==> FirstIndex(ts, Expected[k - 1]) <= FirstIndex(ts, Expected[k])
    ensures MissingUpTo(ts, i) == [] && BrokenUpTo(ts, i) == []
  {
    if i > 0 {
      InOrderUpTo(ts, i - 1);
      assert !IsBroken(ts, i - 1);
    }
  }

  /** Every reference tag present, each first occurring no earlier than the
      one before it: nothing missing, nothing flagged. */
  lemma InOrderIsCorrect(ts: seq<string>)
    requires forall k :: 0 <= k < |Expected| ==> Expected[k] in ts
    requires forall k :: 0 < k < |Expected| ==> FirstIndex(ts, Expected[k - 1]) <= FirstIndex(ts, Expected[k])
    ensures MissingTags(ts) == [] && BrokenTags(ts) == []
  {
    InOrderUpTo(ts, |Expected|);
  }

  lemma CorrectMeansInOrder(ts: seq<string>)
    requires MissingTags(ts) == [] && BrokenTags(ts) == []
    ensures forall k :: 0 <= k < |Expected| ==> Expected[k] in ts
    ensures forall k :: 0 < k < |Expected| ==> FirstIndex(ts, Expected[k - 1]) <= FirstIndex(ts, Expected[k])
  {
    MissingTagsExact(ts);
    BrokenTagsExact(ts);
    forall k | 0 <= k < |Expected| ensures Expected[k] in ts {
      assert Expected[k] !in MissingTags(ts);
    }
    forall k | 0 < k < |Expected|
      ensures FirstIndex(ts, Expected[k - 1]) <= FirstIndex(ts, Expected[k])
    {
      assert Expected[k] !in BrokenTags(ts);
      assert Nearest(ts, k) == k - 1;
    }
  }

  /** The verdict is correct exactly when all six reference tags occur and
      their first occurrences come in h1..h6 order. */
  lemma CorrectIffAllPresentInOrder(ts: seq<string>)
    ensures MissingTags(ts) == [] && BrokenTags(ts) == [] <==>
      && (forall k :: 0 <= k < |Expected| ==> Expected[k] in ts)
      && (forall k :: 0 < k < |Expected| ==> FirstIndex(ts, Expected[k - 1]) <= FirstIndex(ts, Expected[k]))
  {
    if MissingTags(ts) == [] && BrokenTags(ts) == [] {
      CorrectMeansInOrder(ts);
    }
    if && (forall k :: 0 <= k < |Expected| ==> Expected[k] in ts)
       && (forall k :: 0 < k < |Expected| ==> FirstIndex(ts, Expected[k - 1]) <= FirstIndex(ts, Expected[k]))
    {
      InOrderIsCorrect(ts);
    }
  }

  /** The full sequence h1..h6, in either letter case, is correct. */
  lemma FullSequenceCorrect()
    ensures Check(Expected).isCorrect
    ensures Check(["H1", "H2", "H3", "H4", "H5", "H6"]).isCorrect
  {
    assert Lower("h1") == "h1" && Lower("h2") == "h2" && Lower("h3") == "h3";
    assert Lower("h4") == "h4" && Lower("h5") == "h5" && Lower("h6") == "h6";
    assert Lower("H1") == "h1" && Lower("H2") == "h2" && Lower("H3") == "h3";
    assert Lower("H4") == "h4" && Lower("H5") == "h5" && Lower("H6") == "h6";
    assert LowerAll(Expected) == Expected;
    assert LowerAll(["H1", "H2", "H3", "H4", "H5", "H6"]) == Expected;
    forall k | 0 <= k < |Expected| ensures FirstIndex(Expected, Expected[k]) == k {
      RankOf(k);
    }
    InOrderIsCorrect(Expected);
  }

  /** An input in which h1, h2 and h3 occur and h4, h5 and h6 do not: those
      three are missing, and only the first three can be flagged. */
  lemma OnlyFirstThreePresent(ts: seq<string>)
    requires "h1" in ts && "h2" in ts && "h3" in ts
    requires "h4" !in ts && "h5" !in ts && "h6" !in ts
    ensures MissingTags(ts) == ["h4", "h5", "h6"]
    ensures BrokenTags(ts) == BrokenUpTo(ts, 3)
  {
    assert Expected[0] == "h1" && Expected[1] == "h2" && Expected[2] == "h3";
    assert Expected[3] == "h4" && Expected[4] == "h5" && Expected[5] == "h6";
    assert MissingUpTo(ts, 1) == [];
    assert MissingUpTo(ts, 2) == [];
    assert MissingUpTo(ts, 3) == [];
    assert MissingUpTo(ts, 4) == ["h4"];
    assert MissingUpTo(ts, 5) == ["h4", "h5"];
    assert !IsBroken(ts, 3) && !IsBroken(ts, 4) && !IsBroken(ts, 5);
    assert BrokenUpTo(ts, 4) == BrokenUpTo(ts, 3);
    assert BrokenUpTo(ts, 5) == BrokenUpTo(ts, 3);
  }

  /** The lower-case tags h1, h2 and h3 are left alone by lower-casing. */
  lemma LowerCaseFirstThree(ts: seq<string>)
    requires forall i :: 0 <= i < |ts| ==> ts[i] in ["h1", "h2", "h3"]
    ensures LowerAll(ts) == ts
  {
    assert Lower("h1") == "h1" && Lower("h2") == "h2" && Lower("h3") == "h3";
  }

  /** The flags for h2, h3, h1: after h2 is flagged the tracker holds h2's
      index 0, so h3 (index 1) is not flagged. */
  lemma FlagsAfterOverwrite()
    ensures BrokenUpTo(["h2", "h3", "h1"], 3) == ["h2"]
  {
    var ts := ["h2", "h3", "h1"];
    FirstIndexAt(ts, "h2", 0);
    FirstIndexAt(ts, "h3", 1);
    FirstIndexAt(ts, "h1", 2);
    assert Tracker(ts, 1) == 2 && IsBroken(ts, 1);
    assert Tracker(ts, 2) == 0 && !IsBroken(ts, 2);
  }

  /** The tracker is overwritten after a break: in h2, h3, h1 only h2 is
      flagged, although h3 also comes before h1. */
  lemma TrackerOverwrittenAfterBreak()
    ensures Check(["h2", "h3", "h1"]) == Verdict(false, ["h4", "h5", "h6"], ["h2"], ["h2", "h3", "h1"])
  {
    var ts := ["h2", "h3", "h1"];
    LowerCaseFirstThree(ts);
    OnlyFirstThreePresent(ts);
    FlagsAfterOverwrite();
  }

  /** The flags for h1, h3, h2: h2 (index 2) is examined before h3 and sets
      the tracker to 2; h3's index 1 is below it, so h3 is flagged. */
  lemma FlagsInReferenceOrder()
    ensures BrokenUpTo(["h1", "h3", "h2"], 3) == ["h3"]
  {
    var ts := ["h1", "h3", "h2"];
    FirstIndexAt(ts, "h1", 0);
    FirstIndexAt(ts, "h3", 1);
    FirstIndexAt(ts, "h2", 2);
    assert Tracker(ts, 1) == 0 && !IsBroken(ts, 1);
    assert Tracker(ts, 2) == 2 && IsBroken(ts, 2);
  }

  /** The scan follows the reference order, not the input order: in h1, h3, h2
      the tag flagged is h3 (first seen before h2), not h2. */
  lemma ReferenceOrderScan()
    ensures Check(["h1", "h3", "h2"]) == Verdict(false, ["h4", "h5", "h6"], ["h3"], ["h1", "h3", "h2"])
  {
    var ts := ["h1", "h3", "h2"];
    LowerCaseFirstThree(ts);
    OnlyFirstThreePresent(ts);
    FlagsInReferenceOrder();
  }
}
