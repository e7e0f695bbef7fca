/** ASCII lower-casing of tag names, as the checker applies `str.lower` to each
    tag name before comparing it with the reference tags h1..h6. */
module TagCase {

  /** An ASCII capital letter 'A'..'Z'. */
  predicate IsUpper(c: char) {
    'A' <= c <= 'Z'
  }

  /** A string with no ASCII capital letter in it. */
  predicate IsLowerCase(s: string) {
    forall i :: 0 <= i < |s| ==> !IsUpper(s[i])
  }

  /** Lower-cases one character: a capital letter becomes its small letter,
      every other character is left alone. */
  function LowerChar(c: char): (d: char)
    ensures !IsUpper(d)
    ensures !IsUpper(c) ==> d == c
    ensures IsUpper(c) ==> 'a' <= d <= 'z' && d as int - c as int == 'a' as int - 'A' as int
  {
    if IsUpper(c) then (c as int - 'A' as int + 'a' as int) as char else c
  }

  /** The lower-case form of a tag name. */
  function Lower(s: string): (r: string)
    ensures |r| == |s| && IsLowerCase(r)
    ensures forall i :: 0 <= i < |s| && !IsUpper(s[i]) ==> r[i] == s[i]
    ensures forall i :: 0 <= i < |s| && IsUpper(s[i]) ==> r[i] == (s[i] as int - 'A' as int + 'a' as int) as char
  {
    seq(|s|, i requires 0 <= i < |s| => LowerChar(s[i]))
  }

  /** Lower-casing changes a string exactly when it holds a capital letter. */
  lemma LowerFixesExactlyLowerCase(s: string)
    ensures Lower(s) == s <==> IsLowerCase(s)
  {
  }

  /** Lower-casing twice is lower-casing once. */
  lemma LowerIdempotent(s: string)
    ensures Lower(Lower(s)) == Lower(s)
  {
  }

  /** The comprehension `[tag.lower() for tag in tags]`. */
  function LowerAll(tags: seq<string>): (r: seq<string>)
    ensures |r| == |tags|
    ensures forall i :: 0 <= i < |r| ==> IsLowerCase(r[i])
    ensures forall i :: 0 <= i < |tags| ==> r[i] == Lower(tags[i])
  {
    seq(|tags|, i requires 0 <= i < |tags| => Lower(tags[i]))
  }

  /** Lower-casing a whole list twice is lower-casing it once. */
  lemma LowerAllIdempotent(tags: seq<string>)
    ensures LowerAll(LowerAll(tags)) == LowerAll(tags)
  {
    forall i | 0 <= i < |tags|
      ensures LowerAll(LowerAll(tags))[i] == LowerAll(tags)[i]
    {
      LowerIdempotent(tags[i]);
    }
  }

  /** Lower-casing a list commutes with taking a slice and with inserting one
      more entry. */
  lemma LowerAllInsert(tags: seq<string>, i: nat, x: string)
    requires i <= |tags|
    ensures LowerAll(tags[..i]) == LowerAll(tags)[..i]
    ensures LowerAll(tags[..i] + [x] + tags[i..]) == LowerAll(tags)[..i] + [Lower(x)] + LowerAll(tags)[i..]
  {
  }
}
