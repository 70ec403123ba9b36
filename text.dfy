/** The two string operations the connector performs on account ids: taking the part before the
    first '.', and lower-casing. */
module Text {

  /** `s.split(".").next()`: the characters of `s` before its first '.', or all of `s`. */
  function FirstPart(s: string): (r: string)
    ensures |r| <= |s| && r == s[..|r|]
    ensures forall k :: 0 <= k < |r| ==> r[k] != '.'
    ensures |r| < |s| ==> s[|r|] == '.'
  {
    if s == [] || s[0] == '.' then [] else [s[0]] + FirstPart(s[1..])
  }

  /** Splitting `p + "." + rest` on '.' gives back `p` as the first part whenever `p` has no dot. */
  lemma FirstPartOfJoin(p: string, rest: string)
    requires forall k :: 0 <= k < |p| ==> p[k] != '.'
    ensures FirstPart(p + "." + rest) == p
  {
    var s := p + "." + rest;
    var r := FirstPart(s);
    assert s[|p|] == '.';
    assert forall k :: 0 <= k < |p| ==> s[k] == p[k];
    assert |r| == |p|;
    assert r == s[..|p|] == p;
  }

  function LowerChar(c: char): char {
    if 'A' <= c <= 'Z' then (c as int + 32) as char else c
  }

  /** ASCII lower-casing, character by character: each of 'A'..'Z' becomes its lower-case letter,
      every other character stays as it is, and no upper-case ASCII letter is left. */
  function ToLowerAscii(s: string): (r: string)
    ensures |r| == |s|
    ensures forall k :: 0 <= k < |s| && 'A' <= s[k] <= 'Z' ==> r[k] as int == s[k] as int + 32
    ensures forall k :: 0 <= k < |s| && !('A' <= s[k] <= 'Z') ==> r[k] == s[k]
    ensures forall k :: 0 <= k < |r| ==> !('A' <= r[k] <= 'Z')
  {
    seq(|s|, k requires 0 <= k < |s| => LowerChar(s[k]))
  }

  /** Lower-casing twice is lower-casing once. */
  lemma LowerIdempotent(s: string)
    ensures ToLowerAscii(ToLowerAscii(s)) == ToLowerAscii(s)
  {
  }
}
