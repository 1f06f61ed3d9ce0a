/** The string tests the pages use: `startsWith`, and a substring test that ignores
    ASCII letter case, as a regular expression with the `i` flag does for a pattern
    of ASCII letters. */
module Text {

  /** `s.startsWith(p)`. */
  predicate StartsWith(s: string, p: string)
    ensures StartsWith(s, p) <==> exists rest :: s == p + rest
  {
    assert |p| <= |s| ==> s == s[..|p|] + s[|p|..];
    |p| <= |s| && s[..|p|] == p
  }

  /** `p` occurs in `s` starting at index `i`. */
  predicate OccursAt(s: string, p: string, i: nat) {
    i + |p| <= |s| && s[i..i + |p|] == p
  }

  /** Maps 'A'..'Z' to 'a'..'z' and leaves every other character alone. Under the
      `i` flag (without `u`) a character matches a lower-case ASCII letter exactly
      when it is that letter in either case, so folding both sides this way decides
      the same matches. */
  function LowerAscii(c: char): (l: char)
    ensures 'A' <= c <= 'Z' ==> 'a' <= l <= 'z' && l as int - c as int == 32
    ensures !('A' <= c <= 'Z') ==> l == c
  {
    if 'A' <= c <= 'Z' then (c as int + 32) as char else c
  }

  /** Folds every character of `s` with `LowerAscii`. */
  function Fold(s: string): (r: string)
    ensures |r| == |s|
    ensures forall i :: 0 <= i < |s| ==> r[i] == LowerAscii(s[i])
  {
    seq(|s|, i requires 0 <= i < |s| => LowerAscii(s[i]))
  }

  /** Folding twice is folding once. */
  lemma FoldIdempotent(s: string)
    ensures Fold(Fold(s)) == Fold(s)
  {
  }

  /** Occurrences in `s[1..]` are the occurrences in `s` one place further on. */
  lemma OccursShift(s: string, p: string)
    requires |s| > 0
    ensures forall i: nat :: OccursAt(s[1..], p, i) <==> OccursAt(s, p, i + 1)
  {
    forall i: nat
      ensures OccursAt(s[1..], p, i) <==> OccursAt(s, p, i + 1)
    {
      if i + |p| <= |s| - 1 {
        assert s[1..][i..i + |p|] == s[i + 1..i + 1 + |p|];
      }
    }
  }

  /** The substring test of a regular expression made of one literal: true exactly
      when `p` occurs somewhere in `s`. */
  function Contains(s: string, p: string): (b: bool)
    ensures b <==> exists i: nat :: OccursAt(s, p, i)
    decreases |s|
  {
    if |s| < |p| then
      assert forall i: nat :: !OccursAt(s, p, i);
      false
    else if s[..|p|] == p then
      assert OccursAt(s, p, 0);
      true
    else if |s| == 0 then
      false
    else
      OccursShift(s, p);
      assert !OccursAt(s, p, 0);
      assert forall i: nat :: OccursAt(s, p, i) ==> i > 0 && OccursAt(s[1..], p, i - 1);
      Contains(s[1..], p)
  }

  /** A pattern whose first character does not appear in `s` does not occur in it. */
  lemma MissingFirstLetter(s: string, p: string)
    requires |p| > 0 && forall j :: 0 <= j < |s| ==> s[j] != p[0]
    ensures !Contains(s, p)
  {
  }
}
