/** ASCII character classes and the few `str` operations of the Rust standard
    library that the front end relies on, on strings as sequences of chars. */
module Strings {

  predicate IsAsciiLower(c: char) { 'a' <= c <= 'z' }

  predicate IsAsciiUpper(c: char) { 'A' <= c <= 'Z' }

  predicate IsAsciiDigit(c: char) { '0' <= c <= '9' }

  predicate IsAsciiLetter(c: char) { IsAsciiLower(c) || IsAsciiUpper(c) }

  predicate IsAsciiAlphanumeric(c: char) { IsAsciiLetter(c) || IsAsciiDigit(c) }

  /** `char::to_ascii_uppercase` on a lower-case ASCII letter. */
  function ToAsciiUpper(c: char): (u: char)
    requires IsAsciiLower(c)
    ensures IsAsciiUpper(u)
    ensures u as int + 32 == c as int
  {
    (c as int - 32) as char
  }

  predicate StartsWith(s: string, p: string) {
    |p| <= |s| && s[..|p|] == p
  }

  predicate EndsWith(s: string, p: string) {
    |p| <= |s| && s[|s| - |p|..] == p
  }

  /** `k` copies of `p`, one after the other. */
  function Repeat(p: string, k: nat): string {
    if k == 0 then [] else p + Repeat(p, k - 1)
  }

  lemma {:induction false} RepeatSnoc(p: string, k: nat)
    ensures Repeat(p, k + 1) == Repeat(p, k) + p
  {
    if k == 0 {
      assert Repeat(p, 1) == p + [];
    } else {
      RepeatSnoc(p, k - 1);
      assert Repeat(p, k + 1) == p + (Repeat(p, k - 1) + p);
    }
  }

  /** `str::trim_start_matches` with a string pattern: removes every leading
      copy of `p` (an empty pattern removes nothing). */
  function TrimStartMatches(s: string, p: string): (r: string)
    ensures |r| <= |s|
    ensures p != [] ==> !StartsWith(r, p)
    decreases |s|
  {
    if p != [] && StartsWith(s, p) then TrimStartMatches(s[|p|..], p) else s
  }

  /** How many copies of `p` `TrimStartMatches` removes. */
  function LeadingCopies(s: string, p: string): nat
    decreases |s|
  {
    if p != [] && StartsWith(s, p) then 1 + LeadingCopies(s[|p|..], p) else 0
  }

  /** What `TrimStartMatches` removes is exactly a run of copies of `p`. */
  lemma {:induction false} TrimStartMatchesSplits(s: string, p: string)
    ensures s == Repeat(p, LeadingCopies(s, p)) + TrimStartMatches(s, p)
    decreases |s|
  {
    if p != [] && StartsWith(s, p) {
      TrimStartMatchesSplits(s[|p|..], p);
      assert s == p + s[|p|..];
    }
  }

  /** `str::trim_end_matches` with a string pattern: removes every trailing
      copy of `p` (an empty pattern removes nothing). */
  function TrimEndMatches(s: string, p: string): (r: string)
    ensures |r| <= |s|
    decreases |s|
  {
    if p != [] && EndsWith(s, p) then TrimEndMatches(s[..|s| - |p|], p) else s
  }

  /** Once trimmed, the string no longer ends with the pattern. */
  lemma {:induction false} TrimEndMatchesNoSuffix(s: string, p: string)
    requires p != []
    ensures !EndsWith(TrimEndMatches(s, p), p)
    decreases |s|
  {
    if EndsWith(s, p) {
      TrimEndMatchesNoSuffix(s[..|s| - |p|], p);
    }
  }

  /** How many copies of `p` `TrimEndMatches` removes. */
  function TrailingCopies(s: string, p: string): nat
    decreases |s|
  {
    if p != [] && EndsWith(s, p) then 1 + TrailingCopies(s[..|s| - |p|], p) else 0
  }

  /** What `TrimEndMatches` removes is exactly a run of copies of `p`. */
  lemma {:induction false} TrimEndMatchesSplits(s: string, p: string)
    ensures s == TrimEndMatches(s, p) + Repeat(p, TrailingCopies(s, p))
    decreases |s|
  {
    if p != [] && EndsWith(s, p) {
      var t := s[..|s| - |p|];
      TrimEndMatchesSplits(t, p);
      TrimEndStep(s, p, t);
    }
  }

  /** One trailing copy of `p` peeled off `s`. */
  lemma TrimEndStep(s: string, p: string, t: string)
    requires p != [] && EndsWith(s, p) && t == s[..|s| - |p|]
    requires t == TrimEndMatches(t, p) + Repeat(p, TrailingCopies(t, p))
    ensures s == TrimEndMatches(s, p) + Repeat(p, TrailingCopies(s, p))
  {
    var r, k := TrimEndMatches(t, p), TrailingCopies(t, p);
    assert s == t + p by {
      assert s[|s| - |p|..] == p;
    }
    assert TrimEndMatches(s, p) == r && TrailingCopies(s, p) == k + 1;
    assert Repeat(p, k) + p == Repeat(p, k + 1) by {
      RepeatSnoc(p, k);
    }
    assert (r + Repeat(p, k)) + p == r + (Repeat(p, k) + p);
  }
}
