/**
 * The parts of java.lang.String that the criteria code relies on: case mapping of
 * one character, lower-casing a whole string, and trim(). Case mapping is modelled
 * over ASCII letters; every other character maps to itself.
 */
module Text {

  /** Character.toUpperCase restricted to ASCII. */
  function ToUpper(c: char): (u: char)
    ensures 'a' <= c <= 'z' ==> 'A' <= u <= 'Z'
    ensures !('a' <= c <= 'z') ==> u == c
  {
    if 'a' <= c <= 'z' then (c as int - 32) as char else c
  }

  /** Character.toLowerCase restricted to ASCII. */
  function ToLower(c: char): (l: char)
    ensures 'A' <= c <= 'Z' ==> 'a' <= l <= 'z' && ToUpper(l) == c
    ensures !('A' <= c <= 'Z') ==> l == c
  {
    if 'A' <= c <= 'Z' then (c as int + 32) as char else c
  }

  /** Lower-casing undoes upper-casing on the letters a-z. */
  lemma CaseRoundTrip(c: char)
    ensures 'a' <= c <= 'z' ==> ToLower(ToUpper(c)) == c
  {
  }

  /** Upper-casing an upper-cased character changes nothing. */
  lemma ToUpperIdempotent(c: char)
    ensures ToUpper(ToUpper(c)) == ToUpper(c)
  {
  }

  /** String.toLowerCase: every character lower-cased in place. */
  function LowerCase(s: string): (r: string)
    ensures |r| == |s|
    ensures forall i :: 0 <= i < |s| ==> r[i] == ToLower(s[i])
  {
    seq(|s|, i requires 0 <= i < |s| => ToLower(s[i]))
  }

  /** Number of occurrences of `c` in `s`. */
  function Count(s: string, c: char): nat
  {
    if s == [] then 0 else (if s[0] == c then 1 else 0) + Count(s[1..], c)
  }

  /** Lower-casing keeps every underscore and creates none. */
  lemma {:induction false} LowerCaseKeepsUnderscores(s: string)
    ensures Count(LowerCase(s), '_') == Count(s, '_')
  {
    if s != [] {
      assert LowerCase(s)[1..] == LowerCase(s[1..]);
      LowerCaseKeepsUnderscores(s[1..]);
    }
  }

  /** A character that String.trim removes: code point at most U+0020. */
  predicate IsTrimmed(c: char)
  {
    c <= ' '
  }

  /** Every character of `s` is one that trim removes. */
  predicate IsBlank(s: string)
  {
    forall i :: 0 <= i < |s| ==> IsTrimmed(s[i])
  }

  /** Removes leading characters up to U+0020. */
  function TrimStart(s: string): (r: string)
    ensures |r| <= |s| && r == s[|s| - |r|..]
    ensures IsBlank(s[..|s| - |r|])
    ensures r != [] ==> !IsTrimmed(r[0])
    decreases |s|
  {
    if s != [] && IsTrimmed(s[0]) then
      var r := TrimStart(s[1..]);
      assert s[..|s| - |r|] == [s[0]] + s[1..][..|s| - 1 - |r|];
      r
    else s
  }

  /** Removes trailing characters up to U+0020. */
  function TrimEnd(s: string): (r: string)
    ensures |r| <= |s| && r == s[..|r|]
    ensures IsBlank(s[|r|..])
    ensures r != [] ==> !IsTrimmed(r[|r| - 1])
    decreases |s|
  {
    if s != [] && IsTrimmed(s[|s| - 1]) then
      var r := TrimEnd(s[..|s| - 1]);
      assert s[|r|..] == s[..|s| - 1][|r|..] + [s[|s| - 1]];
      r
    else s
  }

  /** The number of characters String.trim removes from the front of `s`. */
  function LeadingTrimmed(s: string): (k: nat)
    ensures k <= |s| && TrimStart(s) == s[k..] && IsBlank(s[..k])
  {
    |s| - |TrimStart(s)|
  }

  /**
   * String.trim: the result is the middle slice s[k..k + |r|] of the input,
   * where k = LeadingTrimmed(s); everything removed before and after it is
   * characters up to U+0020, and a non-empty result neither starts nor ends
   * with one.
   */
  function Trim(s: string): (r: string)
    ensures LeadingTrimmed(s) + |r| <= |s|
    ensures r == s[LeadingTrimmed(s)..LeadingTrimmed(s) + |r|]
    ensures IsBlank(s[LeadingTrimmed(s) + |r|..])
    ensures r != [] ==> !IsTrimmed(r[0]) && !IsTrimmed(r[|r| - 1])
  {
    var t := TrimStart(s);
    TrimSlices(s, LeadingTrimmed(s), TrimEnd(t));
    TrimEnd(t)
  }

  lemma TrimSlices(s: string, k: nat, r: string)
    requires k <= |s| && TrimStart(s) == s[k..] && r == TrimEnd(s[k..])
    ensures k + |r| <= |s| && r == s[k..k + |r|] && IsBlank(s[k + |r|..])
    ensures r != [] ==> !IsTrimmed(r[0]) && !IsTrimmed(r[|r| - 1])
  {
    var t := s[k..];
    assert t[..|r|] == s[k..k + |r|];
    assert t[|r|..] == s[k + |r|..];
  }

  /**
   * trim() yields the empty string exactly when every character is at most
   * U+0020 (the empty string included).
   */
  lemma TrimEmptyIffBlank(s: string)
    ensures Trim(s) == [] <==> IsBlank(s)
  {
  }
}
