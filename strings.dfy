/**
 * The .NET string operations the services use: `Trim`, `ToLower` /
 * `ToLowerInvariant` (over ASCII), `string.IsNullOrWhiteSpace`,
 * `string.IsNullOrEmpty`, `Contains`.
 */
module Strings {
  import opened Wrappers

  /** `char.IsWhiteSpace`: U+0009..U+000D, U+0085 and the Unicode space, line and paragraph separators. */
  predicate IsWhiteSpace(c: char) {
    || ('\U{0009}' <= c <= '\U{000D}')
    || c == ' ' || c == '\U{0085}' || c == '\U{00A0}' || c == '\U{1680}'
    || ('\U{2000}' <= c <= '\U{200A}')
    || c == '\U{2028}' || c == '\U{2029}' || c == '\U{202F}' || c == '\U{205F}' || c == '\U{3000}'
  }

  /** Every character is white space (so also the empty string). */
  predicate IsBlank(s: string) {
    forall i :: 0 <= i < |s| ==> IsWhiteSpace(s[i])
  }

  /** `string.IsNullOrWhiteSpace`. */
  predicate IsNullOrWhiteSpace(s: Option<string>) {
    s.None? || IsBlank(s.value)
  }

  /** `string.IsNullOrEmpty` on a string that is known to be non-null. */
  predicate IsEmpty(s: string) {
    |s| == 0
  }

  function TrimStart(s: string): (r: string)
    ensures |r| <= |s| && r == s[|s| - |r|..]
    ensures r == [] || !IsWhiteSpace(r[0])
    ensures forall k :: 0 <= k < |s| - |r| ==> IsWhiteSpace(s[k])
  {
    if s == [] || !IsWhiteSpace(s[0]) then s else TrimStart(s[1..])
  }

  function TrimEnd(s: string): (r: string)
    ensures |r| <= |s| && r == s[..|r|]
    ensures r == [] || !IsWhiteSpace(r[|r| - 1])
    ensures forall k :: |r| <= k < |s| ==> IsWhiteSpace(s[k])
  {
    if s == [] || !IsWhiteSpace(s[|s| - 1]) then s else TrimEnd(s[..|s| - 1])
  }

  /** `string.Trim()`: the longest slice of `s` that neither starts nor ends with white space. */
  function Trim(s: string): (r: string)
    ensures |r| <= |s|
    ensures r == [] || (!IsWhiteSpace(r[0]) && !IsWhiteSpace(r[|r| - 1]))
  {
    TrimEnd(TrimStart(s))
  }

  /**
   * What `Trim` keeps is a run of `s`: a prefix of the suffix that starts
   * past the leading white space ...
   */
  lemma TrimKeepsRun(s: string)
    ensures var r, lo := TrimEnd(TrimStart(s)), |s| - |TrimStart(s)|;
      lo + |r| <= |s| && r == s[lo..][..|r|]
  {
    var t := TrimStart(s);
    assert t == s[|s| - |t|..];
  }

  /** ... and what it removes after that run is white space (`TrimStart` says the same of what comes before). */
  lemma TrimDropsTrailingWhite(s: string)
    ensures var r, lo := TrimEnd(TrimStart(s)), |s| - |TrimStart(s)|;
      forall k :: lo + |r| <= k < |s| ==> IsWhiteSpace(s[k])
  {
    var t := TrimStart(s);
    TailOfSuffix(s, |s| - |t|, |TrimEnd(t)|, IsWhiteSpace);
  }

  /** A property of the tail of `s[lo..]` past `n` is one of `s` past `lo + n`. */
  lemma TailOfSuffix<T>(s: seq<T>, lo: nat, n: nat, p: T -> bool)
    requires lo + n <= |s|
    requires forall k :: n <= k < |s| - lo ==> p(s[lo..][k])
    ensures forall k :: lo + n <= k < |s| ==> p(s[k])
  {
    forall k | lo + n <= k < |s|
      ensures p(s[k])
    {
      assert s[k] == s[lo..][k - lo];
    }
  }

  /** A string that neither starts nor ends with white space is its own trim. */
  lemma TrimmedIsFixed(s: string)
    requires s == [] || (!IsWhiteSpace(s[0]) && !IsWhiteSpace(s[|s| - 1]))
    ensures Trim(s) == s
  {
  }

  lemma TrimIdempotent(s: string)
    ensures Trim(Trim(s)) == Trim(s)
  {
    TrimmedIsFixed(Trim(s));
  }

  /** Trimming leaves nothing exactly when the string is blank. */
  lemma TrimEmptyIffBlank(s: string)
    ensures Trim(s) == [] <==> IsBlank(s)
  {
    var t := TrimStart(s);
    assert Trim(s) == [] ==> t == [];
  }

  /** `char.ToLowerInvariant` restricted to ASCII letters. */
  function LowerChar(c: char): (r: char)
    ensures 'A' <= c <= 'Z' ==> r as int == c as int + 32
    ensures !('A' <= c <= 'Z') ==> r == c
  {
    if 'A' <= c <= 'Z' then (c as int + 32) as char else c
  }

  /** `ToLower()` / `ToLowerInvariant()`, ASCII only. */
  function ToLower(s: string): (r: string)
    ensures |r| == |s|
    ensures forall i :: 0 <= i < |s| ==> r[i] == LowerChar(s[i])
  {
    if s == [] then [] else [LowerChar(s[0])] + ToLower(s[1..])
  }

  lemma ToLowerIdempotent(s: string)
    ensures ToLower(ToLower(s)) == ToLower(s)
  {
  }

  /** `needle` starts at position `i` of `hay`. */
  predicate OccursAt(hay: string, needle: string, i: int) {
    0 <= i && i + |needle| <= |hay| && hay[i..i + |needle|] == needle
  }

  /** `Contains`: `needle` occurs in `hay` as a contiguous run (ordinal comparison). */
  predicate Contains(hay: string, needle: string) {
    exists i | 0 <= i <= |hay| - |needle| :: OccursAt(hay, needle, i)
  }

  /** The normalised e-mail form used for storing and comparing addresses: `Trim().ToLowerInvariant()`. */
  function NormalizeEmail(s: string): (r: string)
    ensures |r| == |Trim(s)| <= |s|
    ensures forall i :: 0 <= i < |r| ==> !('A' <= r[i] <= 'Z')
  {
    ToLower(Trim(s))
  }

  /** A normalised address is empty exactly for a blank input ... */
  lemma NormalizeEmailEmpty(s: string)
    ensures NormalizeEmail(s) == [] <==> IsBlank(s)
  {
    TrimEmptyIffBlank(s);
  }

  /** ... and has no white space at either end. */
  lemma NormalizeEmailEnds(s: string)
    ensures var r := NormalizeEmail(s);
      r == [] || (!IsWhiteSpace(r[0]) && !IsWhiteSpace(r[|r| - 1]))
  {
    ToLowerKeepsEnds(Trim(s));
  }

  /** Lower-casing a string that neither starts nor ends with white space keeps it so. */
  lemma ToLowerKeepsEnds(t: string)
    requires t == [] || (!IsWhiteSpace(t[0]) && !IsWhiteSpace(t[|t| - 1]))
    ensures var r := ToLower(t);
      r == [] || (!IsWhiteSpace(r[0]) && !IsWhiteSpace(r[|r| - 1]))
  {
    if t != [] {
      LowerCharWhiteSpace(t[0]);
      LowerCharWhiteSpace(t[|t| - 1]);
    }
  }

  /** Lower-casing never creates or removes white space ... */
  lemma LowerCharWhiteSpace(c: char)
    ensures IsWhiteSpace(LowerChar(c)) <==> IsWhiteSpace(c)
  {
    if 'A' <= c <= 'Z' {
      assert 'a' <= LowerChar(c) <= 'z';
    }
  }

  /** ... so it commutes with trimming. */
  lemma {:induction false} TrimStartToLower(s: string)
    ensures TrimStart(ToLower(s)) == ToLower(TrimStart(s))
  {
    if s != [] {
      LowerCharWhiteSpace(s[0]);
      var l := ToLower(s);
      assert l[0] == LowerChar(s[0]);
      if IsWhiteSpace(s[0]) {
        assert l[1..] == ToLower(s[1..]);
        TrimStartToLower(s[1..]);
      }
    }
  }

  lemma {:induction false} TrimEndToLower(s: string)
    ensures TrimEnd(ToLower(s)) == ToLower(TrimEnd(s))
  {
    if s != [] {
      LowerCharWhiteSpace(s[|s| - 1]);
      var l := ToLower(s);
      assert l[|s| - 1] == LowerChar(s[|s| - 1]);
      if IsWhiteSpace(s[|s| - 1]) {
        assert l[..|s| - 1] == ToLower(s[..|s| - 1]);
        TrimEndToLower(s[..|s| - 1]);
      }
    }
  }

  /** Normalising an already normalised address changes nothing. */
  lemma NormalizeEmailIdempotent(s: string)
    ensures NormalizeEmail(NormalizeEmail(s)) == NormalizeEmail(s)
  {
    var t := Trim(s);
    TrimStartToLower(t);
    TrimEndToLower(TrimStart(t));
    TrimIdempotent(s);
    ToLowerIdempotent(t);
  }
}
