/**
 * The few .NET string operations the parameter store relies on:
 * `String.Trim()`, `String.ToLower()` and `String.IndexOf(char)`.
 */
module Strings {

  /** `Char.IsWhiteSpace`: the Unicode space separators, line and paragraph separators,
      U+0009..U+000D, U+0085 and U+00A0. */
  predicate IsWhiteSpace(c: char) {
    c == ' ' || ('\t' <= c <= '\r') || c == '\U{0085}' || c == '\U{00A0}' || c == '\U{1680}'
    || ('\U{2000}' <= c <= '\U{200A}') || c == '\U{2028}' || c == '\U{2029}' || c == '\U{202F}'
    || c == '\U{205F}' || c == '\U{3000}'
  }

  /** Drops leading white space. */
  function TrimStart(s: string): (r: string)
    ensures |r| <= |s| && r == s[|s| - |r|..]
    ensures r == [] || !IsWhiteSpace(r[0])
    ensures forall i :: 0 <= i < |s| - |r| ==> IsWhiteSpace(s[i])
  {
    if |s| > 0 && IsWhiteSpace(s[0]) then TrimStart(s[1..]) else s
  }

  /** Drops trailing white space. */
  function TrimEnd(s: string): (r: string)
    ensures |r| <= |s| && r == s[..|r|]
    ensures r == [] || !IsWhiteSpace(r[|r| - 1])
    ensures forall i :: |r| <= i < |s| ==> IsWhiteSpace(s[i])
  {
    if |s| > 0 && IsWhiteSpace(s[|s| - 1]) then TrimEnd(s[..|s| - 1]) else s
  }

  predicate AllWhiteSpace(s: string) {
    forall i :: 0 <= i < |s| ==> IsWhiteSpace(s[i])
  }

  /** `String.Trim()`: `s` without the white space at both of its ends. */
  function Trim(s: string): (r: string)
    ensures |r| <= |s|
    ensures r == [] || (!IsWhiteSpace(r[0]) && !IsWhiteSpace(r[|r| - 1]))
  {
    TrimEnd(TrimStart(s))
  }

  /** Trim removes exactly the white padding around a core that neither starts nor ends with white space. */
  lemma {:induction false} TrimPadded(w1: string, core: string, w2: string)
    requires AllWhiteSpace(w1) && AllWhiteSpace(w2)
    requires core == [] || (!IsWhiteSpace(core[0]) && !IsWhiteSpace(core[|core| - 1]))
    ensures Trim(w1 + core + w2) == core
  {
    var s := w1 + core + w2;
    if core == [] {
      assert AllWhiteSpace(s);
      AllWhiteTrimsToEmpty(s);
    } else {
      StartSkipsWhite(w1, core + w2);
      assert w1 + core + w2 == w1 + (core + w2);
      EndSkipsWhite(core, w2);
    }
  }

  lemma {:induction false} AllWhiteTrimsToEmpty(s: string)
    requires AllWhiteSpace(s)
    ensures TrimStart(s) == []
  {
    if s != [] {
      AllWhiteTrimsToEmpty(s[1..]);
    }
  }

  lemma {:induction false} StartSkipsWhite(w: string, t: string)
    requires AllWhiteSpace(w)
    requires t != [] && !IsWhiteSpace(t[0])
    ensures TrimStart(w + t) == t
  {
    if w != [] {
      assert (w + t)[1..] == w[1..] + t;
      StartSkipsWhite(w[1..], t);
    }
  }

  lemma {:induction false} EndSkipsWhite(t: string, w: string)
    requires AllWhiteSpace(w)
    requires t != [] && !IsWhiteSpace(t[|t| - 1])
    ensures TrimEnd(t + w) == t
  {
    if w != [] {
      assert (t + w)[..|t + w| - 1] == t + w[..|w| - 1];
      EndSkipsWhite(t, w[..|w| - 1]);
    }
  }

  /** Trimming is idempotent. */
  lemma TrimIdempotent(s: string)
    ensures Trim(Trim(s)) == Trim(s)
  {
    var t := Trim(s);
    assert [] + t + [] == t;
    TrimPadded([], t, []);
  }

  /** `Char.ToLower` on ASCII: upper-case ASCII letters become lower case; every other
      character, non-ASCII letters included, is kept. */
  function LowerChar(c: char): (r: char)
    ensures 'A' <= c <= 'Z' ==> r as int == c as int + 32
    ensures !('A' <= c <= 'Z') ==> r == c
  {
    if 'A' <= c <= 'Z' then (c as int + 32) as char else c
  }

  /** `String.ToLower()`, character by character. */
  function ToLower(s: string): (r: string)
    ensures |r| == |s|
    ensures forall i :: 0 <= i < |s| ==> r[i] == LowerChar(s[i])
  {
    if s == [] then [] else [LowerChar(s[0])] + ToLower(s[1..])
  }

  /** `String.IndexOf(c)`: the first position of `c`, or -1. */
  function IndexOf(s: string, c: char): (r: int)
    ensures -1 <= r < |s|
    ensures r == -1 <==> c !in s
    ensures r >= 0 ==> s[r] == c && c !in s[..r]
  {
    if s == [] then -1
    else if s[0] == c then 0
    else
      var k := IndexOf(s[1..], c);
      if k < 0 then -1 else k + 1
  }
}
