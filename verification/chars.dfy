/** Character classes and string helpers with Python's semantics where the bot
    relies on them: `str.isspace`, `str.strip`, `str.lower` on ASCII, decimal
    rendering of integers, `startswith`, `in` on strings and `<=` on strings. */
module Chars {

  /** Python's `str.isspace` for one code point (the full list of characters
      Python 3 classifies as whitespace). */
  predicate IsSpace(c: char) {
    || ('\U{9}' <= c <= '\U{D}')
    || ('\U{1C}' <= c <= '\U{20}')
    || c == '\U{85}' || c == '\U{A0}' || c == '\U{1680}'
    || ('\U{2000}' <= c <= '\U{200A}')
    || c == '\U{2028}' || c == '\U{2029}' || c == '\U{202F}' || c == '\U{205F}'
    || c == '\U{3000}'
  }

  /** The characters at which Python's `str.splitlines` breaks a line. */
  predicate IsLineBreak(c: char) {
    || ('\U{A}' <= c <= '\U{D}')
    || ('\U{1C}' <= c <= '\U{1E}')
    || c == '\U{85}' || c == '\U{2028}' || c == '\U{2029}'
  }

  lemma LineBreakIsSpace(c: char)
    ensures IsLineBreak(c) ==> IsSpace(c)
  {
  }

  predicate IsDigit(c: char) {
    '0' <= c <= '9'
  }

  predicate AllDigits(s: string) {
    forall i | 0 <= i < |s| :: IsDigit(s[i])
  }

  /** Membership in the regular-expression class `[a-z0-9]`. */
  predicate IsSlugChar(c: char) {
    ('a' <= c <= 'z') || IsDigit(c)
  }

  /** No underscore at `i` is followed by another. */
  predicate SingleUnderscoreAt(s: string, i: int)
    requires 0 <= i < |s| - 1
  {
    s[i] == '_' ==> s[i + 1] != '_'
  }

  /** No two underscores in a row. */
  predicate NoDoubleUnderscore(s: string) {
    forall i | 0 <= i < |s| - 1 :: SingleUnderscoreAt(s, i)
  }

  /** Prepending `c` keeps underscores single unless it doubles the head. */
  lemma NoDoubleCons(c: char, r: string)
    requires NoDoubleUnderscore(r) && (c == '_' ==> r == [] || r[0] != '_')
    ensures NoDoubleUnderscore([c] + r)
  {
    var s := [c] + r;
    forall i | 0 <= i < |s| - 1 ensures SingleUnderscoreAt(s, i) {
      if i > 0 {
        assert SingleUnderscoreAt(r, i - 1);
      }
    }
  }

  /** Every slice of a string without double underscores has none either. */
  lemma NoDoubleSlice(s: string, a: int, b: int)
    requires NoDoubleUnderscore(s) && 0 <= a <= b <= |s|
    ensures NoDoubleUnderscore(s[a..b])
  {
    var t := s[a..b];
    forall i | 0 <= i < |t| - 1 ensures SingleUnderscoreAt(t, i) {
      assert SingleUnderscoreAt(s, a + i);
    }
  }

  function LowerChar(c: char): (r: char)
    ensures 'A' <= c <= 'Z' ==> 'a' <= r <= 'z'
    ensures !('A' <= c <= 'Z') ==> r == c
  {
    if 'A' <= c <= 'Z' then (c as int + 32) as char else c
  }

  /** `str.lower`, restricted to the ASCII letters. */
  function Lower(s: string): (r: string)
    ensures |r| == |s|
    ensures forall i | 0 <= i < |s| :: r[i] == LowerChar(s[i])
  {
    if s == [] then [] else [LowerChar(s[0])] + Lower(s[1..])
  }

  /* ---------- whitespace stripping ---------- */

  function TrimStart(s: string): (r: string)
    ensures |r| <= |s| && r == s[|s| - |r|..]
    ensures r == [] || !IsSpace(r[0])
    ensures forall i | 0 <= i < |s| - |r| :: IsSpace(s[i])
  {
    if |s| > 0 && IsSpace(s[0]) then
      var r := TrimStart(s[1..]);
      DropFrontStep(s, r, IsSpace);
      r
    else s
  }

  /** Dropping one more leading character that satisfies `p`. */
  lemma DropFrontStep(s: string, r: string, p: char -> bool)
    requires |s| > 0 && p(s[0])
    requires |r| <= |s| - 1 && r == s[1..][|s| - 1 - |r|..]
    requires forall i | 0 <= i < |s| - 1 - |r| :: p(s[1..][i])
    ensures |r| <= |s| && r == s[|s| - |r|..]
    ensures forall i | 0 <= i < |s| - |r| :: p(s[i])
  {
    forall i | 0 <= i < |s| - |r| ensures p(s[i]) {
      if i > 0 {
        assert s[i] == s[1..][i - 1];
      }
    }
  }

  function TrimEnd(s: string): (r: string)
    ensures |r| <= |s| && r == s[..|r|]
    ensures r == [] || !IsSpace(r[|r| - 1])
    ensures forall i | |r| <= i < |s| :: IsSpace(s[i])
  {
    if |s| > 0 && IsSpace(s[|s| - 1]) then
      var r := TrimEnd(s[..|s| - 1]);
      DropBackStep(s, s[..|s| - 1], r, IsSpace);
      r
    else s
  }

  /** Dropping one more trailing character that satisfies `p`; `t` is `s`
      without its last character. */
  lemma DropBackStep(s: string, t: string, r: string, p: char -> bool)
    requires |s| > 0 && p(s[|s| - 1]) && t == s[..|s| - 1]
    requires |r| <= |t| && r == t[..|r|]
    requires forall i | |r| <= i < |t| :: p(t[i])
    ensures |r| <= |s| && r == s[..|r|]
    ensures forall i | |r| <= i < |s| :: p(s[i])
  {
    forall i | |r| <= i < |s| ensures p(s[i]) {
      if i < |t| {
        assert s[i] == t[i];
      }
    }
  }

  /** `str.strip()` with no argument. */
  function Strip(s: string): (r: string)
  {
    TrimEnd(TrimStart(s))
  }

  /** The non-whitespace characters of a string, in order. */
  function NonSpace(s: string): (r: string)
    ensures |r| <= |s|
  {
    if s == [] then [] else (if IsSpace(s[0]) then [] else [s[0]]) + NonSpace(s[1..])
  }

  predicate AllSpace(s: string) {
    forall i | 0 <= i < |s| :: IsSpace(s[i])
  }

  lemma {:induction false} NonSpaceConcat(a: string, b: string)
    ensures NonSpace(a + b) == NonSpace(a) + NonSpace(b)
  {
    if a == [] {
      assert a + b == b;
    } else {
      assert (a + b)[1..] == a[1..] + b;
      NonSpaceConcat(a[1..], b);
    }
  }

  lemma {:induction false} NonSpaceOfAllSpace(s: string)
    requires AllSpace(s)
    ensures NonSpace(s) == []
  {
    if s != [] {
      NonSpaceOfAllSpace(s[1..]);
    }
  }

  lemma {:induction false} AllSpaceOfEmptyNonSpace(s: string)
    requires NonSpace(s) == []
    ensures AllSpace(s)
  {
    if s != [] {
      AllSpaceOfEmptyNonSpace(s[1..]);
    }
  }

  /** Stripping keeps a contiguous slice of the input. */
  lemma StripIsSlice(s: string)
    ensures exists i, j :: 0 <= i <= j <= |s| && Strip(s) == s[i..j]
  {
    var t := TrimStart(s);
    var r := TrimEnd(t);
    SliceOfSlice(s, t, r);
    var i := |s| - |t|;
    assert 0 <= i <= i + |r| <= |s| && Strip(s) == s[i..i + |r|];
  }

  /** A front of a back of `s` is a slice of `s`. */
  lemma SliceOfSlice<T>(s: seq<T>, t: seq<T>, r: seq<T>)
    requires |t| <= |s| && t == s[|s| - |t|..]
    requires |r| <= |t| && r == t[..|r|]
    ensures r == s[|s| - |t|..|s| - |t| + |r|]
  {
  }

  /** The stripped string has no whitespace at either end. */
  lemma StripEnds(s: string)
    ensures Strip(s) == [] || (!IsSpace(Strip(s)[0]) && !IsSpace(Strip(s)[|Strip(s)| - 1]))
  {
    var t := TrimStart(s);
    var r := TrimEnd(t);
    if r != [] {
      assert r[0] == t[0];
    }
  }

  /** Stripping yields the empty string exactly when the input is all whitespace. */
  lemma StripEmptyIff(s: string)
    ensures Strip(s) == [] <==> AllSpace(s)
  {
    var t := TrimStart(s);
    var i := |s| - |t|;
    if Strip(s) == [] {
      assert t == [];
    } else {
      assert t != [] && !IsSpace(t[0]);
      assert s[i] == t[0];
    }
  }

  lemma {:induction false} TrimStartKeepsNonSpace(s: string)
    ensures NonSpace(TrimStart(s)) == NonSpace(s)
  {
    if |s| > 0 && IsSpace(s[0]) {
      TrimStartKeepsNonSpace(s[1..]);
    }
  }

  lemma {:induction false} TrimEndKeepsNonSpace(s: string)
    ensures NonSpace(TrimEnd(s)) == NonSpace(s)
  {
    if |s| > 0 && IsSpace(s[|s| - 1]) {
      var init := s[..|s| - 1];
      assert s == init + [s[|s| - 1]];
      NonSpaceConcat(init, [s[|s| - 1]]);
      TrimEndKeepsNonSpace(init);
    }
  }

  /** Stripping loses no character other than whitespace. */
  lemma StripKeepsNonSpace(s: string)
    ensures NonSpace(Strip(s)) == NonSpace(s)
  {
    TrimStartKeepsNonSpace(s);
    TrimEndKeepsNonSpace(TrimStart(s));
  }

  lemma StripIdempotent(s: string)
    ensures Strip(Strip(s)) == Strip(s)
  {
    var r := Strip(s);
    StripEnds(s);
    if r != [] {
      assert TrimStart(r) == r;
      assert TrimEnd(r) == r;
    }
  }

  /* ---------- decimal rendering ---------- */

  function DigitChar(d: nat): (c: char)
    requires d < 10
    ensures IsDigit(c)
  {
    ('0' as int + d) as char
  }

  function DigitOf(c: char): (d: nat)
    requires IsDigit(c)
    ensures d < 10
  {
    c as int - '0' as int
  }

  /** Python's `str(n)` for a natural number. */
  function NatToString(n: nat): (s: string)
    ensures |s| >= 1 && AllDigits(s)
    decreases n
  {
    if n < 10 then [DigitChar(n)] else NatToString(n / 10) + [DigitChar(n % 10)]
  }

  /** Python's `str(i)` for any integer. */
  function IntToString(i: int): string {
    if i < 0 then "-" + NatToString(-i) else NatToString(i)
  }

  /** Python's `int(s)` for a string of ASCII decimal digits (leading zeros allowed). */
  function DigitValue(s: string): nat
    requires AllDigits(s)
  {
    if s == [] then 0 else DigitValue(s[..|s| - 1]) * 10 + DigitOf(s[|s| - 1])
  }

  /** Rendering then reading back a natural number gives the number again. */
  lemma {:induction false} DigitValueOfNatToString(n: nat)
    ensures DigitValue(NatToString(n)) == n
    decreases n
  {
    var s := NatToString(n);
    if n >= 10 {
      assert s[..|s| - 1] == NatToString(n / 10);
      DigitValueOfNatToString(n / 10);
    }
  }

  lemma NatToStringInjective(a: nat, b: nat)
    ensures NatToString(a) == NatToString(b) ==> a == b
  {
    DigitValueOfNatToString(a);
    DigitValueOfNatToString(b);
  }

  /** `str(n)` has at least five digits exactly when n is at least 10000. */
  lemma NatToStringLength(n: nat)
    ensures |NatToString(n)| >= 5 <==> n >= 10000
  {
    LengthAtLeast(n, 4, 10000);
  }

  function Pow10(k: nat): (p: nat)
    ensures p >= 1
  {
    if k == 0 then 1 else 10 * Pow10(k - 1)
  }

  /** The decimal form of `n` has more than `k` digits exactly when `n` is at
      least `10^k`. */
  lemma {:induction false} LengthAtLeast(n: nat, k: nat, p: nat)
    requires 1 <= k && p == Pow10(k)
    ensures |NatToString(n)| >= k + 1 <==> n >= p
    decreases k
  {
    if k > 1 {
      var q := Pow10(k - 1);
      assert p == 10 * q;
      LengthAtLeast(n / 10, k - 1, q);
      assert q >= 10 by {
        assert Pow10(k - 1) == 10 * Pow10(k - 2);
      }
    }
  }

  /* ---------- prefixes, substrings, ordering ---------- */

  /** `s.startswith(p)`. */
  predicate IsPrefix(p: string, s: string) {
    |p| <= |s| && s[..|p|] == p
  }

  /** `sub in s` for strings. */
  predicate Contains(s: string, sub: string)
    decreases |s|
  {
    IsPrefix(sub, s) || (|s| > 0 && Contains(s[1..], sub))
  }

  lemma {:induction false} PrefixIsContained(p: string, s: string)
    ensures IsPrefix(p, s) ==> Contains(s, p)
  {
  }

  /** Python's `a <= b` on strings: lexicographic on code points. */
  predicate LexLe(a: string, b: string)
    decreases |a|
  {
    if a == [] then true
    else if b == [] then false
    else if a[0] != b[0] then a[0] < b[0]
    else LexLe(a[1..], b[1..])
  }

  lemma {:induction false} LexLeTotal(a: string, b: string)
    ensures LexLe(a, b) || LexLe(b, a)
    decreases |a|
  {
    if a != [] && b != [] && a[0] == b[0] {
      LexLeTotal(a[1..], b[1..]);
    }
  }

  lemma {:induction false} LexLeTransitive(a: string, b: string, c: string)
    requires LexLe(a, b) && LexLe(b, c)
    ensures LexLe(a, c)
    decreases |a|
  {
    if a != [] && b != [] && c != [] && a[0] == b[0] && b[0] == c[0] {
      LexLeTransitive(a[1..], b[1..], c[1..]);
    }
  }
}
