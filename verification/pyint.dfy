/** Python's `int(text)` in base 10: surrounding whitespace is ignored, one
    optional sign, then decimal digits in groups joined by single underscores.
    Anything else raises `ValueError`, modelled as `None`. */
module PyInt {
  import opened Base
  import opened Chars

  /** Digits, with single underscores allowed only between two digits. */
  predicate DigitGroups(s: string) {
    && s != []
    && IsDigit(s[0]) && IsDigit(s[|s| - 1])
    && (forall i | 0 <= i < |s| :: IsDigit(s[i]) || s[i] == '_')
    && NoDoubleUnderscore(s)
  }

  function DropUnderscores(s: string): (r: string)
    requires forall i | 0 <= i < |s| :: IsDigit(s[i]) || s[i] == '_'
    ensures AllDigits(r) && |r| <= |s|
  {
    if s == [] then [] else (if s[0] == '_' then [] else [s[0]]) + DropUnderscores(s[1..])
  }

  /** Whether a stripped numeral starts with a minus sign. */
  predicate Negative(t: string) {
    t != [] && t[0] == '-'
  }

  /** A stripped numeral without its one optional sign. */
  function Unsigned(t: string): (body: string)
    ensures |body| <= |t|
  {
    if t != [] && (t[0] == '-' || t[0] == '+') then t[1..] else t
  }

  /** The interpreter's default limit on the digits `int` reads from decimal
      text (`sys.get_int_max_str_digits()`): longer text raises `ValueError`.
      Leading zeros count; underscores do not. */
  const MaxStrDigits: nat := 4300

  /** Reading a numeral that has already been stripped. */
  function ParseStripped(t: string): (r: Option<int>)
    ensures r.Some? ==> t != []
    ensures r.Some? && r.value < 0 ==> t[0] == '-'
    ensures r.Some? ==> DigitGroups(Unsigned(t)) && |DropUnderscores(Unsigned(t))| <= MaxStrDigits
  {
    var body := Unsigned(t);
    if !DigitGroups(body) then None
    else
      var digits := DropUnderscores(body);
      if |digits| > MaxStrDigits then None
      else
        var v := DigitValue(digits) as int;
        Some(if Negative(t) then -v else v)
  }

  /** `int(raw)`, or None where Python raises. */
  function ParseInt(raw: string): (r: Option<int>)
    ensures r.Some? ==> Strip(raw) != []
    ensures r.Some? && r.value < 0 ==> Strip(raw)[0] == '-'
    ensures r.Some? ==>
      DigitGroups(Unsigned(Strip(raw))) && |DropUnderscores(Unsigned(Strip(raw)))| <= MaxStrDigits
  {
    ParseStripped(Strip(raw))
  }

  /** Text with more digits than the limit is refused, whatever its value. */
  lemma ParseTooManyDigits(s: string)
    requires AllDigits(s) && |s| > MaxStrDigits
    ensures ParseInt(s) == None
  {
    StripOfDigits(s);
    assert ParseInt(s) == ParseStripped(s);
    assert s[0] != '-' && s[0] != '+';
    assert Unsigned(s) == s;
    DropUnderscoresOfDigits(s);
  }

  lemma {:induction false} DropUnderscoresOfDigits(s: string)
    requires AllDigits(s)
    ensures DropUnderscores(s) == s
  {
    if s != [] {
      DropUnderscoresOfDigits(s[1..]);
    }
  }

  lemma StripOfDigits(s: string)
    requires s != [] && AllDigits(s)
    ensures Strip(s) == s
  {
    assert !IsSpace(s[0]);
    assert TrimStart(s) == s;
    assert !IsSpace(s[|s| - 1]);
  }

  lemma StripOfMinusDigits(t: string)
    requires |t| >= 2 && t[0] == '-' && AllDigits(t[1..])
    ensures Strip(t) == t
  {
    assert !IsSpace(t[0]);
    assert TrimStart(t) == t;
    assert t[|t| - 1] == t[1..][|t| - 2];
  }

  lemma DigitsAreGroups(s: string)
    requires s != [] && AllDigits(s)
    ensures DigitGroups(s)
  {
  }

  /** A plain string of digits within the limit reads as its decimal value. */
  lemma ParseDigits(s: string)
    requires s != [] && AllDigits(s) && |s| <= MaxStrDigits
    ensures ParseInt(s) == Some(DigitValue(s) as int)
  {
    StripOfDigits(s);
    assert ParseInt(s) == ParseStripped(s);
    assert s[0] != '-' && s[0] != '+';
    assert !Negative(s) && Unsigned(s) == s;
    DigitsAreGroups(s);
    DropUnderscoresOfDigits(s);
  }

  /** A minus sign before digits within the limit reads as the negated value. */
  lemma ParseNegative(s: string)
    requires s != [] && AllDigits(s) && |s| <= MaxStrDigits
    ensures ParseInt("-" + s) == Some(-(DigitValue(s) as int))
  {
    ParseMinusDigits("-" + s, s);
  }

  lemma ParseMinusDigits(t: string, s: string)
    requires t == "-" + s && s != [] && AllDigits(s) && |s| <= MaxStrDigits
    ensures ParseInt(t) == Some(-(DigitValue(s) as int))
  {
    assert t[1..] == s;
    StripOfMinusDigits(t);
    ParseOfStripped(t);
    ParseStrippedNegative(t);
  }

  lemma ParseOfStripped(t: string)
    requires Strip(t) == t
    ensures ParseInt(t) == ParseStripped(t)
  {
  }

  lemma ParseStrippedNegative(t: string)
    requires |t| >= 2 && t[0] == '-' && AllDigits(t[1..]) && |t| - 1 <= MaxStrDigits
    ensures ParseStripped(t) == Some(-(DigitValue(t[1..]) as int))
  {
    var s := t[1..];
    assert Negative(t) && Unsigned(t) == s;
    DigitsAreGroups(s);
    DropUnderscoresOfDigits(s);
  }

  /** `int(str(n)) == n` for every integer of at most `MaxStrDigits` digits. */
  lemma ParseIntToString(n: int)
    requires |NatToString(if n < 0 then -n else n)| <= MaxStrDigits
    ensures ParseInt(IntToString(n)) == Some(n)
  {
    if n < 0 {
      ParseNegativeNat(-n);
    } else {
      ParseNat(n);
    }
  }

  lemma ParseNat(m: nat)
    requires |NatToString(m)| <= MaxStrDigits
    ensures ParseInt(IntToString(m)) == Some(m)
  {
    var d := NatToString(m);
    assert IntToString(m) == d;
    ParseDigits(d);
    DigitValueOfNatToString(m);
  }

  lemma ParseNegativeNat(m: int)
    requires m > 0 && |NatToString(m)| <= MaxStrDigits
    ensures ParseInt(IntToString(-m)) == Some(-m)
  {
    var d := NatToString(m);
    assert IntToString(-m) == "-" + d;
    ParseNegative(d);
    DigitValueOfNatToString(m);
  }

  /** A blank string does not parse. */
  lemma ParseBlank(raw: string)
    requires Strip(raw) == []
    ensures ParseInt(raw) == None
  {
  }

  lemma StripUnpadded(s: string)
    requires s != [] && !IsSpace(s[0]) && !IsSpace(s[|s| - 1])
    ensures Strip(s) == s
  {
    assert TrimStart(s) == s;
  }

  lemma {:induction false} DropUnderscoresConcat(x: string, y: string)
    requires forall i | 0 <= i < |x| :: IsDigit(x[i]) || x[i] == '_'
    requires forall i | 0 <= i < |y| :: IsDigit(y[i]) || y[i] == '_'
    ensures DropUnderscores(x + y) == DropUnderscores(x) + DropUnderscores(y)
  {
    if x == [] {
      assert x + y == y;
    } else {
      assert (x + y)[1..] == x[1..] + y;
      DropUnderscoresConcat(x[1..], y);
    }
  }

  lemma ParseUnsigned(t: string)
    requires Strip(t) == t && !Negative(t) && Unsigned(t) == t && DigitGroups(t)
    requires |DropUnderscores(t)| <= MaxStrDigits
    ensures ParseInt(t) == Some(DigitValue(DropUnderscores(t)) as int)
  {
    assert ParseInt(t) == ParseStripped(t);
  }

  lemma UnderscoreGroups(a: string, b: string)
    requires a != [] && AllDigits(a) && b != [] && AllDigits(b)
    ensures DigitGroups(a + "_" + b)
  {
    var h := a + "_";
    var g := h + b;
    assert forall i | 0 <= i < |g| :: g[i] == (if i < |h| then h[i] else b[i - |h|]);
    assert forall i | 0 <= i < |g| - 1 && g[i] == '_' :: i == |a|;
  }

  lemma UnderscoreDropped(a: string, b: string)
    requires a != [] && AllDigits(a) && b != [] && AllDigits(b)
    ensures DropUnderscores(a + "_" + b) == a + b
  {
    var h := a + "_";
    assert forall i | 0 <= i < |h| :: IsDigit(h[i]) || h[i] == '_';
    DropUnderscoresConcat(h, b);
    DropUnderscoresConcat(a, "_");
    assert DropUnderscores("_") == [] by { assert "_"[1..] == []; }
    DropUnderscoresOfDigits(a);
    DropUnderscoresOfDigits(b);
    assert DropUnderscores(h) == a;
  }

  /** An underscore between two digit groups is ignored: `int("2_500") == int("2500")`,
      and the digit limit counts the digits only. */
  lemma ParseUnderscore(a: string, b: string)
    requires a != [] && AllDigits(a) && b != [] && AllDigits(b)
    ensures ParseInt(a + "_" + b) == ParseInt(a + b)
  {
    var g, p := a + "_" + b, a + b;
    StripUnpadded(g);
    assert !Negative(g) && Unsigned(g) == g;
    UnderscoreGroups(a, b);
    UnderscoreDropped(a, b);
    if |p| <= MaxStrDigits {
      ParseUnsigned(g);
      ParseDigits(p);
      DropUnderscoresOfDigits(p);
    } else {
      assert ParseInt(g) == ParseStripped(g);
      ParseTooManyDigits(p);
    }
  }
}
