/** `round_value(value, nr_decimals)`: the decimal text of a value is read
    as a Python `Decimal`, quantized to `nr_decimals` fractional digits with
    ROUND_HALF_UP in the default context (precision 28, Emax 999999), and
    written back with `str`.  A decimal is a sign, a coefficient and an
    exponent, all exact. */
module Rounding {
  import opened Common

  /** The default context of Python's decimal module. */
  const PREC: nat := 28
  const EMAX: int := 999999
  /** The smallest exponent a result may have: Emin - prec + 1, Emin = -Emax. */
  const ETINY: int := -EMAX - PREC + 1

  /** (-1)^negative * coefficient * 10^exponent; the sign of a zero is kept. */
  datatype Decimal = Decimal(negative: bool, coefficient: nat, exponent: int)

  function Pow10(k: nat): (r: nat)
    ensures r >= 1
  {
    if k == 0 then 1 else 10 * Pow10(k - 1)
  }

  lemma {:induction false} Pow10Add(a: nat, b: nat)
    ensures Pow10(a + b) == Pow10(a) * Pow10(b)
    decreases a
  {
    if a > 0 {
      Pow10Add(a - 1, b);
    }
  }

  lemma {:induction false} Pow10Mono(a: nat, b: nat)
    requires a <= b
    ensures Pow10(a) <= Pow10(b)
    decreases b
  {
    if a < b {
      Pow10Mono(a, b - 1);
    }
  }

  /** The distance of two naturals. */
  function Dist(a: nat, b: nat): nat {
    if a >= b then a - b else b - a
  }

  // ---------------------------------------------------------------------
  // Decimal digits

  predicate IsDigit(ch: char) {
    '0' <= ch <= '9'
  }

  /** Every character is an ASCII digit. */
  predicate AllDigits(s: string)
    decreases |s|
  {
    |s| == 0 || (AllDigits(s[..|s| - 1]) && IsDigit(s[|s| - 1]))
  }

  lemma {:induction false} AllDigitsAppend(a: string, b: string)
    ensures AllDigits(a + b) <==> AllDigits(a) && AllDigits(b)
    decreases |b|
  {
    if |b| == 0 {
      assert a + b == a;
    } else {
      var b' := b[..|b| - 1];
      assert (a + b)[..|a + b| - 1] == a + b';
      assert (a + b)[|a + b| - 1] == b[|b| - 1];
      AllDigitsAppend(a, b');
    }
  }

  lemma {:induction false} AllDigitsSnoc(s: string, ch: char)
    ensures AllDigits(s + [ch]) <==> AllDigits(s) && IsDigit(ch)
  {
    assert (s + [ch])[..|s|] == s;
  }

  lemma {:induction false} AllDigitsAt(s: string, i: nat)
    requires AllDigits(s) && i < |s|
    ensures IsDigit(s[i])
    decreases |s|
  {
    if i < |s| - 1 {
      AllDigitsAt(s[..|s| - 1], i);
    }
  }

  lemma {:induction false} AllDigitsSplit(s: string, k: nat)
    requires AllDigits(s) && k <= |s|
    ensures AllDigits(s[..k]) && AllDigits(s[k..])
  {
    assert s == s[..k] + s[k..];
    AllDigitsAppend(s[..k], s[k..]);
  }

  function DigitChar(v: nat): (ch: char)
    requires v < 10
    ensures IsDigit(ch)
  {
    ('0' as int + v) as char
  }

  /** The value of one digit character. */
  function DigitValue(ch: char): nat {
    if IsDigit(ch) then ch as int - '0' as int else 0
  }

  /** The number a string of ASCII digits denotes. */
  function DigitsValue(s: string): nat
    decreases |s|
  {
    if |s| == 0 then 0
    else DigitsValue(s[..|s| - 1]) * 10 + DigitValue(s[|s| - 1])
  }

  /** The digits of a natural without leading zeros; "0" for zero. */
  function Digits(c: nat): (r: string)
    ensures |r| >= 1 && AllDigits(r)
    decreases c
  {
    if c < 10 then
      AllDigitsSnoc("", DigitChar(c));
      assert "" + [DigitChar(c)] == [DigitChar(c)];
      [DigitChar(c)]
    else
      AllDigitsSnoc(Digits(c / 10), DigitChar(c % 10));
      Digits(c / 10) + [DigitChar(c % 10)]
  }

  /** `k` zero digits, denoting zero. */
  function Zeros(k: nat): (r: string)
    ensures |r| == k && AllDigits(r) && DigitsValue(r) == 0
  {
    if k == 0 then ""
    else
      var z := Zeros(k - 1);
      AllDigitsSnoc(z, '0');
      DigitsValueSnoc(z, '0');
      z + ['0']
  }

  lemma {:induction false} DigitsValueOfDigits(c: nat)
    ensures DigitsValue(Digits(c)) == c
    decreases c
  {
    if c >= 10 {
      DigitsValueOfDigits(c / 10);
      var s := Digits(c);
      assert s[..|s| - 1] == Digits(c / 10);
    }
  }

  lemma {:induction false} DigitsValueSnoc(s: string, ch: char)
    ensures DigitsValue(s + [ch]) == DigitsValue(s) * 10 + DigitValue(ch)
  {
    assert (s + [ch])[..|s|] == s;
  }

  lemma {:induction false} ShiftDigit(v: int, p: int, w: int, d: int)
    ensures (v * p + w) * 10 + d == v * (p * 10) + (w * 10 + d)
  {
  }

  lemma {:induction false} DigitsValueAppend(a: string, b: string)
    ensures DigitsValue(a + b) == DigitsValue(a) * Pow10(|b|) + DigitsValue(b)
    decreases |b|
  {
    if |b| == 0 {
      assert a + b == a;
    } else {
      var b', ch := b[..|b| - 1], b[|b| - 1];
      assert b == b' + [ch];
      assert a + b == (a + b') + [ch];
      DigitsValueAppend(a, b');
      DigitsValueSnoc(a + b', ch);
      DigitsValueSnoc(b', ch);
      ShiftDigit(DigitsValue(a), Pow10(|b'|), DigitsValue(b'), DigitValue(ch));
    }
  }

  /** A coefficient has more than `p` digits exactly when it reaches 10^p. */
  lemma {:induction false} DigitsBound(c: nat, p: nat)
    requires c > 0 || p > 0
    ensures |Digits(c)| > p <==> c >= Pow10(p)
    decreases c
  {
    if c >= 10 {
      if p > 0 {
        DigitsBound(c / 10, p - 1);
      } else {
        assert |Digits(c)| > 0;
      }
    } else if p > 0 {
      Pow10Mono(1, p);
      assert Pow10(1) == 10;
    }
  }

  // ---------------------------------------------------------------------
  // Quantize

  /** `q` units of 10^-n are the multiple of 10^-n nearest to c * 10^e, a
      tie going to the larger magnitude (ROUND_HALF_UP).  When c * 10^e
      already is such a multiple, `q` is it exactly. */
  predicate RoundsHalfUp(c: nat, e: int, n: nat, q: nat) {
    if e + n >= 0 then q == c * Pow10(e + n)
    else
      var u := Pow10(-(e + n));
      2 * Dist(c, q * u) <= u && (2 * Dist(c, q * u) == u ==> q * u > c)
  }

  /** `c` cut to whole units `u`, rounding up when the remainder is at
      least half a unit. */
  function HalfUp(c: nat, u: nat): nat
    requires u > 0
  {
    c / u + (if 2 * (c % u) >= u then 1 else 0)
  }

  /** The coefficient of `Decimal((s, c, e))._rescale(-n, ROUND_HALF_UP)`:
      padded with zeros, or cut with the first dropped digit deciding. */
  function Rescale(c: nat, e: int, n: nat): nat {
    if e + n >= 0 then c * Pow10(e + n)
    else HalfUp(c, Pow10(-(e + n)))
  }

  /** Cutting `c` to whole units half-up lands within half a unit, a tie
      going up. */
  lemma {:induction false} HalfUpDiv(c: nat, u: nat)
    requires u > 0
    ensures var q := HalfUp(c, u);
      2 * Dist(c, q * u) <= u && (2 * Dist(c, q * u) == u ==> q * u > c)
  {
    var q, m := c / u, c % u;
    assert c == q * u + m && 0 <= m < u;
    assert (q + 1) * u == q * u + u;
  }

  lemma {:induction false} RescaleRounds(c: nat, e: int, n: nat)
    ensures RoundsHalfUp(c, e, n, Rescale(c, e, n))
  {
    if e + n < 0 {
      HalfUpDiv(c, Pow10(-(e + n)));
    }
  }

  lemma {:induction false} MulStep(lo: nat, hi: nat, u: nat)
    requires lo < hi
    ensures hi * u >= lo * u + u
    decreases hi
  {
    assert hi * u == (hi - 1) * u + u;
    if lo < hi - 1 {
      MulStep(lo, hi - 1, u);
    }
  }

  /** Two multiples of a unit `u` cannot both be within half a unit of `c`
      with ties going up. */
  lemma {:induction false} HalfUpUnique(c: nat, u: nat, q1: nat, q2: nat)
    requires u > 0
    requires 2 * Dist(c, q1 * u) <= u && (2 * Dist(c, q1 * u) == u ==> q1 * u > c)
    requires 2 * Dist(c, q2 * u) <= u && (2 * Dist(c, q2 * u) == u ==> q2 * u > c)
    ensures q1 == q2
  {
    if q1 < q2 {
      MulStep(q1, q2, u);
    } else if q2 < q1 {
      MulStep(q2, q1, u);
    }
  }

  /** At most one coefficient rounds c * 10^e half-up to n digits. */
  lemma {:induction false} RoundsHalfUpUnique(c: nat, e: int, n: nat, q1: nat, q2: nat)
    requires RoundsHalfUp(c, e, n, q1) && RoundsHalfUp(c, e, n, q2)
    ensures q1 == q2
  {
    if e + n < 0 {
      HalfUpUnique(c, Pow10(-(e + n)), q1, q2);
    }
  }

  /** `d.quantize(Decimal('1.' + '0' * n), rounding=ROUND_HALF_UP)` in the
      default context: a target exponent below Etiny, or a rounded
      coefficient longer than the precision, raises InvalidOperation. */
  function Quantize(d: Decimal, n: nat): (r: Result<Decimal>)
    ensures r.Ok? ==> r.value.exponent == -(n as int) && r.value.negative == d.negative
    ensures r.Err? ==> r.error == InvalidOperation
  {
    if -(n as int) < ETINY then Err(InvalidOperation)
    else
      var q := Rescale(d.coefficient, d.exponent, n);
      if |Digits(q)| > PREC then Err(InvalidOperation)
      else Ok(Decimal(d.negative, q, -(n as int)))
  }

  /** A quantized decimal is the nearest multiple of 10^-n, ties away from
      zero, with at most 28 digits. */
  lemma {:induction false} QuantizeRounds(d: Decimal, n: nat)
    requires Quantize(d, n).Ok?
    ensures RoundsHalfUp(d.coefficient, d.exponent, n, Quantize(d, n).value.coefficient)
    ensures Quantize(d, n).value.coefficient < Pow10(PREC)
  {
    RescaleRounds(d.coefficient, d.exponent, n);
    DigitsBound(Rescale(d.coefficient, d.exponent, n), PREC);
  }

  /** Quantize fails exactly when the target exponent is below Etiny or the
      correctly rounded coefficient does not fit in 28 digits. */
  lemma {:induction false} QuantizeFails(d: Decimal, n: nat)
    ensures Quantize(d, n).Err? <==>
      -(n as int) < ETINY || forall q: nat :: RoundsHalfUp(d.coefficient, d.exponent, n, q) ==> q >= Pow10(PREC)
  {
    var c, e := d.coefficient, d.exponent;
    var q0 := Rescale(c, e, n);
    RescaleRounds(c, e, n);
    DigitsBound(q0, PREC);
    if -(n as int) >= ETINY && q0 >= Pow10(PREC) {
      forall q: nat | RoundsHalfUp(c, e, n, q)
        ensures q >= Pow10(PREC)
      {
        RoundsHalfUpUnique(c, e, n, q, q0);
      }
    }
  }

  // ---------------------------------------------------------------------
  // Decimal to text

  /** Digits with a decimal point placed `dp` digits from their left:
      leading "0." and zeros when `dp` <= 0, trailing zeros when `dp` is
      past the end. */
  function PointText(ds: string, dp: int): string {
    if dp <= 0 then "0." + Zeros(-dp) + ds
    else if dp >= |ds| then ds + Zeros(dp - |ds|)
    else ds[..dp] + "." + ds[dp..]
  }

  /** `"%+d" % x`. */
  function SignedInt(x: int): string {
    if x >= 0 then "+" + Digits(x) else "-" + Digits(-x)
  }

  function SignText(d: Decimal): string {
    if d.negative then "-" else ""
  }

  /** `str(d)`: plain notation when the exponent is not positive and the
      value has more than -6 digits left of the point; otherwise one digit
      before the point and an exponent. */
  function ToSciString(d: Decimal): string {
    var ds := Digits(d.coefficient);
    var leftdigits := d.exponent + |ds|;
    var dotplace := if d.exponent <= 0 && leftdigits > -6 then leftdigits else 1;
    SignText(d) + PointText(ds, dotplace)
      + (if leftdigits == dotplace then "" else "E" + SignedInt(leftdigits - dotplace))
  }

  /** `format(d, 'f')`: always plain notation. */
  function ToPlainString(d: Decimal): string {
    var ds := Digits(d.coefficient);
    SignText(d) + PointText(ds, d.exponent + |ds|)
  }

  // ---------------------------------------------------------------------
  // Text to decimal

  const POINT: set<char> := {'.'}
  const EXP_MARKS: set<char> := {'e', 'E'}

  /** The index of the first character of `t` in `cs`, or the length. */
  function FirstIn(t: string, cs: set<char>): (k: nat)
    ensures k <= |t|
    decreases |t|
  {
    if |t| == 0 then 0
    else
      var k := FirstIn(t[..|t| - 1], cs);
      if k < |t| - 1 || t[|t| - 1] in cs then k else |t|
  }

  /** Digits around an optional point, at least one digit: the coefficient
      and the number of fractional digits.  A second point leaves a
      non-digit in the fraction. */
  function ParseMantissa(m: string): Option<(nat, nat)> {
    var k := FirstIn(m, POINT);
    var ip := m[..k];
    var fp := if k < |m| then m[k + 1..] else "";
    if AllDigits(ip) && AllDigits(fp) && |ip| + |fp| > 0 then
      Some((DigitsValue(ip + fp), |fp|))
    else None
  }

  /** Empty, or an exponent marker, an optional sign and at least one digit. */
  function ParseExponent(x: string): Option<int> {
    if |x| == 0 then Some(0)
    else
      var y := x[1..];
      var z := if |y| > 0 && (y[0] == '-' || y[0] == '+') then y[1..] else y;
      if |z| > 0 && AllDigits(z) then
        Some(if |y| > 0 && y[0] == '-' then -(DigitsValue(z) as int) else DigitsValue(z))
      else None
  }

  /** An unsigned decimal's text up to its first exponent marker. */
  function MantissaText(t: string): string {
    t[..FirstIn(t, EXP_MARKS)]
  }

  /** An unsigned decimal's text from its first exponent marker on. */
  function ExponentText(t: string): string {
    t[FirstIn(t, EXP_MARKS)..]
  }

  /** The decimal of a mantissa and an exponent that both parsed. */
  function Assemble(mant: Option<(nat, nat)>, ex: Option<int>, negative: bool): Option<Decimal> {
    if mant.Some? && ex.Some? then Some(Decimal(negative, mant.value.0, ex.value - mant.value.1))
    else None
  }

  /** An unsigned decimal's text: the mantissa up to the first exponent
      marker, then the exponent. */
  function ParseUnsigned(t: string, negative: bool): Option<Decimal> {
    Assemble(ParseMantissa(MantissaText(t)), ParseExponent(ExponentText(t)), negative)
  }

  /** `Decimal(text)` for finite numbers written with ASCII digits: an
      optional sign, digits with an optional point, an optional exponent. */
  function ParseDecimal(s: string): Option<Decimal> {
    if |s| > 0 && s[0] == '-' then ParseUnsigned(s[1..], true)
    else if |s| > 0 && s[0] == '+' then ParseUnsigned(s[1..], false)
    else ParseUnsigned(s, false)
  }

  /** Unsigned fixed-point text with exactly `n` fractional digits: at
      least one digit, and when `n` > 0 a point and `n` digits. */
  predicate FixedUnsigned(t: string, n: nat) {
    var k := FirstIn(t, POINT);
    k > 0 && AllDigits(t[..k])
    && if n == 0 then k == |t| else k < |t| && |t[k + 1..]| == n && AllDigits(t[k + 1..])
  }

  /** Fixed-point text with exactly `n` fractional digits and an optional
      minus. */
  predicate FixedPoint(s: string, n: nat) {
    if |s| > 0 && s[0] == '-' then FixedUnsigned(s[1..], n) else FixedUnsigned(s, n)
  }

  // ---------------------------------------------------------------------
  // Round trips

  lemma {:induction false} FirstInAppend(a: string, b: string, cs: set<char>)
    requires FirstIn(a, cs) == |a|
    ensures FirstIn(a + b, cs) == |a| + FirstIn(b, cs)
    decreases |b|
  {
    if |b| == 0 {
      assert a + b == a;
    } else {
      var b' := b[..|b| - 1];
      assert (a + b)[..|a + b| - 1] == a + b';
      assert (a + b)[|a + b| - 1] == b[|b| - 1];
      FirstInAppend(a, b', cs);
    }
  }

  /** A character of `cs` in front is found at once; another one shifts
      the search by one. */
  lemma {:induction false} FirstInCons(ch: char, b: string, cs: set<char>)
    ensures FirstIn([ch] + b, cs) == if ch in cs then 0 else 1 + FirstIn(b, cs)
    decreases |b|
  {
    if |b| == 0 {
      assert [ch] + b == [ch];
      assert [ch][..0] == "";
    } else {
      var b' := b[..|b| - 1];
      assert ([ch] + b)[..|b|] == [ch] + b';
      assert ([ch] + b)[|b|] == b[|b| - 1];
      FirstInCons(ch, b', cs);
    }
  }

  lemma {:induction false} FirstInDigits(s: string, cs: set<char>)
    requires AllDigits(s) && cs <= {'.', 'e', 'E'}
    ensures FirstIn(s, cs) == |s|
    decreases |s|
  {
    if |s| > 0 {
      FirstInDigits(s[..|s| - 1], cs);
    }
  }

  lemma {:induction false} OneDigit(s: string)
    requires |s| == 1 && IsDigit(s[0])
    ensures AllDigits(s)
  {
    assert s[..0] == "";
  }

  lemma {:induction false} DigitsValueZero()
    ensures DigitsValue("0") == 0
  {
    assert "0"[..0] == "";
  }

  /** Leading zeros change neither the digits' validity nor their value. */
  lemma {:induction false} ZerosPrefix(k: nat, ds: string)
    requires AllDigits(ds)
    ensures AllDigits(Zeros(k) + ds) && DigitsValue(Zeros(k) + ds) == DigitsValue(ds)
  {
    AllDigitsAppend(Zeros(k), ds);
    DigitsValueAppend(Zeros(k), ds);
    var p := Pow10(|ds|);
    assert DigitsValue(Zeros(k)) * p == 0;
  }

  // The three shapes of point text.

  lemma {:induction false} LeadingShape(ds: string, dp: int)
    requires dp <= 0
    ensures PointText(ds, dp) == "0" + "." + (Zeros(-dp) + ds)
  {
    var z := Zeros(-dp);
    assert "0." + z + ds == "0." + (z + ds);
    assert "0." == "0" + ".";
  }

  lemma {:induction false} WholeShape(ds: string)
    requires |ds| > 0
    ensures PointText(ds, |ds|) == ds
  {
    assert Zeros(0) == "";
    assert ds + "" == ds;
  }

  lemma {:induction false} InnerShape(ds: string, dp: int)
    requires 0 < dp < |ds|
    ensures PointText(ds, dp) == ds[..dp] + "." + ds[dp..]
  {
  }

  /** Digits followed by digits, or by a point and digits, hold no
      exponent marker. */
  lemma {:induction false} NoExpParts(a: string, b: string, point: bool)
    requires AllDigits(a) && AllDigits(b)
    ensures var m := if point then a + "." + b else a + b;
      FirstIn(m, EXP_MARKS) == |m|
  {
    FirstInDigits(a, EXP_MARKS);
    FirstInDigits(b, EXP_MARKS);
    if point {
      FirstInAppend(a, "." + b, EXP_MARKS);
      FirstInCons('.', b, EXP_MARKS);
      assert a + "." + b == a + ("." + b);
    } else {
      FirstInAppend(a, b, EXP_MARKS);
    }
  }

  /** Digits, a point and digits read as all the digits, the second run
      fractional. */
  lemma {:induction false} MantissaParts(a: string, b: string)
    requires AllDigits(a) && AllDigits(b) && |a| + |b| > 0
    ensures ParseMantissa(a + "." + b) == Some((DigitsValue(a + b), |b|))
  {
    var m := a + "." + b;
    FirstInDigits(a, POINT);
    FirstInAppend(a, "." + b, POINT);
    FirstInCons('.', b, POINT);
    assert m == a + ("." + b);
    assert m[..|a|] == a && m[|a| + 1..] == b;
  }

  /** Digits without a point read as a whole number. */
  lemma {:induction false} MantissaWhole(s: string)
    requires AllDigits(s) && |s| > 0
    ensures ParseMantissa(s) == Some((DigitsValue(s), 0))
  {
    FirstInDigits(s, POINT);
    assert s[..|s|] == s && s + "" == s;
  }

  /** "0." and digits read as those digits, all fractional. */
  lemma {:induction false} MantissaLeading(rest: string)
    requires AllDigits(rest)
    ensures ParseMantissa("0" + "." + rest) == Some((DigitsValue(rest), |rest|))
  {
    var zero := "0";
    OneDigit(zero);
    DigitsValueZero();
    DigitsValueAppend(zero, rest);
    var p := Pow10(|rest|);
    assert DigitsValue(zero) * p == 0;
    MantissaParts(zero, rest);
  }

  /** Digits, a point and `n` digits are fixed point with `n` decimals. */
  lemma {:induction false} FixedParts(a: string, b: string)
    requires AllDigits(a) && AllDigits(b) && |a| > 0 && |b| > 0
    ensures FixedUnsigned(a + "." + b, |b|)
  {
    var m := a + "." + b;
    FirstInDigits(a, POINT);
    FirstInAppend(a, "." + b, POINT);
    FirstInCons('.', b, POINT);
    assert m == a + ("." + b);
    assert m[..|a|] == a && m[|a| + 1..] == b;
  }

  lemma {:induction false} FixedWhole(s: string)
    requires AllDigits(s) && |s| > 0
    ensures FixedUnsigned(s, 0)
  {
    FirstInDigits(s, POINT);
    assert s[..|s|] == s;
  }

  /** What point text with the point at or before the end of its digits
      is: text starting with a digit, without an exponent marker, that
      reads back as the digits' value with the digits after the point
      fractional, and is fixed point with that many decimals. */
  /** What the reader needs of a mantissa: it starts with a digit, has no
      exponent marker, reads back as `v` units of 10^-scale and has exactly
      `scale` decimals. */
  predicate MantissaFacts(m: string, v: nat, scale: nat) {
    |m| > 0 && IsDigit(m[0])
    && FirstIn(m, EXP_MARKS) == |m|
    && ParseMantissa(m) == Some((v, scale))
    && FixedUnsigned(m, scale)
  }

  lemma {:induction false} LeadingFacts(ds: string, dp: int)
    requires AllDigits(ds) && |ds| > 0 && dp <= 0
    ensures MantissaFacts(PointText(ds, dp), DigitsValue(ds), |ds| - dp)
  {
    var rest := Zeros(-dp) + ds;
    ZerosPrefix(-dp, ds);
    LeadingShape(ds, dp);
    OneDigit("0");
    NoExpParts("0", rest, true);
    MantissaLeading(rest);
    FixedParts("0", rest);
  }

  lemma {:induction false} WholeFacts(ds: string)
    requires AllDigits(ds) && |ds| > 0
    ensures MantissaFacts(PointText(ds, |ds|), DigitsValue(ds), 0)
  {
    WholeShape(ds);
    AllDigitsAt(ds, 0);
    NoExpParts(ds, "", false);
    assert ds + "" == ds;
    MantissaWhole(ds);
    FixedWhole(ds);
  }

  lemma {:induction false} InnerFacts(ds: string, dp: int)
    requires AllDigits(ds) && 0 < dp < |ds|
    ensures MantissaFacts(PointText(ds, dp), DigitsValue(ds), |ds| - dp)
  {
    var a, b := ds[..dp], ds[dp..];
    InnerShape(ds, dp);
    AllDigitsSplit(ds, dp);
    AllDigitsAt(ds, 0);
    assert (a + "." + b)[0] == ds[0];
    NoExpParts(a, b, true);
    MantissaParts(a, b);
    assert a + b == ds;
    FixedParts(a, b);
  }

  /** Point text of digits, the point at or before their end, starts with a
      digit, has no exponent marker, reads back as the digits' value with
      the digits after the point fractional, and has exactly that many
      decimals. */
  lemma {:induction false} PointTextRoundTrip(ds: string, dp: int)
    requires AllDigits(ds) && |ds| > 0 && dp <= |ds|
    ensures MantissaFacts(PointText(ds, dp), DigitsValue(ds), |ds| - dp)
  {
    if dp <= 0 {
      LeadingFacts(ds, dp);
    } else if dp == |ds| {
      WholeFacts(ds);
    } else {
      InnerFacts(ds, dp);
    }
  }

  /** An exponent marker, a sign and digits read as the signed value of
      the digits. */
  lemma {:induction false} SignedExponent(sign: char, ds: string)
    requires AllDigits(ds) && |ds| > 0 && (sign == '+' || sign == '-')
    ensures ParseExponent("E" + ([sign] + ds)) ==
      Some(if sign == '-' then -(DigitsValue(ds) as int) else DigitsValue(ds))
  {
    var s := "E" + ([sign] + ds);
    assert s[1..] == [sign] + ds;
    assert ([sign] + ds)[1..] == ds;
  }

  lemma {:induction false} ExponentOfSignedInt(x: int)
    ensures ParseExponent("E" + SignedInt(x)) == Some(x)
  {
    var m := if x >= 0 then x else -x;
    DigitsValueOfDigits(m);
    SignedExponent(if x >= 0 then '+' else '-', Digits(m));
  }


  /** Text without an exponent marker followed by an exponent splits
      between the two. */
  lemma {:induction false} UnsignedParts(m: string, x: string)
    requires FirstIn(m, EXP_MARKS) == |m|
    requires x == "" || x[0] == 'E'
    ensures MantissaText(m + x) == m && ExponentText(m + x) == x
  {
    FirstInAppend(m, x, EXP_MARKS);
    if x != "" {
      FirstInCons(x[0], x[1..], EXP_MARKS);
      assert x == [x[0]] + x[1..];
    }
    assert (m + x)[..|m|] == m && (m + x)[|m|..] == x;
  }

  lemma {:induction false} AppendAssoc(a: string, b: string, c: string)
    ensures a + b + c == a + (b + c)
  {
  }

  /** A sign in front of text starting with a digit is read as the sign of
      the unsigned rest. */
  lemma {:induction false} ParseSigned(d: Decimal, t: string)
    requires |t| > 0 && IsDigit(t[0])
    ensures ParseDecimal(SignText(d) + t) == ParseUnsigned(t, d.negative)
  {
    if d.negative {
      assert (SignText(d) + t)[1..] == t;
    } else {
      assert SignText(d) + t == t;
    }
  }

  /** A sign, a mantissa starting with a digit and an exponent read as the
      signed decimal of the two parts. */
  lemma {:induction false} DecimalOfParts(d: Decimal, m: string, x: string)
    requires |m| > 0 && IsDigit(m[0]) && FirstIn(m, EXP_MARKS) == |m|
    requires x == "" || x[0] == 'E'
    ensures ParseDecimal(SignText(d) + m + x) == Assemble(ParseMantissa(m), ParseExponent(x), d.negative)
  {
    UnsignedParts(m, x);
    assert (m + x)[0] == m[0];
    ParseSigned(d, m + x);
    AppendAssoc(SignText(d), m, x);
  }


  /** A sign, the point text of digits and an exponent read back as the
      decimal of the digits' value, scaled by the exponent and the point. */
  lemma {:induction false} AssembleOf(d: Decimal, mant: Option<(nat, nat)>, scale: nat, ex: Option<int>, e: int)
    requires mant == Some((d.coefficient, scale)) && ex == Some(e) && e - scale == d.exponent
    ensures Assemble(mant, ex, d.negative) == Some(d)
  {
  }

  /** A sign, a mantissa and an exponent read back as the decimal whose
      exponent is the exponent read less the mantissa's scale. */
  lemma {:induction false} MantissaDecimal(d: Decimal, m: string, scale: nat, x: string, e: int)
    requires MantissaFacts(m, d.coefficient, scale)
    requires x == "" || x[0] == 'E'
    requires ParseExponent(x) == Some(e) && e - scale == d.exponent
    ensures ParseDecimal(SignText(d) + m + x) == Some(d)
  {
    DecimalOfParts(d, m, x);
    AssembleOf(d, ParseMantissa(m), scale, ParseExponent(x), e);
  }

  lemma {:induction false} PointTextDecimal(d: Decimal, ds: string, dp: int, x: string, e: int)
    requires AllDigits(ds) && |ds| > 0 && dp <= |ds| && DigitsValue(ds) == d.coefficient
    requires x == "" || x[0] == 'E'
    requires ParseExponent(x) == Some(e) && e - (|ds| - dp) == d.exponent
    ensures ParseDecimal(SignText(d) + PointText(ds, dp) + x) == Some(d)
  {
    PointTextRoundTrip(ds, dp);
    MantissaDecimal(d, PointText(ds, dp), |ds| - dp, x, e);
  }


  lemma {:induction false} NoSuffix(s: string)
    ensures s + "" == s
  {
  }

  /** Plain notation reads back as the same decimal when the exponent is
      not positive. */
  lemma {:induction false} ToPlainStringRoundTrip(d: Decimal)
    requires d.exponent <= 0
    ensures ParseDecimal(ToPlainString(d)) == Some(d)
  {
    var ds := Digits(d.coefficient);
    DigitsValueOfDigits(d.coefficient);
    assert ParseExponent("") == Some(0);
    PointTextDecimal(d, ds, d.exponent + |ds|, "", 0);
    NoSuffix(ToPlainString(d));
  }

  lemma {:induction false} SciText(d: Decimal)
    requires !(d.exponent <= 0 && d.exponent + |Digits(d.coefficient)| > -6)
    ensures var ds := Digits(d.coefficient);
      ToSciString(d) == SignText(d) + PointText(ds, 1) + ("E" + SignedInt(d.exponent + |ds| - 1))
  {
    var ds := Digits(d.coefficient);
    assert |ds| >= 1;
    assert d.exponent + |ds| != 1;
  }

  /** Scientific notation reads back as the same decimal. */
  lemma {:induction false} ToSciStringScientific(d: Decimal)
    requires !(d.exponent <= 0 && d.exponent + |Digits(d.coefficient)| > -6)
    ensures ParseDecimal(ToSciString(d)) == Some(d)
  {
    var ds := Digits(d.coefficient);
    var x := "E" + SignedInt(d.exponent + |ds| - 1);
    SciText(d);
    DigitsValueOfDigits(d.coefficient);
    ExponentOfSignedInt(d.exponent + |ds| - 1);
    PointTextDecimal(d, ds, 1, x, d.exponent + |ds| - 1);
  }

  /** Writing a decimal with `str` and reading it back gives the same
      decimal: sign, coefficient and exponent. */
  lemma {:induction false} ToSciStringRoundTrip(d: Decimal)
    ensures ParseDecimal(ToSciString(d)) == Some(d)
  {
    if d.exponent <= 0 && d.exponent + |Digits(d.coefficient)| > -6 {
      assert ToSciString(d) == ToPlainString(d);
      ToPlainStringRoundTrip(d);
    } else {
      ToSciStringScientific(d);
    }
  }

  /** A sign in front of a fixed-point text starting with a digit keeps it
      fixed-point. */
  lemma {:induction false} SignedFixed(d: Decimal, m: string, v: nat, n: nat)
    requires MantissaFacts(m, v, n)
    ensures FixedPoint(SignText(d) + m, n)
  {
    if d.negative {
      assert (SignText(d) + m)[1..] == m;
    } else {
      assert SignText(d) + m == m;
    }
  }

  /** Plain notation of a decimal with exponent -n has exactly n
      fractional digits. */
  lemma {:induction false} ToPlainStringFixed(d: Decimal)
    requires d.exponent <= 0
    ensures FixedPoint(ToPlainString(d), -d.exponent)
  {
    var ds := Digits(d.coefficient);
    var dp := d.exponent + |ds|;
    PointTextRoundTrip(ds, dp);
    assert |ds| - dp == -d.exponent;
    SignedFixed(d, PointText(ds, dp), DigitsValue(ds), |ds| - dp);
  }


  // ---------------------------------------------------------------------
  // round_value

  /** `round_value(value, nr_decimals)` on the decimal text `str(value)`:
      text that is not a number raises InvalidOperation; then a negative
      number of decimals makes the `%` format of the exponent raise
      ValueError; a quantize that fails raises InvalidOperation. */
  function RoundValue(text: string, n: int): (r: Result<string>)
    ensures ParseDecimal(text).None? ==> r == Err(InvalidOperation)
    ensures ParseDecimal(text).Some? && n < 0 ==> r == Err(ValueError)
    ensures n >= 0 && r.Err? ==> r.error == InvalidOperation
    ensures r.Ok? <==> ParseDecimal(text).Some? && n >= 0 && Quantize(ParseDecimal(text).value, n).Ok?
  {
    match ParseDecimal(text)
    case None => Err(InvalidOperation)
    case Some(d) =>
      if n < 0 then Err(ValueError)
      else
        match Quantize(d, n)
        case Err(e) => Err(e)
        case Ok(q) => Ok(ToSciString(q))
  }

  /** The text `round_value` returns denotes the quantized decimal: the
      input read as a decimal and rounded half-up to `n` fractional
      digits. */
  lemma {:induction false} RoundValueDenotes(text: string, n: nat)
    requires RoundValue(text, n).Ok?
    ensures ParseDecimal(text).Some? && Quantize(ParseDecimal(text).value, n).Ok?
    ensures ParseDecimal(RoundValue(text, n).value) == Some(Quantize(ParseDecimal(text).value, n).value)
  {
    ToSciStringRoundTrip(Quantize(ParseDecimal(text).value, n).value);
  }

  /** With at most six decimals the text `round_value` returns is fixed
      point with exactly `n` fractional digits. */
  lemma {:induction false} RoundValueFixedUpToSix(text: string, n: nat)
    requires n <= 6 && RoundValue(text, n).Ok?
    ensures FixedPoint(RoundValue(text, n).value, n)
  {
    var q := Quantize(ParseDecimal(text).value, n).value;
    assert ToSciString(q) == ToPlainString(q);
    ToPlainStringFixed(q);
  }

  /** The text "0" is the decimal zero with exponent 0. */
  lemma {:induction false} ZeroText()
    ensures ParseDecimal("0") == Some(Decimal(false, 0, 0))
  {
    var zero := "0";
    var d0 := Decimal(false, 0, 0);
    OneDigit(zero);
    DigitsValueZero();
    WholeShape(zero);
    assert ParseExponent("") == Some(0);
    PointTextDecimal(d0, zero, 1, "", 0);
    assert SignText(d0) + PointText(zero, 1) + "" == zero;
  }

  /** `str` writes zero with exponent -7 in scientific notation. */
  lemma {:induction false} ZeroSevenText()
    ensures ToSciString(Decimal(false, 0, -7)) == "0E-7"
  {
    var zero := "0";
    assert Digits(0) == zero;
    WholeShape(zero);
    assert SignedInt(-7) == "-7" by {
      assert Digits(7) == "7";
    }
  }

  /** Zero rounded to seven decimals is written "0E-7", which is not
      fixed point with seven fractional digits. */
  lemma {:induction false} RoundValueZeroSeven()
    ensures RoundValue("0", 7) == Ok("0E-7")
    ensures !FixedPoint("0E-7", 7)
  {
    ZeroText();
    assert Digits(0) == "0";
    assert Quantize(Decimal(false, 0, 0), 7) == Ok(Decimal(false, 0, -7));
    ZeroSevenText();
  }

  /** `round_value` with plain notation: always exactly `n` fractional
      digits; the errors are those of `round_value`. */
  function RoundValueFixed(text: string, n: int): (r: Result<string>)
    ensures ParseDecimal(text).None? ==> r == Err(InvalidOperation)
    ensures ParseDecimal(text).Some? && n < 0 ==> r == Err(ValueError)
    ensures n >= 0 && r.Err? ==> r.error == InvalidOperation
    ensures r.Ok? <==> ParseDecimal(text).Some? && n >= 0 && Quantize(ParseDecimal(text).value, n).Ok?
  {
    match ParseDecimal(text)
    case None => Err(InvalidOperation)
    case Some(d) =>
      if n < 0 then Err(ValueError)
      else
        match Quantize(d, n)
        case Err(e) => Err(e)
        case Ok(q) => Ok(ToPlainString(q))
  }

  /** The plain-notation rounding always writes `n` fractional digits, and
      its text denotes the quantized decimal. */
  lemma {:induction false} RoundValueFixedText(text: string, n: nat)
    requires RoundValueFixed(text, n).Ok?
    ensures FixedPoint(RoundValueFixed(text, n).value, n)
    ensures ParseDecimal(RoundValueFixed(text, n).value) == Some(Quantize(ParseDecimal(text).value, n).value)
  {
    var q := Quantize(ParseDecimal(text).value, n).value;
    ToPlainStringFixed(q);
    ToPlainStringRoundTrip(q);
  }

  /** Both roundings fail on the same inputs and agree up to six decimals. */
  lemma {:induction false} RoundValueFixedAgrees(text: string, n: int)
    ensures RoundValue(text, n).Ok? <==> RoundValueFixed(text, n).Ok?
    ensures n <= 6 ==> RoundValue(text, n) == RoundValueFixed(text, n)
  {
    match ParseDecimal(text)
    case None =>
    case Some(d) =>
      if n >= 0 {
        match Quantize(d, n)
        case Err(_) =>
        case Ok(q) =>
          if n <= 6 {
            assert ToSciString(q) == ToPlainString(q);
          }
      }
  }
}
