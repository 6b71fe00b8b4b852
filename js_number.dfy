/**
  The pieces of JavaScript number semantics the dashboard relies on, stated over exact
  real arithmetic: `Number.prototype.toFixed(2)`, the conversion of a number to a string
  in a template literal, and division whose divisor may be zero.
*/
module JsNumber {
  import opened Wrappers
  import opened Numerals

  function Abs(x: real): (a: real)
    ensures 0.0 <= a && (a == x || a == -x)
  {
    if x < 0.0 then -x else x
  }

  // ---------------------------------------------------------------------------
  // toFixed(2)
  // ---------------------------------------------------------------------------

  /**
    The integer that `toFixed(2)` prints, with the sign of its argument: toFixed picks the
    integer closest to 100 * |x|, the larger one on a tie, so the rounding is to the nearest
    hundredth with halves away from zero.
  */
  function Hundredths(x: real): (n: int)
    ensures 0.0 <= x ==> n as real - 0.5 <= 100.0 * x < n as real + 0.5
    ensures x < 0.0 ==> n as real - 0.5 < 100.0 * x <= n as real + 0.5
    ensures 0.0 <= x ==> 0 <= n
    ensures x < 0.0 ==> n <= 0
  {
    var m := (100.0 * Abs(x) + 0.5).Floor;
    if x < 0.0 then -m else m
  }

  /** The number that `toFixed(2)` denotes: x rounded to hundredths. */
  function RoundTo2(x: real): (y: real)
    ensures -0.005 <= y - x <= 0.005
    ensures 0.0 <= x ==> 0.0 <= y
    ensures x <= 0.0 ==> y <= 0.0
  {
    Hundredths(x) as real / 100.0
  }

  lemma HundredthsOfHundredths(k: int)
    ensures Hundredths(k as real / 100.0) == k
  {
    var n := Hundredths(k as real / 100.0);
    assert 100.0 * (k as real / 100.0) == k as real;
  }

  /** Rounding an already rounded value changes nothing. */
  lemma RoundTo2Idempotent(x: real)
    ensures RoundTo2(RoundTo2(x)) == RoundTo2(x)
  {
    HundredthsOfHundredths(Hundredths(x));
  }

  /**
    `x.toFixed(2)`: a "-" when x is negative (even when the rounded value is zero, as in
    "-0.00"), then the magnitude of the rounded value.
  */
  function ToFixed2(x: real): (s: string)
    ensures 4 <= |s| && s[|s| - 3] == '.' && s[|s| - 4] != '-'
    ensures s[0] == '-' <==> x < 0.0
    ensures IsDigit(s[0]) <==> 0.0 <= x
    ensures forall i :: 1 <= i < |s| && i != |s| - 3 ==> IsDigit(s[i])
    ensures var k := |FixedSign(x)|; s[k] == '0' ==> s[k + 1] == '.'
  {
    var n := Hundredths(x);
    FixedSign(x) + MagnitudeText(if n < 0 then -n else n)
  }

  function FixedSign(x: real): string {
    if x < 0.0 then "-" else ""
  }

  /** m hundredths as the integer part without leading zeros, a point and two digits. */
  function MagnitudeText(m: nat): (s: string)
    ensures 4 <= |s| && s[|s| - 3] == '.'
    ensures forall i :: 0 <= i < |s| && i != |s| - 3 ==> IsDigit(s[i])
    ensures s[0] == '0' ==> s[1] == '.'
  {
    NatText(m / 100) + "." + PaddedText(m % 100, 2)
  }

  /** Reads back text of the shape `toFixed(2)` prints: an optional "-", digits, ".", two digits. */
  function ParseFixed2(s: string): Option<real> {
    if s != [] && s[0] == '-' then
      match ParseMagnitude(s[1..])
      case Some(v) => Some(-v)
      case None => None
    else
      ParseMagnitude(s)
  }

  function ParseMagnitude(s: string): Option<real> {
    if 4 <= |s| && s[|s| - 3] == '.' && AllDigits(s[..|s| - 3]) && AllDigits(s[|s| - 2..]) then
      Some((100 * DigitsValue(s[..|s| - 3]) + DigitsValue(s[|s| - 2..])) as real / 100.0)
    else
      None
  }

  lemma MagnitudeRoundTrip(m: nat)
    ensures ParseMagnitude(MagnitudeText(m)) == Some(m as real / 100.0)
  {
    var a, b := NatText(m / 100), PaddedText(m % 100, 2);
    var u := MagnitudeText(m);
    assert u[..|u| - 3] == a;
    assert u[|u| - 2..] == b;
    NatTextRoundTrip(m / 100);
    PaddedTextRoundTrip(m % 100, 2);
    assert 100 * (m / 100) + m % 100 == m;
  }

  /** The text of `toFixed(2)` denotes exactly the rounded value. */
  lemma ToFixed2RoundTrip(x: real)
    ensures ParseFixed2(ToFixed2(x)) == Some(RoundTo2(x))
  {
    var n := Hundredths(x);
    var m: nat := if n < 0 then -n else n;
    SignedTextRoundTrip(ToFixed2(x), x < 0.0, m);
    assert RoundTo2(x) == n as real / 100.0;
  }

  lemma SignedTextRoundTrip(t: string, negative: bool, m: nat)
    requires t == (if negative then "-" else "") + MagnitudeText(m)
    ensures ParseFixed2(t) == Some(if negative then -(m as real / 100.0) else m as real / 100.0)
  {
    if negative {
      SignedMagnitudeRoundTrip(m);
    } else {
      assert t == MagnitudeText(m);
      UnsignedMagnitudeRoundTrip(m);
    }
  }

  lemma UnsignedMagnitudeRoundTrip(m: nat)
    ensures ParseFixed2(MagnitudeText(m)) == Some(m as real / 100.0)
  {
    var u := MagnitudeText(m);
    MagnitudeRoundTrip(m);
    assert IsDigit(u[0]);
  }

  lemma SignedMagnitudeRoundTrip(m: nat)
    ensures ParseFixed2("-" + MagnitudeText(m)) == Some(-(m as real / 100.0))
  {
    var u := MagnitudeText(m);
    MagnitudeRoundTrip(m);
    assert ("-" + u)[1..] == u;
  }

  // ---------------------------------------------------------------------------
  // Converting a number to a string, as `${value}` does
  // ---------------------------------------------------------------------------

  /**
    A number written in decimal, units / 10^scale: the decimal the value is written as, read
    as an exact real. It is not the exact binary value of a double.
  */
  datatype Decimal = Decimal(units: int, scale: nat) {
    function Value(): real {
      units as real / Pow10(scale) as real
    }
  }

  /** The shortest form: no trailing zero after the decimal point. */
  predicate Canonical(d: Decimal) {
    d.scale > 0 ==> d.units % 10 != 0
  }

  function Normalize(d: Decimal): (e: Decimal)
    ensures Canonical(e) && e.Value() == d.Value()
    decreases d.scale
  {
    if d.scale > 0 && d.units % 10 == 0 then
      var e := Decimal(d.units / 10, d.scale - 1);
      assert d.units == 10 * e.units;
      assert Pow10(d.scale) == 10 * Pow10(e.scale);
      ScaleBoth(e.units, Pow10(e.scale), 10);
      Normalize(e)
    else
      d
  }

  lemma DivMod(m: nat, p: nat)
    requires p > 0
    ensures 0 <= m / p && m % p < p && m == (m / p) * p + m % p
  {
  }

  lemma ScaleBoth(u: int, p: nat, k: nat)
    requires p > 0 && k > 0
    ensures (k * u) as real / (k * p) as real == u as real / p as real
  {
    assert (k * u) as real == k as real * u as real;
    assert (k * p) as real == k as real * p as real;
  }

  lemma {:induction false} Pow10Add(a: nat, b: nat)
    ensures Pow10(a + b) == Pow10(a) * Pow10(b)
    decreases a
  {
    if a > 0 {
      Pow10Add(a - 1, b);
    }
  }

  /** Two shortest forms of the same number are the same form. */
  lemma CanonicalUnique(d: Decimal, e: Decimal)
    requires Canonical(d) && Canonical(e) && d.Value() == e.Value()
    ensures d == e
  {
    if d.scale <= e.scale {
      CanonicalUniqueOrdered(d, e);
    } else {
      CanonicalUniqueOrdered(e, d);
    }
  }

  lemma CanonicalUniqueOrdered(d: Decimal, e: Decimal)
    requires Canonical(d) && Canonical(e) && d.Value() == e.Value()
    requires d.scale <= e.scale
    ensures d == e
  {
    var k := e.scale - d.scale;
    ScaledUnits(d, e);
    if k > 0 {
      assert Pow10(k) == 10 * Pow10(k - 1);
      MultipleOfTen(d.units, Pow10(k - 1));
      assert false;
    }
  }

  /** When e has k more decimal places than d and the same value, e.units is d.units * 10^k. */
  lemma ScaledUnits(d: Decimal, e: Decimal)
    requires d.Value() == e.Value() && d.scale <= e.scale
    ensures e.units == d.units * Pow10(e.scale - d.scale)
  {
    var p, q, t := Pow10(d.scale), Pow10(e.scale), Pow10(e.scale - d.scale);
    Pow10Add(d.scale, e.scale - d.scale);
    CrossMultiply(d.units, p, e.units, q);
    assert d.units * q == (d.units * t) * p;
    Cancel(e.units, d.units * t, p);
  }

  lemma MultipleOfTen(u: int, t: int)
    ensures (u * (10 * t)) % 10 == 0
  {
    assert u * (10 * t) == 10 * (u * t);
  }

  lemma Cancel(a: int, b: int, p: int)
    requires p > 0 && a * p == b * p
    ensures a == b
  {
    assert (a - b) * p == 0;
  }

  lemma CrossMultiply(u: int, p: nat, v: int, q: nat)
    requires p > 0 && q > 0 && u as real / p as real == v as real / q as real
    ensures u * q == v * p
  {
    assert (u * q) as real == u as real * q as real;
    assert (v * p) as real == v as real * p as real;
  }

  /**
    The string `${value}` produces: a "-" for negatives, the integer part, and when the number
    is not whole, a point and the fractional digits with no trailing zero.
  */
  function NumberToString(d: Decimal): (s: string)
    ensures s != []
    ensures s[0] == '-' <==> d.Value() < 0.0
    ensures var k := |NumberSign(s)|;
      && k < |s| && IsDigit(s[k])
      && (s[k] == '0' ==> k + 1 == |s| || s[k + 1] == '.')
    ensures '.' in s ==> s[|s| - 1] != '0'
    ensures ParseNumber(s) == Some(d.Value())
  {
    var e := Normalize(d);
    CanonicalTextLeadingDigit(e);
    CanonicalTextShortest(e);
    CanonicalTextRoundTrip(e);
    CanonicalText(e)
  }

  /** The "-" a printed number starts with, if any. */
  function NumberSign(s: string): string {
    if s != [] && s[0] == '-' then "-" else ""
  }

  function CanonicalText(e: Decimal): string {
    var m: nat := if e.units < 0 then -e.units else e.units;
    var p := Pow10(e.scale);
    DivMod(m, p);
    (if e.units < 0 then "-" else "") + (NatText(m / p) + FractionText(m % p, e.scale))
  }

  function FractionText(f: nat, scale: nat): string
    requires f < Pow10(scale)
  {
    if scale == 0 then "" else "." + PaddedText(f, scale)
  }

  /** The text depends only on the number, not on how it is written as a Decimal. */
  lemma NumberToStringOfEqualValues(d: Decimal, e: Decimal)
    requires d.Value() == e.Value()
    ensures NumberToString(d) == NumberToString(e)
  {
    CanonicalUnique(Normalize(d), Normalize(e));
  }

  /**
    After its optional "-", the text of a number starts with a digit, and with "0" only when
    the integer part is zero, so that "0" is followed by the point or by nothing.
  */
  lemma CanonicalTextLeadingDigit(e: Decimal)
    ensures var s := CanonicalText(e); var k := |NumberSign(s)|;
      && k < |s| && IsDigit(s[k])
      && (s[k] == '0' ==> k + 1 == |s| || s[k + 1] == '.')
      && (s[0] == '-' <==> e.Value() < 0.0)
  {
    NegativeUnits(e);
    var m: nat := if e.units < 0 then -e.units else e.units;
    var p := Pow10(e.scale);
    DivMod(m, p);
    var sign := if e.units < 0 then "-" else "";
    var a := NatText(m / p);
    var t := FractionText(m % p, e.scale);
    var s := CanonicalText(e);
    assert s == sign + (a + t);
    assert NumberSign(s) == sign by {
      assert IsDigit(a[0]);
      assert s[0] == if e.units < 0 then '-' else a[0];
    }
    var k := |sign|;
    assert s[k] == a[0];
    if s[k] == '0' {
      assert a == "0";
      assert t == [] || t[0] == '.';
      if k + 1 < |s| {
        assert s[k + 1] == t[0];
      }
    }
  }

  /** A decimal is negative exactly when its units are. */
  lemma NegativeUnits(e: Decimal)
    ensures e.Value() < 0.0 <==> e.units < 0
  {
    var p := Pow10(e.scale) as real;
    assert e.Value() * p == e.units as real;
  }

  /** The text of a shortest form has no trailing zero after the decimal point. */
  lemma CanonicalTextShortest(e: Decimal)
    requires Canonical(e)
    ensures var s := CanonicalText(e); '.' in s ==> s[|s| - 1] != '0'
  {
    var m: nat := if e.units < 0 then -e.units else e.units;
    var p := Pow10(e.scale);
    DivMod(m, p);
    var sign := if e.units < 0 then "-" else "";
    var a := NatText(m / p);
    var s := CanonicalText(e);
    assert s == sign + (a + FractionText(m % p, e.scale));
    if e.scale == 0 {
      assert s == sign + a by {
        assert a + FractionText(m % p, e.scale) == a;
      }
      forall i | 0 <= i < |s|
        ensures s[i] != '.'
      {
        if i >= |sign| {
          assert s[i] == a[i - |sign|];
        }
      }
    } else {
      var f := m % p;
      var b := PaddedText(f, e.scale);
      assert b == PaddedText(f / 10, e.scale - 1) + [DigitChar(f % 10)];
      assert s[|s| - 1] == DigitChar(f % 10);
      LastDigitOfRemainder(m, Pow10(e.scale - 1));
      assert m % 10 != 0 by {
        NonMultipleOfTen(e.units);
      }
    }
  }

  lemma LastDigitOfRemainder(m: nat, t: nat)
    requires t > 0
    ensures (m % (10 * t)) % 10 == m % 10
  {
    var p := 10 * t;
    DivMod(m, p);
    var a, r := m / p, m % p;
    ShiftByTens(m, t * a, r);
  }

  lemma ShiftByTens(m: nat, k: nat, r: nat)
    requires m == 10 * k + r
    ensures m % 10 == r % 10
  {
    DivMod(r, 10);
    assert m == 10 * (k + r / 10) + r % 10;
  }

  lemma NonMultipleOfTen(u: int)
    requires u % 10 != 0
    ensures (if u < 0 then -u else u) % 10 != 0
  {
  }

  /** Index of the first '.' in s, or |s| if there is none. */
  function DotIndex(s: string): (k: nat)
    ensures k <= |s|
    ensures k < |s| ==> s[k] == '.'
    ensures forall i :: 0 <= i < k ==> s[i] != '.'
  {
    if s == [] || s[0] == '.' then 0 else 1 + DotIndex(s[1..])
  }

  /** Reads back text of the shape `${value}` prints for a number in positional notation. */
  function ParseNumber(s: string): Option<real> {
    if s != [] && s[0] == '-' then
      match ParseUnsignedNumber(s[1..])
      case Some(v) => Some(-v)
      case None => None
    else
      ParseUnsignedNumber(s)
  }

  /** The number written `whole.frac` when frac has `width` digits. */
  function PointValue(whole: nat, frac: nat, width: nat): real {
    whole as real + frac as real / Pow10(width) as real
  }

  function ParseUnsignedNumber(s: string): Option<real> {
    var k := DotIndex(s);
    if k == |s| then
      if s != [] && AllDigits(s) then Some(DigitsValue(s) as real) else None
    else
      var whole, frac := s[..k], s[k + 1..];
      if whole != [] && frac != [] && AllDigits(whole) && AllDigits(frac) then
        Some(PointValue(DigitsValue(whole), DigitsValue(frac), |frac|))
      else
        None
  }

  lemma {:induction false} DotIndexAfterDigits(a: string, rest: string)
    requires AllDigits(a) && (rest == [] || rest[0] == '.')
    ensures DotIndex(a + rest) == |a|
  {
    if a != [] {
      assert (a + rest)[1..] == a[1..] + rest;
      DotIndexAfterDigits(a[1..], rest);
    }
  }

  lemma ParseWhole(a: string)
    requires a != [] && AllDigits(a)
    ensures ParseUnsignedNumber(a) == Some(DigitsValue(a) as real)
  {
    DotIndexAfterDigits(a, []);
    assert a + [] == a;
  }

  lemma ParseWithFraction(a: string, b: string)
    requires a != [] && b != [] && AllDigits(a) && AllDigits(b)
    ensures ParseUnsignedNumber(a + "." + b) == Some(PointValue(DigitsValue(a), DigitsValue(b), |b|))
  {
    var u := a + "." + b;
    assert DotIndex(u) == |a| by {
      DotIndexAfterDigits(a, "." + b);
      assert u == a + ("." + b);
    }
    var k := DotIndex(u);
    assert k < |u|;
    var whole, frac := u[..k], u[k + 1..];
    assert whole == a && frac == b;
  }

  lemma SplitQuotient(m: nat, scale: nat)
    ensures Pow10(scale) > 0 && m / Pow10(scale) >= 0 && m % Pow10(scale) >= 0
    ensures PointValue(m / Pow10(scale), m % Pow10(scale), scale) == m as real / Pow10(scale) as real
  {
    var p := Pow10(scale);
    DivMod(m, p);
    RealSplit(m, p, m / p, m % p);
  }

  lemma RealSplit(m: nat, p: nat, q: nat, f: nat)
    requires p > 0 && m == q * p + f
    ensures q as real + f as real / p as real == m as real / p as real
  {
    assert (q * p) as real == q as real * p as real;
  }

  /** The digits of m / 10^scale, without a sign, read back as that quotient. */
  lemma UnsignedTextRoundTrip(m: nat, scale: nat)
    ensures Pow10(scale) > 0 && m / Pow10(scale) >= 0 && m % Pow10(scale) < Pow10(scale)
    ensures ParseUnsignedNumber(NatText(m / Pow10(scale)) + FractionText(m % Pow10(scale), scale))
         == Some(m as real / Pow10(scale) as real)
  {
    var p := Pow10(scale);
    DivMod(m, p);
    var a, t := NatText(m / p), FractionText(m % p, scale);
    NatTextRoundTrip(m / p);
    SplitQuotient(m, scale);
    if scale > 0 {
      var b := PaddedText(m % p, scale);
      PaddedTextRoundTrip(m % p, scale);
      ParseWithFraction(a, b);
      assert a + t == a + "." + b;
    } else {
      ParseWhole(a);
      assert a + t == a;
    }
  }

  /** For a shortest form, the text reads back as the number. */
  lemma CanonicalTextRoundTrip(e: Decimal)
    ensures ParseNumber(CanonicalText(e)) == Some(e.Value())
  {
    var m: nat := if e.units < 0 then -e.units else e.units;
    var p := Pow10(e.scale);
    UnsignedTextRoundTrip(m, e.scale);
    var a := NatText(m / p);
    var u := a + FractionText(m % p, e.scale);
    assert u[0] == a[0];
    SignedNumberRoundTrip(CanonicalText(e), e.units < 0, u, m as real / p as real);
    SignedValue(e, m);
  }

  lemma SignedNumberRoundTrip(t: string, negative: bool, u: string, v: real)
    requires u != [] && IsDigit(u[0])
    requires t == (if negative then "-" else "") + u
    requires ParseUnsignedNumber(u) == Some(v)
    ensures ParseNumber(t) == Some(if negative then -v else v)
  {
    if negative {
      assert t[0] == '-' && t[1..] == u;
    } else {
      assert t == u;
    }
  }

  lemma SignedValue(e: Decimal, m: nat)
    requires m == if e.units < 0 then -e.units else e.units
    ensures e.Value() == if e.units < 0 then -(m as real / Pow10(e.scale) as real) else m as real / Pow10(e.scale) as real
  {
  }

  /** Two numbers print alike exactly when they are equal. */
  lemma NumberToStringInjective(d: Decimal, e: Decimal)
    ensures NumberToString(d) == NumberToString(e) <==> d.Value() == e.Value()
  {
    if d.Value() == e.Value() {
      NumberToStringOfEqualValues(d, e);
    }
  }

  // ---------------------------------------------------------------------------
  // Division by a magnitude, and toFixed of a value that may not be finite
  // ---------------------------------------------------------------------------

  /** The values JavaScript arithmetic on finite numbers can produce. */
  datatype JsNum = Finite(value: real) | PosInfinity | NegInfinity | NaN

  /**
    `a / b` where b is a magnitude, as `Math.abs` returns: a zero b is +0, so a positive a
    gives Infinity, a negative a gives -Infinity, and 0 / 0 is NaN.
  */
  function Divide(a: real, b: real): (q: JsNum)
    requires 0.0 <= b
    ensures q.Finite? <==> b != 0.0
    ensures q.Finite? ==> q.value * b == a
    ensures q == PosInfinity <==> b == 0.0 && a > 0.0
    ensures q == NegInfinity <==> b == 0.0 && a < 0.0
    ensures q == NaN <==> b == 0.0 && a == 0.0
  {
    if b != 0.0 then Finite(a / b)
    else if a > 0.0 then PosInfinity
    else if a < 0.0 then NegInfinity
    else NaN
  }

  /** `n * k` for a positive finite k: infinities and NaN are kept. */
  function Times(n: JsNum, k: real): (r: JsNum)
    requires 0.0 < k
    ensures r.Finite? <==> n.Finite?
    ensures r.Finite? ==> r.value / k == n.value
    ensures r.Finite? ==> (r.value > 0.0 <==> n.value > 0.0) && (r.value < 0.0 <==> n.value < 0.0)
    ensures !r.Finite? ==> r == n
  {
    match n
    case Finite(x) => Finite(x * k)
    case _ => n
  }

  /**
    `n.toFixed(2)`: a finite number prints as its value rounded to hundredths, and a number
    that is not finite prints as its name, which does not read back as a number.
  */
  function JsToFixed2(n: JsNum): (s: string)
    ensures ParseFixed2(s).Some? <==> n.Finite?
    ensures n.Finite? ==> s == ToFixed2(n.value) && ParseFixed2(s) == Some(RoundTo2(n.value))
    ensures n == PosInfinity ==> s == "Infinity"
    ensures n == NegInfinity ==> s == "-Infinity"
    ensures n == NaN ==> s == "NaN"
  {
    match n
    case Finite(x) =>
      ToFixed2RoundTrip(x);
      ToFixed2(x)
    case PosInfinity =>
      NamesDoNotParse();
      "Infinity"
    case NegInfinity =>
      NamesDoNotParse();
      "-Infinity"
    case NaN =>
      NamesDoNotParse();
      "NaN"
  }

  /** The names of the numbers that are not finite are not toFixed(2) texts. */
  lemma NamesDoNotParse()
    ensures ParseFixed2("Infinity") == None
    ensures ParseFixed2("-Infinity") == None
    ensures ParseFixed2("NaN") == None
  {
    assert "Infinity"[0] != '-' && "Infinity"[5] != '.';
    assert "-Infinity"[0] == '-' && "-Infinity"[1..] == "Infinity";
  }
}
