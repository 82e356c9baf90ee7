/**
 * How the tools turn a number into the text of a content block
 * (JavaScript's `String(number)`), over an idealised number: an
 * unbounded integer or an exact real, never a rounded double.
 *
 * The partners of the renderer are two readers a client would use on a
 * block's text: `ReadInt` recovers an integer, with the round trip
 * `ReadInt(IntText(n)) == Some(n)`, and `ReadDecimal` recovers a decimal,
 * which is the number cut after `FractionDigitLimit` fractional digits
 * (`ReadRealText`).
 */
module Decimal {
  import opened Wrappers

  predicate IsDigit(c: char) {
    '0' <= c <= '9'
  }

  predicate AllDigits(s: string) {
    forall i :: 0 <= i < |s| ==> IsDigit(s[i])
  }

  function DigitValue(c: char): (d: nat)
    requires IsDigit(c)
    ensures d < 10
  {
    c as int - '0' as int
  }

  function DigitChar(d: nat): (c: char)
    requires d < 10
    ensures IsDigit(c) && DigitValue(c) == d
  {
    ('0' as int + d) as char
  }

  /** The decimal digits of `n`, most significant first. */
  function NatText(n: nat): (s: string)
    ensures |s| > 0 && AllDigits(s)
    ensures s[0] == '0' ==> s == "0"
    decreases n
  {
    if n < 10 then [DigitChar(n)] else NatText(n / 10) + [DigitChar(n % 10)]
  }

  /** The value of a string of decimal digits, most significant first. */
  function DigitsValue(s: string): nat
    requires AllDigits(s)
  {
    if s == [] then 0 else DigitsValue(s[..|s| - 1]) * 10 + DigitValue(s[|s| - 1])
  }

  /**
   * `String(n)` for an integer: a minus sign for negatives, then the digits.
   * Only a negative number's text starts with a minus sign, and every other
   * character is a digit.
   */
  function IntText(n: int): (s: string)
    ensures |s| > 0 && (s[0] == '-' <==> n < 0)
    ensures AllDigits(if n < 0 then s[1..] else s)
  {
    if n < 0 then
      assert ("-" + NatText(-n))[1..] == NatText(-n);
      "-" + NatText(-n)
    else NatText(n)
  }

  /**
   * Reads an optionally negative decimal integer, as a client of a tool
   * would read a numeric content block; any other text yields `None`.
   */
  function ReadInt(s: string): (r: Option<int>)
    ensures r.Some? ==> |s| > 0 && (s[0] == '-' || IsDigit(s[0]))
    ensures r.Some? ==> forall i :: 0 < i < |s| ==> IsDigit(s[i])
  {
    if |s| > 0 && s[0] == '-' then
      if |s| > 1 && AllDigits(s[1..]) then
        var magnitude: int := DigitsValue(s[1..]);
        Some(-magnitude)
      else None
    else if |s| > 0 && AllDigits(s) then Some(DigitsValue(s))
    else None
  }

  lemma {:induction false} DigitsValueOfNatText(n: nat)
    ensures DigitsValue(NatText(n)) == n
    decreases n
  {
    if n >= 10 {
      var s := NatText(n);
      assert s == NatText(n / 10) + [DigitChar(n % 10)];
      assert s[..|s| - 1] == NatText(n / 10);
      DigitsValueOfNatText(n / 10);
    }
  }

  /** Reading back the text of an integer gives the integer. */
  lemma ReadIntText(n: int)
    ensures ReadInt(IntText(n)) == Some(n)
  {
    var s := IntText(n);
    if n < 0 {
      var t := NatText(-n);
      assert s == "-" + t && s[0] == '-';
      assert s[1..] == t;
      DigitsValueOfNatText(-n);
      assert ReadInt(s) == Some(-(DigitsValue(t) as int));
    } else {
      assert s == NatText(n) && IsDigit(s[0]);
      DigitsValueOfNatText(n);
    }
  }

  /** Two integers with the same text are the same integer. */
  lemma IntTextInjective(m: int, n: int)
    requires IntText(m) == IntText(n)
    ensures m == n
  {
    ReadIntText(m);
    ReadIntText(n);
  }

  /**
   * The most fractional digits written for a non-integral value: the
   * exact decimal expansion is cut after this many digits.
   */
  const FractionDigitLimit: nat := 20

  /** The digits after the decimal point of a fraction `f` in [0, 1). */
  function FractionText(f: real, limit: nat): (s: string)
    requires 0.0 <= f < 1.0
    ensures AllDigits(s) && |s| <= limit
    ensures |s| == 0 <==> f == 0.0 || limit == 0
    decreases limit
  {
    if f == 0.0 || limit == 0 then ""
    else
      var t := f * 10.0;
      var d := t.Floor;
      [DigitChar(d)] + FractionText(t - d as real, limit - 1)
  }

  predicate IsIntegral(x: real) {
    x == x.Floor as real
  }

  function RealAbs(x: real): (m: real)
    ensures 0.0 <= m && (m == x || m == -x)
  {
    if x < 0.0 then -x else x
  }

  /** A point before fractional digits; nothing when there are none. */
  function PointText(digits: string): (s: string)
    ensures |s| == 0 <==> |digits| == 0
    ensures |s| > 0 ==> s[0] == '.'
  {
    if digits == [] then "" else "." + digits
  }

  /**
   * The text of a number given by its sign, its integer part `w` and the
   * digits of its fractional part: a minus sign for a negative number, the
   * digits of `w`, then a point and the fractional digits unless there are none.
   */
  function DecimalText(negative: bool, w: nat, digits: string): (s: string)
    ensures |s| > 0 && (s[0] == '-' || IsDigit(s[0]))
    ensures s[0] == '-' <==> negative
  {
    if negative then
      assert ("-" + (NatText(w) + PointText(digits)))[0] == '-';
      "-" + (NatText(w) + PointText(digits))
    else
      assert (NatText(w) + PointText(digits))[0] == NatText(w)[0];
      NatText(w) + PointText(digits)
  }

  /**
   * `String(x)` for an idealised number: the sign, the integer part,
   * and, for a non-integral value only, a point and its fractional digits.
   */
  function RealText(x: real): (s: string)
    ensures |s| > 0 && (s[0] == '-' || IsDigit(s[0]))
    ensures s[0] == '-' <==> x < 0.0
  {
    DecimalText(x < 0.0, RealAbs(x).Floor,
      FractionText(RealAbs(x) - RealAbs(x).Floor as real, FractionDigitLimit))
  }

  /** An integral value is written exactly as the integer it equals. */
  lemma RealTextOfInteger(n: int)
    ensures RealText(n as real) == IntText(n)
  {
    var w: nat := if n < 0 then -n else n;
    assert RealAbs(n as real) == w as real;
    assert RealAbs(n as real).Floor == w;
    assert FractionText(0.0, FractionDigitLimit) == "";
    var sign := if n < 0 then "-" else "";
    assert DecimalText(n < 0, w, "") == sign + NatText(w) + "";
  }

  /** A number is integral when its magnitude is. */
  lemma IntegralMagnitude(x: real)
    ensures IsIntegral(RealAbs(x)) ==> IsIntegral(x)
  {
    var m := RealAbs(x);
    if IsIntegral(m) && x < 0.0 {
      var n: int := -m.Floor;
      assert x == n as real;
      assert x.Floor == n;
    }
  }

  /** The text of a non-integral number holds a point after its integer part. */
  lemma FractionalTextHasPoint(x: real)
    requires !IsIntegral(x)
    ensures exists k :: 0 < k < |RealText(x)| && RealText(x)[k] == '.'
  {
    IntegralMagnitude(x);
    var w := RealAbs(x).Floor;
    var digits := FractionText(RealAbs(x) - w as real, FractionDigitLimit);
    DecimalTextPoint(x < 0.0, w, digits);
    var k := |NatText(w)| + (if x < 0.0 then 1 else 0);
    assert RealText(x)[k] == '.';
  }

  /** With fractional digits the point follows the sign and the integer digits. */
  lemma DecimalTextPoint(negative: bool, w: nat, digits: string)
    requires |digits| > 0
    ensures var k := |NatText(w)| + (if negative then 1 else 0);
      0 < k < |DecimalText(negative, w, digits)| && DecimalText(negative, w, digits)[k] == '.'
  {
    var sign := if negative then "-" else "";
    var head := sign + NatText(w);
    assert DecimalText(negative, w, digits) == head + PointText(digits);
    assert (head + PointText(digits))[|head|] == '.';
  }

  /**
   * A number's text reads back as an integer exactly when the number is
   * integral, and then as that integer.
   */
  lemma ReadIntOfRealText(x: real)
    ensures ReadInt(RealText(x)) == if IsIntegral(x) then Some(x.Floor) else None
  {
    if IsIntegral(x) {
      RealTextOfInteger(x.Floor);
      ReadIntText(x.Floor);
    } else {
      FractionalTextHasPoint(x);
      var k :| 0 < k < |RealText(x)| && RealText(x)[k] == '.';
      assert !IsDigit(RealText(x)[k]);
    }
  }

  // ---------------------------------------------------------------------
  // Reading a decimal back

  /** 10^k. */
  function Pow10(k: nat): (p: nat)
    ensures p >= 1
  {
    if k == 0 then 1 else 10 * Pow10(k - 1)
  }

  /** The value of the digits after a decimal point: d1/10 + d2/100 + .... */
  function FractionValue(s: string): (v: real)
    requires AllDigits(s)
    ensures 0.0 <= v
  {
    if s == [] then 0.0 else (DigitValue(s[0]) as real + FractionValue(s[1..])) / 10.0
  }

  /** The index of the first point in `s`, or `|s|` when it has none. */
  function PointIndex(s: string): (i: nat)
    ensures i <= |s| && (i < |s| ==> s[i] == '.')
    ensures forall j :: 0 <= j < i ==> s[j] != '.'
  {
    if s == [] || s[0] == '.' then 0 else 1 + PointIndex(s[1..])
  }

  /**
   * Reads an unsigned decimal: one or more digits, then optionally a point
   * followed by one or more digits.
   */
  function ReadUnsigned(s: string): (r: Option<real>)
    ensures r.Some? ==> |s| > 0 && IsDigit(s[0]) && 0.0 <= r.value
  {
    var i := PointIndex(s);
    if i < |s| then
      var r := ReadParts(s[..i], s[i + 1..], true);
      assert r.Some? ==> s[0] == s[..i][0];
      r
    else ReadParts(s, "", false)
  }

  /**
   * The value of an unsigned decimal split at its point: the whole part
   * needs a digit, and a fraction after a point needs one too.
   */
  function ReadParts(whole: string, fraction: string, point: bool): (r: Option<real>)
    ensures r.Some? ==> |whole| > 0 && IsDigit(whole[0]) && 0.0 <= r.value
  {
    if |whole| > 0 && AllDigits(whole) && (point ==> |fraction| > 0) && AllDigits(fraction) then
      Some(DigitsValue(whole) as real + FractionValue(fraction))
    else None
  }

  /**
   * Reads a decimal number, as a client of a tool would read a numeric
   * content block: an optional minus sign, then an unsigned decimal.
   */
  function ReadDecimal(s: string): (r: Option<real>)
    ensures r.Some? ==> |s| > 0 && (s[0] == '-' || IsDigit(s[0]))
    ensures r.Some? && r.value < 0.0 ==> s[0] == '-'
  {
    if |s| > 0 && s[0] == '-' then
      match ReadUnsigned(s[1..])
      case None => None
      case Some(v) => Some(-v)
    else ReadUnsigned(s)
  }

  lemma IntegralShift(y: real, k: int, z: real)
    requires z == y + k as real
    ensures IsIntegral(z) <==> IsIntegral(y)
  {
    assert z.Floor == y.Floor + k;
  }

  lemma IntegralNegate(y: real)
    ensures IsIntegral(-y) <==> IsIntegral(y)
  {
    if IsIntegral(y) {
      var n: int := -y.Floor;
      assert -y == n as real;
    }
    if IsIntegral(-y) {
      var n: int := -(-y).Floor;
      assert y == n as real;
    }
  }

  /**
   * The digits written for a fraction `f` cut its expansion after `limit`
   * places: their value is at most `f` and less than 10^-limit below it.
   */
  lemma {:induction false} FractionTextValue(f: real, limit: nat)
    requires 0.0 <= f < 1.0
    ensures var v := FractionValue(FractionText(f, limit));
      v <= f < v + 1.0 / Pow10(limit) as real
    decreases limit
  {
    if f == 0.0 {
      assert FractionText(f, limit) == "";
    } else if limit == 0 {
      assert FractionText(f, limit) == "";
    } else {
      var d := (f * 10.0).Floor;
      FractionTextFirstDigit(f, limit);
      FractionTextValue(f * 10.0 - d as real, limit - 1);
      CutBound(f, d, f * 10.0 - d as real, FractionValue(FractionText(f * 10.0 - d as real, limit - 1)), limit);
    }
  }

  /** `x * 10^k`: `x` with its decimal point moved `k` places to the right. */
  function Shift(x: real, k: nat): real {
    x * Pow10(k) as real
  }

  /** The written digits are all of `f` exactly when `f * 10^limit` is whole. */
  lemma {:induction false} FractionTextExact(f: real, limit: nat)
    requires 0.0 <= f < 1.0
    ensures FractionValue(FractionText(f, limit)) == f <==> IsIntegral(Shift(f, limit))
    decreases limit
  {
    if f == 0.0 {
      assert FractionText(f, limit) == "";
      assert Shift(f, limit) == 0 as real;
    } else if limit == 0 {
      assert FractionText(f, limit) == "";
      assert Shift(f, limit) == f && f.Floor == 0;
    } else {
      var d := (f * 10.0).Floor;
      FractionTextFirstDigit(f, limit);
      FractionTextExact(f * 10.0 - d as real, limit - 1);
      CutExact(f, d, f * 10.0 - d as real, limit);
    }
  }

  /** The first written digit of a non-zero fraction is the integer part of ten times it. */
  lemma FractionTextFirstDigit(f: real, limit: nat)
    requires 0.0 < f < 1.0 && limit > 0
    ensures var d := (f * 10.0).Floor;
      0 <= d < 10 &&
      FractionValue(FractionText(f, limit))
        == (d as real + FractionValue(FractionText(f * 10.0 - d as real, limit - 1))) / 10.0
  {
    var d := (f * 10.0).Floor;
    var rest := FractionText(f * 10.0 - d as real, limit - 1);
    var s := FractionText(f, limit);
    assert s == [DigitChar(d)] + rest;
    assert s[1..] == rest;
  }

  /** One step of the cut: the bound on `f` from the bound on its tail `g`. */
  lemma CutBound(f: real, d: int, g: real, w: real, limit: nat)
    requires f * 10.0 == d as real + g && limit > 0
    requires w <= g < w + 1.0 / Pow10(limit - 1) as real
    ensures (d as real + w) / 10.0 <= f < (d as real + w) / 10.0 + 1.0 / Pow10(limit) as real
  {
    var p := Pow10(limit - 1) as real;
    assert Pow10(limit) as real == 10.0 * p;
    assert 1.0 / (10.0 * p) == (1.0 / p) / 10.0;
  }

  /** One step of the cut: `f` shifted by `limit` places is whole exactly when its tail `g` shifted by one place fewer is. */
  lemma CutExact(f: real, d: int, g: real, limit: nat)
    requires f * 10.0 == d as real + g && limit > 0
    ensures IsIntegral(Shift(f, limit)) <==> IsIntegral(Shift(g, limit - 1))
  {
    var k := Pow10(limit - 1);
    var p := k as real;
    assert Pow10(limit) as real == 10.0 * p;
    assert Shift(f, limit) == (f * 10.0) * p;
    assert (d * k) as real == d as real * p;
    IntegralShift(Shift(g, limit - 1), d * k, Shift(f, limit));
  }

  lemma {:induction false} PointIndexAfterDigits(a: string, b: string)
    requires AllDigits(a) && (|b| > 0 ==> b[0] == '.')
    ensures PointIndex(a + b) == |a|
  {
    if a != [] {
      assert (a + b)[0] == a[0] && (a + b)[1..] == a[1..] + b;
      PointIndexAfterDigits(a[1..], b);
    }
  }

  lemma {:induction false} PointIndexOfDigits(a: string)
    requires AllDigits(a)
    ensures PointIndex(a) == |a|
  {
    if a != [] {
      PointIndexOfDigits(a[1..]);
    }
  }

  lemma {:induction false} ReadWholeDigits(whole: string)
    requires |whole| > 0 && AllDigits(whole)
    ensures ReadUnsigned(whole) == Some(DigitsValue(whole) as real)
  {
    PointIndexOfDigits(whole);
  }

  lemma {:induction false} ReadPointDigits(whole: string, fraction: string)
    requires |whole| > 0 && AllDigits(whole) && |fraction| > 0 && AllDigits(fraction)
    ensures ReadUnsigned(whole + ("." + fraction))
         == Some(DigitsValue(whole) as real + FractionValue(fraction))
  {
    var u := whole + ("." + fraction);
    PointIndexAfterDigits(whole, "." + fraction);
    assert u[..|whole|] == whole;
    assert u[|whole| + 1..] == fraction;
  }

  /** The unsigned part of a number's text reads back as its integer part plus its fraction's value. */
  lemma {:induction false} ReadUnsignedText(w: nat, digits: string)
    requires AllDigits(digits)
    ensures ReadUnsigned(NatText(w) + PointText(digits)) == Some(w as real + FractionValue(digits))
  {
    DigitsValueOfNatText(w);
    if digits == [] {
      assert NatText(w) + PointText(digits) == NatText(w);
      ReadWholeDigits(NatText(w));
    } else {
      ReadPointDigits(NatText(w), digits);
    }
  }

  /** A minus sign before an unsigned decimal negates the value read. */
  lemma {:induction false} ReadMinus(u: string, v: real)
    requires ReadUnsigned(u) == Some(v)
    ensures ReadDecimal("-" + u) == Some(-v)
  {
    assert ("-" + u)[0] == '-' && ("-" + u)[1..] == u;
  }

  /**
   * A number's text reads back as its sign applied to its integer part `w`
   * plus the value of its fractional digits.
   */
  lemma {:induction false} ReadDecimalText(negative: bool, w: nat, digits: string)
    requires AllDigits(digits)
    ensures ReadDecimal(DecimalText(negative, w, digits))
         == Some(if negative then -(w as real + FractionValue(digits)) else w as real + FractionValue(digits))
  {
    ReadUnsignedText(w, digits);
    if negative {
      ReadMinus(NatText(w) + PointText(digits), w as real + FractionValue(digits));
    }
  }

  /** `x * 10^limit` is whole exactly when the fractional part of `|x|`, so shifted, is. */
  lemma ShiftIntegral(x: real, limit: nat)
    ensures IsIntegral(Shift(x, limit))
        <==> IsIntegral(Shift(RealAbs(x) - RealAbs(x).Floor as real, limit))
  {
    ShiftMagnitude(x, RealAbs(x), limit);
    ShiftFraction(RealAbs(x), RealAbs(x).Floor, limit);
  }

  /** Shifting keeps integrality when the sign of the number is dropped. */
  lemma ShiftMagnitude(x: real, m: real, limit: nat)
    requires m == x || m == -x
    ensures IsIntegral(Shift(m, limit)) <==> IsIntegral(Shift(x, limit))
  {
    if m != x {
      assert Shift(m, limit) == -Shift(x, limit);
      IntegralNegate(Shift(x, limit));
    }
  }

  /** Removing a whole part `w` before shifting subtracts the whole number `w * 10^limit`. */
  lemma ShiftFraction(a: real, w: int, limit: nat)
    ensures IsIntegral(Shift(a - w as real, limit)) <==> IsIntegral(Shift(a, limit))
  {
    var k := Pow10(limit);
    assert Shift(a - w as real, limit) == Shift(a, limit) - w as real * k as real;
    assert (w * k) as real == w as real * k as real;
    IntegralShift(Shift(a - w as real, limit), w * k, Shift(a, limit));
  }

  /**
   * Reading a number's text back as a decimal gives the number cut after
   * `FractionDigitLimit` fractional digits: no larger in magnitude, less
   * than 10^-20 away, and the number itself exactly when its expansion
   * ends within those digits.
   */
  lemma {:induction false} ReadRealText(x: real)
    ensures ReadDecimal(RealText(x)).Some?
    ensures var y := ReadDecimal(RealText(x)).value;
      RealAbs(y) <= RealAbs(x) && RealAbs(x - y) < 1.0 / Pow10(FractionDigitLimit) as real
    ensures ReadDecimal(RealText(x)).value == x <==> IsIntegral(Shift(x, FractionDigitLimit))
  {
    ReadDecimalText(x < 0.0, RealAbs(x).Floor,
      FractionText(RealAbs(x) - RealAbs(x).Floor as real, FractionDigitLimit));
    FractionTextValue(RealAbs(x) - RealAbs(x).Floor as real, FractionDigitLimit);
    FractionTextExact(RealAbs(x) - RealAbs(x).Floor as real, FractionDigitLimit);
    ShiftIntegral(x, FractionDigitLimit);
  }
}
