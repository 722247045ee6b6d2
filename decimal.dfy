/**
 * Arbitrary-precision decimals as `java.math.BigDecimal` holds them: an
 * unscaled integer and a scale, denoting unscaled * 10^(-scale). Covers the
 * string constructor `new BigDecimal(String)` and `compareTo`, which compares
 * numeric values and ignores the scale.
 */
module Decimal {
  import opened Options
  import Digits

  datatype BigDecimal = BigDecimal(unscaled: int, scale: int)

  /**
   * The number `u * 10^(-scale)`, built one power of ten at a time so that
   * each step is a multiplication or division by ten.
   */
  function Scaled(u: int, scale: int): real
    decreases if scale >= 0 then scale else -scale
  {
    if scale == 0 then u as real
    else if scale > 0 then Scaled(u, scale - 1) / 10.0
    else 10.0 * Scaled(u, scale + 1)
  }

  /** The number a decimal denotes. */
  function Value(d: BigDecimal): real {
    Scaled(d.unscaled, d.scale)
  }

  function Max(a: int, b: int): int {
    if a >= b then a else b
  }

  function Abs(x: int): nat {
    if x < 0 then -x else x
  }

  /**
   * `BigDecimal.compareTo`: brings both unscaled values to the larger scale
   * and compares the integers; -1, 0 or 1.
   */
  function CompareTo(a: BigDecimal, b: BigDecimal): (r: int)
    ensures -1 <= r <= 1
    ensures r == 0 <==> a.unscaled * Digits.Pow10(Max(a.scale, b.scale) - a.scale)
                        == b.unscaled * Digits.Pow10(Max(a.scale, b.scale) - b.scale)
  {
    var s := Max(a.scale, b.scale);
    var x := a.unscaled * Digits.Pow10(s - a.scale);
    var y := b.unscaled * Digits.Pow10(s - b.scale);
    if x < y then -1 else if x == y then 0 else 1
  }

  /** One more zero digit and one more fraction digit denote the same number. */
  lemma {:induction false} ScaledByTen(u: int, scale: int)
    ensures Scaled(u * 10, scale + 1) == Scaled(u, scale)
    decreases if scale >= 0 then scale else -scale
  {
    if scale > 0 {
      ScaledByTen(u, scale - 1);
    } else if scale < -1 {
      ScaledByTen(u, scale + 1);
    }
  }

  /** k more zero digits and k more fraction digits denote the same number. */
  lemma {:induction false} ScaledByPow10(u: int, scale: int, k: nat)
    ensures Scaled(u * Digits.Pow10(k), scale + k) == Scaled(u, scale)
  {
    if k > 0 {
      ScaledByPow10(u, scale, k - 1);
      var v := u * Digits.Pow10(k - 1);
      assert u * Digits.Pow10(k) == v * 10;
      ScaledByTen(v, scale + k - 1);
    }
  }

  /** At a common scale, numbers compare as their unscaled integers. */
  lemma {:induction false} ScaledMonotone(x: int, y: int, scale: int)
    ensures x < y <==> Scaled(x, scale) < Scaled(y, scale)
    ensures x == y <==> Scaled(x, scale) == Scaled(y, scale)
    decreases if scale >= 0 then scale else -scale
  {
    if scale > 0 {
      ScaledMonotone(x, y, scale - 1);
    } else if scale < 0 {
      ScaledMonotone(x, y, scale + 1);
    }
  }

  /** `compareTo` orders decimals by the numbers they denote. */
  lemma CompareToIsValueOrder(a: BigDecimal, b: BigDecimal)
    ensures CompareTo(a, b) < 0 <==> Value(a) < Value(b)
    ensures CompareTo(a, b) == 0 <==> Value(a) == Value(b)
    ensures CompareTo(a, b) > 0 <==> Value(a) > Value(b)
  {
    var s := Max(a.scale, b.scale);
    var x := a.unscaled * Digits.Pow10(s - a.scale);
    var y := b.unscaled * Digits.Pow10(s - b.scale);
    ScaledByPow10(a.unscaled, a.scale, s - a.scale);
    ScaledByPow10(b.unscaled, b.scale, s - b.scale);
    ScaledMonotone(x, y, s);
    ScaledMonotone(y, x, s);
  }

  /** Appending zeros to the fraction changes the scale but not what `compareTo` sees. */
  lemma TrailingZerosIgnored(d: BigDecimal, k: nat)
    ensures CompareTo(BigDecimal(d.unscaled * Digits.Pow10(k), d.scale + k), d) == 0
  {
    ScaledByPow10(d.unscaled, d.scale, k);
    CompareToIsValueOrder(BigDecimal(d.unscaled * Digits.Pow10(k), d.scale + k), d);
  }

  // The string constructor.

  predicate IsSign(c: char) {
    c == '+' || c == '-'
  }

  /** An optionally signed, non-empty run of digits and nothing else. */
  function ParseSignedInteger(t: string): Option<int> {
    var digits := if t != [] && IsSign(t[0]) then t[1..] else t;
    if digits != [] && Digits.AllDigits(digits) then
      var n := Digits.Value(digits);
      Some(if t[0] == '-' then -(n as int) else n)
    else None
  }

  /** What may follow the significand: nothing, or 'e'/'E' and a signed integer. */
  function ParseExponent(t: string): Option<int> {
    if t == [] then Some(0)
    else if t[0] == 'e' || t[0] == 'E' then ParseSignedInteger(t[1..])
    else None
  }

  /**
   * `new BigDecimal(String)`: an optional sign, a significand of digits with
   * at most one '.' and at least one digit, and an optional exponent. The
   * unscaled value is the significand's digits; the scale is the number of
   * fraction digits minus the exponent. `None` where the constructor throws.
   */
  function ParseDecimal(s: string): (r: Option<BigDecimal>)
    ensures r.Some? ==> s != []
    ensures r.Some? && s[0] == '-' ==> r.value.unscaled <= 0
    ensures r.Some? && s[0] != '-' ==> r.value.unscaled >= 0
  {
    if s != [] && IsSign(s[0]) then
      match ParseUnsigned(s[1..])
      case None => None
      case Some(d) => Some(if s[0] == '-' then BigDecimal(-d.unscaled, d.scale) else d)
    else ParseUnsigned(s)
  }

  /** The text after the sign: integer digits, then an optional '.' and fraction digits. */
  function ParseUnsigned(t: string): Option<BigDecimal> {
    var intLen := Digits.DigitRun(t);
    var afterInt := t[intLen..];
    if afterInt != [] && afterInt[0] == '.' then
      var afterPoint := afterInt[1..];
      var fracLen := Digits.DigitRun(afterPoint);
      Significand(t[..intLen], afterPoint[..fracLen], afterPoint[fracLen..])
    else Significand(t[..intLen], [], afterInt)
  }

  /** A significand read as `whole.frac`, followed by the exponent text `rest`. */
  function Significand(whole: string, frac: string, rest: string): Option<BigDecimal>
    requires Digits.AllDigits(whole) && Digits.AllDigits(frac)
  {
    if whole == [] && frac == [] then None
    else
      match ParseExponent(rest)
      case None => None
      case Some(e) =>
        assert Digits.AllDigits(whole + frac);
        Some(BigDecimal(Digits.Value(whole + frac), |frac| - e))
  }

  /**
   * A canonical text for a decimal: the plain form with `scale` fraction
   * digits when the scale is not negative, `<digits>E<exponent>` otherwise.
   */
  function FormatDecimal(d: BigDecimal): string {
    (if d.unscaled < 0 then "-" else "") + FormatMagnitude(d)
  }

  /** The text of a decimal with its sign split off: `FormatDecimal` is `sign + this`. */
  function FormatMagnitude(d: BigDecimal): (t: string)
    ensures t != [] && Digits.IsDigit(t[0])
  {
    var magnitude := Abs(d.unscaled);
    if d.scale == 0 then Digits.FromNat(magnitude)
    else if d.scale < 0 then Digits.FromNat(magnitude) + "E" + Digits.FromNat(-d.scale)
    else
      var width := Max(Digits.Width(magnitude), d.scale + 1);
      var all := Digits.FixedWidth(magnitude, width);
      all[..width - d.scale] + "." + all[width - d.scale..]
  }

  /** Reading the unsigned text back gives the magnitude and the scale. */
  lemma ParseMagnitude(d: BigDecimal)
    ensures ParseDecimal(FormatMagnitude(d)) == Some(BigDecimal(Abs(d.unscaled), d.scale))
  {
    if d.scale == 0 {
      ParseInteger(d);
    } else if d.scale < 0 {
      ParseWithExponent(d);
    } else {
      ParseWithFraction(d);
    }
  }

  /** Digits followed by text that is neither a digit nor a point: an integer significand. */
  lemma ParseUnsignedInteger(digits: string, rest: string)
    requires Digits.AllDigits(digits)
    requires rest == [] || (!Digits.IsDigit(rest[0]) && rest[0] != '.')
    ensures ParseUnsigned(digits + rest) == Significand(digits, [], rest)
  {
    Digits.DigitRunOfConcat(digits, rest);
    assert (digits + rest)[..|digits|] == digits;
    assert (digits + rest)[|digits|..] == rest;
  }

  /** Digits, a point and digits: a significand with a fraction and no exponent. */
  lemma ParseUnsignedFraction(whole: string, frac: string)
    requires Digits.AllDigits(whole) && Digits.AllDigits(frac)
    ensures ParseUnsigned(whole + ("." + frac)) == Significand(whole, frac, [])
  {
    var t := whole + ("." + frac);
    Digits.DigitRunOfConcat(whole, "." + frac);
    assert t[..|whole|] == whole && t[|whole|..] == "." + frac;
    assert ("." + frac)[1..] == frac;
    Digits.DigitRunOfConcat(frac, []);
    assert frac + [] == frac;
    assert frac[..|frac|] == frac && frac[|frac|..] == [];
  }

  /** Text that starts with a digit has no sign to strip. */
  lemma ParseUnsignedText(t: string)
    requires t != [] && Digits.IsDigit(t[0])
    ensures ParseDecimal(t) == ParseUnsigned(t)
  {
  }

  lemma ParseInteger(d: BigDecimal)
    requires d.scale == 0
    ensures ParseDecimal(FormatMagnitude(d)) == Some(BigDecimal(Abs(d.unscaled), d.scale))
  {
    var m := Abs(d.unscaled);
    var t := Digits.FromNat(m);
    assert FormatMagnitude(d) == t;
    ParseUnsignedText(t);
    ParseUnsignedInteger(t, []);
    assert t + [] == t;
    Digits.FromNatValue(m);
    SignificandOfInteger(t, m, [], 0);
  }

  lemma ParseWithExponent(d: BigDecimal)
    requires d.scale < 0
    ensures ParseDecimal(FormatMagnitude(d)) == Some(BigDecimal(Abs(d.unscaled), d.scale))
  {
    var m, e := Abs(d.unscaled), -d.scale;
    var digits, exponent := Digits.FromNat(m), Digits.FromNat(e);
    var t := digits + ("E" + exponent);
    assert FormatMagnitude(d) == t;
    ParseUnsignedText(t);
    ParseUnsignedInteger(digits, "E" + exponent);
    ParseExponentOf(exponent, e);
    Digits.FromNatValue(m);
    SignificandOfInteger(digits, m, "E" + exponent, e);
  }

  lemma SignificandOfInteger(digits: string, m: nat, rest: string, e: int)
    requires digits != [] && Digits.AllDigits(digits) && Digits.Value(digits) == m
    requires ParseExponent(rest) == Some(e)
    ensures Significand(digits, [], rest) == Some(BigDecimal(m, -e))
  {
    assert digits + [] == digits;
  }

  lemma ParseExponentOf(exponent: string, e: nat)
    requires exponent == Digits.FromNat(e)
    ensures ParseExponent("E" + exponent) == Some(e)
  {
    assert ("E" + exponent)[1..] == exponent;
    assert !IsSign(exponent[0]);
    Digits.FromNatValue(e);
  }

  lemma ParseWithFraction(d: BigDecimal)
    requires d.scale > 0
    ensures ParseDecimal(FormatMagnitude(d)) == Some(BigDecimal(Abs(d.unscaled), d.scale))
  {
    var m, scale := Abs(d.unscaled), d.scale;
    var width := Max(Digits.Width(m), scale + 1);
    var all := Digits.FixedWidth(m, width);
    var whole, frac := all[..width - scale], all[width - scale..];
    var t := whole + ("." + frac);
    assert FormatMagnitude(d) == t;
    ParseUnsignedText(t);
    ParseUnsignedFraction(whole, frac);
    SignificandOfFraction(m, width, scale);
  }

  lemma SignificandOfFraction(m: nat, width: nat, scale: nat)
    requires width == Max(Digits.Width(m), scale + 1)
    ensures var all := Digits.FixedWidth(m, width);
      Significand(all[..width - scale], all[width - scale..], []) == Some(BigDecimal(m, scale))
  {
    var all := Digits.FixedWidth(m, width);
    var whole, frac := all[..width - scale], all[width - scale..];
    assert whole + frac == all;
    Digits.Pow10Monotone(Digits.Width(m), width);
    Digits.ValueOfFixedWidth(m, width);
  }

  /** Parsing the canonical text of a decimal gives the decimal back, scale included. */
  lemma ParseFormat(d: BigDecimal)
    ensures ParseDecimal(FormatDecimal(d)) == Some(d)
  {
    var t := FormatMagnitude(d);
    ParseMagnitude(d);
    if d.unscaled < 0 {
      assert FormatDecimal(d) == "-" + t;
      assert ("-" + t)[1..] == t;
    } else {
      assert FormatDecimal(d) == t;
    }
  }

}
