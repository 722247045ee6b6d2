/**
 * Decimal digit strings, shared by the calendar-date and decimal-number
 * parsers. Only the ASCII digits '0'..'9' are recognised.
 */
module Digits {

  predicate IsDigit(c: char) {
    '0' <= c <= '9'
  }

  function DigitValue(c: char): (v: nat)
    requires IsDigit(c)
    ensures v < 10
  {
    c as int - '0' as int
  }

  function DigitChar(v: nat): (c: char)
    requires v < 10
    ensures IsDigit(c) && DigitValue(c) == v
  {
    ('0' as int + v) as char
  }

  predicate AllDigits(s: string) {
    forall i :: 0 <= i < |s| ==> IsDigit(s[i])
  }

  function Pow10(n: nat): (r: nat)
    ensures r >= 1
  {
    if n == 0 then 1 else 10 * Pow10(n - 1)
  }

  lemma {:induction false} Pow10Add(m: nat, n: nat)
    ensures Pow10(m + n) == Pow10(m) * Pow10(n)
  {
    if n > 0 {
      Pow10Add(m, n - 1);
      assert Pow10(m + n) == 10 * Pow10(m + n - 1);
    }
  }

  lemma Pow10Monotone(m: nat, n: nat)
    requires m <= n
    ensures Pow10(m) <= Pow10(n)
  {
    Pow10Add(m, n - m);
  }

  /** The number a digit string denotes, most significant digit first. */
  function Value(s: string): nat
    requires AllDigits(s)
  {
    if s == [] then 0 else Value(s[..|s| - 1]) * 10 + DigitValue(s[|s| - 1])
  }

  /** `n` written with exactly `width` digits, padded with leading zeros. */
  function FixedWidth(n: nat, width: nat): (s: string)
    ensures |s| == width && AllDigits(s)
  {
    if width == 0 then [] else FixedWidth(n / 10, width - 1) + [DigitChar(n % 10)]
  }

  /** The number of digits of `n` without leading zeros ("0" has one). */
  function Width(n: nat): (w: nat)
    ensures 1 <= w && n < Pow10(w)
    ensures n >= Pow10(w - 1) || n == 0
  {
    if n < 10 then 1 else 1 + Width(n / 10)
  }

  /** `n` in its shortest digit form. */
  function FromNat(n: nat): (s: string)
    ensures |s| >= 1 && AllDigits(s)
  {
    FixedWidth(n, Width(n))
  }

  /** The length of the longest all-digit prefix of `s`. */
  function DigitRun(s: string): (n: nat)
    ensures n <= |s| && AllDigits(s[..n])
    ensures n < |s| ==> !IsDigit(s[n])
  {
    if s == [] || !IsDigit(s[0]) then 0
    else
      var n := 1 + DigitRun(s[1..]);
      assert s[..n] == [s[0]] + s[1..][..n - 1];
      n
  }

  /** Writing a small enough number at a fixed width and reading it back gives the number. */
  lemma {:induction false} ValueOfFixedWidth(n: nat, width: nat)
    requires n < Pow10(width)
    ensures Value(FixedWidth(n, width)) == n
  {
    if width > 0 {
      var s := FixedWidth(n, width);
      var t := FixedWidth(n / 10, width - 1);
      assert s[..|s| - 1] == t;
      ValueOfFixedWidth(n / 10, width - 1);
    }
  }

  /** Reading a digit string and writing it back at its own width gives the string. */
  lemma {:induction false} FixedWidthOfValue(s: string)
    requires AllDigits(s)
    ensures Value(s) < Pow10(|s|)
    ensures FixedWidth(Value(s), |s|) == s
  {
    if s != [] {
      var init := s[..|s| - 1];
      FixedWidthOfValue(init);
      var v := Value(s);
      assert v / 10 == Value(init) && v % 10 == DigitValue(s[|s| - 1]);
    }
  }

  lemma FromNatValue(n: nat)
    ensures Value(FromNat(n)) == n
  {
    ValueOfFixedWidth(n, Width(n));
  }

  /** A run of digits stops exactly where the first non-digit begins. */
  lemma {:induction false} DigitRunOfConcat(a: string, b: string)
    requires AllDigits(a)
    requires b == [] || !IsDigit(b[0])
    ensures DigitRun(a + b) == |a|
  {
    if a != [] {
      assert (a + b)[1..] == a[1..] + b;
      DigitRunOfConcat(a[1..], b);
    }
  }

}
