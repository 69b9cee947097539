/**
 * The number-to-text conversions the data table uses for its filter keys:
 * `String(n)` for a whole number and `x.toFixed(1)`, each with the reading
 * that gives the number back.
 */
module Numerals {
  import opened Cells

  predicate IsDigit(c: char) {
    '0' <= c <= '9'
  }

  predicate AllDigits(s: string) {
    forall i :: 0 <= i < |s| ==> IsDigit(s[i])
  }

  function DigitChar(d: nat): (c: char)
    requires d < 10
    ensures IsDigit(c)
  {
    ('0' as int + d) as char
  }

  function DigitValue(c: char): (d: nat)
    requires IsDigit(c)
    ensures d < 10
  {
    c as int - '0' as int
  }

  /** `String(n)` for a natural number: its decimal digits, without leading
      zeros. */
  function NatToString(n: nat): (s: string)
    ensures |s| >= 1 && AllDigits(s)
    ensures |s| > 1 ==> s[0] != '0'
  {
    if n < 10 then [DigitChar(n)] else NatToString(n / 10) + [DigitChar(n % 10)]
  }

  /** The number a string of decimal digits denotes. */
  function DigitsValue(s: string): nat
    requires AllDigits(s)
  {
    if |s| == 0 then 0 else DigitsValue(s[..|s| - 1]) * 10 + DigitValue(s[|s| - 1])
  }

  /** Reading the digits of `n` back gives `n`. */
  lemma {:induction false} NatToStringRoundTrip(n: nat)
    ensures DigitsValue(NatToString(n)) == n
  {
    if n >= 10 {
      NatToStringRoundTrip(n / 10);
      var s := NatToString(n);
      assert s[..|s| - 1] == NatToString(n / 10);
    }
  }

  /** `String(i)` for an integer. */
  function IntToString(i: int): string {
    if i < 0 then "-" + NatToString(-i) else NatToString(i)
  }

  /** Different integers are written differently. */
  lemma IntToStringInjective(a: int, b: int)
    requires IntToString(a) == IntToString(b)
    ensures a == b
  {
    var w := IntToString(a);
    assert a < 0 <==> w[0] == '-' by { LeadingMinus(a); }
    assert b < 0 <==> w[0] == '-' by { LeadingMinus(b); }
    if a < 0 {
      assert NatToString(-a) == w[1..] == NatToString(-b);
      NatToStringInjective(-a, -b);
    } else {
      NatToStringInjective(a, b);
    }
  }

  /** Only a negative number is written with a leading minus sign. */
  lemma LeadingMinus(i: int)
    ensures i < 0 <==> IntToString(i)[0] == '-'
  {
    if i >= 0 {
      assert IsDigit(NatToString(i)[0]);
    }
  }

  /** Different natural numbers have different digits. */
  lemma NatToStringInjective(a: nat, b: nat)
    requires NatToString(a) == NatToString(b)
    ensures a == b
  {
    NatToStringRoundTrip(a);
    NatToStringRoundTrip(b);
  }

  /** `10x` rounded to the nearest whole number, halves upwards: the `n` of
      `Number.prototype.toFixed(1)`, which takes the larger of two equally
      near candidates. */
  function Tenths(x: real): (n: nat)
    requires x >= 0.0
    ensures n as real <= 10.0 * x + 0.5 < n as real + 1.0
  {
    (10.0 * x + 0.5).Floor
  }

  function UnsignedFixed1(x: real): string
    requires x >= 0.0
  {
    var n := Tenths(x);
    NatToString(n / 10) + "." + [DigitChar(n % 10)]
  }

  /** `x.toFixed(1)`: the sign, the whole part, a point and one decimal. */
  function ToFixed1(x: real): string {
    if x < 0.0 then "-" + UnsignedFixed1(-x) else UnsignedFixed1(x)
  }

  /** Reads `digits.digit`, with an optional leading minus sign. */
  function ParseFixed1(s: string): Option<real> {
    if |s| > 0 && s[0] == '-' then
      match ParseUnsignedFixed1(s[1..])
      case Some(v) => Some(-v)
      case None => None
    else ParseUnsignedFixed1(s)
  }

  function ParseUnsignedFixed1(s: string): Option<real> {
    if |s| >= 3 && s[|s| - 2] == '.' && AllDigits(s[..|s| - 2]) && IsDigit(s[|s| - 1]) then
      Some(DigitsValue(s[..|s| - 2]) as real + DigitValue(s[|s| - 1]) as real / 10.0)
    else None
  }

  /** Reading `x.toFixed(1)` back gives a number within 0.05 of `x`, the
      multiple of 0.1 nearest to it. */
  lemma ToFixed1RoundTrip(x: real)
    ensures ParseFixed1(ToFixed1(x)).Some?
    ensures var v := ParseFixed1(ToFixed1(x)).value;
      -0.05 <= v - x <= 0.05
  {
    var a := if x < 0.0 then -x else x;
    var s := UnsignedFixed1(a);
    UnsignedFixed1RoundTrip(a);
    TenthsClose(a);
    if x < 0.0 {
      assert ToFixed1(x)[1..] == s;
    }
  }

  /** The unsigned text reads back as the number of tenths it was made from,
      and does not start with a minus sign. */
  lemma UnsignedFixed1RoundTrip(a: real)
    requires a >= 0.0
    ensures ParseUnsignedFixed1(UnsignedFixed1(a)) == Some(Tenths(a) as real / 10.0)
    ensures UnsignedFixed1(a)[0] != '-'
  {
    var n := Tenths(a);
    var whole := NatToString(n / 10);
    var s := UnsignedFixed1(a);
    assert s[..|s| - 2] == whole;
    assert IsDigit(s[0]);
    NatToStringRoundTrip(n / 10);
    TenthsSplit(n);
  }

  /** A number of tenths is its whole part plus its last digit's tenths. */
  lemma TenthsSplit(n: nat)
    ensures (n / 10) as real + (n % 10) as real / 10.0 == n as real / 10.0
  {
    assert n == (n / 10) * 10 + n % 10;
  }

  /** The nearest tenth lies within half a tenth. */
  lemma TenthsClose(a: real)
    requires a >= 0.0
    ensures -0.05 <= Tenths(a) as real / 10.0 - a <= 0.05
  {
  }
}
