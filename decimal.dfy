/**
 * Decimal text of integers as Qt produces and reads it: `QString::number`
 * for a 64-bit integer and `QString::toLongLong` on a run of ASCII digits,
 * plus C++'s integer division, which truncates toward zero.
 */
module Decimal {

  const Int64Max: int := 0x7FFF_FFFF_FFFF_FFFF

  predicate IsDigit(c: char) {
    '0' <= c <= '9'
  }

  predicate IsDigits(s: string) {
    forall i :: 0 <= i < |s| ==> IsDigit(s[i])
  }

  function DigitValue(c: char): (d: nat)
    requires IsDigit(c)
    ensures d < 10
  {
    c as int - '0' as int
  }

  function DigitChar(d: nat): (c: char)
    requires d < 10
    ensures IsDigit(c) && DigitValue(c) == d
  {
    ('0' as int + d) as char
  }

  /** The value of a string of decimal digits, most significant first. */
  function ValueOf(s: string): nat
    requires IsDigits(s)
  {
    if s == [] then 0 else ValueOf(s[..|s| - 1]) * 10 + DigitValue(s[|s| - 1])
  }

  /** Shortest decimal digits of `n`: never empty, and reads back as `n`. */
  function NatToString(n: nat): (s: string)
    ensures s != [] && IsDigits(s)
    ensures ValueOf(s) == n
    ensures |s| > 1 ==> s[0] != '0'
  {
    if n < 10 then [DigitChar(n)]
    else
      var s := NatToString(n / 10) + [DigitChar(n % 10)];
      assert s[..|s| - 1] == NatToString(n / 10);
      s
  }

  /** `QString::number` for a signed integer: a minus sign before the digits of a negative value. */
  function IntToString(n: int): (s: string)
    ensures s != []
    ensures n >= 0 <==> IsDigits(s)
    ensures n < 0 ==> s[0] == '-' && IsDigits(s[1..])
  {
    if n < 0 then
      var s := "-" + NatToString(-n);
      assert !IsDigit(s[0]);
      s
    else NatToString(n)
  }

  /** Reads back what IntToString writes: an optional minus sign and digits. */
  function ParseInt(s: string): (n: int)
    requires s != [] && (IsDigits(s) || (s[0] == '-' && IsDigits(s[1..])))
  {
    if s[0] == '-' then
      var magnitude: int := ValueOf(s[1..]);
      -magnitude
    else ValueOf(s)
  }

  lemma IntToStringRoundTrip(n: int)
    ensures ParseInt(IntToString(n)) == n
  {
    if n < 0 {
      assert IntToString(n)[1..] == NatToString(-n);
    } else {
      assert IntToString(n)[0] != '-';
    }
  }

  /**
   * `QString::toLongLong` of a run of digits: its value, or 0 when the value
   * does not fit a signed 64-bit integer (Qt reports failure with 0).
   */
  function ToLongLong(s: string): (n: int)
    requires IsDigits(s)
    ensures 0 <= n <= Int64Max
    ensures ValueOf(s) <= Int64Max ==> n == ValueOf(s)
    ensures ValueOf(s) > Int64Max ==> n == 0
  {
    if ValueOf(s) <= Int64Max then ValueOf(s) else 0
  }

  /** Bounds of Dafny's division of a natural number by a positive divisor. */
  lemma DivBounds(n: nat, b: int)
    requires b > 0
    ensures n / b >= 0
    ensures (n / b) * b <= n < (n / b + 1) * b
  {
    var q := n / b;
    assert n == q * b + n % b;
    assert (q + 1) * b == q * b + b;
  }

  /** C++ `a / b` for a positive divisor: the quotient truncated toward zero. */
  function TruncDiv(a: int, b: int): (q: int)
    requires b > 0
    ensures a >= 0 ==> q >= 0 && q * b <= a < (q + 1) * b
    ensures a < 0 ==> q <= 0 && (q - 1) * b < a <= q * b
  {
    if a >= 0 then
      DivBounds(a, b);
      a / b
    else
      var m := (-a) / b;
      DivBounds(-a, b);
      assert (-m) * b == -(m * b);
      assert (-m - 1) * b == -((m + 1) * b);
      -m
  }
}
