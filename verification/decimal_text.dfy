/** Decimal text: how Java prints an integral key (`"" + obj` on a Long or an
    Integer) and how `new BigDecimal(String)` reads plain decimal text back. */
module DecimalText {
  import opened Wrappers
  import opened Decimals

  predicate IsDigit(c: char)
  {
    '0' <= c <= '9'
  }

  predicate AllDigits(s: string)
  {
    forall i :: 0 <= i < |s| ==> IsDigit(s[i])
  }

  function DigitValue(c: char): nat
    requires IsDigit(c)
  {
    c as int - '0' as int
  }

  function DigitChar(d: nat): (c: char)
    requires d < 10
    ensures IsDigit(c) && DigitValue(c) == d
  {
    ('0' as int + d) as char
  }

  /** The number written by a string of decimal digits (most significant first). */
  function DigitsValue(s: string): nat
    requires AllDigits(s)
    decreases |s|
  {
    if |s| == 0 then 0 else 10 * DigitsValue(s[..|s| - 1]) + DigitValue(s[|s| - 1])
  }

  /** Decimal digits of a natural number, without leading zeros. */
  function NatToString(n: nat): (s: string)
    ensures |s| >= 1 && AllDigits(s)
    decreases n
  {
    if n < 10 then [DigitChar(n)] else NatToString(n / 10) + [DigitChar(n % 10)]
  }

  /** Long.toString: a minus sign for negative numbers, then the digits. */
  function IntToString(n: int): string
  {
    if n < 0 then "-" + NatToString(-n) else NatToString(n)
  }

  /** Position of the first occurrence of `c` in `s`. */
  function IndexOf(s: string, c: char): (r: Option<nat>)
    ensures r.Some? ==> r.value < |s| && s[r.value] == c
    ensures r.Some? ==> forall i :: 0 <= i < r.value ==> s[i] != c
    ensures r.None? ==> forall i :: 0 <= i < |s| ==> s[i] != c
    decreases |s|
  {
    if |s| == 0 then None
    else if s[0] == c then Some(0)
    else match IndexOf(s[1..], c)
      case None => None
      case Some(k) => Some(k + 1)
  }

  /** Unsigned plain decimal text: digits with at most one '.', and at least
      one digit in all; the scale is the number of digits after the point. */
  function ParseUnsigned(s: string): Option<BigDec>
  {
    match IndexOf(s, '.')
    case None =>
      if |s| > 0 && AllDigits(s) then Some(BigDec(DigitsValue(s), 0)) else None
    case Some(k) =>
      var whole, fraction := s[..k], s[k + 1..];
      if |whole| + |fraction| > 0 && AllDigits(whole) && AllDigits(fraction)
      then Some(BigDec(DigitsValue(whole + fraction), |fraction|))
      else None
  }

  /** `new BigDecimal(String)` on plain notation with an optional sign; None is
      the NumberFormatException. */
  function ParseDecimal(s: string): Option<BigDec>
  {
    if |s| > 0 && s[0] == '-' then
      match ParseUnsigned(s[1..])
      case None => None
      case Some(d) => Some(BigDec(-d.unscaled, d.scale))
    else if |s| > 0 && s[0] == '+' then ParseUnsigned(s[1..])
    else ParseUnsigned(s)
  }

  lemma {:induction false} NatToStringValue(n: nat)
    ensures DigitsValue(NatToString(n)) == n
    decreases n
  {
    var s := NatToString(n);
    if n >= 10 {
      NatToStringValue(n / 10);
      assert s[..|s| - 1] == NatToString(n / 10);
    }
  }

  /** Printing an integer and reading it back as a BigDecimal gives that integer
      at scale 0: `new BigDecimal("" + n)` equals `BigDec(n, 0)`. */
  lemma IntTextRoundTrip(n: int)
    ensures ParseDecimal(IntToString(n)) == Some(BigDec(n, 0))
  {
    var digits := if n < 0 then -n else n;
    var s := NatToString(digits);
    NatToStringValue(digits);
    assert IsDigit(s[0]);
    assert ParseUnsigned(s) == Some(BigDec(digits, 0));
    if n < 0 {
      assert IntToString(n)[1..] == s;
    }
  }
}
