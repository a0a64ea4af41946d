/** Arbitrary-precision decimals as java.math.BigDecimal represents them. */
module Decimals {

  /** The number `unscaled * 10^(-scale)`. BigDecimal.equals compares both the
      unscaled value and the scale, so structural equality of this datatype is
      exactly BigDecimal.equals: 10 (scale 0) and 10.0 (scale 1) differ. */
  datatype BigDec = BigDec(unscaled: int, scale: int)

  /** `new BigDecimal("0")`. */
  const Zero: BigDec := BigDec(0, 0)

  function Pow10(n: nat): (r: nat)
    ensures r >= 1
  {
    if n == 0 then 1 else 10 * Pow10(n - 1)
  }

  function Max(a: int, b: int): int
  {
    if a >= b then a else b
  }

  /** The unscaled value of `d` once it is rescaled to `target >= d.scale`. */
  function Rescaled(d: BigDec, target: int): int
    requires target >= d.scale
  {
    d.unscaled * Pow10(target - d.scale)
  }

  /** BigDecimal.subtract: the exact difference, carried at the larger of the
      two operands' scales. */
  function Subtract(a: BigDec, b: BigDec): BigDec
  {
    var m := Max(a.scale, b.scale);
    BigDec(Rescaled(a, m) - Rescaled(b, m), m)
  }

  /** Numeric equality, ignoring scale (BigDecimal.compareTo(...) == 0). */
  predicate SameNumber(a: BigDec, b: BigDec)
  {
    var m := Max(a.scale, b.scale);
    Rescaled(a, m) == Rescaled(b, m)
  }

  /** The value of a decimal whose scale is not positive, as an integer. */
  function IntegerValue(d: BigDec): int
    requires d.scale <= 0
  {
    d.unscaled * Pow10(-d.scale)
  }

  /** The difference of two decimals equals `new BigDecimal("0")` exactly when
      the two are the same number AND the larger scale is 0; so two operands
      with a positive scale never pass, whatever their values. */
  lemma SubtractIsZeroIff(a: BigDec, b: BigDec)
    ensures Subtract(a, b) == Zero <==> SameNumber(a, b) && Max(a.scale, b.scale) == 0
  {
  }

  /** Against an integer (scale 0), the exact-zero test accepts precisely the
      decimals of non-positive scale that denote that integer. */
  lemma SubtractIntegerIsZeroIff(a: BigDec, n: int)
    ensures Subtract(a, BigDec(n, 0)) == Zero <==> a.scale <= 0 && IntegerValue(a) == n
  {
    SubtractIsZeroIff(a, BigDec(n, 0));
  }
}
