/** Numeric reconciliation of a compound-identity column: a BigDecimal read from
    the datastore is converted to the id field's key type and must survive the
    trip back to BigDecimal unchanged. */
module Reconcile {
  import opened Wrappers
  import opened Decimals
  import opened DecimalText
  import opened Model

  /** `new BigDecimal("" + obj)`. A BigDecimal's own text reads back as the same
      BigDecimal; other values are printed and parsed. */
  function Reparse(obj: Value): Option<BigDec>
  {
    match obj
    case Dec(d) => Some(d)
    case Integral(n) => ParseDecimal(IntToString(n))
    case Text(s) => ParseDecimal(s)
    case Bool(b) => ParseDecimal(if b then "true" else "false")
  }

  /** The value one column contributes to an object-id field of declared type
      `fieldType`. Only a BigDecimal is touched: it is converted to the field's
      key type, and the conversion is kept only if the original minus the
      converted value read back as a BigDecimal `equals` zero at scale 0.
      A conversion that throws, text that does not read back as a BigDecimal,
      and a non-zero difference each throw, in that order. */
  function CheckColumn(env: Env, fieldType: string, raw: Option<Value>): (r: Outcome<Option<Value>>)
    ensures !(raw.Some? && raw.value.Dec?) ==> r == Returned(raw)
    ensures raw.Some? && raw.value.Dec? ==>
      var converted := env.convert(raw.value, env.keyTypeOf(fieldType));
      && (r.Returned? <==>
            converted.Some? && Reparse(converted.value).Some? &&
            Subtract(raw.value.d, Reparse(converted.value).value) == Zero)
      && (r.Returned? ==> r.value == converted)
      && (converted.None? ==> r == Thrown(ConversionFailed))
      && (converted.Some? && Reparse(converted.value).None? ==> r == Thrown(NumberFormat))
      && (converted.Some? && Reparse(converted.value).Some? ==>
            Subtract(raw.value.d, Reparse(converted.value).value) != Zero ==> r == Thrown(Fatal))
  {
    match raw
    case Some(Dec(bd)) =>
      (match env.convert(Dec(bd), env.keyTypeOf(fieldType))
       case None => Thrown(ConversionFailed)
       case Some(obj) =>
         match Reparse(obj)
         case None => Thrown(NumberFormat)
         case Some(back) =>
           if Subtract(bd, back) == Zero then Returned(Some(obj)) else Thrown(Fatal))
    case _ => Returned(raw)
  }

  /** A BigDecimal converted to an integral key is accepted exactly when its
      scale is not positive and it denotes that integer; otherwise the check
      throws the fatal exception. */
  lemma DecimalToIntegral(env: Env, fieldType: string, bd: BigDec, n: int)
    requires env.convert(Dec(bd), env.keyTypeOf(fieldType)) == Some(Integral(n))
    ensures CheckColumn(env, fieldType, Some(Dec(bd))) == Returned(Some(Integral(n)))
      <==> bd.scale <= 0 && IntegerValue(bd) == n
    ensures CheckColumn(env, fieldType, Some(Dec(bd))).Thrown? ==>
      CheckColumn(env, fieldType, Some(Dec(bd))).exception == Fatal
  {
    IntTextRoundTrip(n);
    SubtractIntegerIsZeroIff(bd, n);
  }

  /** The check compares with BigDecimal.equals, so a decimal with digits after
      the point is refused even when it denotes the converted integer exactly:
      10.0 (unscaled 100, scale 1) converted to 10 is rejected. */
  lemma ScaleSensitiveCheck(env: Env, fieldType: string, bd: BigDec, n: int)
    requires env.convert(Dec(bd), env.keyTypeOf(fieldType)) == Some(Integral(n))
    requires bd.scale > 0
    ensures CheckColumn(env, fieldType, Some(Dec(bd))) == Thrown(Fatal)
  {
  }
}
