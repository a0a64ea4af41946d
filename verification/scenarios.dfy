/** Worked examples on one concrete choice of collaborators: a key-type lookup
    that gives `Long` for the single-field id class `LongId` and for an id
    field declared `Long`, a converter that truncates a
    BigDecimal to a long as BigDecimal.longValue does, and a reflective setter
    that refuses null. */
module Scenarios {
  import opened Wrappers
  import opened Decimals
  import opened Model
  import opened Reconcile
  import opened MappingHelper
  import opened Positions
  import opened IdentityProperties

  /** BigDecimal.longValue without the 64-bit wrap: drop the fraction. */
  function TruncateToInteger(d: BigDec): int
  {
    if d.scale <= 0 then d.unscaled * Pow10(-d.scale)
    else if d.unscaled >= 0 then d.unscaled / Pow10(d.scale)
    else -((-d.unscaled) / Pow10(d.scale))
  }

  function ExampleConvert(v: Value, keyType: Option<string>): Option<Value>
  {
    if keyType == Some("Long") then
      match v
      case Integral(n) => Some(Integral(n))
      case Dec(d) => Some(Integral(TruncateToInteger(d)))
      case _ => None
    else Some(v)
  }

  /** The key-type lookup is also consulted with the declared type of a
      compound id's field; this one assumes a field of type `Long` has key
      type `Long`. */
  function ExampleKeyType(className: string): Option<string>
  {
    if className == "LongId" || className == "Long" then Some("Long") else None
  }

  function ExampleEnv(): Env
  {
    Env(ExampleConvert, ExampleKeyType, (t: string, v: Option<Value>) => v.Some?,
        (m: Mapping, r: Row, i: seq<int>) => Returned(Null), map[])
  }

  /** A surrogate key 42 in the one column of an `Order` reference. */
  lemma OpaqueScenario()
    ensures DatastoreIdentityForRow(ExampleEnv(), Mapping("Order", 1, None, None), map[1 := Some(Integral(42))], [1])
      == Returned(DatastoreId("Order", Integral(42)))
  {
  }

  /** A single-field identity with a long key read as 7. */
  lemma SingleFieldScenario()
    ensures CreateSingleFieldIdentity(ExampleEnv(), map[1 := Some(Integral(7))], [1], IdClass("LongId", map[], true), "Item")
      == Returned(SingleFieldId("LongId", "Item", Integral(7)))
  {
  }

  /** A compound key `region = 3`, `code = "AB"`, one column each. */
  lemma CompoundScenario()
    ensures
      var idClass := IdClass("RegionKey", map["region" := "int", "code" := "String"], true);
      var cmd := ClassMeta("Region", false, true, Some(idClass), false, [PkField("region", 1), PkField("code", 1)]);
      CreateObjectIdentityUsingReflection(ExampleEnv(), map[1 := Some(Integral(3)), 2 := Some(Text("AB"))], [1, 2], cmd, idClass)
        == CompoundId("RegionKey", map["region" := Some(Integral(3)), "code" := Some(Text("AB"))])
  {
  }

  const ItemKey: IdClass := IdClass("ItemKey", map["id" := "Long"], true)
  const Item: ClassMeta := ClassMeta("Item", false, true, Some(ItemKey), false, [PkField("id", 1)])

  /** A BigDecimal key column for a long field holding 10 at scale 0 is
      accepted as the long 10. */
  lemma DecimalKeyAccepted()
    ensures CreateObjectIdentityUsingReflection(ExampleEnv(), map[1 := Some(Dec(BigDec(10, 0)))], [1], Item, ItemKey)
      == CompoundId("ItemKey", map["id" := Some(Integral(10))])
  {
    assert ExampleEnv().convert(Dec(BigDec(10, 0)), ExampleEnv().keyTypeOf("Long")) == Some(Integral(10));
    DecimalToIntegral(ExampleEnv(), "Long", BigDec(10, 0), 10);
  }

  /** The same column holding 10.0 (unscaled 100, scale 1) converts to 10 but
      is refused, so no identity is built. */
  lemma DecimalKeyWithScaleRefused()
    ensures CreateObjectIdentityUsingReflection(ExampleEnv(), map[1 := Some(Dec(BigDec(100, 1)))], [1], Item, ItemKey) == Null
  {
    var row := map[1 := Some(Dec(BigDec(100, 1)))];
    assert ExampleEnv().convert(Dec(BigDec(100, 1)), ExampleEnv().keyTypeOf("Long")) == Some(Integral(10));
    ScaleSensitiveCheck(ExampleEnv(), "Long", BigDec(100, 1), 10);
    assert Offset(Item.pkFields, 0) == 0;
    assert !Accepts(ExampleEnv(), row, "Long", 1);
    RejectedColumnMeansNoIdentity(ExampleEnv(), row, [1], Item, ItemKey, 0, 0);
  }

  /** A column holding 10.5 truncates to 10 and is refused as well. */
  lemma DecimalKeyWithFractionRefused()
    ensures CreateObjectIdentityUsingReflection(ExampleEnv(), map[1 := Some(Dec(BigDec(105, 1)))], [1], Item, ItemKey) == Null
  {
    var row := map[1 := Some(Dec(BigDec(105, 1)))];
    assert ExampleEnv().convert(Dec(BigDec(105, 1)), ExampleEnv().keyTypeOf("Long")) == Some(Integral(10));
    ScaleSensitiveCheck(ExampleEnv(), "Long", BigDec(105, 1), 10);
    assert Offset(Item.pkFields, 0) == 0;
    assert !Accepts(ExampleEnv(), row, "Long", 1);
    RejectedColumnMeansNoIdentity(ExampleEnv(), row, [1], Item, ItemKey, 0, 0);
  }

  /** An abstract class with a single-field identity: the identity is built and
      the object factory is asked to find the concrete object for it. */
  lemma AbstractSingleFieldScenario()
    ensures
      var cmd := ClassMeta("Shape", false, true, Some(IdClass("LongId", map[], true)), true, [PkField("id", 1)]);
      ApplicationIdentityForRow(ExampleEnv(), Mapping("Shape", 1, None, None), map[5 := Some(Integral(9))], [5], cmd)
        == Returned(Found(SingleFieldId("LongId", "Shape", Integral(9)), None))
  {
  }
}
