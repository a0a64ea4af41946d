# MappingHelper identity reconstruction, in Dafny

A model of DataNucleus RDBMS's `MappingHelper`. It takes the positional values of one
result-set row and rebuilds the identity of the persistable object that the row refers to.
It then hands that identity to the object factory (`ExecutionContext.findObject`). Four shapes of
identity are covered:

- a datastore (surrogate) identity read from the mapping's own column;
- the same, borrowed from a "mapped-by" reference mapping or from the related class's
  id mapping;
- a single-field application identity;
- a compound application identity, whose object-id class is filled field by field.

For an abstract class the identity is built first, and the object factory finds the
concrete subclass.

`getMappingIndices` is a method with a loop. Every other source method is a pure
function. A function whose Java counterpart can let an exception escape returns an
`Outcome`: `Returned(value)` or `Thrown(exception)`. An exception that the source catches
becomes `Returned(Null)`, as in Java. `createObjectIdentityUsingReflection` catches every
exception, so its model returns an `Obj` directly, and `Null` stands for each failure. Its
field loop (`FillIdFields`) and column loop (`ReadField`) return an `Outcome` internally.

The collaborators the helper calls are fields of an `Env` record, or constructors of `Obj`
that record the arguments they were called with. These cover the type converter, the
key-type lookup, `Field.set`, a reference mapping's `getObject` and the datastore classes'
id mappings. `Obj.Found` stands for `findObject`, and `Obj.DatastoreId` / `SingleFieldId`
for the identity manager. Because every resolution path is a function, resolving the same
row twice gives the same result.

Files (one module each):
- `wrappers.dfy`: `Option`.
- `decimals.dfy`: BigDecimal as (unscaled, scale), and `subtract`/`equals`.
- `decimal_text.dfy`: `Long.toString` and `new BigDecimal(String)` for plain notation.
- `model.dfy`: values, rows, exceptions, metadata, results and collaborators.
- `positions.dfy`: `getMappingIndices` and the per-member index slicing.
- `reconcile.dfy`: the BigDecimal round-trip check of the compound path.
- `mapping_helper.dfy`: the helper's methods.
- `identity_properties.dfy`: lemmas relating several calls.
- `scenarios.dfy`: worked examples on concrete collaborators.

Row positions are the result set's own (JDBC, 1-based). The model does not depend on the
base. A `Row` maps each readable position to `Some(value)` or to `None` (SQL NULL). A
position that is not in the map cannot be read, and reading it throws.

## Model

| member | source | states |
|---|---|---|
| Positions.MappingIndices | src/main/java/org/datanucleus/store/rdbms/mapping/MappingHelper.java:60-73 | A mapping with n > 0 columns gets n consecutive positions starting at the initial position. A mapping with no columns gets the single placeholder position. |
| Positions.SliceIndices | src/main/java/org/datanucleus/store/rdbms/mapping/MappingHelper.java:166-178 | Primary-key member i receives exactly the result indexes [off_i, off_i + cols_i), where off_i is the column count of the members declared before it. The loop overruns, with ArrayIndexOutOfBounds, exactly when the members need more columns than there are indexes. |
| Positions.SlicesTilePrefix | src/main/java/org/datanucleus/store/rdbms/mapping/MappingHelper.java:216-228 | Laid end to end in declaration order, the members' slices are exactly the first Σcols result indexes: no gaps, no overlaps, no reordering. |
| Positions.SliceRangesOrdered | src/main/java/org/datanucleus/store/rdbms/mapping/MappingHelper.java:172-176 | For members i < j, member i's index range ends at or before member j's range starts. |
| MappingHelper.DatastoreIdentityForRow | src/main/java/org/datanucleus/store/rdbms/mapping/MappingHelper.java:104-133 | A mapped-by mapping with no columns returns its reference mapping's getObject result on the same row and indexes, unchanged. Whenever a key column exists (the mapping's own, or the related id mapping's), the call returns iff there is a first index and its position can be read. It otherwise throws either the index overrun or that read's failure. Without a key column or reference mapping, it throws NullPointer or the index overrun. A NULL key gives no identity. A value v gives exactly DatastoreId(mapping type, v), never an identity with a null key. |
| IdentityProperties.RelatedIdMappingAgrees | src/main/java/org/datanucleus/store/rdbms/mapping/MappingHelper.java:121-125 | A mapping with neither columns nor a reference mapping yields what the related class's own id mapping reads from the same row, relabelled with the mapping's type. |
| MappingHelper.ObjectForDatastoreIdentity | src/main/java/org/datanucleus/store/rdbms/mapping/MappingHelper.java:84-93 | Exceptions propagate. No identity gives null without a factory lookup. Any other identity is passed to the factory, with no fetch hint. |
| IdentityProperties.NullKeyNoObject | src/main/java/org/datanucleus/store/rdbms/mapping/MappingHelper.java:127-130 | Whenever a key column exists, a NULL key gives null and never an object lookup. |
| MappingHelper.ApplicationIdentityForRow | src/main/java/org/datanucleus/store/rdbms/mapping/MappingHelper.java:144-151 | The leading read runs outside any try. An empty index array throws the index overrun, and an unreadable leading position throws that read's failure, unchanged. A NULL leading value gives null before any other branch. A non-null result needs a readable, non-null leading value and non-interface metadata. |
| IdentityProperties.AbstractDispatch | src/main/java/org/datanucleus/store/rdbms/mapping/MappingHelper.java:153-157 | With a non-null leading value, an abstract class that has an object-id class goes through the abstract path. The single-field or compound constructor is picked by the metadata flag. The caller gets the found object, not an id. |
| IdentityProperties.ConcreteDispatch | src/main/java/org/datanucleus/store/rdbms/mapping/MappingHelper.java:159-187 | For any other class, the identity is built from the same row and the primary-key slices of the result indexes. It fails only by index overrun, and exactly when Σcols exceeds the number of indexes. |
| IdentityProperties.InterfaceMetadataFailsCast | src/main/java/org/datanucleus/store/rdbms/mapping/MappingHelper.java:154 | With a non-null leading value, interface metadata makes the cast to ClassMetaData throw. |
| MappingHelper.ObjectForApplicationIdentity | src/main/java/org/datanucleus/store/rdbms/mapping/MappingHelper.java:199-255 | Each successful result is an object lookup. An abstract class with an object-id class is delegated entirely to getObjectForAbstractClass. For any other class, the lookup gets the identity built from the row and the primary-key slices, and the same row and slices as its fetch hint. It succeeds exactly when the slicing fits. |
| IdentityProperties.ObjectLookupIgnoresNullKey | src/main/java/org/datanucleus/store/rdbms/mapping/MappingHelper.java:199-208 | This entry point has no null-key check. A NULL leading value still leads to an object lookup, whereas getApplicationIdentityForResultSetRow answers null. |
| MappingHelper.ObjectForAbstractClass | src/main/java/org/datanucleus/store/rdbms/mapping/MappingHelper.java:266-277 | The identity comes from the single-field or compound constructor, as the metadata says. It always goes to the object factory, even when construction gave null. |
| MappingHelper.CreateSingleFieldIdentity | src/main/java/org/datanucleus/store/rdbms/mapping/MappingHelper.java:290-311 | Only an empty index array throws. The result is SingleFieldId(idClass, pcClass, k) exactly when the leading column reads a non-null value that converts to k. Otherwise the result is null: the fatal exception for a NULL key is caught. |
| MappingHelper.ReadField | src/main/java/org/datanucleus/store/rdbms/mapping/MappingHelper.java:342-359 | One field's column loop succeeds exactly when all of its columns are within range, readable and pass the numeric check. The field then holds the last column's checked value, or the incoming running value when it has no columns. |
| MappingHelper.FillIdFields | src/main/java/org/datanucleus/store/rdbms/mapping/MappingHelper.java:333-361 | A successful field loop sets exactly the primary-key names and leaves other keys alone. It consumes at most the available indexes. |
| MappingHelper.FillIdFieldsSucceedsIff | src/main/java/org/datanucleus/store/rdbms/mapping/MappingHelper.java:333-361 | The field loop completes iff every member sets its field. That means the member names a public field of the id class, and all of its columns lie within the indexes and are read and accepted. The field must also accept the running value it is given: its last column's checked value, or the value carried over from the previous member. |
| MappingHelper.CreateObjectIdentityUsingReflection | src/main/java/org/datanucleus/store/rdbms/mapping/MappingHelper.java:323-370 | The result is null or a compound id of the object-id class. It is a compound id iff the class can be instantiated and every primary-key member sets its field, as in FillIdFieldsSucceedsIff. A compound id has exactly the primary-key names as its fields and fitted within the indexes. |
| IdentityProperties.CompoundFieldValues | src/main/java/org/datanucleus/store/rdbms/mapping/MappingHelper.java:326-360 | For distinct member names, every member of a compound id holds its running value: the checked value of its last column. A member without columns inherits the previous member's value, or null if it is the first, because fieldValue is never reset. All columns read were accepted. |
| IdentityProperties.RejectedColumnMeansNoIdentity | src/main/java/org/datanucleus/store/rdbms/mapping/MappingHelper.java:344-368 | A single unreadable column, or one that fails the numeric check, makes the whole construction return null, whatever the member names. |
| Reconcile.CheckColumn | src/main/java/org/datanucleus/store/rdbms/mapping/MappingHelper.java:345-356 | A non-decimal value, null included, passes through unchanged. A BigDecimal is accepted iff it converts to the field's key type, the conversion reads back as a BigDecimal, and subtracting that from the original gives exactly zero at scale 0. It is then replaced by the conversion. Otherwise the conversion's failure, the NumberFormat failure, or the fatal exception is thrown, in that order. |
| Reconcile.DecimalToIntegral | src/main/java/org/datanucleus/store/rdbms/mapping/MappingHelper.java:349-355 | A BigDecimal converted to an integer n is accepted iff its scale is not positive and it denotes n. Otherwise the check throws the fatal exception. |
| Reconcile.ScaleSensitiveCheck | src/main/java/org/datanucleus/store/rdbms/mapping/MappingHelper.java:352 | A BigDecimal with positive scale is refused whenever it converts to an integer, even when the two are numerically equal (10.0 versus 10). |
| DecimalText.IntTextRoundTrip | src/main/java/org/datanucleus/store/rdbms/mapping/MappingHelper.java:352 | Printing an integer and reading it back with new BigDecimal(String) gives the integer at scale 0. |
| Decimals.SubtractIsZeroIff | src/main/java/org/datanucleus/store/rdbms/mapping/MappingHelper.java:352 | a.subtract(b).equals(new BigDecimal("0")) holds iff a and b are numerically equal and the larger scale is 0. |
| Decimals.SubtractIntegerIsZeroIff | src/main/java/org/datanucleus/store/rdbms/mapping/MappingHelper.java:352 | Against an integer n at scale 0, the exact-zero test holds iff a has non-positive scale and denotes n. |
| Scenarios.DecimalKeyWithScaleRefused | src/main/java/org/datanucleus/store/rdbms/mapping/MappingHelper.java:345-355 | Worked example: a long key column read as 10.0 yields no compound identity. |
| Scenarios.DecimalKeyAccepted | src/main/java/org/datanucleus/store/rdbms/mapping/MappingHelper.java:345-358 | Worked example: a long key column read as 10 at scale 0 gives the id field the long 10. |

## Behaviour worth knowing

- A NULL single-field key throws a `NucleusException` marked fatal (MappingHelper.java:299).
  A failed BigDecimal round trip does the same (MappingHelper.java:354). Both are thrown
  inside a `try` whose `catch (Exception)` logs them and returns null
  (MappingHelper.java:306-310 and :364-369). So neither reaches the caller. Each just gives
  no identity (`CreateSingleFieldIdentity`, `CreateObjectIdentityUsingReflection`).
- The round-trip test at MappingHelper.java:352 compares with `BigDecimal.equals`, which
  also compares scale. A key read as `10.0` for an integral field is therefore refused,
  and only scale-0 (or negative-scale) values pass (`Reconcile.ScaleSensitiveCheck`,
  `Scenarios.DecimalKeyWithScaleRefused`).
- For an abstract class, `getApplicationIdentityForResultSetRow` returns the object found
  by the factory, not an identity (MappingHelper.java:154-157 and :266-277). The factory is
  called even when identity construction returned null.
- `getApplicationIdentityForResultSetRow` casts the metadata to `ClassMetaData`
  (MappingHelper.java:154), so interface metadata throws. `getObjectForApplicationIdentity`
  tests with `instanceof` and has no null-key check (MappingHelper.java:205).

## Left out

- JDBC access: `ColumnMapping.getObject` and `getResultValueAtPosition` are both the row
  lookup `ReadAt`. Driver-specific normalisation is taken to be already applied to the
  row's values.
- `ExecutionContext.findObject`, the identity manager and
  `IdentityUtils.getApplicationIdentityForResultSetRow` with its `ResultSetGetter`: their
  results are recorded as `Found`, `DatastoreId`, `SingleFieldId` and `RowId` constructors.
  `RowId` carries the row it is read from, with the primary-key slices.
  Their own exceptions are not modelled, including `findObject` refusing a null id.
- The anonymous `FieldValues` (`replaceFields` / `replaceNonLoadedFields`) and the fetch plan:
  they appear only as the `FetchHint`, which carries the row and the primary-key columns.
- The `StatementMappingIndex` array indexed by absolute field number and the
  `StatementClassMapping` are bookkeeping for the foreign getter. Only the slices they carry
  are modelled.
- `getDatastoreClass(cmd.getFullClassName()).getMemberMapping(...)` is assumed to succeed. Each
  member mapping's column count is folded into `PkField.columnCount`.
- `ClassLoaderResolver.classForName` is assumed to resolve. The object-id class is given
  directly in the metadata as an `IdClass`.
- `TypeConversionHelper.convertTo` and `getKeyTypeForSingleFieldIdentityType` are
  uninterpreted (`Env.convert`, `Env.keyTypeOf`). A `convertTo` that returns null is not
  modelled: it returns a value or throws.
- Reflection (`newInstance`, `Class.getField`, `Field.set`): modelled as the
  `IdClass.instantiable` flag, the `IdClass.publicFields` map and `Env.assignable`.
- `new BigDecimal(String)`: only plain notation (sign, digits, one point) is parsed, not
  exponent notation. Values the model prints never use exponents. A BigDecimal's own text is
  taken to read back as the same BigDecimal, as the Java documentation promises.
- Integer widths: keys and result positions are unbounded integers. Any 32- or 64-bit
  wrap-around of a key belongs to the converter.
- Positions.MappingIndices: does not model the `int` overflow of `initialPosition + i`
  (MappingHelper.java:70), because JDBC positions are small and a wrapped position would
  name a column that does not exist.
- Logging (`NucleusLogger`, `Localiser`): a side effect only.
