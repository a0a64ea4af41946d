/** Data model of the identity-reconstruction helper: row values, mapping and
    class metadata, the identities and objects it produces, the Java exceptions
    it can raise, and the external collaborators it consults. */
module Model {
  import opened Wrappers
  import opened Decimals

  /** A non-null scalar as a JDBC driver hands it back. */
  datatype Value =
    | Integral(n: int)      // Long, Integer, Short, ...
    | Dec(d: BigDec)        // BigDecimal (Oracle NUMBER columns, for one)
    | Text(s: string)       // String
    | Bool(b: bool)         // Boolean

  /** One result-set row, by column position. A position that is not a key is
      one the result set cannot read (the read throws); `None` is SQL NULL. */
  type Row = map<int, Option<Value>>

  /** The Java exceptions the helper raises or lets escape. */
  datatype Exc =
    | IndexOutOfBounds        // ArrayIndexOutOfBoundsException on resultIndexes
    | NullPointer             // a metadata or datastore-class lookup gave null
    | ClassCast               // interface metadata cast to ClassMetaData
    | ReadFailed(position: int)  // the result set could not read that column
    | ConversionFailed        // TypeConversionHelper.convertTo threw
    | NumberFormat            // new BigDecimal(String) rejected the text
    | Fatal                   // NucleusException(...).setFatal()
    | NoSuchField(name: string)  // Class.getField found no public field
    | IllegalArgument         // Field.set rejected the value
    | InstantiationFailed     // the object-id class has no usable constructor

  /** What a Java method does: return a value or throw. */
  datatype Outcome<+T> = Returned(value: T) | Thrown(exception: Exc)

  /** A JavaTypeMapping: the datastore type it maps, its number of columns, the
      reference mapping of a "mapped-by" relation, and the declared type of the
      member it maps (None when it has no member metadata). */
  datatype Mapping = Mapping(
    typeName: string,
    columnCount: nat,
    referenceMapping: Option<Mapping>,
    memberType: Option<string>)

  /** A primary-key member of a class, with the column count of its mapping in
      the class's datastore table. */
  datatype PkField = PkField(name: string, columnCount: nat)

  /** An object-id class: its name, its public fields (name to declared type)
      and whether its no-argument constructor succeeds. */
  datatype IdClass = IdClass(
    name: string,
    publicFields: map<string, string>,
    instantiable: bool)

  /** Class metadata (AbstractClassMetaData). `isInterface` marks an
      InterfaceMetaData, which is not a ClassMetaData. */
  datatype ClassMeta = ClassMeta(
    fullName: string,
    isInterface: bool,
    isAbstract: bool,
    objectIdClass: Option<IdClass>,
    usesSingleFieldIdentity: bool,
    pkFields: seq<PkField>)

  /** The result-set positions handed to one primary-key member. */
  datatype PkColumns = PkColumns(field: string, positions: seq<int>)

  /** The field values handed to the object factory along with an identity, so
      that it can populate the primary-key members without a second fetch: a
      getter over the current row that reads each member at its columns. */
  datatype FetchHint = FetchHint(className: string, row: Row, pkColumns: seq<PkColumns>)

  /** What the helper's methods return (a Java Object, possibly null). Identity
      values are built by the identity manager and the object factory resolves
      them; both are outside the model, so their results are recorded as the
      arguments they were called with. */
  datatype Obj =
    | Null
      // IdentityManager.getDatastoreId(targetClassName, key)
    | DatastoreId(targetType: string, key: Value)
      // IdentityManager.getSingleFieldId(idClass, pcClass, key)
    | SingleFieldId(idClass: string, pcClass: string, key: Value)
      // an object-id class instance with its public fields set
    | CompoundId(idClass: string, fieldValues: map<string, Option<Value>>)
      // IdentityUtils.getApplicationIdentityForResultSetRow with a getter that
      // reads the primary-key members from this row at these columns
    | RowId(className: string, row: Row, pkColumns: seq<PkColumns>)
      // ExecutionContext.findObject(id, ...)
    | Found(id: Obj, hint: Option<FetchHint>)

  /** The collaborators the helper calls and does not define. */
  datatype Env = Env(
    // TypeConversionHelper.convertTo(value, keyType); None when it throws
    convert: (Value, Option<string>) -> Option<Value>,
    // IdentityUtils.getKeyTypeForSingleFieldIdentityType(className)
    keyTypeOf: string -> Option<string>,
    // whether Field.set accepts this value for a field of this declared type
    assignable: (string, Option<Value>) -> bool,
    // JavaTypeMapping.getObject(ec, rs, resultIndexes) of a reference mapping
    referenceGetObject: (Mapping, Row, seq<int>) -> Outcome<Obj>,
    // id mappings of the datastore classes, by class name
    idMappings: map<string, Mapping>)

  /** Reading one column of the current row. */
  function ReadAt(row: Row, position: int): Outcome<Option<Value>>
  {
    if position in row then Returned(row[position]) else Thrown(ReadFailed(position))
  }
}
