/** Properties of the identity-reconstruction paths that relate several calls
    or quantify over every primary-key member. */
module IdentityProperties {
  import opened Wrappers
  import opened Model
  import opened Positions
  import opened Reconcile
  import opened MappingHelper

  // ---------------------------------------------------------------------------
  // Compound identity

  /** Primary-key member names of a class are distinct. */
  predicate UniqueNames(fields: seq<PkField>)
  {
    forall i, j :: 0 <= i < j < |fields| ==> fields[i].name != fields[j].name
  }

  /** Map `m` holds, under each member's name, the running value that member
      was given. */
  ghost predicate HoldsRunningValues(env: Env, row: Row, resultIndexes: seq<int>, idClass: IdClass,
                                     fields: seq<PkField>, p: nat, last: Option<Value>, m: map<string, Option<Value>>)
    requires FieldsSucceed(env, row, resultIndexes, idClass, fields, p, last)
  {
    forall i :: 0 <= i < |fields| ==>
      fields[i].name in m && m[fields[i].name] == RunningValue(env, row, resultIndexes, idClass, fields, p, last, i)
  }

  /** A completed field loop leaves, under each member's name, the running
      value that member was given, provided no two members share a name (with
      a shared name the later member's value overwrites the earlier one). */
  lemma {:induction false} FillIdFieldsSetsEachField(env: Env, row: Row, resultIndexes: seq<int>, idClass: IdClass,
                                                     fields: seq<PkField>, p: nat, last: Option<Value>,
                                                     acc: map<string, Option<Value>>)
    requires p <= |resultIndexes|
    requires UniqueNames(fields)
    requires FillIdFields(env, row, resultIndexes, idClass, fields, p, last, acc).Returned?
    ensures FieldsSucceed(env, row, resultIndexes, idClass, fields, p, last)
    ensures HoldsRunningValues(env, row, resultIndexes, idClass, fields, p, last,
                               FillIdFields(env, row, resultIndexes, idClass, fields, p, last, acc).value)
    decreases |fields|
  {
    FillIdFieldsSucceedsIff(env, row, resultIndexes, idClass, fields, p, last, acc);
    if |fields| > 0 {
      FillIdFieldsFirst(env, row, resultIndexes, idClass, fields, p, last, acc);
      assert FirstMemberSet(env, row, resultIndexes, idClass, fields, p, last);
      var rest := fields[1..];
      var q := p + fields[0].columnCount;
      var v := RunningValue(env, row, resultIndexes, idClass, fields, p, last, 0);
      assert UniqueNames(rest);
      var acc' := acc[fields[0].name := v];
      FillIdFieldsSetsEachField(env, row, resultIndexes, idClass, rest, q, v, acc');
      NotInNameSet(rest, fields[0].name);
      var m' := FillIdFields(env, row, resultIndexes, idClass, rest, q, v, acc').value;
      assert fields[0].name in m' && m'[fields[0].name] == v;
      HoldsRunningValuesStep(env, row, resultIndexes, idClass, fields, p, last, m', rest, q, v);
    }
  }

  /** The remaining members holding their running values, reached with the
      first member's value, and the first member holding that value, means
      every member holds its running value. */
  lemma HoldsRunningValuesStep(env: Env, row: Row, resultIndexes: seq<int>, idClass: IdClass,
                               fields: seq<PkField>, p: nat, last: Option<Value>, m: map<string, Option<Value>>,
                               rest: seq<PkField>, q: nat, v: Option<Value>)
    requires |fields| > 0 && rest == fields[1..] && q == p + fields[0].columnCount
    requires FieldsSucceed(env, row, resultIndexes, idClass, fields, p, last)
    requires v == RunningValue(env, row, resultIndexes, idClass, fields, p, last, 0)
    requires FieldsSucceed(env, row, resultIndexes, idClass, rest, q, v)
    requires HoldsRunningValues(env, row, resultIndexes, idClass, rest, q, v, m)
    requires fields[0].name in m && m[fields[0].name] == v
    ensures HoldsRunningValues(env, row, resultIndexes, idClass, fields, p, last, m)
  {
    ShiftAll(env, row, resultIndexes, idClass, fields, p, rest, q);
    forall i | 0 < i < |fields|
      ensures fields[i].name in m && m[fields[i].name] == RunningValue(env, row, resultIndexes, idClass, fields, p, last, i)
    {
      RunningValueShift(env, row, resultIndexes, idClass, fields, p, last, rest, q, i);
      assert fields[i] == rest[i - 1];
    }
  }

  /** For distinct member names, the compound identity holds under each
      member's name its running value: the checked value of its last column,
      or, for a member without columns, the value of the member before it (null
      for the first), because the running field value is never reset. */
  lemma CompoundFieldValues(env: Env, row: Row, resultIndexes: seq<int>, cmd: ClassMeta, idClass: IdClass)
    requires UniqueNames(cmd.pkFields)
    requires CreateObjectIdentityUsingReflection(env, row, resultIndexes, cmd, idClass).CompoundId?
    ensures FieldsSucceed(env, row, resultIndexes, idClass, cmd.pkFields, 0, None)
    ensures forall i :: 0 <= i < |cmd.pkFields| ==>
      && cmd.pkFields[i].name in CreateObjectIdentityUsingReflection(env, row, resultIndexes, cmd, idClass).fieldValues
      && CreateObjectIdentityUsingReflection(env, row, resultIndexes, cmd, idClass).fieldValues[cmd.pkFields[i].name]
         == RunningValue(env, row, resultIndexes, idClass, cmd.pkFields, 0, None, i)
  {
    FillIdFieldsSetsEachField(env, row, resultIndexes, idClass, cmd.pkFields, 0, None, map[]);
  }

  /** One column that is unreadable or fails the numeric check (for example a
      BigDecimal 10.0 converted to the integer 10) leaves the whole
      construction without an identity. */
  lemma RejectedColumnMeansNoIdentity(env: Env, row: Row, resultIndexes: seq<int>, cmd: ClassMeta, idClass: IdClass,
                                      i: nat, j: nat)
    requires i < |cmd.pkFields| && j < cmd.pkFields[i].columnCount
    requires cmd.pkFields[i].name in idClass.publicFields
    requires Offset(cmd.pkFields, i) + j < |resultIndexes|
    ensures !Accepts(env, row, idClass.publicFields[cmd.pkFields[i].name], resultIndexes[Offset(cmd.pkFields, i) + j]) ==>
      CreateObjectIdentityUsingReflection(env, row, resultIndexes, cmd, idClass) == Null
  {
    if CreateObjectIdentityUsingReflection(env, row, resultIndexes, cmd, idClass).CompoundId? {
      assert ColumnsAccepted(env, row, resultIndexes, idClass, cmd.pkFields, 0, i);
    }
  }

  // ---------------------------------------------------------------------------
  // Datastore identity

  /** A mapping without columns or reference mapping borrows the related class's
      id mapping: the identity is what that id mapping alone reads from the same
      row and indexes, re-labelled with the mapping's own type. */
  lemma RelatedIdMappingAgrees(env: Env, mapping: Mapping, row: Row, resultIndexes: seq<int>)
    requires mapping.columnCount == 0 && mapping.referenceMapping.None?
    requires mapping.memberType.Some? && mapping.memberType.value in env.idMappings
    requires env.idMappings[mapping.memberType.value].columnCount > 0
    ensures var direct := DatastoreIdentityForRow(env, env.idMappings[mapping.memberType.value], row, resultIndexes);
      DatastoreIdentityForRow(env, mapping, row, resultIndexes) ==
        match direct
        case Returned(DatastoreId(_, key)) => Returned(DatastoreId(mapping.typeName, key))
        case _ => direct
  {
  }

  /** A null key value never yields an identity or an object lookup, whichever
      column supplies it. */
  lemma NullKeyNoObject(env: Env, mapping: Mapping, row: Row, resultIndexes: seq<int>)
    requires HasIdColumn(env, mapping)
    requires |resultIndexes| > 0 && ReadAt(row, resultIndexes[0]) == Returned(None)
    ensures ObjectForDatastoreIdentity(env, mapping, row, resultIndexes) == Returned(Null)
  {
  }

  // ---------------------------------------------------------------------------
  // Application-identity dispatch

  /** With a non-null leading value and an abstract class that declares an
      object-id class, the identity is built by the single-field or the
      object-id-class constructor as the metadata says, and the object factory
      is asked for it; the caller receives the found object, not an id. */
  lemma AbstractDispatch(env: Env, mapping: Mapping, row: Row, resultIndexes: seq<int>, cmd: ClassMeta)
    requires |resultIndexes| > 0 && ReadAt(row, resultIndexes[0]).Returned?
    requires ReadAt(row, resultIndexes[0]).value.Some?
    requires !cmd.isInterface && cmd.isAbstract && cmd.objectIdClass.Some?
    ensures var r := ApplicationIdentityForRow(env, mapping, row, resultIndexes, cmd);
      r.Returned? && r.value.Found? && r.value.hint.None? &&
      r.value.id == (if cmd.usesSingleFieldIdentity
        then CreateSingleFieldIdentity(env, row, resultIndexes, cmd.objectIdClass.value, cmd.fullName).value
        else CreateObjectIdentityUsingReflection(env, row, resultIndexes, cmd, cmd.objectIdClass.value))
  {
  }

  /** Otherwise a class's identity is built from its primary-key columns, each
      member receiving its own slice of the result indexes; the slicing overruns
      the indexes exactly when the members need more columns than there are. */
  lemma ConcreteDispatch(env: Env, mapping: Mapping, row: Row, resultIndexes: seq<int>, cmd: ClassMeta)
    requires |resultIndexes| > 0 && ReadAt(row, resultIndexes[0]).Returned?
    requires ReadAt(row, resultIndexes[0]).value.Some?
    requires !cmd.isInterface && !(cmd.isAbstract && cmd.objectIdClass.Some?)
    ensures var r := ApplicationIdentityForRow(env, mapping, row, resultIndexes, cmd);
      (r.Returned? <==> TotalColumns(cmd.pkFields) <= |resultIndexes|) &&
      (r.Returned? ==> r.value == RowId(cmd.fullName, row, SliceIndices(resultIndexes, cmd.pkFields).value)) &&
      (r.Thrown? ==> r.exception == IndexOutOfBounds)
  {
  }

  /** Interface metadata is cast to ClassMetaData once the leading value is
      known to be non-null, and the cast fails. */
  lemma InterfaceMetadataFailsCast(env: Env, mapping: Mapping, row: Row, resultIndexes: seq<int>, cmd: ClassMeta)
    requires |resultIndexes| > 0 && ReadAt(row, resultIndexes[0]).Returned?
    requires ReadAt(row, resultIndexes[0]).value.Some?
    requires cmd.isInterface
    ensures ApplicationIdentityForRow(env, mapping, row, resultIndexes, cmd) == Thrown(ClassCast)
  {
  }

  /** getObjectForApplicationIdentity performs no null-key check: even when the
      leading column is NULL, a concrete class's lookup goes to the object
      factory, where getApplicationIdentityForResultSetRow answers null. */
  lemma ObjectLookupIgnoresNullKey(env: Env, mapping: Mapping, row: Row, resultIndexes: seq<int>, cmd: ClassMeta)
    requires |resultIndexes| > 0 && ReadAt(row, resultIndexes[0]) == Returned(None)
    requires !cmd.isAbstract
    requires TotalColumns(cmd.pkFields) <= |resultIndexes|
    ensures ApplicationIdentityForRow(env, mapping, row, resultIndexes, cmd) == Returned(Null)
    ensures ObjectForApplicationIdentity(env, mapping, row, resultIndexes, cmd).Returned?
    ensures ObjectForApplicationIdentity(env, mapping, row, resultIndexes, cmd).value.Found?
  {
  }
}
