/** MappingHelper: turning the positional values of one result-set row into the
    identity of a persistable object, and handing that identity to the object
    factory. */
module MappingHelper {
  import opened Wrappers
  import opened Model
  import opened Positions
  import opened Reconcile

  // ---------------------------------------------------------------------------
  // Datastore (surrogate) identity

  /** Read the id value at `resultIndexes[0]` and wrap it as a datastore id of
      `typeName`; SQL NULL gives no identity. */
  function ReadDatastoreId(row: Row, resultIndexes: seq<int>, typeName: string): Outcome<Obj>
  {
    if |resultIndexes| == 0 then Thrown(IndexOutOfBounds)
    else match ReadAt(row, resultIndexes[0])
      case Thrown(e) => Thrown(e)
      case Returned(None) => Returned(Null)
      case Returned(Some(v)) => Returned(DatastoreId(typeName, v))
  }

  /** Whether the id value of `mapping` is read from a column: its own, or,
      when it has neither columns nor a reference mapping, the first column of
      the related class's id mapping. */
  predicate HasIdColumn(env: Env, mapping: Mapping)
  {
    || mapping.columnCount > 0
    || (&& mapping.referenceMapping.None?
        && mapping.memberType.Some?
        && mapping.memberType.value in env.idMappings
        && env.idMappings[mapping.memberType.value].columnCount > 0)
  }

  /** getDatastoreIdentityForResultSetRow. The id value comes from the mapping's
      own first column; failing that, a "mapped-by" mapping defers wholly to its
      reference mapping; failing that, the first column of the related class's
      id mapping is read. The identity is always of the mapping's own type. */
  function DatastoreIdentityForRow(env: Env, mapping: Mapping, row: Row, resultIndexes: seq<int>): (r: Outcome<Obj>)
    ensures mapping.columnCount == 0 && mapping.referenceMapping.Some? ==>
      r == env.referenceGetObject(mapping.referenceMapping.value, row, resultIndexes)
    ensures (mapping.columnCount > 0 || mapping.referenceMapping.None?) && r.Returned? ==>
      |resultIndexes| > 0 && ReadAt(row, resultIndexes[0]).Returned?
    ensures (mapping.columnCount > 0 || mapping.referenceMapping.None?) && r.Returned? ==>
      (r.value == Null <==> ReadAt(row, resultIndexes[0]).value.None?)
    ensures (mapping.columnCount > 0 || mapping.referenceMapping.None?) && r.Returned? && r.value != Null ==>
      r.value == DatastoreId(mapping.typeName, ReadAt(row, resultIndexes[0]).value.value)
    ensures HasIdColumn(env, mapping) ==>
      (r.Returned? <==> |resultIndexes| > 0 && ReadAt(row, resultIndexes[0]).Returned?)
    ensures HasIdColumn(env, mapping) && r.Thrown? ==>
      r.exception == IndexOutOfBounds || (|resultIndexes| > 0 && r == Thrown(ReadFailed(resultIndexes[0])))
    ensures !HasIdColumn(env, mapping) && mapping.referenceMapping.None? ==>
      r.Thrown? && (r.exception == NullPointer || r.exception == IndexOutOfBounds)
  {
    if mapping.columnCount > 0 then
      ReadDatastoreId(row, resultIndexes, mapping.typeName)
    else if mapping.referenceMapping.Some? then
      env.referenceGetObject(mapping.referenceMapping.value, row, resultIndexes)
    else
      match mapping.memberType
      case None => Thrown(NullPointer)
      case Some(fieldType) =>
        if fieldType !in env.idMappings then Thrown(NullPointer)
        else if env.idMappings[fieldType].columnCount == 0 then Thrown(IndexOutOfBounds)
        else ReadDatastoreId(row, resultIndexes, mapping.typeName)
  }

  /** getObjectForDatastoreIdentity: no identity means no object, and the
      object factory is not consulted; otherwise the factory resolves the
      identity (checking inheritance, without a fetch hint). */
  function ObjectForDatastoreIdentity(env: Env, mapping: Mapping, row: Row, resultIndexes: seq<int>): (r: Outcome<Obj>)
    ensures r.Thrown? <==> DatastoreIdentityForRow(env, mapping, row, resultIndexes).Thrown?
    ensures r.Returned? ==>
      (r.value == Null <==> DatastoreIdentityForRow(env, mapping, row, resultIndexes).value == Null)
    ensures r.Returned? && r.value != Null ==>
      r.value == Found(DatastoreIdentityForRow(env, mapping, row, resultIndexes).value, None)
  {
    match DatastoreIdentityForRow(env, mapping, row, resultIndexes)
    case Thrown(e) => Thrown(e)
    case Returned(Null) => Returned(Null)
    case Returned(id) => Returned(Found(id, None))
  }

  // ---------------------------------------------------------------------------
  // Application identity

  /** getApplicationIdentityForResultSetRow. A NULL first column means a null
      relation. Otherwise the metadata is cast to ClassMetaData (which fails for
      interface metadata); an abstract class with an object-id class goes to
      the abstract path, which returns the found object rather than an id; any
      other class gets its identity from its primary-key columns. */
  function ApplicationIdentityForRow(env: Env, mapping: Mapping, row: Row, resultIndexes: seq<int>, cmd: ClassMeta): (r: Outcome<Obj>)
    ensures |resultIndexes| == 0 ==> r == Thrown(IndexOutOfBounds)
    ensures |resultIndexes| > 0 && ReadAt(row, resultIndexes[0]).Thrown? ==> r == Thrown(ReadFailed(resultIndexes[0]))
    ensures |resultIndexes| > 0 && ReadAt(row, resultIndexes[0]) == Returned(None) ==> r == Returned(Null)
    ensures r.Returned? ==> |resultIndexes| > 0 && ReadAt(row, resultIndexes[0]).Returned?
    ensures r.Returned? && r.value != Null ==>
      ReadAt(row, resultIndexes[0]).value.Some? && !cmd.isInterface
  {
    if |resultIndexes| == 0 then Thrown(IndexOutOfBounds)
    else match ReadAt(row, resultIndexes[0])
      case Thrown(e) => Thrown(e)
      case Returned(None) => Returned(Null)
      case Returned(Some(_)) =>
        if cmd.isInterface then Thrown(ClassCast)
        else if cmd.isAbstract && cmd.objectIdClass.Some? then
          ObjectForAbstractClass(env, mapping, row, resultIndexes, cmd)
        else
          match SliceIndices(resultIndexes, cmd.pkFields)
          case Thrown(e) => Thrown(e)
          case Returned(columns) => Returned(RowId(cmd.fullName, row, columns))
  }

  /** getObjectForApplicationIdentity. Unlike the method above there is no
      null-key check and interface metadata simply is not abstract. The object
      factory receives the identity built from the primary-key columns together
      with those same columns, so it can fill the key fields without a fetch. */
  function ObjectForApplicationIdentity(env: Env, mapping: Mapping, row: Row, resultIndexes: seq<int>, cmd: ClassMeta): (r: Outcome<Obj>)
    ensures r.Returned? ==> r.value.Found?
    ensures !cmd.isInterface && cmd.isAbstract && cmd.objectIdClass.Some? ==>
      r == ObjectForAbstractClass(env, mapping, row, resultIndexes, cmd)
    ensures !(!cmd.isInterface && cmd.isAbstract && cmd.objectIdClass.Some?) ==>
      (r.Returned? <==> TotalColumns(cmd.pkFields) <= |resultIndexes|)
    ensures !(!cmd.isInterface && cmd.isAbstract && cmd.objectIdClass.Some?) && r.Returned? ==>
      r.value.id == RowId(cmd.fullName, row, SliceIndices(resultIndexes, cmd.pkFields).value) &&
      r.value.hint == Some(FetchHint(cmd.fullName, row, SliceIndices(resultIndexes, cmd.pkFields).value))
  {
    if !cmd.isInterface && cmd.isAbstract && cmd.objectIdClass.Some? then
      ObjectForAbstractClass(env, mapping, row, resultIndexes, cmd)
    else
      match SliceIndices(resultIndexes, cmd.pkFields)
      case Thrown(e) => Thrown(e)
      case Returned(columns) =>
        Returned(Found(RowId(cmd.fullName, row, columns), Some(FetchHint(cmd.fullName, row, columns))))
  }

  /** getObjectForAbstractClass: build the identity with the single-field or
      the object-id-class constructor, as the metadata says, and hand whatever
      it gives (even null) to the object factory, which finds the concrete
      subclass. */
  function ObjectForAbstractClass(env: Env, mapping: Mapping, row: Row, resultIndexes: seq<int>, cmd: ClassMeta): (r: Outcome<Obj>)
    requires cmd.objectIdClass.Some?
    ensures r.Returned? ==> r.value.Found? && r.value.hint.None?
    ensures cmd.usesSingleFieldIdentity ==>
      (r.Returned? <==> |resultIndexes| > 0) &&
      (r.Returned? ==> r.value.id == CreateSingleFieldIdentity(env, row, resultIndexes, cmd.objectIdClass.value, cmd.fullName).value)
    ensures !cmd.usesSingleFieldIdentity ==>
      r == Returned(Found(CreateObjectIdentityUsingReflection(env, row, resultIndexes, cmd, cmd.objectIdClass.value), None))
  {
    var idClass := cmd.objectIdClass.value;
    if cmd.usesSingleFieldIdentity then
      match CreateSingleFieldIdentity(env, row, resultIndexes, idClass, cmd.fullName)
      case Thrown(e) => Thrown(e)
      case Returned(id) => Returned(Found(id, None))
    else
      Returned(Found(CreateObjectIdentityUsingReflection(env, row, resultIndexes, cmd, idClass), None))
  }

  /** createSingleFieldIdentity. Only indexing `resultIndexes[0]` can escape;
      everything else that goes wrong (an unreadable column, a NULL key, a key
      that does not convert to the id class's key type) is caught and gives no
      identity. */
  function CreateSingleFieldIdentity(env: Env, row: Row, resultIndexes: seq<int>, idClass: IdClass, pcClass: string): (r: Outcome<Obj>)
    ensures r.Thrown? <==> |resultIndexes| == 0
    ensures r.Thrown? ==> r.exception == IndexOutOfBounds
    ensures r.Returned? ==> r.value == Null || r.value.SingleFieldId?
    ensures forall key ::
      r == Returned(SingleFieldId(idClass.name, pcClass, key)) <==>
        |resultIndexes| > 0 &&
        ReadAt(row, resultIndexes[0]).Returned? && ReadAt(row, resultIndexes[0]).value.Some? &&
        env.convert(ReadAt(row, resultIndexes[0]).value.value, env.keyTypeOf(idClass.name)) == Some(key)
  {
    if |resultIndexes| == 0 then Thrown(IndexOutOfBounds)
    else match ReadAt(row, resultIndexes[0])
      case Thrown(_) => Returned(Null)
      case Returned(None) => Returned(Null)     // the fatal exception is caught
      case Returned(Some(v)) =>
        match env.convert(v, env.keyTypeOf(idClass.name))
        case None => Returned(Null)
        case Some(key) => Returned(SingleFieldId(idClass.name, pcClass, key))
  }

  /** Whether the column at result position `position` is read and passes the
      numeric check for a field of declared type `fieldType`. */
  predicate Accepts(env: Env, row: Row, fieldType: string, position: int)
  {
    ReadAt(row, position).Returned? && CheckColumn(env, fieldType, ReadAt(row, position).value).Returned?
  }

  /** The value an accepted column gives its field. */
  function Checked(env: Env, row: Row, fieldType: string, position: int): Option<Value>
    requires Accepts(env, row, fieldType, position)
  {
    CheckColumn(env, fieldType, ReadAt(row, position).value).value
  }

  /** The inner column loop for one object-id field: read `n` columns from
      index `p` on, each overwriting the running field value `last`. */
  function ReadField(env: Env, row: Row, resultIndexes: seq<int>, fieldType: string, p: nat, n: nat, last: Option<Value>): (r: Outcome<Option<Value>>)
    requires p <= |resultIndexes|
    ensures r.Returned? <==>
      p + n <= |resultIndexes| &&
      forall j :: p <= j < p + n ==> Accepts(env, row, fieldType, resultIndexes[j])
    ensures r.Returned? && n == 0 ==> r.value == last
    ensures r.Returned? && n > 0 ==> r.value == Checked(env, row, fieldType, resultIndexes[p + n - 1])
    decreases n
  {
    if n == 0 then Returned(last)
    else if p >= |resultIndexes| then Thrown(IndexOutOfBounds)
    else match ReadAt(row, resultIndexes[p])
      case Thrown(e) => Thrown(e)
      case Returned(raw) =>
        match CheckColumn(env, fieldType, raw)
        case Thrown(e) => Thrown(e)
        case Returned(obj) => ReadField(env, row, resultIndexes, fieldType, p + 1, n - 1, obj)
  }

  /** The names of a run of primary-key members. */
  function NameSet(fields: seq<PkField>): (s: set<string>)
    ensures forall i :: 0 <= i < |fields| ==> fields[i].name in s
    decreases |fields|
  {
    if |fields| == 0 then {} else {fields[0].name} + NameSet(fields[1..])
  }

  /** A name that no member carries is not among the members' names. */
  lemma {:induction false} NotInNameSet(fields: seq<PkField>, x: string)
    requires forall i :: 0 <= i < |fields| ==> fields[i].name != x
    ensures x !in NameSet(fields)
    decreases |fields|
  {
    if |fields| > 0 {
      NotInNameSet(fields[1..], x);
    }
  }

  /** The field loop of createObjectIdentityUsingReflection, from result index
      `p` on, with running field value `last` (never reset between fields) and
      the fields set so far in `acc`. */
  function FillIdFields(env: Env, row: Row, resultIndexes: seq<int>, idClass: IdClass, fields: seq<PkField>,
                        p: nat, last: Option<Value>, acc: map<string, Option<Value>>): (r: Outcome<map<string, Option<Value>>>)
    requires p <= |resultIndexes|
    ensures r.Returned? ==> r.value.Keys == acc.Keys + NameSet(fields)
    ensures r.Returned? ==> forall k :: k in acc && k !in NameSet(fields) ==> r.value[k] == acc[k]
    ensures r.Returned? ==> p + TotalColumns(fields) <= |resultIndexes|
    decreases |fields|
  {
    if |fields| == 0 then Returned(acc)
    else
      var f := fields[0];
      if f.name !in idClass.publicFields then Thrown(NoSuchField(f.name))
      else
        var fieldType := idClass.publicFields[f.name];
        match ReadField(env, row, resultIndexes, fieldType, p, f.columnCount, last)
        case Thrown(e) => Thrown(e)
        case Returned(v) =>
          if !env.assignable(fieldType, v) then Thrown(IllegalArgument)
          else FillIdFields(env, row, resultIndexes, idClass, fields[1..], p + f.columnCount, v, acc[f.name := v])
  }

  /** Member `i` of `fields`, whose columns start at result index
      `p + Offset(fields, i)`, names a public field of the object-id class and
      every one of its columns is present among the result indexes and accepted
      for that field's type. */
  ghost predicate ColumnsAccepted(env: Env, row: Row, resultIndexes: seq<int>, idClass: IdClass,
                                  fields: seq<PkField>, p: nat, i: nat)
    requires i < |fields|
  {
    var f := fields[i];
    var start := p + Offset(fields, i);
    && f.name in idClass.publicFields
    && start + f.columnCount <= |resultIndexes|
    && forall j :: start <= j < start + f.columnCount ==>
         Accepts(env, row, idClass.publicFields[f.name], resultIndexes[j])
  }

  /** The running field value once member `i` has been read: the checked value
      of its last column, or, for a member without columns, the running value
      it was reached with (`last` for the first member). */
  ghost function RunningValue(env: Env, row: Row, resultIndexes: seq<int>, idClass: IdClass,
                              fields: seq<PkField>, p: nat, last: Option<Value>, i: nat): Option<Value>
    requires i < |fields|
    requires forall k :: 0 <= k <= i ==> ColumnsAccepted(env, row, resultIndexes, idClass, fields, p, k)
    decreases i
  {
    var f := fields[i];
    assert ColumnsAccepted(env, row, resultIndexes, idClass, fields, p, i);
    if f.columnCount > 0 then
      Checked(env, row, idClass.publicFields[f.name], resultIndexes[p + Offset(fields, i) + f.columnCount - 1])
    else if i == 0 then last
    else RunningValue(env, row, resultIndexes, idClass, fields, p, last, i - 1)
  }

  /** Member `i`'s field accepts the running value it is given. */
  ghost predicate TakesRunningValue(env: Env, row: Row, resultIndexes: seq<int>, idClass: IdClass,
                                    fields: seq<PkField>, p: nat, last: Option<Value>, i: nat)
    requires i < |fields|
    requires forall k :: 0 <= k <= i ==> ColumnsAccepted(env, row, resultIndexes, idClass, fields, p, k)
  {
    assert ColumnsAccepted(env, row, resultIndexes, idClass, fields, p, i);
    env.assignable(idClass.publicFields[fields[i].name],
                   RunningValue(env, row, resultIndexes, idClass, fields, p, last, i))
  }

  /** The field loop sets every member: each member's columns are accepted and
      its field takes the running value it is given. */
  ghost predicate FieldsSucceed(env: Env, row: Row, resultIndexes: seq<int>, idClass: IdClass,
                                fields: seq<PkField>, p: nat, last: Option<Value>)
  {
    && (forall i :: 0 <= i < |fields| ==> ColumnsAccepted(env, row, resultIndexes, idClass, fields, p, i))
    && (forall i :: 0 <= i < |fields| ==> TakesRunningValue(env, row, resultIndexes, idClass, fields, p, last, i))
  }

  /** Member `i > 0` of `fields` is member `i - 1` of the members after the
      first, whose columns start right after the first member's. */
  lemma ColumnsAcceptedShift(env: Env, row: Row, resultIndexes: seq<int>, idClass: IdClass,
                             fields: seq<PkField>, p: nat, i: nat)
    requires 0 < i < |fields|
    ensures ColumnsAccepted(env, row, resultIndexes, idClass, fields, p, i) <==>
      ColumnsAccepted(env, row, resultIndexes, idClass, fields[1..], p + fields[0].columnCount, i - 1)
  {
    OffsetTail(fields, i);
    assert fields[i] == fields[1..][i - 1];
  }

  /** The running value after member `i > 0` is the one the remaining members
      `rest`, whose columns start at `q`, produce when reached with the first
      member's value. */
  lemma {:induction false} RunningValueShift(env: Env, row: Row, resultIndexes: seq<int>, idClass: IdClass,
                                             fields: seq<PkField>, p: nat, last: Option<Value>,
                                             rest: seq<PkField>, q: nat, i: nat)
    requires 0 < i < |fields| && rest == fields[1..] && q == p + fields[0].columnCount
    requires forall k :: 0 <= k <= i ==> ColumnsAccepted(env, row, resultIndexes, idClass, fields, p, k)
    requires forall k :: 0 <= k < i ==> ColumnsAccepted(env, row, resultIndexes, idClass, rest, q, k)
    ensures RunningValue(env, row, resultIndexes, idClass, fields, p, last, i) ==
      RunningValue(env, row, resultIndexes, idClass, rest, q,
                   RunningValue(env, row, resultIndexes, idClass, fields, p, last, 0), i - 1)
    decreases i
  {
    OffsetTail(fields, i);
    assert fields[i] == rest[i - 1];
    if fields[i].columnCount == 0 && i > 1 {
      RunningValueShift(env, row, resultIndexes, idClass, fields, p, last, rest, q, i - 1);
      assert fields[i - 1] == rest[i - 2];
    }
  }

  /** Member `i > 0` takes its running value exactly when member `i - 1` of
      the remaining members does, reached with the first member's value. */
  lemma TakesRunningValueShift(env: Env, row: Row, resultIndexes: seq<int>, idClass: IdClass,
                               fields: seq<PkField>, p: nat, last: Option<Value>,
                               rest: seq<PkField>, q: nat, i: nat)
    requires 0 < i < |fields| && rest == fields[1..] && q == p + fields[0].columnCount
    requires forall k :: 0 <= k <= i ==> ColumnsAccepted(env, row, resultIndexes, idClass, fields, p, k)
    requires forall k :: 0 <= k < i ==> ColumnsAccepted(env, row, resultIndexes, idClass, rest, q, k)
    ensures TakesRunningValue(env, row, resultIndexes, idClass, fields, p, last, i) <==>
      TakesRunningValue(env, row, resultIndexes, idClass, rest, q,
                        RunningValue(env, row, resultIndexes, idClass, fields, p, last, 0), i - 1)
  {
    RunningValueShift(env, row, resultIndexes, idClass, fields, p, last, rest, q, i);
    assert fields[i] == rest[i - 1];
  }

  /** Member-wise, the remaining members `rest` starting at `q` are the
      members after the first. */
  lemma ShiftAll(env: Env, row: Row, resultIndexes: seq<int>, idClass: IdClass,
                 fields: seq<PkField>, p: nat, rest: seq<PkField>, q: nat)
    requires |fields| > 0 && rest == fields[1..] && q == p + fields[0].columnCount
    ensures forall k :: 0 <= k < |rest| ==> rest[k] == fields[k + 1]
    ensures forall k :: 0 <= k < |rest| ==>
      (ColumnsAccepted(env, row, resultIndexes, idClass, rest, q, k) <==>
       ColumnsAccepted(env, row, resultIndexes, idClass, fields, p, k + 1))
  {
    forall k | 0 <= k < |rest|
      ensures ColumnsAccepted(env, row, resultIndexes, idClass, rest, q, k) <==>
        ColumnsAccepted(env, row, resultIndexes, idClass, fields, p, k + 1)
    {
      ColumnsAcceptedShift(env, row, resultIndexes, idClass, fields, p, k + 1);
    }
  }

  /** The first member is set when its columns are accepted and the field
      takes the running value they leave. */
  ghost predicate FirstMemberSet(env: Env, row: Row, resultIndexes: seq<int>, idClass: IdClass,
                                 fields: seq<PkField>, p: nat, last: Option<Value>)
    requires |fields| > 0
  {
    && ColumnsAccepted(env, row, resultIndexes, idClass, fields, p, 0)
    && TakesRunningValue(env, row, resultIndexes, idClass, fields, p, last, 0)
  }

  /** One turn of the field loop: it throws unless the first member is set,
      and then carries on over the remaining members with that member's
      value. */
  lemma FillIdFieldsFirst(env: Env, row: Row, resultIndexes: seq<int>, idClass: IdClass,
                          fields: seq<PkField>, p: nat, last: Option<Value>,
                          acc: map<string, Option<Value>>)
    requires p <= |resultIndexes| && |fields| > 0
    ensures FillIdFields(env, row, resultIndexes, idClass, fields, p, last, acc).Returned? ==>
      FirstMemberSet(env, row, resultIndexes, idClass, fields, p, last)
    ensures FirstMemberSet(env, row, resultIndexes, idClass, fields, p, last) ==>
      var v := RunningValue(env, row, resultIndexes, idClass, fields, p, last, 0);
      && p + fields[0].columnCount <= |resultIndexes|
      && FillIdFields(env, row, resultIndexes, idClass, fields, p, last, acc) ==
         FillIdFields(env, row, resultIndexes, idClass, fields[1..], p + fields[0].columnCount, v,
                      acc[fields[0].name := v])
  {
  }

  /** The field loop completes exactly when every member is set. */
  lemma FillIdFieldsSucceedsIff(env: Env, row: Row, resultIndexes: seq<int>, idClass: IdClass,
                                fields: seq<PkField>, p: nat, last: Option<Value>,
                                acc: map<string, Option<Value>>)
    requires p <= |resultIndexes|
    ensures FillIdFields(env, row, resultIndexes, idClass, fields, p, last, acc).Returned? <==>
      FieldsSucceed(env, row, resultIndexes, idClass, fields, p, last)
  {
    if FillIdFields(env, row, resultIndexes, idClass, fields, p, last, acc).Returned? {
      CompletedLoopSetsEveryMember(env, row, resultIndexes, idClass, fields, p, last, acc);
    }
    if FieldsSucceed(env, row, resultIndexes, idClass, fields, p, last) {
      SettingEveryMemberCompletesLoop(env, row, resultIndexes, idClass, fields, p, last, acc);
    }
  }

  /** A field loop that completes has set every member. */
  lemma {:induction false} CompletedLoopSetsEveryMember(env: Env, row: Row, resultIndexes: seq<int>, idClass: IdClass,
                                                        fields: seq<PkField>, p: nat, last: Option<Value>,
                                                        acc: map<string, Option<Value>>)
    requires p <= |resultIndexes|
    requires FillIdFields(env, row, resultIndexes, idClass, fields, p, last, acc).Returned?
    ensures FieldsSucceed(env, row, resultIndexes, idClass, fields, p, last)
    decreases |fields|
  {
    if |fields| > 0 {
      FillIdFieldsFirst(env, row, resultIndexes, idClass, fields, p, last, acc);
      var v := RunningValue(env, row, resultIndexes, idClass, fields, p, last, 0);
      CompletedLoopSetsEveryMember(env, row, resultIndexes, idClass, fields[1..], p + fields[0].columnCount, v,
                                   acc[fields[0].name := v]);
      SucceedsBackward(env, row, resultIndexes, idClass, fields, p, last);
    }
  }

  /** A field loop over members that can all be set completes. */
  lemma {:induction false} SettingEveryMemberCompletesLoop(env: Env, row: Row, resultIndexes: seq<int>, idClass: IdClass,
                                                           fields: seq<PkField>, p: nat, last: Option<Value>,
                                                           acc: map<string, Option<Value>>)
    requires p <= |resultIndexes|
    requires FieldsSucceed(env, row, resultIndexes, idClass, fields, p, last)
    ensures FillIdFields(env, row, resultIndexes, idClass, fields, p, last, acc).Returned?
    decreases |fields|
  {
    if |fields| > 0 {
      assert FirstMemberSet(env, row, resultIndexes, idClass, fields, p, last);
      var v := RunningValue(env, row, resultIndexes, idClass, fields, p, last, 0);
      FillIdFieldsFirst(env, row, resultIndexes, idClass, fields, p, last, acc);
      SucceedsForward(env, row, resultIndexes, idClass, fields, p, last);
      SettingEveryMemberCompletesLoop(env, row, resultIndexes, idClass, fields[1..], p + fields[0].columnCount, v,
                                      acc[fields[0].name := v]);
    }
  }

  /** If every member is set, the remaining members are set starting from
      the first member's value. */
  lemma SucceedsForward(env: Env, row: Row, resultIndexes: seq<int>, idClass: IdClass,
                        fields: seq<PkField>, p: nat, last: Option<Value>)
    requires |fields| > 0
    requires FieldsSucceed(env, row, resultIndexes, idClass, fields, p, last)
    ensures FieldsSucceed(env, row, resultIndexes, idClass, fields[1..], p + fields[0].columnCount,
                          RunningValue(env, row, resultIndexes, idClass, fields, p, last, 0))
  {
    var rest := fields[1..];
    var q := p + fields[0].columnCount;
    var v := RunningValue(env, row, resultIndexes, idClass, fields, p, last, 0);
    ShiftAll(env, row, resultIndexes, idClass, fields, p, rest, q);
    forall k | 0 <= k < |rest|
      ensures TakesRunningValue(env, row, resultIndexes, idClass, rest, q, v, k)
    {
      TakesRunningValueShift(env, row, resultIndexes, idClass, fields, p, last, rest, q, k + 1);
    }
  }

  /** If the first member is set and the remaining members are set starting
      from its value, every member is set. */
  lemma SucceedsBackward(env: Env, row: Row, resultIndexes: seq<int>, idClass: IdClass,
                         fields: seq<PkField>, p: nat, last: Option<Value>)
    requires |fields| > 0
    requires FirstMemberSet(env, row, resultIndexes, idClass, fields, p, last)
    requires FieldsSucceed(env, row, resultIndexes, idClass, fields[1..], p + fields[0].columnCount,
                           RunningValue(env, row, resultIndexes, idClass, fields, p, last, 0))
    ensures FieldsSucceed(env, row, resultIndexes, idClass, fields, p, last)
  {
    var rest := fields[1..];
    var q := p + fields[0].columnCount;
    var v := RunningValue(env, row, resultIndexes, idClass, fields, p, last, 0);
    forall i | 0 < i < |fields|
      ensures ColumnsAccepted(env, row, resultIndexes, idClass, fields, p, i)
    {
      ColumnsAcceptedShift(env, row, resultIndexes, idClass, fields, p, i);
    }
    forall i | 0 < i < |fields|
      ensures TakesRunningValue(env, row, resultIndexes, idClass, fields, p, last, i)
    {
      ShiftAll(env, row, resultIndexes, idClass, fields, p, rest, q);
      TakesRunningValueShift(env, row, resultIndexes, idClass, fields, p, last, rest, q, i);
    }
  }

  /** createObjectIdentityUsingReflection: instantiate the object-id class and
      set each primary-key field, in declaration order, from its columns. Every
      exception is caught, so any failure gives no identity. */
  function CreateObjectIdentityUsingReflection(env: Env, row: Row, resultIndexes: seq<int>, cmd: ClassMeta, idClass: IdClass): (r: Obj)
    ensures r == Null || r.CompoundId?
    ensures r.CompoundId? ==> r.idClass == idClass.name && r.fieldValues.Keys == NameSet(cmd.pkFields)
    ensures r.CompoundId? ==> idClass.instantiable && TotalColumns(cmd.pkFields) <= |resultIndexes|
    ensures r.CompoundId? <==>
      idClass.instantiable && FieldsSucceed(env, row, resultIndexes, idClass, cmd.pkFields, 0, None)
  {
    FillIdFieldsSucceedsIff(env, row, resultIndexes, idClass, cmd.pkFields, 0, None, map[]);
    if !idClass.instantiable then Null
    else match FillIdFields(env, row, resultIndexes, idClass, cmd.pkFields, 0, None, map[])
      case Thrown(_) => Null
      case Returned(values) => CompoundId(idClass.name, values)
  }
}
