/** Column positions: allocating a mapping's positions, and handing each
    primary-key member its share of the result-set indexes. */
module Positions {
  import opened Model

  /** getMappingIndices: the positions a mapping occupies from `initialPosition`
      on; a mapping without columns still gets the one placeholder position. */
  method MappingIndices(initialPosition: int, mapping: Mapping) returns (r: seq<int>)
    ensures |r| == if mapping.columnCount == 0 then 1 else mapping.columnCount
    ensures forall i :: 0 <= i < |r| ==> r[i] == initialPosition + i
  {
    if mapping.columnCount == 0 {
      return [initialPosition];
    }
    r := [];
    var i := 0;
    while i < mapping.columnCount
      invariant 0 <= i <= mapping.columnCount
      invariant |r| == i
      invariant forall k :: 0 <= k < i ==> r[k] == initialPosition + k
    {
      r := r + [initialPosition + i];
      i := i + 1;
    }
  }

  /** Total number of columns of a run of primary-key members. */
  function TotalColumns(fields: seq<PkField>): nat
    decreases |fields|
  {
    if |fields| == 0 then 0 else fields[0].columnCount + TotalColumns(fields[1..])
  }

  /** Where member `i`'s columns start among the result indexes: the columns
      of all members declared before it. */
  function Offset(fields: seq<PkField>, i: nat): nat
    requires i <= |fields|
  {
    TotalColumns(fields[..i])
  }

  lemma {:induction false} TotalColumnsAppend(a: seq<PkField>, b: seq<PkField>)
    ensures TotalColumns(a + b) == TotalColumns(a) + TotalColumns(b)
    decreases |a|
  {
    if |a| == 0 {
      assert a + b == b;
    } else {
      assert (a + b)[1..] == a[1..] + b;
      TotalColumnsAppend(a[1..], b);
    }
  }

  /** Each member starts where the previous one ends. */
  lemma OffsetStep(fields: seq<PkField>, i: nat)
    requires i < |fields|
    ensures Offset(fields, i + 1) == Offset(fields, i) + fields[i].columnCount
  {
    assert fields[..i + 1] == fields[..i] + [fields[i]];
    TotalColumnsAppend(fields[..i], [fields[i]]);
  }

  /** Dropping the first member shifts every later offset by its columns. */
  lemma OffsetTail(fields: seq<PkField>, i: nat)
    requires 0 < i <= |fields|
    ensures Offset(fields, i) == fields[0].columnCount + Offset(fields[1..], i - 1)
  {
    assert fields[..i][1..] == fields[1..][..i - 1];
  }

  /** Member `i` of `fields` is handed exactly its own run of result indexes:
      the `columnCount` indexes that follow those of the members before it. */
  predicate SliceOf(resultIndexes: seq<int>, fields: seq<PkField>, slices: seq<PkColumns>, i: nat)
    requires i < |fields| && i < |slices|
  {
    var start := Offset(fields, i);
    start + fields[i].columnCount <= |resultIndexes| &&
    slices[i] == PkColumns(fields[i].name, resultIndexes[start..start + fields[i].columnCount])
  }

  /** Prepending the first member's slice to a slicing of the remaining members
      over the remaining indexes gives a slicing of all members. */
  lemma SliceOfPrepend(resultIndexes: seq<int>, fields: seq<PkField>, rest: seq<PkColumns>)
    requires |fields| > 0 && fields[0].columnCount <= |resultIndexes|
    requires |rest| == |fields| - 1
    requires forall i :: 0 <= i < |rest| ==>
      SliceOf(resultIndexes[fields[0].columnCount..], fields[1..], rest, i)
    ensures var n := fields[0].columnCount;
      forall i :: 0 <= i < |fields| ==>
        SliceOf(resultIndexes, fields, [PkColumns(fields[0].name, resultIndexes[..n])] + rest, i)
  {
    var n := fields[0].columnCount;
    var slices := [PkColumns(fields[0].name, resultIndexes[..n])] + rest;
    assert Offset(fields, 0) == 0;
    forall i | 0 < i < |fields|
      ensures SliceOf(resultIndexes, fields, slices, i)
    {
      OffsetTail(fields, i);
      assert SliceOf(resultIndexes[n..], fields[1..], rest, i - 1);
      var start := Offset(fields[1..], i - 1);
      assert resultIndexes[n..][start..start + fields[i].columnCount]
        == resultIndexes[n + start..n + start + fields[i].columnCount];
    }
  }

  /** The index-slicing loops of getApplicationIdentityForResultSetRow and
      getObjectForApplicationIdentity: member `i` receives the next
      `columnCount` result indexes, in declaration order. The running index
      overruns `resultIndexes` exactly when the members need more columns than
      there are indexes. */
  function SliceIndices(resultIndexes: seq<int>, fields: seq<PkField>): (r: Outcome<seq<PkColumns>>)
    ensures r.Returned? <==> TotalColumns(fields) <= |resultIndexes|
    ensures r.Thrown? ==> r.exception == IndexOutOfBounds
    ensures r.Returned? ==> |r.value| == |fields|
    ensures r.Returned? ==> forall i :: 0 <= i < |fields| ==> SliceOf(resultIndexes, fields, r.value, i)
    decreases |fields|
  {
    if |fields| == 0 then Returned([])
    else
      var n := fields[0].columnCount;
      if n > |resultIndexes| then Thrown(IndexOutOfBounds)
      else
        match SliceIndices(resultIndexes[n..], fields[1..])
        case Thrown(e) => Thrown(e)
        case Returned(rest) =>
          SliceOfPrepend(resultIndexes, fields, rest);
          Returned([PkColumns(fields[0].name, resultIndexes[..n])] + rest)
  }

  /** All positions of a slicing, in order. */
  function Flatten(slices: seq<PkColumns>): seq<int>
    decreases |slices|
  {
    if |slices| == 0 then [] else slices[0].positions + Flatten(slices[1..])
  }

  /** A successful slicing hands the first member the first `columnCount`
      indexes and slices the rest among the remaining members. */
  lemma SliceIndicesStep(resultIndexes: seq<int>, fields: seq<PkField>)
    requires |fields| > 0 && SliceIndices(resultIndexes, fields).Returned?
    ensures fields[0].columnCount <= |resultIndexes|
    ensures SliceIndices(resultIndexes[fields[0].columnCount..], fields[1..]).Returned?
    ensures SliceIndices(resultIndexes, fields).value ==
      [PkColumns(fields[0].name, resultIndexes[..fields[0].columnCount])] +
      SliceIndices(resultIndexes[fields[0].columnCount..], fields[1..]).value
  {
  }

  /** The slices use up a prefix of the result indexes, in order, without gaps
      or overlaps: laid end to end they are the first TotalColumns indexes. */
  lemma {:induction false} SlicesTilePrefix(resultIndexes: seq<int>, fields: seq<PkField>)
    requires SliceIndices(resultIndexes, fields).Returned?
    ensures Flatten(SliceIndices(resultIndexes, fields).value)
      == resultIndexes[..TotalColumns(fields)]
    decreases |fields|
  {
    if |fields| > 0 {
      var n := fields[0].columnCount;
      SliceIndicesStep(resultIndexes, fields);
      SlicesTilePrefix(resultIndexes[n..], fields[1..]);
      assert resultIndexes[..TotalColumns(fields)]
        == resultIndexes[..n] + resultIndexes[n..][..TotalColumns(fields[1..])];
    }
  }

  /** Members' index ranges come in declaration order and never overlap. */
  lemma {:induction false} SliceRangesOrdered(fields: seq<PkField>, i: nat, j: nat)
    requires i < j <= |fields|
    ensures Offset(fields, i) + fields[i].columnCount <= Offset(fields, j)
    decreases j - i
  {
    OffsetStep(fields, i);
    if i + 1 < j {
      SliceRangesOrdered(fields, i + 1, j);
    }
  }
}
