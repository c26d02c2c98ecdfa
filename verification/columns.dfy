/** The column layout of the pending buffer, fixed at construction: a column some
    condition refers to, or the primary-key handle column, gets decoded storage of
    its evaluation type; every other column stays raw and is never decoded. */
module Columns {
  import opened Wrappers
  import opened Batch

  /** A column's declared field type code. */
  type FieldType = int

  /** The evaluation types a decoded column can hold. */
  datatype EvalType = Int | Real | Decimal | Bytes | DateTime | Duration | Json

  /** What the schema says about one column. */
  datatype ColumnInfo = ColumnInfo(tp: FieldType, pkHandle: bool)

  /** One column of the pending buffer: raw bytes, or decoded values of a type. */
  datatype LazyColumn = Raw | Decoded(evalType: EvalType)

  /** `EvalType::try_from` on field types, a partial map the schema layer supplies;
      a failure carries the conversion's message. */
  type EvalTypeOf = FieldType -> Result<EvalType, string>

  /** Every referred index names a column of the schema. */
  predicate ValidReferences(infos: seq<ColumnInfo>, referred: seq<nat>) {
    forall idx :: idx in referred ==> idx < |infos|
  }

  /** Column `i` is referred to by a condition or is the primary-key handle. */
  predicate NeedsDecoding(infos: seq<ColumnInfo>, referred: seq<nat>, i: nat)
    requires i < |infos|
  {
    i in referred || infos[i].pkHandle
  }

  /** Column `i` needs decoding but its field type has no evaluation type. */
  predicate Unresolvable(infos: seq<ColumnInfo>, referred: seq<nat>, evalTypeOf: EvalTypeOf, i: nat)
    requires i < |infos|
  {
    NeedsDecoding(infos, referred, i) && evalTypeOf(infos[i].tp).Failure?
  }

  /** The layout column `i` gets when construction succeeds. */
  function Layout(infos: seq<ColumnInfo>, referred: seq<nat>, evalTypeOf: EvalTypeOf, i: nat): LazyColumn
    requires i < |infos|
    requires !Unresolvable(infos, referred, evalTypeOf, i)
  {
    if NeedsDecoding(infos, referred, i) then Decoded(evalTypeOf(infos[i].tp).value) else Raw
  }

  /** The layout of columns `i..` in schema order, stopping at the first column that
      needs decoding and has no evaluation type. */
  function BuildFrom(infos: seq<ColumnInfo>, referred: seq<nat>, evalTypeOf: EvalTypeOf, i: nat)
    : (r: Result<seq<LazyColumn>, Error>)
    requires i <= |infos|
    ensures r.Success? ==>
      && |r.value| == |infos| - i
      && forall j :: i <= j < |infos| ==>
           !Unresolvable(infos, referred, evalTypeOf, j)
           && r.value[j - i] == Layout(infos, referred, evalTypeOf, j)
    ensures r.Failure? ==>
      exists j :: i <= j < |infos|
        && Unresolvable(infos, referred, evalTypeOf, j)
        && (forall k :: i <= k < j ==> !Unresolvable(infos, referred, evalTypeOf, k))
        && r.error == Other(evalTypeOf(infos[j].tp).error)
    decreases |infos| - i
  {
    if i == |infos| then Success([])
    else
      var head :=
        if NeedsDecoding(infos, referred, i) then
          match evalTypeOf(infos[i].tp)
          case Failure(e) => Failure(Other(e))
          case Success(t) => Success(Decoded(t))
        else Success(Raw);
      match head
      case Failure(e) => Failure(e)
      case Success(c) =>
        match BuildFrom(infos, referred, evalTypeOf, i + 1)
        case Failure(e) => Failure(e)
        case Success(rest) => Success([c] + rest)
  }

  /** The pending buffer's column layout, or the error of the first column (in
      schema order) that needs decoding but has no evaluation type. */
  function BuildColumns(infos: seq<ColumnInfo>, referred: seq<nat>, evalTypeOf: EvalTypeOf)
    : (r: Result<seq<LazyColumn>, Error>)
    requires ValidReferences(infos, referred)
    ensures r.Success? ==>
      && |r.value| == |infos|
      && forall i :: 0 <= i < |infos| ==>
           && (r.value[i].Decoded? <==> NeedsDecoding(infos, referred, i))
           && (r.value[i].Decoded? ==> evalTypeOf(infos[i].tp) == Success(r.value[i].evalType))
    ensures r.Failure? <==>
      exists i :: 0 <= i < |infos| && Unresolvable(infos, referred, evalTypeOf, i)
    ensures r.Failure? ==>
      exists i :: 0 <= i < |infos|
        && Unresolvable(infos, referred, evalTypeOf, i)
        && (forall k :: 0 <= k < i ==> !Unresolvable(infos, referred, evalTypeOf, k))
        && r.error == Other(evalTypeOf(infos[i].tp).error)
  {
    var r := BuildFrom(infos, referred, evalTypeOf, 0);
    assert r.Success? ==> forall i :: 0 <= i < |infos| ==> r.value[i] == Layout(infos, referred, evalTypeOf, i) by {
      if r.Success? {
        forall i | 0 <= i < |infos| ensures r.value[i] == Layout(infos, referred, evalTypeOf, i) {
          assert r.value[i - 0] == Layout(infos, referred, evalTypeOf, i);
        }
      }
    }
    r
  }
}
