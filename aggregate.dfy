/** simpledb.Aggregate: the operator that drains its child into an aggregator once and then
    returns the aggregator's rows. */
module AggregateOp {
  import opened Wrappers
  import opened JavaLang
  import opened Fields
  import opened Schema
  import opened Tuples
  import opened Aggregator
  import opened IntegerAggregation
  import opened StringAggregation

  /** Java's string conversion of a possibly null string. */
  function NameOrNull(n: Option<string>): string
  {
    if n.None? then "null" else n.value
  }

  /** An Aggregate over a child whose tuples are `child` and whose schema is `childTd`. Exactly
      one of `intAgg` and `strAgg` is the aggregator; `intIt`/`strIt` is the result iterator
      (`resultIterator`), null until the first `open`. */
  class Aggregate {
    const child: seq<Tuple>
    const childTd: TupleDesc
    const aField: int
    const gField: int
    const aOp: Op
    const intAgg: IntegerAggregator?
    const strAgg: StringAggregator?
    var intIt: IntegerAggregatorIterator?
    var strIt: StringAggregatorIterator?

    /** An IntegerAggregator exactly when the aggregate column is INT_TYPE, configured with this
        operator's columns; its result iterator, once created, walks it. */
    ghost predicate Valid()
      reads this, intAgg, strAgg, intIt, strIt
    {
      && 0 <= aField < childTd.NumFields()
      && (gField != NO_GROUPING ==> 0 <= gField < childTd.NumFields())
      && (forall t :: t in child ==> t.fieldList.Length == childTd.NumFields())
      && (intAgg != null <==> childTd.items[aField].fieldType == INT_TYPE)
      && (strAgg != null <==> intAgg == null)
      && (intAgg != null ==>
            && intAgg.Valid() && intAgg.aField == aField && intAgg.gbField == gField && intAgg.what == aOp
            && strIt == null && (intIt != null ==> intIt.agg == intAgg && intIt.Valid()))
      && (strAgg != null ==>
            && strAgg.Valid() && strAgg.aField == aField && strAgg.gbField == gField
            && intIt == null && (strIt != null ==> strIt.agg == strAgg && strIt.Valid()))
    }

    /** The constructor once its checks have passed (see `NewAggregate`). */
    constructor (child: seq<Tuple>, childTd: TupleDesc, afield: int, gfield: int, aop: Op)
      requires 0 <= afield < childTd.NumFields()
      requires gfield != NO_GROUPING ==> 0 <= gfield < childTd.NumFields()
      requires forall t :: t in child ==> t.fieldList.Length == childTd.NumFields()
      requires childTd.items[afield].fieldType != INT_TYPE ==> aop == COUNT
      ensures this.child == child && this.childTd == childTd && aField == afield && gField == gfield && aOp == aop
      ensures Valid() && intIt == null && strIt == null
      ensures intAgg != null ==> fresh(intAgg) && intAgg.merged == []
      ensures strAgg != null ==> fresh(strAgg) && strAgg.groupKeys == [] && strAgg.ungroupedMerges == 0
    {
      var gType: Option<Type> := None;
      if gfield != NO_GROUPING {
        gType := Some(childTd.items[gfield].fieldType);
      }
      this.child := child;
      this.childTd := childTd;
      aField := afield;
      gField := gfield;
      aOp := aop;
      if childTd.items[afield].fieldType == INT_TYPE {
        intAgg := new IntegerAggregator(gfield, gType, afield, aop);
        strAgg := null;
      } else {
        intAgg := null;
        strAgg := new StringAggregator(gfield, gType, afield, aop);
      }
      intIt := null;
      strIt := null;
    }

    /** `groupFieldName`: null without grouping, otherwise the child's name for the group column. */
    function GroupFieldName(): (r: Option<string>)
      requires gField != NO_GROUPING ==> 0 <= gField < childTd.NumFields()
      ensures gField == NO_GROUPING ==> r.None?
      ensures gField != NO_GROUPING ==> childTd.GetFieldName(gField) == Success(r)
    {
      if gField == NO_GROUPING then None else childTd.items[gField].fieldName
    }

    /** `aggregateFieldName`: the child's name for the aggregate column. */
    function AggregateFieldName(): (r: Option<string>)
      requires 0 <= aField < childTd.NumFields()
      ensures childTd.GetFieldName(aField) == Success(r)
    {
      childTd.items[aField].fieldName
    }

    /** The name of the output aggregate column, `aop(aname)`. */
    function AggregateColumnName(): string
      requires 0 <= aField < childTd.NumFields()
    {
      OpName(aOp) + "(" + NameOrNull(AggregateFieldName()) + ")"
    }

    /** `getTupleDesc`: `[INT]` named `aop(aname)`, or `[group type, INT]` named by the group column and `aop(aname)`. */
    function GetTupleDesc(): (td: TupleDesc)
      requires 0 <= aField < childTd.NumFields()
      requires gField != NO_GROUPING ==> 0 <= gField < childTd.NumFields()
      ensures gField == NO_GROUPING ==>
        && td.NumFields() == 1
        && td.GetFieldType(0) == Success(INT_TYPE)
        && td.GetFieldName(0) == Success(Some(AggregateColumnName()))
      ensures gField != NO_GROUPING ==>
        && td.NumFields() == 2
        && td.GetFieldType(0) == childTd.GetFieldType(gField) && td.GetFieldType(1) == Success(INT_TYPE)
        && td.GetFieldName(0) == Success(GroupFieldName())
        && td.GetFieldName(1) == Success(Some(AggregateColumnName()))
    {
      if gField == NO_GROUPING then
        TupleDesc([TDItem(INT_TYPE, Some(AggregateColumnName()))])
      else
        TupleDesc([TDItem(childTd.items[gField].fieldType, GroupFieldName()),
                   TDItem(INT_TYPE, Some(AggregateColumnName()))])
    }

    /** `open`: the first call merges every child tuple, in order, into the aggregator and opens
        a result iterator; once that iterator exists, `open` does nothing. A tuple whose int
        aggregate field is null or a string stops the merge with the exception it throws. */
    method Open() returns (err: Option<Exception>)
      requires Valid()
      modifies this`intIt, this`strIt, intAgg, strAgg
      ensures Valid()
      ensures old(intIt) != null || old(strIt) != null ==>
        && err.None? && intIt == old(intIt) && strIt == old(strIt)
        && (intAgg != null ==> intAgg.merged == old(intAgg.merged))
        && (strAgg != null ==> strAgg.groupKeys == old(strAgg.groupKeys) && strAgg.ungroupedMerges == old(strAgg.ungroupedMerges))
      ensures old(intIt) == null && intAgg != null ==>
        && (err.None? <==> old(forall t :: t in child ==> intAgg.Mergeable(t)))
        && (err.None? ==>
              && intAgg.merged == old(intAgg.merged) + old(intAgg.PairsOf(child))
              && intIt != null && fresh(intIt) && intIt.keys.Some? && intIt.pos == 0)
        && (err.Some? ==>
              && intIt == null
              && exists k :: 0 <= k < |child| && old(StoppedAt(intAgg, child, k, err.value))
                   && intAgg.merged == old(intAgg.merged) + old(intAgg.PairsOf(child[..k])))
      ensures old(strIt) == null && strAgg != null ==>
        && err.None? && strIt != null && fresh(strIt) && strIt.noGpHasNext && strIt.entries.Some? && strIt.pos == 0
        && (gField == NO_GROUPING ==> strAgg.ungroupedMerges == old(strAgg.ungroupedMerges) + |child|)
        && (gField != NO_GROUPING ==> strAgg.groupKeys == old(strAgg.groupKeys) + old(strAgg.GroupValuesOf(child)))
    {
      if intIt != null || strIt != null {
        return None;
      }
      if intAgg != null {
        err := MergeAllInts(intAgg, child);
        if err.Some? {
          return;
        }
        var it := intAgg.Iterator();
        it.Open();
        intIt := it;
      } else {
        MergeAllStrings(strAgg, child);
        var it := strAgg.Iterator();
        it.Open();
        strIt := it;
      }
      return None;
    }

    /** `open` as evidently intended: once the result iterator exists, a later `open` (say after
        `close`) reopens it at the first row instead of returning at once; the aggregator is not
        touched. The first call is `Open`. */
    method OpenReopening() returns (err: Option<Exception>)
      requires Valid()
      modifies this`intIt, this`strIt, intAgg, strAgg, intIt, strIt
      ensures Valid()
      ensures old(intIt) != null ==>
        && err.None? && intIt == old(intIt) && intAgg.merged == old(intAgg.merged)
        && intIt.keys.Some? && intIt.pos == 0 && |intIt.keys.value| == |intAgg.results|
      ensures old(strIt) != null ==>
        && err.None? && strIt == old(strIt)
        && strAgg.groupKeys == old(strAgg.groupKeys) && strAgg.ungroupedMerges == old(strAgg.ungroupedMerges)
        && strIt.noGpHasNext && strIt.entries.Some? && strIt.pos == 0 && |strIt.entries.value| == |strAgg.results|
      ensures old(intIt) == null && intAgg != null ==>
        && (err.None? <==> old(forall t :: t in child ==> intAgg.Mergeable(t)))
        && (err.None? ==>
              && intAgg.merged == old(intAgg.merged) + old(intAgg.PairsOf(child))
              && intIt != null && fresh(intIt) && intIt.keys.Some? && intIt.pos == 0)
        && (err.Some? ==>
              && intIt == null
              && exists k :: 0 <= k < |child| && old(StoppedAt(intAgg, child, k, err.value))
                   && intAgg.merged == old(intAgg.merged) + old(intAgg.PairsOf(child[..k])))
      ensures old(strIt) == null && strAgg != null ==>
        && err.None? && strIt != null && fresh(strIt) && strIt.noGpHasNext && strIt.entries.Some? && strIt.pos == 0
        && (gField == NO_GROUPING ==> strAgg.ungroupedMerges == old(strAgg.ungroupedMerges) + |child|)
        && (gField != NO_GROUPING ==> strAgg.groupKeys == old(strAgg.groupKeys) + old(strAgg.GroupValuesOf(child)))
    {
      if intIt != null {
        intIt.Open();
        return None;
      }
      if strIt != null {
        strIt.Open();
        return None;
      }
      err := Open();
    }

    /** `fetchNext`: NullPointerException before the first `open` (and whatever `hasNext` or
        `next` throws); `None` (Java's null) once the rows run out; otherwise the next row. */
    method FetchNext() returns (r: Result<Option<Tuple>, Exception>)
      requires Valid()
      modifies intIt, strIt
      ensures Valid()
      ensures intIt == null && strIt == null ==> r == Failure(NullPointer)
      ensures intIt != null ==>
        && intIt.keys == old(intIt.keys)
        && (old(intIt.HasNext()).Failure? ==> r == Failure(NullPointer) && intIt.pos == old(intIt.pos))
        && (old(intIt.HasNext()) == Success(false) ==> r == Success(None) && intIt.pos == old(intIt.pos))
        && (old(intIt.HasNext()) == Success(true) ==>
              var key := intIt.keys.value[old(intIt.pos)];
              var final := FinalOf(aOp, ValuesOf(intAgg.merged, key));
              && intIt.pos == old(intIt.pos) + 1
              && (final.Failure? ==> r == Failure(final.error))
              && (final.Success? && gField != NO_GROUPING && key.None? ==> r == Failure(NullPointer))
              && (final.Success? && (gField == NO_GROUPING || key.Some?) ==>
                    && r.Success? && r.value.Some? && fresh(r.value.value)
                    && r.value.value.fieldList[..] == RowFields(gField, key.value, final.value)))
      ensures strIt != null ==>
        && strIt.entries == old(strIt.entries) && strIt.noGpHasNext == old(strIt.noGpHasNext)
        && (old(strIt.HasNext()).Failure? ==> r == Failure(NullPointer) && strIt.pos == old(strIt.pos))
        && (old(strIt.HasNext()) == Success(false) ==> r == Success(None) && strIt.pos == old(strIt.pos))
        && (old(strIt.HasNext()) == Success(true) && gField == NO_GROUPING ==>
              && r.Success? && r.value.Some? && fresh(r.value.value)
              && r.value.value.fieldList[..] == [Some(IntField(strAgg.countNoGp))])
        && (old(strIt.HasNext()) == Success(true) && gField != NO_GROUPING ==>
              var key := strIt.entries.value[old(strIt.pos)];
              && strIt.pos == old(strIt.pos) + 1
              && (key.None? ==> r == Failure(NullPointer))
              && (key.Some? ==>
                    && r.Success? && r.value.Some? && fresh(r.value.value)
                    && r.value.value.fieldList[..] == RowFields(gField, key.value, strAgg.results[key])))
    {
      if intAgg != null {
        if intIt == null {
          return Failure(NullPointer);
        }
        var h := intIt.HasNext();
        if h.Failure? {
          return Failure(h.error);
        }
        if !h.value {
          return Success(None);
        }
        var t := intIt.Next();
        if t.Failure? {
          return Failure(t.error);
        }
        return Success(Some(t.value));
      } else {
        if strIt == null {
          return Failure(NullPointer);
        }
        var h := strIt.HasNext();
        if h.Failure? {
          return Failure(h.error);
        }
        if !h.value {
          return Success(None);
        }
        var t := strIt.Next();
        if t.Failure? {
          return Failure(t.error);
        }
        return Success(Some(t.value));
      }
    }

    /** `rewind`: restart the result iterator over the same groups; the child is not merged again. */
    method Rewind() returns (err: Option<Exception>)
      requires Valid()
      modifies intIt, strIt
      ensures Valid()
      ensures err.Some? <==> intIt == null && strIt == null
      ensures err.Some? ==> err.value == NullPointer
      ensures intAgg != null ==> intAgg.merged == old(intAgg.merged)
      ensures strAgg != null ==> strAgg.groupKeys == old(strAgg.groupKeys) && strAgg.ungroupedMerges == old(strAgg.ungroupedMerges)
      ensures intIt != null ==> intIt.keys.Some? && intIt.pos == 0 && |intIt.keys.value| == |intAgg.results|
      ensures strIt != null ==>
        strIt.noGpHasNext && strIt.entries.Some? && strIt.pos == 0 && |strIt.entries.value| == |strAgg.results|
    {
      if intIt != null {
        intIt.Rewind();
      } else if strIt != null {
        strIt.Rewind();
      } else {
        return Some(NullPointer);
      }
      return None;
    }

    /** `close`: close the result iterator (NullPointerException before the first `open`). */
    method Close() returns (err: Option<Exception>)
      requires Valid()
      modifies intIt, strIt
      ensures Valid()
      ensures err.Some? <==> intIt == null && strIt == null
      ensures err.Some? ==> err.value == NullPointer
      ensures intIt != null ==> intIt.keys.None?
      ensures strIt != null ==> !strIt.noGpHasNext && strIt.entries.None?
    {
      if intIt != null {
        intIt.Close();
      } else if strIt != null {
        strIt.Close();
      } else {
        return Some(NullPointer);
      }
      return None;
    }
  }

  /** Merging `child` into `agg` stops at tuple k with `err`: every earlier tuple merges, and
      tuple k's aggregate field is null (NullPointerException) or not an int (ClassCastException). */
  predicate StoppedAt(agg: IntegerAggregator, child: seq<Tuple>, k: int, err: Exception)
    reads set t | t in child :: t.fieldList
    requires 0 <= k < |child|
    requires forall t :: t in child ==> 0 <= agg.aField < t.fieldList.Length
  {
    && !agg.Mergeable(child[k])
    && (forall j :: 0 <= j < k ==> agg.Mergeable(child[j]))
    && err == if child[k].fieldList[agg.aField].None? then NullPointer else ClassCast
  }

  /** The loop of `open` over an int column: merge the child's tuples in order; the first one
      whose aggregate field is null or not an int stops the loop with the exception it throws. */
  method MergeAllInts(agg: IntegerAggregator, child: seq<Tuple>) returns (err: Option<Exception>)
    requires agg.Valid()
    requires forall t :: t in child ==>
      0 <= agg.aField < t.fieldList.Length && (agg.gbField != NO_GROUPING ==> 0 <= agg.gbField < t.fieldList.Length)
    modifies agg
    ensures agg.Valid()
    ensures err.None? <==> old(forall t :: t in child ==> agg.Mergeable(t))
    ensures err.None? ==> agg.merged == old(agg.merged) + old(agg.PairsOf(child))
    ensures err.Some? ==>
      exists k :: 0 <= k < |child| && old(StoppedAt(agg, child, k, err.value))
                  && agg.merged == old(agg.merged) + old(agg.PairsOf(child[..k]))
  {
    for i := 0 to |child|
      invariant agg.Valid()
      invariant forall j :: 0 <= j < i ==> old(agg.Mergeable(child[j]))
      invariant agg.merged == old(agg.merged) + old(agg.PairsOf(child[..i]))
    {
      assert child[i] in child;
      var e := agg.MergeTupleIntoGroup(child[i]);
      if e.Some? {
        assert old(StoppedAt(agg, child, i, e.value));
        return e;
      }
      assert old(agg.PairsOf(child[..i + 1])) == old(agg.PairsOf(child[..i])) + [(agg.GroupKey(child[i]), child[i].fieldList[agg.aField].value.intValue)] by {
        assert child[..i + 1][..i] == child[..i];
      }
    }
    assert child[..|child|] == child;
    return None;
  }

  /** The loop of `open` over a string column: every child tuple is counted, none can throw. */
  method MergeAllStrings(agg: StringAggregator, child: seq<Tuple>)
    requires agg.Valid()
    requires forall t :: t in child ==> agg.gbField != NO_GROUPING ==> 0 <= agg.gbField < t.fieldList.Length
    modifies agg
    ensures agg.Valid()
    ensures agg.gbField == NO_GROUPING ==> agg.ungroupedMerges == old(agg.ungroupedMerges) + |child|
    ensures agg.gbField != NO_GROUPING ==> agg.groupKeys == old(agg.groupKeys) + old(agg.GroupValuesOf(child))
  {
    if agg.gbField == NO_GROUPING {
      CountUngrouped(agg, child);
    } else {
      CountGrouped(agg, child);
    }
  }

  method CountUngrouped(agg: StringAggregator, child: seq<Tuple>)
    requires agg.Valid() && agg.gbField == NO_GROUPING
    modifies agg
    ensures agg.Valid() && agg.ungroupedMerges == old(agg.ungroupedMerges) + |child|
  {
    for i := 0 to |child|
      invariant agg.Valid()
      invariant agg.ungroupedMerges == old(agg.ungroupedMerges) + i
    {
      agg.MergeTupleIntoGroup(child[i]);
    }
  }

  method CountGrouped(agg: StringAggregator, child: seq<Tuple>)
    requires agg.Valid() && agg.gbField != NO_GROUPING
    requires forall t :: t in child ==> 0 <= agg.gbField < t.fieldList.Length
    modifies agg
    ensures agg.Valid() && agg.groupKeys == old(agg.groupKeys) + old(agg.GroupValuesOf(child))
  {
    ghost var values := agg.GroupValuesOf(child);
    GroupValuesOfIndexed(agg, child);
    for i := 0 to |child|
      invariant agg.Valid()
      invariant agg.groupKeys == old(agg.groupKeys) + values[..i]
    {
      assert child[i] in child;
      agg.MergeTupleIntoGroup(child[i]);
      PrefixStep(old(agg.groupKeys), values, i);
    }
    assert values[..|child|] == values;
  }

  /** Growing a prefix of `vs` by one element, behind a fixed `base`. */
  lemma PrefixStep<T>(base: seq<T>, vs: seq<T>, i: int)
    requires 0 <= i < |vs|
    ensures (base + vs[..i]) + [vs[i]] == base + vs[..i + 1]
  {
    assert vs[..i + 1] == vs[..i] + [vs[i]];
  }

  /** `new Aggregate(child, afield, gfield, aop)`: NoSuchElementException for a group or aggregate
      column the child does not have, IllegalArgumentException (from StringAggregator) for a
      non-COUNT operator over a non-int column; otherwise an unopened operator. */
  method NewAggregate(child: seq<Tuple>, childTd: TupleDesc, afield: int, gfield: int, aop: Op)
    returns (r: Result<Aggregate, Exception>)
    requires forall t :: t in child ==> t.fieldList.Length == childTd.NumFields()
    ensures r.Failure? <==>
      || (gfield != NO_GROUPING && childTd.GetFieldType(gfield).Failure?)
      || childTd.GetFieldType(afield).Failure?
      || (childTd.GetFieldType(afield) != Success(INT_TYPE) && aop != COUNT)
    ensures r.Failure? ==>
      r.error == if (gfield != NO_GROUPING && childTd.GetFieldType(gfield).Failure?) || childTd.GetFieldType(afield).Failure?
      then NoSuchElement else IllegalArgument
    ensures r.Success? ==>
      && fresh(r.value) && r.value.Valid() && r.value.intIt == null && r.value.strIt == null
      && r.value.child == child && r.value.childTd == childTd
      && r.value.aField == afield && r.value.gField == gfield && r.value.aOp == aop
      && (r.value.intAgg != null <==> childTd.GetFieldType(afield) == Success(INT_TYPE))
      && (r.value.intAgg != null ==> fresh(r.value.intAgg) && r.value.intAgg.merged == [])
      && (r.value.strAgg != null ==>
            fresh(r.value.strAgg) && r.value.strAgg.groupKeys == [] && r.value.strAgg.ungroupedMerges == 0)
  {
    if gfield != NO_GROUPING {
      var g := childTd.GetFieldType(gfield);
      if g.Failure? {
        return Failure(g.error);
      }
    }
    var a := childTd.GetFieldType(afield);
    if a.Failure? {
      return Failure(a.error);
    }
    if a.value != INT_TYPE && aop != COUNT {
      return Failure(IllegalArgument);
    }
    var op := new Aggregate(child, childTd, afield, gfield, aop);
    return Success(op);
  }

  /** As written, `open` after `close` does nothing, so the result iterator stays closed and the
      next `fetchNext` throws NullPointerException, whatever the groups. */
  method ReopenAfterClose(op: Aggregate) returns (r: Result<Option<Tuple>, Exception>)
    requires op.Valid() && op.intIt == null && op.intAgg != null
    requires forall t :: t in op.child ==> op.intAgg.Mergeable(t)
    modifies op, op.intAgg
    ensures r == Failure(NullPointer)
  {
    var first := op.Open();
    var closing := op.Close();
    var second := op.Open();
    r := op.FetchNext();
  }

  /** With the corrected `open`, the same calls walk the groups again: an empty result yields
      Java's null, and otherwise the first group's row is taken. */
  method ReopenAfterCloseCorrected(op: Aggregate) returns (r: Result<Option<Tuple>, Exception>)
    requires op.Valid() && op.intIt == null && op.intAgg != null
    requires forall t :: t in op.child ==> op.intAgg.Mergeable(t)
    modifies op, op.intAgg
    ensures op.intIt != null && op.intIt.keys.Some?
    ensures |op.intAgg.results| == 0 ==> r == Success(None)
    ensures |op.intAgg.results| > 0 ==> op.intIt.pos == 1
  {
    var first := op.Open();
    var closing := op.Close();
    var second := op.OpenReopening();
    r := op.FetchNext();
  }

  /** Opening twice drains the child once: from a new operator over an int column, the groups
      after two `open`s are exactly those of the child's tuples. */
  method OpenTwice(op: Aggregate) returns (first: Option<Exception>, second: Option<Exception>)
    requires op.Valid() && op.intIt == null && op.strIt == null
    requires op.intAgg != null && op.intAgg.merged == []
    requires forall t :: t in op.child ==> op.intAgg.Mergeable(t)
    modifies op, op.intAgg, op.strAgg
    ensures first.None? && second.None?
    ensures op.intAgg.merged == op.intAgg.PairsOf(op.child)
  {
    first := op.Open();
    second := op.Open();
  }
}
