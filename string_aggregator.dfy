/** simpledb.StringAggregator: COUNT over a column of any type, grouped or not. */
module StringAggregation {
  import opened Wrappers
  import opened JavaLang
  import opened Fields
  import opened Schema
  import opened Tuples
  import opened Aggregator

  /** The group keys seen in `keys`: the key set of the counts map. */
  function KeySet(keys: seq<Option<Field>>): set<Option<Field>>
  {
    set k | k in keys
  }

  /** The counts map holds, for every group key merged so far, the number of merges under it as a 32-bit int. */
  ghost predicate CountsAgree(results: map<Option<Field>, Int32>, keys: seq<Option<Field>>)
  {
    && results.Keys == KeySet(keys)
    && forall k :: k in results ==> results[k] == Wrap32(multiset(keys)[k])
  }

  /** One more merge under `key`: a new key starts at 1, a known one goes up by one (wrapping). */
  lemma CountAfterMerge(results: map<Option<Field>, Int32>, keys: seq<Option<Field>>, key: Option<Field>)
    requires CountsAgree(results, keys)
    ensures key !in results ==> CountsAgree(results[key := 1], keys + [key])
    ensures key in results ==> CountsAgree(results[key := Wrap32(results[key] as int + 1)], keys + [key])
  {
    assert multiset(keys + [key]) == multiset(keys) + multiset{key};
    if key !in results {
      assert multiset(keys)[key] == 0;
    } else {
      WrapAdd(multiset(keys)[key], 1);
    }
  }

  /** A StringAggregator: the ungrouped counter and the per-group counts map, with (ghost) the
      group keys merged so far, in order, and the number of ungrouped merges. */
  class StringAggregator {
    const gbField: int
    const gbFieldType: Option<Type>
    const aField: int
    const what: Op
    var results: map<Option<Field>, Int32>
    var countNoGp: Int32
    ghost var groupKeys: seq<Option<Field>>
    ghost var ungroupedMerges: nat

    /** Only COUNT is supported; `countNoGp` counts ungrouped merges and `results[k]` counts the
        merges under group k, both as 32-bit ints. */
    ghost predicate Valid()
      reads this
    {
      && what == COUNT
      && (gbField != NO_GROUPING ==> gbFieldType.Some? && ungroupedMerges == 0)
      && (gbField == NO_GROUPING ==> groupKeys == [])
      && countNoGp == Wrap32(ungroupedMerges)
      && CountsAgree(results, groupKeys)
    }

    constructor (gbfield: int, gbfieldtype: Option<Type>, afield: int, what: Op)
      requires what == COUNT
      requires gbfield != NO_GROUPING ==> gbfieldtype.Some?
      ensures gbField == gbfield && gbFieldType == gbfieldtype && aField == afield && this.what == what
      ensures Valid() && groupKeys == [] && ungroupedMerges == 0 && results == map[]
    {
      gbField := gbfield;
      gbFieldType := gbfieldtype;
      aField := afield;
      this.what := what;
      results := map[];
      countNoGp := 0;
      groupKeys := [];
      ungroupedMerges := 0;
    }

    /** `mergeTupleIntoGroup`: bump the ungrouped counter, or the count of the tuple's group
        (a new group starts at 1). The aggregate field is never read. */
    method MergeTupleIntoGroup(tup: Tuple)
      requires Valid()
      requires gbField != NO_GROUPING ==> 0 <= gbField < tup.fieldList.Length
      modifies this
      ensures Valid()
      ensures gbField == NO_GROUPING ==>
        ungroupedMerges == old(ungroupedMerges) + 1 && results == old(results) && groupKeys == old(groupKeys)
      ensures gbField != NO_GROUPING ==>
        && groupKeys == old(groupKeys) + [tup.fieldList[gbField]]
        && ungroupedMerges == old(ungroupedMerges)
        && (tup.fieldList[gbField] !in old(results) ==> results[tup.fieldList[gbField]] == 1)
    {
      if gbField == NO_GROUPING {
        CountUngrouped();
      } else {
        CountInGroup(tup.GetField(gbField));
      }
    }

    /** The ungrouped branch of `mergeTupleIntoGroup`: one more tuple counted. */
    method CountUngrouped()
      requires Valid() && gbField == NO_GROUPING
      modifies this`countNoGp, this`ungroupedMerges
      ensures Valid() && ungroupedMerges == old(ungroupedMerges) + 1
    {
      WrapAdd(ungroupedMerges, 1);
      countNoGp := Wrap32(countNoGp as int + 1);
      ungroupedMerges := ungroupedMerges + 1;
    }

    /** The grouped branch of `mergeTupleIntoGroup`: one more tuple counted in group `key`. */
    method CountInGroup(key: Option<Field>)
      requires Valid() && gbField != NO_GROUPING
      modifies this`results, this`groupKeys
      ensures Valid() && groupKeys == old(groupKeys) + [key]
      ensures key !in old(results) ==> results[key] == 1
    {
      CountAfterMerge(results, groupKeys, key);
      if key !in results {
        results := results[key := 1];
      } else {
        results := results[key := Wrap32(results[key] as int + 1)];
      }
      groupKeys := groupKeys + [key];
    }

    /** The group values of the tuples `ts`, in order. */
    ghost function GroupValuesOf(ts: seq<Tuple>): seq<Option<Field>>
      reads set t | t in ts :: t.fieldList
      requires gbField != NO_GROUPING
      requires forall t :: t in ts ==> 0 <= gbField < t.fieldList.Length
    {
      if ts == [] then [] else GroupValuesOf(ts[..|ts| - 1]) + [ts[|ts| - 1].fieldList[gbField]]
    }

    /** The output schema: `[INT]` or `[gbFieldType, INT]`. */
    function GetTupleDesc(): TupleDesc
      reads this
      requires Valid()
    {
      ResultDesc(gbField, gbFieldType)
    }

    /** `iterator()`: a new, not yet opened, result iterator. */
    method Iterator() returns (it: StringAggregatorIterator)
      ensures fresh(it) && it.agg == this && it.entries.None? && !it.noGpHasNext
    {
      it := new StringAggregatorIterator(this);
    }
  }

  /** The group values of `ts` are, index by index, the group field of each tuple. */
  lemma {:induction false} GroupValuesOfIndexed(agg: StringAggregator, ts: seq<Tuple>)
    requires agg.gbField != NO_GROUPING
    requires forall t :: t in ts ==> 0 <= agg.gbField < t.fieldList.Length
    ensures |agg.GroupValuesOf(ts)| == |ts|
    ensures forall i :: 0 <= i < |ts| ==> agg.GroupValuesOf(ts)[i] == ts[i].fieldList[agg.gbField]
  {
    if ts != [] {
      var front := ts[..|ts| - 1];
      forall t | t in front
        ensures 0 <= agg.gbField < t.fieldList.Length
      {
        var j :| 0 <= j < |front| && front[j] == t;
        assert ts[j] in ts;
      }
      GroupValuesOfIndexed(agg, front);
    }
  }

  /** `new StringAggregator(...)`: IllegalArgumentException for any operator but COUNT. */
  method Create(gbfield: int, gbfieldtype: Option<Type>, afield: int, what: Op)
    returns (r: Result<StringAggregator, Exception>)
    requires gbfield != NO_GROUPING ==> gbfieldtype.Some?
    ensures r.Failure? <==> what != COUNT
    ensures r.Failure? ==> r.error == IllegalArgument
    ensures r.Success? ==>
      && fresh(r.value) && r.value.Valid()
      && r.value.gbField == gbfield && r.value.gbFieldType == gbfieldtype && r.value.aField == afield
      && r.value.groupKeys == [] && r.value.ungroupedMerges == 0
  {
    if what != COUNT {
      return Failure(IllegalArgument);
    }
    var agg := new StringAggregator(gbfield, gbfieldtype, afield, what);
    return Success(agg);
  }

  /** A group's count is the number of tuples merged into it (while that fits in an int), so at least 1. */
  lemma GroupCountIsNumberMerged(agg: StringAggregator, k: Option<Field>)
    requires agg.Valid() && k in agg.results
    requires multiset(agg.groupKeys)[k] <= INT_MAX
    ensures agg.results[k] == multiset(agg.groupKeys)[k] >= 1
  {
  }

  /** Without grouping the counter is the number of merged tuples (while that fits in an int)
      and there are no groups. */
  lemma UngroupedCountIsNumberMerged(agg: StringAggregator)
    requires agg.Valid() && agg.gbField == NO_GROUPING && agg.ungroupedMerges <= INT_MAX
    ensures agg.countNoGp == agg.ungroupedMerges
    ensures agg.results == map[]
  {
  }

  /** The result iterator: the `noGpHasNext` flag, and the entry order taken at `open` with a cursor. */
  class StringAggregatorIterator {
    const agg: StringAggregator
    var noGpHasNext: bool
    var entries: Option<seq<Option<Field>>>
    var pos: nat

    ghost predicate Valid()
      reads this, agg
    {
      agg.Valid() && (entries.Some? ==> IsEnumeration(entries.value, agg.results.Keys) && pos <= |entries.value|)
    }

    constructor (agg: StringAggregator)
      ensures this.agg == agg && !noGpHasNext && entries.None? && pos == 0
    {
      this.agg := agg;
      noGpHasNext := false;
      entries := None;
      pos := 0;
    }

    /** `open`: raise the flag and start a walk over every entry of the counts map, each exactly once. */
    method Open()
      requires agg.Valid()
      modifies this`noGpHasNext, this`entries, this`pos
      ensures Valid() && noGpHasNext && entries.Some? && pos == 0
      ensures |entries.value| == |agg.results|
    {
      noGpHasNext := true;
      EnumerationExists(agg.results.Keys);
      var order :| IsEnumeration(order, agg.results.Keys);
      EnumerationLength(order, agg.results.Keys);
      entries := Some(order);
      pos := 0;
    }

    /** `close`: lower the flag and drop the walk. */
    method Close()
      modifies this`noGpHasNext, this`entries
      ensures !noGpHasNext && entries.None?
    {
      noGpHasNext := false;
      entries := None;
    }

    method Rewind()
      requires agg.Valid()
      modifies this`noGpHasNext, this`entries, this`pos
      ensures Valid() && noGpHasNext && entries.Some? && pos == 0
      ensures |entries.value| == |agg.results|
    {
      Close();
      Open();
    }

    /** `hasNext`: the flag without grouping; otherwise NullPointerException while closed, else
        whether entries remain. */
    function HasNext(): (r: Result<bool, Exception>)
      reads this, agg
      ensures agg.gbField == NO_GROUPING ==> r == Success(noGpHasNext)
      ensures agg.gbField != NO_GROUPING ==>
        (r.Failure? <==> entries.None?) && (r == Success(true) <==> entries.Some? && pos < |entries.value|)
    {
      if agg.gbField == NO_GROUPING then Success(noGpHasNext)
      else if entries.None? then Failure(NullPointer)
      else Success(pos < |entries.value|)
    }

    /** `next`: the `(count)` row without grouping, which leaves the flag raised, so it is returned
        again on every call until `close`; otherwise the next `(key, count)` entry. */
    method Next() returns (r: Result<Tuple, Exception>)
      requires Valid()
      modifies this`pos
      ensures Valid() && entries == old(entries)
      ensures agg.gbField == NO_GROUPING ==>
        && pos == old(pos)
        && (!noGpHasNext ==> r == Failure(NoSuchElement))
        && (noGpHasNext ==>
              && r.Success? && fresh(r.value) && fresh(r.value.fieldList)
              && r.value.tupleDesc == agg.GetTupleDesc() && r.value.rid.None?
              && r.value.fieldList[..] == [Some(IntField(agg.countNoGp))])
      ensures agg.gbField != NO_GROUPING && entries.None? ==> r == Failure(NullPointer) && pos == old(pos)
      ensures agg.gbField != NO_GROUPING && entries.Some? && old(pos) == |entries.value| ==>
        r == Failure(NoSuchElement) && pos == old(pos)
      ensures agg.gbField != NO_GROUPING && entries.Some? && old(pos) < |entries.value| ==>
        var key := entries.value[old(pos)];
        && pos == old(pos) + 1
        && (key.None? ==> r == Failure(NullPointer))
        && (key.Some? ==>
              && r.Success? && fresh(r.value) && fresh(r.value.fieldList)
              && r.value.tupleDesc == agg.GetTupleDesc() && r.value.rid.None?
              && r.value.fieldList[..] == RowFields(agg.gbField, key.value, agg.results[key]))
    {
      var tp := new Tuple(agg.GetTupleDesc());
      if agg.gbField == NO_GROUPING {
        if !noGpHasNext {
          return Failure(NoSuchElement);
        }
        tp.SetField(0, IntField(agg.countNoGp));
        assert tp.fieldList[..] == [Some(IntField(agg.countNoGp))];
        return Success(tp);
      }
      if entries.None? {
        return Failure(NullPointer);
      }
      if pos == |entries.value| {
        return Failure(NoSuchElement);
      }
      var key := entries.value[pos];
      pos := pos + 1;
      if key.None? {
        return Failure(NullPointer);
      }
      FillRow(tp, agg.gbField, key.value, agg.results[key]);
      return Success(tp);
    }
    /** `next` as evidently intended: without grouping the `(count)` row is returned once and the
        flag is lowered, so the walk ends after it; with grouping it is `Next`. */
    method NextOnce() returns (r: Result<Tuple, Exception>)
      requires Valid()
      modifies this`pos, this`noGpHasNext
      ensures Valid() && entries == old(entries)
      ensures agg.gbField == NO_GROUPING ==>
        && pos == old(pos) && !noGpHasNext
        && (!old(noGpHasNext) ==> r == Failure(NoSuchElement))
        && (old(noGpHasNext) ==>
              && r.Success? && fresh(r.value) && fresh(r.value.fieldList)
              && r.value.tupleDesc == agg.GetTupleDesc() && r.value.rid.None?
              && r.value.fieldList[..] == [Some(IntField(agg.countNoGp))])
      ensures agg.gbField != NO_GROUPING ==> noGpHasNext == old(noGpHasNext)
      ensures agg.gbField != NO_GROUPING && entries.None? ==> r == Failure(NullPointer) && pos == old(pos)
      ensures agg.gbField != NO_GROUPING && entries.Some? && old(pos) == |entries.value| ==>
        r == Failure(NoSuchElement) && pos == old(pos)
      ensures agg.gbField != NO_GROUPING && entries.Some? && old(pos) < |entries.value| ==>
        var key := entries.value[old(pos)];
        && pos == old(pos) + 1
        && (key.None? ==> r == Failure(NullPointer))
        && (key.Some? ==>
              && r.Success? && fresh(r.value) && fresh(r.value.fieldList)
              && r.value.tupleDesc == agg.GetTupleDesc() && r.value.rid.None?
              && r.value.fieldList[..] == RowFields(agg.gbField, key.value, agg.results[key]))
    {
      if agg.gbField != NO_GROUPING {
        r := Next();
        return;
      }
      if !noGpHasNext {
        return Failure(NoSuchElement);
      }
      noGpHasNext := false;
      var tp := new Tuple(agg.GetTupleDesc());
      tp.SetField(0, IntField(agg.countNoGp));
      assert tp.fieldList[..] == [Some(IntField(agg.countNoGp))];
      return Success(tp);
    }
  }

  /** Without grouping the iterator never runs out: after `open`, two calls to `next` both return
      the count row and `hasNext` is still true. */
  method UngroupedRowRepeats(agg: StringAggregator) returns (first: Result<Tuple, Exception>, second: Result<Tuple, Exception>)
    requires agg.Valid() && agg.gbField == NO_GROUPING
    ensures first.Success? && second.Success? && first.value != second.value
    ensures first.value.fieldList[..] == second.value.fieldList[..] == [Some(IntField(agg.countNoGp))]
  {
    var it := agg.Iterator();
    it.Open();
    first := it.Next();
    assert it.HasNext() == Success(true);
    second := it.Next();
  }

  /** With `NextOnce`, the ungrouped walk yields its count row exactly once: the second call throws
      NoSuchElementException and `hasNext` is false. */
  method UngroupedRowOnce(agg: StringAggregator) returns (first: Result<Tuple, Exception>, second: Result<Tuple, Exception>)
    requires agg.Valid() && agg.gbField == NO_GROUPING
    ensures first.Success? && first.value.fieldList[..] == [Some(IntField(agg.countNoGp))]
    ensures second == Failure(NoSuchElement)
  {
    var it := agg.Iterator();
    it.Open();
    first := it.NextOnce();
    assert it.HasNext() == Success(false);
    second := it.NextOnce();
  }
}
