/** simpledb.IntegerAggregator: grouped MIN/MAX/SUM/AVG/COUNT over an integer column. */
module IntegerAggregation {
  import opened Wrappers
  import opened JavaLang
  import opened Fields
  import opened Schema
  import opened Tuples
  import opened Aggregator

  /** The key every tuple merges under when there is no grouping. A group key may be Java's null. */
  const DefaultGroup: Option<Field> := Some(IntField(0))

  /** The values merged under `key`, in merge order. */
  function ValuesOf(merged: seq<(Option<Field>, Int32)>, key: Option<Field>): seq<Int32>
  {
    if merged == [] then []
    else ValuesOf(merged[..|merged| - 1], key) + (if merged[|merged| - 1].0 == key then [merged[|merged| - 1].1] else [])
  }

  /** The group keys that have been merged at least once. */
  function KeysOf(merged: seq<(Option<Field>, Int32)>): set<Option<Field>>
  {
    set i | 0 <= i < |merged| :: merged[i].0
  }

  /** The mathematical (unbounded) sum. */
  function Sum(vs: seq<Int32>): int
  {
    if vs == [] then 0 else Sum(vs[..|vs| - 1]) + vs[|vs| - 1]
  }

  /** The running maximum, starting from the MIN_VALUE sentinel. */
  function MaxOf(vs: seq<Int32>): Int32
  {
    if vs == [] then INT_MIN
    else var m := MaxOf(vs[..|vs| - 1]); if vs[|vs| - 1] >= m then vs[|vs| - 1] else m
  }

  /** The running minimum, starting from the MAX_VALUE sentinel. */
  function MinOf(vs: seq<Int32>): Int32
  {
    if vs == [] then INT_MAX
    else var m := MinOf(vs[..|vs| - 1]); if vs[|vs| - 1] <= m then vs[|vs| - 1] else m
  }

  /** The (results, counts) entries held for a group once the values `vs` were merged into it:
      a 32-bit running sum and count for AVG, a count for COUNT, the value for the others. */
  function Expected(op: Op, vs: seq<Int32>): (Int32, Int32)
  {
    match op
    case AVG => (Wrap32(Sum(vs)), Wrap32(|vs|))
    case COUNT => (0, Wrap32(|vs|))
    case MAX => (MaxOf(vs), 0)
    case MIN => (MinOf(vs), 0)
    case SUM => (Wrap32(Sum(vs)), 0)
  }

  /** The aggregate value reported for a group whose merged values are `vs`. */
  function FinalOf(op: Op, vs: seq<Int32>): Result<Int32, Exception>
  {
    match op
    case AVG => if Wrap32(|vs|) == 0 then Failure(Arithmetic) else Success(JavaDiv(Wrap32(Sum(vs)), Wrap32(|vs|)))
    case COUNT => Success(Wrap32(|vs|))
    case MAX => Success(MaxOf(vs))
    case MIN => Success(MinOf(vs))
    case SUM => Success(Wrap32(Sum(vs)))
  }

  lemma ValuesOfSnoc(merged: seq<(Option<Field>, Int32)>, key: Option<Field>, v: Int32, k: Option<Field>)
    ensures ValuesOf(merged + [(key, v)], k) == ValuesOf(merged, k) + (if k == key then [v] else [])
  {
    assert (merged + [(key, v)])[..|merged|] == merged;
  }

  lemma KeysOfSnoc(merged: seq<(Option<Field>, Int32)>, key: Option<Field>, v: Int32)
    ensures KeysOf(merged + [(key, v)]) == KeysOf(merged) + {key}
  {
    var m := merged + [(key, v)];
    forall k | k in KeysOf(m) ensures k in KeysOf(merged) + {key} {
      var i :| 0 <= i < |m| && m[i].0 == k;
      if i < |merged| {
        assert merged[i].0 == k;
      }
    }
    forall k | k in KeysOf(merged) ensures k in KeysOf(m) {
      var i :| 0 <= i < |merged| && merged[i].0 == k;
      assert m[i].0 == k;
    }
    assert m[|merged|].0 == key;
  }

  /** Storing an entry for a just-merged key keeps a map's key set equal to the merged keys. */
  lemma KeysAfterMerge<V>(m: map<Option<Field>, V>, merged: seq<(Option<Field>, Int32)>,
                          key: Option<Field>, v: Int32, x: V)
    requires m.Keys == KeysOf(merged)
    ensures m[key := x].Keys == KeysOf(merged + [(key, v)])
  {
    KeysOfSnoc(merged, key, v);
  }

  /** Without grouping, merging under the default group keeps every merged key the default one. */
  lemma OnlyDefaultAfterMerge(merged: seq<(Option<Field>, Int32)>, v: Int32)
    requires forall i :: 0 <= i < |merged| ==> merged[i].0 == DefaultGroup
    ensures forall i :: 0 <= i < |merged + [(DefaultGroup, v)]| ==> (merged + [(DefaultGroup, v)])[i].0 == DefaultGroup
  {
  }

  lemma SnocFacts(vs: seq<Int32>, v: Int32)
    ensures Sum(vs + [v]) == Sum(vs) + v
    ensures MaxOf(vs + [v]) == if v >= MaxOf(vs) then v else MaxOf(vs)
    ensures MinOf(vs + [v]) == if v <= MinOf(vs) then v else MinOf(vs)
    ensures |vs + [v]| == |vs| + 1
  {
    assert (vs + [v])[..|vs|] == vs;
  }

  /** A key has merged values exactly when it has been merged. */
  lemma {:induction false} ValuesOfNonEmpty(merged: seq<(Option<Field>, Int32)>, key: Option<Field>)
    ensures key in KeysOf(merged) <==> ValuesOf(merged, key) != []
    decreases |merged|
  {
    if merged != [] {
      var front := merged[..|merged| - 1];
      assert merged == front + [merged[|merged| - 1]];
      KeysOfSnoc(front, merged[|merged| - 1].0, merged[|merged| - 1].1);
      ValuesOfNonEmpty(front, key);
    }
  }

  /** COUNT reports the number of values merged into the group (while that fits in an int). */
  lemma CountIsNumberMerged(vs: seq<Int32>)
    requires |vs| <= INT_MAX
    ensures FinalOf(COUNT, vs) == Success(|vs|)
  {
  }

  /** SUM reports the sum of the merged values (while that fits in an int). */
  lemma SumIsTotal(vs: seq<Int32>)
    requires INT_MIN <= Sum(vs) <= INT_MAX
    ensures FinalOf(SUM, vs) == Success(Sum(vs))
  {
  }

  /** MAX reports a merged value that no merged value exceeds: the sentinel is always replaced. */
  lemma {:induction false} MaxIsMaximum(vs: seq<Int32>)
    requires vs != []
    ensures MaxOf(vs) in vs
    ensures forall i :: 0 <= i < |vs| ==> vs[i] <= MaxOf(vs)
    decreases |vs|
  {
    var front := vs[..|vs| - 1];
    assert vs == front + [vs[|vs| - 1]];
    if front != [] {
      MaxIsMaximum(front);
    }
  }

  /** MIN reports a merged value that no merged value undercuts: the sentinel is always replaced. */
  lemma {:induction false} MinIsMinimum(vs: seq<Int32>)
    requires vs != []
    ensures MinOf(vs) in vs
    ensures forall i :: 0 <= i < |vs| ==> MinOf(vs) <= vs[i]
    decreases |vs|
  {
    var front := vs[..|vs| - 1];
    assert vs == front + [vs[|vs| - 1]];
    if front != [] {
      MinIsMinimum(front);
    }
  }

  /** AVG of a merged group never divides by zero (while the count fits in an int) and reports the
      running sum divided by the count, rounded toward zero. */
  lemma AvgIsTruncatedMean(vs: seq<Int32>)
    requires 0 < |vs| <= INT_MAX
    ensures FinalOf(AVG, vs).Success?
    ensures INT_MIN <= Sum(vs) <= INT_MAX ==> FinalOf(AVG, vs) == Success(TruncDiv(Sum(vs), |vs|))
  {
  }

  /** `Sum` of at most INT_MAX values each within [lo, hi] lies within [n * lo, n * hi]. */
  lemma {:induction false} SumBounds(vs: seq<Int32>, lo: int, hi: int)
    requires forall i :: 0 <= i < |vs| ==> lo <= vs[i] <= hi
    ensures |vs| * lo <= Sum(vs) <= |vs| * hi
    decreases |vs|
  {
    if vs != [] {
      var front := vs[..|vs| - 1];
      SumBounds(front, lo, hi);
      assert |vs| * lo == |front| * lo + lo;
      assert |vs| * hi == |front| * hi + hi;
    }
  }

  /** With no overflow, the AVG of a group lies between its MIN and its MAX. */
  lemma AvgBetweenMinAndMax(vs: seq<Int32>)
    requires 0 < |vs| <= INT_MAX && INT_MIN <= Sum(vs) <= INT_MAX
    ensures FinalOf(AVG, vs).Success?
    ensures MinOf(vs) <= FinalOf(AVG, vs).value <= MaxOf(vs)
  {
    MaxIsMaximum(vs);
    MinIsMinimum(vs);
    SumBounds(vs, MinOf(vs), MaxOf(vs));
    var n := |vs|;
    var q := TruncDiv(Sum(vs), n);
    assert FinalOf(AVG, vs).value == q;
    TruncDivBetween(Sum(vs), n, MinOf(vs), MaxOf(vs));
  }

  /** Truncating division keeps n * lo <= s <= n * hi within [lo, hi]. */
  lemma TruncDivBetween(s: int, n: int, lo: int, hi: int)
    requires n > 0 && n * lo <= s <= n * hi
    ensures lo <= TruncDiv(s, n) <= hi
  {
    var q := TruncDiv(s, n);
    TruncDivNear(s, n);
    QuotientBetween(s, n, q, lo, hi);
  }

  lemma TruncDivNear(s: int, n: int)
    requires n > 0
    ensures n * TruncDiv(s, n) - n < s < n * TruncDiv(s, n) + n
  {
    var q := TruncDiv(s, n);
    var r := s - q * n;
    assert Abs(r) < n;
    assert q * n == n * q;
  }

  /** A q with n * q within n of s, for n * lo <= s <= n * hi, lies within [lo, hi]. */
  lemma QuotientBetween(s: int, n: int, q: int, lo: int, hi: int)
    requires n > 0 && n * lo <= s <= n * hi
    requires n * q - n < s < n * q + n
    ensures lo <= q <= hi
  {
    if q > hi {
      MulMonotone(n, hi + 1, q);
      assert false;
    }
    if q < lo {
      MulMonotone(n, q + 1, lo);
      assert false;
    }
  }

  lemma MulMonotone(n: int, a: int, b: int)
    requires n > 0 && a <= b
    ensures n * a <= n * b
  {
  }

  /** Each group's (results, counts) entries are the ones its merged values determine. */
  ghost predicate Agrees(op: Op, results: map<Option<Field>, Int32>, counts: map<Option<Field>, Int32>,
                         merged: seq<(Option<Field>, Int32)>)
  {
    forall k :: k in results ==> k in counts && (results[k], counts[k]) == Expected(op, ValuesOf(merged, k))
  }

  /** The `switch` of `merge`: how one value changes a group's (results, counts) entries, with int
      wrap-around; COUNT and AVG bump the count, the others leave it alone. */
  function MergeStep(op: Op, entry: (Int32, Int32), v: Int32): (Int32, Int32)
  {
    match op
    case AVG => (Wrap32(entry.0 as int + v), Wrap32(entry.1 as int + 1))
    case COUNT => (entry.0, Wrap32(entry.1 as int + 1))
    case MAX => (if v >= entry.0 then v else entry.0, entry.1)
    case MIN => (if v <= entry.0 then v else entry.0, entry.1)
    case SUM => (Wrap32(v as int + entry.0), entry.1)
  }

  /** Folding values in one at a time with `MergeStep` computes `Expected`. */
  lemma ExpectedSnoc(op: Op, vs: seq<Int32>, v: Int32)
    ensures Expected(op, vs + [v]) == MergeStep(op, Expected(op, vs), v)
  {
    SnocFacts(vs, v);
    WrapAdd(Sum(vs), v);
    WrapAdd(|vs|, 1);
  }

  lemma AgreesSnoc(op: Op, results: map<Option<Field>, Int32>, counts: map<Option<Field>, Int32>,
                   merged: seq<(Option<Field>, Int32)>, key: Option<Field>, v: Int32)
    requires Agrees(op, results, counts, merged)
    ensures var e := Expected(op, ValuesOf(merged, key) + [v]);
      Agrees(op, results[key := e.0], counts[key := e.1], merged + [(key, v)])
  {
    var e := Expected(op, ValuesOf(merged, key) + [v]);
    var results', counts', merged' := results[key := e.0], counts[key := e.1], merged + [(key, v)];
    forall k | k in results'
      ensures k in counts' && (results'[k], counts'[k]) == Expected(op, ValuesOf(merged', k))
    {
      ValuesOfSnoc(merged, key, v, k);
      if k != key {
        assert results'[k] == results[k] && counts'[k] == counts[k];
        assert ValuesOf(merged', k) == ValuesOf(merged, k);
      }
    }
  }

  /** Both maps hold exactly the merged keys, without grouping only the default group was merged,
      and every entry is what the group's merged values determine. */
  ghost predicate Consistent(gbField: int, op: Op, results: map<Option<Field>, Int32>,
                             counts: map<Option<Field>, Int32>, merged: seq<(Option<Field>, Int32)>)
  {
    && results.Keys == KeysOf(merged)
    && counts.Keys == KeysOf(merged)
    && (gbField == NO_GROUPING ==> forall i :: 0 <= i < |merged| ==> merged[i].0 == DefaultGroup)
    && Agrees(op, results, counts, merged)
  }

  /** The entries `merge` starts from: the stored ones, or count 0 and the operator's sentinel. */
  function StartEntry(op: Op, results: map<Option<Field>, Int32>, counts: map<Option<Field>, Int32>,
                      key: Option<Field>): (Int32, Int32)
  {
    (if key in results then results[key] else if op == MAX then INT_MIN else if op == MIN then INT_MAX else 0,
     if key in counts then counts[key] else 0)
  }

  /** One `merge` step leaves a group with the entries its extended list of values determines. */
  lemma EntryAfterMerge(gbField: int, op: Op, results: map<Option<Field>, Int32>,
                        counts: map<Option<Field>, Int32>, merged: seq<(Option<Field>, Int32)>,
                        key: Option<Field>, v: Int32)
    requires Consistent(gbField, op, results, counts, merged)
    ensures MergeStep(op, StartEntry(op, results, counts, key), v) == Expected(op, ValuesOf(merged, key) + [v])
  {
    StartEntryIsExpected(gbField, op, results, counts, merged, key);
    ExpectedSnoc(op, ValuesOf(merged, key), v);
  }

  /** Storing those entries keeps the maps consistent with the merged values. */
  lemma MergeKeepsConsistent(gbField: int, op: Op, results: map<Option<Field>, Int32>,
                             counts: map<Option<Field>, Int32>, merged: seq<(Option<Field>, Int32)>,
                             key: Option<Field>, v: Int32, e: (Int32, Int32))
    requires Consistent(gbField, op, results, counts, merged)
    requires gbField == NO_GROUPING ==> key == DefaultGroup
    requires e == Expected(op, ValuesOf(merged, key) + [v])
    ensures Consistent(gbField, op, results[key := e.0], counts[key := e.1], merged + [(key, v)])
  {
    AgreesSnoc(op, results, counts, merged, key, v);
    KeysAfterMerge(results, merged, key, v, e.0);
    KeysAfterMerge(counts, merged, key, v, e.1);
    if gbField == NO_GROUPING {
      OnlyDefaultAfterMerge(merged, v);
    }
  }

  /** For a new key, the sentinel entry is what no merged values determine. */
  lemma StartEntryIsExpected(gbField: int, op: Op, results: map<Option<Field>, Int32>,
                             counts: map<Option<Field>, Int32>, merged: seq<(Option<Field>, Int32)>,
                             key: Option<Field>)
    requires Consistent(gbField, op, results, counts, merged)
    ensures StartEntry(op, results, counts, key) == Expected(op, ValuesOf(merged, key))
  {
    ValuesOfNonEmpty(merged, key);
    if key !in results {
      assert ValuesOf(merged, key) == [];
    }
  }

  /** An IntegerAggregator: per-group `results` and `counts` maps, and (ghost) every
      (group key, value) pair merged so far. */
  class IntegerAggregator {
    const gbField: int
    const gbFieldType: Option<Type>
    const aField: int
    const what: Op
    var results: map<Option<Field>, Int32>
    var counts: map<Option<Field>, Int32>
    ghost var merged: seq<(Option<Field>, Int32)>

    /** Both maps hold exactly the merged keys, and their entries are what the merged values determine. */
    ghost predicate Valid()
      reads this
    {
      && (gbField != NO_GROUPING ==> gbFieldType.Some?)
      && Consistent(gbField, what, results, counts, merged)
    }

    constructor (gbfield: int, gbfieldtype: Option<Type>, afield: int, what: Op)
      requires gbfield != NO_GROUPING ==> gbfieldtype.Some?
      ensures gbField == gbfield && gbFieldType == gbfieldtype && aField == afield && this.what == what
      ensures Valid() && merged == [] && results == map[] && counts == map[]
    {
      gbField := gbfield;
      gbFieldType := gbfieldtype;
      aField := afield;
      this.what := what;
      results := map[];
      counts := map[];
      merged := [];
    }

    /** The private `merge(key, val)`: fold one value into its group's entries. */
    method Merge(key: Option<Field>, val: Int32)
      requires Valid() && (gbField == NO_GROUPING ==> key == DefaultGroup)
      modifies this
      ensures Valid() && merged == old(merged) + [(key, val)]
    {
      // A new key starts from count 0 and from the operator's sentinel (0 is stored for it first,
      // and overwritten below).
      var count: Int32 := if key in counts then counts[key] else 0;
      var result: Int32 :=
        if key in results then results[key] else if what == MAX then INT_MIN else if what == MIN then INT_MAX else 0;
      var entry := MergeStep(what, (result, count), val);
      EntryAfterMerge(gbField, what, results, counts, merged, key, val);
      MergeKeepsConsistent(gbField, what, results, counts, merged, key, val, entry);
      results := results[key := entry.0];
      counts := counts[key := entry.1];
      merged := merged + [(key, val)];
    }

    /** The group a tuple merges into: the default group, or its (possibly null) group-by field. */
    function GroupKey(tup: Tuple): Option<Field>
      reads tup.fieldList
      requires gbField != NO_GROUPING ==> 0 <= gbField < tup.fieldList.Length
    {
      if gbField == NO_GROUPING then DefaultGroup else tup.fieldList[gbField]
    }

    /** The aggregate field can be read as an int: it is set and is an IntField. */
    predicate HasIntValue(tup: Tuple)
      reads tup.fieldList
      requires 0 <= aField < tup.fieldList.Length
    {
      tup.fieldList[aField].Some? && tup.fieldList[aField].value.IntField?
    }

    /** `tup` merges without an exception: both indices are in range and the aggregate field holds an int. */
    predicate Mergeable(tup: Tuple)
      reads tup.fieldList
    {
      && 0 <= aField < tup.fieldList.Length
      && (gbField != NO_GROUPING ==> 0 <= gbField < tup.fieldList.Length)
      && HasIntValue(tup)
    }

    /** The (group key, value) pairs that merging the tuples `ts` in order contributes. */
    ghost function PairsOf(ts: seq<Tuple>): seq<(Option<Field>, Int32)>
      reads set t | t in ts :: t.fieldList
      requires forall t :: t in ts ==> Mergeable(t)
    {
      if ts == [] then []
      else
        var last := ts[|ts| - 1];
        assert last in ts && Mergeable(last);
        PairsOf(ts[..|ts| - 1]) + [(GroupKey(last), last.fieldList[aField].value.intValue)]
    }

    /** `mergeTupleIntoGroup`. Reading a null aggregate field throws NullPointerException and a
        string one ClassCastException, before anything changes. */
    method MergeTupleIntoGroup(tup: Tuple) returns (err: Option<Exception>)
      requires Valid()
      requires 0 <= aField < tup.fieldList.Length
      requires gbField != NO_GROUPING ==> 0 <= gbField < tup.fieldList.Length
      modifies this
      ensures Valid()
      ensures err.None? <==> HasIntValue(tup)
      ensures err.None? ==> merged == old(merged) + [(GroupKey(tup), tup.fieldList[aField].value.intValue)]
      ensures err.Some? ==> merged == old(merged) && results == old(results) && counts == old(counts)
      ensures err.Some? ==> err.value == if tup.fieldList[aField].None? then NullPointer else ClassCast
    {
      var key := if gbField == NO_GROUPING then DefaultGroup else tup.GetField(gbField);
      var a := tup.GetField(aField);
      if a.None? {
        return Some(NullPointer);
      }
      if !a.value.IntField? {
        return Some(ClassCast);
      }
      Merge(key, a.value.intValue);
      return None;
    }

    /** The private `finalVal(key)`; AVG divides with Java's `/`. */
    function FinalVal(key: Option<Field>): (r: Result<Int32, Exception>)
      reads this
      requires Valid() && key in results
      ensures r == FinalOf(what, ValuesOf(merged, key))
    {
      match what
      case AVG => if counts[key] == 0 then Failure(Arithmetic) else Success(JavaDiv(results[key], counts[key]))
      case COUNT => Success(counts[key])
      case MAX => Success(results[key])
      case MIN => Success(results[key])
      case SUM => Success(results[key])
    }

    /** The output schema: `[INT]` or `[gbFieldType, INT]`. */
    function GetTupleDesc(): TupleDesc
      reads this
      requires Valid()
    {
      ResultDesc(gbField, gbFieldType)
    }

    /** `iterator()`: a new, not yet opened, result iterator. */
    method Iterator() returns (it: IntegerAggregatorIterator)
      ensures fresh(it) && it.agg == this && it.keys.None?
    {
      it := new IntegerAggregatorIterator(this);
    }
  }

  /** Without grouping every tuple merges into the default group, so there is at most one row. */
  lemma AtMostOneGroup(agg: IntegerAggregator)
    requires agg.Valid() && agg.gbField == NO_GROUPING
    ensures agg.results.Keys <= {DefaultGroup}
    ensures |agg.results| <= 1
  {
    assert agg.results.Keys <= {DefaultGroup};
    if agg.results.Keys != {} {
      assert agg.results.Keys == {DefaultGroup};
    }
  }

  /** Every merged group has a result row whose value is its aggregate, whatever the operator. */
  lemma EveryMergedKeyHasRow(agg: IntegerAggregator, i: int)
    requires agg.Valid() && 0 <= i < |agg.merged|
    ensures agg.merged[i].0 in agg.results
    ensures ValuesOf(agg.merged, agg.merged[i].0) != []
  {
    ValuesOfNonEmpty(agg.merged, agg.merged[i].0);
  }

  /** The result iterator: the key order taken from the results map at `open`, and a cursor into it. */
  class IntegerAggregatorIterator {
    const agg: IntegerAggregator
    var keys: Option<seq<Option<Field>>>
    var pos: nat

    ghost predicate Valid()
      reads this, agg
    {
      agg.Valid() && (keys.Some? ==> IsEnumeration(keys.value, agg.results.Keys) && pos <= |keys.value|)
    }

    constructor (agg: IntegerAggregator)
      ensures this.agg == agg && keys.None? && pos == 0
    {
      this.agg := agg;
      keys := None;
      pos := 0;
    }

    /** `open`: start a walk over every key of the results map, each exactly once. */
    method Open()
      requires agg.Valid()
      modifies this`keys, this`pos
      ensures Valid() && keys.Some? && pos == 0
      ensures |keys.value| == |agg.results|
    {
      EnumerationExists(agg.results.Keys);
      var order :| IsEnumeration(order, agg.results.Keys);
      EnumerationLength(order, agg.results.Keys);
      keys := Some(order);
      pos := 0;
    }

    method Close()
      modifies this`keys
      ensures keys.None?
    {
      keys := None;
    }

    /** `rewind`: close then open, so a new walk over the same key set starts. */
    method Rewind()
      requires agg.Valid()
      modifies this`keys, this`pos
      ensures Valid() && keys.Some? && pos == 0
      ensures |keys.value| == |agg.results|
    {
      Close();
      Open();
    }

    /** `hasNext`: NullPointerException while closed, otherwise whether keys remain. */
    function HasNext(): (r: Result<bool, Exception>)
      reads this
      ensures r.Failure? <==> keys.None?
      ensures r == Success(true) <==> keys.Some? && pos < |keys.value|
    {
      if keys.None? then Failure(NullPointer) else Success(pos < |keys.value|)
    }

    /** `next`: the row for the next key, `(key, value)` or `(value)`. The aggregator is only read. */
    method Next() returns (r: Result<Tuple, Exception>)
      requires Valid()
      modifies this`pos
      ensures Valid() && keys == old(keys)
      ensures keys.None? ==> r == Failure(NullPointer) && pos == old(pos)
      ensures keys.Some? && old(pos) == |keys.value| ==> r == Failure(NoSuchElement) && pos == old(pos)
      ensures keys.Some? && old(pos) < |keys.value| ==> pos == old(pos) + 1
      ensures keys.Some? && old(pos) < |keys.value| ==>
        var key := keys.value[old(pos)];
        var final := FinalOf(agg.what, ValuesOf(agg.merged, key));
        && (final.Failure? ==> r == Failure(final.error))
        && (final.Success? && agg.gbField != NO_GROUPING && key.None? ==> r == Failure(NullPointer))
        && (final.Success? && (agg.gbField == NO_GROUPING || key.Some?) ==>
              && r.Success? && fresh(r.value) && fresh(r.value.fieldList)
              && r.value.tupleDesc == agg.GetTupleDesc() && r.value.rid.None?
              && r.value.fieldList[..] == RowFields(agg.gbField, key.value, final.value))
    {
      if keys.None? {
        return Failure(NullPointer);
      }
      if pos == |keys.value| {
        return Failure(NoSuchElement);
      }
      var tp := new Tuple(agg.GetTupleDesc());
      var key := keys.value[pos];
      pos := pos + 1;
      var result := agg.FinalVal(key);
      if result.Failure? {
        return Failure(result.error);
      }
      if agg.gbField != NO_GROUPING && key.None? {
        return Failure(NullPointer);
      }
      assert agg.gbField == NO_GROUPING ==> key == DefaultGroup;
      FillRow(tp, agg.gbField, key.value, result.value);
      return Success(tp);
    }
  }
}
