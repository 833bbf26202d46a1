/** What the two aggregators share (the simpledb.Aggregator interface): the operators, the
    no-grouping marker, the result schema and row shape, and the order in which a result
    iterator walks the group keys. */
module Aggregator {
  import opened Wrappers
  import opened JavaLang
  import opened Fields
  import opened Schema
  import opened Tuples

  datatype Op = MIN | MAX | SUM | AVG | COUNT

  /** The group-by index that means "no grouping". */
  const NO_GROUPING: int := -1

  /** `Op.toString`, used to name the aggregate column. */
  function OpName(op: Op): string
  {
    match op
    case MIN => "min"
    case MAX => "max"
    case SUM => "sum"
    case AVG => "avg"
    case COUNT => "count"
  }

  /** The aggregators' `getTupleDesc`: `[INT]` without grouping, `[gbFieldType, INT]` with it,
      built by the type-only constructor, so every column is named ANONYMOUS_FIELD. */
  function ResultDesc(gbField: int, gbFieldType: Option<Type>): (td: TupleDesc)
    requires gbField != NO_GROUPING ==> gbFieldType.Some?
    ensures gbField == NO_GROUPING ==> td.NumFields() == 1 && td.GetFieldType(0) == Success(INT_TYPE)
    ensures gbField != NO_GROUPING ==>
      td.NumFields() == 2 && td.GetFieldType(0) == Success(gbFieldType.value) && td.GetFieldType(1) == Success(INT_TYPE)
    ensures forall i :: 0 <= i < td.NumFields() ==> td.GetFieldName(i) == Success(Some(ANONYMOUS_FIELD))
  {
    if gbField == NO_GROUPING then
      TupleDesc([TDItem(INT_TYPE, Some(ANONYMOUS_FIELD))])
    else
      TupleDesc([TDItem(gbFieldType.value, Some(ANONYMOUS_FIELD)), TDItem(INT_TYPE, Some(ANONYMOUS_FIELD))])
  }

  /** The fields of one result row: `(key, value)` when grouped, `(value)` otherwise. */
  function RowFields(gbField: int, key: Field, value: Int32): seq<Option<Field>>
  {
    if gbField == NO_GROUPING then [Some(IntField(value))] else [Some(key), Some(IntField(value))]
  }

  /** Fill a new result tuple with the row `RowFields(gbField, key, value)`. */
  method FillRow(tp: Tuple, gbField: int, key: Field, value: Int32)
    requires tp.fieldList.Length == if gbField == NO_GROUPING then 1 else 2
    modifies tp.fieldList
    ensures tp.fieldList[..] == RowFields(gbField, key, value)
  {
    if gbField == NO_GROUPING {
      tp.SetField(0, IntField(value));
    } else {
      tp.SetField(0, key);
      tp.SetField(1, IntField(value));
    }
    assert tp.fieldList[..] == RowFields(gbField, key, value);
  }

  /** `order` lists every key of `keys` exactly once: the walk a HashMap iterator makes. */
  predicate IsEnumeration<K(==)>(order: seq<K>, keys: set<K>)
  {
    && (forall i, j :: 0 <= i < j < |order| ==> order[i] != order[j])
    && (forall i :: 0 <= i < |order| ==> order[i] in keys)
    && (forall k :: k in keys ==> k in order)
  }

  /** Every finite key set has an enumeration. */
  lemma EnumerationExists<K>(keys: set<K>)
    ensures exists order: seq<K> :: IsEnumeration(order, keys)
    decreases keys
  {
    if keys == {} {
      assert IsEnumeration<K>([], keys);
    } else {
      var k :| k in keys;
      EnumerationExists(keys - {k});
      var order :| IsEnumeration(order, keys - {k});
      assert IsEnumeration(order + [k], keys);
    }
  }

  /** An enumeration has exactly one entry per key, so a full pass yields one row per group. */
  lemma {:induction false} EnumerationLength<K>(order: seq<K>, keys: set<K>)
    requires IsEnumeration(order, keys)
    ensures |order| == |keys|
    decreases |order|
  {
    if order != [] {
      var last := order[|order| - 1];
      var front := order[..|order| - 1];
      assert order == front + [last];
      assert IsEnumeration(front, keys - {last}) by {
        forall k | k in keys - {last} ensures k in front {
          var i :| 0 <= i < |order| && order[i] == k;
          assert i != |order| - 1;
        }
      }
      EnumerationLength(front, keys - {last});
    } else {
      assert forall k :: k !in keys;
      assert keys == {};
    }
  }
}
