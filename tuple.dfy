/** Records (simpledb.Tuple) and the identifiers that locate them on disk. */
module Tuples {
  import opened Wrappers
  import opened JavaLang
  import opened Fields
  import opened Schema

  /** A page identifier: a heap-file page, or a page of some other kind of file. */
  datatype PageId = HeapPageId(tableId: int, pgNo: nat) | OtherPageId(tableId: int, pgNo: nat)

  /** Where a tuple lives: a page and a slot on it. */
  datatype RecordId = RecordId(pid: PageId, tupleNo: nat)

  /** The string form `toString` builds: every rendered field followed by a tab. */
  function TabTerminated(parts: seq<string>): string
  {
    if parts == [] then "" else TabTerminated(parts[..|parts| - 1]) + parts[|parts| - 1] + "\t"
  }

  /** The rendering of every (set) field value, in order. */
  function Rendered(fs: seq<Option<Field>>, render: Field -> string): (parts: seq<string>)
    requires forall i :: 0 <= i < |fs| ==> fs[i].Some?
    ensures |parts| == |fs| && forall i :: 0 <= i < |fs| ==> parts[i] == render(fs[i].value)
  {
    seq(|fs|, i requires 0 <= i < |fs| => render(fs[i].value))
  }

  /** A record: a fixed-length array of optional field values, a record id and a re-bindable descriptor. */
  class Tuple {
    var tupleDesc: TupleDesc
    var rid: Option<RecordId>
    const fieldList: array<Option<Field>>

    /** A new tuple has one unset slot per field of `td` and no record id. */
    constructor (td: TupleDesc)
      ensures tupleDesc == td && rid == None
      ensures fresh(fieldList)
      ensures fieldList.Length == td.NumFields()
      ensures forall i :: 0 <= i < fieldList.Length ==> fieldList[i] == None
    {
      tupleDesc := td;
      rid := None;
      fieldList := new Option<Field>[td.NumFields()](_ => None);
    }

    function GetTupleDesc(): TupleDesc
      reads this
    {
      tupleDesc
    }

    function GetRecordId(): Option<RecordId>
      reads this
    {
      rid
    }

    method SetRecordId(r: Option<RecordId>)
      modifies this`rid
      ensures GetRecordId() == r
    {
      rid := r;
    }

    /** `setField(i, f)`: slot i now holds f and every other slot is untouched. */
    method SetField(i: int, f: Field)
      requires 0 <= i < fieldList.Length
      modifies fieldList
      ensures GetField(i) == Some(f)
      ensures forall j :: 0 <= j < fieldList.Length && j != i ==> fieldList[j] == old(fieldList[j])
    {
      fieldList[i] := Some(f);
    }

    /** `getField(i)`: the value in slot i, `None` when it has never been set. */
    function GetField(i: int): Option<Field>
      requires 0 <= i < fieldList.Length
      reads fieldList
    {
      fieldList[i]
    }

    /** `resetTupleDesc`: only the descriptor changes; the field values and record id stay as they were. */
    method ResetTupleDesc(td: TupleDesc)
      modifies this`tupleDesc
      ensures tupleDesc == td
    {
      tupleDesc := td;
    }

    /** `toString`: each field rendered by `render` (Field.toString) and followed by a tab; an unset
        field makes the `toString` call on it throw NullPointerException. */
    method ToString(render: Field -> string) returns (s: Result<string, Exception>)
      ensures s.Success? <==> forall i :: 0 <= i < fieldList.Length ==> fieldList[i].Some?
      ensures s.Success? ==>
        s.value == TabTerminated(Rendered(fieldList[..], render))
      ensures s.Failure? ==> s.error == NullPointer
    {
      var acc := "";
      ghost var parts: seq<string> := [];
      for i := 0 to fieldList.Length
        invariant |parts| == i
        invariant forall j :: 0 <= j < i ==> fieldList[j].Some? && parts[j] == render(fieldList[j].value)
        invariant acc == TabTerminated(parts)
      {
        var f := fieldList[i];
        if f.None? {
          return Failure(NullPointer);
        }
        assert (parts + [render(f.value)])[..i] == parts;
        acc := acc + render(f.value) + "\t";
        parts := parts + [render(f.value)];
      }
      assert parts == Rendered(fieldList[..], render);
      return Success(acc);
    }

    /** `fields()`: a fresh cursor over this tuple's slots, starting at index 0. */
    method Fields() returns (it: TupleIterator)
      ensures fresh(it) && it.tp == this && it.idx == 0
    {
      it := new TupleIterator(this);
    }
  }

  /** The cursor behind `Tuple.fields()`. */
  class TupleIterator {
    const tp: Tuple
    var idx: nat

    constructor (tp: Tuple)
      ensures this.tp == tp && idx == 0
    {
      this.tp := tp;
      idx := 0;
    }

    function HasNext(): bool
      reads this
    {
      idx < tp.fieldList.Length
    }

    /** Advances the cursor, then reads the slot it passed; past the end the array access throws. */
    method Next() returns (r: Result<Option<Field>, Exception>)
      modifies this`idx
      ensures idx == old(idx) + 1
      ensures old(idx) < tp.fieldList.Length ==> r == Success(tp.fieldList[old(idx)])
      ensures old(idx) >= tp.fieldList.Length ==> r == Failure(IndexOutOfBounds)
    {
      idx := idx + 1;
      if idx - 1 < tp.fieldList.Length {
        r := Success(tp.fieldList[idx - 1]);
      } else {
        r := Failure(IndexOutOfBounds);
      }
    }
  }

  /** Draining `t.fields()` yields exactly the tuple's slots, in index order. */
  method FieldValues(t: Tuple) returns (values: seq<Option<Field>>)
    ensures values == t.fieldList[..]
  {
    var it := t.Fields();
    values := [];
    while it.HasNext()
      invariant it.tp == t && it.idx == |values| <= t.fieldList.Length
      invariant values == t.fieldList[..it.idx]
      decreases t.fieldList.Length - it.idx
    {
      var r := it.Next();
      values := values + [r.value];
    }
  }
}
