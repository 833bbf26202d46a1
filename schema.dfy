/** The schema descriptor of a tuple (simpledb.TupleDesc). */
module Schema {
  import opened Wrappers
  import opened JavaLang
  import opened Fields

  const ANONYMOUS_FIELD: string := "ANONYMOUS_FIELD"

  /** One (type, name) entry; the name may be Java's null. */
  datatype TDItem = TDItem(fieldType: Type, fieldName: Option<string>)

  /** A descriptor never changes once built, so it is a value: the ordered list of its items. */
  datatype TupleDesc = TupleDesc(items: seq<TDItem>) {

    function NumFields(): nat
    {
      |items|
    }

    /** Throws NoSuchElementException exactly for an index outside [0, numFields). */
    function GetFieldName(i: int): (r: Result<Option<string>, Exception>)
      ensures r.Failure? <==> i < 0 || i >= NumFields()
      ensures r.Failure? ==> r.error == NoSuchElement
    {
      if i >= NumFields() || i < 0 then Failure(NoSuchElement) else Success(items[i].fieldName)
    }

    /** Throws NoSuchElementException exactly for an index outside [0, numFields). */
    function GetFieldType(i: int): (r: Result<Type, Exception>)
      ensures r.Failure? <==> i < 0 || i >= NumFields()
      ensures r.Failure? ==> r.error == NoSuchElement
    {
      if i >= NumFields() || i < 0 then Failure(NoSuchElement) else Success(items[i].fieldType)
    }
  }

  /** The reading of `equals`: same number of fields and the same type at every position; names are ignored. */
  ghost predicate SameSchema(a: TupleDesc, b: TupleDesc)
  {
    |a.items| == |b.items| && forall i :: 0 <= i < |a.items| ==> a.items[i].fieldType == b.items[i].fieldType
  }

  /** The byte size of a tuple of the given items, for field widths `len` (Type.getLen). */
  function SizeOf(items: seq<TDItem>, len: Type -> nat): nat
  {
    if items == [] then 0 else SizeOf(items[..|items| - 1], len) + len(items[|items| - 1].fieldType)
  }

  /** `new TupleDesc(typeAr, fieldAr)`: one item per type, named by the matching entry of `fieldAr`. */
  method FromTypesAndNames(typeAr: seq<Type>, fieldAr: seq<Option<string>>) returns (td: TupleDesc)
    requires |typeAr| > 0 && |typeAr| == |fieldAr|
    ensures td.NumFields() == |typeAr|
    ensures forall i :: 0 <= i < |typeAr| ==>
      td.GetFieldType(i) == Success(typeAr[i]) && td.GetFieldName(i) == Success(fieldAr[i])
  {
    var itemlist := new TDItem[|typeAr|];
    for i := 0 to |typeAr|
      invariant forall j {:trigger itemlist[j]} :: 0 <= j < i ==> itemlist[j] == TDItem(typeAr[j], fieldAr[j])
    {
      itemlist[i] := TDItem(typeAr[i], fieldAr[i]);
    }
    td := TupleDesc(itemlist[..]);
  }

  /** `new TupleDesc(typeAr)`: one item per type, every one named ANONYMOUS_FIELD. */
  method FromTypes(typeAr: seq<Type>) returns (td: TupleDesc)
    requires |typeAr| > 0
    ensures td.NumFields() == |typeAr|
    ensures forall i :: 0 <= i < |typeAr| ==>
      td.GetFieldType(i) == Success(typeAr[i]) && td.GetFieldName(i) == Success(Some(ANONYMOUS_FIELD))
  {
    var itemlist := new TDItem[|typeAr|];
    for i := 0 to |typeAr|
      invariant forall j {:trigger itemlist[j]} :: 0 <= j < i ==> itemlist[j] == TDItem(typeAr[j], Some(ANONYMOUS_FIELD))
    {
      itemlist[i] := TDItem(typeAr[i], Some(ANONYMOUS_FIELD));
    }
    td := TupleDesc(itemlist[..]);
  }

  /** The copy constructor `new TupleDesc(tdin)`: the same types and the same names, item by item. */
  method Copy(tdin: TupleDesc) returns (td: TupleDesc)
    ensures td.NumFields() == tdin.NumFields()
    ensures forall i :: 0 <= i < tdin.NumFields() ==> td.items[i] == tdin.items[i]
    ensures SameSchema(td, tdin)
  {
    var itemlist := new TDItem[tdin.NumFields()];
    for i := 0 to itemlist.Length
      invariant forall j {:trigger itemlist[j]} :: 0 <= j < i ==> itemlist[j] == tdin.items[j]
    {
      itemlist[i] := tdin.items[i];
    }
    td := TupleDesc(itemlist[..]);
  }

  /** `merge(td1, td2)`: td1's items first, then td2's. */
  method Merge(td1: TupleDesc, td2: TupleDesc) returns (td3: TupleDesc)
    ensures td3.NumFields() == td1.NumFields() + td2.NumFields()
    ensures forall i :: 0 <= i < td1.NumFields() ==> td3.items[i] == td1.items[i]
    ensures forall i :: td1.NumFields() <= i < td3.NumFields() ==> td3.items[i] == td2.items[i - td1.NumFields()]
  {
    var n1, n2 := td1.NumFields(), td2.NumFields();
    var itemlist := new TDItem[n1 + n2];
    for i := 0 to n1
      invariant forall j {:trigger itemlist[j]} :: 0 <= j < i ==> itemlist[j] == td1.items[j]
    {
      itemlist[i] := td1.items[i];
    }
    for i := 0 to n2
      invariant forall j {:trigger itemlist[j]} :: 0 <= j < n1 ==> itemlist[j] == td1.items[j]
      invariant forall j {:trigger itemlist[j]} :: n1 <= j < n1 + i ==> itemlist[j] == td2.items[j - n1]
    {
      itemlist[i + n1] := td2.items[i];
    }
    td3 := TupleDesc(itemlist[..]);
  }

  /** `getSize`: the sum of the widths of all field types. */
  method GetSize(td: TupleDesc, len: Type -> nat) returns (size: nat)
    ensures size == SizeOf(td.items, len)
  {
    size := 0;
    for i := 0 to td.NumFields()
      invariant size == SizeOf(td.items[..i], len)
    {
      assert td.items[..i + 1][..i] == td.items[..i];
      size := size + len(td.items[i].fieldType);
    }
    assert td.items[..td.NumFields()] == td.items;
  }

  /** The size of a merged descriptor is the sum of the sizes of its parts. */
  lemma {:induction false} SizeOfConcat(a: seq<TDItem>, b: seq<TDItem>, len: Type -> nat)
    ensures SizeOf(a + b, len) == SizeOf(a, len) + SizeOf(b, len)
    decreases |b|
  {
    if b != [] {
      assert (a + b)[..|a + b| - 1] == a + b[..|b| - 1];
      SizeOfConcat(a, b[..|b| - 1], len);
    } else {
      assert a + b == a;
    }
  }

  /** `equals(o)`: false for null, otherwise the same field count and the same type at each position. */
  method Equals(td: TupleDesc, o: Option<TupleDesc>) returns (r: bool)
    ensures r <==> o.Some? && SameSchema(td, o.value)
  {
    if o.None? {
      return false;
    }
    var other := o.value;
    if td.NumFields() != other.NumFields() {
      return false;
    }
    for i := 0 to td.NumFields()
      invariant forall j :: 0 <= j < i ==> td.items[j].fieldType == other.items[j].fieldType
    {
      if td.GetFieldType(i) != other.GetFieldType(i) {
        return false;
      }
    }
    return true;
  }

  lemma SameSchemaReflexive(a: TupleDesc)
    ensures SameSchema(a, a)
  {
  }

  lemma SameSchemaSymmetric(a: TupleDesc, b: TupleDesc)
    ensures SameSchema(a, b) <==> SameSchema(b, a)
  {
  }

  /** `fieldNameToIndex` as written: it calls `equals` on each stored name, so a null name met before
      the match throws NullPointerException. A null search name (`None`) equals no stored name. */
  method FieldNameToIndex(td: TupleDesc, name: Option<string>) returns (r: Result<nat, Exception>)
    ensures r.Success? ==>
      && name.Some?
      && r.value < td.NumFields()
      && td.items[r.value].fieldName == name
      && forall k :: 0 <= k < r.value ==> td.items[k].fieldName.Some? && td.items[k].fieldName != name
    ensures r == Failure(NullPointer) ==>
      exists j :: 0 <= j < td.NumFields() && td.items[j].fieldName.None? &&
        forall k :: 0 <= k < j ==> td.items[k].fieldName.Some? && td.items[k].fieldName != name
    ensures r == Failure(NoSuchElement) ==>
      forall k :: 0 <= k < td.NumFields() ==> td.items[k].fieldName.Some? && td.items[k].fieldName != name
    ensures r.Failure? ==> r.error == NullPointer || r.error == NoSuchElement
    ensures name.None? ==>
      r == (if exists j :: 0 <= j < td.NumFields() && td.items[j].fieldName.None? then Failure(NullPointer)
            else Failure(NoSuchElement))
  {
    for i := 0 to td.NumFields()
      invariant forall k :: 0 <= k < i ==> td.items[k].fieldName.Some? && td.items[k].fieldName != name
    {
      var fieldName := td.items[i].fieldName;
      if fieldName.None? {
        return Failure(NullPointer);
      }
      if name.Some? && fieldName.value == name.value {
        return Success(i);
      }
    }
    return Failure(NoSuchElement);
  }

  /** `fieldNameToIndex` as documented: the first field whose name equals `name`; null names never
      match, and a null search name (`None`) matches nothing. */
  method FieldNameToIndexSkippingNull(td: TupleDesc, name: Option<string>) returns (r: Result<nat, Exception>)
    ensures r.Success? ==>
      && r.value < td.NumFields()
      && td.items[r.value].fieldName == name
      && name.Some?
      && forall k :: 0 <= k < r.value ==> td.items[k].fieldName != name
    ensures r.Failure? <==> name.None? || forall k :: 0 <= k < td.NumFields() ==> td.items[k].fieldName != name
    ensures r.Failure? ==> r.error == NoSuchElement
  {
    if name.None? {
      return Failure(NoSuchElement);
    }
    for i := 0 to td.NumFields()
      invariant forall k :: 0 <= k < i ==> td.items[k].fieldName != name
    {
      if td.items[i].fieldName == name {
        return Success(i);
      }
    }
    return Failure(NoSuchElement);
  }

  /** A descriptor whose first name is null: the lookup as written throws where the documented one finds index 1. */
  method NullNameBeforeMatch() returns (asWritten: Result<nat, Exception>, documented: Result<nat, Exception>)
    ensures asWritten == Failure(NullPointer)
    ensures documented == Success(1)
  {
    var td := FromTypesAndNames([INT_TYPE, INT_TYPE], [None, Some("a")]);
    assert td.GetFieldName(0) == Success(None) && td.GetFieldName(1) == Success(Some("a"));
    asWritten := FieldNameToIndex(td, Some("a"));
    documented := FieldNameToIndexSkippingNull(td, Some("a"));
  }
}
