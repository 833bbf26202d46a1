/** simpledb.Insert: hands every tuple of its child to the buffer pool for one table and returns a
    single row holding how many it inserted. */
module InsertOp {
  import opened Wrappers
  import opened JavaLang
  import opened Fields
  import opened Schema
  import opened Tuples

  /** The name of Insert's only output column. */
  const INSERTED_NAME: string := "Inserted Tuples"

  /** The output schema: one INT column named "Inserted Tuples". */
  function InsertDesc(): (td: TupleDesc)
    ensures td.NumFields() == 1
    ensures td.GetFieldType(0) == Success(INT_TYPE) && td.GetFieldName(0) == Success(Some(INSERTED_NAME))
  {
    TupleDesc([TDItem(INT_TYPE, Some(INSERTED_NAME))])
  }

  /** An Insert over the child tuples `child` into table `tableId`. `once` says whether a call to
      `fetchNext` still has work to do; `inserted` logs (ghost) the tuples handed to the buffer
      pool's `insertTuple`, in order. */
  class Insert {
    const child: seq<Tuple>
    const tableId: int
    var once: bool
    ghost var inserted: seq<Tuple>

    /** The constructor compares nothing: the child's schema is not checked against the table's. */
    constructor (child: seq<Tuple>, tableId: int)
      ensures this.child == child && this.tableId == tableId && !once && inserted == []
    {
      this.child := child;
      this.tableId := tableId;
      once := false;
      inserted := [];
    }

    function GetTupleDesc(): (td: TupleDesc)
      ensures td == InsertDesc()
    {
      InsertDesc()
    }

    method Open()
      modifies this`once
      ensures once
    {
      once := true;
    }

    method Close()
      modifies this`once
      ensures !once
    {
      once := false;
    }

    method Rewind()
      modifies this`once
      ensures once
    {
      once := true;
    }

    /** `fetchNext`: `None` (Java's null) unless armed by `open`/`rewind`; otherwise it disarms,
        inserts the child's tuples in order and returns one row holding their number as a Java
        `int`. `failAt` is the index of the tuple on which the buffer pool throws (an IOException,
        rethrown as DbException, or a DbException), if any: the tuples before it stay inserted. */
    method FetchNext(failAt: Option<nat>) returns (r: Result<Option<Tuple>, Exception>)
      modifies this`once, this`inserted
      ensures !once
      ensures !old(once) ==> r == Success(None) && inserted == old(inserted)
      ensures old(once) && failAt.Some? && failAt.value < |child| ==>
        r == Failure(DbError) && inserted == old(inserted) + child[..failAt.value]
      ensures old(once) && (failAt.None? || failAt.value >= |child|) ==>
        && inserted == old(inserted) + child
        && r.Success? && r.value.Some? && fresh(r.value.value) && fresh(r.value.value.fieldList)
        && r.value.value.tupleDesc == InsertDesc() && r.value.value.rid.None?
        && r.value.value.fieldList[..] == [Some(IntField(Wrap32(|child|)))]
    {
      if !once {
        return Success(None);
      }
      once := false;
      var cnt: Int32 := 0;
      for i := 0 to |child|
        invariant !once && cnt == Wrap32(i)
        invariant inserted == old(inserted) + child[..i]
        invariant failAt.Some? ==> i <= failAt.value
      {
        if failAt == Some(i) {
          return Failure(DbError);
        }
        inserted := inserted + [child[i]];
        assert child[..i + 1] == child[..i] + [child[i]];
        WrapAdd(i, 1);
        cnt := Wrap32(cnt as int + 1);
      }
      assert child[..|child|] == child;
      var rst := new Tuple(GetTupleDesc());
      rst.SetField(0, IntField(cnt));
      assert rst.fieldList[..] == [Some(IntField(cnt))];
      return Success(Some(rst));
    }
  }

  /** Insert runs once per `open`: the first `fetchNext` inserts the whole child and the second
      returns null without inserting anything more. */
  method InsertRunsOnce(op: Insert) returns (first: Result<Option<Tuple>, Exception>, second: Result<Option<Tuple>, Exception>)
    modifies op
    ensures first.Success? && first.value.Some? && first.value.value.fieldList[..] == [Some(IntField(Wrap32(|op.child|)))]
    ensures second == Success(None)
    ensures op.inserted == old(op.inserted) + op.child
  {
    op.Open();
    first := op.FetchNext(None);
    second := op.FetchNext(None);
  }

  /** `rewind` re-arms the operator: a second run inserts the child a second time. */
  method RewindInsertsAgain(op: Insert) returns (first: Result<Option<Tuple>, Exception>, second: Result<Option<Tuple>, Exception>)
    modifies op
    ensures first.Success? && first.value.Some? && second.Success? && second.value.Some?
    ensures op.inserted == old(op.inserted) + op.child + op.child
  {
    op.Open();
    first := op.FetchNext(None);
    op.Rewind();
    second := op.FetchNext(None);
  }
}
