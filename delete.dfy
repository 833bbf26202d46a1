/** simpledb.Delete: hands every tuple of its child to the buffer pool for deletion (from the
    table its record id names) and returns a single row holding how many it deleted. */
module DeleteOp {
  import opened Wrappers
  import opened JavaLang
  import opened Fields
  import opened Schema
  import opened Tuples

  /** The name of Delete's only output column. */
  const DELETED_NAME: string := "Deleted Tuples"

  /** The output schema: one INT column named "Deleted Tuples". */
  function DeleteDesc(): (td: TupleDesc)
    ensures td.NumFields() == 1
    ensures td.GetFieldType(0) == Success(INT_TYPE) && td.GetFieldName(0) == Success(Some(DELETED_NAME))
  {
    TupleDesc([TDItem(INT_TYPE, Some(DELETED_NAME))])
  }

  /** A Delete over the child tuples `child`. `once` says whether a call to `fetchNext` still has
      work to do; `deleted` logs (ghost) the tuples handed to the buffer pool's `deleteTuple`, in order. */
  class Delete {
    const child: seq<Tuple>
    var once: bool
    ghost var deleted: seq<Tuple>

    constructor (child: seq<Tuple>)
      ensures this.child == child && !once && deleted == []
    {
      this.child := child;
      once := false;
      deleted := [];
    }

    function GetTupleDesc(): (td: TupleDesc)
      ensures td == DeleteDesc()
    {
      DeleteDesc()
    }

    method Open()
      modifies this`once
      ensures once
    {
      once := true;
    }

    method Close()
      modifies this`once
      ensures !once
    {
      once := false;
    }

    method Rewind()
      modifies this`once
      ensures once
    {
      once := true;
    }

    /** `fetchNext`: `None` (Java's null) unless armed by `open`/`rewind`; otherwise it disarms,
        deletes the child's tuples in order and returns one row holding their number as a Java
        `int`. `failAt` is the index of the tuple on which the buffer pool throws (an IOException,
        rethrown as DbException, or a DbException), if any: the tuples before it stay deleted. */
    method FetchNext(failAt: Option<nat>) returns (r: Result<Option<Tuple>, Exception>)
      modifies this`once, this`deleted
      ensures !once
      ensures !old(once) ==> r == Success(None) && deleted == old(deleted)
      ensures old(once) && failAt.Some? && failAt.value < |child| ==>
        r == Failure(DbError) && deleted == old(deleted) + child[..failAt.value]
      ensures old(once) && (failAt.None? || failAt.value >= |child|) ==>
        && deleted == old(deleted) + child
        && r.Success? && r.value.Some? && fresh(r.value.value) && fresh(r.value.value.fieldList)
        && r.value.value.tupleDesc == DeleteDesc() && r.value.value.rid.None?
        && r.value.value.fieldList[..] == [Some(IntField(Wrap32(|child|)))]
    {
      if !once {
        return Success(None);
      }
      once := false;
      var cnt: Int32 := 0;
      for i := 0 to |child|
        invariant !once && cnt == Wrap32(i)
        invariant deleted == old(deleted) + child[..i]
        invariant failAt.Some? ==> i <= failAt.value
      {
        if failAt == Some(i) {
          return Failure(DbError);
        }
        deleted := deleted + [child[i]];
        assert child[..i + 1] == child[..i] + [child[i]];
        WrapAdd(i, 1);
        cnt := Wrap32(cnt as int + 1);
      }
      assert child[..|child|] == child;
      var rst := new Tuple(GetTupleDesc());
      rst.SetField(0, IntField(cnt));
      assert rst.fieldList[..] == [Some(IntField(cnt))];
      return Success(Some(rst));
    }
  }

  /** Delete runs once per `open`: the first `fetchNext` deletes the whole child and the second
      returns null without deleting anything more. */
  method DeleteRunsOnce(op: Delete) returns (first: Result<Option<Tuple>, Exception>, second: Result<Option<Tuple>, Exception>)
    modifies op
    ensures first.Success? && first.value.Some? && first.value.value.fieldList[..] == [Some(IntField(Wrap32(|op.child|)))]
    ensures second == Success(None)
    ensures op.deleted == old(op.deleted) + op.child
  {
    op.Open();
    first := op.FetchNext(None);
    second := op.FetchNext(None);
  }

  /** `rewind` re-arms the operator: a second run hands the child to deleteTuple again. */
  method RewindDeletesAgain(op: Delete) returns (first: Result<Option<Tuple>, Exception>, second: Result<Option<Tuple>, Exception>)
    modifies op
    ensures first.Success? && first.value.Some? && second.Success? && second.value.Some?
    ensures op.deleted == old(op.deleted) + op.child + op.child
  {
    op.Open();
    first := op.FetchNext(None);
    op.Rewind();
    second := op.FetchNext(None);
  }
}
