/** The heap page as the heap file uses it: a fixed number of slots, each empty or holding a
    tuple. Only the operations HeapFile calls are modelled, on this abstract view. */
module HeapPages {
  import opened Wrappers
  import opened JavaLang
  import opened Tuples

  datatype Page = Page(slots: seq<Option<Tuple>>)

  /** `getNumEmptySlots`. */
  function NumEmptySlots(slots: seq<Option<Tuple>>): (n: nat)
    ensures n <= |slots|
  {
    if slots == [] then 0
    else NumEmptySlots(slots[..|slots| - 1]) + (if slots[|slots| - 1].None? then 1 else 0)
  }

  /** A page with at least one empty slot, as `insertTuple` demands. */
  predicate HasRoom(p: Page)
  {
    NumEmptySlots(p.slots) != 0
  }

  /** The empty-slot count is non-zero exactly when some slot is empty. */
  lemma {:induction false} NumEmptySlotsPositive(slots: seq<Option<Tuple>>)
    ensures NumEmptySlots(slots) != 0 <==> exists i :: 0 <= i < |slots| && slots[i].None?
  {
    if slots != [] {
      var front := slots[..|slots| - 1];
      NumEmptySlotsPositive(front);
      if exists i :: 0 <= i < |front| && front[i].None? {
        var i :| 0 <= i < |front| && front[i].None?;
        assert slots[i].None?;
      }
      if exists i :: 0 <= i < |slots| && slots[i].None? {
        var i :| 0 <= i < |slots| && slots[i].None?;
        if i < |front| {
          assert front[i].None?;
        }
      }
    }
  }

  /** A page as `createEmptyPageData` lays it out: at least one slot, and every slot empty. */
  predicate IsEmptyPage(p: Page)
  {
    |p.slots| > 0 && forall i :: 0 <= i < |p.slots| ==> p.slots[i].None?
  }

  /** Slots that are all empty yield no tuples. */
  lemma {:induction false} UsedOfEmptySlots(slots: seq<Option<Tuple>>)
    requires forall i :: 0 <= i < |slots| ==> slots[i].None?
    ensures Used(slots) == []
  {
    if slots != [] {
      UsedOfEmptySlots(slots[..|slots| - 1]);
    }
  }

  /** An empty page has room for a tuple and holds none. */
  lemma EmptyPageHasRoom(p: Page)
    requires IsEmptyPage(p)
    ensures HasRoom(p) && Used(p.slots) == []
  {
    NumEmptySlotsPositive(p.slots);
    assert p.slots[0].None?;
    UsedOfEmptySlots(p.slots);
  }

  /** The lowest empty slot. */
  function FirstEmpty(slots: seq<Option<Tuple>>): (i: nat)
    requires exists j :: 0 <= j < |slots| && slots[j].None?
    ensures i < |slots| && slots[i].None?
    ensures forall j :: 0 <= j < i ==> slots[j].Some?
  {
    if slots[0].None? then 0
    else
      assert exists j :: 0 <= j < |slots[1..]| && slots[1..][j].None? by {
        var j :| 0 <= j < |slots| && slots[j].None?;
        assert slots[1..][j - 1].None?;
      }
      1 + FirstEmpty(slots[1..])
  }

  /** `HeapPage.insertTuple` on a page with room: the tuple goes into the lowest empty slot. */
  function PageInsert(p: Page, t: Tuple): (q: Page)
    requires HasRoom(p)
  {
    NumEmptySlotsPositive(p.slots);
    Page(p.slots[FirstEmpty(p.slots) := Some(t)])
  }

  /** `HeapPage.deleteTuple` on slot `slot`: DbException when there is no such slot or it is
      already empty; otherwise the slot is cleared. */
  function PageDelete(p: Page, slot: nat): (r: Result<Page, Exception>)
  {
    if slot >= |p.slots| || p.slots[slot].None? then Failure(DbError)
    else Success(Page(p.slots[slot := None]))
  }

  /** The tuples a page's iterator yields: the occupied slots in slot order. */
  function Used(slots: seq<Option<Tuple>>): seq<Tuple>
  {
    if slots == [] then []
    else Used(slots[..|slots| - 1]) + (if slots[|slots| - 1].Some? then [slots[|slots| - 1].value] else [])
  }

  /** Every slot is either empty or yields one tuple. */
  lemma {:induction false} UsedPlusEmptyIsSlots(slots: seq<Option<Tuple>>)
    ensures |Used(slots)| + NumEmptySlots(slots) == |slots|
  {
    if slots != [] {
      UsedPlusEmptyIsSlots(slots[..|slots| - 1]);
    }
  }

  /** Writing slot i changes the count of empty slots by exactly that slot. */
  lemma {:induction false} UpdateSlotCount(slots: seq<Option<Tuple>>, i: nat, v: Option<Tuple>)
    requires i < |slots|
    ensures NumEmptySlots(slots[i := v]) + (if slots[i].None? then 1 else 0)
         == NumEmptySlots(slots) + (if v.None? then 1 else 0)
  {
    var n := |slots|;
    var front := slots[..n - 1];
    var updated := slots[i := v];
    if i == n - 1 {
      assert updated[..n - 1] == front;
    } else {
      UpdateSlotCount(front, i, v);
      assert updated[..n - 1] == front[i := v];
    }
  }

  /** The tuples of two runs of slots are those of the first, then those of the second. */
  lemma {:induction false} UsedConcat(a: seq<Option<Tuple>>, b: seq<Option<Tuple>>)
    ensures Used(a + b) == Used(a) + Used(b)
    decreases |b|
  {
    if b == [] {
      assert a + b == a;
    } else {
      var front := b[..|b| - 1];
      UsedConcat(a, front);
      assert (a + b)[..|a + b| - 1] == a + front;
    }
  }

  /** The tuples of one slot: its tuple, if it holds one. */
  function SlotTuples(s: Option<Tuple>): multiset<Tuple>
  {
    if s.Some? then multiset{s.value} else multiset{}
  }

  /** Writing slot i changes the multiset of the page's tuples by exactly that slot. */
  lemma UpdateSlotTuples(slots: seq<Option<Tuple>>, i: nat, v: Option<Tuple>)
    requires i < |slots|
    ensures multiset(Used(slots[i := v])) + SlotTuples(slots[i]) == multiset(Used(slots)) + SlotTuples(v)
  {
    var pre, post := slots[..i], slots[i + 1..];
    assert slots == (pre + [slots[i]]) + post;
    assert slots[i := v] == (pre + [v]) + post;
    UsedConcat(pre + [slots[i]], post);
    UsedConcat(pre, [slots[i]]);
    UsedConcat(pre + [v], post);
    UsedConcat(pre, [v]);
    UsedSingle(slots[i]);
    UsedSingle(v);
  }

  lemma UsedSingle(s: Option<Tuple>)
    ensures multiset(Used([s])) == SlotTuples(s)
  {
    assert [s][..0] == [];
  }

  /** Inserting fills one empty slot: one fewer empty slot, and the page's tuples gain exactly `t`. */
  lemma PageInsertAddsTuple(p: Page, t: Tuple)
    requires HasRoom(p)
    ensures |PageInsert(p, t).slots| == |p.slots|
    ensures NumEmptySlots(PageInsert(p, t).slots) == NumEmptySlots(p.slots) - 1
    ensures multiset(Used(PageInsert(p, t).slots)) == multiset(Used(p.slots)) + multiset{t}
  {
    NumEmptySlotsPositive(p.slots);
    UpdateSlotCount(p.slots, FirstEmpty(p.slots), Some(t));
    UpdateSlotTuples(p.slots, FirstEmpty(p.slots), Some(t));
  }

  /** Deleting an occupied slot frees it: one more empty slot, and the page loses exactly that tuple. */
  lemma PageDeleteRemovesTuple(p: Page, slot: nat)
    requires PageDelete(p, slot).Success?
    ensures |PageDelete(p, slot).value.slots| == |p.slots|
    ensures NumEmptySlots(PageDelete(p, slot).value.slots) == NumEmptySlots(p.slots) + 1
    ensures multiset(Used(PageDelete(p, slot).value.slots)) + multiset{p.slots[slot].value} == multiset(Used(p.slots))
  {
    UpdateSlotCount(p.slots, slot, None);
    UpdateSlotTuples(p.slots, slot, None);
  }
}
