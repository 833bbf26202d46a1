/** Page-number arithmetic for a file of fixed-size pages. */
module PageArithmetic {

  lemma {:induction false} MulMono(a: nat, b: nat, c: nat)
    requires a <= b
    ensures a * c <= b * c
    decreases c
  {
    if c > 0 {
      MulMono(a, b, c - 1);
      assert a * c == a * (c - 1) + a;
      assert b * c == b * (c - 1) + b;
    }
  }

  /** Floor division brackets its dividend. */
  lemma DivBounds(a: nat, b: int)
    requires b > 0
    ensures (a / b) * b <= a < (a / b) * b + b
  {
  }

  /** The quotient is the q with q * b <= a < q * b + b. */
  lemma DivUnique(a: nat, b: int, q: nat)
    requires b > 0 && q * b <= a < q * b + b
    ensures a / b == q
  {
    var p := a / b;
    DivBounds(a, b);
    if p > q {
      MulMono(q + 1, p, b);
      assert false;
    } else if p < q {
      MulMono(p + 1, q, b);
      assert false;
    }
  }

  /** Page k of a file of `len` bytes lies wholly inside the file when k is below the page count. */
  lemma PageFits(len: nat, size: int, k: nat)
    requires size > 0 && k < len / size
    ensures (k + 1) * size <= len
  {
    DivBounds(len, size);
    MulMono(k + 1, len / size, size);
  }

  /** Appending one page's worth of bytes adds exactly one page, whatever the trailing partial page. */
  lemma AppendAddsOnePage(len: nat, size: int)
    requires size > 0
    ensures (len + size) / size == len / size + 1
  {
    DivBounds(len, size);
    assert (len / size + 1) * size == (len / size) * size + size;
    DivUnique(len + size, size, len / size + 1);
  }

  /** A longer file has at least as many pages. */
  lemma PagesGrow(len: nat, len': nat, size: int)
    requires size > 0 && len <= len'
    ensures len / size <= len' / size
  {
    DivBounds(len, size);
    DivBounds(len', size);
    if len / size > len' / size {
      MulMono(len' / size + 1, len / size, size);
      assert false;
    }
  }

  /** Distinct pages occupy disjoint byte ranges. */
  lemma PagesDisjoint(size: nat, j: nat, k: nat)
    requires j != k
    ensures (j + 1) * size <= k * size || (k + 1) * size <= j * size
  {
    if j < k {
      MulMono(j + 1, k, size);
    } else {
      MulMono(k + 1, j, size);
    }
    assert (j + 1) * size == j * size + size;
    assert (k + 1) * size == k * size + size;
  }
}

/** simpledb.HeapFile: a table stored as a run of fixed-size pages in one file, read and written
    page by page, with tuples placed first-fit and scanned page by page. */
module Heap {
  import opened Wrappers
  import opened JavaLang
  import opened Schema
  import opened Tuples
  import opened HeapPages
  import opened PageArithmetic

  /** For a non-negative value, the 32-bit wrap-around never yields more than the value. */
  lemma {:induction false} Wrap32AtMost(x: nat)
    ensures Wrap32(x) <= x
    decreases x
  {
    if x > INT_MAX && x - TWO_TO_32 >= 0 {
      Wrap32AtMost(x - TWO_TO_32);
    }
  }

  /** A non-negative 32-bit start offset of page k still leaves the whole page inside the file. */
  lemma WrappedStart(len: nat, size: nat, k: nat)
    requires size > 0 && k < len / size
    ensures Wrap32(k * size) >= 0 ==> Wrap32(k * size) + size <= len
  {
    PageFits(len, size, k);
    assert k * size + size == (k + 1) * size;
    Wrap32AtMost(k * size);
  }

  /** Without wrap-around the 32-bit offsets of page k are the true ones. */
  lemma UnwrappedOffsets(len: nat, size: nat, k: nat)
    requires size > 0 && k < len / size && (k + 1) * size <= INT_MAX
    ensures Wrap32(k * size) == k * size && Wrap32((k + 1) * size) == (k + 1) * size <= len
  {
    PageFits(len, size, k);
    MulMono(k, k + 1, size);
  }

  /** `n` zero bytes. */
  function Zeros(n: nat): (z: seq<Byte>)
    ensures |z| == n && forall i :: 0 <= i < n ==> z[i] == 0
  {
    seq(n, _ => 0)
  }

  /** The file after writing `data` at byte offset `off`: those bytes replaced, the file extended
      when the write runs past its end (a gap before the write reads as zeros), every other byte kept. */
  function Overwrite(d: seq<Byte>, off: nat, data: seq<Byte>): (r: seq<Byte>)
    ensures |r| == if off + |data| > |d| then off + |data| else |d|
    ensures r[off..off + |data|] == data
    ensures forall i :: 0 <= i < |r| && (i < off || off + |data| <= i) ==> r[i] == if i < |d| then d[i] else 0
  {
    if off > |d| then d + Zeros(off - |d|) + data
    else if off + |data| >= |d| then d[..off] + data
    else d[..off] + data + d[off + |data|..]
  }

  /** Overwriting leaves any byte range outside the write as it was. */
  lemma OverwriteKeepsRange(d: seq<Byte>, off: nat, data: seq<Byte>, lo: nat, hi: nat)
    requires lo <= hi <= |d|
    requires hi <= off || off + |data| <= lo
    ensures Overwrite(d, off, data)[lo..hi] == d[lo..hi]
  {
    var r := Overwrite(d, off, data);
    assert forall i :: 0 <= i < hi - lo ==> r[lo..hi][i] == r[lo + i];
  }

  /** Page k of the bytes `d`: the `size` bytes from offset k * size. */
  function PageOf(d: seq<Byte>, size: nat, k: nat): (b: seq<Byte>)
    requires size > 0 && k < |d| / size
    ensures |b| == size
  {
    PageFits(|d|, size, k);
    d[k * size..(k + 1) * size]
  }

  /** Writing one page's worth of bytes at page k's offset: the file holds at least page k and
      every page it held before, page k now reads back as the data, and every other page is kept. */
  lemma OverwritePage(d: seq<Byte>, size: nat, k: nat, data: seq<Byte>)
    requires size > 0 && |data| == size
    ensures |d| / size <= |Overwrite(d, k * size, data)| / size
    ensures k < |Overwrite(d, k * size, data)| / size
    ensures PageOf(Overwrite(d, k * size, data), size, k) == data
    ensures forall j :: 0 <= j < |d| / size && j != k ==>
      PageOf(Overwrite(d, k * size, data), size, j) == PageOf(d, size, j)
  {
    var r := Overwrite(d, k * size, data);
    PagesGrow(|d|, |r|, size);
    assert k * size + size == (k + 1) * size;
    DivUnique((k + 1) * size, size, k + 1);
    PagesGrow((k + 1) * size, |r|, size);
    forall j | 0 <= j < |d| / size && j != k
      ensures PageOf(r, size, j) == PageOf(d, size, j)
    {
      PageFits(|d|, size, j);
      PagesDisjoint(size, j, k);
      OverwriteKeepsRange(d, k * size, data, j * size, (j + 1) * size);
    }
  }

  /** Appending one page's worth of bytes adds one page and keeps every earlier page; when the
      file held whole pages only, the new page is exactly the appended bytes. */
  lemma AppendPage(d: seq<Byte>, size: nat, e: seq<Byte>)
    requires size > 0 && |e| == size
    ensures |d + e| / size == |d| / size + 1
    ensures forall j :: 0 <= j < |d| / size ==> PageOf(d + e, size, j) == PageOf(d, size, j)
    ensures |d| % size == 0 ==> PageOf(d + e, size, |d| / size) == e
  {
    AppendAddsOnePage(|d|, size);
    forall j | 0 <= j < |d| / size
      ensures PageOf(d + e, size, j) == PageOf(d, size, j)
    {
      AppendKeepsPage(d, size, e, j);
    }
    if |d| % size == 0 {
      AppendAlignedPage(d, size, e);
    }
  }

  lemma AppendKeepsPage(d: seq<Byte>, size: nat, e: seq<Byte>, j: nat)
    requires size > 0 && j < |d| / size && j < |d + e| / size
    ensures PageOf(d + e, size, j) == PageOf(d, size, j)
  {
    PageFits(|d|, size, j);
    assert (d + e)[j * size..(j + 1) * size] == d[j * size..(j + 1) * size];
  }

  lemma AppendAlignedPage(d: seq<Byte>, size: nat, e: seq<Byte>)
    requires size > 0 && |e| == size && |d| % size == 0
    ensures |d| / size < |d + e| / size && PageOf(d + e, size, |d| / size) == e
  {
    var n := |d| / size;
    AppendAddsOnePage(|d|, size);
    DivBounds(|d|, size);
    assert n * size == |d|;
    assert (n + 1) * size == |d| + size;
    assert PageOf(d + e, size, n) == (d + e)[|d|..|d| + size];
  }

  lemma TailOfConcat<T>(a: seq<T>, b: seq<T>)
    requires a != []
    ensures (a + b)[0] == a[0] && (a + b)[1..] == a[1..] + b
  {
  }

  /** The tuples of pages [a, b) of `view`: page by page, and within a page in slot order. */
  function TuplesOf(view: seq<Page>, a: nat, b: nat): seq<Tuple>
    requires b <= |view|
    decreases b - a
  {
    if a >= b then [] else Used(view[a].slots) + TuplesOf(view, a + 1, b)
  }

  /** A heap file. `disk` is the file's bytes; `cache` holds the buffer pool's copies of this file's
      pages by page number. `tableId` stands for `getId()`, `pageSize` for the buffer pool's page
      size, `emptyPageData` for `HeapPage.createEmptyPageData()` and `decode` for the HeapPage
      constructor, none of which is part of this model. */
  class HeapFile {
    const tableId: int
    const td: TupleDesc
    const pageSize: nat
    const emptyPageData: seq<Byte>
    const decode: seq<Byte> -> Page
    var disk: seq<Byte>
    var cache: map<nat, Page>

    /** The buffer pool only ever holds pages it could read, so only pages below the page count.
        The empty page data is one page long and decodes to a page with every slot empty. */
    ghost predicate Valid()
      reads this
    {
      && pageSize > 0
      && |emptyPageData| == pageSize
      && IsEmptyPage(decode(emptyPageData))
      && forall k :: k in cache ==> k < NumPages()
    }

    constructor (tableId: int, td: TupleDesc, pageSize: nat, emptyPageData: seq<Byte>, decode: seq<Byte> -> Page, disk: seq<Byte>)
      requires pageSize > 0 && |emptyPageData| == pageSize
      requires IsEmptyPage(decode(emptyPageData))
      ensures this.tableId == tableId && this.td == td && this.pageSize == pageSize
      ensures this.emptyPageData == emptyPageData && this.decode == decode && this.disk == disk
      ensures cache == map[] && Valid()
    {
      this.tableId := tableId;
      this.td := td;
      this.pageSize := pageSize;
      this.emptyPageData := emptyPageData;
      this.decode := decode;
      this.disk := disk;
      cache := map[];
    }

    /** `numPages`: the file length divided by the page size, rounded down, so a trailing partial
        page is not counted (see `NumPagesRoundsDown`). */
    function NumPages(): nat
      reads this
      requires pageSize > 0
    {
      |disk| / pageSize
    }

    /** `readPage`: IllegalArgumentException for a null id, another table's id, an id that is not
        a heap page id, or a page number at or past the page count; otherwise the page decoded from
        exactly its own bytes. The source's further check that the file is long enough to hold the
        page never fires once the page-count check passes (`PageFits`), so it is not repeated. */
    function ReadPage(pid: Option<PageId>): (r: Result<Page, Exception>)
      reads this
      requires pageSize > 0
      ensures r.Success? <==>
        pid.Some? && pid.value.tableId == tableId && pid.value.HeapPageId? && pid.value.pgNo < NumPages()
      ensures r.Failure? ==> r.error == IllegalArgument
      ensures r.Success? ==> r.value == decode(PageOf(disk, pageSize, pid.value.pgNo))
    {
      if pid.None? then Failure(IllegalArgument)
      else if pid.value.tableId != tableId then Failure(IllegalArgument)
      else if !pid.value.HeapPageId? then Failure(IllegalArgument)
      else if pid.value.pgNo >= NumPages() then Failure(IllegalArgument)
      else Success(decode(PageOf(disk, pageSize, pid.value.pgNo)))
    }

    /** `readPage` as written, with Java's 32-bit `int` arithmetic: the bound `(pgNo + 1) * pageSize`
        and the seek offset `pgNo * pageSize` wrap around. A negative offset makes the seek throw an
        IOException, which the method swallows, returning null (`None`). */
    function ReadPageAsWritten(pid: Option<PageId>): (r: Result<Option<Page>, Exception>)
      reads this
      requires 0 < pageSize <= INT_MAX
      requires pid.Some? ==> pid.value.pgNo <= INT_MAX
      ensures ReadPage(pid).Failure? ==> r == Failure(IllegalArgument)
      ensures r.Failure? ==> r.error == IllegalArgument
    {
      if pid.None? then Failure(IllegalArgument)
      else if pid.value.tableId != tableId then Failure(IllegalArgument)
      else if !pid.value.HeapPageId? then Failure(IllegalArgument)
      else if pid.value.pgNo >= NumPages() then Failure(IllegalArgument)
      else
        var k := pid.value.pgNo;
        WrappedStart(|disk|, pageSize, k);
        if |disk| < Wrap32((k + 1) * pageSize) then Failure(IllegalArgument)
        else
          var off := Wrap32(k * pageSize);
          if off < 0 then Success(None)
          else Success(Some(decode(disk[off..off + pageSize])))
    }

    /** Page k as `BufferPool.getPage` returns it: the buffer pool's copy if it holds one, else the
        page read from disk. */
    function PageAt(k: nat): Page
      reads this
      requires pageSize > 0 && k < NumPages()
    {
      if k in cache then cache[k] else decode(PageOf(disk, pageSize, k))
    }

    /** Every page of the file, as the buffer pool shows it. */
    ghost function View(): (v: seq<Page>)
      reads this
      requires pageSize > 0
      ensures |v| == NumPages() && forall k :: 0 <= k < |v| ==> v[k] == PageAt(k)
    {
      seq(NumPages(), k reads this requires pageSize > 0 && 0 <= k < NumPages() => PageAt(k))
    }

    /** `BufferPool.getPage` for page k of this file: the cached copy, or the page read from disk,
        which the buffer pool then keeps. Caching changes what no page looks like. */
    method GetPage(k: nat) returns (p: Page)
      requires Valid() && k < NumPages()
      modifies this`cache
      ensures Valid() && p == old(PageAt(k))
      ensures k in cache && cache == old(cache)[k := p]
      ensures forall j :: 0 <= j < NumPages() ==> PageAt(j) == old(PageAt(j))
      ensures View() == old(View())
    {
      if k in cache {
        p := cache[k];
      } else {
        var r := ReadPage(Some(HeapPageId(tableId, k)));
        p := r.value;
        cache := cache[k := p];
      }
      assert forall j :: 0 <= j < NumPages() ==> View()[j] == old(View())[j];
    }

    /** `writePage`: IOException for a page of another table; otherwise the page's bytes replace
        those at offset pgNo * pageSize (no check that the id is a heap page id). After a write of a
        whole heap page, reading it back yields the page the bytes encode, and every other page
        reads as before. The buffer pool's copies are not touched. */
    method WritePage(pid: PageId, data: seq<Byte>) returns (err: Option<Exception>)
      requires Valid()
      modifies this`disk
      ensures Valid() && NumPages() >= old(NumPages())
      ensures pid.tableId != tableId ==> err == Some(IOError) && disk == old(disk)
      ensures pid.tableId == tableId ==> err.None? && disk == Overwrite(old(disk), pid.pgNo * pageSize, data)
      ensures pid.tableId == tableId && pid.HeapPageId? && |data| == pageSize ==>
        ReadPage(Some(pid)) == Success(decode(data))
      ensures pid.tableId == tableId && |data| == pageSize ==>
        forall j :: 0 <= j < old(NumPages()) && j != pid.pgNo ==>
          ReadPage(Some(HeapPageId(tableId, j))) == old(ReadPage(Some(HeapPageId(tableId, j))))
    {
      if pid.tableId != tableId {
        return Some(IOError);
      }
      ghost var before := disk;
      disk := Overwrite(disk, pid.pgNo * pageSize, data);
      PagesGrow(|before|, |disk|, pageSize);
      if |data| == pageSize {
        OverwritePage(before, pageSize, pid.pgNo, data);
      }
      return None;
    }

    /** Some page already in the file has an empty slot. */
    ghost predicate SomePageHasRoom()
      reads this
      requires pageSize > 0
    {
      exists k :: 0 <= k < NumPages() && HasRoom(PageAt(k))
    }

    /** `insertTuple`, first fit: the tuple goes into the lowest-numbered page with an empty slot,
        and no other page changes. When every page is full (or there is none), one page of empty
        page data is appended to the file, the page count grows by exactly one, and the tuple goes
        into that new last page. When the file held whole pages only, the new page is exactly the
        empty page data, so the insert succeeds. If the file ended in a partial page, the new
        page's bytes start with that tail, and DbException results when that page has no room.
        The result lists exactly the page that received the tuple. */
    method InsertTuple(t: Tuple) returns (r: Result<seq<PageId>, Exception>)
      requires Valid()
      modifies this`disk, this`cache
      ensures Valid()
      ensures old(SomePageHasRoom()) ==>
        && disk == old(disk)
        && r.Success? && |r.value| == 1 && r.value[0].HeapPageId? && r.value[0].tableId == tableId
        && var k := r.value[0].pgNo;
           && k < NumPages() && old(HasRoom(PageAt(k)))
           && (forall j :: 0 <= j < k ==> !old(HasRoom(PageAt(j))))
           && PageAt(k) == PageInsert(old(PageAt(k)), t)
           && (forall j :: 0 <= j < NumPages() && j != k ==> PageAt(j) == old(PageAt(j)))
      ensures !old(SomePageHasRoom()) ==>
        && disk == old(disk) + emptyPageData
        && NumPages() == old(NumPages()) + 1
        && (forall j :: 0 <= j < old(NumPages()) ==> PageAt(j) == old(PageAt(j)))
        && (old(|disk|) % pageSize == 0 ==> PageOf(disk, pageSize, old(NumPages())) == emptyPageData)
        && var appended := decode(PageOf(disk, pageSize, old(NumPages())));
           && (HasRoom(appended) ==>
                 r == Success([HeapPageId(tableId, old(NumPages()))]) && PageAt(old(NumPages())) == PageInsert(appended, t))
           && (!HasRoom(appended) ==> r == Failure(DbError) && PageAt(old(NumPages())) == appended)
      ensures !old(SomePageHasRoom()) && old(|disk|) % pageSize == 0 ==>
        && r == Success([HeapPageId(tableId, old(NumPages()))])
        && PageAt(old(NumPages())) == PageInsert(decode(emptyPageData), t)
    {
      var pgNo, page := FindRoom();
      if page.None? {
        EmptyPageHasRoom(decode(emptyPageData));
        AppendNewPage();
        pgNo := NumPages() - 1;
        var p := GetPage(pgNo);
        page := Some(p);
      }
      if !HasRoom(page.value) {
        return Failure(DbError);
      }
      cache := cache[pgNo := PageInsert(page.value, t)];
      return Success([HeapPageId(tableId, pgNo)]);
    }

    /** The search loop of `insertTuple`: fetch pages in order until one has an empty slot. */
    method FindRoom() returns (k: nat, page: Option<Page>)
      requires Valid()
      modifies this`cache
      ensures Valid() && disk == old(disk)
      ensures forall j :: 0 <= j < NumPages() ==> PageAt(j) == old(PageAt(j))
      ensures page.None? ==> !old(SomePageHasRoom())
      ensures page.Some? ==>
        && k < NumPages() && page.value == old(PageAt(k)) && HasRoom(page.value)
        && forall j :: 0 <= j < k ==> !HasRoom(old(PageAt(j)))
    {
      k := 0;
      while k < NumPages()
        invariant Valid() && disk == old(disk) && k <= NumPages()
        invariant forall j :: 0 <= j < k ==> !HasRoom(old(PageAt(j)))
        invariant forall j :: 0 <= j < NumPages() ==> PageAt(j) == old(PageAt(j))
      {
        var p := GetPage(k);
        if HasRoom(p) {
          return k, Some(p);
        }
        k := k + 1;
      }
      return k, None;
    }

    /** The append step of `insertTuple`: one page of empty page data at the end of the file. */
    method AppendNewPage()
      requires Valid()
      modifies this`disk
      ensures Valid() && disk == old(disk) + emptyPageData && cache == old(cache)
      ensures NumPages() == old(NumPages()) + 1
      ensures forall j :: 0 <= j < old(NumPages()) ==> PageAt(j) == old(PageAt(j))
      ensures old(NumPages()) !in cache
      ensures old(|disk|) % pageSize == 0 ==> PageOf(disk, pageSize, old(NumPages())) == emptyPageData
    {
      AppendPage(disk, pageSize, emptyPageData);
      disk := disk + emptyPageData;
    }

    /** `deleteTuple`: NullPointerException for a tuple without a record id. Its page is fetched
        through the buffer pool (IllegalArgumentException when this file cannot read it) and the
        record's slot is cleared (DbException when that slot is missing or empty); no other page
        changes, and the result lists exactly that page. */
    method DeleteTuple(t: Tuple) returns (r: Result<seq<PageId>, Exception>)
      requires Valid()
      requires t.rid.Some? ==> t.rid.value.pid.tableId == tableId
      modifies this`cache
      ensures Valid() && disk == old(disk)
      ensures t.rid.None? ==> r == Failure(NullPointer) && cache == old(cache)
      ensures t.rid.Some? && (t.rid.value.pid.OtherPageId? || t.rid.value.pid.pgNo >= NumPages()) ==>
        r == Failure(IllegalArgument) && cache == old(cache)
      ensures t.rid.Some? && t.rid.value.pid.HeapPageId? && t.rid.value.pid.pgNo < NumPages() ==>
        && (forall j :: 0 <= j < NumPages() && j != t.rid.value.pid.pgNo ==> PageAt(j) == old(PageAt(j)))
        && var k := t.rid.value.pid.pgNo;
           var d := PageDelete(old(PageAt(k)), t.rid.value.tupleNo);
           && (d.Failure? ==> r == Failure(DbError) && PageAt(k) == old(PageAt(k)))
           && (d.Success? ==> r == Success([t.rid.value.pid]) && PageAt(k) == d.value)
    {
      if t.rid.None? {
        return Failure(NullPointer);
      }
      var pid := t.rid.value.pid;
      if pid.OtherPageId? || pid.pgNo >= NumPages() {
        return Failure(IllegalArgument);
      }
      var p := GetPage(pid.pgNo);
      var d := PageDelete(p, t.rid.value.tupleNo);
      if d.Failure? {
        return Failure(DbError);
      }
      cache := cache[pid.pgNo := d.value];
      return Success([pid]);
    }

    /** `iterator(tid)`: a new, unopened scan. */
    method Iterator() returns (it: HeapFileIterator)
      ensures fresh(it) && it.file == this
      ensures it.currentPage.None? && it.tpIterator.None? && it.currentPgNo == 0 && it.countPg == 0
    {
      it := new HeapFileIterator(this);
    }
  }

  /** The page count rounds down: the whole pages fit in the file and less than one more page remains. */
  lemma NumPagesRoundsDown(f: HeapFile)
    requires f.pageSize > 0
    ensures f.NumPages() * f.pageSize <= |f.disk| < f.NumPages() * f.pageSize + f.pageSize
  {
    DivBounds(|f.disk|, f.pageSize);
  }

  /** A scan of pages [a, b) is page a's tuples and then a scan of the pages after it; when page a
      has no tuples, that is the scan of the pages after it. */
  lemma TuplesOfFirstPage(view: seq<Page>, a: nat, b: nat)
    requires a < b <= |view|
    ensures TuplesOf(view, a, b) == Used(view[a].slots) + TuplesOf(view, a + 1, b)
    ensures Used(view[a].slots) == [] ==> TuplesOf(view, a, b) == TuplesOf(view, a + 1, b)
  {
    if Used(view[a].slots) == [] {
      assert [] + TuplesOf(view, a + 1, b) == TuplesOf(view, a + 1, b);
    }
  }

  /** The `HeapFileIterator`: the current page, its number (which `open` never resets), the page
      count taken at `open`, and what is left of the current page's tuple iterator. */
  class HeapFileIterator {
    const file: HeapFile
    var currentPage: Option<Page>
    var currentPgNo: nat
    var countPg: nat
    var tpIterator: Option<seq<Tuple>>

    ghost predicate Valid()
      reads this, file
    {
      && file.Valid()
      && countPg <= file.NumPages()
      && (currentPage.Some? <==> tpIterator.Some?)
      && (tpIterator.Some? ==> countPg > 0)
    }

    constructor (file: HeapFile)
      ensures this.file == file && currentPage.None? && tpIterator.None? && currentPgNo == 0 && countPg == 0
    {
      this.file := file;
      currentPage := None;
      currentPgNo := 0;
      countPg := 0;
      tpIterator := None;
    }

    /** What the scan still yields: the rest of the current page, then the tuples of every later
        page below the page count taken at `open`. */
    ghost function Remaining(): seq<Tuple>
      reads this, file
      requires Valid()
    {
      if tpIterator.None? then [] else tpIterator.value + TuplesOf(file.View(), currentPgNo + 1, countPg)
    }

    /** `open`: take the page count and, if there are pages, start at page 0's tuples; the current
        page number is left as it was. With no pages nothing else changes. */
    method Open()
      requires Valid()
      modifies this, file`cache
      ensures Valid() && file.disk == old(file.disk) && file.View() == old(file.View())
      ensures countPg == file.NumPages() && currentPgNo == old(currentPgNo)
      ensures countPg == 0 ==> currentPage == old(currentPage) && tpIterator == old(tpIterator)
      ensures countPg > 0 ==>
        && currentPage == Some(file.View()[0]) && tpIterator == Some(Used(file.View()[0].slots))
        && Remaining() == Used(file.View()[0].slots) + TuplesOf(file.View(), currentPgNo + 1, countPg)
    {
      countPg := file.NumPages();
      if countPg == 0 {
        return;
      }
      var p := file.GetPage(0);
      currentPage := Some(p);
      tpIterator := Some(Used(p.slots));
    }

    /** `rewind` is `open` again. */
    method Rewind()
      requires Valid()
      modifies this, file`cache
      ensures Valid() && file.disk == old(file.disk) && file.View() == old(file.View())
      ensures countPg == file.NumPages() && currentPgNo == old(currentPgNo)
      ensures countPg == 0 ==> currentPage == old(currentPage) && tpIterator == old(tpIterator)
      ensures countPg > 0 ==>
        Remaining() == Used(file.View()[0].slots) + TuplesOf(file.View(), currentPgNo + 1, countPg)
    {
      Open();
    }

    /** `close`: drop the current page and its tuple iterator. */
    method Close()
      modifies this`currentPage, this`tpIterator
      ensures currentPage.None? && tpIterator.None?
    {
      currentPage := None;
      tpIterator := None;
    }

    /** `hasNext`: true exactly when the scan has tuples left. When the current page is used up it
        moves on page by page (skipping pages without tuples) until one has tuples or the page
        count is reached; the tuples still to come do not change. */
    method HasNext() returns (b: bool)
      requires Valid()
      modifies this`currentPage, this`currentPgNo, this`tpIterator, file`cache
      ensures Valid() && file.disk == old(file.disk) && file.View() == old(file.View())
      ensures countPg == old(countPg) && (old(tpIterator).Some? ==> tpIterator.Some?)
      ensures b <==> old(Remaining()) != []
      ensures Remaining() == old(Remaining())
      ensures b ==> tpIterator.Some? && tpIterator.value != []
    {
      if currentPage.None? {
        return false;
      }
      if tpIterator.value != [] {
        return true;
      }
      b := NextNonEmptyPage();
    }

    /** The loop of `hasNext`, once the current page is used up: move to the following pages in
        turn until one has tuples (true) or the page count is reached (false). */
    method NextNonEmptyPage() returns (b: bool)
      requires Valid() && tpIterator.Some? && tpIterator.value == []
      modifies this`currentPage, this`currentPgNo, this`tpIterator, file`cache
      ensures Valid() && file.disk == old(file.disk) && file.View() == old(file.View())
      ensures countPg == old(countPg) && tpIterator.Some?
      ensures b <==> old(Remaining()) != []
      ensures Remaining() == old(Remaining())
      ensures b ==> tpIterator.value != []
    {
      ghost var view := file.View();
      ghost var rest := Remaining();
      currentPgNo := currentPgNo + 1;
      while currentPgNo < countPg
        invariant Valid() && file.View() == view
        invariant tpIterator.Some? && tpIterator.value == []
        invariant rest == TuplesOf(view, currentPgNo, countPg)
        decreases countPg - currentPgNo
      {
        var found := TryPage(view, rest);
        if found {
          return true;
        }
        currentPgNo := currentPgNo + 1;
      }
      assert Remaining() == [] && rest == [];
      return false;
    }

    /** One step of the search: load the current page; the scan rests on it when it has tuples. */
    method TryPage(ghost view: seq<Page>, ghost rest: seq<Tuple>) returns (found: bool)
      requires Valid() && file.View() == view && currentPgNo < countPg
      requires tpIterator.Some? && tpIterator.value == []
      requires rest == TuplesOf(view, currentPgNo, countPg)
      modifies this`currentPage, this`tpIterator, file`cache
      ensures Valid() && file.disk == old(file.disk) && file.View() == view
      ensures countPg == old(countPg) && currentPgNo == old(currentPgNo) && tpIterator.Some?
      ensures found <==> tpIterator.value != []
      ensures found ==> Remaining() == rest
      ensures !found ==> rest == TuplesOf(view, currentPgNo + 1, countPg)
    {
      TuplesOfFirstPage(view, currentPgNo, countPg);
      LoadPage(currentPgNo);
      found := tpIterator.value != [];
    }

    /** Make page k the current page and start on its tuples. */
    method LoadPage(k: nat)
      requires Valid() && k < countPg
      modifies this`currentPage, this`tpIterator, file`cache
      ensures Valid() && file.disk == old(file.disk) && file.View() == old(file.View())
      ensures countPg == old(countPg) && currentPgNo == old(currentPgNo)
      ensures currentPage == Some(file.View()[k]) && tpIterator == Some(Used(file.View()[k].slots))
    {
      var p := file.GetPage(k);
      currentPage := Some(p);
      tpIterator := Some(Used(p.slots));
    }

    /** `next`: NoSuchElementException before `open` (or after `close`) and when the current page's
        tuples are used up; otherwise the next tuple of the scan. */
    method Next() returns (r: Result<Tuple, Exception>)
      requires Valid()
      modifies this`tpIterator
      ensures Valid() && (tpIterator.Some? <==> old(tpIterator).Some?)
      ensures old(tpIterator).None? || old(tpIterator).value == [] ==>
        r == Failure(NoSuchElement) && tpIterator == old(tpIterator)
      ensures old(tpIterator).Some? && old(tpIterator).value != [] ==>
        r == Success(old(Remaining())[0]) && Remaining() == old(Remaining())[1..]
    {
      if tpIterator.None? || tpIterator.value == [] {
        return Failure(NoSuchElement);
      }
      ghost var later := TuplesOf(file.View(), currentPgNo + 1, countPg);
      TailOfConcat(tpIterator.value, later);
      r := Success(tpIterator.value[0]);
      tpIterator := Some(tpIterator.value[1..]);
    }

    /** `open` as evidently intended: like `open`, but the scan restarts from page 0. */
    method OpenFromFirstPage()
      requires Valid()
      modifies this, file`cache
      ensures Valid() && file.disk == old(file.disk) && file.View() == old(file.View())
      ensures Remaining() == TuplesOf(file.View(), 0, file.NumPages())
    {
      currentPgNo := 0;
      Open();
      if countPg > 0 {
        assert TuplesOf(file.View(), 0, countPg) == Used(file.View()[0].slots) + TuplesOf(file.View(), 1, countPg);
      }
    }
  }

  /** Draining an iterator with `hasNext`/`next` yields exactly the tuples it still had to give. */
  method Drain(it: HeapFileIterator) returns (ts: seq<Tuple>)
    requires it.Valid()
    modifies it, it.file`cache
    ensures it.Valid() && it.file.disk == old(it.file.disk) && it.file.View() == old(it.file.View())
    ensures it.countPg == old(it.countPg) && (old(it.tpIterator).Some? ==> it.tpIterator.Some?)
    ensures ts == old(it.Remaining()) && it.Remaining() == []
  {
    ts := [];
    ghost var view := it.file.View();
    ghost var rest := it.Remaining();
    var more := it.HasNext();
    while more
      invariant it.Valid() && it.file.disk == old(it.file.disk) && it.file.View() == view
      invariant it.countPg == old(it.countPg) && (old(it.tpIterator).Some? ==> it.tpIterator.Some?)
      invariant ts + it.Remaining() == rest
      invariant more ==> it.tpIterator.Some? && it.tpIterator.value != []
      invariant !more ==> it.Remaining() == []
      decreases |it.Remaining()|
    {
      ghost var before := it.Remaining();
      var t := it.Next();
      TakeOne(ts, before, t.value, it.Remaining());
      ts := ts + [t.value];
      more := it.HasNext();
    }
  }

  /** Moving the head of what is left onto what has been taken keeps the whole. */
  lemma TakeOne<T>(taken: seq<T>, left: seq<T>, x: T, left': seq<T>)
    requires left != [] && x == left[0] && left' == left[1..]
    ensures taken + left == (taken + [x]) + left'
  {
    assert left == [x] + left';
  }

  /** A full scan from a new iterator yields every tuple of the file, page by page and slot by slot. */
  method ScanAll(file: HeapFile) returns (ts: seq<Tuple>)
    requires file.Valid()
    modifies file`cache
    ensures ts == TuplesOf(old(file.View()), 0, old(file.NumPages()))
  {
    var it := file.Iterator();
    it.Open();
    if it.countPg > 0 {
      assert TuplesOf(file.View(), 0, it.countPg) == Used(file.View()[0].slots) + TuplesOf(file.View(), 1, it.countPg);
    }
    ts := Drain(it);
  }

  /** As written: after one full scan, `rewind` and a second scan yield only page 0's tuples,
      because the page number reached by the first scan is kept. */
  method RescanAsWritten(file: HeapFile) returns (first: seq<Tuple>, second: seq<Tuple>)
    requires file.Valid()
    modifies file`cache
    ensures first == TuplesOf(old(file.View()), 0, old(file.NumPages()))
    ensures old(file.NumPages()) > 0 ==> second == Used(old(file.View())[0].slots)
  {
    var it := file.Iterator();
    it.Open();
    if it.countPg > 0 {
      assert TuplesOf(file.View(), 0, it.countPg) == Used(file.View()[0].slots) + TuplesOf(file.View(), 1, it.countPg);
    }
    first := Drain(it);
    it.Rewind();
    second := Drain(it);
  }

  /** With `open` restarting from page 0, the second scan yields the whole file again. */
  method RescanCorrected(file: HeapFile) returns (first: seq<Tuple>, second: seq<Tuple>)
    requires file.Valid()
    modifies file`cache
    ensures first == second == TuplesOf(old(file.View()), 0, old(file.NumPages()))
  {
    var it := file.Iterator();
    it.OpenFromFirstPage();
    first := Drain(it);
    it.OpenFromFirstPage();
    second := Drain(it);
  }

  /** The scan holds at least the tuples of each page it covers. */
  lemma {:induction false} TuplesOfCoversPage(view: seq<Page>, a: nat, b: nat, k: nat)
    requires a <= k < b <= |view|
    ensures |TuplesOf(view, a, b)| >= |Used(view[k].slots)|
    decreases b - a
  {
    if a < k {
      TuplesOfCoversPage(view, a + 1, b, k);
    }
  }

  /** The second scan of `RescanAsWritten` misses tuples: once a page after page 0 holds a tuple,
      page 0's tuples are not the whole file. */
  lemma RescanMissesLaterPages(view: seq<Page>, k: nat)
    requires 0 < k < |view| && Used(view[k].slots) != []
    ensures Used(view[0].slots) != TuplesOf(view, 0, |view|)
  {
    TuplesOfCoversPage(view, 1, |view|, k);
    assert TuplesOf(view, 0, |view|) == Used(view[0].slots) + TuplesOf(view, 1, |view|);
  }

  /** Scans of two views that agree on pages [a, b) are the same. */
  lemma {:induction false} TuplesOfAgree(v: seq<Page>, w: seq<Page>, a: nat, b: nat)
    requires b <= |v| && b <= |w|
    requires forall j :: a <= j < b ==> v[j] == w[j]
    ensures TuplesOf(v, a, b) == TuplesOf(w, a, b)
    decreases b - a
  {
    if a < b {
      TuplesOfAgree(v, w, a + 1, b);
    }
  }

  /** A scan of pages [a, b) splits at any page k in between: the pages before k, page k, the pages after. */
  lemma {:induction false} TuplesOfSplit(view: seq<Page>, a: nat, k: nat, b: nat)
    requires a <= k < b <= |view|
    ensures TuplesOf(view, a, b) == TuplesOf(view, a, k) + Used(view[k].slots) + TuplesOf(view, k + 1, b)
    decreases k - a
  {
    if a < k {
      TuplesOfSplit(view, a + 1, k, b);
      AppendAssoc(Used(view[a].slots), TuplesOf(view, a + 1, k), Used(view[k].slots), TuplesOf(view, k + 1, b));
    } else {
      assert TuplesOf(view, a, k) == [];
    }
  }

  lemma AppendAssoc<T>(p: seq<T>, x: seq<T>, u: seq<T>, c: seq<T>)
    ensures p + ((x + u) + c) == ((p + x) + u) + c
  {
  }

  /** A full scan after page k is replaced: the pages before k, the new page, the pages after k. */
  lemma TuplesOfReplace(view: seq<Page>, k: nat, q: Page)
    requires k < |view|
    ensures TuplesOf(view[k := q], 0, |view|) == TuplesOf(view, 0, k) + Used(q.slots) + TuplesOf(view, k + 1, |view|)
  {
    var w := view[k := q];
    TuplesOfSplit(w, 0, k, |view|);
    TuplesOfAgree(w, view, 0, k);
    TuplesOfAgree(w, view, k + 1, |view|);
  }

  /** A full scan of a view with one more page is the old full scan, then the new page's tuples. */
  lemma TuplesOfAppend(view: seq<Page>, q: Page)
    ensures TuplesOf(view + [q], 0, |view| + 1) == TuplesOf(view, 0, |view|) + Used(q.slots)
  {
    var w, n := view + [q], |view|;
    TuplesOfSplit(w, 0, n, n + 1);
    TuplesOfAgree(w, view, 0, n);
    assert w[n] == q && TuplesOf(w, n + 1, n + 1) == [];
  }

  /** Replacing page k by a page holding `extra` tuples more adds exactly those to the full scan. */
  lemma TuplesOfGrow(view: seq<Page>, k: nat, q: Page, extra: multiset<Tuple>)
    requires k < |view|
    requires multiset(Used(q.slots)) == multiset(Used(view[k].slots)) + extra
    ensures multiset(TuplesOf(view[k := q], 0, |view|)) == multiset(TuplesOf(view, 0, |view|)) + extra
  {
    TuplesOfReplace(view, k, q);
    TuplesOfSplit(view, 0, k, |view|);
  }

  /** Replacing page k by a page holding `missing` tuples fewer removes exactly those from the full scan. */
  lemma TuplesOfShrink(view: seq<Page>, k: nat, q: Page, missing: multiset<Tuple>)
    requires k < |view|
    requires multiset(Used(q.slots)) + missing == multiset(Used(view[k].slots))
    ensures multiset(TuplesOf(view[k := q], 0, |view|)) + missing == multiset(TuplesOf(view, 0, |view|))
  {
    TuplesOfReplace(view, k, q);
    TuplesOfSplit(view, 0, k, |view|);
  }

  /** After `insertTuple` succeeds, a full scan holds every tuple it held before and the new tuple,
      plus, when a page was appended, whatever that page held to begin with. When the file held
      whole pages only, the appended page starts empty, so the insert succeeds and the scan gains
      exactly the new tuple. */
  method InsertGrowsScan(file: HeapFile, t: Tuple) returns (r: Result<seq<PageId>, Exception>)
    requires file.Valid()
    modifies file`disk, file`cache
    ensures file.Valid()
    ensures old(file.SomePageHasRoom()) ==>
      && r.Success?
      && multiset(TuplesOf(file.View(), 0, file.NumPages()))
         == multiset(TuplesOf(old(file.View()), 0, old(file.NumPages()))) + multiset{t}
    ensures !old(file.SomePageHasRoom()) && r.Success? ==>
      && file.NumPages() == old(file.NumPages()) + 1
      && multiset(TuplesOf(file.View(), 0, file.NumPages()))
         == multiset(TuplesOf(old(file.View()), 0, old(file.NumPages())))
            + multiset(Used(file.decode(PageOf(file.disk, file.pageSize, old(file.NumPages()))).slots)) + multiset{t}
    ensures !old(file.SomePageHasRoom()) && old(|file.disk|) % file.pageSize == 0 ==>
      && r.Success?
      && file.NumPages() == old(file.NumPages()) + 1
      && multiset(TuplesOf(file.View(), 0, file.NumPages()))
         == multiset(TuplesOf(old(file.View()), 0, old(file.NumPages()))) + multiset{t}
  {
    ghost var view := file.View();
    ghost var room := file.SomePageHasRoom();
    ghost var aligned := |file.disk| % file.pageSize == 0;
    r := file.InsertTuple(t);
    if room {
      ScanAfterInsertInPlace(view, file.View(), r.value[0].pgNo, t);
    } else if r.Success? {
      var appended := file.decode(PageOf(file.disk, file.pageSize, |view|));
      assert file.View() == view + [PageInsert(appended, t)];
      PageInsertAddsTuple(appended, t);
      ScanAfterAppend(view, PageInsert(appended, t), appended, t);
      if aligned {
        EmptyPageHasRoom(appended);
      }
    }
  }

  /** Inserting into page k of a scan adds exactly the new tuple to what the scan yields. */
  lemma ScanAfterInsertInPlace(view: seq<Page>, after: seq<Page>, k: nat, t: Tuple)
    requires k < |view| == |after| && HasRoom(view[k]) && after[k] == PageInsert(view[k], t)
    requires forall j :: 0 <= j < |view| && j != k ==> after[j] == view[j]
    ensures multiset(TuplesOf(after, 0, |after|)) == multiset(TuplesOf(view, 0, |view|)) + multiset{t}
  {
    assert after == view[k := after[k]];
    PageInsertAddsTuple(view[k], t);
    TuplesOfGrow(view, k, after[k], multiset{t});
  }

  /** Appending a page whose tuples are those of `appended` plus `t` adds exactly those to the scan. */
  lemma ScanAfterAppend(view: seq<Page>, q: Page, appended: Page, t: Tuple)
    requires multiset(Used(q.slots)) == multiset(Used(appended.slots)) + multiset{t}
    ensures multiset(TuplesOf(view + [q], 0, |view| + 1))
         == multiset(TuplesOf(view, 0, |view|)) + multiset(Used(appended.slots)) + multiset{t}
  {
    TuplesOfAppend(view, q);
  }

  /** After `deleteTuple` succeeds, a full scan holds every tuple it held before except the deleted one. */
  method DeleteShrinksScan(file: HeapFile, t: Tuple) returns (r: Result<seq<PageId>, Exception>)
    requires file.Valid()
    requires t.rid.Some? ==> t.rid.value.pid.tableId == file.tableId
    modifies file`cache
    ensures file.Valid()
    ensures r.Success? ==>
      && t.rid.Some? && t.rid.value.pid.pgNo < file.NumPages()
      && var slots := old(file.PageAt(t.rid.value.pid.pgNo)).slots;
         && t.rid.value.tupleNo < |slots| && slots[t.rid.value.tupleNo].Some?
         && multiset(TuplesOf(file.View(), 0, file.NumPages())) + multiset{slots[t.rid.value.tupleNo].value}
            == multiset(TuplesOf(old(file.View()), 0, old(file.NumPages())))
  {
    ghost var view := file.View();
    r := file.DeleteTuple(t);
    if r.Success? {
      var k := t.rid.value.pid.pgNo;
      var d := PageDelete(view[k], t.rid.value.tupleNo);
      assert file.View() == view[k := d.value];
      PageDeleteRemovesTuple(view[k], t.rid.value.tupleNo);
      TuplesOfShrink(view, k, d.value, multiset{view[k].slots[t.rid.value.tupleNo].value});
    }
  }

  /** Wherever neither 32-bit product wraps, `readPage` as written agrees with `ReadPage`. */
  lemma ReadPageAsWrittenAgrees(f: HeapFile, pid: Option<PageId>)
    requires 0 < f.pageSize <= INT_MAX
    requires pid.Some? ==> (pid.value.pgNo + 1) * f.pageSize <= INT_MAX
    ensures match f.ReadPage(pid)
      case Success(p) => f.ReadPageAsWritten(pid) == Success(Some(p))
      case Failure(e) => f.ReadPageAsWritten(pid) == Failure(e)
  {
    if pid.Some? {
      MulMono(1, f.pageSize, pid.value.pgNo + 1);
      if pid.value.tableId == f.tableId && pid.value.HeapPageId? && pid.value.pgNo < f.NumPages() {
        UnwrappedOffsets(|f.disk|, f.pageSize, pid.value.pgNo);
      }
    }
  }

  /** The offset wrap of `ReadPageAsWritten`: with 4096-byte pages, page 2^20 sits at byte 2^32, which
      wraps to 0, so reading page 2^20 of a file long enough to hold it decodes the bytes of page 0,
      where `ReadPage` decodes the page's own bytes. */
  lemma ReadPageAsWrittenReadsPageZero(f: HeapFile)
    requires f.pageSize == 4096 && |f.disk| >= (0x10_0000 + 1) * 4096
    ensures f.ReadPageAsWritten(Some(HeapPageId(f.tableId, 0x10_0000))) == Success(Some(f.decode(f.disk[0..4096])))
    ensures f.ReadPage(Some(HeapPageId(f.tableId, 0x10_0000))) == Success(f.decode(f.disk[0x1_0000_0000..0x1_0000_1000]))
  {
    DivBounds(|f.disk|, 4096);
    assert Wrap32(0x1_0000_0000) == 0;
    assert Wrap32(0x1_0000_1000) == 4096;
  }
}
