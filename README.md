# SimpleDB storage and operator core, modelled in Dafny

This project models the part of SimpleDB, a teaching relational database in Java, that holds the
record model, the grouped-aggregation engine, the single-shot `Insert` and `Delete` operators and
the heap file. The heap file decides which page a tuple goes to and scans the file page by page.

- **Schema** (`schema.dfy`). A `TupleDesc` is an immutable list of (type, nullable name) items.
  The constructors, `merge` and `getSize` are loops over arrays and are modelled as methods with
  invariants. The getters and `equals` are stated against pure functions.
- **Tuples** (`tuple.dfy`). A `Tuple` is a class with a fixed-length array of optional field
  values, a record id and a re-bindable descriptor. `fields()` is a cursor class.
- **Aggregators** (`aggregator.dfy`, `integer_aggregator.dfy`, `string_aggregator.dfy`).
  - Each aggregator is a class whose `results`/`counts` maps are updated in place.
  - Java `int` arithmetic wraps at 32 bits (`JavaLang.Wrap32`) and AVG uses Java's truncating
    `/` (`JavaLang.JavaDiv`).
  - A ghost log of the merged (key, value) pairs is the reference the maps are proved against.
  - A HashMap's iteration order is unspecified, so `open` walks *some* enumeration of the key
    set, chosen once per `open`.
- **Operators** (`aggregate.dfy`, `insert.dfy`, `delete.dfy`). These are small state machines over
  a child modelled as a sequence of tuples. The buffer pool's side effects become ghost logs.
  `Insert`/`Delete` can fail on any tuple; that failure is the `failAt` parameter.
- **Heap file** (`heap_page.dfy`, `heap_file.dfy`).
  - The file is a byte sequence and the buffer pool's copies of its pages are a map. The page
    decoder, the empty-page bytes, the page size and the table id are parameters.
  - A page is a sequence of optional tuple slots.
  - Inserting is first fit, with a one-page append when every page is full. The scan iterator is
    proved to yield exactly the tuples of the file, page by page and slot by slot.

Java exceptions are `Failure(e)` values of `Result`. Java `null` is `None`.

## Model

| member | source | states |
|---|---|---|
| Schema.TupleDesc.GetFieldName | src/java/simpledb/TupleDesc.java:123-127 | throws NoSuchElementException exactly when `i < 0` or `i >= numFields()` |
| Schema.TupleDesc.GetFieldType | src/java/simpledb/TupleDesc.java:139-143 | throws NoSuchElementException exactly when `i < 0` or `i >= numFields()` |
| Schema.FromTypesAndNames | src/java/simpledb/TupleDesc.java:69-77 | for non-empty arrays of equal length: `numFields` is the length, field i has `typeAr[i]` and `fieldAr[i]` |
| Schema.FromTypes | src/java/simpledb/TupleDesc.java:90-97 | field i has type `typeAr[i]` and the name ANONYMOUS_FIELD |
| Schema.Copy | src/java/simpledb/TupleDesc.java:99-104 | the copy has the same items, so it is `equals` to its source |
| Schema.Merge | src/java/simpledb/TupleDesc.java:185-196 | `n1 + n2` items; the first `n1` are td1's, the rest td2's in order |
| Schema.GetSize | src/java/simpledb/TupleDesc.java:166-173 | the size is the sum of the widths of all field types |
| Schema.SizeOfConcat | src/java/simpledb/TupleDesc.java:166-196 | the size of a merged descriptor is the sum of the two sizes |
| Schema.Equals | src/java/simpledb/TupleDesc.java:209-225 | true iff the other object is a descriptor with the same field count and the same type at each position; names are ignored |
| Schema.SameSchemaReflexive | src/java/simpledb/TupleDesc.java:209-225 | `equals` is reflexive |
| Schema.SameSchemaSymmetric | src/java/simpledb/TupleDesc.java:209-225 | `equals` is symmetric |
| Schema.FieldNameToIndex | src/java/simpledb/TupleDesc.java:154-160 | as written: on success, the smallest index with that name; NoSuchElementException when no name matches; NullPointerException when a null name comes before any match; a null search name gives NullPointerException if any stored name is null, else NoSuchElementException |
| Schema.FieldNameToIndexSkippingNull | src/java/simpledb/TupleDesc.java:145-160 | as documented: the smallest index with that name; NoSuchElementException exactly when none has it or the search name is null |
| Schema.NullNameBeforeMatch | src/java/simpledb/TupleDesc.java:154-160 | for names `[null, "a"]` the lookup of "a" throws as written and finds index 1 as documented |
| Tuples.Tuple.constructor | src/java/simpledb/Tuple.java:30-38 | `td.numFields()` slots, all unset, and no record id |
| Tuples.Tuple.SetRecordId | src/java/simpledb/Tuple.java:52-68 | `getRecordId` returns the id last set |
| Tuples.Tuple.SetField | src/java/simpledb/Tuple.java:78-94 | for `0 <= i < length`: `getField(i)` is `f` and every other slot is unchanged |
| Tuples.Tuple.ResetTupleDesc | src/java/simpledb/Tuple.java:142-146 | only the descriptor changes |
| Tuples.Tuple.ToString | src/java/simpledb/Tuple.java:104-111 | each field's string followed by a tab, in order; NullPointerException exactly when some field is unset |
| Tuples.Tuple.Fields | src/java/simpledb/Tuple.java:133-137 | a fresh cursor over this tuple at index 0 |
| Tuples.TupleIterator.Next | src/java/simpledb/Tuple.java:124-127 | moves the cursor by one and returns the slot it passed; past the end the array access throws |
| Tuples.FieldValues | src/java/simpledb/Tuple.java:114-137 | draining `fields()` yields exactly the `length` slots in index order |
| Aggregator.ResultDesc | src/java/simpledb/IntegerAggregator.java:108-116 | `[INT]` without grouping and `[gbFieldType, INT]` with it, all columns named ANONYMOUS_FIELD (the same code is at StringAggregator.java:59-67) |
| Aggregator.FillRow | src/java/simpledb/IntegerAggregator.java:134-145 | a result row is `(value)` without grouping and `(key, value)` with it |
| Aggregator.EnumerationExists | src/java/simpledb/IntegerAggregator.java:147-149 | every key set has an order that lists each key exactly once |
| Aggregator.EnumerationLength | src/java/simpledb/IntegerAggregator.java:147-149 | such an order has one entry per key, so a full walk yields one row per group |
| IntegerAggregation.IntegerAggregator.constructor | src/java/simpledb/IntegerAggregator.java:36-44 | empty maps, nothing merged |
| IntegerAggregation.IntegerAggregator.Merge | src/java/simpledb/IntegerAggregator.java:46-75 | one more (key, value) pair merged, and both maps stay consistent with all merged values |
| IntegerAggregation.ExpectedSnoc | src/java/simpledb/IntegerAggregator.java:59-74 | folding one more value through the operator's `switch` gives the entries the extended value list determines |
| IntegerAggregation.StartEntryIsExpected | src/java/simpledb/IntegerAggregator.java:47-58 | a new key starts from count 0 and the operator's sentinel, which are the entries of no values |
| IntegerAggregation.EntryAfterMerge | src/java/simpledb/IntegerAggregator.java:46-75 | one `merge` step leaves the key's entries equal to those its merged values determine |
| IntegerAggregation.MergeKeepsConsistent | src/java/simpledb/IntegerAggregator.java:46-75 | storing those entries keeps both key sets equal to the merged keys and every entry correct |
| IntegerAggregation.IntegerAggregator.MergeTupleIntoGroup | src/java/simpledb/IntegerAggregator.java:99-106 | merges the tuple's (group, value) pair, under the default group when ungrouped; a null aggregate field throws NullPointerException and a string one ClassCastException, with nothing changed |
| IntegerAggregation.IntegerAggregator.FinalVal | src/java/simpledb/IntegerAggregator.java:76-90 | the reported value is the aggregate of the key's merged values |
| IntegerAggregation.ValuesOfNonEmpty | src/java/simpledb/IntegerAggregator.java:53-54 | a key has merged values exactly when it has been merged |
| IntegerAggregation.CountIsNumberMerged | src/java/simpledb/IntegerAggregator.java:64-65 | COUNT equals the number of values merged into the group |
| IntegerAggregation.SumIsTotal | src/java/simpledb/IntegerAggregator.java:70-71 | SUM equals the sum of the merged values when that fits in an int |
| IntegerAggregation.MaxIsMaximum | src/java/simpledb/IntegerAggregator.java:55-67 | MAX is a merged value no merged value exceeds, so the MIN_VALUE sentinel never survives |
| IntegerAggregation.MinIsMinimum | src/java/simpledb/IntegerAggregator.java:56-69 | MIN is a merged value no merged value is below, so the MAX_VALUE sentinel never survives |
| IntegerAggregation.AvgIsTruncatedMean | src/java/simpledb/IntegerAggregator.java:60-62 | AVG of a merged group never divides by zero, and it is the sum divided by the count, rounded toward zero |
| IntegerAggregation.AvgBetweenMinAndMax | src/java/simpledb/IntegerAggregator.java:76-90 | without overflow, a group's AVG lies between its MIN and its MAX |
| IntegerAggregation.AtMostOneGroup | src/java/simpledb/IntegerAggregator.java:101-102 | without grouping every tuple goes to the default group, so there is at most one result row |
| IntegerAggregation.EveryMergedKeyHasRow | src/java/simpledb/IntegerAggregator.java:53-54 | every merged key is in `results` whatever the operator, with a non-empty list of values |
| IntegerAggregation.IntegerAggregator.Iterator | src/java/simpledb/IntegerAggregator.java:126-161 | a fresh, unopened result iterator over this aggregator |
| IntegerAggregation.IntegerAggregatorIterator.Open | src/java/simpledb/IntegerAggregator.java:147-149 | starts a walk over every key of `results`, each exactly once |
| IntegerAggregation.IntegerAggregatorIterator.Close | src/java/simpledb/IntegerAggregator.java:150-152 | drops the walk |
| IntegerAggregation.IntegerAggregatorIterator.Rewind | src/java/simpledb/IntegerAggregator.java:153-155 | a new walk over the same key set, from the start |
| IntegerAggregation.IntegerAggregatorIterator.HasNext | src/java/simpledb/IntegerAggregator.java:131-133 | NullPointerException while closed, otherwise whether keys remain |
| IntegerAggregation.IntegerAggregatorIterator.Next | src/java/simpledb/IntegerAggregator.java:134-146 | the row of the next key with its final value, or the exception of the missing iterator, the exhausted walk, AVG's zero count or a null group key; the maps are only read |
| StringAggregation.Create | src/java/simpledb/StringAggregator.java:31-39 | IllegalArgumentException exactly when the operator is not COUNT |
| StringAggregation.StringAggregator.constructor | src/java/simpledb/StringAggregator.java:31-39 | an empty counts map and a zero ungrouped counter |
| StringAggregation.CountAfterMerge | src/java/simpledb/StringAggregator.java:50-55 | a new key starts at 1 and a known key goes up by one (wrapping), so each count equals that key's number of merges |
| StringAggregation.StringAggregator.MergeTupleIntoGroup | src/java/simpledb/StringAggregator.java:45-57 | without grouping, one more ungrouped merge and `results` unchanged; with grouping, the tuple's group is counted once more, and a new group starts at 1 |
| StringAggregation.StringAggregator.CountUngrouped | src/java/simpledb/StringAggregator.java:47-48 | one more ungrouped merge counted |
| StringAggregation.StringAggregator.CountInGroup | src/java/simpledb/StringAggregator.java:50-55 | one more merge counted under the key, which starts at 1 if new |
| StringAggregation.GroupCountIsNumberMerged | src/java/simpledb/StringAggregator.java:50-55 | a group's count equals the number of tuples merged into it, which is at least 1 |
| StringAggregation.UngroupedCountIsNumberMerged | src/java/simpledb/StringAggregator.java:47-48 | without grouping `countNoGp` equals the number of merges and `results` stays empty |
| StringAggregation.StringAggregator.Iterator | src/java/simpledb/StringAggregator.java:77-116 | a fresh, unopened result iterator whose flag is down |
| StringAggregation.StringAggregatorIterator.Open | src/java/simpledb/StringAggregator.java:100-103 | raises the flag and starts a walk over every entry, each exactly once |
| StringAggregation.StringAggregatorIterator.Close | src/java/simpledb/StringAggregator.java:104-107 | lowers the flag and drops the walk |
| StringAggregation.StringAggregatorIterator.Rewind | src/java/simpledb/StringAggregator.java:108-110 | flag raised and a new walk over the same entries |
| StringAggregation.StringAggregatorIterator.HasNext | src/java/simpledb/StringAggregator.java:82-85 | the flag without grouping; otherwise NullPointerException while closed, else whether entries remain |
| StringAggregation.StringAggregatorIterator.Next | src/java/simpledb/StringAggregator.java:86-99 | as written: the `(countNoGp)` row whenever the flag is up, with the flag left up, else NoSuchElementException; with grouping, the next `(key, count)` row, or the exception of a closed or exhausted walk or a null key |
| StringAggregation.StringAggregatorIterator.NextOnce | src/java/simpledb/StringAggregator.java:86-99 | as intended: the ungrouped row is returned once and the flag is lowered |
| StringAggregation.UngroupedRowRepeats | src/java/simpledb/StringAggregator.java:83-93 | as written, two calls of `next` after `open` both return the count row |
| StringAggregation.UngroupedRowOnce | src/java/simpledb/StringAggregator.java:83-93 | with `NextOnce` the second call throws NoSuchElementException |
| AggregateOp.NewAggregate | src/java/simpledb/Aggregate.java:38-51 | NoSuchElementException for a missing column, IllegalArgumentException for a non-COUNT over a non-int column; otherwise an IntegerAggregator exactly when the aggregate column is INT_TYPE |
| AggregateOp.Aggregate.constructor | src/java/simpledb/Aggregate.java:38-51 | the aggregator is an IntegerAggregator exactly when the aggregate column is INT_TYPE, and no result iterator exists yet |
| AggregateOp.Aggregate.GroupFieldName | src/java/simpledb/Aggregate.java:68-72 | null iff there is no grouping, otherwise the child's name for the group column |
| AggregateOp.Aggregate.AggregateFieldName | src/java/simpledb/Aggregate.java:86-89 | the child's name for the aggregate column |
| AggregateOp.Aggregate.GetTupleDesc | src/java/simpledb/Aggregate.java:147-154 | `[INT]` named `aop(aname)` without grouping; `[group type, INT]` named by the group column and `aop(aname)` with it |
| AggregateOp.Aggregate.Open | src/java/simpledb/Aggregate.java:103-115 | the first call merges every child tuple in order and opens the result iterator, stopping at the first tuple that throws; once the iterator exists it does nothing |
| AggregateOp.MergeAllInts | src/java/simpledb/Aggregate.java:107-110 | the child's pairs are merged in order; an error is the first unmergeable tuple's exception, after the pairs before it |
| AggregateOp.MergeAllStrings | src/java/simpledb/Aggregate.java:107-110 | every child tuple is counted, under its group value when grouped |
| AggregateOp.Aggregate.FetchNext | src/java/simpledb/Aggregate.java:124-128 | the result iterator's next row while `hasNext` holds, null once rows run out, NullPointerException before the first `open` |
| AggregateOp.Aggregate.Rewind | src/java/simpledb/Aggregate.java:130-134 | the result iterator restarts and nothing is merged again |
| AggregateOp.Aggregate.Close | src/java/simpledb/Aggregate.java:156-160 | the result iterator is closed; NullPointerException before the first `open` |
| AggregateOp.Aggregate.OpenReopening | src/java/simpledb/Aggregate.java:103-115 | corrected `open`: once the result iterator exists, a later `open` reopens it at the first row and merges nothing |
| AggregateOp.ReopenAfterClose | src/java/simpledb/Aggregate.java:103-160 | as written, `open`, `close`, `open`, `fetchNext` throws NullPointerException |
| AggregateOp.ReopenAfterCloseCorrected | src/java/simpledb/Aggregate.java:103-160 | with the corrected `open`, the same calls walk the groups again: Java's null for no groups, else the first group's row is taken |
| AggregateOp.OpenTwice | src/java/simpledb/Aggregate.java:103-115 | two `open`s merge the child exactly once |
| InsertOp.InsertDesc | src/java/simpledb/Insert.java:41-46 | one INT column named "Inserted Tuples" |
| InsertOp.Insert.constructor | src/java/simpledb/Insert.java:33-39 | unarmed, with nothing inserted |
| InsertOp.Insert.Open | src/java/simpledb/Insert.java:48-52 | arms the operator |
| InsertOp.Insert.Close | src/java/simpledb/Insert.java:54-58 | disarms it |
| InsertOp.Insert.Rewind | src/java/simpledb/Insert.java:60-65 | arms it again |
| InsertOp.Insert.FetchNext | src/java/simpledb/Insert.java:80-98 | null when unarmed; otherwise disarms, inserts every child tuple once in order and returns the row `(count)` with count the number of child tuples as an int; a failure on tuple i is a DbException after tuples `0..i-1` |
| InsertOp.InsertRunsOnce | src/java/simpledb/Insert.java:80-98 | after `open`, the first `fetchNext` inserts the child and the second returns null and inserts nothing |
| InsertOp.RewindInsertsAgain | src/java/simpledb/Insert.java:60-98 | `rewind` re-arms, so the child is inserted a second time |
| DeleteOp.DeleteDesc | src/java/simpledb/Delete.java:34-39 | one INT column named "Deleted Tuples" |
| DeleteOp.Delete.constructor | src/java/simpledb/Delete.java:28-32 | unarmed, with nothing deleted |
| DeleteOp.Delete.Open | src/java/simpledb/Delete.java:41-45 | arms the operator |
| DeleteOp.Delete.Close | src/java/simpledb/Delete.java:47-51 | disarms it |
| DeleteOp.Delete.Rewind | src/java/simpledb/Delete.java:53-57 | arms it again |
| DeleteOp.Delete.FetchNext | src/java/simpledb/Delete.java:68-86 | null when unarmed; otherwise disarms, deletes every child tuple once in order and returns `(count)`; a failure on tuple i is a DbException after tuples `0..i-1` |
| DeleteOp.DeleteRunsOnce | src/java/simpledb/Delete.java:68-86 | the first `fetchNext` deletes the child and the second returns null and deletes nothing |
| DeleteOp.RewindDeletesAgain | src/java/simpledb/Delete.java:53-86 | `rewind` re-arms, so the child is deleted a second time |
| HeapPages.FirstEmpty | src/java/simpledb/HeapFile.java:144 | the lowest empty slot, where a page with room takes a new tuple |
| HeapPages.NumEmptySlotsPositive | src/java/simpledb/HeapFile.java:130 | the empty-slot count is non-zero exactly when some slot is empty |
| HeapPages.UsedPlusEmptyIsSlots | src/java/simpledb/HeapFile.java:130 | occupied plus empty slots make all the slots |
| HeapPages.PageInsertAddsTuple | src/java/simpledb/HeapFile.java:144 | inserting into a page with room uses one empty slot and adds exactly the tuple |
| HeapPages.PageDeleteRemovesTuple | src/java/simpledb/HeapFile.java:156 | deleting an occupied slot frees it and removes exactly that tuple |
| PageArithmetic.PageFits | src/java/simpledb/HeapFile.java:82-85 | a page below the page count lies wholly inside the file, so the length check after the page-count check never fires |
| PageArithmetic.AppendAddsOnePage | src/java/simpledb/HeapFile.java:133-136 | appending one page of bytes adds exactly one page, whatever partial page the file ended with |
| PageArithmetic.PagesDisjoint | src/java/simpledb/HeapFile.java:101-112 | distinct pages occupy disjoint byte ranges |
| Heap.NumPagesRoundsDown | src/java/simpledb/HeapFile.java:117-120 | `numPages * pageSize <= length < (numPages + 1) * pageSize`: the quotient rounded down |
| Heap.HeapFile.ReadPage | src/java/simpledb/HeapFile.java:70-98 | IllegalArgumentException exactly for a null id, another table's id, a non-heap id or a page number at or past `numPages` (page numbers are non-negative here); otherwise the page decoded from exactly bytes `[pgNo * size, (pgNo + 1) * size)` |
| Heap.HeapFile.ReadPageAsWritten | src/java/simpledb/HeapFile.java:70-98 | `readPage` with the 32-bit `int` products of the length check and the seek offset: it rejects every id `ReadPage` rejects, and every failure is IllegalArgumentException |
| Heap.ReadPageAsWrittenAgrees | src/java/simpledb/HeapFile.java:83-89 | where neither product wraps, the as-written read equals `ReadPage` |
| Heap.ReadPageAsWrittenReadsPageZero | src/java/simpledb/HeapFile.java:83-89 | with 4096-byte pages, the as-written read of page 2^20 decodes page 0's bytes |
| Heap.HeapFile.GetPage | src/java/simpledb/HeapFile.java:129 | the buffer pool's copy or the page read from disk, which is then cached; no page's contents change |
| Heap.HeapFile.WritePage | src/java/simpledb/HeapFile.java:101-112 | IOException for another table; otherwise the bytes at `pgNo * pageSize` are replaced; a whole page written reads back as those bytes, and every other page reads as before |
| Heap.OverwritePage | src/java/simpledb/HeapFile.java:108-110 | writing page k's bytes keeps every other page and the page count never shrinks |
| Heap.HeapFile.InsertTuple | src/java/simpledb/HeapFile.java:123-148 | the tuple goes into the lowest page with an empty slot and no other page changes; when no page has room, one page of empty page data is appended and the page count grows by one. For a file of whole pages the new page is that empty page, so the tuple goes into it and the result lists exactly it; if the file ended in a partial page, the new page starts with that tail and DbException results when it has no room |
| HeapPages.EmptyPageHasRoom | src/java/simpledb/HeapFile.java:133-137 | the empty page appended by `insertTuple` has a free slot and holds no tuple |
| Heap.HeapFile.FindRoom | src/java/simpledb/HeapFile.java:127-132 | the first page with an empty slot, or none when every page is full |
| Heap.HeapFile.AppendNewPage | src/java/simpledb/HeapFile.java:135 | the empty page bytes are appended: one more page, earlier pages unchanged |
| Heap.InsertGrowsScan | src/java/simpledb/HeapFile.java:123-148 | when some page has room, or the file holds whole pages only, the insert succeeds and a full scan yields exactly the old tuples plus the new one; after an append to a file ending in a partial page, a successful insert also adds the tuples that tail decodes to |
| Heap.HeapFile.DeleteTuple | src/java/simpledb/HeapFile.java:151-160 | only the record's page changes, its slot is cleared, and the result lists exactly that page; a missing rid, an unreadable page or an empty slot throw |
| Heap.DeleteShrinksScan | src/java/simpledb/HeapFile.java:151-160 | after a delete, a full scan yields the old tuples minus the deleted one |
| Heap.HeapFile.Iterator | src/java/simpledb/HeapFile.java:198-201 | a fresh, unopened scan |
| Heap.HeapFileIterator.Open | src/java/simpledb/HeapFile.java:166-171 | takes the page count; with pages, the scan rests on page 0's tuples; `currentPgNo` is not reset |
| Heap.HeapFileIterator.Rewind | src/java/simpledb/HeapFile.java:188-190 | is `open` again |
| Heap.HeapFileIterator.Close | src/java/simpledb/HeapFile.java:191-194 | drops the current page and its tuple iterator |
| Heap.HeapFileIterator.HasNext | src/java/simpledb/HeapFile.java:172-183 | true exactly when the scan has tuples left, skipping pages with no tuples; the tuples still to come do not change |
| Heap.HeapFileIterator.NextNonEmptyPage | src/java/simpledb/HeapFile.java:175-182 | moves on to the next page with tuples, or reports there is none before the page count |
| Heap.HeapFileIterator.Next | src/java/simpledb/HeapFile.java:184-187 | NoSuchElementException before `open` or when the current page is used up; otherwise the first of the remaining tuples |
| Heap.TuplesOfFirstPage | src/java/simpledb/HeapFile.java:172-183 | a scan is the first page's tuples followed by the later pages' tuples, so an empty page adds nothing |
| Heap.Drain | src/java/simpledb/HeapFile.java:172-187 | draining with `hasNext`/`next` yields exactly the tuples the scan had left |
| Heap.ScanAll | src/java/simpledb/HeapFile.java:166-187 | a scan from a new iterator yields every tuple in page order, then slot order |
| Heap.RescanAsWritten | src/java/simpledb/HeapFile.java:166-190 | as written: after a full scan, `rewind` and a second scan yield only page 0's tuples |
| Heap.RescanMissesLaterPages | src/java/simpledb/HeapFile.java:166-190 | page 0's tuples are not the whole file once a later page holds a tuple |
| Heap.HeapFileIterator.OpenFromFirstPage | src/java/simpledb/HeapFile.java:166-171 | as intended: the whole file from page 0 remains to be scanned |
| Heap.RescanCorrected | src/java/simpledb/HeapFile.java:166-190 | with `OpenFromFirstPage`, both scans yield the whole file |

## Left out

- File I/O (`RandomAccessFile`, `Files.write`, `f.length()`) is left out. The file is a byte sequence that the methods reassign.
- The IOException paths inside the I/O are left out, as is Java's `int` cast of a page count of 2^31 or more in `numPages`. The one exception is `ReadPageAsWritten`: for a wrapped, negative seek offset it returns the null page (`None`) that `readPage` returns once its `assert(false)` is disabled, as Java runs by default.
- Heap.HeapFile.ReadPage: page numbers are non-negative (`pgNo: nat`). A negative `HeapPageId` number passes every IllegalArgumentException check of `readPage` and reaches the IOException path of `seek`, which is not modelled.
- BufferPool, Database, TransactionId and Permissions are left out: locking, eviction and transactions are external.
  - `getPage` is a lookup in a map of cached copies, then the page read from disk.
  - `Insert`/`Delete` hand tuples to a ghost log instead of the buffer pool.
- HeapPage is not part of this model.
  - `createEmptyPageData` is taken to decode to a page that has at least one slot and every slot empty (`IsEmptyPage`, part of `HeapFile.Valid`).
  - Its byte layout, header bitmap and `createEmptyPageData` are parameters: `decode`, `emptyPageData` and the page size.
  - Its `insertTuple` setting the tuple's record id is not modelled.
  - Its deletion test (that the tuple's rid names that page) is reduced to "the slot is occupied".
- `getId()` hashes the file's path through a foreign library, so it is the constant `tableId`. `getFile`, `getTupleDesc` of HeapFile and `Serializable` are trivia.
- Heap.HeapFile.WritePage: the offset is computed without the 32-bit `int` wrap of `pgNo * pageSize`, which is the same product that `ReadPageAsWritten` wraps.
- Heap.HeapFile.GetPage reads through the corrected `ReadPage`, and so do `InsertTuple`, `DeleteTuple` and the scan. For a file of 2^31 bytes or more, Java's `readPage` can return null or the wrong page (the int wrap in `ReadPageAsWritten`), and its callers would then throw NullPointerException; that is not modelled.
- Heap.HeapFile.ReadPage: the length check after the page-count check is not repeated, because `PageArithmetic.PageFits` shows it never fires. `ReadPageAsWritten` keeps it.
- Heap.HeapFile.DeleteTuple: the requires excludes record ids of another table, whose pages the buffer pool would fetch from another file.
- The `Operator` base class is not part of this model: `super.open/close` and its `hasNext`/`next` caching. `fetchNext` is modelled directly.
- `getChildren`/`setChildren` are left out: the child is fixed at construction.
- Aggregate's plain getters `groupField`, `aggregateField`, `aggregateOp` and `nameOfAggregatorOp` return a field and are left out.
- `Aggregator.Op` is not part of this model. Its `toString` is taken as the lower-case operator name, and operators other than the five aggregated here are not modelled.
- AggregateOp.Aggregate.FetchNext and Aggregate.Open use the StringAggregator iterator as written. Without grouping, `fetchNext` therefore keeps returning the count row.
- AggregateOp.Aggregate.Rewind: only the result iterator is rewound (Aggregate.java:130-134); the child is not drained again.
- StringAggregation.Create: an operator other than COUNT throws IllegalArgumentException (StringAggregator.java:31-39).
- Opening, closing and draining the child operators is a walk over a sequence of tuples. A child keeps no cursor, so the re-drain on an Insert/Delete rewind yields the same tuples.
- Schema.GetSize: the sum is unbounded. The 32-bit `int` overflow of a size of 2^31 bytes or more is not modelled.
- Tuples.Tuple.SetField: a null field cannot be passed (`f: Field`), so the NullPointerException that `setField(i, null)` raises at `f.clone()` is not modelled.
- Schema.FromTypesAndNames: Java `assert` statements (here and in `Tuple.setField`/`getField`) become preconditions.
- `TupleDesc.hashCode` only throws, so it is left out, as are `toString`/`TDItem.toString` (formatting only) and `iterator()`.
- Tuples.Tuple.ToString: a field's rendering (`Field.toString`) is a parameter.
- IntegerAggregation.IntegerAggregatorIterator.Open: which order a HashMap walks is not specified. The model proves only that some enumeration of the keys is walked.
- IntegerAggregation.IntegerAggregator.constructor: the requires `gbfield != NO_GROUPING ==> gbfieldtype.Some?` is stricter than the Java constructor, which stores a null grouping type without complaint. Aggregate, the only caller, always passes the child's type. The same holds for StringAggregation.Create and StringAggregation.StringAggregator.constructor.
- InsertOp.Insert.constructor: the child's schema is not compared with the table's, as in the code.

## Findings

| source | as written | input that shows it | evidently intended | confidence | as-written member | corrected member |
|---|---|---|---|---|---|---|
| src/java/simpledb/TupleDesc.java:154-160 | calls `equals` on each stored name, which may be null | names `[null, "a"]`, looking up "a" | null names are skipped and index 1 is returned | not executed | Schema.FieldNameToIndex, Schema.NullNameBeforeMatch | Schema.FieldNameToIndexSkippingNull |
| src/java/simpledb/HeapFile.java:166-190 | `open`/`rewind` keep `currentPgNo` | a file with tuples on page 1; one full scan, `rewind`, a second scan | the second scan yields the whole file again | not executed | Heap.RescanAsWritten, Heap.RescanMissesLaterPages | Heap.HeapFileIterator.OpenFromFirstPage, Heap.RescanCorrected |
| src/java/simpledb/HeapFile.java:83-89 | `(pgNo + 1) * pageSize` and `pgNo * pageSize` are 32-bit `int` products | 4096-byte pages, page 2^20 of a file holding it | the page's own bytes at offset 2^32 are read | not executed | Heap.HeapFile.ReadPageAsWritten, Heap.ReadPageAsWrittenReadsPageZero | Heap.HeapFile.ReadPage, Heap.ReadPageAsWrittenAgrees |
| src/java/simpledb/StringAggregator.java:86-99 | the ungrouped `next` never lowers `noGpHasNext` | no grouping; `open`, then `next` twice | one count row, then NoSuchElementException | not executed | StringAggregation.StringAggregatorIterator.Next, StringAggregation.UngroupedRowRepeats | StringAggregation.StringAggregatorIterator.NextOnce, StringAggregation.UngroupedRowOnce |
| src/java/simpledb/Aggregate.java:103-160 | `open` returns at once when the result iterator exists, but `close` has closed that iterator (IntegerAggregator.java:150-152) | `open`, `close`, `open`, then `fetchNext` | a reopened operator returns its rows again | not executed | AggregateOp.Aggregate.Open, AggregateOp.ReopenAfterClose | AggregateOp.Aggregate.OpenReopening, AggregateOp.ReopenAfterCloseCorrected |
