# SimpleDB core in Dafny

This project models the core of SimpleDB, a small Java teaching database (the
MIT 6.830 labs), and proves properties of the model. SimpleDB keeps tables
as heap files of fixed-size pages. Pages are read through a bounded buffer
pool that has two parts:

- a page-level lock manager with shared and exclusive locks, for two-phase
  locking;
- an LRU cache kept as a doubly linked list of nodes and a map from page id
  to node.

Query plans are trees of operators that yield tuples one at a time:

- filter and nested-loops join;
- insert and delete, each returning a one-row count;
- integer and string aggregators, which fold tuples into per-group results.

The model follows the Java code, including where it surprises:

- `evictPage` evicts and flushes the tail page even when it is dirty.
- `updateBufferPool` does not install a missing page. It dereferences the
  missing node and fails with a NullPointerException.

Two operations are modelled twice, because the code as written is wrong
(see "## Findings"):

- `removePage` as written forgets the map entry but keeps the node in the
  list: `BufferPools.BufferPool.RemovePageAsWritten`. The corrected removal,
  `BufferPools.BufferPool.RemovePage`, also unlinks the node.
- `hasNext` of the heap-file iterator as written moves on by one page only,
  so it stops at an empty page: `HeapFiles.HeapFileIterator.HasNextOnePage`.
  The corrected `HeapFiles.HeapFileIterator.HasNext` skips every exhausted
  page.

Modules follow the Java classes:

| file | module | models |
|---|---|---|
| `types.dfy` | `Types` | fields, tuples, page ids and pages; Java `int` wrap-around and truncating division; `Result`/`Outcome` for exceptions |
| `tuple_desc.dfy` | `TupleDescs` | `TupleDesc`: constructors, lookups, `indexForFieldName`, `getSize`, `merge`, `equals` |
| `lock_manager.dfy` | `Locking` | `BufferPool.LockManager`: the lock table as a map, pure `Grant`/`Release` and the class with its synchronized methods |
| `page_cache.dfy` | `PageCache` | the LRU structure as a value: flush, evict, move-to-front, the `getPage` install, `updateBufferPool`, `removePage` |
| `buffer_pool.dfy` | `BufferPools` | `BufferPool` as a class whose methods are proved against `PageCache` |
| `heap_file.dfy` | `HeapFiles` | `HeapFile.numPages`, `readPage` and `HeapFileIterator` |
| `aggregate.dfy` | `Aggregates` | `Aggregator.Op`, group keys and the shared result builder of `iterator()` |
| `integer_aggregator.dfy` | `IntegerAggregators` | `IntegerAggregator` and its MIN/MAX/COUNT/SUM/AVG handlers |
| `string_aggregator.dfy` | `StringAggregators` | `StringAggregator` (COUNT only) |
| `operator.dfy` | `Operators` | what all operators share: schema conformance, the list a repeated `open()` builds |
| `join.dfy` | `Joins` | `Join` |
| `filter.dfy` | `Filters` | `Filter` |
| `modify.dfy` | `Modifications` | `Insert` and `Delete` |

Inputs become values:

- The disk is a map from page id to bytes.
- A heap file's contents are a byte sequence.
- A child operator is the sequence of tuples it yields.
- A predicate is a Dafny function.
- The buffer pool's outcome for each inserted or deleted tuple is a
  sequence of outcomes passed in (`effects`).

Each stateful operator is a class. Its methods state the new state in terms
of pure specification functions (`JoinSpec`, `FilterSpec`, `Handled`,
`Counting`, `Grant`, `Release`, `Install`, `Evict`, ...). The lemmas beside
those functions state what the source promises.

## Model

| member | source | states |
|---|---|---|
| `Types.Wrap32` | src/java/simpledb/execution/IntegerAggregator.java:78-88 | a Java `int` result: congruent to the exact value modulo 2^32, and equal to it when it fits |
| `Types.Wrap32Add` | src/java/simpledb/execution/IntegerAggregator.java:82-83 | wrapping after every addition gives the same `int` as wrapping the exact sum once |
| `Types.JavaDiv` | src/java/simpledb/execution/IntegerAggregator.java:103 | Java's `/` truncates toward zero: bounds of the quotient for non-negative and for negative dividends |
| `TupleDescs.FromTypes` | src/java/simpledb/storage/TupleDesc.java:80-87 | one item per type, in order, each named `""` |
| `TupleDescs.FromTypesAndNames` | src/java/simpledb/storage/TupleDesc.java:64-71 | item i pairs type i with name i, one item per type |
| `TupleDescs.GetFieldName` | src/java/simpledb/storage/TupleDesc.java:104-111 | succeeds exactly for an index in range, with that item's name; NoSuchElementException otherwise |
| `TupleDescs.GetFieldType` | src/java/simpledb/storage/TupleDesc.java:121-127 | succeeds exactly for an index in range, with that item's type; NoSuchElementException otherwise |
| `TupleDescs.ConstructedLookups` | src/java/simpledb/storage/TupleDesc.java:64-127 | on a constructed descriptor, numFields is the argument length, and the lookups give back the constructor's arguments or fail out of range |
| `TupleDescs.IndexForFieldName` | src/java/simpledb/storage/TupleDesc.java:136-150 | the first index whose name equals the argument (null matches null); NoSuchElementException exactly when no item has it |
| `TupleDescs.GetSize` | src/java/simpledb/storage/TupleDesc.java:156-163 | the sum of the field widths |
| `TupleDescs.SumLenAppend` | src/java/simpledb/storage/TupleDesc.java:173-188 | the width of a concatenation is the sum of the widths |
| `TupleDescs.Merge` | src/java/simpledb/storage/TupleDesc.java:173-188 | td1's items then td2's; the counts and sizes add up |
| `TupleDescs.Equals` | src/java/simpledb/storage/TupleDesc.java:200-214 | true exactly for a TupleDesc with the same count and the same type at every index; names and non-TupleDesc objects as the source treats them |
| `TupleDescs.SameTypesIsEquivalence` | src/java/simpledb/storage/TupleDesc.java:200-214 | the equality is reflexive, symmetric and transitive |
| `Locking.ModesDetermineTable` | src/java/simpledb/storage/BufferPool.java:129-134 | two well-formed lock tables with the same (page, transaction) modes are equal |
| `Locking.CompatibleCases` | src/java/simpledb/storage/BufferPool.java:136-204 | when acquireLock grants: on a free page; a shared re-request; an upgrade exactly when the requester is the only holder; a re-request under an exclusive lock; never an exclusive lock beside other holders; a shared lock beside others exactly when all hold shared |
| `Locking.GrantSpec` | src/java/simpledb/storage/BufferPool.java:136-204 | a compatible grant keeps the table well formed (at most one exclusive holder, alone), gives the requester the granted mode and changes no other mode |
| `Locking.GrantModes` | src/java/simpledb/storage/BufferPool.java:136-204 | putting one holder changes no other (page, transaction) mode |
| `Locking.ReleaseSpec` | src/java/simpledb/storage/BufferPool.java:206-214 | release keeps the table well formed, removes exactly the (page, transaction) lock, and changes nothing when it was not held |
| `Locking.LockManager.constructor` | src/java/simpledb/storage/BufferPool.java:132-134 | an empty, well-formed lock table |
| `Locking.LockManager.IsHoldLock` | src/java/simpledb/storage/BufferPool.java:216-223 | true exactly when the transaction holds some lock on the page |
| `Locking.LockManager.AcquireLock` | src/java/simpledb/storage/BufferPool.java:136-204 | granted exactly when compatible; then the requester holds the granted mode; refused leaves the table unchanged; no other mode ever changes |
| `Locking.LockManager.AcquireHeld` | src/java/simpledb/storage/BufferPool.java:146-165 | the same, for a requester already holding a lock on the page |
| `Locking.LockManager.AcquireOthersHeld` | src/java/simpledb/storage/BufferPool.java:166-202 | the same, for a page held only by others |
| `Locking.LockManager.ReleaseLock` | src/java/simpledb/storage/BufferPool.java:206-214 | the new table is `Release` of the old, the lock is gone, nothing else changes |
| `Locking.LockManager.CompleteTransaction` | src/java/simpledb/storage/BufferPool.java:225-229 | the transaction holds no lock anywhere; every other transaction's locks are unchanged |
| `PageCache.Without` | src/java/simpledb/storage/BufferPool.java:74-77 | unlinking a node keeps exactly the other nodes |
| `PageCache.WithoutAt` | src/java/simpledb/storage/BufferPool.java:74-77 | unlinking the node at position i of a duplicate-free list splices it out |
| `PageCache.Flush` | src/java/simpledb/storage/BufferPool.java:452-460 | a missing entry is a NullPointerException and changes nothing; otherwise it succeeds and keeps the list and node identities |
| `PageCache.FlushSpec` | src/java/simpledb/storage/BufferPool.java:452-460 | after a flush the page is clean, its bytes are on disk if it was dirty, and no other page changes; flushing a clean page is a no-op |
| `PageCache.FlushStep` | src/java/simpledb/storage/BufferPool.java:424-430 | flushing one more page extends the set of flushed pages, so the iteration order of flushAllPages does not matter |
| `PageCache.CleanedAll` | src/java/simpledb/storage/BufferPool.java:424-430 | once every resident page is flushed, none is dirty and no page's bytes change |
| `PageCache.EvictLinked` | src/java/simpledb/storage/BufferPool.java:474-486 | eviction drops the tail of the LRU list and no map entries are added |
| `PageCache.EvictOutcome` | src/java/simpledb/storage/BufferPool.java:474-486 | eviction fails (NullPointerException) exactly when the tail's map entry is missing, and then only the list changes |
| `PageCache.EvictConsistent` | src/java/simpledb/storage/BufferPool.java:474-486 | on a consistent cache eviction succeeds whenever the list is non-empty and keeps the list and map in step |
| `PageCache.EvictDone` | src/java/simpledb/storage/BufferPool.java:474-486 | a successful eviction removes exactly the least recently used page |
| `PageCache.EvictWritesBack` | src/java/simpledb/storage/BufferPool.java:477-485 | a successful eviction writes the victim's bytes back when it was dirty and touches no other disk image |
| `PageCache.MoveToFront` | src/java/simpledb/storage/BufferPool.java:79-82 | the node is at the head; the list is a permutation of the old one; nodes, map and disk are unchanged; consistency is kept |
| `PageCache.MoveToFrontSpec` | src/java/simpledb/storage/BufferPool.java:79-82 | removing a node and re-adding it at the head keeps the same members and the list/map consistency |
| `PageCache.AddNodeLinked` | src/java/simpledb/storage/BufferPool.java:305-307 | the new node is mapped and at the head, with one more entry |
| `PageCache.AddNodeResident` | src/java/simpledb/storage/BufferPool.java:305-307 | the resident pages gain exactly the new page |
| `PageCache.Install` | src/java/simpledb/storage/BufferPool.java:299-310 | getPage after the lock keeps the cache well linked and consistent |
| `PageCache.InstallHit` | src/java/simpledb/storage/BufferPool.java:309-310 | a resident page is returned as cached and moved to the head; nothing else changes |
| `PageCache.InstallMiss` | src/java/simpledb/storage/BufferPool.java:299-310 | a missing page unknown to the disk is an IllegalArgumentException; otherwise it fails only when a full pool cannot evict; on success the disk image is returned, mapped and at the head |
| `PageCache.InstallMissResident` | src/java/simpledb/storage/BufferPool.java:299-308 | below capacity a read page is added and nothing else changes |
| `PageCache.InstallWithinCapacity` | src/java/simpledb/storage/BufferPool.java:302-307 | a pool within capacity stays within it after a successful getPage |
| `PageCache.ReplaceSpec` | src/java/simpledb/storage/BufferPool.java:413-415 | replacing a node's page changes exactly that resident page |
| `PageCache.UpdateWithinCapacity` | src/java/simpledb/storage/BufferPool.java:407-417 | within capacity updateBufferPool succeeds exactly when every page is resident (otherwise a NullPointerException) and never changes the list, map or disk |
| `PageCache.UpdateOverrides` | src/java/simpledb/storage/BufferPool.java:407-417 | a successful update leaves each page installed and marked dirty by the transaction, the later page of equal id winning |
| `PageCache.RemovePageAsWritten` | src/java/simpledb/storage/BufferPool.java:441-445 | the code as written: the map entry is gone, the list is unchanged |
| `PageCache.RemovePageAsWrittenBreaksConsistency` | src/java/simpledb/storage/BufferPool.java:441-445 | removing a resident page as written leaves a node the map does not know |
| `PageCache.StaleNodeCounterexample` | src/java/simpledb/storage/BufferPool.java:441-445 | in a one-page pool: install, remove, install, then a third install fails with a NullPointerException |
| `PageCache.RemovePage` | src/java/simpledb/storage/BufferPool.java:441-445 | the corrected removal: the entry and its node are both gone |
| `PageCache.RemovePageConsistent` | src/java/simpledb/storage/BufferPool.java:441-445 | the corrected removal keeps list and map consistent, one entry and one node shorter |
| `PageCache.RemovePageResident` | src/java/simpledb/storage/BufferPool.java:441-445 | the corrected removal drops exactly that page, without writing it |
| `PageCache.CorrectedRemovePageRun` | src/java/simpledb/storage/BufferPool.java:441-445 | the run of the counterexample succeeds with the corrected removal |
| `BufferPools.LockFor` | src/java/simpledb/storage/BufferPool.java:284 | READ_ONLY asks for a shared lock, READ_WRITE for an exclusive one |
| `BufferPools.BufferPool.constructor` | src/java/simpledb/storage/BufferPool.java:240-251 | an empty, consistent cache of the given capacity and an empty lock table |
| `BufferPools.BufferPool.AddToHead` | src/java/simpledb/storage/BufferPool.java:67-72 | the node becomes the head of the list |
| `BufferPools.BufferPool.Remove` | src/java/simpledb/storage/BufferPool.java:74-77 | the node leaves the list |
| `BufferPools.BufferPool.MoveToHead` | src/java/simpledb/storage/BufferPool.java:79-82 | the node leaves the list and is put back at the head |
| `BufferPools.BufferPool.RemoveTail` | src/java/simpledb/storage/BufferPool.java:86-90 | the tail is returned and unlinked |
| `BufferPools.BufferPool.FlushPage` | src/java/simpledb/storage/BufferPool.java:452-460 | the new cache and outcome are `Flush` of the old cache |
| `BufferPools.BufferPool.EvictPage` | src/java/simpledb/storage/BufferPool.java:474-486 | the new cache and outcome are `Evict` of the old cache |
| `BufferPools.BufferPool.FlushAllPages` | src/java/simpledb/storage/BufferPool.java:424-430 | every resident page is clean, every dirty page's bytes are on disk, the list and map are unchanged |
| `BufferPools.BufferPool.GetPage` | src/java/simpledb/storage/BufferPool.java:282-311 | a compatible lock request installs the page as `Install` says and grants the lock; otherwise TransactionAbortedException and nothing changes; no other lock changes |
| `BufferPools.BufferPool.Fetch` | src/java/simpledb/storage/BufferPool.java:299-310 | the cache after the lock is `Install` of the old one |
| `BufferPools.BufferPool.UpdateBufferPool` | src/java/simpledb/storage/BufferPool.java:407-417 | the new cache and outcome are `UpdatePages` of the old cache |
| `BufferPools.BufferPool.RemovePage` | src/java/simpledb/storage/BufferPool.java:441-445 | the cache is the corrected `RemovePage` of the old one |
| `BufferPools.BufferPool.RemovePageAsWritten` | src/java/simpledb/storage/BufferPool.java:441-445 | as written: the cache is `RemovePageAsWritten` of the old one, only the map entry removed |
| `BufferPools.BufferPool.HoldsLock` | src/java/simpledb/storage/BufferPool.java:342-346 | true exactly when the transaction holds a lock on the page |
| `BufferPools.BufferPool.UnsafeReleasePage` | src/java/simpledb/storage/BufferPool.java:322-326 | the lock is released and no other lock changes |
| `BufferPools.BufferPool.TransactionComplete` | src/java/simpledb/storage/BufferPool.java:333-337 | all the transaction's locks are released, others' are kept |
| `HeapFiles.NumPages` | src/java/simpledb/storage/HeapFile.java:129-132 | the number of whole pages in the file, at most MAX_INT |
| `HeapFiles.ReadPage` | src/java/simpledb/storage/HeapFile.java:79-118 | failures are IllegalArgumentException; a page read has the id asked for, exactly one page of bytes, and is clean |
| `HeapFiles.ReadPageInRange` | src/java/simpledb/storage/HeapFile.java:79-118 | a read succeeds exactly for 0 <= pageNo < numPages and returns the page's slice of the file |
| `HeapFiles.ReadPageNonNegative` | src/java/simpledb/storage/HeapFile.java:87-105 | for a non-negative page number below MAX_INT, success exactly when the whole page is in the file |
| `HeapFiles.ReadPageLast` | src/java/simpledb/storage/HeapFile.java:87-100 | page number MAX_INT, whose `pageNo + 1` wraps, is still rejected (by the short read) |
| `HeapFiles.FlattenStep` | src/java/simpledb/storage/HeapFile.java:157-227 | the tuples of pages w.. are page w's then the rest |
| `HeapFiles.HasNextAsWritten` | src/java/simpledb/storage/HeapFile.java:187-204 | the code as written: on true the current page has a tuple |
| `HeapFiles.HasNextAsWrittenSound` | src/java/simpledb/storage/HeapFile.java:187-204 | as written, hasNext never skips tuples, and true means some remain |
| `HeapFiles.EmptyPageCounterexample` | src/java/simpledb/storage/HeapFile.java:187-204 | with an empty middle page, hasNext as written is false while a tuple remains |
| `HeapFiles.ClosedScanIsEmpty` | src/java/simpledb/storage/HeapFile.java:188-190 | a closed iterator has nothing left and hasNext is false |
| `HeapFiles.HeapFileIterator.constructor` | src/java/simpledb/storage/HeapFile.java:165-168 | a closed iterator over the file's pages |
| `HeapFiles.HeapFileIterator.GetPageTuples` | src/java/simpledb/storage/HeapFile.java:176-184 | the page's tuples exactly for a page number in range; DbException otherwise |
| `HeapFiles.HeapFileIterator.Open` | src/java/simpledb/storage/HeapFile.java:171-174 | positions at page 0 with all the file's tuples remaining; DbException on an empty file |
| `HeapFiles.HeapFileIterator.HasNext` | src/java/simpledb/storage/HeapFile.java:187-204 | the corrected hasNext: true exactly when tuples remain, which it does not change |
| `HeapFiles.HeapFileIterator.HasNextOnePage` | src/java/simpledb/storage/HeapFile.java:187-204 | as written: the new iterator, page and answer are `HasNextAsWritten` of the old ones, and no tuple is lost |
| `HeapFiles.HeapFileIterator.Next` | src/java/simpledb/storage/HeapFile.java:207-213 | returns the first remaining tuple and removes it; NoSuchElementException when the current page is exhausted or the iterator is closed |
| `HeapFiles.HeapFileIterator.Close` | src/java/simpledb/storage/HeapFile.java:222-225 | the iterator is closed |
| `HeapFiles.HeapFileIterator.Rewind` | src/java/simpledb/storage/HeapFile.java:216-219 | close then open: all tuples remain again, or DbException on an empty file |
| `Aggregates.RowInjective` | src/java/simpledb/execution/IntegerAggregator.java:192-205 | rows of distinct groups are distinct |
| `Aggregates.CountStep` | src/java/simpledb/execution/IntegerAggregator.java:67-76 | the stored int count plus one is the wrapped exact count plus one |
| `Aggregates.Results` | src/java/simpledb/execution/IntegerAggregator.java:166-209 | without grouping the single null-key value (NullPointerException if none); with grouping one (groupVal, aggregateVal) row per group, ClassCastException exactly when a key has the wrong class |
| `IntegerAggregators.SelectHandler` | src/java/simpledb/execution/IntegerAggregator.java:123-141 | MIN, MAX, COUNT, SUM and AVG select their handler; any other operator is an IllegalArgumentException |
| `IntegerAggregators.ValuesOfAppend` | src/java/simpledb/execution/IntegerAggregator.java:150-156 | a merge adds its value to its own group's values only |
| `IntegerAggregators.MinOfIsMinimum` | src/java/simpledb/execution/IntegerAggregator.java:43-53 | MIN's value is one of the group's values and no greater than any |
| `IntegerAggregators.MaxOfIsMaximum` | src/java/simpledb/execution/IntegerAggregator.java:55-65 | MAX's value is one of the group's values and no less than any |
| `IntegerAggregators.Average` | src/java/simpledb/execution/IntegerAggregator.java:103 | the integer average truncates toward zero: tight bounds for both signs of the sum |
| `IntegerAggregators.MinStep` | src/java/simpledb/execution/IntegerAggregator.java:47-51 | folding Math.min over one more value gives the minimum of the longer sequence |
| `IntegerAggregators.MaxStep` | src/java/simpledb/execution/IntegerAggregator.java:59-63 | folding Math.max over one more value gives the maximum of the longer sequence |
| `IntegerAggregators.SumStep` | src/java/simpledb/execution/IntegerAggregator.java:82-86 | the running int sum is the wrapped exact sum |
| `IntegerAggregators.SumAndAvgExact` | src/java/simpledb/execution/IntegerAggregator.java:78-105 | when the exact sum fits in an int, SUM is the exact sum and AVG is within the truncation bounds of it |
| `IntegerAggregators.HandledGroup` | src/java/simpledb/execution/IntegerAggregator.java:43-105 | one handler call keeps its group's value equal to the aggregate of its values (AVG's sum and count too) |
| `IntegerAggregators.HandledOther` | src/java/simpledb/execution/IntegerAggregator.java:43-105 | one handler call leaves every other group unchanged |
| `IntegerAggregators.HandledAll` | src/java/simpledb/execution/IntegerAggregator.java:43-105 | one handler call keeps every group described by the history of merged values |
| `IntegerAggregators.IntegerAggregator.constructor` | src/java/simpledb/execution/IntegerAggregator.java:117-122 | empty maps, empty history, the given fields and handler |
| `IntegerAggregators.IntegerAggregator.MergeTupleIntoGroup` | src/java/simpledb/execution/IntegerAggregator.java:150-156 | succeeds exactly when the cast and the field lookups succeed; then the handler's maps are updated as `Handled` says and the history grows; otherwise the error and no change |
| `IntegerAggregators.IntegerAggregator.Handle` | src/java/simpledb/execution/IntegerAggregator.java:43-105 | the maps become `Handled` of the old maps, keeping the invariant |
| `IntegerAggregators.IntegerAggregator.MinHandle` | src/java/simpledb/execution/IntegerAggregator.java:43-53 | MinHandler.handler as `Handled` |
| `IntegerAggregators.IntegerAggregator.MaxHandle` | src/java/simpledb/execution/IntegerAggregator.java:55-65 | MaxHandler.handler as `Handled` |
| `IntegerAggregators.IntegerAggregator.CountHandle` | src/java/simpledb/execution/IntegerAggregator.java:67-76 | CountHandler.handler as `Handled` |
| `IntegerAggregators.IntegerAggregator.SumHandle` | src/java/simpledb/execution/IntegerAggregator.java:78-88 | SumHandler.handler as `Handled` |
| `IntegerAggregators.IntegerAggregator.AvgHandle` | src/java/simpledb/execution/IntegerAggregator.java:90-105 | AvgHandler.handler as `Handled` |
| `IntegerAggregators.IntegerAggregator.Iterator` | src/java/simpledb/execution/IntegerAggregator.java:166-209 | without grouping the aggregate of all merged values, NullPointerException if none; with grouping one row per group with the right schema, ClassCastException on a key of the wrong class |
| `IntegerAggregators.MergeKey` | src/java/simpledb/execution/IntegerAggregator.java:152-153 | the group key and int value of a tuple; ClassCastException for a non-int aggregate field, IndexOutOfBounds for a bad index |
| `IntegerAggregators.NewIntegerAggregator` | src/java/simpledb/execution/IntegerAggregator.java:117-142 | fails exactly for an unsupported operator, with IllegalArgumentException; otherwise a fresh empty aggregator with the selected handler |
| `StringAggregators.MergeKey` | src/java/simpledb/execution/StringAggregator.java:83-84 | the group key of a tuple; ClassCastException for a non-string aggregate field, IndexOutOfBounds for a bad index |
| `StringAggregators.CountingStep` | src/java/simpledb/execution/StringAggregator.java:42-51 | one count keeps each group's value equal to the wrapped number of merged tuples of that group |
| `StringAggregators.CountsAddUp` | src/java/simpledb/execution/StringAggregator.java:42-51 | the multiplicities of a history's keys add up to its length |
| `StringAggregators.CountsTotal` | src/java/simpledb/execution/StringAggregator.java:42-51 | with at most MAX_INT merges, the stored counts of all groups add up to the number of merged tuples |
| `StringAggregators.StringAggregator.constructor` | src/java/simpledb/execution/StringAggregator.java:63-70 | an empty count map and history with the given fields |
| `StringAggregators.StringAggregator.MergeTupleIntoGroup` | src/java/simpledb/execution/StringAggregator.java:81-86 | succeeds exactly when the cast and the lookups succeed; then the group's count is incremented and the history grows; otherwise the error and no change |
| `StringAggregators.StringAggregator.Count` | src/java/simpledb/execution/StringAggregator.java:42-51 | CountHandler.handler as `Counting` |
| `StringAggregators.StringAggregator.Iterator` | src/java/simpledb/execution/StringAggregator.java:96-138 | without grouping the wrapped number of merged tuples, NullPointerException if none; with grouping one row per group, ClassCastException on a key of the wrong class |
| `StringAggregators.NewStringAggregator` | src/java/simpledb/execution/StringAggregator.java:63-74 | fails exactly for an operator other than COUNT, with NoSuchElementException; otherwise a fresh empty aggregator |
| `Joins.MatchesStep` | src/java/simpledb/execution/Join.java:97-116 | one more inner tuple adds its joined tuple exactly when the predicate accepts the pair |
| `Joins.JoinStep` | src/java/simpledb/execution/Join.java:95-119 | one more outer tuple adds its matches with the whole inner relation |
| `Joins.MatchesSound` | src/java/simpledb/execution/Join.java:97-116 | every joined tuple for t1 comes from an inner tuple the predicate accepts |
| `Joins.MatchesComplete` | src/java/simpledb/execution/Join.java:97-116 | every accepted inner tuple yields its joined tuple for t1 |
| `Joins.JoinSound` | src/java/simpledb/execution/Join.java:95-119 | every join result is the concatenation of an accepted (outer, inner) pair |
| `Joins.JoinComplete` | src/java/simpledb/execution/Join.java:95-119 | every accepted pair yields its concatenation |
| `Joins.JoinMembership` | src/java/simpledb/execution/Join.java:95-119 | a tuple is in the join exactly when it is the concatenation of an accepted pair |
| `Joins.JoinAppend` | src/java/simpledb/execution/Join.java:95-119 | the join is outer-major: joining a + b is joining a then joining b |
| `Joins.JoinConforms` | src/java/simpledb/execution/Join.java:85-119 | join results conform to the merged schema |
| `Joins.OpenTwice` | src/java/simpledb/execution/Join.java:90-122 | a new join opened twice lists the join results twice, because the list is never cleared |
| `Joins.Join.constructor` | src/java/simpledb/execution/Join.java:47-56 | a closed join over the children with an empty result list |
| `Joins.Join.GetTupleDesc` | src/java/simpledb/execution/Join.java:85-88 | td1's items then td2's |
| `Joins.Join.Open` | src/java/simpledb/execution/Join.java:90-122 | the join results are appended to the list and the iterator is at its start |
| `Joins.Join.ScanOuter` | src/java/simpledb/execution/Join.java:95-119 | the nested loop appends exactly `JoinSpec` |
| `Joins.Join.ScanInner` | src/java/simpledb/execution/Join.java:97-118 | the inner loop appends exactly the matches of t1 |
| `Joins.Join.JoinTuple` | src/java/simpledb/execution/Join.java:101-112 | the new tuple holds t1's fields then t2's, with t1's record id |
| `Joins.Join.FetchNext` | src/java/simpledb/execution/Join.java:153-160 | the next listed tuple, or null when none remains or the join is closed |
| `Joins.Join.Rewind` | src/java/simpledb/execution/Join.java:130-133 | the iterator restarts over the whole list |
| `Joins.Join.Close` | src/java/simpledb/execution/Join.java:124-128 | nothing remains to fetch |
| `Filters.FilterStep` | src/java/simpledb/execution/Filter.java:57-62 | one more child tuple is kept exactly when the predicate accepts it |
| `Filters.FilterCounts` | src/java/simpledb/execution/Filter.java:57-62 | each tuple occurs in the result as often as in the child if accepted, and never otherwise |
| `Filters.FilterAppend` | src/java/simpledb/execution/Filter.java:57-62 | filtering keeps order: filtering a + b is filtering a then b |
| `Filters.FilterIdempotent` | src/java/simpledb/execution/Filter.java:57-62 | filtering twice is filtering once |
| `Filters.FilterConforms` | src/java/simpledb/execution/Filter.java:48-62 | results conform to the child's schema |
| `Filters.OpenTwice` | src/java/simpledb/execution/Filter.java:53-65 | a new filter opened twice lists the accepted tuples twice, because the list is never cleared |
| `Filters.Filter.constructor` | src/java/simpledb/execution/Filter.java:36-41 | a closed filter over the child with an empty result list |
| `Filters.Filter.Open` | src/java/simpledb/execution/Filter.java:53-65 | the accepted tuples are appended to the list and the iterator is at its start |
| `Filters.Filter.FetchNext` | src/java/simpledb/execution/Filter.java:87-95 | the next listed tuple, or null when none remains or the filter is closed |
| `Filters.Filter.Rewind` | src/java/simpledb/execution/Filter.java:73-76 | the iterator restarts over the whole list |
| `Filters.Filter.Close` | src/java/simpledb/execution/Filter.java:67-71 | nothing remains to fetch |
| `Modifications.Successes` | src/java/simpledb/execution/Insert.java:95-103 | no more successes than tuples |
| `Modifications.SuccessesStep` | src/java/simpledb/execution/Insert.java:97-102 | one more tuple counts exactly when its insert succeeded |
| `Modifications.SuccessesAll` | src/java/simpledb/execution/Delete.java:90-98 | the count equals the number of tuples exactly when every operation succeeded |
| `Modifications.SuccessesAppend` | src/java/simpledb/execution/Delete.java:90-98 | successes over two batches add up |
| `Modifications.CountAccumulates` | src/java/simpledb/execution/Insert.java:33 | the int count kept across fetches is the wrapped total of successes |
| `Modifications.CountStep` | src/java/simpledb/execution/Insert.java:99 | `count++` on a success is the wrapped count of one more success |
| `Modifications.FirstEscape` | src/java/simpledb/execution/Insert.java:97-102 | the first outcome an `IOException` catch does not absorb; none before it |
| `Modifications.FirstEscapeAt` | src/java/simpledb/execution/Insert.java:97-102 | the first escaping outcome is unique |
| `Modifications.Insert.constructor` | src/java/simpledb/execution/Insert.java:45-54 | count 0, not yet inserted, nothing sent |
| `Modifications.Insert.Open` | src/java/simpledb/execution/Insert.java:61-65 | the child restarts; count and flag are kept |
| `Modifications.Insert.Rewind` | src/java/simpledb/execution/Insert.java:73-77 | the child restarts and the flag is cleared; count is kept |
| `Modifications.Insert.FetchNext` | src/java/simpledb/execution/Insert.java:92-113 | the first call inserts every remaining child tuple, counting successes and absorbing IOExceptions, and returns the count; an escaping exception stops it with that error; later calls return null |
| `Modifications.Insert.Drain` | src/java/simpledb/execution/Insert.java:95-103 | the loop stops at the first escaping outcome, having sent the tuples up to it and counted the successes before it |
| `Modifications.Delete.constructor` | src/java/simpledb/execution/Delete.java:43-53 | count 0, not yet deleted, nothing sent |
| `Modifications.Delete.Open` | src/java/simpledb/execution/Delete.java:60-64 | the child restarts; count and flag are kept |
| `Modifications.Delete.Rewind` | src/java/simpledb/execution/Delete.java:72-76 | the child restarts and the flag is cleared; count is kept |
| `Modifications.Delete.FetchNext` | src/java/simpledb/execution/Delete.java:87-110 | the first call deletes every remaining child tuple, absorbing every exception, and returns the count of successes; later calls return null |

## Left out

- Concurrency: `synchronized`, the `ConcurrentHashMap`s and interleavings are not modelled. Each operation is one atomic step.
- `BufferPools.BufferPool.GetPage`: the 500 ms retry loop on a refused lock is one probe. A refused lock is a TransactionAbortedException, as after a timeout, because clocks are not modelled.
- File I/O: the disk is a map from page id to bytes. `pageSize` is a positive parameter. A flush writes the page's bytes to the map, which stands for whatever `DbFile.writePage` stores. With a HeapFile the source writes nothing, because `HeapFile.writePage` is an empty stub. No write fails, so the IOException that `evictPage` catches cannot occur.
- The Catalog, `Database` and `DbFile` are not part of this model. `getPage` reads the page from the disk map. A page id missing from it is an IllegalArgumentException, as `readPage` raises one.
- HeapPage parsing and HeapPage's own iterator are not part of this model. The heap-file iterator works on each page's tuple list.
- `HeapFiles.HeapFileIterator.GetPageTuples`: does not go through `BufferPool.getPage`, so a lock refusal inside the scan is not modelled.
- `HeapFiles.NumPages`: `Math.floor` of a double is modelled as integer division. It saturates at MAX_INT like the `(int)` cast. Rounding for files beyond 2^53 bytes is not modelled.
- The empty stubs are not modelled: `transactionComplete(tid, commit)`, `flushPages(tid)`, `HeapFile.writePage`, and `HeapFile.insertTuple`/`deleteTuple` (which return null).
- `BufferPool.insertTuple`/`deleteTuple` are modelled only through `updateBufferPool`. The pages each would return are an input, because the DbFile calls are not part of this model.
- Page objects are values, so aliasing between the cache and callers is not modelled. A page returned by `getPage` and later changed by the caller is not the cached page.
- `BufferPools.BufferPool.RemovePage` follows the corrected removal, not the code as written (see "## Findings"). `BufferPools.BufferPool.RemovePageAsWritten` models the code as written.
- `HeapFiles.HeapFileIterator.HasNext` follows the corrected hasNext, which skips every exhausted page, not the code as written (see "## Findings"). `HeapFiles.HeapFileIterator.HasNextOnePage` models the code as written.
- A null `gbfieldtype` is not modelled: the group type is always a field type.
- `toString`, `hashCode`, `TupleDesc.iterator` and `IntHistogram` are not modelled.
- HashMap iteration order is not modelled. `flushAllPages` and `completeTransaction` are proved independent of it. The aggregators' grouped rows are stated as a set, with one row per group.
- `IntegerAggregators.IntegerAggregator.MergeTupleIntoGroup`: requires fewer than MAX_INT merged tuples. Beyond that AVG's per-group count would wrap to zero or below; the source would then divide by zero or by a negative count.
- `TupleDescs.FromTypesAndNames`: requires the two arrays to have equal length. The source sizes the array by the names and loops over the types, so unequal lengths throw or leave null items.
- Predicate and JoinPredicate are not part of this model: a predicate is a Dafny function. Aggregator.java and Operator.java are not part of this model either, beyond what is stated here.
- Children are tuple sequences. Their own exceptions and state (`open`/`rewind`/`close`) are not modelled.
- Insert and Delete take the buffer pool's outcome for each tuple as `effects` rather than calling it.
- `close()` of Insert and Delete only closes the child, so it is not modelled.
- Insert's constructor does not check the child schema against the table, so neither does the model.
- Operator.next/hasNext wrapping around fetchNext is not modelled: `getChildren`, `setChildren`, `getJoinPredicate`, `getJoinField1Name`/`getJoinField2Name`.
- `Joins.Join.FetchNext` after `close()` returns null, as the source does with `it == null`. Whether after close Operator refuses calls is not modelled.

## Findings

| source | as written | input that shows it | evidently intended | confidence | as-written member | corrected member |
|---|---|---|---|---|---|---|
| src/java/simpledb/storage/BufferPool.java:441-445 | `removePage` removes the map entry but leaves the page's node in the LRU list | a one-page pool: get page 0, remove it, get page 1, get page 2. Eviction picks page 0's stale node, whose map entry is gone, and `getPage` fails with a NullPointerException | unlink the node as well as forgetting the entry | not executed | `PageCache.StaleNodeCounterexample` | `PageCache.RemovePageConsistent` |
| src/java/simpledb/storage/HeapFile.java:187-204 | `hasNext` advances at most one page, and reports that page's emptiness | three pages, the middle one empty: after the first page's tuple, `hasNext` is false although the third page has a tuple | skip empty pages until a tuple or the last page | not executed | `HeapFiles.EmptyPageCounterexample` | `HeapFiles.HeapFileIterator.HasNext` |
