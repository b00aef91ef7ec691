# SimpleDB storage, locking and execution core in Dafny

This project models the core of SimpleDB, a teaching relational database written
in Java, and proves properties of the model. It covers these parts:

- **Pages on disk.** A heap page (`HeapPage`) is a header bitmap of used slots
  followed by fixed-size tuple slots and zero padding. A heap file (`HeapFile`)
  is a sequence of such pages, one page size apart.
- **The buffer pool.** `BufferPool` hands out pages only after the page's lock
  is granted and recorded. It keeps pages in an LRU cache (`DefaultPageManager`)
  that evicts the least recently used *clean* page. It writes dirty pages back
  at commit and drops them at abort, logging each write, and then releases all
  the transaction's locks.
- **Locking.** Each page has a reader/writer locker (`PageTransactionLocker`)
  with lock upgrade. Per-page lock managers record holders, and per-transaction
  ledgers list the pages to release at completion (`PageLockManager`,
  `DefaultLockManager`, `SimpleTransactionManager`, `DefaultTransactionManager`).
- **Schemas and identifiers.** `TupleDesc`, `HeapPageId`, `RecordId`.
- **Execution.** The `Insert` and `Aggregate` operators, the aggregators behind
  them (`DefaultAggregator`, `StringAggregator`, the group aggregators and
  their `Calculator`), and the stages of a B-tree leaf split (`BTreeSplitStage`).

The model follows the Java code, including its quirks:

- Java `int` arithmetic wraps (`JavaInt`).
- Exceptions become `Err`/`Fail` values with the Java exception's name
  (`Wrappers.Error`).
- Objects whose fields the Java methods update in place are Dafny classes with
  `modifies` frames. Pure logic is datatypes, functions and lemmas.

Each stateful method is proved against a specification function on values.
Some examples:

- `EvictLast` and `AddThenGet` specify the page cache.
- `Grant` and `Released` specify the locker.
- `RecordIn` and `ReleaseAllIn` specify the lock table.
- `MergeInto` and `MergeDefault` specify the aggregators.
- `FilesAfter` and `LogOf` specify flushing.

Lemmas then state what these functions promise. Some examples:

- Eviction removes exactly the last clean page, and fails only when every page
  is dirty.
- A granted lock is held, and an exclusive holder excludes everyone else.
- Releasing all of a transaction's locks clears it everywhere and touches no
  other transaction.
- The groups an aggregator builds are exactly the folds of each key's tuples.
- Decoding a page image and re-encoding it gives back the same image.

Dafny files (one module each): `wrappers.dfy`, `java_int.dfy`, `ids.dfy`,
`schema.dfy`, `heap_page.dfy`, `heap_file.dfy`, `page_cache.dfy`,
`resource_lock.dfy`, `lock_table.dfy`, `storage.dfy`, `aggregation.dfy`,
`operators.dfy`, `btree_split.dfy`.

## Model

| member | source | states |
|---|---|---|
| JavaInt.Add | src/main/java/simpledb/execution/aggregator/IntegerGroupAggregator.java:23-26 | Java `int` addition: the exact sum when it fits in 32 bits, otherwise the sum shifted by 2^32 (overflow wraps). |
| JavaInt.Wrap | src/main/java/simpledb/execution/aggregator/IntegerGroupAggregator.java:23-26 | The Java `int` a value wraps to: congruent to it modulo 2^32, and the value itself when it already fits. |
| JavaInt.DivExactUnlessOverflow | src/main/java/simpledb/execution/aggregator/AbstractGroupAggregator.java:113-115 | `number / counter` is division truncating toward zero, except for MIN_VALUE / -1, which wraps. |
| JavaInt.QuotTruncates | src/main/java/simpledb/execution/aggregator/AbstractGroupAggregator.java:113-115 | The truncating quotient's magnitude times the divisor's stays within one divisor of the dividend. |
| JavaInt.QuotMagnitude | src/main/java/simpledb/execution/aggregator/AbstractGroupAggregator.java:113-115 | The truncating quotient has magnitude abs(a) / abs(b), and it is negative exactly when the signs differ. |
| Ids.PageIdEquals | src/main/java/simpledb/storage/HeapPageId.java:40-47 | A HeapPageId equals an object iff that object is a HeapPageId with the same table and page number; null and other classes are unequal. |
| Ids.Serialize | src/main/java/simpledb/storage/HeapPageId.java:60-67 | serialize gives two ints from which the same page id is rebuilt. |
| Ids.PageIdHashConsistent | src/main/java/simpledb/storage/HeapPageId.java:40-52 | Equal page ids have equal hash codes. |
| Ids.PageIdHashSeparatesPages | src/main/java/simpledb/storage/HeapPageId.java:50-52 | Two pages of one table with different page numbers hash differently. |
| Ids.RecordIdEquals | src/main/java/simpledb/storage/RecordId.java:50-55 | A RecordId equals an object iff that object is a RecordId with the same page and slot. |
| Ids.RecordIdHashConsistent | src/main/java/simpledb/storage/RecordId.java:50-60 | Equal record ids have equal hash codes. |
| Schema.NewNamed | src/main/java/simpledb/storage/TupleDesc.java:38-43 | Column i gets type i and name i. The call fails with IndexOutOfBounds exactly when fewer names than types are given. |
| Schema.NewAnonymous | src/main/java/simpledb/storage/TupleDesc.java:53-58 | One column per type, each named "anonymous". |
| Schema.FieldNameAt | src/main/java/simpledb/storage/TupleDesc.java:76-78 | getFieldName answers iff the index is within the columns, and otherwise throws IndexOutOfBounds. |
| Schema.FieldTypeAt | src/main/java/simpledb/storage/TupleDesc.java:90-92 | getFieldType answers iff the index is within the columns, and otherwise throws IndexOutOfBounds. |
| Schema.FieldNameToIndex | src/main/java/simpledb/storage/TupleDesc.java:103-110 | Returns the first column with the given name. Throws NullPointer iff an unnamed column comes before any match. Throws NoSuchElement iff every column is named and none matches. |
| Schema.GetSize | src/main/java/simpledb/storage/TupleDesc.java:116-122 | The loop's total equals the sum of the column lengths. |
| Schema.SizeAppend | src/main/java/simpledb/storage/TupleDesc.java:116-122 | The size of concatenated columns is the sum of the two sizes. |
| Schema.Merge | src/main/java/simpledb/storage/TupleDesc.java:134-142 | The merged descriptor has td1's columns followed by td2's. |
| Schema.MergeFieldAt | src/main/java/simpledb/storage/TupleDesc.java:134-142 | After merge, indices below td1's width answer as td1 and the rest answer as td2, shifted by that width. |
| Schema.MergeSize | src/main/java/simpledb/storage/TupleDesc.java:134-142 | The merged size is the sum of the two sizes. |
| Schema.RenderMergeArray | src/main/java/simpledb/storage/TupleDesc.java:144-152 | Copies the columns into the arrays from beginIndex, leaves every other cell as it was, and returns the next free index. |
| Schema.Equals | src/main/java/simpledb/storage/TupleDesc.java:155-168 | true iff both descriptors have the same columns (types and names), pairwise. |
| HeapPages.NumSlotsIsMaximal | src/main/java/simpledb/storage/HeapPage.java:81-84 | getNumTuples is the largest slot count whose bits plus header bits fit in the page. |
| HeapPages.HeaderIsCeiling | src/main/java/simpledb/storage/HeapPage.java:91-94 | getHeaderSize is the ceiling of slots / 8. |
| HeapPages.LayoutFits | src/main/java/simpledb/storage/HeapPage.java:81-94 | The header plus all slots fit in the page size. |
| HeapPages.SlotsAreInt32 | src/main/java/simpledb/storage/HeapPage.java:81-84 | The slot count always fits in a Java `int`. |
| HeapPages.SetSlot | src/main/java/simpledb/storage/HeapPage.java:348-360 | markSlotUsed sets exactly bit i of the header (bit i % 8 of byte i / 8) and no other slot's bit. |
| HeapPages.SetBit | src/main/java/simpledb/storage/HeapPage.java:348-360 | Setting bit pos of a header byte changes that bit to v and leaves the other seven. |
| HeapPages.EmptyCountAfterSet | src/main/java/simpledb/storage/HeapPage.java:321-360 | Setting one slot's bit changes the empty-slot count by exactly that slot's change. |
| HeapPages.EmptyCount | src/main/java/simpledb/storage/HeapPage.java:321-330 | The number of unused slots among the first k never exceeds k. |
| HeapPages.EmptyCountOneChange | src/main/java/simpledb/storage/HeapPage.java:321-330 | When exactly one slot's used bit changes, the empty count moves by that slot's change alone. |
| HeapPages.EmptyCountZero | src/main/java/simpledb/storage/HeapPage.java:321-330 | The empty count is zero iff every slot is used. |
| HeapPages.EmptyPageData | src/main/java/simpledb/storage/HeapPage.java:242-245 | The bytes of an all-empty page are pageSize zeros, which is what createEmptyPageData returns. |
| HeapPages.EmptyImage | src/main/java/simpledb/storage/HeapPage.java:242-245 | The image of an empty page is well formed and has every slot unused. |
| HeapPages.PageDataHeader | src/main/java/simpledb/storage/HeapPage.java:172-231 | getPageData starts with the header bytes. |
| HeapPages.PageData | src/main/java/simpledb/storage/HeapPage.java:172-231 | The serialized page is exactly the page size long. |
| HeapPages.SerializeRow | src/main/java/simpledb/storage/HeapPage.java:204-212 | The loop writes the bytes of the row's fields one after another (RowBytes). |
| HeapPages.PageDataSlot | src/main/java/simpledb/storage/HeapPage.java:172-231 | Slot i's bytes sit at header + i * tupleSize. An empty slot is all zeros. |
| HeapPages.PageDataPadding | src/main/java/simpledb/storage/HeapPage.java:172-231 | Every byte after the last slot is zero. |
| HeapPages.DecodeSlots | src/main/java/simpledb/storage/HeapPage.java:130-159 | readNextTuple yields a tuple for a slot iff its header bit is set. |
| HeapPages.DecodeImageOf | src/main/java/simpledb/storage/HeapPage.java:51-73 | Re-reading the image a page writes out gives back the same slots (page-level round trip). |
| HeapPages.ImageOfDecode | src/main/java/simpledb/storage/HeapPage.java:51-73 | Writing out what was read from a normal image gives back that image. |
| HeapPages.ImageOf | src/main/java/simpledb/storage/HeapPage.java:172-231 | The image keeps the header and has one row per slot. |
| HeapPages.DecodeConsistent | src/main/java/simpledb/storage/HeapPage.java:51-73 | A page read from a well-formed image has header and slots in agreement, with each record id pointing at its own slot. |
| HeapPages.ConsistentAfterSet | src/main/java/simpledb/storage/HeapPage.java:254-293 | Setting a slot's bit together with its tuple keeps header and slots in agreement. |
| HeapPages.HeapPage.FromImage | src/main/java/simpledb/storage/HeapPage.java:51-73 | The constructor reads the header and decodes each slot. The page starts clean, with its before-image equal to what was read. |
| HeapPages.HeapPage.GetNumEmptySlots | src/main/java/simpledb/storage/HeapPage.java:321-330 | The loop counts the slots whose bit is clear. |
| HeapPages.HeapPage.MarkSlotUsed | src/main/java/simpledb/storage/HeapPage.java:348-360 | The header becomes SetSlot of the old header. |
| HeapPages.HeapPage.InsertTuple | src/main/java/simpledb/storage/HeapPage.java:277-293 | A descriptor mismatch fails with "tuple desc not matched". A full page fails with "The page is full" (iff every slot is used), leaving the page unchanged. Otherwise the tuple goes into the first empty slot with its record id set, and the empty count drops by one. |
| HeapPages.HeapPage.DeleteTuple | src/main/java/simpledb/storage/HeapPage.java:254-268 | No record id gives NullPointer; another page's id gives "Page id not match"; an unused slot fails. On success exactly that slot is cleared and the empty count rises by one. |
| HeapPages.HeapPage.MarkDirty | src/main/java/simpledb/storage/HeapPage.java:299-307 | The dirtier becomes tid when dirty is true, and none otherwise. |
| HeapPages.HeapPage.GetPageData | src/main/java/simpledb/storage/HeapPage.java:172-231 | The serialized bytes are PageData of the page's image: header, slots, zero padding. |
| HeapPages.HeapPage.SetBeforeImage | src/main/java/simpledb/storage/HeapPage.java:113-117 | The before-image becomes the current image; the dirty mark is untouched. |
| HeapPages.HeapPageIterator.HasNext | src/main/java/simpledb/storage/HeapPage.java:382-388 | Skips to the next used slot and answers whether one exists. |
| HeapPages.HeapPageIterator.constructor | src/main/java/simpledb/storage/HeapPage.java:377-380 | The iterator starts at slot 0 of the given page. |
| HeapPages.HeapPageIterator.Next | src/main/java/simpledb/storage/HeapPage.java:390-396 | Returns the slot at the cursor and advances, without checking the slot is used. |
| HeapPages.NextUsed | src/main/java/simpledb/storage/HeapPage.java:382-388 | The next used slot at or after k, every slot skipped being unused. |
| HeapFiles.HeapFile.constructor | src/main/java/simpledb/storage/HeapFile.java:41-46 | The file starts with the given stored pages and length. |
| HeapFiles.HeapFile.ReadPage | src/main/java/simpledb/storage/HeapFile.java:83-94 | A negative page number fails with IllegalArgument. Otherwise a fresh page holds the stored image at that number, or an empty page past the end. |
| HeapFiles.HeapFile.WritePage | src/main/java/simpledb/storage/HeapFile.java:97-101 | Stores the page's image at its number and extends the length to cover it. Nothing changes for a negative start offset. |
| HeapFiles.HeapFile.AppendEmptyPage | src/main/java/simpledb/storage/HeapFile.java:127-130 | Writes an empty page at numPages(), so the page count grows by one. |
| HeapFiles.PageStartPosition | src/main/java/simpledb/storage/HeapFile.java:103-105 | A page's offset is non-negative for a non-negative page number and negative for a negative one. |
| HeapFiles.ImageIn | src/main/java/simpledb/storage/HeapFile.java:83-94 | Reading a page gives its stored image, or an empty page when nothing is stored there. |
| HeapFiles.HeapFile.ImageAt | src/main/java/simpledb/storage/HeapFile.java:83-94 | The image read at any page number is well formed for the file's slot count. |
| HeapFiles.PageAtOffset | src/main/java/simpledb/storage/HeapFile.java:83-105 | Page n's bytes sit at offsets [n * pageSize, (n + 1) * pageSize) of the file. |
| HeapFiles.NumPagesIsQuotient | src/main/java/simpledb/storage/HeapFile.java:111-114 | numPages is the file length divided by the page size. |
| HeapFiles.AppendedLength | src/main/java/simpledb/storage/HeapFile.java:127-130 | Writing at numPages() grows numPages by exactly one. |
| PageCache.Without | src/main/java/simpledb/storage/page/DefaultPageManager.java:115-122 | Unlinking a node removes exactly that id from the list. |
| PageCache.WithoutAt | src/main/java/simpledb/storage/page/DefaultPageManager.java:115-122 | On a list without duplicates, removing s[i] leaves the elements before and after it, in order. |
| PageCache.MoveToFrontKeepsIds | src/main/java/simpledb/storage/page/DefaultPageManager.java:104-113 | popNode puts the id at the head and keeps the same ids, once each. |
| PageCache.LastClean | src/main/java/simpledb/storage/page/DefaultPageManager.java:127-137 | The victim is the clean page nearest the tail. None means every page is dirty. |
| PageCache.LastCleanUnique | src/main/java/simpledb/storage/page/DefaultPageManager.java:127-137 | Any clean page followed only by dirty pages is the victim. |
| PageCache.EvictLastSpares | src/main/java/simpledb/storage/page/DefaultPageManager.java:127-137 | removeLast fails (NullPointer) iff every page is dirty. Otherwise it removes exactly the last clean page from the map and the list and keeps the cache well formed. |
| PageCache.EvictAt | src/main/java/simpledb/storage/page/DefaultPageManager.java:127-137 | Eviction drops exactly the last clean page. |
| PageCache.EvictKeepsHead | src/main/java/simpledb/storage/page/DefaultPageManager.java:127-137 | With a clean page behind the head, eviction keeps the most recently used page. |
| PageCache.AddNewClean | src/main/java/simpledb/storage/page/DefaultPageManager.java:66-75 | Adding a clean page never fails: there is always a clean page to evict. |
| PageCache.AddNewBounded | src/main/java/simpledb/storage/page/DefaultPageManager.java:66-75 | After add, the cache holds at most max(capacity, old size) pages. |
| PageCache.AddThenGetKeepsPage | src/main/java/simpledb/storage/page/DefaultPageManager.java:35-49 | If the cache has room or a clean page, getOrCreate returns the new page at the list head. |
| PageCache.AddThenGetEvictsFreshPage | src/main/java/simpledb/storage/page/DefaultPageManager.java:35-49 | If the cache is full of dirty pages, the loaded page itself is evicted: getOrCreate returns null and the cache is unchanged. |
| PageCache.AddThenGetResidents | src/main/java/simpledb/storage/page/DefaultPageManager.java:35-49 | After getOrCreate every resident page was resident before or is the loaded one. A returned page is resident, and a null result means it is not. |
| PageCache.InsertKeepsLru | src/main/java/simpledb/storage/page/DefaultPageManager.java:60-63 | internalAdd keeps map and list in step and grows the cache by one. |
| PageCache.DropKeepsLru | src/main/java/simpledb/storage/page/DefaultPageManager.java:78-81 | remove keeps map and list in step and shrinks the cache by one. |
| PageCache.InsertThenDrop | src/main/java/simpledb/storage/page/DefaultPageManager.java:60-81 | remove undoes internalAdd. |
| PageCache.TouchKeepsLru | src/main/java/simpledb/storage/page/DefaultPageManager.java:84-86 | Moving a resident page to the head keeps the cache well formed. |
| PageCache.MapSizes | src/main/java/simpledb/storage/page/DefaultPageManager.java:28-32 | The map and the recency list have the same size. |
| PageCache.DropAllStep | src/main/java/simpledb/storage/BufferPool.java:250-261 | Removing pages one at a time equals removing the whole set. |
| PageCache.WithoutAll | src/main/java/simpledb/storage/BufferPool.java:250-261 | After removing a set of ids from the recency list, an id remains iff it was there and is not in the set. |
| PageCache.DefaultPageManager.constructor | src/main/java/simpledb/storage/page/DefaultPageManager.java:28-32 | An empty cache with the given capacity. |
| PageCache.DefaultPageManager.Get | src/main/java/simpledb/storage/page/DefaultPageManager.java:52-59 | A hit returns the page and moves it to the head. A miss returns null and changes nothing. |
| PageCache.DefaultPageManager.RemoveLast | src/main/java/simpledb/storage/page/DefaultPageManager.java:127-137 | The outcome and new cache are EvictLast of the old cache under its dirty set. |
| PageCache.DefaultPageManager.Add | src/main/java/simpledb/storage/page/DefaultPageManager.java:66-75 | A resident id is only moved to the head. A new page is inserted, then the last clean page is evicted if the cache is over capacity (AddNew). |
| PageCache.DefaultPageManager.AddAndTrim | src/main/java/simpledb/storage/page/DefaultPageManager.java:66-75 | For a new page the result is AddNew. |
| PageCache.DefaultPageManager.GetOrCreate | src/main/java/simpledb/storage/page/DefaultPageManager.java:35-49 | A hit is a get. A miss reads the page from its file: an unknown table gives NoSuchElement and a negative page number gives IllegalArgument. Otherwise the page is added and looked up again (AddThenGet), which may return null. |
| PageCache.DefaultPageManager.Remove | src/main/java/simpledb/storage/page/DefaultPageManager.java:78-81 | Drops a resident page. An absent id throws NullPointer and changes nothing. |
| PageCache.DefaultPageManager.Refresh | src/main/java/simpledb/storage/page/DefaultPageManager.java:84-86 | Moves a resident page to the head. An absent page throws NullPointer. |
| PageCache.DefaultPageManager.Traverse | src/main/java/simpledb/storage/page/DefaultPageManager.java:89-91 | Visits every resident page exactly once. |
| ResourceLock.GrantReader | src/main/java/simpledb/storage/lock/PageTransactionLocker.java:42-58 | A read lock is granted iff no writer holds the page. The reader joins the shared set and then holds it; a refusal changes nothing. |
| ResourceLock.GrantWriter | src/main/java/simpledb/storage/lock/PageTransactionLocker.java:59-87 | A write lock is granted iff no writer holds the page and the readers are at most the requester (upgrade). The requester becomes the sole exclusive holder. |
| ResourceLock.GrantedHolds | src/main/java/simpledb/storage/lock/PageTransactionLocker.java:34-90 | A granted request is held afterwards, and a request already held is granted without change (re-entrance). |
| ResourceLock.GrantKeepsCoherent | src/main/java/simpledb/storage/lock/PageTransactionLocker.java:34-114 | tryLock and release keep the flag set exactly while there is an exclusive holder, who excludes readers. |
| ResourceLock.ExclusiveExcludes | src/main/java/simpledb/storage/lock/PageTransactionLocker.java:96-105 | While one transaction holds the write lock, no other holds any lock. |
| ResourceLock.ReleaseOnlyTid | src/main/java/simpledb/storage/lock/PageTransactionLocker.java:107-114 | release drops the transaction's locks, leaves every other transaction's, and is idempotent. |
| ResourceLock.UpgradableIsSingleton | src/main/java/simpledb/storage/lock/PageTransactionLocker.java:92-94 | "Empty, or one element that is tid" is the same as "empty or {tid}". |
| ResourceLock.PageTransactionLocker.constructor | src/main/java/simpledb/storage/lock/PageTransactionLocker.java:30-32 | A new locker is unheld. |
| ResourceLock.PageTransactionLocker.TryLock | src/main/java/simpledb/storage/lock/PageTransactionLocker.java:34-90 | The answer and the new state are Grant of the old state. |
| ResourceLock.PageTransactionLocker.HasHolder | src/main/java/simpledb/storage/lock/PageTransactionLocker.java:96-105 | Equals Holds on the locker's state. |
| ResourceLock.PageTransactionLocker.Release | src/main/java/simpledb/storage/lock/PageTransactionLocker.java:107-114 | The new state is Released of the old. |
| LockTable.OpenOnce | src/main/java/simpledb/storage/lock/DefaultLockManager.java:27-31 | putIfAbsent creates a page manager at most once and keeps existing ones. |
| LockTable.RecordThenHasLock | src/main/java/simpledb/storage/lock/DefaultLockManager.java:33-37 | After record the transaction has the lock, recording again changes nothing, and other pages and ledgers are untouched. |
| LockTable.AcquireRecords | src/main/java/simpledb/storage/lock/DefaultLockManager.java:27-37 | getLock, tryLock and then record keep every locker holder recorded in the holder sets. |
| LockTable.TryLockOnePage | src/main/java/simpledb/storage/lock/DefaultLockManager.java:27-31 | tryLock on a page's locker changes only that locker. A success holds the lock and a failure changes nothing. |
| LockTable.ReleaseOnePage | src/main/java/simpledb/storage/lock/DefaultLockManager.java:39-42 | Release fails iff the page has no manager. Afterwards tid has neither the recorded lock nor the locker's, and every other (transaction, page) pair is untouched. |
| LockTable.ReleaseAllClears | src/main/java/simpledb/storage/transaction/DefaultTransactionManager.java:32-38 | releaseAll removes tid's ledger and clears tid from every page's holders and lockers. Other transactions' locks and ledgers are unchanged, and a second releaseAll changes nothing. |
| LockTable.LedgerRestarts | src/main/java/simpledb/storage/transaction/DefaultTransactionManager.java:26-38 | After releaseAll, a new record starts a fresh ledger holding only that page. |
| LockTable.ReleasePages | src/main/java/simpledb/storage/transaction/SimpleTransactionManager.java:37-40 | Releasing a set of pages keeps the same managed pages. |
| LockTable.ReleasePagesStep | src/main/java/simpledb/storage/transaction/SimpleTransactionManager.java:37-40 | Releasing one more page extends the release of the pages done so far by that page's entry. |
| LockTable.PageLockManager.constructor | src/main/java/simpledb/storage/lock/PageLockManager.java:23-27 | No holders and a new, unheld locker. |
| LockTable.PageLockManager.GetLock | src/main/java/simpledb/storage/lock/PageLockManager.java:29-35 | Returns the locker iff the page id matches, and otherwise throws IllegalArgument. |
| LockTable.PageLockManager.Record | src/main/java/simpledb/storage/lock/PageLockManager.java:37-40 | Adds tid to the holders. |
| LockTable.PageLockManager.Release | src/main/java/simpledb/storage/lock/PageLockManager.java:42-49 | A mismatched page id throws IllegalArgument and changes nothing. Otherwise tid leaves the holders and the locker. |
| LockTable.PageLockManager.ReleaseAll | src/main/java/simpledb/storage/lock/PageLockManager.java:51-54 | Always throws UnsupportedOperation. |
| LockTable.PageLockManager.HasLock | src/main/java/simpledb/storage/lock/PageLockManager.java:56-62 | True iff the page id matches and tid is a recorded holder. |
| LockTable.SimpleTransactionManager.constructor | src/main/java/simpledb/storage/transaction/SimpleTransactionManager.java:23-26 | An empty ledger for the transaction. |
| LockTable.SimpleTransactionManager.AddPage | src/main/java/simpledb/storage/transaction/SimpleTransactionManager.java:28-35 | Another transaction's id throws IllegalArgument. Otherwise the page joins the ledger. |
| LockTable.SimpleTransactionManager.Release | src/main/java/simpledb/storage/transaction/SimpleTransactionManager.java:37-40 | Releases tid on every page of the ledger. |
| LockTable.ReleaseEach | src/main/java/simpledb/storage/transaction/SimpleTransactionManager.java:37-40 | The loop releases tid on each page of the set (ReleasePages). |
| LockTable.DefaultTransactionManager.constructor | src/main/java/simpledb/storage/transaction/DefaultTransactionManager.java:22-24 | No ledgers. |
| LockTable.DefaultTransactionManager.AddPage | src/main/java/simpledb/storage/transaction/DefaultTransactionManager.java:26-30 | Creates tid's ledger if absent and adds the page. |
| LockTable.DefaultTransactionManager.Release | src/main/java/simpledb/storage/transaction/DefaultTransactionManager.java:32-38 | The table becomes ReleaseAllIn of the old table. |
| LockTable.DefaultLockManager.constructor | src/main/java/simpledb/storage/lock/DefaultLockManager.java:23-25 | No page managers and no ledgers. |
| LockTable.DefaultLockManager.GetLock | src/main/java/simpledb/storage/lock/DefaultLockManager.java:27-31 | The table becomes Open of the old table. |
| LockTable.DefaultLockManager.TryLock | src/main/java/simpledb/storage/lock/DefaultLockManager.java:27-31 | getLock followed by tryLock on the returned locker (TryLockIn after Open). |
| LockTable.DefaultLockManager.Record | src/main/java/simpledb/storage/lock/DefaultLockManager.java:33-37 | The ledger gains the page, then the page manager gains the holder (RecordIn). |
| LockTable.DefaultLockManager.Release | src/main/java/simpledb/storage/lock/DefaultLockManager.java:39-42 | A page without a manager throws NullPointer and changes nothing. Otherwise only that page's entry changes: tid leaves its holders and its locker (ReleaseEntry). |
| LockTable.DefaultLockManager.ReleaseAll | src/main/java/simpledb/storage/lock/DefaultLockManager.java:44-47 | The table becomes ReleaseAllIn of the old table. |
| LockTable.DefaultLockManager.HasLock | src/main/java/simpledb/storage/lock/DefaultLockManager.java:49-55 | False without a manager; otherwise whether tid is a recorded holder. |
| Storage.BufferPool.constructor | src/main/java/simpledb/storage/BufferPool.java:58-62 | An empty cache of the given capacity, an empty lock table and an empty log. |
| Storage.BufferPool.GetPage | src/main/java/simpledb/storage/BufferPool.java:93-110 | If the lock is refused: TransactionAborted, with the cache untouched. Otherwise the lock is recorded and held. Then: a hit moves the page to the head; an unknown table gives NoSuchElement; a negative page number gives IllegalArgument; a miss reads the page and goes through AddThenGet. |
| Storage.BufferPool.LockPage | src/main/java/simpledb/storage/BufferPool.java:93-110 | The lock part of getPage: the result is Acquire, and a grant is recorded and held. |
| Storage.BufferPool.Fetch | src/main/java/simpledb/storage/BufferPool.java:93-110 | The cache part of getPage (getOrCreate). |
| Storage.BufferPool.UnsafeReleasePage | src/main/java/simpledb/storage/BufferPool.java:121-125 | Releases exactly (tid, pid) and no other transaction's lock. Fails iff the page was never locked. |
| Storage.BufferPool.ReleaseLocks | src/main/java/simpledb/storage/BufferPool.java:132-136 | Releases every lock tid holds (ReleasedAll) and leaves the pages' marks unchanged. |
| Storage.BufferPool.HoldsLock | src/main/java/simpledb/storage/BufferPool.java:139-143 | Equals the lock manager's hasLock. |
| Storage.BufferPool.FlushPage | src/main/java/simpledb/storage/BufferPool.java:276-295 | For a dirty page: log an update record (before-image, current image), write the image to its file, mark the page clean and take a new before-image. A failing log write leaves the page dirty, its file unchanged and the log unchanged. A clean page changes nothing. |
| Storage.LogNext | src/main/java/simpledb/storage/BufferPool.java:276-295 | Flushing the next page appends its record to the log of the pages flushed before it. |
| Storage.LogOfDirty | src/main/java/simpledb/storage/BufferPool.java:276-295 | For dirty pages the log has one record per written page, in order, holding its dirtier, its before-image and its image. |
| Storage.FilesAfter | src/main/java/simpledb/storage/BufferPool.java:219-234 | Flushing pages keeps the same set of table files. |
| Storage.FlushedStored | src/main/java/simpledb/storage/HeapFile.java:97-101 | After a flush, every written page's image is stored at its page number in its table's file, and the page size is unchanged. |
| Storage.PageSizesKept | src/main/java/simpledb/storage/HeapFile.java:97-101 | Flushing never changes a file's page size. |
| Storage.FlushUntouched | src/main/java/simpledb/storage/HeapFile.java:97-101 | A page that was not written keeps its stored image, and a table with no written page keeps its whole file. |
| Storage.BufferPool.FlushEach | src/main/java/simpledb/storage/BufferPool.java:219-234 | Flushing a list of pages in order: the log grows by LogOf the snapshots and the files become FilesAfter them. |
| Storage.BufferPool.FlushAllPages | src/main/java/simpledb/storage/BufferPool.java:219-234 | Every dirty page is flushed once. Afterwards the only dirty pages are those whose log write failed. Each written page is logged and stored in its file. |
| Storage.BufferPool.FlushWhere | src/main/java/simpledb/storage/BufferPool.java:219-234 | Flushes exactly the resident pages the selection picks. Each becomes clean with a fresh before-image unless its log write fails. The log grows by their records, the files become FilesAfter, and the cache order is unchanged. |
| Storage.BufferPool.FlushSelected | src/main/java/simpledb/storage/BufferPool.java:219-234 | The loop over the resident pages flushes each selected page once, with the same log and file effects as FlushWhere. |
| Storage.BufferPool.FlushPages | src/main/java/simpledb/storage/BufferPool.java:300-311 | Exactly the pages tid dirtied are flushed and logged, and stored in their files. |
| Storage.BufferPool.FlushLogs | src/main/java/simpledb/storage/BufferPool.java:313-322 | The before-image of every page tid dirtied becomes its current image. Nothing else changes. |
| Storage.BufferPool.DiscardPage | src/main/java/simpledb/storage/BufferPool.java:244-248 | Drops the page from the cache. An absent page throws NullPointer. |
| Storage.BufferPool.DiscardPages | src/main/java/simpledb/storage/BufferPool.java:250-269 | Drops exactly the pages tid dirtied. Every other page stays. |
| Storage.BufferPool.RemoveEach | src/main/java/simpledb/storage/BufferPool.java:260-269 | Removing the collected pages one at a time drops exactly that set from the cache (DropAll). |
| Storage.BufferPool.Commit | src/main/java/simpledb/storage/BufferPool.java:152-162 | flushLogs then flushPages: tid's pages are written and marked clean, and each log record has before == after. |
| Storage.BufferPool.TransactionComplete | src/main/java/simpledb/storage/BufferPool.java:152-162 | Commit writes tid's pages as above. Abort drops tid's dirty pages and writes nothing. Both release all of tid's locks. |
| Storage.BufferPool.CommitAndRelease | src/main/java/simpledb/storage/BufferPool.java:152-162 | The commit branch followed by releasing all of tid's locks. |
| Storage.BufferPool.AbortAndRelease | src/main/java/simpledb/storage/BufferPool.java:152-162 | The abort branch: discard tid's dirty pages, leave log and files alone, release all locks. |
| Storage.BufferPool.TransactionCompleteLoggingBefore | src/main/java/simpledb/storage/BufferPool.java:152-162 | Corrected order: flushing before refreshing the before-images, so each record holds the page's state before the transaction. |
| Storage.BufferPool.FlushAndRelease | src/main/java/simpledb/storage/BufferPool.java:152-162 | The corrected commit path: tid's pages are flushed from their true before-images and logged, the files updated, and then all tid's locks released. |
| Storage.BufferPool.FlushTransaction | src/main/java/simpledb/storage/BufferPool.java:300-311 | Flushes tid's pages with their true before-images (PagesFlushedFrom) and logs them. |
| Storage.BufferPool.InsertTuple | src/main/java/simpledb/storage/BufferPool.java:179-189 | An unknown table gives NoSuchElement. On success the tuple is stored on a page of that table, the page is dirtied by tid and sits at the cache head, and no other cached page changes. |
| Storage.BufferPool.FileInsertTuple | src/main/java/simpledb/storage/HeapFile.java:117-140 | Tries pages 0.. in order, skipping full (or unreturned) ones. Inserts into the first page with room, or else appends an empty page and inserts there. The tuple lands in a free slot, and no other page changes. |
| Storage.BufferPool.FindPage | src/main/java/simpledb/storage/HeapFile.java:121-129 | Returns the first page with a free slot. Every page skipped was full or not returned by the pool. |
| Storage.BufferPool.Probe | src/main/java/simpledb/storage/HeapFile.java:121-126 | Fetches page n for writing. A refused lock gives TransactionAborted. A returned page is cached, and has room iff its empty count is positive. |
| Storage.BufferPool.ChoosePage | src/main/java/simpledb/storage/HeapFile.java:117-135 | Every page passed over was full or not returned. The chosen page is either an existing page with room or a newly appended one, and the file grows only in that case. |
| Storage.BufferPool.PlaceTuple | src/main/java/simpledb/storage/HeapFile.java:117-140 | The tuple is stored in a free slot of a cached page of the table, with its record id pointing there. No other page changes. |
| Storage.BufferPool.DeleteTuple | src/main/java/simpledb/storage/BufferPool.java:204-212 | No record id gives NullPointer and an unknown table gives NoSuchElement. On success the tuple's slot is cleared, the page is dirtied by tid, and no other cached page changes. |
| Storage.BufferPool.FileDeleteTuple | src/main/java/simpledb/storage/HeapFile.java:143-151 | Fetches the record's page for writing and clears exactly the tuple's slot. |
| Storage.BufferPool.PageFor | src/main/java/simpledb/storage/HeapFile.java:143-151 | Gets the record's page through the pool: on success the lock is held and the page is the cached one for that id. Failures are TransactionAborted, IllegalArgument or NullPointer, and no page content changes. |
| Storage.HeapFileIterator.constructor | src/main/java/simpledb/storage/HeapFile.java:181-186 | Starts at page 0, with no page iterator, neither open nor closed. |
| Storage.HeapFileIterator.Open | src/main/java/simpledb/storage/HeapFile.java:209-212 | Sets the open switch only. |
| Storage.HeapFileIterator.Rewind | src/main/java/simpledb/storage/HeapFile.java:214-218 | Back to page 0 with no page iterator. |
| Storage.HeapFileIterator.Close | src/main/java/simpledb/storage/HeapFile.java:220-223 | Sets the close gate only. |
| Storage.HeapFileIterator.Advance | src/main/java/simpledb/storage/HeapFile.java:187-207 | Closed gives NoSuchElement; not open or past the end gives null. Otherwise the next tuple of the current page, or of the first later page with a used slot. checkLast chooses the as-written last-page read (false) or the corrected one (true). |
| Storage.HeapFileIterator.LastPageYield | src/main/java/simpledb/storage/HeapFile.java:198-205 | On a last page whose only used slot is slot 1, the as-written read returns slot 0's empty entry. The corrected read returns slot 1's tuple. |
| Storage.HeapFileIterator.Walk | src/main/java/simpledb/storage/HeapFile.java:198-205 | The loop visits pages in order until one has a next tuple or the file ends, and every page passed over had no used slot. |
| Storage.BufferPool.IteratorFor | src/main/java/simpledb/storage/HeapFile.java:198-203 | A fresh page iterator at slot 0 over the cached page, with the lock held. Failures are TransactionAborted, IllegalArgument or NullPointer. |
| Storage.HeapFileIterator.Fetch | src/main/java/simpledb/storage/HeapFile.java:187-207 | Opens a page iterator on page n of the file through the pool, and reports whether it has a next tuple. |
| Aggregation.CalculateMax | src/main/java/simpledb/execution/aggregator/IntegerGroupAggregator.java:18-21 | The integer max is at least both the old max and the value, and is one of them. For strings it throws IllegalArgument. |
| Aggregation.CalculateMin | src/main/java/simpledb/execution/aggregator/IntegerGroupAggregator.java:28-31 | The integer min is at most both the old min and the value, and is one of them. For strings it throws IllegalArgument. |
| Aggregation.CalculateSum | src/main/java/simpledb/execution/aggregator/IntegerGroupAggregator.java:23-26 | The wrapped sum for an int field, and ClassCast otherwise. |
| Aggregation.Step | src/main/java/simpledb/execution/aggregator/AbstractGroupAggregator.java:30-51 | Each operator changes only its own calculator field. COUNT and AVG bump the counter. Operators outside the switch are no-ops. |
| Aggregation.ResultOf | src/main/java/simpledb/execution/aggregator/AbstractGroupAggregator.java:59-80 | getResult fails (ArithmeticException) iff AVG over no tuples. The unhandled operators give -1. |
| Aggregation.CountCounts | src/main/java/simpledb/execution/aggregator/AbstractGroupAggregator.java:30-51 | COUNT over n tuples gives counter n (wrapped). |
| Aggregation.SumWraps | src/main/java/simpledb/execution/aggregator/AbstractGroupAggregator.java:30-51 | SUM over int tuples gives the true total wrapped to 32 bits. |
| Aggregation.AvgDivides | src/main/java/simpledb/execution/aggregator/AbstractGroupAggregator.java:92-125 | AVG keeps the wrapped total and count. Its result is their truncating quotient, and an empty group throws Arithmetic. |
| Aggregation.MaxIsLargest | src/main/java/simpledb/execution/aggregator/IntegerGroupAggregator.java:18-21 | The folded max bounds every value and is one of them, or MIN_VALUE for no tuples. |
| Aggregation.MinIsSmallest | src/main/java/simpledb/execution/aggregator/IntegerGroupAggregator.java:28-31 | The folded min is below every value and is one of them, or MAX_VALUE for no tuples. |
| Aggregation.StringExtremesThrow | src/main/java/simpledb/execution/aggregator/StringGroupAggregator.java:19-32 | MIN and MAX over any non-empty string group throw IllegalArgument. |
| Aggregation.Prefix | src/main/java/simpledb/execution/aggregator/AbstractGroupAggregator.java:30-51 | Field facts about a tuple sequence hold for its prefixes. |
| Aggregation.GroupAggregator.constructor | src/main/java/simpledb/execution/aggregator/AbstractGroupAggregator.java:23-28 | Fields as given; the calculator starts at count 0, sum 0, max MIN_VALUE, min MAX_VALUE. |
| Aggregation.GroupAggregator.Aggregate | src/main/java/simpledb/execution/aggregator/AbstractGroupAggregator.java:30-51 | The calculator becomes Aggregated of the old one. A failure leaves it unchanged. |
| Aggregation.GroupAggregator.GetResult | src/main/java/simpledb/execution/aggregator/AbstractGroupAggregator.java:59-80 | Equals ResultOf of the calculator. |
| Aggregation.Factory.GroupKey | src/main/java/simpledb/execution/aggregator/AbstractAggregator.java:99-104 | Without grouping, the default key. Otherwise the tuple's group-by field. |
| Aggregation.Factory.Create | src/main/java/simpledb/execution/aggregator/AbstractAggregator.java:122-130 | INT gives an integer group aggregator and STRING a string one; no type throws NullPointer. |
| Aggregation.Factory.Schema | src/main/java/simpledb/execution/aggregator/DefaultAggregator.java:53-67 | Without grouping, one INT column named "". Otherwise (group type, group name) and (INT, aggregate name); it fails with IndexOutOfBounds iff either index is outside the tuple. |
| Aggregation.KeyedBy | src/main/java/simpledb/execution/aggregator/AbstractAggregator.java:63-70 | The tuples of one group, in arrival order. |
| Aggregation.MergeInto | src/main/java/simpledb/execution/aggregator/AbstractAggregator.java:31-35 | Sets the descriptor once. Only the tuple's group changes, and it becomes that group's calculator after aggregating the tuple (a new group starts fresh). |
| Aggregation.KeyOfNext | src/main/java/simpledb/execution/aggregator/AbstractAggregator.java:63-70 | A key occurs in ts + [t] iff it occurs in ts or is t's key. |
| Aggregation.KeyedByNone | src/main/java/simpledb/execution/aggregator/AbstractAggregator.java:63-70 | A key that never occurs has no tuples. |
| Aggregation.FoldNext | src/main/java/simpledb/execution/aggregator/AbstractGroupAggregator.java:30-51 | Folding one more tuple is one more aggregate step. |
| Aggregation.FoldStep | src/main/java/simpledb/execution/aggregator/AbstractAggregator.java:31-35 | Merging one tuple keeps every group equal to the fold of its own tuples. |
| Aggregation.GroupsAreFolds | src/main/java/simpledb/execution/aggregator/AbstractAggregator.java:31-70 | After merging a whole input, the groups are exactly the keys that occur, and each group's calculator is the fold of that key's tuples. |
| Aggregation.StringAggregator.constructor | src/main/java/simpledb/execution/StringAggregator.java:25-28 | A factory from the arguments, and no groups and no descriptor yet. |
| Aggregation.StringAggregator.GenerateTupleDescIfNeeded | src/main/java/simpledb/execution/StringAggregator.java:30-45 | Builds the output descriptor once (Factory.Schema) and keeps it afterwards. |
| Aggregation.StringAggregator.MergeTupleIntoGroup | src/main/java/simpledb/execution/aggregator/AbstractAggregator.java:31-35 | The outcome and new state are MergeInto of the old state. |
| Aggregation.StringAggregator.Iterator | src/main/java/simpledb/execution/aggregator/AbstractAggregator.java:37-55 | Without grouping, one row with the default group's result, or NullPointer if no tuple was merged. With grouping, one row (key, result) per group, each group once, failing with Arithmetic iff some group's result fails. |
| Aggregation.MergeDefault | src/main/java/simpledb/execution/aggregator/DefaultAggregator.java:31-35 | Sets the descriptor once and appends the tuple to its group's list. A failure changes no group. |
| Aggregation.GroupsPartition | src/main/java/simpledb/execution/aggregator/DefaultAggregator.java:31-76 | After merging a whole input, the groups are exactly the keys that occur, each holding that key's tuples in order. The descriptor comes from the first tuple. |
| Aggregation.DefaultAggregator.constructor | src/main/java/simpledb/execution/aggregator/DefaultAggregator.java:26-29 | A factory from the arguments, and no groups and no descriptor yet. |
| Aggregation.DefaultAggregator.GenerateTupleDescIfNeeded | src/main/java/simpledb/execution/aggregator/DefaultAggregator.java:53-67 | Builds the output descriptor once (Factory.Schema) and keeps it afterwards. |
| Aggregation.DefaultAggregator.MergeTupleIntoGroup | src/main/java/simpledb/execution/aggregator/DefaultAggregator.java:31-35 | The outcome and new state are MergeDefault of the old state. |
| Aggregation.DefaultAggregator.Iterator | src/main/java/simpledb/execution/aggregator/DefaultAggregator.java:37-51 | One row per group, each group once, holding the key (when grouping) and the group's aggregated value. |
| Operators.ChildIterator.Next | src/main/java/simpledb/execution/Insert.java:101-102 | The child yields its rows in order. |
| Operators.Insert.constructor | src/main/java/simpledb/execution/Insert.java:46-56 | Not done; the output descriptor is one anonymous INT column. |
| Operators.Insert.FetchNext | src/main/java/simpledb/execution/Insert.java:95-114 | Once done, returns null and inserts nothing. Otherwise each remaining child row is stored in turn, as a copy with a record id on one of the table's pages. On success one row holding the wrapped count is returned, and the last stored copy sits in its slot on a cached page dirtied by the transaction. An unknown table fails with NoSuchElement. |
| Operators.Insert.InsertAll | src/main/java/simpledb/execution/Insert.java:100-109 | The loop stores the child's rows in order and counts them with wraparound. Each stored copy carries a record id in the table. When the loop ends without failure, the last copy sits in its slot on a cached page dirtied by the transaction. |
| Operators.Insert.InsertNext | src/main/java/simpledb/execution/Insert.java:100-109 | One loop step: the child advances by one and its row is stored. On success the copy sits in its slot on a cached page dirtied by the transaction, and the counter stays the wrapped count of stored rows. An unknown table gives NoSuchElement. |
| Operators.Insert.Store | src/main/java/simpledb/execution/Insert.java:103-104 | Stores one tuple through the pool. On success the copy, stamped with its record id, sits in that slot on the cached page, which the transaction has dirtied. An unknown table fails with NoSuchElement. |
| Operators.CountNext | src/main/java/simpledb/execution/Insert.java:100-109 | When one more row is stored, `counter + 1` on Java ints is the wrapped number of rows stored. |
| Operators.Insert.Rewind | src/main/java/simpledb/execution/Insert.java:75-80 | Clears done and rewinds the child. |
| Operators.OutputSchema | src/main/java/simpledb/execution/Aggregate.java:167-178 | createTupleDesc: (aggregate name) without grouping, (group name, aggregate name) with grouping. It fails with IndexOutOfBounds iff an index is outside the child's columns. |
| Operators.AdvertisedSchema | src/main/java/simpledb/execution/Aggregate.java:158-178 | The descriptor getTupleDesc advertises equals the rows' descriptor iff grouping is on or the aggregate column is named "". |
| Operators.FailureSticks | src/main/java/simpledb/execution/aggregator/DefaultAggregator.java:31-35 | Once a merge fails, later tuples do not change the result. |
| Operators.Aggregate.Grouping | src/main/java/simpledb/execution/Aggregate.java:116 | The factory built from the operator's fields. |
| Operators.Aggregate.constructor | src/main/java/simpledb/execution/Aggregate.java:50-58 | Records the fields; the group type is the child's column type at gfield, or none without grouping. |
| Operators.Aggregate.GroupFieldName | src/main/java/simpledb/execution/Aggregate.java:75-78 | The child's name for the group-by column, or IndexOutOfBounds. |
| Operators.Aggregate.AggregateFieldName | src/main/java/simpledb/execution/Aggregate.java:92-95 | The child's name for the aggregate column, or IndexOutOfBounds. |
| Operators.Aggregate.Open | src/main/java/simpledb/execution/Aggregate.java:109-124 | Merges every child tuple. On success the output has one row per group key in the child's rows, holding the aggregate of that key's tuples, with the cursor at 0. |
| Operators.Aggregate.MergeChild | src/main/java/simpledb/execution/Aggregate.java:117-121 | The loop's outcome and aggregator state are MergeAllDefault of the child's rows. |
| Operators.Aggregate.FetchNext | src/main/java/simpledb/execution/Aggregate.java:133-139 | The next output row, null at the end, and NullPointer before open. |
| Operators.Aggregate.Close | src/main/java/simpledb/execution/Aggregate.java:180-185 | NullPointer before open. |
| Operators.Aggregate.Rewind | src/main/java/simpledb/execution/Aggregate.java:141-145 | close then open: NullPointer before open, otherwise the output is rebuilt from the child. |
| Operators.Aggregate.GetTupleDesc | src/main/java/simpledb/execution/Aggregate.java:158-165 | Computes createTupleDesc once and then returns the cached descriptor. |
| BTreeSplit.Next | src/main/java/simpledb/index/btree/BTreeSplitStage.java:16-109 | Each stage but the last has a successor, the next in declaration order. |
| BTreeSplit.FollowChain | src/main/java/simpledb/index/btree/BTreeSplitStage.java:16-109 | k steps from a stage reach the stage k places later, or nothing past the end. |
| BTreeSplit.ReachesTerminal | src/main/java/simpledb/index/btree/BTreeSplitStage.java:16-109 | Every stage reaches RETURN_PAGE_FOR_TUPLE by following next(), and nothing follows it. |
| BTreeSplit.StageAtOrdinal | src/main/java/simpledb/index/btree/BTreeSplitStage.java:14-109 | A stage is determined by its position. |
| BTreeSplit.TransferHalf | src/main/java/simpledb/index/btree/BTreeSplitStage.java:28-41 | The upper half (n / 2 tuples) moves to the destination in original order, the lower half stays, and no tuple is lost or duplicated. |
| BTreeSplit.PushUpper | src/main/java/simpledb/index/btree/BTreeSplitStage.java:29-35 | The stack holds the last n / 2 tuples, last first. |
| BTreeSplit.PopAll | src/main/java/simpledb/index/btree/BTreeSplitStage.java:36-40 | Popping appends the stacked tuples to the destination in original order and deletes them from the source. |
| BTreeSplit.PopOne | src/main/java/simpledb/index/btree/BTreeSplitStage.java:36-40 | One pop moves the top of the stack to the destination and deletes it from the source. |
| BTreeSplit.RemoveFirst | src/main/java/simpledb/index/btree/BTreeSplitStage.java:38-39 | Deleting a present tuple removes exactly one copy. Deleting an absent one changes nothing. |
| BTreeSplit.RemoveFirstAfter | src/main/java/simpledb/index/btree/BTreeSplitStage.java:38-39 | Deleting the first tuple of the upper half, which does not occur in the lower half, removes it from there. |
| BTreeSplit.LeafPage.constructor | src/main/java/simpledb/index/btree/BTreeSplitStage.java:28-31 | A leaf page holds the given tuples. |
| BTreeSplit.LeafPage.NumTuples | src/main/java/simpledb/index/btree/BTreeSplitStage.java:31 | The number of tuples on the page. |
| BTreeSplit.LeafPage.InsertTuple | src/main/java/simpledb/index/btree/BTreeSplitStage.java:38 | The tuple is added to the page. |
| BTreeSplit.LeafPage.DeleteTuple | src/main/java/simpledb/index/btree/BTreeSplitStage.java:39 | One copy of the tuple leaves the page (RemoveFirst). |
| BTreeSplit.Action | src/main/java/simpledb/index/btree/BTreeSplitStage.java:28-108 | TRANSFER_HALF_DATA moves the upper half. Every other stage's action leaves both pages unchanged. |

## Left out

- Disk, log and catalog: the disk is a map from page number to page image plus
  a file length. The catalog is a constructor argument of the pool. The log file
  is a ghost sequence of update records. The bytes of a page are related to its
  image by `HeapPages.PageData` and the `PageData*` lemmas. The byte streams of
  `ByteArrayFileReader` and `RandomAccessFileWriter` are not part of this model.
- A page read past the end of the file reads as an all-empty page.
  `ByteArrayFileReader` pads the short read with zeros, which decodes to that
  page.
- Storage.BufferPool.FlushPage: the `failing` set of page ids stands for a log
  write that throws IOException. The writer swallows its own IOException, so a
  file write never fails.
- Storage.BufferPool.FlushAllPages: HashMap iteration order is an arbitrary
  recency-list order. The contract is stated per page and does not fix the
  order of the log records.
- HeapPages.HeapPage.SetBeforeImage: the before-image is kept as the page image
  that `oldData` encodes, not as the byte array. `getBeforeImage` is this image
  read back as a page.
- HeapPages.HeapPage.InsertTuple: returns the tuple with its record id set,
  instead of setting the record id on the caller's object. The aliasing between
  the caller's tuple and the stored one is not modelled.
- Schema.GetSize: the tuple size is an unbounded sum. Java's `int` sum in
  `getSize` wraps past 2^31 - 1. HeapPages.NumSlots also takes the size
  unbounded, while `getNumTuples` computes `getSize() * 8 + 1` in `int`, which
  wraps once the size reaches 2^28 bytes. Schemas that wide are not modelled.
- Operators.Insert.FetchNext: only the last stored copy is proved to sit on its
  page when fetchNext returns. Earlier copies are proved to carry a record id
  in the table, but not that later insertions and evictions leave them in
  place. Operators.Insert.InsertAll has the same limit.
- HeapFiles.PageStartPosition: `pageNum * pageSize` is an unbounded product.
  Java's `int` multiplication would wrap for page numbers above 2^31 / pageSize.
  HeapFile.ReadPage and HeapFile.WritePage inherit this.
- Schema.StringBytes: a stand-in for `StringField.serialize`, which is not part
  of this model. Only its length (the declared string width) is stated.
- Schema.IntBytes: a stand-in for `IntField.serialize`. Only its length is
  stated.
- PageCache.DefaultPageManager.RemoveLast: the recency list is a sequence with
  the most recent first. Rewiring the prev/next nodes of the doubly linked list
  is not modelled. When every page is dirty, the source unlinks the tail before
  its NullPointerException, and that list corruption is not modelled either:
  the model fails without changing the cache.
- `DefaultPageManager.evict` and `BufferPool.evictPage` are not modelled. Nothing
  calls them; eviction happens through `removeLast`.
- ResourceLock.PageTransactionLocker.TryLock: decides at once. The timeout and
  sleeping of the `time`/`timeUnit` arguments are not modelled. The fast path
  that hands the flag back is unreachable when one thread runs alone, and is
  omitted.
- Concurrency is left out: `Sync`, `TransactionLocker`, `DefaultLockContext`,
  the keyed resource-lock pool, deadlock detection (`CycleDetectedException`),
  `synchronized` and the concurrent maps. Every operation runs alone.
- LockTable.DefaultLockManager: the per-page managers and the ledgers are held
  as values in one table (`Table`), not as objects. `PageLockManager` and
  `SimpleTransactionManager` are also modelled as classes of their own. The
  transaction manager's back-reference to the lock manager becomes a parameter.
- LockTable.DefaultLockManager.TryLock: combines `getLock` with `tryLock` on the
  returned locker, because the locker is a value inside the table.
- LockTable.DefaultLockManager.Record: requires the page to have a manager. In
  the source, `record` on an unopened page writes the ledger and then throws
  NullPointer, and the pool always calls `getLock` first.
- Aggregation.DefaultAggregator: `DefaultAggregatedGroup` is not part of this
  model. The value it computes from a group's tuples is the `result` parameter.
- Aggregation.StringAggregator.constructor: requires a group-by type whenever
  there is grouping. The source would throw NullPointer later, at the factory's
  `create`.
- Aggregation.DefaultAggregator.constructor: also requires a group-by type
  whenever there is grouping, for the same reason.
- Operators.Aggregate.constructor: requires a valid group-by index when grouping.
  The source reads the child's column type at construction and would throw there.
- Operators.Insert.FetchNext: the IOException that `insertTuple` could throw
  (rethrown as TransactionAbortedException) does not arise. Writes to the
  modelled disk do not fail, so any failure is reported with the pool's own
  error.
- BTreeSplit.LeafPage: `BTreeLeafPage` is not part of this model. Insert
  appends the tuple, and delete removes the first equal tuple. Sorting by key
  and re-stamping record ids are not modelled. The page is generic over its
  element type. BTreeSplit.TransferHalf's results (nothing lost, order kept)
  rely on this delete-by-value. The stage inserts into the destination before
  it deletes from the source (BTreeSplitStage.java:38-39). A delete that
  finds the tuple by the record id that insert has just re-stamped could
  behave differently, and that case is not covered.
- Stages UPDATE_OLD_PAGE_RIGHT_SIBLING to RETURN_PAGE_FOR_TUPLE have empty or
  early-returning actions in the source. They are modelled as no-ops.
- `HeapPageIterator.remove`, `toString` and `hashCode` of `TupleDesc` and
  `ColumnMeta`, and the `getChildren`/`setChildren` plumbing of the operators
  are not modelled.

## Findings

| source | as written | input that shows it | evidently intended | confidence | as-written member | corrected member |
|---|---|---|---|---|---|---|
| src/main/java/simpledb/storage/BufferPool.java:152-162 | On commit, `flushLogs(tid)` runs before `flushPages(tid)`. It sets each dirty page's before-image to its current contents, so every update record written at commit has before == after. | Any transaction that dirties a page and commits: the page's record holds the new image twice. | Log each page's image from before the transaction, then refresh the before-image after the write. | not executed | Storage.BufferPool.TransactionComplete | Storage.BufferPool.TransactionCompleteLoggingBefore |
| src/main/java/simpledb/storage/HeapFile.java:198-205 | When the scan reaches the last page, `readNext` calls `tupleIterator.next()` without `hasNext()`. It returns whatever sits at the page iterator's cursor, which may be an unused slot (null). | The last page has 8 slots and header byte 0x02, so only slot 1 is used: the read returns slot 0's empty entry, and slot 1's tuple is not yet reached. | Skip to the next used slot (`hasNext()`) before `next()`, as for the other pages. | not executed | Storage.HeapFileIterator.LastPageYield | Storage.HeapFileIterator.Advance |
