/** The buffer pool (BufferPool.java) and the heap file's operations that go
    through it (HeapFile.insertTuple, deleteTuple and the file iterator).

    The pool ties the page cache to the lock manager: a page is handed out
    only after its lock is granted and recorded, commit writes the
    transaction's dirty pages back to their files and abort drops them from
    the cache, and both then release every lock the transaction holds.

    The catalog (the map from table id to heap file) and the log file are
    global singletons in the source; here the catalog is a constructor
    argument and the log is a ghost sequence of update records. */
module Storage {
  import opened Wrappers
  import opened JavaInt
  import opened Ids
  import opened Schema
  import opened HeapPages
  import opened HeapFiles
  import opened PageCache
  import opened ResourceLock
  import opened LockTable

  /** logWrite(tid, before, after): an update record with the page's
      before-image and its current bytes. */
  datatype LogRecord = LogRecord(tid: TransactionId, before: PageImage, after: PageImage)

  // ---------------------------------------------------------------------
  // What the pool keeps true about its cached pages

  /** A cached page has its table's schema and page size, arrays of the
      sizes these give, and a page number that readPage accepted. */
  ghost predicate Fits(p: HeapPage, f: HeapFile)
  {
    p.Shape() && p.td == f.td && p.pageSize == f.pageSize && p.pid.pageNum >= 0
  }

  ghost predicate Fitted(pages: map<HeapPageId, HeapPage>, catalog: map<Int32, HeapFile>)
  {
    forall k :: k in pages ==> k.tableId in catalog && Fits(pages[k], catalog[k.tableId])
  }

  /** No two cached pages share an array. */
  ghost predicate Separate(pages: map<HeapPageId, HeapPage>)
  {
    forall k1, k2 :: k1 in pages && k2 in pages && k1 != k2 ==>
      pages[k1].header != pages[k2].header && pages[k1].tuples != pages[k2].tuples &&
      pages[k1].header as object != pages[k2].tuples
  }

  /** Every table's file is stored under its own id. */
  predicate CatalogValid(catalog: map<Int32, HeapFile>)
  {
    forall t :: t in catalog ==> catalog[t].tableId == t
  }

  ghost predicate Submap(a: map<HeapPageId, HeapPage>, b: map<HeapPageId, HeapPage>)
  {
    forall k :: k in a ==> k in b && a[k] == b[k]
  }

  /** Dropping pages from the cache keeps what holds of the others. */
  lemma FittedSub(big: map<HeapPageId, HeapPage>, small: map<HeapPageId, HeapPage>, catalog: map<Int32, HeapFile>)
    requires Fitted(big, catalog) && Separate(big) && Submap(small, big)
    ensures Fitted(small, catalog) && Separate(small)
  {
    forall k | k in small
      ensures k.tableId in catalog && Fits(small[k], catalog[k.tableId])
    {
      assert small[k] == big[k];
    }
  }

  /** After getOrCreate every resident page was resident before, or is the
      page just read, whose arrays are new: what the pool keeps true of its
      pages still holds. */
  lemma FittedAfterFetch(pages: map<HeapPageId, HeapPage>, pages': map<HeapPageId, HeapPage>, loaded: Option<HeapPage>, catalog: map<Int32, HeapFile>)
    requires Fitted(pages, catalog) && Separate(pages)
    requires forall k :: k in pages' ==> (k in pages && pages'[k] == pages[k]) || (loaded.Some? && k == loaded.value.pid && pages'[k] == loaded.value)
    requires loaded.Some? ==> loaded.value.pid.tableId in catalog && Fits(loaded.value, catalog[loaded.value.pid.tableId])
    requires loaded.Some? ==> forall k :: k in pages ==>
               pages[k].header != loaded.value.header && pages[k].tuples != loaded.value.tuples &&
               pages[k].header as object != loaded.value.tuples && pages[k].tuples as object != loaded.value.header
    ensures Fitted(pages', catalog) && Separate(pages')
  {
    forall k | k in pages'
      ensures k.tableId in catalog && Fits(pages'[k], catalog[k.tableId])
    {
      if !(k in pages && pages'[k] == pages[k]) {
        assert pages'[k] == loaded.value;
      }
    }
  }

  /** Which cached pages a flush writes back: flushAllPages takes every
      dirty page, flushPages(tid) the pages whose dirty marker is tid. */
  datatype Selection = AnyDirty | DirtiedBy(tid: TransactionId)

  predicate Selected(sel: Selection, dirtier: Option<TransactionId>)
  {
    match sel
    case AnyDirty => dirtier.Some?
    case DirtiedBy(tid) => dirtier == Some(tid)
  }

  /** What a flush changes of a cached page: its dirty marker and its
      before-image. */
  datatype Mark = Mark(dirtier: Option<TransactionId>, before: PageImage)

  /** What a flush changes of a table's file: the stored pages and the
      length (the page size does not change). */
  datatype FileState = FileState(pageSize: nat, disk: map<int, PageImage>, length: nat)

  ghost function MarkOf(p: HeapPage): Mark
    reads p
  {
    Mark(p.dirtier, p.beforeImage)
  }

  ghost function FileOf(f: HeapFile): FileState
    reads f
  {
    FileState(f.pageSize, f.disk, f.length)
  }

  /** What flushPage uses of a page: its id, its image and its mark, as
      they are when the flush starts, and whether the flush goes through.
      `failing` stands for the log file: the pages whose update record it
      cannot write. The log is asked only for a dirty page, and when it
      throws, flushPage catches the IOException and returns having changed
      nothing. */
  datatype Flushed = Flushed(pid: HeapPageId, image: PageImage, mark: Mark, written: bool)

  ghost function Snapshot(p: HeapPage, failing: set<HeapPageId>): Flushed
    requires p.Shape()
    reads p, p.header, p.tuples
  {
    Flushed(p.pid, p.Image(), MarkOf(p), !(p.dirtier.Some? && p.pid in failing))
  }

  /** A page's mark after its flush: clean, with its image as its
      before-image, or unchanged when the log failed. */
  function MarkAfter(x: Flushed): Mark
  {
    if x.written then Mark(None, x.image) else x.mark
  }

  /** The pool's invariant depends on the cache and the lock manager only. */
  twostate lemma ValidFrame(pool: BufferPool)
    requires old(pool.Valid())
    requires unchanged(pool.cache, pool.lockManager, pool.lockManager.transactionManager)
    ensures pool.Valid()
  {
  }

  /** Pages picked by distinct ids of a cache whose pages are separate and
      fit their files: they are distinct objects, and a cached page is
      among them exactly when its id was picked. */
  lemma ChosenPages(pages: map<HeapPageId, HeapPage>, catalog: map<Int32, HeapFile>, chosen: seq<HeapPage>, ids: seq<HeapPageId>)
    requires Separate(pages) && Fitted(pages, catalog) && forall k :: k in pages ==> pages[k].pid == k
    requires |ids| == |chosen| && NoDup(ids)
    requires forall j :: 0 <= j < |ids| ==> ids[j] in pages && chosen[j] == pages[ids[j]]
    ensures forall j :: 0 <= j < |chosen| ==> chosen[j].pid == ids[j]
    ensures forall j :: 0 <= j < |chosen| ==> chosen[j].pid.tableId in catalog && Fits(chosen[j], catalog[chosen[j].pid.tableId])
    ensures forall a, b :: 0 <= a < b < |chosen| ==> chosen[a] != chosen[b]
    ensures forall k :: k in pages ==> (pages[k] in chosen <==> k in ids)
  {
    forall a, b | 0 <= a < b < |chosen|
      ensures chosen[a] != chosen[b]
    {
      assert ids[a] != ids[b];
    }
    forall k | k in pages && pages[k] in chosen
      ensures k in ids
    {
      var j :| 0 <= j < |chosen| && chosen[j] == pages[k];
      assert pages[ids[j]] == pages[k];
    }
  }

  ghost function PidsOf(fl: seq<Flushed>): seq<HeapPageId>
  {
    seq(|fl|, j requires 0 <= j < |fl| => fl[j].pid)
  }

  /** writePage of page k, whose image is img, as table t's file sees it:
      a page of another table, or at a negative position, writes nothing;
      otherwise the image is stored at the page's number and the file
      grows to the end of the page when it is shorter. */
  ghost function WriteOne(fs: FileState, t: Int32, k: HeapPageId, img: PageImage): FileState
  {
    var start := PageStartPosition(k.pageNum, fs.pageSize);
    if k.tableId != t || start < 0 then fs
    else FileState(fs.pageSize, fs.disk[k.pageNum as int := img],
                   if fs.length < start + fs.pageSize then start + fs.pageSize else fs.length)
  }

  /** The update record a flush logs: one for a dirty page whose log
      write goes through, holding its transaction, its before-image and its
      image; none otherwise. */
  function Logged(x: Flushed): seq<LogRecord>
  {
    if x.written && x.mark.dirtier.Some? then [LogRecord(x.mark.dirtier.value, x.mark.before, x.image)] else []
  }

  /** The update records of the flushes fl, in order. */
  function LogOf(fl: seq<Flushed>): seq<LogRecord>
    decreases |fl|
  {
    if |fl| == 0 then []
    else LogOf(fl[..|fl| - 1]) + Logged(fl[|fl| - 1])
  }

  /** The flushes of fl that went through, in order. */
  function Kept(fl: seq<Flushed>): seq<Flushed>
    decreases |fl|
  {
    if |fl| == 0 then []
    else Kept(fl[..|fl| - 1]) + (if fl[|fl| - 1].written then [fl[|fl| - 1]] else [])
  }

  /** The log after the flushes fl of dirty pages, starting from log0: one
      record per flush that went through, in order, holding the page's
      transaction, its before-image and its image at the flush. */
  ghost predicate FlushLogged(log0: seq<LogRecord>, log: seq<LogRecord>, fl: seq<Flushed>)
  {
    |log| == |log0| + |Kept(fl)| && log[..|log0|] == log0 &&
    forall j :: 0 <= j < |Kept(fl)| ==>
      Kept(fl)[j] in fl && Kept(fl)[j].mark.dirtier.Some? &&
      log[|log0| + j] == LogRecord(Kept(fl)[j].mark.dirtier.value, Kept(fl)[j].mark.before, Kept(fl)[j].image)
  }

  /** The cache's marks after flushPages(tid), from each cached page's
      flush snapshot before: a page dirtied by tid takes the mark its flush
      leaves, every other page keeps its mark; fl lists tid's pages once
      each, as their snapshots were. */
  ghost predicate PagesFlushedFrom(before: map<HeapPageId, Flushed>, marks: map<HeapPageId, Mark>, tid: TransactionId, fl: seq<Flushed>)
  {
    marks.Keys == before.Keys &&
    (forall k :: k in marks ==> marks[k] == if before[k].mark.dirtier == Some(tid) then MarkAfter(before[k]) else before[k].mark) &&
    NoDup(PidsOf(fl)) && (forall k :: k in before ==> (k in PidsOf(fl) <==> before[k].mark.dirtier == Some(tid))) &&
    (forall j :: 0 <= j < |fl| ==> fl[j].pid in before && fl[j] == before[fl[j].pid])
  }

  /** The cache's marks after a commit, from each cached page's flush
      snapshot before: a page dirtied by tid has its former image as its
      before-image and is clean, or still marked by tid when its log write
      fails; every other page keeps its mark; fl lists tid's pages once
      each, with their images, written exactly when the log write succeeds. */
  ghost predicate CommittedFrom(before: map<HeapPageId, Flushed>, marks: map<HeapPageId, Mark>, tid: TransactionId, failing: set<HeapPageId>, fl: seq<Flushed>)
  {
    marks.Keys == before.Keys &&
    (forall k :: k in marks ==>
       marks[k] == if before[k].mark.dirtier == Some(tid) then Mark(if k in failing then Some(tid) else None, before[k].image) else before[k].mark) &&
    NoDup(PidsOf(fl)) && (forall k :: k in before ==> (k in PidsOf(fl) <==> before[k].mark.dirtier == Some(tid))) &&
    (forall j :: 0 <= j < |fl| ==> fl[j].pid in before && fl[j].image == before[fl[j].pid].image && (fl[j].written <==> fl[j].pid !in failing))
  }

  /** The log after a commit's flushes fl, starting from log0: one record
      per flush that went through, in order, for tid, with equal before-
      and after-images. */
  ghost predicate CommitLogged(log0: seq<LogRecord>, log: seq<LogRecord>, tid: TransactionId, fl: seq<Flushed>)
  {
    |log| == |log0| + |Kept(fl)| && log[..|log0|] == log0 &&
    forall j :: 0 <= j < |Kept(fl)| ==> Kept(fl)[j] in fl && log[|log0| + j] == LogRecord(tid, Kept(fl)[j].image, Kept(fl)[j].image)
  }

  /** Flushing the next page appends its record to the log. */
  lemma LogNext(log0: seq<LogRecord>, fl: seq<Flushed>, i: nat)
    requires i < |fl|
    ensures log0 + LogOf(fl[..i]) + Logged(fl[i]) == log0 + LogOf(fl[..i + 1])
  {
    assert fl[..i + 1][..i] == fl[..i];
  }

  /** Flushes of pages that were all dirty log one record for each flush
      that went through, in order: the page's transaction, its before-image
      and its image at the flush. */
  lemma {:induction false} LogOfDirty(fl: seq<Flushed>)
    requires forall j :: 0 <= j < |fl| ==> fl[j].mark.dirtier.Some?
    ensures |LogOf(fl)| == |Kept(fl)|
    ensures forall j :: 0 <= j < |Kept(fl)| ==> Kept(fl)[j] in fl && Kept(fl)[j].written
    ensures forall j :: 0 <= j < |Kept(fl)| ==>
              LogOf(fl)[j] == LogRecord(Kept(fl)[j].mark.dirtier.value, Kept(fl)[j].mark.before, Kept(fl)[j].image)
    decreases |fl|
  {
    if |fl| > 0 {
      var init := fl[..|fl| - 1];
      LogOfDirty(init);
      forall j | 0 <= j < |Kept(init)|
        ensures Kept(init)[j] in fl
      {
        assert Kept(init)[j] in init;
      }
    }
  }

  /** Two file maps over the same tables that differ at most at table t. */
  lemma OneEntryChanged(m0: map<Int32, FileState>, m1: map<Int32, FileState>, t: Int32)
    requires m0.Keys == m1.Keys && t in m0
    requires forall u :: u in m0 && u != t ==> m1[u] == m0[u]
    ensures m1 == m0[t := m1[t]]
  {
  }

  /** The table files, by table id, after the flushes fl: each flush that
      went through writes its page's image into its table's file. */
  ghost function FilesAfter(files: map<Int32, FileState>, fl: seq<Flushed>): (r: map<Int32, FileState>)
    ensures r.Keys == files.Keys
    decreases |fl|
  {
    if |fl| == 0 then files
    else
      var prev := FilesAfter(files, fl[..|fl| - 1]);
      var x := fl[|fl| - 1];
      if x.written && x.pid.tableId in prev
      then prev[x.pid.tableId := WriteOne(prev[x.pid.tableId], x.pid.tableId, x.pid, x.image)]
      else prev
  }

  /** After flushes of distinct pages at non-negative page numbers, the
      image of each page whose flush went through is stored in its table's
      file at its page number, and the page size of every file is kept. */
  lemma {:induction false} FlushedStored(files: map<Int32, FileState>, fl: seq<Flushed>, j: nat)
    requires NoDup(PidsOf(fl)) && j < |fl| && fl[j].written
    requires forall i :: 0 <= i < |fl| ==> fl[i].pid.pageNum >= 0
    requires forall t :: t in files ==> files[t].pageSize > 0
    requires fl[j].pid.tableId in files
    ensures var after := FilesAfter(files, fl)[fl[j].pid.tableId];
            after.pageSize == files[fl[j].pid.tableId].pageSize &&
            fl[j].pid.pageNum as int in after.disk && after.disk[fl[j].pid.pageNum as int] == fl[j].image
    decreases |fl|
  {
    var init := fl[..|fl| - 1];
    PageSizesKept(files, init);
    if j < |fl| - 1 {
      assert PidsOf(init) == PidsOf(fl)[..|fl| - 1];
      FlushedStored(files, init, j);
      assert PidsOf(fl)[j] != PidsOf(fl)[|fl| - 1];
    }
  }

  /** Flushes never change a file's page size. */
  lemma {:induction false} PageSizesKept(files: map<Int32, FileState>, fl: seq<Flushed>)
    ensures forall t :: t in files ==> FilesAfter(files, fl)[t].pageSize == files[t].pageSize
    decreases |fl|
  {
    if |fl| > 0 {
      PageSizesKept(files, fl[..|fl| - 1]);
    }
  }

  /** A page no flush of fl wrote keeps what its table's file held for it,
      and a table no flush of fl wrote to keeps its file. */
  lemma {:induction false} FlushUntouched(files: map<Int32, FileState>, fl: seq<Flushed>, pid: HeapPageId)
    requires pid.tableId in files
    requires forall i :: 0 <= i < |fl| && fl[i].written ==> fl[i].pid != pid
    ensures var before := files[pid.tableId].disk;
            var after := FilesAfter(files, fl)[pid.tableId].disk;
            (pid.pageNum as int in after <==> pid.pageNum as int in before) &&
            (pid.pageNum as int in before ==> after[pid.pageNum as int] == before[pid.pageNum as int])
    ensures (forall i :: 0 <= i < |fl| && fl[i].written ==> fl[i].pid.tableId != pid.tableId) ==>
              FilesAfter(files, fl)[pid.tableId] == files[pid.tableId]
    decreases |fl|
  {
    if |fl| > 0 {
      FlushUntouched(files, fl[..|fl| - 1], pid);
    }
  }

  /** The elements of a sequence, as a set. */
  ghost function Members<T>(s: seq<T>): set<T>
  {
    set x | x in s
  }

  lemma MembersNext<T>(s: seq<T>, i: nat)
    requires i < |s|
    ensures Members(s[..i + 1]) == Members(s[..i]) + {s[i]}
    ensures NoDup(s) ==> s[i] !in Members(s[..i])
  {
    assert s[..i + 1] == s[..i] + [s[i]];
    if NoDup(s) {
      assert forall j :: 0 <= j < i ==> s[..i][j] != s[i];
    }
  }

  /** The arrays of the cached pages, which tuple insertion and deletion
      write. */
  ghost function PageArrays(pages: map<HeapPageId, HeapPage>): set<object>
    reads pages.Values
  {
    (set k | k in pages :: pages[k].header as object) + (set k | k in pages :: pages[k].tuples as object)
  }

  /** The ids of the cached pages a selection takes. */
  ghost function SelectedIds(pages: map<HeapPageId, HeapPage>, sel: Selection): set<HeapPageId>
    reads pages.Values
  {
    set k | k in pages && Selected(sel, pages[k].dirtier)
  }

  lemma NoDupAppend<T>(s: seq<T>, x: T)
    requires NoDup(s) && x !in s
    ensures NoDup(s + [x])
  {
    var t := s + [x];
    forall a, b | 0 <= a < b < |t|
      ensures t[a] != t[b]
    {
      if b == |s| {
        assert t[a] == s[a];
      } else {
        assert t[a] == s[a] && t[b] == s[b];
      }
    }
  }

  /** What insertTuple followed by markDirty(true, tid) leaves on page p:
      the stored tuple is t stamped with a record id naming a slot of p,
      that slot holds it, and p is dirtied by tid. */
  ghost predicate Inserted(p: HeapPage, tid: TransactionId, t: Tuple, stored: Tuple)
    reads p, p.tuples
  {
    p.dirtier == Some(tid) && stored.recordId.Some? &&
    var slot := stored.recordId.value.tupleNum;
    stored == t.(recordId := Some(RecordId(p.pid, slot))) &&
    0 <= slot < p.numSlots && slot < p.tuples.Length && p.tuples[slot] == Some(stored)
  }

  /** Page p's slots are those it had (header h0, tuples t0) with slot
      `slot` set to `entry` and its header bit set to match; every other
      slot is as it was. */
  ghost predicate SlotSet(p: HeapPage, h0: seq<bv8>, t0: seq<Option<Tuple>>, slot: nat, entry: Option<Tuple>)
    reads p.header, p.tuples
  {
    slot < p.numSlots && slot < |t0| && |h0| == HeaderSize(p.numSlots) &&
    p.header[..] == SetSlot(h0, p.numSlots, slot, entry.Some?) && p.tuples[..] == t0[slot := entry]
  }

  /** What a successful deleteTuple leaves on page p for record rid: the
      record names p and one of its slots, and that slot is unused and
      empty. */
  ghost predicate Cleared(p: HeapPage, rid: RecordId)
    reads p.header, p.tuples
  {
    p.pid == rid.pageId && 0 <= rid.tupleNum < p.numSlots && rid.tupleNum < p.tuples.Length &&
    p.tuples[rid.tupleNum].None? && !IsSlotUsed(p.header[..], p.numSlots, rid.tupleNum)
  }

  /** What insertTuple does to f's file once it has used page n: a page
      below numPages() leaves the file as it was; otherwise n is numPages()
      and an empty page was written there, so a file that stays below 2 GiB
      has one page more. */
  twostate predicate FileGrown(f: HeapFile, n: int)
    reads f
  {
    if n < old(f.NumPages()) as int then unchanged(f)
    else
      n == old(f.NumPages()) as int && f.disk == old(f.disk)[n := EmptyImage(f.Slots())] &&
      (old(f.length) + f.pageSize <= MaxValue ==> f.NumPages() == old(f.NumPages()) + 1)
  }

  /** The lock request of getPage: getLock creates the page's manager if
      needed and its locker decides. */
  ghost function Acquire(s: Table, tid: TransactionId, pid: HeapPageId, perm: Permissions): (bool, Table)
  {
    TryLockIn(Open(s, pid), tid, pid, perm)
  }

  class BufferPool {
    const cache: DefaultPageManager
    const lockManager: DefaultLockManager
    /** Database.getCatalog(): each table's heap file. */
    const catalog: map<Int32, HeapFile>
    /** Database.getLogFile(): the update records written so far. */
    ghost var log: seq<LogRecord>

    ghost predicate Valid()
      reads cache, lockManager, lockManager.transactionManager
    {
      CacheValid() && LocksValid()
    }

    /** The lock manager's invariant, and every locker's holders recorded. */
    ghost predicate LocksValid()
      reads lockManager, lockManager.transactionManager
    {
      lockManager.Valid() && LockersRecorded(lockManager.State())
    }

    /** What flushing needs of the cache: its pages sit under their own
        ids, fit their tables' files and share no arrays. */
    ghost predicate Resident()
      reads cache
    {
      CatalogValid(catalog) && Fitted(cache.pages, catalog) && Separate(cache.pages) &&
      forall k :: k in cache.pages ==> cache.pages[k].pid == k
    }

    /** The cache's half of the invariant. */
    ghost predicate CacheValid()
      reads cache
    {
      cache.Valid() && CatalogValid(catalog) && Fitted(cache.pages, catalog) && Separate(cache.pages)
    }

    /** A pool of `numPages` pages with an empty cache and no locks. */
    constructor (numPages: Int32, catalog: map<Int32, HeapFile>)
      requires CatalogValid(catalog)
      ensures Valid() && this.catalog == catalog && log == []
      ensures cache.capacity == numPages && cache.pages == map[] && cache.order == []
      ensures lockManager.State() == Table(map[], map[])
    {
      cache := new DefaultPageManager(numPages);
      lockManager := new DefaultLockManager();
      this.catalog := catalog;
      log := [];
    }

    /** getPage: the lock is requested first, and a refusal aborts the
        transaction with nothing recorded and the cache untouched. A
        granted lock is recorded, so holdsLock answers true afterwards, and
        the page comes from the cache: the resident page, or the page read
        from the table's file, which the cache may evict at once when every
        other resident page is dirty (and then null is returned). */
    method GetPage(tid: TransactionId, pid: HeapPageId, perm: Permissions) returns (r: Result<Option<HeapPage>>, ghost loaded: Option<HeapPage>)
      requires Valid()
      modifies cache, lockManager, lockManager.transactionManager
      ensures Valid()
      ensures var (ok, locked) := Acquire(old(lockManager.State()), tid, pid, perm);
              if !ok then
                r == Err(TransactionAborted) && lockManager.State() == locked && cache.State() == old(cache.State())
              else
                lockManager.State() == RecordIn(locked, tid, pid) && HoldsLock(tid, pid) && r != Err(TransactionAborted)
      ensures r != Err(TransactionAborted) && pid in old(cache.pages) ==>
                r == Ok(Some(old(cache.pages)[pid])) && cache.pages == old(cache.pages) && cache.order == MoveToFront(old(cache.order), pid)
      ensures r != Err(TransactionAborted) && pid !in old(cache.pages) && pid.tableId !in catalog ==>
                r == Err(NoSuchElement) && cache.State() == old(cache.State())
      ensures r != Err(TransactionAborted) && pid !in old(cache.pages) && pid.tableId in catalog && pid.pageNum < 0 ==>
                r == Err(IllegalArgument) && cache.State() == old(cache.State())
      ensures r != Err(TransactionAborted) && pid !in old(cache.pages) && pid.tableId in catalog && pid.pageNum >= 0 ==>
                loaded.Some? && fresh(loaded.value) && fresh(loaded.value.header) && fresh(loaded.value.tuples) &&
                ReadFrom(catalog[pid.tableId], loaded.value, pid) &&
                (r, cache.State()) == AddThenGet(old(cache.State()), loaded.value, cache.capacity, old(DirtyIds(cache.pages)))
      ensures r.Ok? && r.value.Some? ==> pid in cache.pages && cache.pages[pid] == r.value.value
      ensures r == Ok(None) ==> pid !in cache.pages
      ensures forall k :: k in cache.pages ==>
                (k in old(cache.pages) && cache.pages[k] == old(cache.pages)[k]) || (loaded.Some? && k == pid && cache.pages[k] == loaded.value)
      ensures loaded.Some? ==> fresh(loaded.value) && fresh(loaded.value.header) && fresh(loaded.value.tuples)
      ensures r.Err? ==> r.error == TransactionAborted || (r.error == NoSuchElement && pid.tableId !in catalog) || (r.error == IllegalArgument && pid.pageNum < 0)
    {
      var ok := LockPage(tid, pid, perm);
      if !ok {
        return Err(TransactionAborted), None;
      }
      r, loaded := Fetch(pid);
    }

    /** The lock half of getPage: getLock, tryLock and, when granted, record. */
    method LockPage(tid: TransactionId, pid: HeapPageId, perm: Permissions) returns (ok: bool)
      requires lockManager.Valid() && LockersRecorded(lockManager.State())
      modifies lockManager, lockManager.transactionManager
      ensures lockManager.Valid() && LockersRecorded(lockManager.State())
      ensures cache.State() == old(cache.State()) && DirtyIds(cache.pages) == old(DirtyIds(cache.pages))
      ensures var (granted, locked) := Acquire(old(lockManager.State()), tid, pid, perm);
              ok == granted && lockManager.State() == (if granted then RecordIn(locked, tid, pid) else locked)
      ensures ok ==> HoldsLock(tid, pid)
    {
      ghost var s0 := lockManager.State();
      AcquireRecords(s0, tid, pid, perm);
      assert forall k :: k in cache.pages ==> cache.pages[k] as object != lockManager && cache.pages[k] as object != lockManager.transactionManager;
      ok := lockManager.TryLock(tid, pid, perm);
      if ok {
        lockManager.Record(tid, pid, perm);
        RecordThenHasLock(TryLockIn(Open(s0, pid), tid, pid, perm).1, tid, pid);
      }
    }

    /** The cache half of getPage: pageManager.getOrCreate. */
    method Fetch(pid: HeapPageId) returns (r: Result<Option<HeapPage>>, ghost loaded: Option<HeapPage>)
      requires CacheValid()
      modifies cache
      ensures CacheValid()
      ensures pid in old(cache.pages) ==>
                r == Ok(Some(old(cache.pages)[pid])) && cache.pages == old(cache.pages) && cache.order == MoveToFront(old(cache.order), pid)
      ensures pid !in old(cache.pages) && pid.tableId !in catalog ==>
                r == Err(NoSuchElement) && cache.State() == old(cache.State())
      ensures pid !in old(cache.pages) && pid.tableId in catalog && pid.pageNum < 0 ==>
                r == Err(IllegalArgument) && cache.State() == old(cache.State())
      ensures pid !in old(cache.pages) && pid.tableId in catalog && pid.pageNum >= 0 ==>
                loaded.Some? && fresh(loaded.value) && fresh(loaded.value.header) && fresh(loaded.value.tuples) &&
                ReadFrom(catalog[pid.tableId], loaded.value, pid) &&
                (r, cache.State()) == AddThenGet(old(cache.State()), loaded.value, cache.capacity, old(DirtyIds(cache.pages)))
      ensures r != Err(TransactionAborted)
      ensures r.Ok? && r.value.Some? ==> pid in cache.pages && cache.pages[pid] == r.value.value
      ensures r == Ok(None) ==> pid !in cache.pages
      ensures forall k :: k in cache.pages ==>
                (k in old(cache.pages) && cache.pages[k] == old(cache.pages)[k]) || (loaded.Some? && k == pid && cache.pages[k] == loaded.value)
      ensures loaded.Some? ==> fresh(loaded.value) && fresh(loaded.value.header) && fresh(loaded.value.tuples)
      ensures r.Err? ==> (r.error == NoSuchElement && pid.tableId !in catalog) || (r.error == IllegalArgument && pid.pageNum < 0)
    {
      r, loaded := cache.GetOrCreate(pid, catalog);
      FittedAfterFetch(old(cache.pages), cache.pages, loaded, catalog);
    }

    /** unsafeReleasePage: the page's manager releases tid; a page never
        passed to getLock has no manager and the call dereferences null. */
    method UnsafeReleasePage(tid: TransactionId, pid: HeapPageId) returns (r: Outcome)
      requires Valid()
      modifies lockManager
      ensures Valid()
      ensures (r, lockManager.State()) == ReleaseIn(old(lockManager.State()), tid, pid)
      ensures r.Fail? <==> !(pid in old(lockManager.lockers))
      ensures !HoldsLock(tid, pid)
      ensures forall x, q :: (x != tid || q != pid) ==> HoldsLock(x, q) == old(HoldsLock(x, q))
      ensures pid in lockManager.lockers ==> !Holds(lockManager.lockers[pid].lock, tid, ReadOnly)
      ensures forall q, x, perm :: q in old(lockManager.lockers) && x != tid ==>
                Holds(lockManager.lockers[q].lock, x, perm) == old(Holds(lockManager.lockers[q].lock, x, perm))
    {
      ReleaseOnePage(lockManager.State(), tid, pid);
      r := lockManager.Release(tid, pid);
    }

    /** transactionComplete(tid): every lock of tid is released. */
    method ReleaseLocks(tid: TransactionId)
      requires LocksValid()
      modifies lockManager, lockManager.transactionManager
      ensures LocksValid()
      ensures ReleasedAll(old(lockManager.State()), lockManager.State(), tid)
      ensures Marks() == old(Marks())
    {
      ReleaseAllClears(lockManager.State(), tid);
      lockManager.ReleaseAll(tid);
    }

    /** Each cached page's mark. */
    ghost function Marks(): map<HeapPageId, Mark>
      reads cache, cache.pages.Values
    {
      map k | k in cache.pages :: MarkOf(cache.pages[k])
    }

    /** What a flush would take of each cached page. */
    ghost function CachedSnapshots(failing: set<HeapPageId>): map<HeapPageId, Flushed>
      requires CacheValid()
      reads cache, cache.pages.Values, PageArrays(cache.pages)
    {
      map k | k in cache.pages :: Snapshot(cache.pages[k], failing)
    }

    /** The table files as states, by table id. */
    ghost function Files(): map<Int32, FileState>
      reads catalog.Values
    {
      map t | t in catalog :: FileOf(catalog[t])
    }

    /** flushPage: for a dirty page an update record (its transaction, its
        before-image, its current image) is logged first; then the page is
        written to its table's file, marked clean, and its before-image
        becomes its current image. When the log cannot write the record the
        IOException is caught: nothing is logged or written and the page
        stays dirty with its before-image. */
    method FlushPage(page: HeapPage, failing: set<HeapPageId>)
      requires CatalogValid(catalog) && page.pid.tableId in catalog && Fits(page, catalog[page.pid.tableId])
      modifies this, page, catalog[page.pid.tableId]
      ensures MarkOf(page) == MarkAfter(old(Snapshot(page, failing)))
      ensures var t := page.pid.tableId;
              Files() == if old(Snapshot(page, failing)).written
                         then old(Files())[t := WriteOne(old(Files())[t], t, page.pid, old(page.Image()))]
                         else old(Files())
      ensures log == old(log) + Logged(old(Snapshot(page, failing)))
    {
      if page.dirtier.Some? {
        if page.pid in failing {
          return;
        }
        log := log + [LogRecord(page.dirtier.value, page.beforeImage, page.Image())];
      }
      var file := catalog[page.pid.tableId];
      ghost var written := WriteOne(FileOf(file), page.pid.tableId, page.pid, page.Image());
      file.WritePage(page);
      assert FileOf(file) == written;
      page.MarkDirty(false, None);
      page.SetBeforeImage();
      forall u | u in catalog && u != page.pid.tableId
        ensures Files()[u] == old(Files())[u]
      {
        assert catalog[u].tableId != file.tableId;
      }
      OneEntryChanged(old(Files()), Files(), page.pid.tableId);
    }

    /** What flushPage needs of the pages it is given: they belong to tables
        of the catalog and fit their files, and no page is given twice. */
    ghost predicate Flushable(pages: seq<HeapPage>)
    {
      CatalogValid(catalog) &&
      (forall j :: 0 <= j < |pages| ==> pages[j].pid.tableId in catalog && Fits(pages[j], catalog[pages[j].pid.tableId])) &&
      (forall a, b :: 0 <= a < b < |pages| ==> pages[a] != pages[b])
    }

    /** flushPage of the i-th of `pages`. */
    method FlushNext(pages: seq<HeapPage>, failing: set<HeapPageId>, ghost before: seq<Flushed>, i: nat, ghost log0: seq<LogRecord>, ghost files0: map<Int32, FileState>)
      requires Flushable(pages) && |before| == |pages| && i < |pages|
      requires forall j :: i <= j < |pages| ==> Snapshot(pages[j], failing) == before[j]
      requires forall j :: 0 <= j < i ==> MarkOf(pages[j]) == MarkAfter(before[j])
      requires log == log0 + LogOf(before[..i])
      requires Files() == FilesAfter(files0, before[..i])
      modifies this, pages[i], catalog[pages[i].pid.tableId]
      ensures forall j :: i + 1 <= j < |pages| ==> Snapshot(pages[j], failing) == before[j]
      ensures forall j :: 0 <= j < i + 1 ==> MarkOf(pages[j]) == MarkAfter(before[j])
      ensures log == log0 + LogOf(before[..i + 1])
      ensures Files() == FilesAfter(files0, before[..i + 1])
    {
      var page := pages[i];
      ghost var t := page.pid.tableId;
      FlushPage(page, failing);
      forall j | 0 <= j < |pages| && j != i
        ensures MarkOf(pages[j]) == old(MarkOf(pages[j])) && (j > i ==> Snapshot(pages[j], failing) == old(Snapshot(pages[j], failing)))
      {
        assert pages[j] != page by {
          if j < i { assert pages[j] != pages[i]; } else { assert pages[i] != pages[j]; }
        }
      }
      assert before[..i + 1][..i] == before[..i];
      LogNext(log0, before, i);
    }

    /** The pages as they are now. */
    ghost method Snapshots(pages: seq<HeapPage>, failing: set<HeapPageId>) returns (before: seq<Flushed>)
      requires forall j :: 0 <= j < |pages| ==> pages[j].Shape()
      ensures |before| == |pages| && forall j :: 0 <= j < |pages| ==> before[j] == Snapshot(pages[j], failing)
    {
      before := [];
      for i := 0 to |pages|
        invariant |before| == i && forall j :: 0 <= j < i ==> before[j] == Snapshot(pages[j], failing)
      {
        before := before + [Snapshot(pages[i], failing)];
      }
    }

    /** flushPage of each of `pages`, in order. */
    method FlushEach(pages: seq<HeapPage>, failing: set<HeapPageId>) returns (ghost fl: seq<Flushed>)
      requires Flushable(pages)
      modifies this, pages, catalog.Values
      ensures |fl| == |pages|
      ensures forall j :: 0 <= j < |pages| ==> fl[j] == old(Snapshot(pages[j], failing))
      ensures forall p :: p in pages ==> MarkOf(p) == MarkAfter(old(Snapshot(p, failing)))
      ensures log == old(log) + LogOf(fl)
      ensures Files() == FilesAfter(old(Files()), fl)
    {
      fl := FlushInOrder(pages, failing);
      forall p | p in pages
        ensures MarkOf(p) == MarkAfter(old(Snapshot(p, failing)))
      {
        var j :| 0 <= j < |pages| && pages[j] == p;
      }
    }

    /** The loop of FlushEach: the marks it leaves, by position. */
    method FlushInOrder(pages: seq<HeapPage>, failing: set<HeapPageId>) returns (ghost fl: seq<Flushed>)
      requires Flushable(pages)
      modifies this, pages, catalog.Values
      ensures |fl| == |pages|
      ensures forall j :: 0 <= j < |pages| ==> fl[j] == old(Snapshot(pages[j], failing))
      ensures forall j :: 0 <= j < |pages| ==> MarkOf(pages[j]) == MarkAfter(fl[j])
      ensures log == old(log) + LogOf(fl)
      ensures Files() == FilesAfter(old(Files()), fl)
    {
      ghost var before := Snapshots(pages, failing);
      for i := 0 to |pages|
        invariant forall j :: i <= j < |pages| ==> Snapshot(pages[j], failing) == before[j]
        invariant forall j :: 0 <= j < i ==> MarkOf(pages[j]) == MarkAfter(before[j])
        invariant log == old(log) + LogOf(before[..i])
        invariant Files() == FilesAfter(old(Files()), before[..i])
      {
        FlushNext(pages, failing, before, i, old(log), old(Files()));
      }
      fl := before;
      assert before[..|pages|] == before;
    }

    /** The cached pages the selection takes, in the order the cache's
        traversal meets them, with their ids. */
    method SelectPages(sel: Selection, visit: seq<HeapPageId>) returns (chosen: seq<HeapPage>, ghost ids: seq<HeapPageId>)
      requires Resident() && NoDup(visit) && forall k :: k in visit <==> k in cache.pages
      ensures Flushable(chosen)
      ensures |ids| == |chosen| && NoDup(ids)
      ensures forall j :: 0 <= j < |ids| ==> ids[j] in cache.pages && chosen[j] == cache.pages[ids[j]] && chosen[j].pid == ids[j]
      ensures forall k :: k in cache.pages ==> (k in ids <==> Selected(sel, cache.pages[k].dirtier))
      ensures forall k :: k in cache.pages ==> (cache.pages[k] in chosen <==> Selected(sel, cache.pages[k].dirtier))
    {
      chosen, ids := PickPages(sel, visit);
      ChosenPages(cache.pages, catalog, chosen, ids);
    }

    /** The walk over the cached ids, in the order given, keeping the pages
        the selection takes. */
    method PickPages(sel: Selection, visit: seq<HeapPageId>) returns (chosen: seq<HeapPage>, ghost ids: seq<HeapPageId>)
      requires NoDup(visit) && forall k :: k in visit <==> k in cache.pages
      ensures |ids| == |chosen| && NoDup(ids)
      ensures forall j :: 0 <= j < |ids| ==> ids[j] in cache.pages && chosen[j] == cache.pages[ids[j]]
      ensures forall k :: k in cache.pages ==> (k in ids <==> Selected(sel, cache.pages[k].dirtier))
    {
      chosen, ids := [], [];
      for i := 0 to |visit|
        invariant |ids| == |chosen| && NoDup(ids)
        invariant forall j :: 0 <= j < |ids| ==> ids[j] in cache.pages && chosen[j] == cache.pages[ids[j]]
        invariant forall k :: k in cache.pages ==> (k in ids <==> k in visit[..i] && Selected(sel, cache.pages[k].dirtier))
      {
        var k := visit[i];
        var page := cache.pages[k];
        if Selected(sel, page.dirtier) {
          NoDupAppend(ids, k);
          chosen, ids := chosen + [page], ids + [k];
        }
      }
      assert visit[..|visit|] == visit;
    }

    /** The traversal shared by flushAllPages and flushPages(tid): the
        cached pages the selection takes are flushed, each once, in the
        order the cache's traversal gives. A page whose log write fails
        keeps its mark; every other selected page is written to its file
        and marked clean; nothing else changes. */
    method FlushWhere(sel: Selection, failing: set<HeapPageId>) returns (ghost fl: seq<Flushed>)
      requires Valid()
      modifies this, cache.pages.Values, catalog.Values
      ensures unchanged(lockManager, lockManager.transactionManager)
      ensures Valid() && cache.State() == old(cache.State())
      ensures NoDup(PidsOf(fl))
      ensures forall j :: 0 <= j < |fl| ==> fl[j].pid in cache.pages && fl[j] == old(Snapshot(cache.pages[fl[j].pid], failing))
      ensures forall k :: k in cache.pages ==> (k in PidsOf(fl) <==> Selected(sel, old(cache.pages[k].dirtier)))
      ensures forall k :: k in cache.pages ==>
                MarkOf(cache.pages[k]) == if Selected(sel, old(cache.pages[k].dirtier)) && k !in failing then Mark(None, old(cache.pages[k].Image())) else old(MarkOf(cache.pages[k]))
      ensures log == old(log) + LogOf(fl)
      ensures Files() == FilesAfter(old(Files()), fl)
    {
      var visit := cache.Traverse();
      ghost var pages := cache.pages;
      assert forall k :: k in pages ==> pages[k].pid == k;
      fl := FlushSelected(sel, failing, visit);
      ValidFrame(this);
      forall k | k in pages
        ensures MarkOf(pages[k]) == if Selected(sel, old(pages[k].dirtier)) && k !in failing then Mark(None, old(pages[k].Image())) else old(MarkOf(pages[k]))
      {
        assert old(Snapshot(pages[k], failing)).pid == k;
      }
    }

    /** FlushWhere with the cache's half of the invariant only. */
    method FlushSelected(sel: Selection, failing: set<HeapPageId>, visit: seq<HeapPageId>) returns (ghost fl: seq<Flushed>)
      requires Resident() && NoDup(visit) && forall k :: k in visit <==> k in cache.pages
      modifies this, cache.pages.Values, catalog.Values
      ensures NoDup(PidsOf(fl))
      ensures forall j :: 0 <= j < |fl| ==> fl[j].pid in cache.pages && fl[j] == old(Snapshot(cache.pages[fl[j].pid], failing))
      ensures forall k :: k in cache.pages ==> (k in PidsOf(fl) <==> Selected(sel, old(cache.pages[k].dirtier)))
      ensures forall k :: k in cache.pages ==>
                MarkOf(cache.pages[k]) == if Selected(sel, old(cache.pages[k].dirtier)) then MarkAfter(old(Snapshot(cache.pages[k], failing))) else old(MarkOf(cache.pages[k]))
      ensures log == old(log) + LogOf(fl)
      ensures Files() == FilesAfter(old(Files()), fl)
    {
      var chosen, ids := SelectPages(sel, visit);
      fl := FlushEach(chosen, failing);
      assert PidsOf(fl) == ids;
      forall k | k in cache.pages
        ensures MarkOf(cache.pages[k]) == if Selected(sel, old(cache.pages[k].dirtier)) then MarkAfter(old(Snapshot(cache.pages[k], failing))) else old(MarkOf(cache.pages[k]))
      {
        if !Selected(sel, old(cache.pages[k].dirtier)) {
          assert cache.pages[k] !in chosen;
        }
      }
    }

    /** flushAllPages: every dirty cached page is flushed, so afterwards
        the only dirty cached pages are those whose log write failed; one
        update record is logged per page written, holding its transaction,
        its before-image and its image, and each table's file receives the
        images of its written pages. */
    method FlushAllPages(failing: set<HeapPageId>) returns (ghost fl: seq<Flushed>)
      requires Valid()
      modifies this, cache.pages.Values, catalog.Values
      ensures unchanged(lockManager, lockManager.transactionManager)
      ensures Valid() && cache.State() == old(cache.State())
      ensures DirtyIds(cache.pages) == old(DirtyIds(cache.pages)) * failing
      ensures forall k :: k in cache.pages ==>
                MarkOf(cache.pages[k]) == if old(cache.pages[k].dirtier).Some? && k !in failing then Mark(None, old(cache.pages[k].Image())) else old(MarkOf(cache.pages[k]))
      ensures NoDup(PidsOf(fl)) && forall k :: k in cache.pages ==> (k in PidsOf(fl) <==> k in old(DirtyIds(cache.pages)))
      ensures forall j :: 0 <= j < |fl| ==> fl[j].pid in cache.pages && fl[j] == old(Snapshot(cache.pages[fl[j].pid], failing))
      ensures Files() == FilesAfter(old(Files()), fl)
      ensures FlushLogged(old(log), log, fl)
    {
      fl := FlushWhere(AnyDirty, failing);
      forall j | 0 <= j < |fl|
        ensures fl[j].mark.dirtier.Some?
      {
        assert PidsOf(fl)[j] == fl[j].pid;
      }
      LogOfDirty(fl);
    }


    /** flushPages(tid): the cached pages whose dirty marker is tid are
        flushed, each logging a record for tid unless its log write fails;
        every other page keeps its marker and before-image, and each
        table's file receives the images of the pages written. */
    method FlushPages(tid: TransactionId, failing: set<HeapPageId>) returns (ghost fl: seq<Flushed>)
      requires Valid()
      modifies this, cache.pages.Values, catalog.Values
      ensures unchanged(lockManager, lockManager.transactionManager)
      ensures Valid() && cache.State() == old(cache.State())
      ensures forall k :: k in cache.pages ==>
                MarkOf(cache.pages[k]) == if old(cache.pages[k].dirtier) == Some(tid) && k !in failing then Mark(None, old(cache.pages[k].Image())) else old(MarkOf(cache.pages[k]))
      ensures NoDup(PidsOf(fl)) && forall k :: k in cache.pages ==> (k in PidsOf(fl) <==> old(cache.pages[k].dirtier) == Some(tid))
      ensures forall j :: 0 <= j < |fl| ==> fl[j].pid in cache.pages && fl[j] == old(Snapshot(cache.pages[fl[j].pid], failing))
      ensures Files() == FilesAfter(old(Files()), fl)
      ensures FlushLogged(old(log), log, fl) && forall j :: 0 <= j < |fl| ==> fl[j].mark.dirtier == Some(tid)
    {
      fl := FlushWhere(DirtiedBy(tid), failing);
      forall j | 0 <= j < |fl|
        ensures fl[j].mark.dirtier == Some(tid)
      {
        assert PidsOf(fl)[j] == fl[j].pid;
      }
      LogOfDirty(fl);
    }

    /** flushLogs(tid): the before-image of each cached page dirtied by tid
        becomes its current image; nothing else changes. */
    method FlushLogs(tid: TransactionId)
      requires Valid()
      modifies cache.pages.Values
      ensures Valid() && cache.State() == old(cache.State())
      ensures forall k :: k in cache.pages ==>
                MarkOf(cache.pages[k]) == if old(cache.pages[k].dirtier) == Some(tid) then Mark(Some(tid), old(cache.pages[k].Image())) else old(MarkOf(cache.pages[k]))
      ensures forall k :: k in cache.pages ==> cache.pages[k].Image() == old(cache.pages[k].Image())
      ensures log == old(log) && Files() == old(Files())
    {
      var visit := cache.Traverse();
      var chosen, ids := SelectPages(DirtiedBy(tid), visit);
      RefreshEach(chosen);
      ValidFrame(this);
    }

    /** setBeforeImage on each of `pages`. */
    method RefreshEach(pages: seq<HeapPage>)
      requires Flushable(pages)
      modifies pages
      ensures forall p :: p in pages ==> MarkOf(p) == Mark(old(p.dirtier), old(p.Image()))
    {
      ghost var before := Snapshots(pages, {});
      for i := 0 to |pages|
        invariant forall j :: i <= j < |pages| ==> MarkOf(pages[j]) == before[j].mark
        invariant forall j :: 0 <= j < i ==> MarkOf(pages[j]) == Mark(before[j].mark.dirtier, before[j].image)
      {
        label Step:
        var page := pages[i];
        page.SetBeforeImage();
        forall j | 0 <= j < |pages| && j != i
          ensures MarkOf(pages[j]) == old@Step(MarkOf(pages[j]))
        {
          assert pages[j] != page by {
            if j < i { assert pages[j] != pages[i]; } else { assert pages[i] != pages[j]; }
          }
        }
      }
      forall p | p in pages
        ensures MarkOf(p) == Mark(old(p.dirtier), old(p.Image()))
      {
        var j :| 0 <= j < |pages| && pages[j] == p;
      }
    }

    /** discardPage(pid): pageManager.remove. The page leaves the cache
        whether or not it is dirty and nothing is written; an id that is not
        cached is a null dereference inside the cache. */
    method DiscardPage(pid: HeapPageId) returns (r: Outcome)
      requires Valid()
      modifies cache
      ensures Valid()
      ensures pid in old(cache.pages) ==> r == Pass && cache.State() == Drop(old(cache.State()), pid)
      ensures pid !in old(cache.pages) ==> r == Fail(NullPointer) && cache.State() == old(cache.State())
    {
      r := cache.Remove(pid);
      FittedSub(old(cache.pages), cache.pages, catalog);
    }

    /** discardPages(tid): the cached pages dirtied by tid are collected,
        then each is removed from the cache by its id. Exactly those pages
        leave; the others stay, in the same recency order. */
    method DiscardPages(tid: TransactionId)
      requires Valid()
      modifies cache
      ensures unchanged(lockManager, lockManager.transactionManager)
      ensures Valid()
      ensures cache.State() == DropAll(old(cache.State()), old(SelectedIds(cache.pages, DirtiedBy(tid))))
      ensures forall k :: k in cache.pages <==> k in old(cache.pages) && old(cache.pages[k].dirtier) != Some(tid)
    {
      var visit := cache.Traverse();
      var toBeRemoved, ids := SelectPages(DirtiedBy(tid), visit);
      RemoveEach(toBeRemoved, ids);
      assert Members(ids) == old(SelectedIds(cache.pages, DirtiedBy(tid)));
      FittedSub(old(cache.pages), cache.pages, catalog);
    }

    /** discardPage(page) for each of `pages`, whose ids are `ids`. */
    method RemoveEach(pages: seq<HeapPage>, ghost ids: seq<HeapPageId>)
      requires cache.Valid() && |ids| == |pages| && NoDup(ids)
      requires forall j :: 0 <= j < |ids| ==> ids[j] in cache.pages && pages[j].pid == ids[j]
      modifies cache
      ensures cache.Valid()
      ensures cache.State() == DropAll(old(cache.State()), Members(ids))
    {
      ghost var c0 := cache.State();
      WithoutAllEmpty(c0.order);
      assert c0.pages - {} == c0.pages;
      assert Members(ids[..0]) == {};
      for i := 0 to |pages|
        invariant cache.Valid()
        invariant cache.State() == DropAll(c0, Members(ids[..i]))
      {
        ghost var gone := Members(ids[..i]);
        MembersNext(ids, i);
        DropAllStep(c0, gone, ids[i]);
        var r := cache.Remove(pages[i].pid);
      }
      assert ids[..|pages|] == ids;
    }


    /** The commit half of transactionComplete: flushLogs(tid), then
        flushPages(tid). Since flushLogs has already made the before-image
        of each of tid's pages its current image, every update record that
        flushPages logs has equal before- and after-images, and a page whose
        log write fails stays dirty with its refreshed before-image. */
    method Commit(tid: TransactionId, failing: set<HeapPageId>) returns (ghost fl: seq<Flushed>)
      requires Valid()
      modifies this, cache.pages.Values, catalog.Values
      ensures unchanged(lockManager, lockManager.transactionManager)
      ensures Valid() && cache.State() == old(cache.State())
      ensures CommittedFrom(old(CachedSnapshots(failing)), Marks(), tid, failing, fl)
      ensures Files() == FilesAfter(old(Files()), fl)
      ensures CommitLogged(old(log), log, tid, fl)
    {
      FlushLogs(tid);
      fl := FlushRefreshed(tid, failing);
    }

    /** flushPages(tid) once the before-image of each of tid's pages is its
        current image. */
    method FlushRefreshed(tid: TransactionId, failing: set<HeapPageId>) returns (ghost fl: seq<Flushed>)
      requires Valid()
      requires forall k :: k in cache.pages && cache.pages[k].dirtier == Some(tid) ==> cache.pages[k].beforeImage == cache.pages[k].Image()
      modifies this, cache.pages.Values, catalog.Values
      ensures unchanged(lockManager, lockManager.transactionManager)
      ensures Valid() && cache.State() == old(cache.State())
      ensures forall k :: k in cache.pages ==>
                MarkOf(cache.pages[k]) ==
                  if old(cache.pages[k].dirtier) == Some(tid) then Mark(if k in failing then Some(tid) else None, old(cache.pages[k].Image()))
                  else old(MarkOf(cache.pages[k]))
      ensures NoDup(PidsOf(fl)) && forall k :: k in cache.pages ==> (k in PidsOf(fl) <==> old(cache.pages[k].dirtier) == Some(tid))
      ensures forall j :: 0 <= j < |fl| ==>
                fl[j].pid in cache.pages && fl[j].image == old(cache.pages[fl[j].pid].Image()) && (fl[j].written <==> fl[j].pid !in failing)
      ensures Files() == FilesAfter(old(Files()), fl)
      ensures CommitLogged(old(log), log, tid, fl)
    {
      fl := FlushPages(tid, failing);
      forall j | 0 <= j < |fl|
        ensures fl[j].pid in cache.pages && fl[j].image == old(cache.pages[fl[j].pid].Image()) && (fl[j].written <==> fl[j].pid !in failing)
        ensures fl[j].written ==> fl[j].mark == Mark(Some(tid), fl[j].image)
      {
        assert PidsOf(fl)[j] == fl[j].pid;
      }
      forall j | 0 <= j < |Kept(fl)|
        ensures Kept(fl)[j].mark == Mark(Some(tid), Kept(fl)[j].image)
      {
        var i :| 0 <= i < |fl| && fl[i] == Kept(fl)[j];
      }
    }

    /** transactionComplete(tid, commit): commit flushes tid's dirty pages
        (after refreshing their before-images) to their files, abort drops
        them from the cache unwritten and leaves the files alone; either way
        every lock of tid is then released, on the ledgers and on the
        lockers, and the other transactions keep theirs. */
    method TransactionComplete(tid: TransactionId, commit: bool, failing: set<HeapPageId>) returns (ghost fl: seq<Flushed>)
      requires Valid()
      modifies this, cache, cache.pages.Values, catalog.Values, lockManager, lockManager.transactionManager
      ensures Valid()
      ensures commit ==>
                cache.State() == old(cache.State()) && CommittedFrom(old(CachedSnapshots(failing)), Marks(), tid, failing, fl) &&
                Files() == FilesAfter(old(Files()), fl) && CommitLogged(old(log), log, tid, fl)
      ensures !commit ==>
                log == old(log) && Files() == old(Files()) &&
                cache.State() == DropAll(old(cache.State()), old(SelectedIds(cache.pages, DirtiedBy(tid))))
      ensures ReleasedAll(old(lockManager.State()), lockManager.State(), tid)
    {
      if commit {
        fl := CommitAndRelease(tid, failing);
      } else {
        AbortAndRelease(tid);
        fl := [];
      }
    }

    /** The commit path of transactionComplete. */
    method CommitAndRelease(tid: TransactionId, failing: set<HeapPageId>) returns (ghost fl: seq<Flushed>)
      requires Valid()
      modifies this, cache, cache.pages.Values, catalog.Values, lockManager, lockManager.transactionManager
      ensures Valid()
      ensures cache.State() == old(cache.State()) && CommittedFrom(old(CachedSnapshots(failing)), Marks(), tid, failing, fl)
      ensures Files() == FilesAfter(old(Files()), fl) && CommitLogged(old(log), log, tid, fl)
      ensures ReleasedAll(old(lockManager.State()), lockManager.State(), tid)
    {
      fl := Commit(tid, failing);
      ghost var files, marks := Files(), Marks();
      ReleaseLocks(tid);
      assert Files() == files && Marks() == marks;
    }

    /** The abort path of transactionComplete: discardPages(tid), then the
        release of tid's locks. */
    method AbortAndRelease(tid: TransactionId)
      requires Valid()
      modifies this, cache, cache.pages.Values, catalog.Values, lockManager, lockManager.transactionManager
      ensures Valid()
      ensures log == old(log) && Files() == old(Files())
      ensures cache.State() == DropAll(old(cache.State()), old(SelectedIds(cache.pages, DirtiedBy(tid))))
      ensures ReleasedAll(old(lockManager.State()), lockManager.State(), tid)
    {
      DiscardPages(tid);
      ReleaseLocks(tid);
    }

    /** transactionComplete with the update records it is meant to log:
        commit is flushPages(tid) alone, since flushPage refreshes each
        before-image right after logging it. Each record then carries the
        image the page had when it was last read or flushed, which is what
        undoing the transaction needs. */
    method TransactionCompleteLoggingBefore(tid: TransactionId, commit: bool, failing: set<HeapPageId>) returns (ghost fl: seq<Flushed>)
      requires Valid()
      modifies this, cache, cache.pages.Values, catalog.Values, lockManager, lockManager.transactionManager
      ensures Valid()
      ensures commit ==>
                cache.State() == old(cache.State()) && PagesFlushedFrom(old(CachedSnapshots(failing)), Marks(), tid, fl) &&
                Files() == FilesAfter(old(Files()), fl) && FlushLogged(old(log), log, fl)
      ensures !commit ==>
                log == old(log) && Files() == old(Files()) &&
                cache.State() == DropAll(old(cache.State()), old(SelectedIds(cache.pages, DirtiedBy(tid))))
      ensures ReleasedAll(old(lockManager.State()), lockManager.State(), tid)
    {
      if commit {
        fl := FlushAndRelease(tid, failing);
      } else {
        AbortAndRelease(tid);
        fl := [];
      }
    }

    /** FlushPages stated on the whole cache at once: the marks it leaves
        follow from the pages' flush snapshots before. */
    method FlushTransaction(tid: TransactionId, failing: set<HeapPageId>) returns (ghost fl: seq<Flushed>)
      requires Valid()
      modifies this, cache.pages.Values, catalog.Values
      ensures unchanged(lockManager, lockManager.transactionManager)
      ensures Valid() && cache.State() == old(cache.State())
      ensures PagesFlushedFrom(old(CachedSnapshots(failing)), Marks(), tid, fl)
      ensures Files() == FilesAfter(old(Files()), fl) && FlushLogged(old(log), log, fl)
    {
      ghost var snaps := CachedSnapshots(failing);
      fl := FlushPages(tid, failing);
      ghost var marks := Marks();
      forall k | k in marks
        ensures marks[k] == if snaps[k].mark.dirtier == Some(tid) then MarkAfter(snaps[k]) else snaps[k].mark
      {
        assert marks[k] == MarkOf(cache.pages[k]) && snaps[k] == old(Snapshot(cache.pages[k], failing));
      }
      forall j | 0 <= j < |fl|
        ensures fl[j].pid in snaps && fl[j] == snaps[fl[j].pid]
      {
      }
    }

    /** The commit path of transactionCompleteLoggingBefore. */
    method FlushAndRelease(tid: TransactionId, failing: set<HeapPageId>) returns (ghost fl: seq<Flushed>)
      requires Valid()
      modifies this, cache, cache.pages.Values, catalog.Values, lockManager, lockManager.transactionManager
      ensures Valid()
      ensures cache.State() == old(cache.State()) && PagesFlushedFrom(old(CachedSnapshots(failing)), Marks(), tid, fl)
      ensures Files() == FilesAfter(old(Files()), fl) && FlushLogged(old(log), log, fl)
      ensures ReleasedAll(old(lockManager.State()), lockManager.State(), tid)
    {
      fl := FlushTransaction(tid, failing);
      ReleaseLocks(tid);
    }

    /** The walk of HeapFile.insertTuple over the file's pages, from page 0
        up: each page is fetched with READ_WRITE and the walk stops at the
        first one that comes back with an empty slot. seen[m] is page m as
        it was fetched, or None when getPage gave null; a refused lock ends
        the walk with the abort. */
    method FindPage(f: HeapFile, tid: TransactionId) returns (r: Result<Option<HeapPage>>, ghost seen: seq<Option<PageImage>>)
      requires Valid() && f.tableId in catalog && catalog[f.tableId] == f
      modifies cache, lockManager, lockManager.transactionManager
      ensures Valid()
      ensures r.Err? ==> r.error == TransactionAborted
      ensures forall m :: 0 <= m < |seen| ==> seen[m].None? || EmptyCount(seen[m].value.header, f.Slots(), f.Slots()) == 0
      ensures r == Ok(None) ==> |seen| == if f.NumPages() > 0 then f.NumPages() as int else 0
      ensures r.Ok? && r.value.Some? ==>
                var p := r.value.value;
                |seen| < f.NumPages() as int && p.pid == HeapPageId(f.tableId, |seen| as Int32) &&
                p.pid in cache.pages && cache.pages[p.pid] == p &&
                EmptyCount(p.header[..], f.Slots(), f.Slots()) > 0
      ensures forall k :: k in cache.pages ==>
                (k in old(cache.pages) && cache.pages[k] == old(cache.pages)[k]) ||
                (fresh(cache.pages[k]) && fresh(cache.pages[k].header) && fresh(cache.pages[k].tuples))
    {
      seen := [];
      var pageNum: Int32 := 0;
      while pageNum < f.NumPages()
        invariant Valid() && 0 <= pageNum as int == |seen|
        invariant pageNum > 0 ==> pageNum <= f.NumPages()
        invariant forall m :: 0 <= m < |seen| ==> seen[m].None? || EmptyCount(seen[m].value.header, f.Slots(), f.Slots()) == 0
        invariant forall k :: k in cache.pages ==>
                    (k in old(cache.pages) && cache.pages[k] == old(cache.pages)[k]) ||
                    (fresh(cache.pages[k]) && fresh(cache.pages[k].header) && fresh(cache.pages[k].tuples))
        decreases f.NumPages() - pageNum
      {
        ghost var pages1 := cache.pages;
        var got, room := Probe(f, tid, pageNum);
        forall k | k in cache.pages && k in pages1 && cache.pages[k] == pages1[k]
          ensures (k in old(cache.pages) && cache.pages[k] == old(cache.pages)[k]) ||
                  (fresh(cache.pages[k]) && fresh(cache.pages[k].header) && fresh(cache.pages[k].tuples))
        {}
        if got.Err? {
          return Err(got.error), seen;
        }
        if room {
          return got, seen;
        }
        seen := seen + [if got.value.Some? then Some(got.value.value.Image()) else None];
        pageNum := pageNum + 1;
      }
      r := Ok(None);
    }

    /** One step of that walk: getPage of page n with READ_WRITE, and
        whether the page came back with an empty slot. */
    method Probe(f: HeapFile, tid: TransactionId, n: Int32) returns (r: Result<Option<HeapPage>>, room: bool)
      requires Valid() && f.tableId in catalog && catalog[f.tableId] == f && n >= 0
      modifies cache, lockManager, lockManager.transactionManager
      ensures Valid()
      ensures r.Err? ==> r.error == TransactionAborted && !room
      ensures r.Ok? && r.value.Some? ==>
                var p := r.value.value;
                p.pid == HeapPageId(f.tableId, n) && p.pid in cache.pages && cache.pages[p.pid] == p &&
                (room <==> EmptyCount(p.header[..], f.Slots(), f.Slots()) > 0)
      ensures r == Ok(None) ==> !room
      ensures forall k :: k in cache.pages ==>
                (k in old(cache.pages) && cache.pages[k] == old(cache.pages)[k]) ||
                (fresh(cache.pages[k]) && fresh(cache.pages[k].header) && fresh(cache.pages[k].tuples))
    {
      ghost var loaded;
      r, loaded := GetPage(tid, HeapPageId(f.tableId, n), ReadWrite);
      room := false;
      if r.Ok? && r.value.Some? {
        var empty := r.value.value.GetNumEmptySlots();
        room := empty != 0;
      }
    }

    /** Page p is page n of f's table and is the cache's page for its id. */
    ghost predicate PlacedAt(p: HeapPage, f: HeapFile, n: int)
      reads cache
    {
      p.pid.tableId == f.tableId && p.pid.pageNum as int == n && p.pid in cache.pages && cache.pages[p.pid] == p
    }

    /** Page p was already cached under its id, or was read just now into
        new arrays. */
    twostate predicate OldOrNew(new p: HeapPage)
      reads cache
    {
      (p.pid in old(cache.pages) && old(cache.pages)[p.pid] == p) || (fresh(p) && fresh(p.header) && fresh(p.tuples))
    }

    /** HeapFile.insertTuple: the tuple goes into the page ChoosePage
        picks, which is then marked dirty by tid and returned. A schema
        mismatch, or a full page at the end of the file, is the page's
        DbException. */
    method FileInsertTuple(f: HeapFile, tid: TransactionId, t: Tuple) returns (r: Result<HeapPage>, ghost seen: seq<Option<PageImage>>, ghost stored: Tuple)
      requires Valid() && f.tableId in catalog && catalog[f.tableId] == f
      modifies cache, lockManager, lockManager.transactionManager, f, cache.pages.Values, PageArrays(cache.pages)
      ensures Valid()
      ensures forall m :: 0 <= m < |seen| ==> seen[m].None? || EmptyCount(seen[m].value.header, f.Slots(), f.Slots()) == 0
      ensures r.Ok? ==> PlacedAt(r.value, f, |seen|) && Inserted(r.value, tid, t, stored)
      ensures r.Ok? ==> r.value in old(cache.pages.Values) || (fresh(r.value) && fresh(r.value.header) && fresh(r.value.tuples))
      ensures r.Ok? ==> FileGrown(f, |seen|)
      ensures forall k :: k in cache.pages ==>
                (k in old(cache.pages) && cache.pages[k] == old(cache.pages)[k]) ||
                (fresh(cache.pages[k]) && fresh(cache.pages[k].header) && fresh(cache.pages[k].tuples))
      ensures forall p :: p in old(cache.pages.Values) && (r.Err? || p != r.value) ==> unchanged(p.header, p.tuples)
      ensures r.Ok? && r.value in old(cache.pages.Values) ==>
                var slot := stored.recordId.value.tupleNum;
                SlotSet(r.value, old(r.value.header[..]), old(r.value.tuples[..]), slot, Some(stored))
    {
      ghost var pages0 := cache.pages.Values;
      var chosen;
      chosen, seen := ChoosePage(f, tid);
      stored := t;
      if chosen.Ok? {
        var page := chosen.value;
        forall p | p in pages0 && p != page
          ensures p.header != page.header && p.tuples != page.tuples
          ensures p.header as object != page.tuples && p.tuples as object != page.header
        {
          var k :| k in old(cache.pages) && old(cache.pages)[k] == p;
        }
        var ins := InsertInto(page, tid, t, pages0);
        if ins.Ok? {
          r, stored := Ok(chosen.value), ins.value;
        } else {
          r := Err(ins.error);
        }
      } else {
        r := Err(chosen.error);
      }
    }

    /** heapPage.insertTuple(t) followed by markDirty(true, tid). */
    method InsertInto(page: HeapPage, tid: TransactionId, t: Tuple, ghost others: set<HeapPage>) returns (r: Result<Tuple>)
      requires Valid() && page.pid in cache.pages && cache.pages[page.pid] == page
      requires forall p :: p in others && p != page ==>
                 p.header != page.header && p.tuples != page.tuples &&
                 p.header as object != page.tuples && p.tuples as object != page.header
      modifies page, page.header, page.tuples
      ensures Valid()
      ensures r.Ok? ==> Inserted(page, tid, t, r.value)
      ensures forall p :: p in others && (r.Err? || p != page) ==> unchanged(p.header, p.tuples)
      ensures r.Ok? ==>
                var slot := r.value.recordId.value.tupleNum;
                SlotSet(page, old(page.header[..]), old(page.tuples[..]), slot, Some(r.value))
    {
      assert Fits(cache.pages[page.pid], catalog[page.pid.tableId]);
      r := page.InsertTuple(t);
      if r.Ok? {
        page.MarkDirty(true, Some(tid));
      }
      ValidFrame(this);
    }

    /** The page HeapFile.insertTuple writes to: the first page of the file
        that getPage hands back with an empty slot (FindPage); when there is
        none, an empty page numbered numPages() is written at the end of the
        file and fetched. A refused lock aborts, and a null new page is a
        null dereference. */
    method ChoosePage(f: HeapFile, tid: TransactionId) returns (r: Result<HeapPage>, ghost seen: seq<Option<PageImage>>)
      requires Valid() && f.tableId in catalog && catalog[f.tableId] == f
      modifies cache, lockManager, lockManager.transactionManager, f
      ensures Valid()
      ensures forall m :: 0 <= m < |seen| ==> seen[m].None? || EmptyCount(seen[m].value.header, f.Slots(), f.Slots()) == 0
      ensures r.Ok? ==> PlacedAt(r.value, f, |seen|) && OldOrNew(r.value) && FileGrown(f, |seen|)
      ensures forall k :: k in cache.pages ==>
                (k in old(cache.pages) && cache.pages[k] == old(cache.pages)[k]) ||
                (fresh(cache.pages[k]) && fresh(cache.pages[k].header) && fresh(cache.pages[k].tuples))
    {
      var found;
      found, seen := FindPage(f, tid);
      if found.Err? {
        return Err(found.error), seen;
      }
      if found.value.Some? {
        return Ok(found.value.value), seen;
      }
      var pid := f.AppendEmptyPage();
      ghost var loaded;
      var got;
      got, loaded := GetPage(tid, pid, ReadWrite);
      if got.Err? {
        return Err(got.error), seen;
      }
      if got.value.None? {
        return Err(NullPointer), seen;
      }
      r := Ok(got.value.value);
    }

    /** insertTuple: the table's file places the tuple (FileInsertTuple);
        the page it returns is added to the cache, where it is already
        resident, so it only moves to the most recently used end, and it is
        marked dirty by tid. A table missing from the catalog is reported as
        NoSuchElementException. */
    method InsertTuple(tid: TransactionId, tableId: Int32, t: Tuple) returns (r: Outcome, ghost stored: Tuple)
      requires Valid()
      modifies cache, lockManager, lockManager.transactionManager, catalog.Values, cache.pages.Values, PageArrays(cache.pages)
      ensures Valid()
      ensures tableId !in catalog ==> r == Fail(NoSuchElement)
      ensures r.Pass? ==>
                stored.recordId.Some? &&
                var pid := stored.recordId.value.pageId;
                pid.tableId == tableId && pid in cache.pages && cache.order[0] == pid && Inserted(cache.pages[pid], tid, t, stored)
      ensures forall k :: k in cache.pages ==>
                (k in old(cache.pages) && cache.pages[k] == old(cache.pages)[k]) ||
                (fresh(cache.pages[k]) && fresh(cache.pages[k].header) && fresh(cache.pages[k].tuples))
      ensures forall p :: p in old(cache.pages.Values) && (r.Fail? || p.pid != stored.recordId.value.pageId) ==> unchanged(p.header, p.tuples)
    {
      stored := t;
      if tableId !in catalog {
        return Fail(NoSuchElement), stored;
      }
      r, stored := InsertInFile(catalog[tableId], tid, t);
    }

    /** insertTuple once the table's file is found. */
    method InsertInFile(f: HeapFile, tid: TransactionId, t: Tuple) returns (r: Outcome, ghost stored: Tuple)
      requires Valid() && f.tableId in catalog && catalog[f.tableId] == f
      modifies cache, lockManager, lockManager.transactionManager, f, cache.pages.Values, PageArrays(cache.pages)
      ensures Valid()
      ensures r.Pass? ==>
                stored.recordId.Some? &&
                var pid := stored.recordId.value.pageId;
                pid.tableId == f.tableId && pid in cache.pages && cache.order[0] == pid && Inserted(cache.pages[pid], tid, t, stored)
      ensures forall k :: k in cache.pages ==>
                (k in old(cache.pages) && cache.pages[k] == old(cache.pages)[k]) ||
                (fresh(cache.pages[k]) && fresh(cache.pages[k].header) && fresh(cache.pages[k].tuples))
      ensures forall p :: p in old(cache.pages.Values) && (r.Fail? || p.pid != stored.recordId.value.pageId) ==> unchanged(p.header, p.tuples)
    {
      ghost var pages0 := cache.pages.Values;
      var inserted;
      inserted, stored := PlaceTuple(f, tid, t);
      if inserted.Err? {
        return Fail(inserted.error), stored;
      }
      ghost var pid := inserted.value.pid;
      assert stored.recordId.value.pageId == pid && cache.pages[pid] == inserted.value;
      Promote(inserted.value, tid, t, stored, pages0);
      r := Pass;
    }

    /** FileInsertTuple, keeping only what insertTuple goes on to use. */
    method PlaceTuple(f: HeapFile, tid: TransactionId, t: Tuple) returns (r: Result<HeapPage>, ghost stored: Tuple)
      requires Valid() && f.tableId in catalog && catalog[f.tableId] == f
      modifies cache, lockManager, lockManager.transactionManager, f, cache.pages.Values, PageArrays(cache.pages)
      ensures Valid()
      ensures r.Ok? ==> r.value.pid.tableId == f.tableId && r.value.pid in cache.pages && cache.pages[r.value.pid] == r.value
      ensures r.Ok? ==> Inserted(r.value, tid, t, stored)
      ensures r.Ok? ==> r.value in old(cache.pages.Values) || (fresh(r.value) && fresh(r.value.header) && fresh(r.value.tuples))
      ensures forall k :: k in cache.pages ==>
                (k in old(cache.pages) && cache.pages[k] == old(cache.pages)[k]) ||
                (fresh(cache.pages[k]) && fresh(cache.pages[k].header) && fresh(cache.pages[k].tuples))
      ensures forall p :: p in old(cache.pages.Values) && (r.Err? || p != r.value) ==> unchanged(p.header, p.tuples)
      ensures r.Ok? && r.value in old(cache.pages.Values) ==>
                var slot := stored.recordId.value.tupleNum;
                SlotSet(r.value, old(r.value.header[..]), old(r.value.tuples[..]), slot, Some(stored))
    {
      ghost var seen;
      r, seen, stored := FileInsertTuple(f, tid, t);
    }

    /** The loop body of insertTuple: pageManager.add on a page the cache
        already holds only moves it to the most recently used end; then
        markDirty(true, tid). */
    method Promote(page: HeapPage, tid: TransactionId, ghost t: Tuple, ghost stored: Tuple, ghost others: set<HeapPage>)
      requires Valid() && page.pid in cache.pages && cache.pages[page.pid] == page
      requires Inserted(page, tid, t, stored)
      modifies cache, page
      ensures Valid() && Inserted(page, tid, t, stored)
      ensures forall p :: p in others ==> unchanged(p.header, p.tuples)
      ensures cache.pages == old(cache.pages) && cache.order == MoveToFront(old(cache.order), page.pid)
      ensures page.dirtier == Some(tid)
    {
      var added := cache.Add(page);
      page.MarkDirty(true, Some(tid));
    }

    /** HeapFile.deleteTuple: the page named by the tuple's record id is
        fetched for writing and the tuple is deleted from it; the page is not
        marked dirty here. A missing record id, or a null page, is a null
        dereference; a refused lock or a failed delete is passed on. The
        record's table is one of the catalog's: deleteTuple looks its file up
        by that id. */
    method FileDeleteTuple(tid: TransactionId, t: Tuple) returns (r: Result<HeapPage>)
      requires Valid()
      requires t.recordId.Some? ==> t.recordId.value.pageId.tableId in catalog
      modifies cache, lockManager, lockManager.transactionManager, PageArrays(cache.pages)
      ensures Valid()
      ensures t.recordId.None? ==> r == Err(NullPointer)
      ensures r.Ok? ==>
                t.recordId.Some? && Cleared(r.value, t.recordId.value) &&
                r.value.pid in cache.pages && cache.pages[r.value.pid] == r.value &&
                (r.value in old(cache.pages.Values) || (fresh(r.value) && fresh(r.value.header) && fresh(r.value.tuples)))
      ensures forall p :: p in old(cache.pages.Values) && (r.Err? || p != r.value) ==> unchanged(p.header, p.tuples)
      ensures r.Ok? && r.value in old(cache.pages.Values) ==>
                var tn := t.recordId.value.tupleNum;
                SlotSet(r.value, old(r.value.header[..]), old(r.value.tuples[..]), tn, None)
    {
      if t.recordId.None? {
        return Err(NullPointer);
      }
      ghost var pages0 := cache.pages.Values;
      var got := PageFor(tid, t.recordId.value.pageId, ReadWrite);
      if got.Ok? {
        var page := got.value;
        forall p | p in pages0 && p != page
          ensures p.header != page.header && p.tuples != page.tuples
          ensures p.header as object != page.tuples && p.tuples as object != page.header
        {
          var k :| k in old(cache.pages) && old(cache.pages)[k] == p;
        }
        ghost var h1, t1 := page.header[..], page.tuples[..];
        assert page in pages0 ==> h1 == old(page.header[..]) && t1 == old(page.tuples[..]);
        var deleted := DeleteFrom(page, t, pages0);
        r := if deleted.Pass? then Ok(page) else Err(deleted.error);
      } else {
        r := Err(got.error);
      }
    }

    /** page.deleteTuple(t) on a cached page. */
    method DeleteFrom(page: HeapPage, t: Tuple, ghost others: set<HeapPage>) returns (r: Outcome)
      requires Valid() && page.pid in cache.pages && cache.pages[page.pid] == page
      requires forall p :: p in others && p != page ==>
                 p.header != page.header && p.tuples != page.tuples &&
                 p.header as object != page.tuples && p.tuples as object != page.header
      modifies page.header, page.tuples
      ensures forall p :: p in others && (r.Fail? || p != page) ==> unchanged(p.header, p.tuples)
      ensures Valid()
      ensures r.Pass? ==> t.recordId.Some? && Cleared(page, t.recordId.value)
      ensures r.Pass? ==>
                var tn := t.recordId.value.tupleNum;
                SlotSet(page, old(page.header[..]), old(page.tuples[..]), tn, None)
      ensures r.Fail? ==> unchanged(page.header, page.tuples)
    {
      assert Fits(cache.pages[page.pid], catalog[page.pid.tableId]);
      r := page.DeleteTuple(t);
      ValidFrame(this);
    }

    /** getPage as deleteTuple and the file iterator use it: a null page is
        dereferenced at once, so it is reported as NullPointerException. */
    method PageFor(tid: TransactionId, pid: HeapPageId, perm: Permissions) returns (r: Result<HeapPage>)
      requires Valid() && pid.tableId in catalog
      modifies cache, lockManager, lockManager.transactionManager
      ensures Valid()
      ensures r.Err? ==> r.error in {TransactionAborted, IllegalArgument, NullPointer}
      ensures r.Ok? ==> r.value.Shape()
      ensures r.Ok? ==>
                HoldsLock(tid, pid) && r.value.pid == pid && pid in cache.pages && cache.pages[pid] == r.value &&
                ((pid in old(cache.pages) && old(cache.pages)[pid] == r.value) || (fresh(r.value) && fresh(r.value.header) && fresh(r.value.tuples)))
      ensures r.Ok? ==> r.value in old(cache.pages.Values) || (fresh(r.value) && fresh(r.value.header) && fresh(r.value.tuples))
      ensures forall p :: p in old(cache.pages.Values) ==> unchanged(p.header, p.tuples)
      ensures forall k :: k in cache.pages ==>
                (k in old(cache.pages) && cache.pages[k] == old(cache.pages)[k]) ||
                (fresh(cache.pages[k]) && fresh(cache.pages[k].header) && fresh(cache.pages[k].tuples))
    {
      var got;
      ghost var loaded;
      got, loaded := GetPage(tid, pid, perm);
      if got.Err? {
        return Err(got.error);
      }
      if got.value.None? {
        return Err(NullPointer);
      }
      r := Ok(got.value.value);
      assert Fits(cache.pages[pid], catalog[pid.tableId]);
    }

    /** The file iterator's fetch: getPage(tid, pid, READ_ONLY) and then
        page.iterator(), a fresh HeapPageIterator at slot 0. */
    method IteratorFor(tid: TransactionId, pid: HeapPageId) returns (r: Result<HeapPageIterator>)
      requires Valid() && pid.tableId in catalog
      modifies cache, lockManager, lockManager.transactionManager
      ensures Valid()
      ensures r.Err? ==> r.error in {TransactionAborted, IllegalArgument, NullPointer}
      ensures r.Ok? ==>
                fresh(r.value) && r.value.indexer == 0 && r.value.page.Scannable() && r.value.page.pid == pid &&
                HoldsLock(tid, pid) && pid in cache.pages && cache.pages[pid] == r.value.page
    {
      var got := PageFor(tid, pid, ReadOnly);
      if got.Err? {
        return Err(got.error);
      }
      var it := new HeapPageIterator(got.value);
      r := Ok(it);
    }

    /** deleteTuple: the record's table is looked up in the catalog, its
        file deletes the tuple (FileDeleteTuple), and the page it returns is
        marked dirty by tid. A missing record id is a null dereference; a
        table missing from the catalog is reported as NoSuchElementException. */
    method DeleteTuple(tid: TransactionId, t: Tuple) returns (r: Outcome)
      requires Valid()
      modifies cache, lockManager, lockManager.transactionManager, cache.pages.Values, PageArrays(cache.pages)
      ensures Valid()
      ensures t.recordId.None? ==> r == Fail(NullPointer)
      ensures t.recordId.Some? && t.recordId.value.pageId.tableId !in catalog ==> r == Fail(NoSuchElement)
      ensures r.Pass? ==>
                t.recordId.Some? &&
                var pid := t.recordId.value.pageId;
                pid in cache.pages && cache.pages[pid].dirtier == Some(tid) && Cleared(cache.pages[pid], t.recordId.value)
      ensures forall p :: p in old(cache.pages.Values) && (r.Fail? || p.pid != t.recordId.value.pageId) ==> unchanged(p.header, p.tuples)
      ensures r.Pass? && t.recordId.value.pageId in old(cache.pages) && cache.pages[t.recordId.value.pageId] == old(cache.pages)[t.recordId.value.pageId] ==>
                var p, tn := cache.pages[t.recordId.value.pageId], t.recordId.value.tupleNum;
                SlotSet(p, old(p.header[..]), old(p.tuples[..]), tn, None)
    {
      if t.recordId.None? {
        return Fail(NullPointer);
      }
      if t.recordId.value.pageId.tableId !in catalog {
        return Fail(NoSuchElement);
      }
      var deleted := FileDeleteTuple(tid, t);
      if deleted.Ok? {
        var page := deleted.value;
        label Deleted:
        page.MarkDirty(true, Some(tid));
        ValidFrame@Deleted(this);
        r := Pass;
      } else {
        r := Fail(deleted.error);
      }
    }

    /** holdsLock: the lock manager's record, not the locker's state. */
    function HoldsLock(tid: TransactionId, pid: HeapPageId): (r: bool)
      reads lockManager
      ensures r <==> HasLockIn(lockManager.lockers, tid, pid)
    {
      lockManager.HasLock(tid, pid)
    }
  }

  /** What HeapPageIterator.next() hands back at slot k: the slot's entry
      (null for an unused slot), or null past the last slot. */
  ghost function SlotAt(p: HeapPage, k: nat): Option<Tuple>
    reads p.tuples
  {
    if k < p.numSlots && k < p.tuples.Length then p.tuples[k] else None
  }

  /** A page none of whose slots is used. */
  ghost predicate NoneUsed(p: HeapPage)
    reads p.header
  {
    NextUsed(p.header[..], p.numSlots, 0) >= p.numSlots
  }

  /** What readNext saw of a page it fetched: its id, its slot count and
      its header bytes. */
  datatype Seen = Seen(pid: HeapPageId, numSlots: nat, header: seq<bv8>)

  ghost function Glimpse(p: HeapPage): (s: Seen)
    reads p.header
    ensures s.pid == p.pid && s.numSlots == p.numSlots && s.header == p.header[..]
  {
    Seen(p.pid, p.numSlots, p.header[..])
  }

  /** HeapFileIterator: the file's tuples page by page, each page fetched
      through the buffer pool with a READ_ONLY lock and walked with its
      HeapPageIterator. */
  class HeapFileIterator {
    const tid: TransactionId
    const file: HeapFile
    const pool: BufferPool
    var pageNum: nat
    var tupleIterator: Option<HeapPageIterator>
    /** switcher: set by open. */
    var isOpen: bool
    /** closeGate: set by close. */
    var isClosed: bool

    ghost predicate Valid()
      reads this, pool.cache, pool.lockManager, pool.lockManager.transactionManager
    {
      pool.Valid() && file.tableId in pool.catalog && pool.catalog[file.tableId] == file &&
      (tupleIterator.Some? ==> tupleIterator.value.page.Scannable())
    }

    /** The page iterator readNext may advance. */
    ghost function Current(): set<object>
      reads this
    {
      if tupleIterator.Some? then {tupleIterator.value} else {}
    }

    constructor (tid: TransactionId, file: HeapFile, pool: BufferPool)
      ensures this.tid == tid && this.file == file && this.pool == pool
      ensures pageNum == 0 && tupleIterator.None? && !isOpen && !isClosed
    {
      this.tid := tid;
      this.file := file;
      this.pool := pool;
      pageNum := 0;
      tupleIterator := None;
      isOpen := false;
      isClosed := false;
    }

    /** open: compareAndSet(false, true) on the switcher. */
    method Open()
      modifies this
      ensures isOpen && pageNum == old(pageNum) && tupleIterator == old(tupleIterator) && isClosed == old(isClosed)
    {
      isOpen := true;
    }

    /** rewind: back to page 0 with no page iterator. */
    method Rewind()
      modifies this
      ensures pageNum == 0 && tupleIterator.None? && isOpen == old(isOpen) && isClosed == old(isClosed)
    {
      pageNum := 0;
      tupleIterator := None;
    }

    /** The pages `visited` are pages from..from+|visited|-1 of the file, in
        order, and all but the last had no used slot when fetched. */
    ghost predicate Walked(visited: seq<Seen>, from: int)
    {
      (forall j :: 0 <= j < |visited| ==>
         visited[j].pid.tableId == file.tableId && visited[j].pid.pageNum as int == from + j) &&
      (forall j :: 0 <= j < |visited| - 1 ==> NextUsed(visited[j].header, visited[j].numSlots, 0) >= visited[j].numSlots)
    }

    /** Page iterator `it`, over a freshly fetched page, is at the page's
        first used slot when hasNext was asked (`checked`), with `more` its
        answer, and still at slot 0 otherwise. */
    ghost predicate Fetched(it: HeapPageIterator, checked: bool, more: bool)
      reads it, it.page.header
    {
      (checked ==> it.indexer == NextUsed(it.page.header[..], it.page.numSlots, 0) && (more <==> it.indexer < it.page.numSlots)) &&
      (!checked ==> it.indexer == 0 && !more)
    }

    /** A freshly fetched page iterator: Fetched, over a page that the
        glimpse `seen` records. */
    ghost predicate Landed(it: HeapPageIterator, checked: bool, more: bool, seen: Seen)
      reads it, it.page.header
    {
      it.page.Scannable() && Fetched(it, checked, more) && Glimpse(it.page) == seen
    }

    /** What readNext's next() returned: `t` is slot `slot` of iterator
        `it`, the first used slot at or after `start` when hasNext placed
        the iterator (`checked`), and slot 0 only when hasNext was skipped
        on the file's last page with `checkLast` off; a slot past the end
        is read only once the file is exhausted (`atEnd`). */
    ghost predicate Yielded(it: HeapPageIterator, t: Option<Tuple>, slot: nat, start: nat, checked: bool, checkLast: bool, atEnd: bool)
      reads it.page.header, it.page.tuples
    {
      t == SlotAt(it.page, slot) &&
      (checked ==> slot == NextUsed(it.page.header[..], it.page.numSlots, start)) &&
      (!checked ==> slot == 0 && !checkLast && atEnd) &&
      (slot >= it.page.numSlots ==> atEnd)
    }

    /** readNext as written, with checkLast false; with checkLast true,
        hasNext is also asked of the last page's iterator before next().
        A closed iterator throws NoSuchElementException; one not yet
        opened, or past the last page, yields null; otherwise Scan reads
        the next tuple. `visited` are the pages fetched, `checked` says
        whether hasNext placed the iterator that next() read at `slot`,
        hasNext starting from `start` (see Yielded). */
    method Advance(checkLast: bool)
      returns (r: Result<Option<Tuple>>, ghost visited: seq<Seen>, ghost checked: bool, ghost start: nat, ghost slot: nat)
      requires Valid()
      modifies this, pool.cache, pool.lockManager, pool.lockManager.transactionManager, Current()
      ensures Valid()
      ensures old(isClosed) ==> r == Err(NoSuchElement) && unchanged(this)
      ensures !old(isClosed) && (!old(isOpen) || old(pageNum) > file.NumPages() as int) ==> r == Ok(None) && unchanged(this)
      ensures r.Err? ==> r.error in {NoSuchElement, TransactionAborted, IllegalArgument, NullPointer}
      ensures isOpen == old(isOpen) && isClosed == old(isClosed) && old(pageNum) + |visited| == pageNum
      ensures Walked(visited, old(pageNum))
      ensures r.Ok? && !old(isClosed) && old(isOpen) && old(pageNum) <= file.NumPages() as int ==>
                tupleIterator.Some? && pageNum <= file.NumPages() as int &&
                Yielded(tupleIterator.value, r.value, slot, start, checked, checkLast, pageNum == file.NumPages() as int) &&
                (|visited| == 0 ==> tupleIterator == old(tupleIterator) && checked && start == old(tupleIterator.value.indexer)) &&
                (|visited| > 0 ==>
                   Glimpse(tupleIterator.value.page) == visited[|visited| - 1] && fresh(tupleIterator.value) && start == 0 &&
                   (checked <==> checkLast || pageNum < file.NumPages() as int))
    {
      checked, start, slot := true, 0, 0;
      visited := [];
      if isClosed {
        r := Err(NoSuchElement);
      } else if !isOpen || pageNum > file.NumPages() as int {
        r := Ok(None);
      } else {
        var n, current;
        r, n, current, visited, checked, start, slot := Scan(checkLast);
        pageNum, tupleIterator := n, current;
      }
    }

    /** What Advance yields once it has fetched the file's last page
        (`|visited| > 0`, so `start` is 0, and `checked` is `checkLast`),
        when that page has eight slots and header byte 0x02: slot 0 empty,
        slot 1 used. As written (checkLast off) next() reads slot 0 and
        readNext returns null although a tuple remains; asking hasNext
        first (checkLast on) yields slot 1's tuple. */
    lemma LastPageYield(it: HeapPageIterator, t: Option<Tuple>, slot: nat, checked: bool, checkLast: bool)
      requires it.page.Valid() && it.page.numSlots == 8 && it.page.header[..] == [0x02]
      requires Yielded(it, t, slot, 0, checked, checkLast, true) && (checked <==> checkLast)
      ensures !checkLast ==> slot == 0 && t.None?
      ensures checkLast ==> slot == 1 && t == it.page.tuples[1] && t.Some?
    {
      var h := it.page.header[..];
      assert !IsSlotUsed(h, 8, 0) && IsSlotUsed(h, 8, 1);
      assert it.page.tuples[..][0].None? && it.page.tuples[..][1].Some?;
      if checkLast {
        assert NextUsed(h, 8, 0) == NextUsed(h, 8, 1) == 1;
      }
    }

    /** readNext on an open iterator within the file: the current page
        iterator yields its next used slot if it has one; otherwise Walk
        fetches pages, and next() reads the current slot of the iterator
        it ends with, a null dereference when there is none. Returns the
        page number and the page iterator readNext leaves behind. */
    method Scan(checkLast: bool)
      returns (r: Result<Option<Tuple>>, n: nat, current: Option<HeapPageIterator>,
               ghost visited: seq<Seen>, ghost checked: bool, ghost start: nat, ghost slot: nat)
      requires Valid() && isOpen && !isClosed && pageNum <= file.NumPages() as int
      modifies pool.cache, pool.lockManager, pool.lockManager.transactionManager, Current()
      ensures pool.Valid() && pageNum + |visited| == n <= file.NumPages() as int
      ensures Walked(visited, pageNum)
      ensures current.Some? ==> current.value.page.Scannable()
      ensures r.Err? ==> r.error in {TransactionAborted, IllegalArgument, NullPointer}
      ensures r.Ok? ==>
                current.Some? && Yielded(current.value, r.value, slot, start, checked, checkLast, n == file.NumPages() as int)
      ensures r.Ok? && |visited| == 0 ==> current == tupleIterator && checked && start == old(tupleIterator.value.indexer)
      ensures r.Ok? && |visited| > 0 ==>
                Glimpse(current.value.page) == visited[|visited| - 1] && fresh(current.value) && start == 0 &&
                (checked <==> checkLast || n < file.NumPages() as int)
    {
      var more := false;
      start, slot := 0, 0;
      if tupleIterator.Some? {
        start := tupleIterator.value.indexer;
        more := tupleIterator.value.HasNext();
      }
      var walked;
      walked, n, current, more, visited, checked := Walk(pageNum, tupleIterator, more, checkLast);
      if |visited| > 0 {
        start := 0;
      }
      if walked.Fail? {
        r := Err(walked.error);
      } else {
        r, slot := Finish(current);
      }
    }

    /** readNext's closing `tupleIterator.next()` on the page iterator
        `current`: the tuple in its current slot, or a null dereference
        when there is no page iterator. */
    static method Finish(current: Option<HeapPageIterator>) returns (r: Result<Option<Tuple>>, ghost slot: nat)
      requires current.Some? ==> current.value.page.Scannable()
      modifies if current.Some? then {current.value} else {}
      ensures current.None? ==> r == Err(NullPointer)
      ensures current.Some? ==>
                r.Ok? && slot == old(current.value.indexer) && r.value == SlotAt(current.value.page, slot)
    {
      slot := 0;
      if current.None? {
        r := Err(NullPointer);
      } else {
        slot := current.value.indexer;
        var t := current.value.Next();
        r := Ok(t);
      }
    }

    /** readNext's loop, on the page number `from` and the page iterator
        `current0` it starts from: while pages remain and the current
        iterator has no used slot left (`more0` is hasNext's answer), the
        next page is fetched; hasNext is asked of its iterator only when
        `checkLast` holds or it is not the last page. Returns the page
        number and the iterator the loop ends with. */
    method Walk(from: nat, current0: Option<HeapPageIterator>, more0: bool, checkLast: bool)
      returns (r: Outcome, n: nat, current: Option<HeapPageIterator>, more: bool,
               ghost visited: seq<Seen>, ghost checked: bool)
      requires pool.Valid() && file.tableId in pool.catalog && from <= file.NumPages() as int
      requires current0.None? ==> !more0
      requires current0.Some? ==> current0.value.page.Scannable()
      modifies pool.cache, pool.lockManager, pool.lockManager.transactionManager
      ensures pool.Valid() && from + |visited| == n <= file.NumPages() as int
      ensures Walked(visited, from)
      ensures r.Fail? ==> r.error in {TransactionAborted, IllegalArgument, NullPointer}
      ensures r.Pass? ==> more || n == file.NumPages() as int
      ensures |visited| == 0 ==> current == current0 && more == more0 && checked
      ensures |visited| > 0 ==> current.Some? && current.value.page.Scannable()
      ensures r.Pass? && |visited| > 0 ==>
                fresh(current.value) && Fetched(current.value, checked, more) && Glimpse(current.value.page) == visited[|visited| - 1] &&
                (checked <==> checkLast || n < file.NumPages() as int)
    {
      var total := file.NumPages() as int;
      n, current := from, current0;
      more, visited, checked, r := more0, [], true, Pass;
      while n < total && !more
        invariant pool.Valid() && from + |visited| == n <= total
        invariant Walked(visited, from)
        invariant |visited| == 0 ==> current == current0 && more == more0 && checked
        invariant |visited| > 0 ==>
                    current.Some? && fresh(current.value) && Landed(current.value, checked, more, visited[|visited| - 1]) &&
                    (checked <==> checkLast || n < total)
        decreases total - n
      {
        var ask := n + 1 < total || checkLast;
        var fetched, next;
        ghost var seen;
        fetched, next, seen := Fetch(n, ask);
        if fetched.Err? {
          return Fail(fetched.error), n, current, more, visited, checked;
        }
        WalkedExtend(visited, from, seen);
        n, current, more := n + 1, Some(fetched.value), next;
        visited := visited + [seen];
        checked := ask;
      }
    }

    /** Walked grows by one page: the next page number, after a last page
        with no used slot. */
    lemma WalkedExtend(visited: seq<Seen>, from: int, s: Seen)
      requires Walked(visited, from)
      requires s.pid.tableId == file.tableId && s.pid.pageNum as int == from + |visited|
      requires |visited| > 0 ==> NextUsed(visited[|visited| - 1].header, visited[|visited| - 1].numSlots, 0) >= visited[|visited| - 1].numSlots
      ensures Walked(visited + [s], from)
    {
    }

    /** One round of readNext's loop: page n is fetched READ_ONLY and its
        fresh iterator returned; the loop condition then asks hasNext of
        it when `ask` holds (in the source, when pages remain). */
    method Fetch(n: nat, ask: bool) returns (r: Result<HeapPageIterator>, more: bool, ghost seen: Seen)
      requires pool.Valid() && file.tableId in pool.catalog && n <= MaxValue
      modifies pool.cache, pool.lockManager, pool.lockManager.transactionManager
      ensures pool.Valid()
      ensures r.Err? ==> r.error in {TransactionAborted, IllegalArgument, NullPointer}
      ensures r.Ok? ==>
                fresh(r.value) && r.value.page.Scannable() &&
                r.value.page.pid.tableId == file.tableId && r.value.page.pid.pageNum as int == n &&
                Landed(r.value, ask, more, seen)
    {
      more := false;
      r := pool.IteratorFor(tid, HeapPageId(file.tableId, n as Int32));
      if r.Ok? && ask {
        more := r.value.HasNext();
      }
      seen := if r.Ok? then Glimpse(r.value.page) else Seen(HeapPageId(0, 0), 0, []);
    }

    /** close: compareAndSet(false, true) on the close gate. */
    method Close()
      modifies this
      ensures isClosed && pageNum == old(pageNum) && tupleIterator == old(tupleIterator) && isOpen == old(isOpen)
    {
      isClosed := true;
    }
  }
}
