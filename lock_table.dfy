/** Page locks per transaction: the per-page manager (PageLockManager.java),
    the table of per-page managers (DefaultLockManager.java) and the ledger
    of pages each transaction has recorded (DefaultTransactionManager.java,
    SimpleTransactionManager.java).

    The ledgers hold a reference back to the lock manager that created
    them; here that reference is passed to the release methods as a
    parameter. */
module LockTable {
  import opened Wrappers
  import opened Ids
  import opened ResourceLock

  // ---------------------------------------------------------------------
  // The lock table as a value

  /** One page's manager: the transactions recorded on it and its locker. */
  datatype PageEntry = PageEntry(holders: set<TransactionId>, lock: LockState)

  /** The per-page managers by page id, and each transaction's ledger. */
  datatype Table = Table(pages: map<HeapPageId, PageEntry>, ledgers: map<TransactionId, set<HeapPageId>>)

  /** Every locker is coherent, every ledger names pages that have a
      manager, and a transaction recorded on a page has that page in its
      ledger (record writes the ledger first). */
  ghost predicate TableValid(t: Table)
  {
    (forall p :: p in t.pages ==> Coherent(t.pages[p].lock)) &&
    (forall x :: x in t.ledgers ==> t.ledgers[x] <= t.pages.Keys) &&
    (forall p, x :: p in t.pages && x in t.pages[p].holders ==> x in t.ledgers && p in t.ledgers[x])
  }

  /** Every transaction that holds a page's locker is recorded on that
      page: getPage records each request its locker grants, and release
      clears the record and the hold together. */
  ghost predicate LockersRecorded(t: Table)
  {
    forall p, x :: p in t.pages && Holds(t.pages[p].lock, x, ReadOnly) ==> x in t.pages[p].holders
  }

  /** hasLock: the page has a manager and tid is recorded on it. */
  predicate HasLockIn(pages: map<HeapPageId, PageEntry>, tid: TransactionId, pid: HeapPageId)
  {
    pid in pages && tid in pages[pid].holders
  }

  function LedgerOf(t: Table, tid: TransactionId): set<HeapPageId>
  {
    if tid in t.ledgers then t.ledgers[tid] else {}
  }

  /** getLock: the page's manager is created on first use. */
  function Open(t: Table, pid: HeapPageId): Table
  {
    if pid in t.pages then t else t.(pages := t.pages[pid := PageEntry({}, Unheld)])
  }

  /** record: the page joins tid's ledger, then tid joins the page's holders. */
  function RecordIn(t: Table, tid: TransactionId, pid: HeapPageId): Table
    requires pid in t.pages
  {
    Table(t.pages[pid := t.pages[pid].(holders := t.pages[pid].holders + {tid})],
          t.ledgers[tid := LedgerOf(t, tid) + {pid}])
  }

  /** One page's release: tid leaves the holders and is released on the locker. */
  function ReleaseEntry(e: PageEntry, tid: TransactionId): PageEntry
  {
    PageEntry(e.holders - {tid}, Released(e.lock, tid))
  }

  /** release(tid, pid): a page without a manager is a null dereference. */
  function ReleaseIn(t: Table, tid: TransactionId, pid: HeapPageId): (Outcome, Table)
  {
    if pid !in t.pages then (Fail(NullPointer), t)
    else (Pass, t.(pages := t.pages[pid := ReleaseEntry(t.pages[pid], tid)]))
  }

  /** The managers after tid is released on each page of `which`. */
  function ReleasePages(pages: map<HeapPageId, PageEntry>, tid: TransactionId, which: set<HeapPageId>): (r: map<HeapPageId, PageEntry>)
    ensures r.Keys == pages.Keys
  {
    map p | p in pages :: if p in which then ReleaseEntry(pages[p], tid) else pages[p]
  }

  /** releaseAll: tid's ledger is taken out and each page in it released. */
  function ReleaseAllIn(t: Table, tid: TransactionId): Table
  {
    if tid in t.ledgers then Table(ReleasePages(t.pages, tid, t.ledgers[tid]), t.ledgers - {tid})
    else t
  }

  /** tryLock on the page's locker. */
  function TryLockIn(t: Table, tid: TransactionId, pid: HeapPageId, perm: Permissions): (bool, Table)
    requires pid in t.pages
  {
    var (ok, s) := Grant(t.pages[pid].lock, tid, perm);
    (ok, t.(pages := t.pages[pid := t.pages[pid].(lock := s)]))
  }

  /** getLock creates a page's manager once: asking again changes nothing,
      and no other page's manager is touched. */
  lemma OpenOnce(t: Table, pid: HeapPageId)
    requires TableValid(t)
    ensures TableValid(Open(t, pid)) && pid in Open(t, pid).pages
    ensures Open(Open(t, pid), pid) == Open(t, pid)
    ensures pid in t.pages ==> Open(t, pid) == t
    ensures forall q :: q in t.pages ==> q in Open(t, pid).pages && Open(t, pid).pages[q] == t.pages[q]
  {
  }

  /** After record, hasLock(tid, pid) holds; recording twice is recording
      once; no other page and no other ledger changes. */
  lemma RecordThenHasLock(t: Table, tid: TransactionId, pid: HeapPageId)
    requires TableValid(t) && pid in t.pages
    ensures var t2 := RecordIn(t, tid, pid);
            TableValid(t2) && HasLockIn(t2.pages, tid, pid) &&
            RecordIn(t2, tid, pid) == t2 &&
            (forall q :: q in t.pages && q != pid ==> t2.pages[q] == t.pages[q]) &&
            (forall x :: x in t.ledgers && x != tid ==> x in t2.ledgers && t2.ledgers[x] == t.ledgers[x])
  {
    var t2 := RecordIn(t, tid, pid);
    assert t2.pages[pid].holders + {tid} == t2.pages[pid].holders;
    assert LedgerOf(t2, tid) + {pid} == LedgerOf(t2, tid);
    assert t2.pages[pid := t2.pages[pid].(holders := t2.pages[pid].holders + {tid})] == t2.pages;
    assert t2.ledgers[tid := LedgerOf(t2, tid) + {pid}] == t2.ledgers;
  }

  /** The lock request of getPage followed, when granted, by record keeps
      every locker's holders recorded: a grant adds only the requester to
      the locker, and record then adds it to the page's holders. */
  lemma AcquireRecords(t: Table, tid: TransactionId, pid: HeapPageId, perm: Permissions)
    requires LockersRecorded(t)
    ensures var (ok, t2) := TryLockIn(Open(t, pid), tid, pid, perm);
            (ok ==> LockersRecorded(RecordIn(t2, tid, pid))) && (!ok ==> LockersRecorded(t2))
  {
    var t1 := Open(t, pid);
    var (ok, t2) := TryLockIn(t1, tid, pid, perm);
    var s := t1.pages[pid].lock;
    forall x | Holds(Grant(s, tid, perm).1, x, ReadOnly)
      ensures x == tid || Holds(s, x, ReadOnly)
    {
    }
    if !ok {
      assert t2.pages[pid] == t1.pages[pid];
    }
  }

  /** release(tid, pid) affects only that page, and only tid on it: tid
      is no longer recorded there nor holds its locker, and every other
      transaction keeps what it holds. */
  lemma ReleaseOnePage(t: Table, tid: TransactionId, pid: HeapPageId)
    requires TableValid(t)
    ensures var (o, t2) := ReleaseIn(t, tid, pid);
            TableValid(t2) &&
            (o.Fail? <==> pid !in t.pages) &&
            !HasLockIn(t2.pages, tid, pid) &&
            (forall x, q :: (x != tid || q != pid) ==> HasLockIn(t2.pages, x, q) == HasLockIn(t.pages, x, q)) &&
            (pid in t2.pages ==> !Holds(t2.pages[pid].lock, tid, ReadOnly)) &&
            (forall q, x, perm :: q in t.pages && x != tid ==> Holds(t2.pages[q].lock, x, perm) == Holds(t.pages[q].lock, x, perm)) &&
            (LockersRecorded(t) ==> LockersRecorded(t2))
  {
    if pid in t.pages {
      GrantKeepsCoherent(t.pages[pid].lock, tid, ReadOnly);
    }
  }

  /** After releaseAll(tid), tid holds no page: it is recorded nowhere,
      has no ledger and, when every locker's holders are recorded, holds no
      locker. Every other transaction keeps its records, its ledger and
      what it holds on each locker. Releasing again changes nothing. */
  lemma {:induction false} ReleaseAllClears(t: Table, tid: TransactionId)
    requires TableValid(t)
    ensures var t2 := ReleaseAllIn(t, tid);
            TableValid(t2) && tid !in t2.ledgers && t2.pages.Keys == t.pages.Keys &&
            (forall p :: !HasLockIn(t2.pages, tid, p)) &&
            (forall p, x :: x != tid ==> HasLockIn(t2.pages, x, p) == HasLockIn(t.pages, x, p)) &&
            (forall x :: x != tid && x in t.ledgers ==> x in t2.ledgers && t2.ledgers[x] == t.ledgers[x]) &&
            (forall p, x, perm :: p in t.pages && x != tid ==> Holds(t2.pages[p].lock, x, perm) == Holds(t.pages[p].lock, x, perm)) &&
            (LockersRecorded(t) ==> LockersRecorded(t2) && forall p :: p in t2.pages ==> !Holds(t2.pages[p].lock, tid, ReadOnly)) &&
            ReleaseAllIn(t2, tid) == t2
  {
    var t2 := ReleaseAllIn(t, tid);
    if tid in t.ledgers {
      var which := t.ledgers[tid];
      forall p | p in t2.pages
        ensures Coherent(t2.pages[p].lock)
        ensures tid !in t2.pages[p].holders
      {
        if p in which {
          GrantKeepsCoherent(t.pages[p].lock, tid, ReadOnly);
        }
      }
    }
  }

  /** What releaseAll(tid) leaves, from t0 to t: the released table; tid
      recorded nowhere and holding no locker; every other transaction
      recorded and holding exactly as before, on the same pages. */
  ghost predicate ReleasedAll(t0: Table, t: Table, tid: TransactionId)
  {
    t == ReleaseAllIn(t0, tid) && t.pages.Keys == t0.pages.Keys &&
    (forall p :: !HasLockIn(t.pages, tid, p)) &&
    (forall p, x :: x != tid ==> HasLockIn(t.pages, x, p) == HasLockIn(t0.pages, x, p)) &&
    (forall p :: p in t.pages ==> !Holds(t.pages[p].lock, tid, ReadOnly)) &&
    (forall p, x, perm :: p in t0.pages && x != tid ==> Holds(t.pages[p].lock, x, perm) == Holds(t0.pages[p].lock, x, perm))
  }

  /** A transaction whose ledger was released starts a fresh one: recording
      a page afterwards leaves exactly that page in its ledger. */
  lemma LedgerRestarts(t: Table, tid: TransactionId, pid: HeapPageId)
    requires TableValid(t) && pid in t.pages
    ensures RecordIn(ReleaseAllIn(t, tid), tid, pid).ledgers[tid] == {pid}
  {
    ReleaseAllClears(t, tid);
  }

  /** A granted tryLock changes only the page's locker, and keeps the table valid. */
  lemma TryLockOnePage(t: Table, tid: TransactionId, pid: HeapPageId, perm: Permissions)
    requires TableValid(t) && pid in t.pages
    ensures var (ok, t2) := TryLockIn(t, tid, pid, perm);
            TableValid(t2) && t2.ledgers == t.ledgers &&
            (forall q :: q in t.pages ==> q in t2.pages && t2.pages[q].holders == t.pages[q].holders) &&
            (ok ==> Holds(t2.pages[pid].lock, tid, perm)) &&
            (!ok ==> t2 == t)
  {
    GrantKeepsCoherent(t.pages[pid].lock, tid, perm);
    GrantedHolds(t.pages[pid].lock, tid, perm);
    if !TryLockIn(t, tid, pid, perm).0 {
      assert t.pages[pid := t.pages[pid]] == t.pages;
    }
  }

  /** Releasing one more page of a set, one page at a time. */
  lemma ReleasePagesStep(pages: map<HeapPageId, PageEntry>, tid: TransactionId, done: set<HeapPageId>, p: HeapPageId)
    requires p in pages && p !in done
    ensures ReleasePages(pages, tid, done)[p := ReleaseEntry(pages[p], tid)] == ReleasePages(pages, tid, done + {p})
  {
  }

  // ---------------------------------------------------------------------
  // The objects

  class PageLockManager {
    const pageId: HeapPageId
    var transactionIds: set<TransactionId>
    const locker: PageTransactionLocker

    ghost function Entry(): PageEntry
      reads this, locker
    {
      PageEntry(transactionIds, locker.State())
    }

    ghost predicate Valid()
      reads this, locker
    {
      locker.Valid() && locker.pageId == pageId
    }

    constructor (pageId: HeapPageId)
      ensures Valid() && this.pageId == pageId && fresh(locker)
      ensures Entry() == PageEntry({}, Unheld)
    {
      this.pageId := pageId;
      transactionIds := {};
      locker := new PageTransactionLocker(pageId);
    }

    /** getLock: the page's single locker, for this page's id only. */
    function GetLock(tid: TransactionId, pid: HeapPageId): (r: Result<PageTransactionLocker>)
      ensures r.Ok? <==> pid == pageId
      ensures r.Ok? ==> r.value == locker
      ensures r.Err? ==> r.error == IllegalArgument
    {
      if pid != pageId then Err(IllegalArgument) else Ok(locker)
    }

    /** record: the permission is not kept. */
    method Record(tid: TransactionId, pid: HeapPageId, perm: Permissions)
      modifies this
      ensures transactionIds == old(transactionIds) + {tid}
    {
      transactionIds := transactionIds + {tid};
    }

    /** release: for this page's id, tid leaves the recorded set and is
        released on the locker. */
    method Release(tid: TransactionId, pid: HeapPageId) returns (r: Outcome)
      requires Valid()
      modifies this, locker
      ensures Valid()
      ensures pid != pageId ==> r == Fail(IllegalArgument) && Entry() == old(Entry())
      ensures pid == pageId ==> r == Pass && Entry() == ReleaseEntry(old(Entry()), tid)
    {
      if pid != pageId {
        return Fail(IllegalArgument);
      }
      transactionIds := transactionIds - {tid};
      locker.Release(tid);
      r := Pass;
    }

    /** releaseAll is not supported per page. */
    method ReleaseAll(tid: TransactionId) returns (r: Outcome)
      ensures r == Fail(UnsupportedOperation)
    {
      r := Fail(UnsupportedOperation);
    }

    /** hasLock: answered from the recorded set alone, never the locker. */
    function HasLock(tid: TransactionId, pid: HeapPageId): (r: bool)
      reads this
      ensures r <==> pid == pageId && tid in transactionIds
    {
      if pid != pageId then false else tid in transactionIds
    }
  }

  class SimpleTransactionManager {
    const transactionId: TransactionId
    var pages: set<HeapPageId>

    constructor (transactionId: TransactionId)
      ensures this.transactionId == transactionId && pages == {}
    {
      this.transactionId := transactionId;
      pages := {};
    }

    /** addPage: only the owner may add; the ledger is a set. */
    method AddPage(pid: HeapPageId, tid: TransactionId) returns (r: Outcome)
      modifies this
      ensures tid != transactionId ==> r == Fail(IllegalArgument) && pages == old(pages)
      ensures tid == transactionId ==> r == Pass && pages == old(pages) + {pid}
    {
      if tid != transactionId {
        return Fail(IllegalArgument);
      }
      pages := pages + {pid};
      r := Pass;
    }

    /** release: lockManager.release(tid, p) once for each recorded page,
        and for no other page. */
    method Release(tid: TransactionId, lm: DefaultLockManager)
      requires pages <= lm.lockers.Keys
      modifies lm
      ensures lm.lockers == ReleasePages(old(lm.lockers), tid, pages)
    {
      ReleaseEach(tid, pages, lm);
    }
  }

  /** The loop of SimpleTransactionManager.release: each page of the ledger
      is released on its page manager, in any order. */
  method ReleaseEach(tid: TransactionId, pages: set<HeapPageId>, lm: DefaultLockManager)
    requires pages <= lm.lockers.Keys
    modifies lm
    ensures lm.lockers == ReleasePages(old(lm.lockers), tid, pages)
  {
    var todo := pages;
    ghost var done: set<HeapPageId> := {};
    ghost var start := lm.lockers;
    assert ReleasePages(start, tid, {}) == start;
    while todo != {}
      invariant todo + done == pages && todo !! done
      invariant lm.lockers == ReleasePages(start, tid, done)
      decreases |todo|
    {
      var p :| p in todo;
      ReleasePagesStep(start, tid, done, p);
      var _ := lm.Release(tid, p);
      todo := todo - {p};
      done := done + {p};
    }
  }

  /** The map from each transaction to its ledger. The ledgers are kept here
      as the sets of page ids their SimpleTransactionManager objects hold. */
  class DefaultTransactionManager {
    var transactions: map<TransactionId, set<HeapPageId>>

    constructor ()
      ensures transactions == map[]
    {
      transactions := map[];
    }

    /** addPage: tid's ledger is created on first use and reused after. */
    method AddPage(pid: HeapPageId, tid: TransactionId)
      modifies this
      ensures transactions == old(transactions)[tid := (if tid in old(transactions) then old(transactions)[tid] else {}) + {pid}]
    {
      if tid !in transactions {
        transactions := transactions[tid := {}];
      }
      transactions := transactions[tid := transactions[tid] + {pid}];
    }

    /** release: tid's ledger is removed and, if there was one, released. */
    method Release(tid: TransactionId, lm: DefaultLockManager)
      requires TableValid(Table(lm.lockers, transactions))
      modifies this, lm
      ensures Table(lm.lockers, transactions) == ReleaseAllIn(old(Table(lm.lockers, transactions)), tid)
    {
      if tid in transactions {
        var ledger := transactions[tid];
        transactions := transactions - {tid};
        ReleaseEach(tid, ledger, lm);
      }
    }
  }

  class DefaultLockManager {
    const transactionManager: DefaultTransactionManager
    /** Each page's manager, as its recorded set and its locker's state. */
    var lockers: map<HeapPageId, PageEntry>

    ghost function State(): Table
      reads this, transactionManager
    {
      Table(lockers, transactionManager.transactions)
    }

    ghost predicate Valid()
      reads this, transactionManager
    {
      TableValid(State())
    }

    constructor ()
      ensures Valid() && fresh(transactionManager) && State() == Table(map[], map[])
    {
      transactionManager := new DefaultTransactionManager();
      lockers := map[];
    }

    /** getLock: putIfAbsent of a new page manager, whose locker the
        caller then uses. */
    method GetLock(tid: TransactionId, pid: HeapPageId)
      requires Valid()
      modifies this
      ensures Valid() && State() == Open(old(State()), pid)
    {
      OpenOnce(State(), pid);
      if pid !in lockers {
        lockers := lockers[pid := PageEntry({}, Unheld)];
      }
    }

    /** getLock(tid, pid).tryLock(...): the page's locker decides. */
    method TryLock(tid: TransactionId, pid: HeapPageId, perm: Permissions) returns (ok: bool)
      requires Valid()
      modifies this
      ensures Valid() && pid in lockers
      ensures (ok, State()) == TryLockIn(Open(old(State()), pid), tid, pid, perm)
    {
      GetLock(tid, pid);
      TryLockOnePage(State(), tid, pid, perm);
      var (granted, s) := Grant(lockers[pid].lock, tid, perm);
      lockers := lockers[pid := lockers[pid].(lock := s)];
      ok := granted;
    }

    /** record: the page joins tid's ledger first, then tid joins the
        page's recorded set. The page must have been passed to getLock. */
    method Record(tid: TransactionId, pid: HeapPageId, perm: Permissions)
      requires Valid() && pid in lockers
      modifies this, transactionManager
      ensures Valid()
      ensures State() == RecordIn(old(State()), tid, pid)
    {
      RecordThenHasLock(State(), tid, pid);
      transactionManager.AddPage(pid, tid);
      lockers := lockers[pid := lockers[pid].(holders := lockers[pid].holders + {tid})];
    }

    /** release: the page's manager releases tid; with no manager the map
        lookup gives null and the call dereferences it. */
    method Release(tid: TransactionId, pid: HeapPageId) returns (r: Outcome)
      modifies this
      ensures pid !in old(lockers) ==> r == Fail(NullPointer) && lockers == old(lockers)
      ensures pid in old(lockers) ==> r == Pass && lockers == old(lockers)[pid := ReleaseEntry(old(lockers)[pid], tid)]
    {
      if pid !in lockers {
        return Fail(NullPointer);
      }
      lockers := lockers[pid := ReleaseEntry(lockers[pid], tid)];
      r := Pass;
    }

    /** releaseAll: handed to the transaction manager. */
    method ReleaseAll(tid: TransactionId)
      requires Valid()
      modifies this, transactionManager
      ensures Valid()
      ensures State() == ReleaseAllIn(old(State()), tid)
    {
      ReleaseAllClears(State(), tid);
      transactionManager.Release(tid, this);
    }

    /** hasLock: false for a page never passed to getLock, otherwise the
        page manager's answer. */
    function HasLock(tid: TransactionId, pid: HeapPageId): (r: bool)
      reads this
      ensures r == HasLockIn(lockers, tid, pid)
    {
      if pid !in lockers then false else tid in lockers[pid].holders
    }
  }
}
