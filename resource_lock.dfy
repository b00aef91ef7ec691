/** The per-page shared/exclusive lock (PageTransactionLocker.java): a set
    of shared holders, at most one exclusive holder, and a flag that is set
    while the exclusive holder owns the page.

    The source polls, sleeping between attempts, until a request can be
    granted or its timeout passes. Nothing else runs in this sequential
    model, so the state a request sees never changes while it waits: a
    request is granted at once or it times out, and tryLock is modelled as
    that immediate decision. */
module ResourceLock {
  import opened Wrappers
  import opened Ids

  /** The locker's three fields: `shared`, `exclusive` (None for null) and `lock`. */
  datatype LockState = LockState(shared: set<TransactionId>, exclusive: Option<TransactionId>, locked: bool)

  /** A locker nobody holds. */
  const Unheld := LockState({}, None, false)

  /** The flag is set exactly while there is an exclusive holder, and an
      exclusive holder excludes every shared one. */
  predicate Coherent(s: LockState)
  {
    (s.locked <==> s.exclusive.Some?) && (s.exclusive.Some? ==> s.shared == {})
  }

  /** isLockUpgradable: no shared holder, or the requester is the only one. */
  predicate Upgradable(s: LockState, tid: TransactionId)
  {
    s.shared == {} || s.shared == {tid}
  }

  /** hasHolder: a reader is a shared or the exclusive holder; a writer is
      the exclusive holder. */
  predicate Holds(s: LockState, tid: TransactionId, perm: Permissions)
  {
    match perm
    case ReadOnly => tid in s.shared || s.exclusive == Some(tid)
    case ReadWrite => s.exclusive == Some(tid)
  }

  /** What tryLock decides and leaves behind. The exclusive holder is
      granted anything; a reader needs the flag clear and joins the shared
      set; a writer needs the flag clear and no other shared holder, and
      then becomes the exclusive holder, leaving the shared set. A refused
      request leaves the state as it was. */
  function Grant(s: LockState, tid: TransactionId, perm: Permissions): (bool, LockState)
  {
    if s.exclusive == Some(tid) then (true, s)
    else match perm
      case ReadOnly =>
        if s.locked then (false, s) else (true, s.(shared := s.shared + {tid}))
      case ReadWrite =>
        if s.locked || !Upgradable(s, tid) then (false, s)
        else (true, LockState(s.shared - {tid}, Some(tid), true))
  }

  /** release: tid leaves the shared set, and the exclusive hold and the
      flag are cleared only when tid is the exclusive holder. */
  function Released(s: LockState, tid: TransactionId): LockState
  {
    if s.exclusive == Some(tid) then LockState(s.shared - {tid}, None, false)
    else s.(shared := s.shared - {tid})
  }

  /** Every grant and every release keeps the locker coherent. */
  lemma GrantKeepsCoherent(s: LockState, tid: TransactionId, perm: Permissions)
    requires Coherent(s)
    ensures Coherent(Grant(s, tid, perm).1)
    ensures Coherent(Released(s, tid))
  {
    if s.exclusive != Some(tid) && perm == ReadWrite && !s.locked && Upgradable(s, tid) {
      assert s.shared - {tid} == {};
    }
  }

  /** A reader other than the exclusive holder is granted exactly when the
      flag is clear, and then joins the shared set; a refusal changes nothing. */
  lemma GrantReader(s: LockState, tid: TransactionId)
    requires s.exclusive != Some(tid)
    ensures var (ok, s2) := Grant(s, tid, ReadOnly);
            (ok <==> !s.locked) &&
            (ok ==> s2 == s.(shared := s.shared + {tid}) && Holds(s2, tid, ReadOnly)) &&
            (!ok ==> s2 == s)
  {
  }

  /** A writer other than the exclusive holder is granted exactly when the
      flag is clear and no other transaction holds a shared lock; it then
      holds the page alone (an in-place upgrade when it was a reader). */
  lemma GrantWriter(s: LockState, tid: TransactionId)
    requires Coherent(s) && s.exclusive != Some(tid)
    ensures var (ok, s2) := Grant(s, tid, ReadWrite);
            (ok <==> !s.locked && s.shared <= {tid}) &&
            (ok ==> s2 == LockState({}, Some(tid), true) && Holds(s2, tid, ReadWrite)) &&
            (!ok ==> s2 == s)
  {
    if !s.locked && s.shared <= {tid} {
      if tid in s.shared {
        assert s.shared == {tid};
      } else {
        assert s.shared == {};
      }
    }
    if !s.locked && Upgradable(s, tid) {
      assert s.shared - {tid} == {};
    }
  }

  /** A granted request leaves the requester holding the permission it asked
      for, and a holder asking again is granted with nothing changed. */
  lemma GrantedHolds(s: LockState, tid: TransactionId, perm: Permissions)
    requires Coherent(s)
    ensures Grant(s, tid, perm).0 ==> Holds(Grant(s, tid, perm).1, tid, perm)
    ensures Holds(s, tid, perm) ==> Grant(s, tid, perm) == (true, s)
  {
    if Holds(s, tid, perm) && s.exclusive != Some(tid) {
      assert perm == ReadOnly && tid in s.shared;
      assert s.shared + {tid} == s.shared;
    }
  }

  /** While a transaction holds the page exclusively, no other transaction
      holds it at all. */
  lemma ExclusiveExcludes(s: LockState, tid: TransactionId, other: TransactionId, perm: Permissions)
    requires Coherent(s) && Holds(s, tid, ReadWrite) && other != tid
    ensures !Holds(s, other, perm)
  {
  }

  /** After a release tid holds nothing, every other holder keeps what it
      held, and releasing again changes nothing. */
  lemma ReleaseOnlyTid(s: LockState, tid: TransactionId, other: TransactionId, perm: Permissions)
    ensures !Holds(Released(s, tid), tid, perm)
    ensures other != tid ==> Holds(Released(s, tid), other, perm) == Holds(s, other, perm)
    ensures Released(Released(s, tid), tid) == Released(s, tid)
  {
  }

  class PageTransactionLocker {
    const pageId: HeapPageId
    var shared: set<TransactionId>
    var exclusive: Option<TransactionId>
    var locked: bool

    function State(): LockState
      reads this
    {
      LockState(shared, exclusive, locked)
    }

    ghost predicate Valid()
      reads this
    {
      Coherent(State())
    }

    constructor (pageId: HeapPageId)
      ensures Valid() && this.pageId == pageId && State() == Unheld
    {
      this.pageId := pageId;
      shared := {};
      exclusive := None;
      locked := false;
    }

    /** isLockUpgradable */
    function IsLockUpgradable(tid: TransactionId): bool
      reads this
    {
      shared == {} || (|shared| == 1 && tid in shared)
    }

    /** tryLock: the exclusive holder returns at once; a reader waits for
        the flag to clear; a writer first tries the fast path (no shared
        holder and the flag won), which gives the flag back if the lock
        cannot be upgraded, then waits for a clear flag and an upgradable
        shared set. Waiting without a change is a timeout. */
    method TryLock(tid: TransactionId, perm: Permissions) returns (ok: bool)
      requires Valid()
      modifies this
      ensures Valid()
      ensures (ok, State()) == Grant(old(State()), tid, perm)
    {
      GrantKeepsCoherent(State(), tid, perm);
      if exclusive == Some(tid) {
        return true;
      }
      match perm
      case ReadOnly =>
        if locked {
          return false;
        }
        shared := shared + {tid};
        return true;
      case ReadWrite =>
        if shared == {} && !locked {
          // Fast path: with no shared holder isLockUpgradable holds, so the
          // branch that hands the flag back cannot run without a
          // concurrent reader.
          locked := true;
          exclusive := Some(tid);
          return true;
        }
        if locked || !IsLockUpgradable(tid) {
          return false;
        }
        UpgradableIsSingleton(shared, tid);
        locked := true;
        exclusive := Some(tid);
        shared := shared - {tid};
        return true;
    }

    /** hasHolder */
    function HasHolder(tid: TransactionId, perm: Permissions): (r: bool)
      reads this
      ensures r == Holds(State(), tid, perm)
    {
      match perm
      case ReadOnly => tid in shared || exclusive == Some(tid)
      case ReadWrite => exclusive == Some(tid)
    }

    /** release */
    method Release(tid: TransactionId)
      requires Valid()
      modifies this
      ensures Valid() && State() == Released(old(State()), tid)
    {
      GrantKeepsCoherent(State(), tid, ReadOnly);
      shared := shared - {tid};
      if exclusive == Some(tid) {
        exclusive := None;
        locked := false;
      }
    }
  }

  /** `size() == 1 && contains(tid)` says the set is exactly {tid}. */
  lemma UpgradableIsSingleton(s: set<TransactionId>, tid: TransactionId)
    ensures (s == {} || (|s| == 1 && tid in s)) <==> (s == {} || s == {tid})
  {
    if |s| == 1 && tid in s {
      assert |s - {tid}| == 0;
      assert s == {tid};
    }
  }
}
