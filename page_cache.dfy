/** The buffer pool's page cache (DefaultPageManager.java): a map from page
    id to a list node, and a doubly linked recency list between a head and a
    tail sentinel. The head side holds the most recently used page; eviction
    walks from the tail side and skips pages that carry a dirty marker.

    The recency list is kept as the sequence of page ids from the head side to
    the tail side; the source's node rewiring (popNode, removeNode) is what
    the sequence operations MoveToFront and Without do to it. */
module PageCache {
  import opened Wrappers
  import opened JavaInt
  import opened Ids
  import opened HeapPages
  import opened HeapFiles

  // ---------------------------------------------------------------------
  // Sequences of page ids

  ghost predicate NoDup<T>(s: seq<T>)
  {
    forall i, j :: 0 <= i < j < |s| ==> s[i] != s[j]
  }

  /** s with every occurrence of x taken out, the rest in their order. */
  function Without<T(==, !new)>(s: seq<T>, x: T): (r: seq<T>)
    ensures forall y :: y in r <==> y in s && y != x
    ensures |r| <= |s|
  {
    if |s| == 0 then []
    else if s[0] == x then Without(s[1..], x)
    else [s[0]] + Without(s[1..], x)
  }

  /** Removing an element that occurs once, at index i, cuts out exactly
      position i: the others keep their relative order. */
  lemma {:induction false} WithoutAt<T(!new)>(s: seq<T>, i: nat)
    requires NoDup(s) && i < |s|
    ensures Without(s, s[i]) == s[..i] + s[i + 1..]
  {
    if i == 0 {
      WithoutAbsent(s[1..], s[0]);
    } else {
      assert NoDup(s[1..]) by {
        forall a, b | 0 <= a < b < |s| - 1
          ensures s[1..][a] != s[1..][b]
        {
          assert s[1..][a] == s[a + 1] && s[1..][b] == s[b + 1];
        }
      }
      assert s[1..][i - 1] == s[i];
      WithoutAt(s[1..], i - 1);
      assert s[1..][..i - 1] == s[1..i];
      assert s[1..][i..] == s[i + 1..];
      assert s[..i] == [s[0]] + s[1..i];
    }
  }

  lemma {:induction false} WithoutAbsent<T(!new)>(s: seq<T>, x: T)
    requires x !in s
    ensures Without(s, x) == s
  {
    if |s| > 0 {
      assert s[1..] + [] == s[1..];
      WithoutAbsent(s[1..], x);
    }
  }

  lemma {:induction false} WithoutNoDup<T(!new)>(s: seq<T>, x: T)
    requires NoDup(s)
    ensures NoDup(Without(s, x))
  {
    if x in s {
      var i :| 0 <= i < |s| && s[i] == x;
      WithoutAt(s, i);
      var r := s[..i] + s[i + 1..];
      forall a, b | 0 <= a < b < |r|
        ensures r[a] != r[b]
      {
        var a' := if a < i then a else a + 1;
        var b' := if b < i then b else b + 1;
        assert r[a] == s[a'] && r[b] == s[b'];
      }
    } else {
      WithoutAbsent(s, x);
    }
  }

  /** popNode: the page's node is unlinked and relinked right after the head. */
  function MoveToFront<T(==, !new)>(s: seq<T>, x: T): (r: seq<T>)
  {
    [x] + Without(s, x)
  }

  /** Moving a resident id to the front keeps the same ids, each once. */
  lemma MoveToFrontKeepsIds<T(!new)>(s: seq<T>, x: T)
    requires NoDup(s) && x in s
    ensures NoDup(MoveToFront(s, x))
    ensures forall y :: y in MoveToFront(s, x) <==> y in s
    ensures |MoveToFront(s, x)| == |s|
    ensures MoveToFront(s, x)[0] == x
  {
    var i :| 0 <= i < |s| && s[i] == x;
    WithoutAt(s, i);
    WithoutNoDup(s, x);
  }

  /** The walk of removeLast: the index, counted from the head side, of the
      clean page nearest the tail; None when every page is dirty. */
  function LastClean(order: seq<HeapPageId>, dirty: set<HeapPageId>): (r: Option<nat>)
    ensures r.Some? ==> r.value < |order| && order[r.value] !in dirty &&
                        forall j :: r.value < j < |order| ==> order[j] in dirty
    ensures r.None? <==> forall j :: 0 <= j < |order| ==> order[j] in dirty
  {
    if |order| == 0 then None
    else if order[|order| - 1] !in dirty then Some(|order| - 1)
    else
      var r := LastClean(order[..|order| - 1], dirty);
      assert forall j :: 0 <= j < |order| - 1 ==> order[..|order| - 1][j] == order[j];
      r
  }

  /** The walk stops at the one clean page with only dirty pages behind it. */
  lemma LastCleanUnique(order: seq<HeapPageId>, dirty: set<HeapPageId>, i: nat)
    requires i < |order| && order[i] !in dirty
    requires forall j :: i < j < |order| ==> order[j] in dirty
    ensures LastClean(order, dirty) == Some(i)
  {
  }

  // ---------------------------------------------------------------------
  // The cache as a value, and what each operation does to it

  /** The map from page id to page, and the recency list (head side first). */
  datatype Lru = Lru(pages: map<HeapPageId, HeapPage>, order: seq<HeapPageId>)

  /** The map's key set equals the set of ids on the list, each id is on the
      list once, and every page is stored under its own id. */
  ghost predicate LruValid(c: Lru)
  {
    NoDup(c.order) &&
    (forall k :: k in c.pages <==> k in c.order) &&
    (forall k :: k in c.pages ==> c.pages[k].pid == k)
  }

  /** The ids of the resident pages whose dirty marker is set. */
  ghost function DirtyIds(pages: map<HeapPageId, HeapPage>): set<HeapPageId>
    reads pages.Values
  {
    set k | k in pages && pages[k].dirtier.Some?
  }

  /** internalAdd: a new node for the page, linked right after the head. */
  function Insert(c: Lru, page: HeapPage): Lru
  {
    Lru(c.pages[page.pid := page], [page.pid] + c.order)
  }

  /** remove: the id leaves the map and its node leaves the list. */
  function Drop(c: Lru, pid: HeapPageId): Lru
  {
    Lru(c.pages - {pid}, Without(c.order, pid))
  }

  /** removeLast: the clean page nearest the tail is dropped; when every page
      is dirty the walk reaches the head sentinel and its null page is
      dereferenced. */
  function EvictLast(c: Lru, dirty: set<HeapPageId>): (Outcome, Lru)
  {
    match LastClean(c.order, dirty)
    case None => (Fail(NullPointer), c)
    case Some(i) => (Pass, Drop(c, c.order[i]))
  }

  /** The cache after adding a page that is not resident: insert, then evict
      once if the size is over capacity. */
  function AddNew(c: Lru, page: HeapPage, capacity: int, dirty: set<HeapPageId>): (Outcome, Lru)
  {
    var c1 := Insert(c, page);
    if |c1.pages| > capacity then EvictLast(c1, dirty) else (Pass, c1)
  }

  /** The page just read is clean, so the walk of removeLast that follows
      its insertion always finds a page to drop. */
  lemma AddNewClean(c: Lru, page: HeapPage, capacity: int, dirty: set<HeapPageId>)
    requires page.pid !in dirty
    ensures AddNew(c, page, capacity, dirty).0 == Pass
  {
    var c1 := Insert(c, page);
    assert c1.order[0] == page.pid;
  }

  /** getOrCreate's miss path: add the page read from disk, then get it.
      The lookup finds nothing when the new page was the one evicted. */
  function AddThenGet(c: Lru, page: HeapPage, capacity: int, dirty: set<HeapPageId>): (Result<Option<HeapPage>>, Lru)
  {
    var (o, c1) := AddNew(c, page, capacity, dirty);
    if o.Fail? then (Err(o.error), c1)
    else if page.pid in c1.pages then (Ok(Some(page)), c1.(order := MoveToFront(c1.order, page.pid)))
    else (Ok(None), c1)
  }

  /** The miss path's quirk: when the cache is full and every resident page
      is dirty, the page just read is the only clean one, so it is evicted
      at once, the cache is left as it was, and getOrCreate returns null. */
  lemma AddThenGetEvictsFreshPage(c: Lru, page: HeapPage, capacity: int, dirty: set<HeapPageId>)
    requires LruValid(c) && page.pid !in c.pages && page.pid !in dirty
    requires |c.pages| >= capacity
    requires forall k :: k in c.pages ==> k in dirty
    ensures AddThenGet(c, page, capacity, dirty) == (Ok(None), c)
  {
    var c1 := Insert(c, page);
    InsertKeepsLru(c, page);
    forall j | 1 <= j < |c1.order|
      ensures c1.order[j] in dirty
    {
      assert c1.order[j] == c.order[j - 1];
    }
    LastCleanUnique(c1.order, dirty, 0);
    assert page.pid !in c.order;
    InsertThenDrop(c, page);
    assert AddNew(c, page, capacity, dirty) == (Pass, c);
  }

  /** Dropping a page just inserted gives back the cache it was inserted into. */
  lemma InsertThenDrop(c: Lru, page: HeapPage)
    requires page.pid !in c.pages && page.pid !in c.order
    ensures Drop(Insert(c, page), page.pid) == c
  {
    var c1 := Insert(c, page);
    assert c1.order[1..] == c.order;
    WithoutAbsent(c.order, page.pid);
    assert Without(c1.order, page.pid) == c.order;
    assert c1.pages - {page.pid} == c.pages;
  }

  /** A miss with room to spare, or with a clean page to evict, leaves the
      new page resident at the head side. */
  lemma AddThenGetKeepsPage(c: Lru, page: HeapPage, capacity: int, dirty: set<HeapPageId>)
    requires LruValid(c) && page.pid !in c.pages && page.pid !in dirty
    requires |c.pages| < capacity || exists k :: k in c.pages && k !in dirty
    ensures var (r, c2) := AddThenGet(c, page, capacity, dirty);
            r == Ok(Some(page)) && LruValid(c2) && c2.order[0] == page.pid && c2.pages[page.pid] == page
  {
    InsertKeepsLru(c, page);
    var c1 := Insert(c, page);
    if |c1.pages| > capacity {
      var k :| k in c.pages && k !in dirty;
      var j :| 0 <= j < |c.order| && c.order[j] == k;
      assert c1.order[j + 1] == k;
      EvictKeepsHead(c1, dirty, j + 1);
    }
    var (o, c2) := AddNew(c, page, capacity, dirty);
    assert o.Pass? && LruValid(c2) && page.pid in c2.pages && c2.pages[page.pid] == page;
    TouchKeepsLru(c2, page.pid);
  }

  /** What the miss path leaves resident: pages that were resident before,
      each under its id, and possibly the page just read; a returned page is
      that page, and a null result means it was evicted. */
  lemma AddThenGetResidents(c: Lru, page: HeapPage, capacity: int, dirty: set<HeapPageId>)
    requires page.pid !in c.pages
    ensures var (r, c2) := AddThenGet(c, page, capacity, dirty);
            (forall k :: k in c2.pages ==> (k in c.pages && c2.pages[k] == c.pages[k]) || (k == page.pid && c2.pages[k] == page)) &&
            (r.Ok? && r.value.Some? ==> r.value.value == page && page.pid in c2.pages && c2.pages[page.pid] == page) &&
            (r == Ok(None) ==> page.pid !in c2.pages)
  {
  }

  /** With a clean page behind the head, eviction succeeds and spares the
      head's page. */
  lemma EvictKeepsHead(c: Lru, dirty: set<HeapPageId>, j: nat)
    requires LruValid(c) && 0 < j < |c.order| && c.order[j] !in dirty
    ensures var (o, c2) := EvictLast(c, dirty);
            o.Pass? && LruValid(c2) && c.order[0] in c2.pages && c2.pages[c.order[0]] == c.pages[c.order[0]]
  {
    EvictLastSpares(c, dirty);
    var i := LastClean(c.order, dirty).value;
    assert i >= j;
    assert c.order[i] != c.order[0];
  }

  /** The map holds exactly one entry per node on the list. */
  lemma MapSizes(c: Lru)
    requires LruValid(c)
    ensures |c.pages| == |c.order|
  {
    DistinctCount(c.order, c.pages.Keys);
  }

  /** A list without repeats has as many elements as the set of its elements. */
  lemma {:induction false} DistinctCount<T(!new)>(s: seq<T>, keys: set<T>)
    requires NoDup(s) && forall k :: k in keys <==> k in s
    ensures |keys| == |s|
    decreases |s|
  {
    if |s| > 0 {
      var rest := s[1..];
      assert NoDup(rest) by {
        forall a, b | 0 <= a < b < |rest|
          ensures rest[a] != rest[b]
        {
          assert rest[a] == s[a + 1] && rest[b] == s[b + 1];
        }
      }
      forall k
        ensures k in keys - {s[0]} <==> k in rest
      {
        if k in rest {
          var j :| 0 <= j < |rest| && rest[j] == k;
          assert s[j + 1] == k;
        }
        assert k in s <==> k == s[0] || k in rest;
      }
      DistinctCount(rest, keys - {s[0]});
      assert keys == (keys - {s[0]}) + {s[0]};
    }
  }

  /** Moving a resident id to the front changes neither the residents nor
      the well-formedness of the list. */
  lemma TouchKeepsLru(c: Lru, pid: HeapPageId)
    requires LruValid(c) && pid in c.pages
    ensures LruValid(c.(order := MoveToFront(c.order, pid)))
  {
    MoveToFrontKeepsIds(c.order, pid);
  }

  /** Adding a new page and dropping a resident one keep the list well formed. */
  lemma InsertKeepsLru(c: Lru, page: HeapPage)
    requires LruValid(c) && page.pid !in c.pages
    ensures LruValid(Insert(c, page))
    ensures |Insert(c, page).pages| == |c.pages| + 1
  {
    var c1 := Insert(c, page);
    forall i, j | 0 <= i < j < |c1.order|
      ensures c1.order[i] != c1.order[j]
    {
      assert c1.order[j] == c.order[j - 1];
      if i > 0 {
        assert c1.order[i] == c.order[i - 1];
      }
    }
  }

  lemma DropKeepsLru(c: Lru, pid: HeapPageId)
    requires LruValid(c)
    ensures LruValid(Drop(c, pid))
    ensures pid in c.pages ==> |Drop(c, pid).pages| == |c.pages| - 1
  {
    WithoutNoDup(c.order, pid);
    if pid in c.pages {
      assert c.pages.Keys == (c.pages - {pid}).Keys + {pid};
    }
  }

  /** s with every element of xs taken out, the rest in their order. */
  function WithoutAll<T(==, !new)>(s: seq<T>, xs: set<T>): (r: seq<T>)
    ensures forall y :: y in r <==> y in s && y !in xs
  {
    if |s| == 0 then []
    else if s[0] in xs then WithoutAll(s[1..], xs)
    else [s[0]] + WithoutAll(s[1..], xs)
  }

  /** Taking out one more element after a set of them is taking out the
      larger set. */
  lemma {:induction false} WithoutAllStep<T(!new)>(s: seq<T>, xs: set<T>, x: T)
    ensures Without(WithoutAll(s, xs), x) == WithoutAll(s, xs + {x})
  {
    if |s| > 0 {
      WithoutAllStep(s[1..], xs, x);
      if s[0] !in xs && s[0] != x {
        assert ([s[0]] + WithoutAll(s[1..], xs))[1..] == WithoutAll(s[1..], xs);
      }
    }
  }

  /** The cache after remove(pid) for every pid in ids, in any order. */
  function DropAll(c: Lru, ids: set<HeapPageId>): Lru
  {
    Lru(c.pages - ids, WithoutAll(c.order, ids))
  }

  /** Removing the resident pages of a set one at a time: each step is one
      more remove, and the cache stays well-formed. */
  lemma DropAllStep(c: Lru, ids: set<HeapPageId>, pid: HeapPageId)
    requires LruValid(DropAll(c, ids))
    ensures Drop(DropAll(c, ids), pid) == DropAll(c, ids + {pid})
    ensures LruValid(DropAll(c, ids + {pid}))
  {
    WithoutAllStep(c.order, ids, pid);
    assert c.pages - ids - {pid} == c.pages - (ids + {pid});
    DropKeepsLru(DropAll(c, ids), pid);
  }

  lemma {:induction false} WithoutAllEmpty<T(!new)>(s: seq<T>)
    ensures WithoutAll(s, {}) == s
  {
    if |s| > 0 {
      WithoutAllEmpty(s[1..]);
      assert s == [s[0]] + s[1..];
    }
  }

  /** removeLast never evicts a dirty page: the evicted page is clean, every
      page between it and the tail is dirty and stays where it was, and when
      all pages are dirty nothing changes and the walk fails. */
  lemma EvictLastSpares(c: Lru, dirty: set<HeapPageId>)
    requires LruValid(c)
    ensures var (o, c2) := EvictLast(c, dirty);
            LruValid(c2) &&
            (o.Fail? <==> forall k :: k in c.pages ==> k in dirty) &&
            (o.Fail? ==> o == Fail(NullPointer) && c2 == c) &&
            (o.Pass? ==> exists i :: 0 <= i < |c.order| && c.order[i] !in dirty &&
                           (forall j :: i < j < |c.order| ==> c.order[j] in dirty) &&
                           c2.pages == c.pages - {c.order[i]} &&
                           c2.order == c.order[..i] + c.order[i + 1..] &&
                           |c2.pages| == |c.pages| - 1)
  {
    match LastClean(c.order, dirty)
    case None =>
      forall k | k in c.pages
        ensures k in dirty
      {
        var j :| 0 <= j < |c.order| && c.order[j] == k;
      }
    case Some(i) =>
      WithoutAt(c.order, i);
      DropKeepsLru(c, c.order[i]);
  }

  /** The walk that stops at index i evicts the page there. */
  lemma EvictAt(c: Lru, dirty: set<HeapPageId>, i: nat)
    requires LruValid(c) && i < |c.order| && c.order[i] !in dirty
    requires forall j :: i < j < |c.order| ==> c.order[j] in dirty
    ensures EvictLast(c, dirty) == (Pass, Drop(c, c.order[i]))
    ensures LruValid(Drop(c, c.order[i]))
  {
    LastCleanUnique(c.order, dirty, i);
    DropKeepsLru(c, c.order[i]);
  }

  /** After adding a new page, a successful eviction brings the size back to
      what it was, so a successful add never grows the cache past
      max(size, capacity). */
  lemma AddNewBounded(c: Lru, page: HeapPage, capacity: int, dirty: set<HeapPageId>)
    requires LruValid(c) && page.pid !in c.pages
    ensures var (o, c2) := AddNew(c, page, capacity, dirty);
            LruValid(c2) && page.pid in Insert(c, page).pages &&
            (o.Pass? ==> |c2.pages| <= if |c.pages| < capacity then capacity else |c.pages|)
  {
    InsertKeepsLru(c, page);
    var c1 := Insert(c, page);
    if |c1.pages| > capacity {
      EvictLastSpares(c1, dirty);
    }
  }

  // ---------------------------------------------------------------------
  // The cache object

  class DefaultPageManager {
    const capacity: Int32
    /** The map from page id to its node's page. */
    var pages: map<HeapPageId, HeapPage>
    /** The recency list from the head side (most recently used) to the tail side. */
    var order: seq<HeapPageId>

    ghost function State(): Lru
      reads this
    {
      Lru(pages, order)
    }

    ghost predicate Valid()
      reads this
    {
      LruValid(State())
    }

    /** A new manager: head and tail sentinels linked to each other. */
    constructor (capacity: Int32)
      ensures Valid() && this.capacity == capacity
      ensures pages == map[] && order == []
    {
      this.capacity := capacity;
      pages := map[];
      order := [];
    }

    /** get: a resident page is returned and moved to the head side; an
        absent id gives null and changes nothing. */
    method Get(pid: HeapPageId) returns (r: Option<HeapPage>)
      requires Valid()
      modifies this
      ensures Valid() && pages == old(pages)
      ensures pid in old(pages) ==> r == Some(old(pages)[pid]) && order == MoveToFront(old(order), pid)
      ensures pid !in old(pages) ==> r == None && order == old(order)
    {
      if pid !in pages {
        return None;
      }
      TouchKeepsLru(State(), pid);
      order := MoveToFront(order, pid);
      r := Some(pages[pid]);
    }

    /** removeLast: walks from the tail towards the head past every dirty
        page; the first clean one is unlinked and unmapped. */
    method RemoveLast() returns (r: Outcome)
      requires Valid()
      modifies this
      ensures Valid()
      ensures (r, State()) == EvictLast(old(State()), old(DirtyIds(pages)))
    {
      ghost var dirty := DirtyIds(pages);
      var last := |order| - 1;
      while last >= 0 && pages[order[last]].dirtier.Some?
        invariant -1 <= last < |order|
        invariant forall j :: last < j < |order| ==> order[j] in dirty
        decreases last
      {
        last := last - 1;
      }
      if last < 0 {
        assert LastClean(order, dirty).None?;
        return Fail(NullPointer);
      }
      var victim := order[last];
      ghost var c := State();
      EvictAt(c, dirty, last);
      pages := pages - {victim};
      order := Without(order, victim);
      assert State() == Drop(c, victim);
      r := Pass;
    }

    /** add: a page whose id is not resident is linked at the head side and
        one page is evicted if the cache is then over capacity; for a
        resident id the cached page object stays and is only moved to the
        head side. */
    method Add(page: HeapPage) returns (r: Outcome)
      requires Valid()
      modifies this
      ensures Valid()
      ensures page.pid in old(pages) ==> r == Pass && pages == old(pages) && order == MoveToFront(old(order), page.pid)
      ensures page.pid !in old(pages) ==>
                (r, State()) == AddNew(old(State()), page, capacity, old(DirtyIds(pages[page.pid := page])))
    {
      if page.pid !in pages {
        r := AddAndTrim(page);
      } else {
        TouchKeepsLru(State(), page.pid);
        order := MoveToFront(order, page.pid);
        r := Pass;
      }
    }

    /** internalAdd followed by the size check shared by add and getOrCreate. */
    method AddAndTrim(page: HeapPage) returns (r: Outcome)
      requires Valid() && page.pid !in pages
      modifies this
      ensures Valid()
      ensures (r, State()) == AddNew(old(State()), page, capacity, old(DirtyIds(pages[page.pid := page])))
    {
      ghost var c := State();
      ghost var dirty := DirtyIds(pages[page.pid := page]);
      InsertKeepsLru(c, page);
      pages := pages[page.pid := page];
      order := [page.pid] + order;
      assert State() == Insert(c, page) && DirtyIds(pages) == dirty;
      if |pages| > capacity {
        r := RemoveLast();
      } else {
        r := Pass;
      }
    }

    /** getOrCreate: on a miss the page is read from the table's file,
        added at the head side, and one page is evicted if the cache is over
        capacity; then the page is looked up with get. If every other page is
        dirty, the freshly read page is the one evicted and the lookup
        finds nothing. A table missing from the catalog (NoSuchElementException
        from the catalog lookup) or a failed read is passed on. */
    method GetOrCreate(pid: HeapPageId, catalog: map<Int32, HeapFile>) returns (r: Result<Option<HeapPage>>, ghost loaded: Option<HeapPage>)
      requires Valid()
      modifies this
      ensures Valid()
      ensures pid in old(pages) ==>
                loaded.None? && r == Ok(Some(old(pages)[pid])) && pages == old(pages) && order == MoveToFront(old(order), pid)
      ensures pid !in old(pages) && pid.tableId !in catalog ==>
                loaded.None? && r == Err(NoSuchElement) && pages == old(pages) && order == old(order)
      ensures pid !in old(pages) && pid.tableId in catalog && pid.pageNum < 0 ==>
                loaded.None? && r == Err(IllegalArgument) && pages == old(pages) && order == old(order)
      ensures pid !in old(pages) && pid.tableId in catalog && pid.pageNum >= 0 ==>
                loaded.Some? && fresh(loaded.value) && fresh(loaded.value.header) && fresh(loaded.value.tuples) &&
                ReadFrom(catalog[pid.tableId], loaded.value, pid) &&
                (r, State()) == AddThenGet(old(State()), loaded.value, capacity, old(DirtyIds(pages)))
      ensures forall k :: k in pages ==> (k in old(pages) && pages[k] == old(pages)[k]) || (loaded.Some? && k == pid && pages[k] == loaded.value)
      ensures r.Ok? && r.value.Some? ==> pid in pages && pages[pid] == r.value.value
      ensures r == Ok(None) ==> pid !in pages
      ensures r.Err? <==> pid !in old(pages) && (pid.tableId !in catalog || pid.pageNum < 0)
      ensures loaded.Some? ==> forall k :: k in old(pages) ==> old(pages)[k].header != loaded.value.header && old(pages)[k].tuples != loaded.value.tuples
    {
      loaded := None;
      if pid !in pages {
        if pid.tableId !in catalog {
          return Err(NoSuchElement), None;
        }
        var file := catalog[pid.tableId];
        var read := file.ReadPage(pid);
        if read.Err? {
          return Err(read.error), None;
        }
        var page := read.value;
        loaded := Some(page);
        assert DirtyIds(pages[pid := page]) == old(DirtyIds(pages));
        var o := AddAndTrim(page);
        AddNewClean(old(State()), page, capacity, old(DirtyIds(pages)));
        assert o == Pass;
        assert pid in pages ==> pages[pid] == page;
      }
      var found := Get(pid);
      r := Ok(found);
      if loaded.Some? {
        AddThenGetResidents(old(State()), loaded.value, capacity, old(DirtyIds(pages)));
      }
    }

    /** remove: the page leaves the map and its node is unlinked, whether or
        not it is dirty. For an absent id the node is null and unlinking it
        is a null dereference. */
    method Remove(pid: HeapPageId) returns (r: Outcome)
      requires Valid()
      modifies this
      ensures Valid()
      ensures pid in old(pages) ==> r == Pass && State() == Drop(old(State()), pid)
      ensures pid !in old(pages) ==> r == Fail(NullPointer) && State() == old(State())
    {
      if pid !in pages {
        return Fail(NullPointer);
      }
      DropKeepsLru(State(), pid);
      pages := pages - {pid};
      order := Without(order, pid);
      r := Pass;
    }

    /** refresh: the page's node moves to the head side; for an absent id
        the node is null and popNode dereferences it. */
    method Refresh(page: HeapPage) returns (r: Outcome)
      requires Valid()
      modifies this
      ensures Valid() && pages == old(pages)
      ensures page.pid in old(pages) ==> r == Pass && order == MoveToFront(old(order), page.pid)
      ensures page.pid !in old(pages) ==> r == Fail(NullPointer) && order == old(order)
    {
      if page.pid !in pages {
        return Fail(NullPointer);
      }
      TouchKeepsLru(State(), page.pid);
      order := MoveToFront(order, page.pid);
      r := Pass;
    }

    /** traverse: visits every resident page once. The source walks a hash
        map, whose order the model leaves open: any order of the residents
        may come back. */
    method Traverse() returns (visit: seq<HeapPageId>)
      requires Valid()
      ensures NoDup(visit) && forall k :: k in visit <==> k in pages
    {
      visit := order;
    }
  }
}
