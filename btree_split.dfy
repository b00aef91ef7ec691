/** The stages of a B-tree leaf split: a fixed chain of five stages, and
    the first stage's action, which moves the upper half of the source
    page's tuples into the destination page. */
module BTreeSplit {
  import opened Wrappers

  datatype Stage =
    | TransferHalfData
    | UpdateOldPageRightSibling
    | UpdatePagePointer
    | UpdateParentPagePointer
    | ReturnPageForTuple

  /** The stage's place in declaration order. */
  function Ordinal(s: Stage): nat
  {
    match s
    case TransferHalfData => 0
    case UpdateOldPageRightSibling => 1
    case UpdatePagePointer => 2
    case UpdateParentPagePointer => 3
    case ReturnPageForTuple => 4
  }

  /** The stage declared at place `n`. */
  function StageAt(n: nat): Stage
    requires n <= 4
  {
    if n == 0 then TransferHalfData
    else if n == 1 then UpdateOldPageRightSibling
    else if n == 2 then UpdatePagePointer
    else if n == 3 then UpdateParentPagePointer
    else ReturnPageForTuple
  }

  /** hasNext: every stage but the last has a successor. */
  function HasNext(s: Stage): bool
  {
    s != ReturnPageForTuple
  }

  /** next: the successor stage, null after the last one. Each step moves
      one place down the declaration order. */
  function Next(s: Stage): (r: Option<Stage>)
    ensures r.Some? <==> HasNext(s)
    ensures r.Some? ==> Ordinal(r.value) == Ordinal(s) + 1
  {
    match s
    case TransferHalfData => Some(UpdateOldPageRightSibling)
    case UpdateOldPageRightSibling => Some(UpdatePagePointer)
    case UpdatePagePointer => Some(UpdateParentPagePointer)
    case UpdateParentPagePointer => Some(ReturnPageForTuple)
    case ReturnPageForTuple => None
  }

  /** `k` calls of next, starting from `s`; null once the chain has ended. */
  function Follow(s: Stage, k: nat): Option<Stage>
    decreases k
  {
    if k == 0 then Some(s)
    else match Next(s)
      case None => None
      case Some(t) => Follow(t, k - 1)
  }

  /** StageAt and Ordinal are inverse. */
  lemma StageAtOrdinal(s: Stage)
    ensures StageAt(Ordinal(s)) == s
  {
  }

  /** Following next `k` times walks down the declaration order `k`
      places, and ends in null past the last stage. */
  lemma {:induction false} FollowChain(s: Stage, k: nat)
    ensures Follow(s, k) == if Ordinal(s) + k <= 4 then Some(StageAt(Ordinal(s) + k)) else None
    decreases k
  {
    if k > 0 {
      match Next(s)
      case None =>
      case Some(t) =>
        FollowChain(t, k - 1);
    } else {
      StageAtOrdinal(s);
    }
  }

  /** From any stage the chain reaches RETURN_PAGE_FOR_TUPLE in at most
      four calls of next, passing only stages that have a successor, and
      the first split stage starts a chain through all five stages. */
  lemma ReachesTerminal(s: Stage)
    ensures Ordinal(s) <= 4
    ensures Follow(s, 4 - Ordinal(s)) == Some(ReturnPageForTuple)
    ensures forall k :: 0 <= k < 4 - Ordinal(s) ==> Follow(s, k).Some? && HasNext(Follow(s, k).value)
    ensures Follow(s, 5 - Ordinal(s)) == None
  {
    FollowChain(s, 4 - Ordinal(s));
    FollowChain(s, 5 - Ordinal(s));
    forall k | 0 <= k < 4 - Ordinal(s)
      ensures Follow(s, k).Some? && HasNext(Follow(s, k).value)
    {
      FollowChain(s, k);
    }
  }

  /** The tuples with the first occurrence of `t` taken out; unchanged when
      `t` does not occur. */
  function RemoveFirst<T(==)>(ts: seq<T>, t: T): (r: seq<T>)
    ensures t in ts ==> |r| == |ts| - 1 && multiset(r) == multiset(ts) - multiset{t}
    ensures t !in ts ==> r == ts
  {
    if ts == [] then []
    else
      assert ts == [ts[0]] + ts[1..];
      if ts[0] == t then ts[1..] else [ts[0]] + RemoveFirst(ts[1..], t)
  }

  /** Removing an element that does not occur before its position in
      `b` removes it there. */
  lemma {:induction false} RemoveFirstAfter<T>(a: seq<T>, b: seq<T>)
    requires b != [] && b[0] !in a
    ensures RemoveFirst(a + b, b[0]) == a + b[1..]
  {
    if a != [] {
      assert (a + b)[1..] == a[1..] + b;
      RemoveFirstAfter(a[1..], b);
    } else {
      assert a + b == b;
    }
  }

  /** No tuple occurs twice. */
  predicate Unique<T(==)>(ts: seq<T>)
  {
    forall i, j :: 0 <= i < j < |ts| ==> ts[i] != ts[j]
  }

  /** A B-tree leaf page, seen as the sequence of its tuples; a tuple is
      any value of type `T`, compared by equality. */
  class LeafPage<T(==)> {
    var tuples: seq<T>

    constructor (tuples: seq<T>)
      ensures this.tuples == tuples
    {
      this.tuples := tuples;
    }

    function NumTuples(): (n: nat)
      reads this
      ensures n == |tuples|
    {
      |tuples|
    }

    /** insertTuple: the tuple joins the page after those already on it. */
    method InsertTuple(t: T)
      modifies this
      ensures tuples == old(tuples) + [t]
    {
      tuples := tuples + [t];
    }

    /** deleteTuple: the first tuple equal to `t` leaves the page. */
    method DeleteTuple(t: T)
      modifies this
      ensures tuples == RemoveFirst(old(tuples), t)
    {
      tuples := RemoveFirst(tuples, t);
    }
  }

  /** TRANSFER_HALF_DATA: the last n/2 of the source's n tuples are pushed,
      read backwards, onto a stack, then popped one by one, each inserted
      into the destination and deleted from the source. The destination
      gains them in the source's order; the source keeps the rest, its
      first n - n/2 tuples (as a multiset, and in order when no tuple
      occurs twice); no tuple is gained or lost. */
  method TransferHalf<T(==)>(source: LeafPage<T>, dest: LeafPage<T>)
    requires source != dest
    modifies source, dest
    ensures var s, n := old(source.tuples), |old(source.tuples)|;
            dest.tuples == old(dest.tuples) + s[n - n / 2..] &&
            |source.tuples| == n - n / 2 &&
            multiset(source.tuples) == multiset(s[..n - n / 2]) &&
            (Unique(s) ==> source.tuples == s[..n - n / 2])
    ensures multiset(source.tuples) + multiset(dest.tuples) == multiset(old(source.tuples)) + multiset(old(dest.tuples))
  {
    ghost var s := source.tuples;
    var stack := PushUpper(source);
    PopAll(source, dest, stack);
    assert s == s[..|s| - |s| / 2] + s[|s| - |s| / 2..];
  }

  /** The first loop: the source's reverse iterator read while fewer than
      n/2 tuples are on the stack; the stack ends with the last n/2
      tuples, the last one at its bottom. */
  method PushUpper<T(==)>(source: LeafPage<T>) returns (stack: seq<T>)
    ensures var n := |source.tuples|;
            |stack| == n / 2 && forall k :: 0 <= k < |stack| ==> stack[k] == source.tuples[n - 1 - k]
  {
    var n := source.NumTuples();
    var cursor := n;
    stack := [];
    var moving := n / 2;
    while cursor > 0 && moving > 0
      invariant 0 <= cursor <= n && |stack| == n - cursor && moving == n / 2 - |stack| && moving >= 0
      invariant forall k :: 0 <= k < |stack| ==> stack[k] == source.tuples[n - 1 - k]
    {
      stack := stack + [source.tuples[cursor - 1]];
      cursor := cursor - 1;
      moving := moving - 1;
    }
  }

  /** The second loop: each popped tuple is inserted into the destination
      and deleted from the source, so the destination gains the stacked
      tuples top first and the source keeps the tuples below them. */
  method PopAll<T(==)>(source: LeafPage<T>, dest: LeafPage<T>, stack0: seq<T>)
    requires source != dest && |stack0| <= |source.tuples|
    requires forall k :: 0 <= k < |stack0| ==> stack0[k] == source.tuples[|source.tuples| - 1 - k]
    modifies source, dest
    ensures var s, keep := old(source.tuples), |old(source.tuples)| - |stack0|;
            dest.tuples == old(dest.tuples) + s[keep..] &&
            multiset(source.tuples) == multiset(s[..keep]) &&
            (Unique(s) ==> source.tuples == s[..keep])
  {
    ghost var s, d := source.tuples, dest.tuples;
    ghost var keep := |s| - |stack0|;
    var stack := stack0;
    ghost var done := 0;
    assert s == s[..keep] + s[keep..];
    while stack != []
      invariant |stack| + done == |stack0| && keep + done <= |s| && source != dest
      invariant dest.tuples == d + s[keep..keep + done]
      invariant forall k :: 0 <= k < |stack| ==> stack[k] == s[|s| - 1 - k]
      invariant multiset(source.tuples) == multiset(s[..keep]) + multiset(s[keep + done..])
      invariant Unique(s) ==> source.tuples == s[..keep] + s[keep + done..]
      decreases |stack|
    {
      stack, done := PopOne(source, dest, stack, s, d, keep, done);
    }
    assert s[keep..keep + done] == s[keep..];
    assert s[keep + done..] == [];
  }

  /** One round of the second loop: the top of the stack, the next tuple
      above the kept ones, moves from the source to the destination. */
  method PopOne<T(==)>(source: LeafPage<T>, dest: LeafPage<T>, stack: seq<T>, ghost s: seq<T>, ghost d: seq<T>,
                ghost keep: nat, ghost done: nat)
    returns (rest: seq<T>, ghost done': nat)
    requires source != dest && stack != [] && |stack| + done + keep == |s|
    requires dest.tuples == d + s[keep..keep + done]
    requires forall k :: 0 <= k < |stack| ==> stack[k] == s[|s| - 1 - k]
    requires multiset(source.tuples) == multiset(s[..keep]) + multiset(s[keep + done..])
    requires Unique(s) ==> source.tuples == s[..keep] + s[keep + done..]
    modifies source, dest
    ensures done' == done + 1 && rest == stack[..|stack| - 1]
    ensures dest.tuples == d + s[keep..keep + done']
    ensures multiset(source.tuples) == multiset(s[..keep]) + multiset(s[keep + done'..])
    ensures Unique(s) ==> source.tuples == s[..keep] + s[keep + done'..]
  {
    var t: T := stack[|stack| - 1];
    rest := stack[..|stack| - 1];
    assert t == s[keep + done];
    ghost var before := source.tuples;
    dest.InsertTuple(t);
    MovedStep(s, d, keep, done);
    source.DeleteTuple(t);
    PopStep(s, keep, done, before, t);
    done' := done + 1;
  }

  /** The destination after one more pop gains the next tuple above the
      kept ones. */
  lemma MovedStep<T>(s: seq<T>, d: seq<T>, keep: nat, done: nat)
    requires keep + done < |s|
    ensures d + s[keep..keep + done] + [s[keep + done]] == d + s[keep..keep + done + 1]
  {
    assert s[keep..keep + done + 1] == s[keep..keep + done] + [s[keep + done]];
  }

  /** Deleting the next popped tuple from a source holding its first
      `keep` tuples and those not yet popped leaves it holding the first
      `keep` and the rest after the popped one: as a multiset always, and
      as a sequence when no tuple occurs twice. */
  lemma PopStep<T>(s: seq<T>, keep: nat, done: nat, before: seq<T>, t: T)
    requires keep + done < |s| && t == s[keep + done]
    requires multiset(before) == multiset(s[..keep]) + multiset(s[keep + done..])
    requires Unique(s) ==> before == s[..keep] + s[keep + done..]
    ensures multiset(RemoveFirst(before, t)) == multiset(s[..keep]) + multiset(s[keep + done + 1..])
    ensures Unique(s) ==> RemoveFirst(before, t) == s[..keep] + s[keep + done + 1..]
  {
    assert s[keep + done..] == [t] + s[keep + done + 1..];
    assert t in multiset(before);
    if Unique(s) {
      assert t !in s[..keep];
      RemoveFirstAfter(s[..keep], s[keep + done..]);
    }
  }

  /** action: TRANSFER_HALF_DATA moves half of the source's tuples; the
      other four stages change neither page. */
  method Action<T(==)>(stage: Stage, source: LeafPage<T>, dest: LeafPage<T>)
    requires source != dest
    modifies source, dest
    ensures stage != TransferHalfData ==> source.tuples == old(source.tuples) && dest.tuples == old(dest.tuples)
    ensures stage == TransferHalfData ==>
              var s, n := old(source.tuples), |old(source.tuples)|;
              dest.tuples == old(dest.tuples) + s[n - n / 2..] &&
              multiset(source.tuples) == multiset(s[..n - n / 2]) &&
              (Unique(s) ==> source.tuples == s[..n - n / 2])
  {
    match stage
    case TransferHalfData =>
      TransferHalf(source, dest);
    case UpdateOldPageRightSibling =>
    case UpdatePagePointer =>
    case UpdateParentPagePointer =>
    case ReturnPageForTuple =>
  }
}
