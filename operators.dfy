/** The Insert and Aggregate operators (Insert.java, Aggregate.java).

    An operator's child is an OpIterator; OpIterator and the operators
    that implement it are not part of this model, so a child is a fixed
    sequence of rows read through a cursor. */
module Operators {
  import opened Wrappers
  import opened JavaInt
  import opened Ids
  import opened Schema
  import opened Aggregation
  import Storage

  /** A child operator: its schema, the rows it yields after open(), and
      how many of them have been read. */
  class ChildIterator {
    const desc: TupleDesc
    const rows: seq<Tuple>
    var pos: nat

    ghost predicate Valid()
      reads this
    {
      pos <= |rows|
    }

    constructor (desc: TupleDesc, rows: seq<Tuple>)
      ensures Valid() && this.desc == desc && this.rows == rows && pos == 0
    {
      this.desc, this.rows, pos := desc, rows, 0;
    }

    /** open(): iteration starts from the first row. */
    method Open()
      modifies this
      ensures pos == 0
    {
      pos := 0;
    }

    function HasNext(): (b: bool)
      reads this
    {
      pos < |rows|
    }

    method Next() returns (t: Tuple)
      requires Valid() && HasNext()
      modifies this
      ensures Valid() && t == rows[old(pos)] && pos == old(pos) + 1
    {
      t := rows[pos];
      pos := pos + 1;
    }
  }

  /** `s` is `t` as the buffer pool stored it in table `tableId`: the same
      schema and fields, stamped with a record id on one of the table's
      pages. */
  ghost predicate StoredAs(t: Tuple, s: Tuple, tableId: Int32)
  {
    s.recordId.Some? && s == t.(recordId := s.recordId) && s.recordId.value.pageId.tableId == tableId
  }

  /** `s` is `t` as BufferPool.insertTuple left it: it sits in its slot on
      its cached page, which tid has dirtied. */
  ghost predicate Placed(pool: Storage.BufferPool, tid: TransactionId, t: Tuple, s: Tuple)
    reads pool.cache, pool.cache.pages.Values, Storage.PageArrays(pool.cache.pages)
  {
    s.recordId.Some? && s.recordId.value.pageId in pool.cache.pages &&
    Storage.Inserted(pool.cache.pages[s.recordId.value.pageId], tid, t, s)
  }

  /** The `stored` tuples are, one for one, the pool's copies of the child
      rows from `start` on. */
  ghost predicate AllStoredAs(rows: seq<Tuple>, start: nat, stored: seq<Tuple>, tableId: Int32)
  {
    start + |stored| <= |rows| &&
    forall i :: 0 <= i < |stored| ==> StoredAs(rows[start + i], stored[i], tableId)
  }

  /** The last of the `stored` tuples is child row `start + |stored| - 1`
      as the pool placed it. */
  ghost predicate LastStored(pool: Storage.BufferPool, tid: TransactionId, rows: seq<Tuple>, start: nat, stored: seq<Tuple>)
    reads pool.cache, pool.cache.pages.Values, Storage.PageArrays(pool.cache.pages)
  {
    |stored| > 0 && start + |stored| <= |rows| &&
    Placed(pool, tid, rows[start + |stored| - 1], stored[|stored| - 1])
  }

  /** The stored tuples stay row-for-row copies of the child's rows when
      the copy of the next row is appended. */
  lemma StoredAsAppend(rows: seq<Tuple>, start: nat, stored: seq<Tuple>, s: Tuple, tableId: Int32)
    requires start + |stored| < |rows|
    requires AllStoredAs(rows, start, stored, tableId)
    requires StoredAs(rows[start + |stored|], s, tableId)
    ensures AllStoredAs(rows, start, stored + [s], tableId)
  {
    forall i | 0 <= i < |stored + [s]|
      ensures StoredAs(rows[start + i], (stored + [s])[i], tableId)
    {
      if i < |stored| {
        assert (stored + [s])[i] == stored[i];
      }
    }
  }

  /** fetchNext's counter, a Java int, stays the wrapped number of tuples
      stored when one more is stored. */
  lemma CountNext(counter: Int32, stored: seq<Tuple>, s: Tuple)
    requires counter == Wrap(|stored|)
    ensures Add(counter, 1) == Wrap(|stored + [s]|)
  {
    AddWrap(|stored|, 1);
  }

  /** Appending the tuple the pool just placed for the next row makes it
      the last one stored. */
  lemma LastStoredAppend(pool: Storage.BufferPool, tid: TransactionId, rows: seq<Tuple>, start: nat,
                         stored: seq<Tuple>, s: Tuple)
    requires start + |stored| < |rows|
    requires Placed(pool, tid, rows[start + |stored|], s)
    ensures LastStored(pool, tid, rows, start, stored + [s])
  {
    assert (stored + [s])[|stored|] == s;
  }

  /** Insert: reads every remaining child tuple, inserts each through the
      buffer pool into table `tableId`, and yields one INT tuple holding
      the count; later calls yield nothing until rewind. */
  class Insert {
    const tid: TransactionId
    const tableId: Int32
    const child: ChildIterator
    const pool: Storage.BufferPool
    const tupleDesc: TupleDesc
    var done: bool

    /** The output schema is a single INT column, named as TupleDesc(typeAr)
        names it. */
    constructor (pool: Storage.BufferPool, tid: TransactionId, child: ChildIterator, tableId: Int32)
      ensures this.pool == pool && this.tid == tid && this.child == child && this.tableId == tableId && !done
      ensures tupleDesc == TupleDesc([ColumnMeta(IntType, Some(AnonymousFieldName))])
    {
      this.pool, this.tid, this.child, this.tableId := pool, tid, child, tableId;
      var td := NewAnonymous([IntType]);
      tupleDesc := td;
      done := false;
    }

    /** fetchNext: null once done. Otherwise every remaining child tuple is
        inserted in turn; the first failing insertion ends the call with
        its exception (the count is lost and `done` stays false), and when
        all succeed the result is (counter), with counter a Java int
        incremented per tuple, and `done` is set. */
    method FetchNext() returns (r: Result<Option<Tuple>>, ghost stored: seq<Tuple>)
      requires pool.Valid() && child.Valid()
      modifies this, child, pool.cache, pool.lockManager, pool.lockManager.transactionManager, pool.catalog.Values,
               pool.cache.pages.Values, Storage.PageArrays(pool.cache.pages)
      ensures pool.Valid() && child.Valid()
      ensures old(done) ==> r == Ok(None) && done && child.pos == old(child.pos) && stored == [] && unchanged(pool.cache)
      ensures !old(done) ==>
                old(child.pos) + |stored| <= child.pos <= |child.rows| &&
                AllStoredAs(child.rows, old(child.pos), stored, tableId)
      ensures !old(done) && r.Ok? ==>
                done && child.pos == |child.rows| && |stored| == |child.rows| - old(child.pos) &&
                r.value == Some(Tuple(tupleDesc, [IntField(Wrap(|stored|))], None))
      ensures r.Err? ==> !old(done) && !done && old(child.pos) < |child.rows|
      ensures !old(done) && r.Ok? && |stored| > 0 ==> LastStored(pool, tid, child.rows, old(child.pos), stored)
      ensures !old(done) && old(child.pos) < |child.rows| && tableId !in pool.catalog ==> r == Err(NoSuchElement)
    {
      stored := [];
      if done {
        return Ok(None), stored;
      }
      var inserted, counter;
      inserted, counter, stored := InsertAll();
      if inserted.Fail? {
        return Err(inserted.error), stored;
      }
      done := true;
      r := Ok(Some(Tuple(tupleDesc, [IntField(counter)], None)));
    }

    /** fetchNext's loop: while the child has a tuple, insert it and count
        it, until an insertion throws. */
    method InsertAll() returns (r: Outcome, counter: Int32, ghost stored: seq<Tuple>)
      requires pool.Valid() && child.Valid()
      modifies child, pool.cache, pool.lockManager, pool.lockManager.transactionManager, pool.catalog.Values,
               pool.cache.pages.Values, Storage.PageArrays(pool.cache.pages)
      ensures pool.Valid() && child.Valid() && done == old(done)
      ensures counter == Wrap(|stored|)
      ensures old(child.pos) + |stored| <= child.pos <= |child.rows|
      ensures AllStoredAs(child.rows, old(child.pos), stored, tableId)
      ensures r.Pass? ==> child.pos == |child.rows| && |stored| == |child.rows| - old(child.pos)
      ensures r.Fail? ==> old(child.pos) < |child.rows|
      ensures r.Pass? && |stored| > 0 ==> LastStored(pool, tid, child.rows, old(child.pos), stored)
      ensures old(child.pos) < |child.rows| && tableId !in pool.catalog ==> r == Fail(NoSuchElement)
    {
      counter, r, stored := 0, Pass, [];
      ghost var start := child.pos;
      while r.Pass? && child.HasNext()
        invariant pool.Valid() && child.Valid() && done == old(done)
        invariant start + |stored| + (if r.Pass? then 0 else 1) == child.pos
        invariant tableId !in pool.catalog ==> stored == [] && (child.pos > start ==> r == Fail(NoSuchElement))
        invariant counter == Wrap(|stored|)
        invariant AllStoredAs(child.rows, start, stored, tableId)
        invariant r.Pass? && |stored| > 0 ==> LastStored(pool, tid, child.rows, start, stored)
        invariant (forall p :: p in pool.cache.pages.Values ==> p in old(pool.cache.pages.Values) || fresh(p))
        invariant (forall a :: a in Storage.PageArrays(pool.cache.pages) ==> a in old(Storage.PageArrays(pool.cache.pages)) || fresh(a))
        decreases |child.rows| - child.pos, if r.Pass? then 1 else 0
      {
        r, counter, stored := InsertNext(counter, stored, start);
      }
    }

    /** One turn of fetchNext's loop: the child's next tuple is inserted
        through the buffer pool and, if that succeeds, counted. The pool
        stays valid, an unknown table is rejected, a stored tuple is the
        child's stamped with a record id in the table, and every cached
        page is one cached before or a new one. */
    method InsertNext(counter: Int32, ghost stored: seq<Tuple>, ghost start: nat)
      returns (r: Outcome, counter': Int32, ghost stored': seq<Tuple>)
      requires pool.Valid() && child.Valid() && child.HasNext()
      requires start + |stored| == child.pos && counter == Wrap(|stored|)
      requires AllStoredAs(child.rows, start, stored, tableId)
      requires tableId !in pool.catalog ==> stored == []
      modifies child, pool.cache, pool.lockManager, pool.lockManager.transactionManager, pool.catalog.Values,
               pool.cache.pages.Values, Storage.PageArrays(pool.cache.pages)
      ensures pool.Valid() && child.Valid() && done == old(done) && child.pos == old(child.pos) + 1
      ensures start + |stored'| + (if r.Pass? then 0 else 1) == child.pos && counter' == Wrap(|stored'|)
      ensures AllStoredAs(child.rows, start, stored', tableId)
      ensures tableId !in pool.catalog ==> stored' == [] && r == Fail(NoSuchElement)
      ensures r.Pass? ==> LastStored(pool, tid, child.rows, start, stored')
      ensures (forall p :: p in pool.cache.pages.Values ==> p in old(pool.cache.pages.Values) || fresh(p))
      ensures (forall a :: a in Storage.PageArrays(pool.cache.pages) ==> a in old(Storage.PageArrays(pool.cache.pages)) || fresh(a))
    {
      var t := child.Next();
      ghost var s;
      r, s := Store(t);
      counter', stored' := counter, stored;
      if r.Pass? {
        stored' := stored + [s];
        StoredAsAppend(child.rows, start, stored, s, tableId);
        LastStoredAppend(pool, tid, child.rows, start, stored, s);
        CountNext(counter, stored, s);
        counter' := Add(counter, 1);
      }
    }

    /** BufferPool.insertTuple, as this operator calls it: the pool
        stays valid, an unknown table is rejected, a stored tuple is
        stamped with a record id in the table, every cached page is one
        cached before or a new one, and the operator and its child are left
        alone. */
    method Store(t: Tuple) returns (r: Outcome, ghost s: Tuple)
      requires pool.Valid()
      modifies pool.cache, pool.lockManager, pool.lockManager.transactionManager, pool.catalog.Values,
               pool.cache.pages.Values, Storage.PageArrays(pool.cache.pages)
      ensures pool.Valid() && done == old(done) && child.pos == old(child.pos)
      ensures tableId !in pool.catalog ==> r == Fail(NoSuchElement)
      ensures r.Pass? ==> StoredAs(t, s, tableId)
      ensures r.Pass? ==> Placed(pool, tid, t, s)
      ensures (forall p :: p in pool.cache.pages.Values ==> p in old(pool.cache.pages.Values) || fresh(p))
      ensures (forall a :: a in Storage.PageArrays(pool.cache.pages) ==> a in old(Storage.PageArrays(pool.cache.pages)) || fresh(a))
    {
      r, s := pool.InsertTuple(tid, tableId, t);
      forall a | a in Storage.PageArrays(pool.cache.pages)
        ensures a in old(Storage.PageArrays(pool.cache.pages)) || fresh(a)
      {
        var k :| k in pool.cache.pages && (a == pool.cache.pages[k].header || a == pool.cache.pages[k].tuples);
      }
    }

    /** rewind: close, open (the child starts again) and clear `done`, so
        the next fetchNext inserts again. */
    method Rewind()
      modifies this, child
      ensures !done && child.pos == 0
    {
      child.Open();
      done := false;
    }
  }

  /** createTupleDesc: (INT) named after the aggregate field without
      grouping, (group-by type, INT) named after the group-by and aggregate
      fields with it; a bad field index throws. */
  function OutputSchema(origin: TupleDesc, gfield: int, afield: int, fieldType: Option<FieldType>): (r: Result<TupleDesc>)
    requires gfield != NoGrouping ==> fieldType.Some?
    ensures r.Ok? <==> 0 <= afield < |origin.columns| && (gfield != NoGrouping ==> 0 <= gfield < |origin.columns|)
    ensures r.Err? ==> r.error == IndexOutOfBounds
    ensures r.Ok? && gfield == NoGrouping ==> r.value.columns == [ColumnMeta(IntType, origin.columns[afield].fieldName)]
    ensures r.Ok? && gfield != NoGrouping ==>
              r.value.columns == [ColumnMeta(fieldType.value, origin.columns[gfield].fieldName),
                                  ColumnMeta(IntType, origin.columns[afield].fieldName)]
  {
    if gfield == NoGrouping then
      if 0 <= afield < |origin.columns| then Ok(TupleDesc([ColumnMeta(IntType, origin.columns[afield].fieldName)]))
      else Err(IndexOutOfBounds)
    else if 0 <= gfield < |origin.columns| && 0 <= afield < |origin.columns| then
      Ok(TupleDesc([ColumnMeta(fieldType.value, origin.columns[gfield].fieldName),
                    ColumnMeta(IntType, origin.columns[afield].fieldName)]))
    else Err(IndexOutOfBounds)
  }

  /** The schema getTupleDesc advertises agrees with the schema of the
      tuples the aggregator emits when grouping; without grouping they
      differ unless the aggregate field is named "". */
  lemma AdvertisedSchema(origin: TupleDesc, gfield: int, afield: int, fieldType: Option<FieldType>, op: Op)
    requires gfield != NoGrouping ==> fieldType.Some?
    requires OutputSchema(origin, gfield, afield, fieldType).Ok?
    ensures var f := Factory(fieldType, gfield, afield, op);
            f.Schema(origin).Ok? &&
            (OutputSchema(origin, gfield, afield, fieldType) == f.Schema(origin) <==>
               gfield != NoGrouping || origin.columns[afield].fieldName == Some(""))
  {
    var f := Factory(fieldType, gfield, afield, op);
    if gfield == NoGrouping && OutputSchema(origin, gfield, afield, fieldType) == f.Schema(origin) {
      assert OutputSchema(origin, gfield, afield, fieldType).value.columns[0] == f.Schema(origin).value.columns[0];
    }
  }

  /** Merging stops at the first failure: a failed prefix decides the
      whole feed. */
  lemma {:induction false} FailureSticks(f: Factory, ts: seq<Tuple>, n: nat)
    requires f.Typed() && n <= |ts| && MergeAllDefault(f, ts[..n]).0.Fail?
    ensures MergeAllDefault(f, ts) == MergeAllDefault(f, ts[..n])
    decreases |ts| - n
  {
    if n < |ts| {
      assert ts[..n + 1][..n] == ts[..n];
      FailureSticks(f, ts, n + 1);
    } else {
      assert ts[..n] == ts;
    }
  }

  /** Aggregate: groups the child's tuples with a DefaultAggregator and
      yields one row per group. */
  class Aggregate {
    const child: ChildIterator
    const afield: int
    const gfield: int
    const operator: Op
    const fieldType: Option<FieldType>
    /** getResult of a DefaultAggregatedGroup, given the tuples it
        aggregated. */
    const result: seq<Tuple> -> Int32
    /** The TupleIterator open() built: its rows, and how many were read. */
    var output: Option<seq<Tuple>>
    var cursor: nat
    /** The cached getTupleDesc. */
    var td: Option<TupleDesc>

    ghost predicate Valid()
      reads this, child
    {
      child.Valid() && (gfield != NoGrouping ==> fieldType.Some?)
    }

    /** The factory the aggregator open() builds is configured with. */
    function Grouping(): (f: Factory)
      ensures f.fieldType == fieldType && f.groupByFieldIndex == gfield && f.aggregatedFieldIndex == afield && f.op == operator
    {
      Factory(fieldType, gfield, afield, operator)
    }

    /** The group-by field's type is read from the child's schema. */
    constructor (child: ChildIterator, afield: int, gfield: int, aop: Op, result: seq<Tuple> -> Int32)
      requires child.Valid()
      requires gfield != NoGrouping ==> 0 <= gfield < |child.desc.columns|
      ensures Valid() && this.child == child && this.result == result && output == None && td == None
      ensures AggregateField() == afield && GroupField() == gfield && AggregateOp() == aop
      ensures fieldType == if gfield == NoGrouping then None else Some(child.desc.columns[gfield].fieldType)
    {
      this.child, this.afield, this.gfield, operator, this.result := child, afield, gfield, aop, result;
      fieldType := if gfield == NoGrouping then None else Some(child.desc.columns[gfield].fieldType);
      output, cursor, td := None, 0, None;
    }

    function GroupField(): int { gfield }

    function AggregateField(): int { afield }

    function AggregateOp(): Op { operator }

    /** groupFieldName: the child's name for the group-by field. */
    function GroupFieldName(): (r: Result<Option<string>>)
      ensures r.Ok? <==> 0 <= gfield < |child.desc.columns|
      ensures r.Ok? ==> r.value == child.desc.columns[gfield].fieldName
      ensures r.Err? ==> r.error == IndexOutOfBounds
    {
      if 0 <= gfield < |child.desc.columns| then Ok(child.desc.columns[gfield].fieldName) else Err(IndexOutOfBounds)
    }

    /** aggregateFieldName: the child's name for the aggregate field. */
    function AggregateFieldName(): (r: Result<Option<string>>)
      ensures r.Ok? <==> 0 <= afield < |child.desc.columns|
      ensures r.Ok? ==> r.value == child.desc.columns[afield].fieldName
      ensures r.Err? ==> r.error == IndexOutOfBounds
    {
      if 0 <= afield < |child.desc.columns| then Ok(child.desc.columns[afield].fieldName) else Err(IndexOutOfBounds)
    }

    /** open: reopen the child, merge every child tuple once into a fresh
        aggregator, and iterate its groups: one row per distinct group key
        of the child's tuples, holding the result over exactly the tuples
        with that key. A merge that throws ends open with the previous
        iterator in place. */
    method Open() returns (r: Outcome, ghost order: seq<Field>)
      requires Valid()
      modifies this, child
      ensures Valid() && td == old(td)
      ensures r == MergeAllDefault(Grouping(), child.rows).0
      ensures r.Fail? ==> output == old(output) && cursor == old(cursor)
      ensures r.Pass? ==> child.pos == |child.rows| && output.Some? && cursor == 0 && Distinct(order) && |output.value| == |order|
      ensures r.Pass? ==> forall k :: k in order <==> KeyOf(Grouping(), child.rows, k)
      ensures r.Pass? && child.rows != [] ==> Grouping().Schema(child.rows[0].desc).Ok?
      ensures r.Pass? ==>
                forall i :: 0 <= i < |order| ==>
                  child.rows != [] &&
                  output.value[i] == Row(Grouping().Schema(child.rows[0].desc).value, gfield != NoGrouping, order[i],
                                         result(KeyedBy(Grouping(), child.rows, order[i])))
    {
      child.Open();
      var aggregator := new DefaultAggregator(gfield, fieldType, afield, operator, result);
      order := [];
      r := MergeChild(aggregator);
      if r.Fail? {
        return;
      }
      GroupsPartition(Grouping(), child.rows);
      var rows;
      rows, order := aggregator.Iterator();
      output, cursor := Some(rows), 0;
    }

    /** The merge loop of open: every child tuple from the current position
        on, in order, until one throws. */
    method MergeChild(aggregator: DefaultAggregator) returns (r: Outcome)
      requires child.Valid() && child.pos == 0 && aggregator.Valid()
      requires aggregator.factory == Grouping() && aggregator.State() == Table(None, map[])
      modifies child, aggregator
      ensures child.Valid() && aggregator.Valid()
      ensures (r, aggregator.State()) == MergeAllDefault(Grouping(), child.rows)
      ensures r.Pass? ==> child.pos == |child.rows|
    {
      r := Pass;
      while child.HasNext()
        invariant child.Valid() && aggregator.Valid()
        invariant r == Pass && (Pass, aggregator.State()) == MergeAllDefault(Grouping(), child.rows[..child.pos])
        decreases |child.rows| - child.pos
      {
        ghost var n := child.pos;
        var t := child.Next();
        assert child.rows[..n + 1][..n] == child.rows[..n];
        r := aggregator.MergeTupleIntoGroup(t);
        if r.Fail? {
          FailureSticks(Grouping(), child.rows, n + 1);
          return;
        }
      }
      assert child.rows[..child.pos] == child.rows;
    }

    /** fetchNext: the next row of the iterator, null once it is
        exhausted; a null dereference before the first open. */
    method FetchNext() returns (r: Result<Option<Tuple>>)
      modifies this
      ensures output == old(output) && td == old(td)
      ensures old(output).None? ==> r == Err(NullPointer) && cursor == old(cursor)
      ensures old(output).Some? && old(cursor) < |output.value| ==>
                r == Ok(Some(output.value[old(cursor)])) && cursor == old(cursor) + 1
      ensures old(output).Some? && old(cursor) >= |output.value| ==> r == Ok(None) && cursor == old(cursor)
    {
      if output.None? {
        return Err(NullPointer);
      }
      if cursor < |output.value| {
        r := Ok(Some(output.value[cursor]));
        cursor := cursor + 1;
      } else {
        r := Ok(None);
      }
    }

    /** close: closing the iterator is a null dereference before the first
        open; nothing else here changes. */
    method Close() returns (r: Outcome)
      ensures r == if output.None? then Fail(NullPointer) else Pass
    {
      r := if output.None? then Fail(NullPointer) else Pass;
    }

    /** rewind: close, then open, which rebuilds the groups from scratch. */
    method Rewind() returns (r: Outcome, ghost order: seq<Field>)
      requires Valid()
      modifies this, child
      ensures Valid() && td == old(td)
      ensures old(output).None? ==> r == Fail(NullPointer) && output == None && child.pos == old(child.pos)
      ensures old(output).Some? ==> r == MergeAllDefault(Grouping(), child.rows).0
      ensures r.Pass? ==> child.pos == |child.rows| && output.Some? && cursor == 0 && Distinct(order) && |output.value| == |order|
      ensures r.Pass? ==> forall k :: k in order <==> KeyOf(Grouping(), child.rows, k)
    {
      order := [];
      r := Close();
      if r.Fail? {
        return;
      }
      r, order := Open();
    }

    /** getTupleDesc: computed by createTupleDesc on the first call and
        cached. */
    method GetTupleDesc() returns (r: Result<TupleDesc>)
      requires Valid()
      modifies this
      ensures output == old(output) && cursor == old(cursor)
      ensures old(td).Some? ==> r == Ok(old(td).value) && td == old(td)
      ensures old(td).None? ==> r == OutputSchema(child.desc, gfield, afield, fieldType) && td == (if r.Ok? then Some(r.value) else None)
    {
      if td.Some? {
        return Ok(td.value);
      }
      r := OutputSchema(child.desc, gfield, afield, fieldType);
      if r.Ok? {
        td := Some(r.value);
      }
    }
  }
}
