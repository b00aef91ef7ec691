/** Grouped aggregation (package simpledb.execution.aggregator and
    StringAggregator.java).

    A group aggregator keeps a Calculator of four Java ints (counter, running
    sum, max and min) and updates only the ones its operator needs; the
    Integer and String variants differ in three hooks. An aggregator routes
    every merged tuple to the group of its group-by field (or to one default
    group), creating each group once, fixes its output schema on the first
    tuple, and emits one row per group. */
module Aggregation {
  import opened Wrappers
  import opened JavaInt
  import opened Schema

  /** Aggregator.NO_GROUPING. */
  const NoGrouping: int := -1

  /** Aggregator.Op. Aggregator.java is not part of this model; SUM_COUNT and
      SC_AVG are the two operators SimpleDB declares beyond the five that
      the calculator handles. */
  datatype Op = Min | Max | Sum | Avg | Count | SumCount | ScAvg

  /** The group aggregator class the factory builds. */
  datatype Kind = IntegerKind | StringKind

  /** The Calculator's fields. */
  datatype Calculator = Calculator(counter: Int32, number: Int32, max: Int32, min: Int32)

  /** A new Calculator: no tuples, sum 0, max and min at their sentinels. */
  const Start: Calculator := Calculator(0, 0, MinValue, MaxValue)

  /** tuple.getField(i). Tuple.java is not part of this model; an index
      outside the tuple is taken to throw. */
  function FieldAt(t: Tuple, i: int): Result<Field>
  {
    if 0 <= i < |t.fields| then Ok(t.fields[i]) else Err(IndexOutOfBounds)
  }

  /** `((IntField) f).getValue()`: a string field fails the cast. */
  function IntValue(f: Field): Result<Int32>
  {
    if f.IntField? then Ok(f.intValue) else Err(ClassCast)
  }

  /** calculateMax: Math.max of the running max and the field for integer
      groups; string groups always throw. */
  function CalculateMax(kind: Kind, c: Calculator, f: Field): (r: Result<Int32>)
    ensures kind.StringKind? ==> r == Err(IllegalArgument)
    ensures kind.IntegerKind? && f.IntField? ==> r.Ok? && c.max <= r.value && f.intValue <= r.value
    ensures r.Ok? ==> f.IntField? && (r.value == c.max || r.value == f.intValue)
  {
    match kind
    case StringKind => Err(IllegalArgument)
    case IntegerKind =>
      match IntValue(f)
      case Err(e) => Err(e)
      case Ok(v) => Ok(if c.max >= v then c.max else v)
  }

  /** calculateMin: Math.min of the running min and the field for integer
      groups; string groups always throw. */
  function CalculateMin(kind: Kind, c: Calculator, f: Field): (r: Result<Int32>)
    ensures kind.StringKind? ==> r == Err(IllegalArgument)
    ensures kind.IntegerKind? && f.IntField? ==> r.Ok? && r.value <= c.min && r.value <= f.intValue
    ensures r.Ok? ==> f.IntField? && (r.value == c.min || r.value == f.intValue)
  {
    match kind
    case StringKind => Err(IllegalArgument)
    case IntegerKind =>
      match IntValue(f)
      case Err(e) => Err(e)
      case Ok(v) => Ok(if c.min <= v then c.min else v)
  }

  /** calculateSum, the same in both classes: the running sum plus the
      field's int value, with wrap-around. */
  function CalculateSum(c: Calculator, f: Field): (r: Result<Int32>)
    ensures r.Ok? <==> f.IntField?
    ensures r.Err? ==> r.error == ClassCast
    ensures r.Ok? ==> r.value == Add(c.number, f.intValue)
  {
    match IntValue(f)
    case Err(e) => Err(e)
    case Ok(v) => Ok(Add(c.number, v))
  }

  /** aggregate(tuple) once the aggregate field `f` is read: each operator
      changes only its own calculator fields, and a hook that throws leaves
      the calculator as it was. */
  function Step(kind: Kind, op: Op, c: Calculator, f: Field): (r: Result<Calculator>)
    ensures r.Ok? ==>
              (op.Min? || r.value.min == c.min) && (op.Max? || r.value.max == c.max) &&
              (op.Sum? || op.Avg? || r.value.number == c.number) &&
              (op.Count? || op.Avg? || r.value.counter == c.counter)
    ensures (op.Count? || op.Avg?) && r.Ok? ==> r.value.counter == Add(c.counter, 1)
    ensures op.Count? || op.SumCount? || op.ScAvg? ==> r.Ok?
  {
    match op
    case Min =>
      (match CalculateMin(kind, c, f) case Err(e) => Err(e) case Ok(v) => Ok(c.(min := v)))
    case Avg =>
      (match CalculateSum(c, f) case Err(e) => Err(e) case Ok(v) => Ok(c.(number := v, counter := Add(c.counter, 1))))
    case Sum =>
      (match CalculateSum(c, f) case Err(e) => Err(e) case Ok(v) => Ok(c.(number := v)))
    case Count => Ok(c.(counter := Add(c.counter, 1)))
    case Max =>
      (match CalculateMax(kind, c, f) case Err(e) => Err(e) case Ok(v) => Ok(c.(max := v)))
    case SumCount => Ok(c)
    case ScAvg => Ok(c)
  }

  /** aggregate(tuple): read the aggregate field, then Step. */
  function Aggregated(kind: Kind, op: Op, c: Calculator, t: Tuple, af: int): Result<Calculator>
  {
    match FieldAt(t, af)
    case Err(e) => Err(e)
    case Ok(f) => Step(kind, op, c, f)
  }

  /** A new calculator fed the tuples `ts` in order; the first exception
      stops the feed. */
  function Fold(kind: Kind, op: Op, af: int, ts: seq<Tuple>): Result<Calculator>
    decreases |ts|
  {
    if ts == [] then Ok(Start)
    else
      match Fold(kind, op, af, ts[..|ts| - 1])
      case Err(e) => Err(e)
      case Ok(c) => Aggregated(kind, op, c, ts[|ts| - 1], af)
  }

  /** getResult: the operator's calculator value; AVG divides the sum by the
      count (truncating, ArithmeticException on zero), and an operator with
      no case gives -1. */
  function ResultOf(op: Op, c: Calculator): (r: Result<Int32>)
    ensures r.Err? <==> op.Avg? && c.counter == 0
    ensures r.Err? ==> r.error == Arithmetic
    ensures op.SumCount? || op.ScAvg? ==> r == Ok(-1)
  {
    match op
    case Min => Ok(c.min)
    case Avg => if c.counter == 0 then Err(Arithmetic) else Ok(Div(c.number, c.counter))
    case Sum => Ok(c.number)
    case Count => Ok(c.counter)
    case Max => Ok(c.max)
    case SumCount => Ok(-1)
    case ScAvg => Ok(-1)
  }

  /** The aggregate field of every tuple is an int. */
  ghost predicate AllInts(ts: seq<Tuple>, af: int)
  {
    forall i :: 0 <= i < |ts| ==> 0 <= af < |ts[i].fields| && ts[i].fields[af].IntField?
  }

  /** The aggregate field of every tuple exists. */
  ghost predicate AllHave(ts: seq<Tuple>, af: int)
  {
    forall i :: 0 <= i < |ts| ==> 0 <= af < |ts[i].fields|
  }

  /** The mathematical sum of the tuples' int aggregate fields. */
  function Total(ts: seq<Tuple>, af: int): int
    requires AllInts(ts, af)
  {
    if ts == [] then 0 else Total(ts[..|ts| - 1], af) + ts[|ts| - 1].fields[af].intValue
  }

  /** A prefix of the tuples keeps their aggregate fields. */
  lemma {:induction false} Prefix(ts: seq<Tuple>, af: int, n: nat)
    requires n <= |ts|
    ensures AllHave(ts, af) ==> AllHave(ts[..n], af)
    ensures AllInts(ts, af) ==> AllInts(ts[..n], af)
  {
    var p := ts[..n];
    assert forall i :: 0 <= i < |p| ==> p[i] == ts[i];
  }

  /** Wrap only depends on the value modulo 2^32. */
  lemma WrapCongruent(x: int, y: int, k: int)
    requires x == y + k * Modulus
    ensures Wrap(x) == Wrap(y)
  {
    assert x % Modulus == y % Modulus by {
      var q := y / Modulus;
      assert y == q * Modulus + y % Modulus;
      assert x == (q + k) * Modulus + y % Modulus;
    }
  }

  /** Adding to a wrapped value wraps the exact sum. */
  lemma AddWrap(x: int, v: Int32)
    ensures Add(Wrap(x), v) == Wrap(x + v)
  {
    var w := Wrap(x);
    assert (x - w) % Modulus == 0;
    var k := (x - w) / Modulus;
    assert x - w == k * Modulus;
    WrapCongruent(x + v, w + v, k);
  }

  /** COUNT: the counter is the number of tuples, as a Java int; it never
      calls a hook, so it succeeds for string groups as well. */
  lemma {:induction false} CountCounts(kind: Kind, af: int, ts: seq<Tuple>)
    requires AllHave(ts, af)
    ensures Fold(kind, Count, af, ts) == Ok(Start.(counter := Wrap(|ts|)))
  {
    if ts != [] {
      Prefix(ts, af, |ts| - 1);
      CountCounts(kind, af, ts[..|ts| - 1]);
      AddWrap(|ts| - 1, 1);
    }
  }

  /** SUM: the running sum is the wrapped sum of the values. */
  lemma {:induction false} SumWraps(kind: Kind, af: int, ts: seq<Tuple>)
    requires AllInts(ts, af)
    ensures Fold(kind, Sum, af, ts) == Ok(Start.(number := Wrap(Total(ts, af))))
  {
    if ts != [] {
      Prefix(ts, af, |ts| - 1);
      SumWraps(kind, af, ts[..|ts| - 1]);
      AddWrap(Total(ts[..|ts| - 1], af), ts[|ts| - 1].fields[af].intValue);
    }
  }

  /** AVG: count and wrapped sum together; getResult divides them, and
      throws ArithmeticException when no tuple was aggregated. */
  lemma {:induction false} AvgDivides(kind: Kind, af: int, ts: seq<Tuple>)
    requires AllInts(ts, af)
    ensures Fold(kind, Avg, af, ts) == Ok(Start.(counter := Wrap(|ts|), number := Wrap(Total(ts, af))))
    ensures ts == [] ==> ResultOf(Avg, Fold(kind, Avg, af, ts).value) == Err(Arithmetic)
    ensures 0 < |ts| <= MaxValue ==> ResultOf(Avg, Fold(kind, Avg, af, ts).value) == Ok(Div(Wrap(Total(ts, af)), |ts|))
  {
    if ts != [] {
      Prefix(ts, af, |ts| - 1);
      AvgDivides(kind, af, ts[..|ts| - 1]);
      AddWrap(|ts| - 1, 1);
      AddWrap(Total(ts[..|ts| - 1], af), ts[|ts| - 1].fields[af].intValue);
    }
  }

  /** MAX over integer groups: the largest value seen, or MIN_VALUE when
      there is none. */
  lemma {:induction false} MaxIsLargest(af: int, ts: seq<Tuple>)
    requires AllInts(ts, af)
    ensures Fold(IntegerKind, Max, af, ts).Ok?
    ensures var c := Fold(IntegerKind, Max, af, ts).value;
            c == Start.(max := c.max) &&
            (forall i :: 0 <= i < |ts| ==> ts[i].fields[af].intValue <= c.max) &&
            (c.max == MinValue || exists i :: 0 <= i < |ts| && ts[i].fields[af].intValue == c.max)
  {
    if ts != [] {
      var n := |ts| - 1;
      MaxIsLargest(af, ts[..n]);
      var c := Fold(IntegerKind, Max, af, ts[..n]).value;
      assert forall i :: 0 <= i < n ==> ts[..n][i] == ts[i];
      if c.max != MinValue {
        var j :| 0 <= j < n && ts[..n][j].fields[af].intValue == c.max;
        assert ts[j].fields[af].intValue == c.max;
      }
    }
  }

  /** MIN over integer groups: the smallest value seen, or MAX_VALUE when
      there is none. */
  lemma {:induction false} MinIsSmallest(af: int, ts: seq<Tuple>)
    requires AllInts(ts, af)
    ensures Fold(IntegerKind, Min, af, ts).Ok?
    ensures var c := Fold(IntegerKind, Min, af, ts).value;
            c == Start.(min := c.min) &&
            (forall i :: 0 <= i < |ts| ==> c.min <= ts[i].fields[af].intValue) &&
            (c.min == MaxValue || exists i :: 0 <= i < |ts| && ts[i].fields[af].intValue == c.min)
  {
    if ts != [] {
      var n := |ts| - 1;
      MinIsSmallest(af, ts[..n]);
      var c := Fold(IntegerKind, Min, af, ts[..n]).value;
      assert forall i :: 0 <= i < n ==> ts[..n][i] == ts[i];
      if c.min != MaxValue {
        var j :| 0 <= j < n && ts[..n][j].fields[af].intValue == c.min;
        assert ts[j].fields[af].intValue == c.min;
      }
    }
  }

  /** MIN and MAX on a string group throw IllegalArgumentException on the
      first tuple. */
  lemma {:induction false} StringExtremesThrow(op: Op, af: int, ts: seq<Tuple>)
    requires op.Min? || op.Max?
    requires |ts| > 0 && AllHave(ts, af)
    ensures Fold(StringKind, op, af, ts) == Err(IllegalArgument)
  {
    if |ts| > 1 {
      StringExtremesThrow(op, af, ts[..|ts| - 1]);
    } else {
      assert ts[..0] == [];
    }
  }

  /** AbstractGroupAggregator with its Calculator: `aggregate` updates the
      calculator fields in place, and getResult reads them. */
  class GroupAggregator {
    const kind: Kind
    const groupByField: int
    const aggregatorField: int
    const operator: Op
    var counter: Int32
    var number: Int32
    var max: Int32
    var min: Int32

    ghost function Calc(): Calculator
      reads this
    {
      Calculator(counter, number, max, min)
    }

    constructor (kind: Kind, groupByField: int, aggregatorField: int, op: Op)
      ensures this.kind == kind && this.groupByField == groupByField
      ensures this.aggregatorField == aggregatorField && operator == op
      ensures Calc() == Start
    {
      this.kind := kind;
      this.groupByField := groupByField;
      this.aggregatorField := aggregatorField;
      operator := op;
      counter, number, max, min := 0, 0, MinValue, MaxValue;
    }

    /** aggregate(tuple): the calculator moves one Step; an exception
        leaves it unchanged. */
    method Aggregate(t: Tuple) returns (r: Outcome)
      modifies this
      ensures match Aggregated(kind, operator, old(Calc()), t, aggregatorField)
              case Ok(c) => r == Pass && Calc() == c
              case Err(e) => r == Fail(e) && Calc() == old(Calc())
    {
      var field := FieldAt(t, aggregatorField);
      if field.Err? {
        return Fail(field.error);
      }
      var f := field.value;
      var c := Calculator(counter, number, max, min);
      r := Pass;
      match operator {
        case Min =>
          var v := CalculateMin(kind, c, f);
          if v.Ok? { min := v.value; } else { r := Fail(v.error); }
        case Avg =>
          var v := CalculateSum(c, f);
          if v.Ok? { number := v.value; counter := Add(counter, 1); } else { r := Fail(v.error); }
        case Sum =>
          var v := CalculateSum(c, f);
          if v.Ok? { number := v.value; } else { r := Fail(v.error); }
        case Count =>
          counter := Add(counter, 1);
        case Max =>
          var v := CalculateMax(kind, c, f);
          if v.Ok? { max := v.value; } else { r := Fail(v.error); }
        case SumCount =>
        case ScAvg =>
      }
    }

    /** getResult: reads the calculator and changes nothing. */
    method GetResult() returns (r: Result<Int32>)
      ensures r == ResultOf(operator, Calc())
    {
      match operator {
        case Min => r := Ok(min);
        case Avg => r := if counter == 0 then Err(Arithmetic) else Ok(Div(number, counter));
        case Sum => r := Ok(number);
        case Count => r := Ok(counter);
        case Max => r := Ok(max);
        case SumCount => r := Ok(-1);
        case ScAvg => r := Ok(-1);
      }
    }
  }

  /** GroupAggregatorFactory: the group-by column's type (null without
      grouping), the group-by and aggregate indexes and the operator. */
  datatype Factory = Factory(fieldType: Option<FieldType>, groupByFieldIndex: int, aggregatedFieldIndex: int, op: Op)
  {
    predicate NonGrouping() { groupByFieldIndex == NoGrouping }

    /** A group-by type is given whenever there is grouping. */
    predicate Typed() { !NonGrouping() ==> fieldType.Some? }

    /** DEFAULT_FIELD: IntField(0) for an INT group-by type, otherwise an
        empty StringField. */
    function DefaultKey(): Field
    {
      if fieldType == Some(IntType) then IntField(0) else StringField("")
    }

    /** getGroupKey: the tuple's group-by field, or DEFAULT_FIELD without
        grouping. */
    function GroupKey(t: Tuple): (r: Result<Field>)
      ensures NonGrouping() ==> r == Ok(DefaultKey())
      ensures !NonGrouping() ==> r == FieldAt(t, groupByFieldIndex)
    {
      if NonGrouping() then Ok(DefaultKey()) else FieldAt(t, groupByFieldIndex)
    }

    /** create() of AbstractAggregator's factory: the class follows the
        group-by type. FieldType has only these two values, so the
        UnsupportedOperationException branch is unreachable; a null type
        (no grouping) makes the switch throw NullPointerException. */
    function Create(): (r: Result<Kind>)
      ensures r.Ok? <==> fieldType.Some?
      ensures fieldType == Some(IntType) ==> r == Ok(IntegerKind)
      ensures fieldType == Some(StringType) ==> r == Ok(StringKind)
      ensures r.Err? ==> r.error == NullPointer
    {
      match fieldType
      case None => Err(NullPointer)
      case Some(IntType) => Ok(IntegerKind)
      case Some(StringType) => Ok(StringKind)
    }

    /** generateTupleDescIfNeeded's schema, from the first merged tuple's
        schema `origin`: one INT column named "" without grouping, else the
        group-by type and INT, named after the input's group-by and
        aggregate columns (a bad index throws). */
    function Schema(origin: TupleDesc): (r: Result<TupleDesc>)
      requires Typed()
      ensures NonGrouping() ==> r == Ok(TupleDesc([ColumnMeta(IntType, Some(""))]))
      ensures !NonGrouping() ==>
                (r.Ok? <==> 0 <= groupByFieldIndex < |origin.columns| && 0 <= aggregatedFieldIndex < |origin.columns|)
      ensures !NonGrouping() && r.Ok? ==>
                r.value.columns == [ColumnMeta(fieldType.value, origin.columns[groupByFieldIndex].fieldName),
                                    ColumnMeta(IntType, origin.columns[aggregatedFieldIndex].fieldName)]
      ensures r.Err? ==> r.error == IndexOutOfBounds
    {
      if NonGrouping() then Ok(TupleDesc([ColumnMeta(IntType, Some(""))]))
      else if !(0 <= groupByFieldIndex < |origin.columns|) || !(0 <= aggregatedFieldIndex < |origin.columns|) then
        Err(IndexOutOfBounds)
      else
        Ok(TupleDesc([ColumnMeta(fieldType.value, origin.columns[groupByFieldIndex].fieldName),
                      ColumnMeta(IntType, origin.columns[aggregatedFieldIndex].fieldName)]))
    }
  }

  /** The tuples of `ts` whose group key is `k`, in order. */
  function KeyedBy(f: Factory, ts: seq<Tuple>, k: Field): (r: seq<Tuple>)
    ensures |r| <= |ts|
  {
    if ts == [] then []
    else KeyedBy(f, ts[..|ts| - 1], k) + (if f.GroupKey(ts[|ts| - 1]) == Ok(k) then [ts[|ts| - 1]] else [])
  }

  /** The state an aggregator builds: its schema once fixed, and its groups. */
  datatype Table<G> = Table(desc: Option<TupleDesc>, groups: map<Field, G>)

  /** A group of AbstractAggregator: its aggregator's class and calculator. */
  datatype Group = Group(kind: Kind, calculator: Calculator)

  /** Every group was built by the factory's create(). */
  ghost predicate Kinded(f: Factory, g: Table<Group>)
  {
    forall k :: k in g.groups ==> f.Create() == Ok(g.groups[k].kind)
  }

  /** mergeTupleIntoGroup of AbstractAggregator on its table: fix the
      schema if needed, find or create the tuple's group, aggregate into
      it. Each step that throws stops the merge, keeping what earlier steps
      did (a fixed schema, a created group). */
  function MergeInto(f: Factory, g: Table<Group>, t: Tuple): (res: (Outcome, Table<Group>))
    requires f.Typed()
    ensures Kinded(f, g) ==> Kinded(f, res.1)
    ensures res.1.desc.None? ==> res.1 == g
    ensures var (r, g') := res;
            (g.desc.Some? ==> g'.desc == g.desc) &&
            (g.desc.None? && r.Pass? ==> f.Schema(t.desc).Ok? && g'.desc == Some(f.Schema(t.desc).value)) &&
            (forall k :: k in g.groups ==> k in g'.groups) &&
            (forall k :: k in g'.groups && f.GroupKey(t) != Ok(k) ==> k in g.groups && g'.groups[k] == g.groups[k])
    ensures res.0.Pass? ==>
              f.GroupKey(t).Ok? && var k := f.GroupKey(t).value;
              k in res.1.groups &&
              Ok(res.1.groups[k].calculator) ==
                Aggregated(res.1.groups[k].kind, f.op, if k in g.groups then g.groups[k].calculator else Start, t, f.aggregatedFieldIndex)
  {
    var schema := if g.desc.Some? then Ok(g.desc.value) else f.Schema(t.desc);
    if schema.Err? then (Fail(schema.error), g)
    else
      var g1 := g.(desc := Some(schema.value));
      match f.GroupKey(t)
      case Err(e) => (Fail(e), g1)
      case Ok(k) =>
        var created := if k in g1.groups then Ok(g1.groups[k]) else
                         (match f.Create() case Err(e) => Err(e) case Ok(kind) => Ok(Group(kind, Start)));
        if created.Err? then (Fail(created.error), g1)
        else
          var g2 := g1.(groups := g1.groups[k := created.value]);
          match Aggregated(created.value.kind, f.op, created.value.calculator, t, f.aggregatedFieldIndex)
          case Err(e) => (Fail(e), g2)
          case Ok(c) => (Pass, g2.(groups := g2.groups[k := Group(created.value.kind, c)]))
  }

  /** An aggregator fed the tuples `ts` in order from no groups; the first
      exception stops the feed. */
  function MergeAll(f: Factory, ts: seq<Tuple>): (Outcome, Table<Group>)
    requires f.Typed()
  {
    if ts == [] then (Pass, Table(None, map[]))
    else
      var (r, g) := MergeAll(f, ts[..|ts| - 1]);
      if r.Fail? then (r, g) else MergeInto(f, g, ts[|ts| - 1])
  }

  /** Some tuple of `ts` has group key `k`. */
  ghost predicate KeyOf(f: Factory, ts: seq<Tuple>, k: Field)
  {
    exists i :: 0 <= i < |ts| && f.GroupKey(ts[i]) == Ok(k)
  }

  /** A key of `ts` is a key of all but its last tuple, or the last's. */
  lemma KeyOfNext(f: Factory, ts: seq<Tuple>, k: Field)
    requires ts != []
    ensures KeyOf(f, ts, k) <==> KeyOf(f, ts[..|ts| - 1], k) || f.GroupKey(ts[|ts| - 1]) == Ok(k)
  {
    var n := |ts| - 1;
    if KeyOf(f, ts, k) && f.GroupKey(ts[n]) != Ok(k) {
      var i :| 0 <= i < |ts| && f.GroupKey(ts[i]) == Ok(k);
      assert ts[..n][i] == ts[i];
    }
    if KeyOf(f, ts[..n], k) {
      var i :| 0 <= i < n && f.GroupKey(ts[..n][i]) == Ok(k);
      assert ts[..n][i] == ts[i];
    }
  }

  /** No tuple keyed `k`, no tuples in its group. */
  lemma {:induction false} KeyedByNone(f: Factory, ts: seq<Tuple>, k: Field)
    requires !KeyOf(f, ts, k)
    ensures KeyedBy(f, ts, k) == []
  {
    if ts != [] {
      KeyOfNext(f, ts, k);
      KeyedByNone(f, ts[..|ts| - 1], k);
    }
  }

  /** Feeding one more tuple to a calculator. */
  lemma FoldNext(kind: Kind, op: Op, af: int, ts: seq<Tuple>, t: Tuple)
    ensures Fold(kind, op, af, ts).Ok? ==>
              Fold(kind, op, af, ts + [t]) == Aggregated(kind, op, Fold(kind, op, af, ts).value, t, af)
  {
    assert (ts + [t])[..|ts|] == ts;
  }

  /** After every merge succeeds, the groups are exactly the tuples' keys,
      and each group's calculator is a fresh one fed its own tuples in
      order: every tuple went into exactly one group, created the first
      time its key was seen. */
  lemma {:induction false} GroupsAreFolds(f: Factory, ts: seq<Tuple>)
    requires f.Typed() && MergeAll(f, ts).0.Pass?
    ensures var g := MergeAll(f, ts).1;
            Kinded(f, g) &&
            (forall k :: k in g.groups <==> KeyOf(f, ts, k)) &&
            (forall k :: k in g.groups ==>
               Fold(g.groups[k].kind, f.op, f.aggregatedFieldIndex, KeyedBy(f, ts, k)) == Ok(g.groups[k].calculator))
  {
    if ts != [] {
      var n := |ts| - 1;
      GroupsAreFolds(f, ts[..n]);
      var g0 := MergeAll(f, ts[..n]).1;
      assert MergeAll(f, ts) == MergeInto(f, g0, ts[n]);
      forall k
        ensures k in MergeAll(f, ts).1.groups <==> KeyOf(f, ts, k)
      {
        KeyOfNext(f, ts, k);
      }
      forall k | k in MergeAll(f, ts).1.groups
        ensures Fold(MergeAll(f, ts).1.groups[k].kind, f.op, f.aggregatedFieldIndex, KeyedBy(f, ts, k))
                == Ok(MergeAll(f, ts).1.groups[k].calculator)
      {
        FoldStep(f, ts, g0, k);
      }
    }
  }

  /** One merge keeps a group's calculator equal to the fold of its tuples. */
  lemma FoldStep(f: Factory, ts: seq<Tuple>, g0: Table<Group>, k: Field)
    requires f.Typed() && ts != [] && Kinded(f, g0)
    requires var res := MergeInto(f, g0, ts[|ts| - 1]); res.0.Pass? && k in res.1.groups
    requires forall k :: k in g0.groups <==> KeyOf(f, ts[..|ts| - 1], k)
    requires k in g0.groups ==>
               Fold(g0.groups[k].kind, f.op, f.aggregatedFieldIndex, KeyedBy(f, ts[..|ts| - 1], k)) == Ok(g0.groups[k].calculator)
    ensures var g := MergeInto(f, g0, ts[|ts| - 1]).1;
            Fold(g.groups[k].kind, f.op, f.aggregatedFieldIndex, KeyedBy(f, ts, k)) == Ok(g.groups[k].calculator)
  {
    var n := |ts| - 1;
    var t := ts[n];
    var g := MergeInto(f, g0, t).1;
    var before := KeyedBy(f, ts[..n], k);
    var kind := g.groups[k].kind;
    if f.GroupKey(t) == Ok(k) {
      assert KeyedBy(f, ts, k) == before + [t];
      var prior := if k in g0.groups then g0.groups[k].calculator else Start;
      assert Fold(kind, f.op, f.aggregatedFieldIndex, before) == Ok(prior) by {
        if k in g0.groups {
          assert Kinded(f, g);
          assert kind == g0.groups[k].kind;
        } else {
          KeyedByNone(f, ts[..n], k);
        }
      }
      FoldNext(kind, f.op, f.aggregatedFieldIndex, before, t);
    } else {
      assert KeyedBy(f, ts, k) == before;
    }
  }

  /** An output row: (result) without grouping, (key, result) with it. */
  function Row(desc: TupleDesc, grouping: bool, key: Field, v: Int32): Tuple
  {
    Tuple(desc, if grouping then [key, IntField(v)] else [IntField(v)], None)
  }

  /** No field appears twice. */
  ghost predicate Distinct(keys: seq<Field>)
  {
    forall i, j :: 0 <= i < j < |keys| ==> keys[i] != keys[j]
  }

  /** StringAggregator, with the grouping logic of AbstractAggregator: the
      schema once fixed, and one GroupAggregator per group key. The groups
      are held as values (kind and calculator), not as shared objects. */
  class StringAggregator {
    const factory: Factory
    var tupleDesc: Option<TupleDesc>
    var groups: map<Field, Group>

    ghost function State(): Table<Group>
      reads this
    {
      Table(tupleDesc, groups)
    }

    ghost predicate Valid()
      reads this
    {
      factory.Typed() && Kinded(factory, State()) && (tupleDesc.None? ==> groups == map[]) &&
      (factory.NonGrouping() ==> forall k :: k in groups ==> k == factory.DefaultKey())
    }

    /** The constructor only forwards its arguments to the factory; the
        documented IllegalArgumentException for operators other than COUNT
        is never raised. */
    constructor (gbField: int, gbFieldType: Option<FieldType>, aField: int, what: Op)
      requires gbField != NoGrouping ==> gbFieldType.Some?
      ensures Valid() && factory == Factory(gbFieldType, gbField, aField, what) && State() == Table(None, map[])
    {
      factory := Factory(gbFieldType, gbField, aField, what);
      tupleDesc, groups := None, map[];
    }

    /** generateTupleDescIfNeeded: the first tuple fixes the schema; later
        calls change nothing. */
    method GenerateTupleDescIfNeeded(t: Tuple) returns (r: Outcome)
      requires factory.Typed()
      modifies this
      ensures groups == old(groups)
      ensures old(tupleDesc).Some? ==> r == Pass && tupleDesc == old(tupleDesc)
      ensures old(tupleDesc).None? ==>
                match factory.Schema(t.desc)
                case Ok(td) => r == Pass && tupleDesc == Some(td)
                case Err(e) => r == Fail(e) && tupleDesc == None
    {
      r := Pass;
      if tupleDesc.Some? {
        return;
      }
      var td := factory.Schema(t.desc);
      if td.Err? {
        return Fail(td.error);
      }
      tupleDesc := Some(td.value);
    }

    /** mergeTupleIntoGroup: fix the schema, find or create the tuple's
        group (getOrCreate), aggregate into it. */
    method MergeTupleIntoGroup(t: Tuple) returns (r: Outcome)
      requires Valid()
      modifies this
      ensures Valid()
      ensures (r, State()) == MergeInto(factory, old(State()), t)
    {
      r := GenerateTupleDescIfNeeded(t);
      if r.Fail? {
        return;
      }
      var key := factory.GroupKey(t);
      if key.Err? {
        return Fail(key.error);
      }
      var group: Group;
      if key.value in groups {
        group := groups[key.value];
        assert groups[key.value := group] == groups;
      } else {
        var kind := factory.Create();
        if kind.Err? {
          return Fail(kind.error);
        }
        group := Group(kind.value, Start);
        groups := groups[key.value := group];
      }
      var c := Aggregated(group.kind, factory.op, group.calculator, t, factory.aggregatedFieldIndex);
      if c.Err? {
        return Fail(c.error);
      }
      groups := groups[key.value := Group(group.kind, c.value)];
    }

    /** iterator(): with grouping, one (key, result) row per group, in the
        map's order `order`, failing if some group's getResult throws;
        without grouping, the default group's (result), a null dereference
        when nothing was merged. */
    method Iterator() returns (r: Result<seq<Tuple>>, ghost order: seq<Field>)
      requires Valid()
      ensures factory.NonGrouping() && factory.DefaultKey() !in groups ==> r == Err(NullPointer)
      ensures factory.NonGrouping() && factory.DefaultKey() in groups ==>
                match ResultOf(factory.op, groups[factory.DefaultKey()].calculator)
                case Ok(v) => r == Ok([Row(tupleDesc.value, false, factory.DefaultKey(), v)])
                case Err(e) => r == Err(e)
      ensures !factory.NonGrouping() ==>
                (r.Ok? <==> forall k :: k in groups ==> ResultOf(factory.op, groups[k].calculator).Ok?)
      ensures !factory.NonGrouping() && r.Err? ==> r.error == Arithmetic
      ensures !factory.NonGrouping() && r.Ok? ==>
                Distinct(order) && (forall k :: k in groups <==> k in order) && |r.value| == |order| &&
                (|order| > 0 ==> tupleDesc.Some?) &&
                forall i :: 0 <= i < |order| ==>
                  r.value[i] == Row(tupleDesc.value, true, order[i], ResultOf(factory.op, groups[order[i]].calculator).value)
    {
      order := [];
      if factory.NonGrouping() {
        var key := factory.DefaultKey();
        if key !in groups {
          return Err(NullPointer), order;
        }
        var v := ResultOf(factory.op, groups[key].calculator);
        if v.Err? {
          return Err(v.error), order;
        }
        return Ok([Row(tupleDesc.value, false, key, v.value)]), order;
      }
      var rows: seq<Tuple> := [];
      var rest := groups.Keys;
      while rest != {}
        invariant rest <= groups.Keys
        invariant forall k :: k in groups ==> (k in rest <==> k !in order)
        invariant forall k :: k in order ==> k in groups
        invariant Distinct(order) && |rows| == |order|
        invariant |order| > 0 ==> tupleDesc.Some?
        invariant forall i :: 0 <= i < |order| ==> ResultOf(factory.op, groups[order[i]].calculator).Ok?
        invariant forall i :: 0 <= i < |order| ==>
                    rows[i] == Row(tupleDesc.value, true, order[i], ResultOf(factory.op, groups[order[i]].calculator).value)
        decreases |rest|
      {
        var k :| k in rest;
        var v := ResultOf(factory.op, groups[k].calculator);
        if v.Err? {
          return Err(v.error), order;
        }
        rows := rows + [Row(tupleDesc.value, true, k, v.value)];
        order := order + [k];
        rest := rest - {k};
      }
      r := Ok(rows);
    }
  }

  /** DefaultAggregator's groups: the tuples merged into each, in order.
      DefaultAggregatedGroup is not part of this model; a group's result
      is `result` of its tuples. */
  function MergeDefault(f: Factory, g: Table<seq<Tuple>>, t: Tuple): (res: (Outcome, Table<seq<Tuple>>))
    requires f.Typed()
    ensures res.1.desc.None? ==> res.1 == g
    ensures g.desc.Some? ==> res.1.desc == g.desc
    ensures res.0.Pass? ==>
              f.GroupKey(t).Ok? && res.1.groups == g.groups[f.GroupKey(t).value := Appended(g.groups, f.GroupKey(t).value, t)]
    ensures res.0.Fail? ==> res.1.groups == g.groups
  {
    var schema := if g.desc.Some? then Ok(g.desc.value) else f.Schema(t.desc);
    if schema.Err? then (Fail(schema.error), g)
    else
      var g1 := g.(desc := Some(schema.value));
      match f.GroupKey(t)
      case Err(e) => (Fail(e), g1)
      case Ok(k) => (Pass, g1.(groups := g1.groups[k := Appended(g1.groups, k, t)]))
  }

  /** The group under `k` with `t` appended, a new group when `k` is new. */
  function Appended(groups: map<Field, seq<Tuple>>, k: Field, t: Tuple): seq<Tuple>
  {
    (if k in groups then groups[k] else []) + [t]
  }

  function MergeAllDefault(f: Factory, ts: seq<Tuple>): (Outcome, Table<seq<Tuple>>)
    requires f.Typed()
  {
    if ts == [] then (Pass, Table(None, map[]))
    else
      var (r, g) := MergeAllDefault(f, ts[..|ts| - 1]);
      if r.Fail? then (r, g) else MergeDefault(f, g, ts[|ts| - 1])
  }

  /** After every merge succeeds, the groups are exactly the tuples' keys,
      each holding the tuples with its key in their order, and the schema
      is the one the first tuple fixed. */
  lemma {:induction false} GroupsPartition(f: Factory, ts: seq<Tuple>)
    requires f.Typed() && MergeAllDefault(f, ts).0.Pass?
    ensures var g := MergeAllDefault(f, ts).1;
            (forall k :: k in g.groups <==> KeyOf(f, ts, k)) &&
            (forall k :: k in g.groups ==> g.groups[k] == KeyedBy(f, ts, k)) &&
            (ts != [] ==> f.Schema(ts[0].desc).Ok? && g.desc == Some(f.Schema(ts[0].desc).value))
  {
    if ts != [] {
      var n := |ts| - 1;
      GroupsPartition(f, ts[..n]);
      var g0 := MergeAllDefault(f, ts[..n]).1;
      var g := MergeAllDefault(f, ts).1;
      assert g == MergeDefault(f, g0, ts[n]).1;
      forall k
        ensures k in g.groups <==> KeyOf(f, ts, k)
      {
        KeyOfNext(f, ts, k);
      }
      forall k | k in g.groups
        ensures g.groups[k] == KeyedBy(f, ts, k)
      {
        if f.GroupKey(ts[n]) == Ok(k) && k !in g0.groups {
          KeyedByNone(f, ts[..n], k);
        }
      }
      if n > 0 {
        assert ts[..n][0] == ts[0];
      }
    }
  }

  /** DefaultAggregator: the schema once fixed, and each group's tuples. */
  class DefaultAggregator {
    const factory: Factory
    /** getResult of a DefaultAggregatedGroup, given the tuples it aggregated. */
    const result: seq<Tuple> -> Int32
    var tupleDesc: Option<TupleDesc>
    var groups: map<Field, seq<Tuple>>

    ghost function State(): Table<seq<Tuple>>
      reads this
    {
      Table(tupleDesc, groups)
    }

    ghost predicate Valid()
      reads this
    {
      factory.Typed() && (tupleDesc.None? ==> groups == map[])
    }

    constructor (gbField: int, gbFieldType: Option<FieldType>, aField: int, what: Op, result: seq<Tuple> -> Int32)
      requires gbField != NoGrouping ==> gbFieldType.Some?
      ensures Valid() && factory == Factory(gbFieldType, gbField, aField, what) && this.result == result
      ensures State() == Table(None, map[])
    {
      factory := Factory(gbFieldType, gbField, aField, what);
      this.result := result;
      tupleDesc, groups := None, map[];
    }

    /** generateTupleDescIfNeeded, as in StringAggregator. */
    method GenerateTupleDescIfNeeded(t: Tuple) returns (r: Outcome)
      requires factory.Typed()
      modifies this
      ensures groups == old(groups)
      ensures old(tupleDesc).Some? ==> r == Pass && tupleDesc == old(tupleDesc)
      ensures old(tupleDesc).None? ==>
                match factory.Schema(t.desc)
                case Ok(td) => r == Pass && tupleDesc == Some(td)
                case Err(e) => r == Fail(e) && tupleDesc == None
    {
      r := Pass;
      if tupleDesc.Some? {
        return;
      }
      var td := factory.Schema(t.desc);
      if td.Err? {
        return Fail(td.error);
      }
      tupleDesc := Some(td.value);
    }

    /** mergeTupleIntoGroup: fix the schema, find or create the group,
        aggregate into it. */
    method MergeTupleIntoGroup(t: Tuple) returns (r: Outcome)
      requires Valid()
      modifies this
      ensures Valid()
      ensures (r, State()) == MergeDefault(factory, old(State()), t)
    {
      r := GenerateTupleDescIfNeeded(t);
      if r.Fail? {
        return;
      }
      var key := factory.GroupKey(t);
      if key.Err? {
        return Fail(key.error);
      }
      var members := if key.value in groups then groups[key.value] else [];
      groups := groups[key.value := members + [t]];
    }

    /** iterator(): one row per group in the map's order `order`: (result)
        without grouping, (key, result) with it; no groups, no rows. */
    method Iterator() returns (rows: seq<Tuple>, ghost order: seq<Field>)
      requires Valid()
      ensures Distinct(order) && (forall k :: k in groups <==> k in order) && |rows| == |order|
      ensures |order| > 0 ==> tupleDesc.Some?
      ensures forall i :: 0 <= i < |order| ==>
                rows[i] == Row(tupleDesc.value, !factory.NonGrouping(), order[i], result(groups[order[i]]))
    {
      rows, order := [], [];
      var rest := groups.Keys;
      while rest != {}
        invariant rest <= groups.Keys
        invariant forall k :: k in groups ==> (k in rest <==> k !in order)
        invariant forall k :: k in order ==> k in groups
        invariant Distinct(order) && |rows| == |order|
        invariant |order| > 0 ==> tupleDesc.Some?
        invariant forall i :: 0 <= i < |order| ==>
                    rows[i] == Row(tupleDesc.value, !factory.NonGrouping(), order[i], result(groups[order[i]]))
        decreases |rest|
      {
        var k :| k in rest;
        rows := rows + [Row(tupleDesc.value, !factory.NonGrouping(), k, result(groups[k]))];
        order := order + [k];
        rest := rest - {k};
      }
    }
  }
}
