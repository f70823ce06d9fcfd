/** SelectOperator: passes on the child's tuples that satisfy the WHERE condition. */
module Select {
  import opened Wrappers
  import opened Errors
  import opened Tuples
  import opened Schemas
  import opened Expressions
  import opened SelectEvaluation
  import opened Streams

  /**
   * What one getNextTuple call does to a child positioned at `from`: pull
   * tuples until one satisfies the condition (returned) or the child runs out
   * (None); an evaluation error ends the call with that error. The second
   * component is the child's position afterwards.
   */
  function NextMatch(items: seq<Tuple>, from: nat, cond: Expr, s: Schema): (r: (Result<Option<Tuple>, Error>, nat))
    requires from <= |items|
    ensures from <= r.1 <= |items|
    ensures forall k :: from <= k < r.1 - 1 ==> Evaluate(cond, items[k], s) == Ok(false)
    ensures r.0.Ok? && r.0.value.Some? ==>
      from < r.1 && r.0.value.value == items[r.1 - 1] && Evaluate(cond, items[r.1 - 1], s) == Ok(true)
    ensures r.0.Ok? && r.0.value.None? <==>
      r.1 == |items| && forall k :: from <= k < |items| ==> Evaluate(cond, items[k], s) == Ok(false)
    ensures r.0.Err? ==> from < r.1 && Evaluate(cond, items[r.1 - 1], s) == Err(r.0.error)
    decreases |items| - from
  {
    if from == |items| then (Ok(None), from)
    else
      match Evaluate(cond, items[from], s)
      case Err(e) => (Err(e), from + 1)
      case Ok(b) => if b then (Ok(Some(items[from])), from + 1) else NextMatch(items, from + 1, cond, s)
  }

  /** The tuples of ts that satisfy the condition, in their original order. */
  function Filter(ts: seq<Tuple>, cond: Expr, s: Schema): seq<Tuple> {
    if ts == [] then []
    else if Evaluate(cond, ts[0], s) == Ok(true) then [ts[0]] + Filter(ts[1..], cond, s)
    else Filter(ts[1..], cond, s)
  }

  /** Everything a parent pulls from the operator until it returns null, or the error that stops it. */
  function Drain(items: seq<Tuple>, from: nat, cond: Expr, s: Schema): Result<seq<Tuple>, Error>
    requires from <= |items|
    decreases |items| - from
  {
    var (r, next) := NextMatch(items, from, cond, s);
    match r
    case Err(e) => Err(e)
    case Ok(t) => if t.None? then Ok([]) else
      var rest :- Drain(items, next, cond, s);
      Ok([t.value] + rest)
  }

  /**
   * When the condition evaluates without error on every remaining tuple, the
   * operator's whole output is the subsequence of the child's tuples that
   * satisfy it, in child order.
   */
  lemma {:induction false} DrainIsFilter(items: seq<Tuple>, from: nat, cond: Expr, s: Schema)
    requires from <= |items|
    requires forall k :: from <= k < |items| ==> Evaluate(cond, items[k], s).Ok?
    ensures Drain(items, from, cond, s) == Ok(Filter(items[from..], cond, s))
    decreases |items| - from
  {
    var (r, next) := NextMatch(items, from, cond, s);
    if r.value.None? {
      FilterSkips(items, from, next, cond, s);
    } else {
      FilterSkips(items, from, next - 1, cond, s);
      DrainIsFilter(items, next, cond, s);
      assert items[next - 1..][1..] == items[next..];
    }
  }

  /** Tuples that fail the condition contribute nothing to the filter. */
  lemma {:induction false} FilterSkips(items: seq<Tuple>, from: nat, to: nat, cond: Expr, s: Schema)
    requires from <= to <= |items|
    requires forall k :: from <= k < to ==> Evaluate(cond, items[k], s) == Ok(false)
    ensures Filter(items[from..], cond, s) == Filter(items[to..], cond, s)
    decreases |items| - from
  {
    if from < to {
      assert items[from..][1..] == items[from + 1..];
      FilterSkips(items, from + 1, to, cond, s);
    }
  }

  /** For a condition every tuple can resolve, the filter keeps exactly the tuples it holds of. */
  lemma {:induction false} FilterHolds(ts: seq<Tuple>, cond: Expr, s: Schema)
    requires IsCondition(cond) && forall k :: 0 <= k < |ts| ==> Resolvable(cond, ts[k], s)
    ensures forall t :: t in Filter(ts, cond, s) <==> t in ts && Holds(cond, t, s)
  {
    if ts != [] {
      assert forall k :: 0 <= k < |ts[1..]| ==> ts[1..][k] == ts[k + 1];
      FilterHolds(ts[1..], cond, s);
      assert forall t :: t in ts <==> t == ts[0] || t in ts[1..];
    }
  }

  class SelectOperator {
    const child: Stream
    const whereCondition: Expr
    const schema: Schema

    ghost predicate Valid()
      reads this, child
    {
      child.Valid()
    }

    constructor(child: Stream, whereCondition: Expr, schema: Schema)
      requires child.Valid()
      ensures Valid()
      ensures this.child == child && this.whereCondition == whereCondition && this.schema == schema
    {
      this.child := child;
      this.whereCondition := whereCondition;
      this.schema := schema;
    }

    /** evaluateCondition: a fresh evaluator over the tuple. */
    function EvaluateCondition(t: Tuple): Result<bool, Error>
      reads this
    {
      Evaluate(whereCondition, t, schema)
    }

    /** getNextTuple: the next child tuple satisfying the condition, unchanged, or null once the child runs out. */
    method GetNextTuple() returns (r: Result<Option<Tuple>, Error>)
      requires Valid()
      modifies child
      ensures Valid()
      ensures (r, child.pos) == NextMatch(child.items, old(child.pos), whereCondition, schema)
    {
      while true
        invariant child.Valid() && old(child.pos) <= child.pos
        invariant NextMatch(child.items, old(child.pos), whereCondition, schema)
          == NextMatch(child.items, child.pos, whereCondition, schema)
        decreases |child.items| - child.pos
      {
        var tuple := child.GetNextTuple();
        if tuple.None? {
          return Ok(None);
        }
        var satisfied := EvaluateCondition(tuple.value);
        if satisfied.Err? {
          return Err(satisfied.error);
        }
        if satisfied.value {
          return Ok(tuple);
        }
      }
    }

    /** reset: only the child is reset. */
    method Reset()
      requires Valid()
      modifies child
      ensures Valid() && child.pos == 0
    {
      child.Reset();
    }
  }
}
