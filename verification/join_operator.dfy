/**
 * JoinOperator: a tuple nested-loop join. The left child is the outer loop,
 * the right child the inner loop, reset for every left tuple; the current
 * left and right tuples are held in two cursor fields.
 */
module Join {
  import opened Wrappers
  import opened Errors
  import opened Tuples
  import opened Schemas
  import opened Expressions
  import opened JoinEvaluation
  import opened Streams

  /** A stretch of operator output: rows in order, possibly ended by the error that stops the stream. */
  datatype Output = Output(rows: seq<Tuple>, failure: Option<Error>)

  const Empty := Output([], None)

  /** a followed by b, unless a already ended in an error. */
  function Then(a: Output, b: Output): (r: Output)
    ensures a.failure.Some? ==> r == a
    ensures a.failure.None? ==> r.rows == a.rows + b.rows && r.failure == b.failure
  {
    if a.failure.Some? then a else Output(a.rows + b.rows, b.failure)
  }

  /** The combined rows one left tuple produces against the right tuples rs, in right order. */
  function Matches(l: Tuple, rs: seq<Tuple>, cond: Option<Expr>, s: Schema): Output {
    if rs == [] then Empty
    else
      match Evaluate(cond, l, rs[0], s)
      case Err(e) => Output([], Some(e))
      case Ok(b) =>
        if b then Then(Output([Concat(l, rs[0])], None), Matches(l, rs[1..], cond, s))
        else Matches(l, rs[1..], cond, s)
  }

  /** The join's whole output: left-major, right-minor. */
  function JoinAll(ls: seq<Tuple>, rs: seq<Tuple>, cond: Option<Expr>, s: Schema): Output {
    if ls == [] then Empty else Then(Matches(ls[0], rs, cond, s), JoinAll(ls[1..], rs, cond, s))
  }

  /** What the right child's next call returns, and its position afterwards. */
  function NextOf(items: seq<Tuple>, pos: nat): (Option<Tuple>, nat)
    requires pos <= |items|
  {
    if pos < |items| then (Some(items[pos]), pos + 1) else (None, pos)
  }

  /**
   * The output the operator has still to produce, given its cursor fields and
   * its children's positions: the rest of the current left tuple's inner loop
   * (from the current right tuple on), then the full inner loop of every left
   * tuple still to come. Nothing once the left cursor is null.
   */
  function PendingOf(lt: Option<Tuple>, rt: Option<Tuple>, ls: seq<Tuple>, lp: nat, rs: seq<Tuple>, rp: nat,
                     cond: Option<Expr>, s: Schema): Output
    requires lp <= |ls| && rp <= |rs|
  {
    if lt.None? then Empty
    else
      var inner := if rt.Some? then [rt.value] + rs[rp..] else [];
      Then(Matches(lt.value, inner, cond, s), JoinAll(ls[lp..], rs, cond, s))
  }

  lemma ThenEmpty(a: Output)
    ensures Then(a, Empty) == a
  {
  }

  /** The right cursor is null: the next left tuple is fetched and the right child restarted. */
  lemma AdvanceLeft(l: Tuple, ls: seq<Tuple>, lp: nat, rs: seq<Tuple>, rp: nat, cond: Option<Expr>, s: Schema)
    requires lp <= |ls| && rp <= |rs|
    ensures var (lt', lp') := NextOf(ls, lp);
      var (rt', rp') := NextOf(rs, 0);
      PendingOf(Some(l), None, ls, lp, rs, rp, cond, s) == PendingOf(lt', rt', ls, lp', rs, rp', cond, s)
  {
    if lp < |ls| {
      assert ls[lp..][1..] == ls[lp + 1..];
      if |rs| > 0 {
        assert [rs[0]] + rs[1..] == rs;
      }
    }
  }

  /** The pair fails the condition: the right cursor moves on and the pending output is the same. */
  lemma AdvanceRight(l: Tuple, r: Tuple, ls: seq<Tuple>, lp: nat, rs: seq<Tuple>, rp: nat, cond: Option<Expr>, s: Schema)
    requires lp <= |ls| && rp <= |rs|
    requires Evaluate(cond, l, r, s) == Ok(false)
    ensures var (rt', rp') := NextOf(rs, rp);
      PendingOf(Some(l), Some(r), ls, lp, rs, rp, cond, s) == PendingOf(Some(l), rt', ls, lp, rs, rp', cond, s)
  {
    var inner := [r] + rs[rp..];
    assert inner[1..] == rs[rp..];
    if rp < |rs| {
      assert [rs[rp]] + rs[rp + 1..] == rs[rp..];
    }
  }

  /** The pair satisfies the condition: its combination is the next row and the right cursor moves on. */
  lemma Emit(l: Tuple, r: Tuple, ls: seq<Tuple>, lp: nat, rs: seq<Tuple>, rp: nat, cond: Option<Expr>, s: Schema)
    requires lp <= |ls| && rp <= |rs|
    requires Evaluate(cond, l, r, s) == Ok(true)
    ensures var (rt', rp') := NextOf(rs, rp);
      var before := PendingOf(Some(l), Some(r), ls, lp, rs, rp, cond, s);
      var after := PendingOf(Some(l), rt', ls, lp, rs, rp', cond, s);
      before.rows == [Concat(l, r)] + after.rows && before.failure == after.failure
  {
    var inner := [r] + rs[rp..];
    assert inner[1..] == rs[rp..];
    if rp < |rs| {
      assert [rs[rp]] + rs[rp + 1..] == rs[rp..];
    }
  }

  /** The condition fails to evaluate on the pair: nothing more comes but that error. */
  lemma Fail(l: Tuple, r: Tuple, ls: seq<Tuple>, lp: nat, rs: seq<Tuple>, rp: nat, cond: Option<Expr>, s: Schema)
    requires lp <= |ls| && rp <= |rs|
    requires Evaluate(cond, l, r, s).Err?
    ensures PendingOf(Some(l), Some(r), ls, lp, rs, rp, cond, s) == Output([], Some(Evaluate(cond, l, r, s).error))
  {
  }

  /** With no join condition one left tuple pairs with every right tuple, in order. */
  lemma {:induction false} MatchesAll(l: Tuple, rs: seq<Tuple>, s: Schema)
    ensures Matches(l, rs, None, s).failure.None?
    ensures |Matches(l, rs, None, s).rows| == |rs|
    ensures forall j :: 0 <= j < |rs| ==> Matches(l, rs, None, s).rows[j] == Concat(l, rs[j])
  {
    if rs != [] {
      MatchesAll(l, rs[1..], s);
    }
  }

  lemma RowIndex(i: nat, j: nat, a: nat, n: nat)
    requires 0 < i < a && j < n
    ensures i * n + j == n + ((i - 1) * n + j)
    ensures (i - 1) * n + j < (a - 1) * n
  {
    assert i * n == (i - 1) * n + n;
    assert (a - 1) * n == (a - 2) * n + n;
    MulMonotone(i - 1, a - 2, n);
  }

  lemma {:induction false} MulMonotone(x: nat, y: nat, n: nat)
    requires x <= y
    ensures x * n <= y * n
    decreases y - x
  {
    if x < y {
      MulMonotone(x, y - 1, n);
      assert y * n == (y - 1) * n + n;
    }
  }

  /** With no join condition the join never fails and has |ls| * |rs| rows. */
  lemma {:induction false} CrossProductSize(ls: seq<Tuple>, rs: seq<Tuple>, s: Schema)
    ensures JoinAll(ls, rs, None, s).failure.None?
    ensures |JoinAll(ls, rs, None, s).rows| == |ls| * |rs|
  {
    if ls != [] {
      MatchesAll(ls[0], rs, s);
      CrossProductSize(ls[1..], rs, s);
      assert |ls| * |rs| == |rs| + (|ls| - 1) * |rs|;
    }
  }

  /**
   * With no join condition the join is the cross product in left-major
   * order: the row at i * |rs| + j combines the i-th left and the j-th right tuple.
   */
  lemma {:induction false} CrossProductAt(ls: seq<Tuple>, rs: seq<Tuple>, s: Schema, i: nat, j: nat)
    requires i < |ls| && j < |rs|
    ensures i * |rs| + j < |JoinAll(ls, rs, None, s).rows|
    ensures JoinAll(ls, rs, None, s).rows[i * |rs| + j] == Concat(ls[i], rs[j])
  {
    var n := |rs|;
    CrossProductSize(ls, rs, s);
    MatchesAll(ls[0], rs, s);
    var all := JoinAll(ls, rs, None, s).rows;
    var tail := JoinAll(ls[1..], rs, None, s).rows;
    assert all == Matches(ls[0], rs, None, s).rows + tail;
    if i > 0 {
      RowIndex(i, j, |ls|, n);
      CrossProductAt(ls[1..], rs, s, i - 1, j);
      assert ls[1..][i - 1] == ls[i];
      assert all[n + ((i - 1) * n + j)] == tail[(i - 1) * n + j];
    } else {
      MulMonotone(1, |ls|, n);
    }
  }

  /** One left tuple's rows are its combinations with the right tuples that satisfy the condition. */
  lemma {:induction false} MatchesMembers(l: Tuple, rs: seq<Tuple>, cond: Option<Expr>, s: Schema)
    requires forall j :: 0 <= j < |rs| ==> Evaluate(cond, l, rs[j], s).Ok?
    ensures Matches(l, rs, cond, s).failure.None?
    ensures forall t :: t in Matches(l, rs, cond, s).rows <==> MatchRow(l, rs, cond, s, t)
  {
    if rs != [] {
      assert forall j :: 0 <= j < |rs[1..]| ==> rs[1..][j] == rs[j + 1];
      MatchesMembers(l, rs[1..], cond, s);
      forall t | t in Matches(l, rs, cond, s).rows
        ensures MatchRow(l, rs, cond, s, t)
      {
        if t !in Matches(l, rs[1..], cond, s).rows {
          assert Evaluate(cond, l, rs[0], s) == Ok(true) && t == Concat(l, rs[0]);
        } else {
          var j :| 0 <= j < |rs[1..]| && Evaluate(cond, l, rs[1..][j], s) == Ok(true) && t == Concat(l, rs[1..][j]);
          assert rs[1..][j] == rs[j + 1];
          assert Evaluate(cond, l, rs[j + 1], s) == Ok(true) && t == Concat(l, rs[j + 1]);
        }
      }
      forall j | 0 <= j < |rs| && Evaluate(cond, l, rs[j], s) == Ok(true)
        ensures Concat(l, rs[j]) in Matches(l, rs, cond, s).rows
      {
        if j > 0 {
          assert rs[1..][j - 1] == rs[j];
        }
      }
    }
  }

  /** t is the combination of l with some right tuple that satisfies the condition. */
  ghost predicate MatchRow(l: Tuple, rs: seq<Tuple>, cond: Option<Expr>, s: Schema, t: Tuple) {
    exists j :: 0 <= j < |rs| && Evaluate(cond, l, rs[j], s) == Ok(true) && t == Concat(l, rs[j])
  }

  /** t is the combination of some left tuple with some right tuple that satisfies the condition. */
  ghost predicate JoinRow(ls: seq<Tuple>, rs: seq<Tuple>, cond: Option<Expr>, s: Schema, t: Tuple) {
    exists i :: 0 <= i < |ls| && MatchRow(ls[i], rs, cond, s, t)
  }

  lemma JoinRowSplit(ls: seq<Tuple>, rs: seq<Tuple>, cond: Option<Expr>, s: Schema, t: Tuple)
    requires ls != []
    ensures JoinRow(ls, rs, cond, s, t) <==> MatchRow(ls[0], rs, cond, s, t) || JoinRow(ls[1..], rs, cond, s, t)
  {
    if JoinRow(ls, rs, cond, s, t) && !MatchRow(ls[0], rs, cond, s, t) {
      var i :| 0 <= i < |ls| && MatchRow(ls[i], rs, cond, s, t);
      assert ls[1..][i - 1] == ls[i];
    }
    if JoinRow(ls[1..], rs, cond, s, t) {
      var i :| 0 <= i < |ls[1..]| && MatchRow(ls[1..][i], rs, cond, s, t);
      assert ls[1..][i] == ls[i + 1];
    }
  }

  /**
   * When the condition evaluates without error on every pair, the join's rows
   * are exactly the combinations of a left and a right tuple that satisfy it.
   */
  lemma {:induction false} JoinAllMembers(ls: seq<Tuple>, rs: seq<Tuple>, cond: Option<Expr>, s: Schema)
    requires forall i, j :: 0 <= i < |ls| && 0 <= j < |rs| ==> Evaluate(cond, ls[i], rs[j], s).Ok?
    ensures JoinAll(ls, rs, cond, s).failure.None?
    ensures forall t :: t in JoinAll(ls, rs, cond, s).rows <==> JoinRow(ls, rs, cond, s, t)
  {
    if ls != [] {
      assert forall i :: 0 <= i < |ls[1..]| ==> ls[1..][i] == ls[i + 1];
      MatchesMembers(ls[0], rs, cond, s);
      JoinAllMembers(ls[1..], rs, cond, s);
      forall t ensures t in JoinAll(ls, rs, cond, s).rows <==> JoinRow(ls, rs, cond, s, t) {
        JoinRowSplit(ls, rs, cond, s, t);
      }
    }
  }

  /**
   * reset as written: once the join has run to its end the left cursor is
   * null, and resetting the children does not bring it back, so a reset
   * join with a one-row left and right child produces nothing, not its row.
   */
  lemma ResetAfterEndYieldsNothing()
    ensures var ls, rs := [Tuple([1])], [Tuple([2])];
      PendingOf(None, None, ls, 0, rs, 0, None, Schema(map[])) == Empty &&
      JoinAll(ls, rs, None, Schema(map[])).rows == [Tuple([1, 2])]
  {
    var ls, rs := [Tuple([1])], [Tuple([2])];
    assert Concat(ls[0], rs[0]) == Tuple([1, 2]);
    assert rs[1..] == [] && ls[1..] == [];
  }

  class JoinOperator {
    const leftChild: Stream
    const rightChild: Stream
    const joinCondition: Option<Expr>
    const schema: Schema
    var leftTuple: Option<Tuple>
    var rightTuple: Option<Tuple>

    ghost predicate Valid()
      reads this, leftChild, rightChild
    {
      leftChild != rightChild && leftChild.Valid() && rightChild.Valid()
    }

    /** The output the following getNextTuple calls will produce. */
    ghost function Pending(): Output
      reads this, leftChild, rightChild
      requires Valid()
    {
      PendingOf(leftTuple, rightTuple, leftChild.items, leftChild.pos, rightChild.items, rightChild.pos,
                joinCondition, schema)
    }

    /** The constructor primes both cursors with each child's first tuple. */
    constructor(leftChild: Stream, rightChild: Stream, joinCondition: Option<Expr>, schema: Schema)
      requires leftChild != rightChild && leftChild.Valid() && rightChild.Valid()
      modifies leftChild, rightChild
      ensures Valid()
      ensures this.leftChild == leftChild && this.rightChild == rightChild
      ensures this.joinCondition == joinCondition && this.schema == schema
      ensures (leftTuple, leftChild.pos) == NextOf(leftChild.items, old(leftChild.pos))
      ensures (rightTuple, rightChild.pos) == NextOf(rightChild.items, old(rightChild.pos))
      ensures old(leftChild.pos) == 0 && old(rightChild.pos) == 0 ==>
        Pending() == JoinAll(leftChild.items, rightChild.items, joinCondition, schema)
    {
      this.leftChild := leftChild;
      this.rightChild := rightChild;
      this.joinCondition := joinCondition;
      this.schema := schema;
      new;
      leftTuple := leftChild.GetNextTuple();
      rightTuple := rightChild.GetNextTuple();
      if old(leftChild.pos) == 0 && old(rightChild.pos) == 0 && leftTuple.Some? {
        var ls, rs := leftChild.items, rightChild.items;
        assert ls[1..] == ls[leftChild.pos..];
        if rs != [] {
          assert [rs[0]] + rs[1..] == rs;
        }
      }
    }

    /**
     * getNextTuple: the next row of the pending output; the error that ends
     * it, raised again on every call; or null once it is used up.
     */
    method GetNextTuple() returns (r: Result<Option<Tuple>, Error>)
      requires Valid()
      modifies this, leftChild, rightChild
      ensures Valid()
      ensures old(Pending()).rows != [] ==>
        r == Ok(Some(old(Pending()).rows[0])) && Pending() == Output(old(Pending()).rows[1..], old(Pending()).failure)
      ensures old(Pending()).rows == [] && old(Pending()).failure.Some? ==>
        r == Err(old(Pending()).failure.value) && Pending() == old(Pending())
      ensures old(Pending()).rows == [] && old(Pending()).failure.None? ==>
        r == Ok(None) && Pending() == old(Pending())
    {
      while leftTuple.Some?
        invariant Valid()
        invariant Pending() == old(Pending())
        decreases if leftTuple.None? then 0 else 1 + |leftChild.items| - leftChild.pos,
                  if rightTuple.None? then 0 else 1 + |rightChild.items| - rightChild.pos
      {
        if rightTuple.None? {
          NextLeft();
          continue;
        }
        var l, rt := leftTuple.value, rightTuple.value;
        var satisfied := Evaluate(joinCondition, l, rt, schema);
        if satisfied.Err? {
          Fail(l, rt, leftChild.items, leftChild.pos, rightChild.items, rightChild.pos, joinCondition, schema);
          return Err(satisfied.error);
        }
        if satisfied.value {
          Emit(l, rt, leftChild.items, leftChild.pos, rightChild.items, rightChild.pos, joinCondition, schema);
          var combined := Concat(l, rt);
          rightTuple := rightChild.GetNextTuple();
          return Ok(Some(combined));
        } else {
          NextRight();
        }
      }
      return Ok(None);
    }

    /**
     * The outer step of getNextTuple once the inner child is used up: the next
     * outer tuple, the inner child reset and its first tuple fetched. The
     * pending output stays the same and the outer cursor moves on.
     */
    method NextLeft()
      requires Valid() && leftTuple.Some? && rightTuple.None?
      modifies this, leftChild, rightChild
      ensures Valid() && Pending() == old(Pending())
      ensures leftTuple.Some? ==> old(leftChild.pos) < leftChild.pos
    {
      AdvanceLeft(leftTuple.value, leftChild.items, leftChild.pos, rightChild.items, rightChild.pos,
                  joinCondition, schema);
      ghost var lp := leftChild.pos;
      leftTuple := leftChild.GetNextTuple();
      rightChild.Reset();
      rightTuple := rightChild.GetNextTuple();
      assert (leftTuple, leftChild.pos) == NextOf(leftChild.items, lp);
      assert (rightTuple, rightChild.pos) == NextOf(rightChild.items, 0);
    }

    /**
     * The inner step of getNextTuple on a pair that does not satisfy the
     * condition: the next inner tuple. The pending output stays the same, the
     * outer cursor stays put and the inner one moves on.
     */
    method NextRight()
      requires Valid() && leftTuple.Some? && rightTuple.Some?
      requires Evaluate(joinCondition, leftTuple.value, rightTuple.value, schema) == Ok(false)
      modifies this, rightChild
      ensures Valid() && Pending() == old(Pending())
      ensures leftTuple == old(leftTuple)
      ensures rightTuple.Some? ==> old(rightChild.pos) < rightChild.pos
    {
      AdvanceRight(leftTuple.value, rightTuple.value, leftChild.items, leftChild.pos, rightChild.items,
                   rightChild.pos, joinCondition, schema);
      ghost var rp := rightChild.pos;
      rightTuple := rightChild.GetNextTuple();
      assert (rightTuple, rightChild.pos) == NextOf(rightChild.items, rp);
    }

    /**
     * reset: both children are reset; the two cursor fields keep their
     * values, so what follows is the rest of the stale inner loop and then
     * the whole join again — or nothing, if the join had reached its end.
     */
    method Reset()
      requires Valid()
      modifies leftChild, rightChild
      ensures Valid() && leftChild.pos == 0 && rightChild.pos == 0
      ensures leftTuple == old(leftTuple) && rightTuple == old(rightTuple)
      ensures leftTuple.None? ==> Pending() == Empty
      ensures leftTuple.Some? ==>
        Pending() == Then(Matches(leftTuple.value, if rightTuple.Some? then [rightTuple.value] + rightChild.items else [],
                                  joinCondition, schema),
                          JoinAll(leftChild.items, rightChild.items, joinCondition, schema))
    {
      leftChild.Reset();
      rightChild.Reset();
    }

    /**
     * reset as the operator contract intends it: both children restarted and
     * both cursors primed again, so the whole join is produced once more.
     */
    method ResetAndPrime()
      requires Valid()
      modifies this, leftChild, rightChild
      ensures Valid()
      ensures Pending() == JoinAll(leftChild.items, rightChild.items, joinCondition, schema)
    {
      leftChild.Reset();
      rightChild.Reset();
      leftTuple := leftChild.GetNextTuple();
      rightTuple := rightChild.GetNextTuple();
      var ls, rs := leftChild.items, rightChild.items;
      if leftTuple.Some? {
        assert ls[1..] == ls[leftChild.pos..];
        if rs != [] {
          assert [rs[0]] + rs[1..] == rs;
        }
      }
    }
  }
}
