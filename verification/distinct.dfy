/**
 * DuplicateEliminationOperator: passes on the first child tuple of each
 * distinct key, the key being the selected column values each followed by
 * "|", with one unique tuple fetched ahead.
 */
module Distinct {
  import opened Wrappers
  import opened Errors
  import opened Text
  import opened Tuples
  import opened Schemas
  import opened Streams

  // ---------------------------------------------------------------------------
  // generateTupleKey
  // ---------------------------------------------------------------------------

  /** The key string of a list of values: each value's decimal form followed by "|". */
  function KeyOf(values: seq<int>): string {
    if values == [] then "" else IntToString(values[0]) + "|" + KeyOf(values[1..])
  }

  lemma {:induction false} KeyOfAppend(a: seq<int>, b: seq<int>)
    ensures KeyOf(a + b) == KeyOf(a) + KeyOf(b)
  {
    if a == [] {
      assert a + b == b;
    } else {
      assert (a + b)[1..] == a[1..] + b;
      KeyOfAppend(a[1..], b);
    }
  }

  /** The first separator of x + [c] + y is the one after x when x has none. */
  lemma {:induction false} FirstSeparator(x: string, y: string, c: char)
    requires c !in x
    ensures IndexOf(x + [c] + y, c) == |x|
  {
    if x != [] {
      assert (x + [c] + y)[1..] == x[1..] + [c] + y;
      FirstSeparator(x[1..], y, c);
    }
  }

  /** Two strings cut at their first separator agree on both sides. */
  lemma SeparatorSplit(x: string, y: string, u: string, v: string, c: char)
    requires c !in x && c !in u && x + [c] + y == u + [c] + v
    ensures x == u && y == v
  {
    var w := x + [c] + y;
    FirstSeparator(x, y, c);
    FirstSeparator(u, v, c);
    assert x == w[..|x|] == u;
    assert y == w[|x| + 1..] == v;
  }

  /** The key determines the values: the "|" delimiter makes the encoding injective. */
  lemma {:induction false} KeyOfInjective(a: seq<int>, b: seq<int>)
    ensures KeyOf(a) == KeyOf(b) <==> a == b
  {
    if KeyOf(a) == KeyOf(b) {
      if a != [] && b != [] {
        IntToStringAvoids(a[0], '|');
        IntToStringAvoids(b[0], '|');
        SeparatorSplit(IntToString(a[0]), KeyOf(a[1..]), IntToString(b[0]), KeyOf(b[1..]), '|');
        IntToStringInjective(a[0], b[0]);
        KeyOfInjective(a[1..], b[1..]);
        assert a == [a[0]] + a[1..] && b == [b[0]] + b[1..];
      }
    }
  }

  /**
   * The values a tuple's key is built from, one per column index in order:
   * null indexes fail on unboxing, indexes outside the tuple in getValueByPos;
   * the first failing index decides the error.
   */
  function SelectedValues(t: Tuple, columnIndexes: seq<Option<nat>>): (r: Result<seq<int>, Error>)
    ensures r.Ok? <==> forall k :: 0 <= k < |columnIndexes| ==> columnIndexes[k].Some? && columnIndexes[k].value < |t.values|
    ensures r.Ok? ==> |r.value| == |columnIndexes|
    ensures r.Ok? ==> forall k :: 0 <= k < |columnIndexes| ==> r.value[k] == t.values[columnIndexes[k].value]
  {
    if columnIndexes == [] then Ok([])
    else
      var init := columnIndexes[..|columnIndexes| - 1];
      assert forall k :: 0 <= k < |init| ==> init[k] == columnIndexes[k];
      var prefix :- SelectedValues(t, init);
      var last := columnIndexes[|columnIndexes| - 1];
      if last.None? then Err(NullPointer)
      else
        var v :- GetValueByPos(t, last.value);
        Ok(prefix + [v])
  }

  /**
   * The error is the first failing position's: a null index unboxed, or a
   * position outside the tuple.
   */
  lemma {:induction false} SelectedValuesError(t: Tuple, columnIndexes: seq<Option<nat>>) returns (k: nat)
    requires SelectedValues(t, columnIndexes).Err?
    ensures k < |columnIndexes|
    ensures forall j :: 0 <= j < k ==> columnIndexes[j].Some? && columnIndexes[j].value < |t.values|
    ensures columnIndexes[k].None? ==> SelectedValues(t, columnIndexes).error == NullPointer
    ensures columnIndexes[k].Some? ==>
      columnIndexes[k].value >= |t.values| && SelectedValues(t, columnIndexes).error == IndexOutOfBounds(columnIndexes[k].value)
  {
    var init := columnIndexes[..|columnIndexes| - 1];
    if SelectedValues(t, init).Err? {
      k := SelectedValuesError(t, init);
      assert columnIndexes[k] == init[k];
      assert forall j :: 0 <= j < k ==> columnIndexes[j] == init[j];
    } else {
      k := |columnIndexes| - 1;
      assert forall j :: 0 <= j < k ==> columnIndexes[j] == init[j];
    }
  }

  /** generateTupleKey's result. */
  function TupleKey(t: Tuple, columnIndexes: seq<Option<nat>>): Result<string, Error> {
    var values :- SelectedValues(t, columnIndexes);
    Ok(KeyOf(values))
  }

  /** Two tuples get the same key exactly when they agree on every selected column. */
  lemma TupleKeyIdentifies(a: Tuple, b: Tuple, columnIndexes: seq<Option<nat>>)
    requires TupleKey(a, columnIndexes).Ok? && TupleKey(b, columnIndexes).Ok?
    ensures TupleKey(a, columnIndexes) == TupleKey(b, columnIndexes) <==>
      forall k :: 0 <= k < |columnIndexes| ==> a.values[columnIndexes[k].value] == b.values[columnIndexes[k].value]
  {
    var va, vb := SelectedValues(a, columnIndexes).value, SelectedValues(b, columnIndexes).value;
    KeyOfInjective(va, vb);
  }

  // ---------------------------------------------------------------------------
  // findNextUniqueTuple and the whole output
  // ---------------------------------------------------------------------------

  /**
   * What one findNextUniqueTuple call leaves behind: the unique tuple found
   * (None when the child ran out), how many child tuples it pulled, and the
   * seen keys afterwards.
   */
  datatype Lookahead = Lookahead(found: Option<Tuple>, consumed: nat, seen: set<string>)

  /** A key that is new to the seen set and to every earlier tuple. */
  ghost predicate FirstOccurrence(ts: seq<Tuple>, columnIndexes: seq<Option<nat>>, seen: set<string>, i: int)
    requires 0 <= i < |ts| && forall k :: 0 <= k < |ts| ==> TupleKey(ts[k], columnIndexes).Ok?
  {
    TupleKey(ts[i], columnIndexes).value !in seen &&
    forall j :: 0 <= j < i ==> TupleKey(ts[j], columnIndexes) != TupleKey(ts[i], columnIndexes)
  }

  /**
   * findNextUniqueTuple over the tuples the child still has: the first whose
   * key is not yet seen, every tuple before it skipped as a duplicate; the
   * exception of the first key that cannot be built.
   */
  function NextUnique(ts: seq<Tuple>, columnIndexes: seq<Option<nat>>, seen: set<string>): Result<Lookahead, Error> {
    if ts == [] then Ok(Lookahead(None, 0, seen))
    else
      var key :- TupleKey(ts[0], columnIndexes);
      if key !in seen then Ok(Lookahead(Some(ts[0]), 1, seen + {key}))
      else
        var next :- NextUnique(ts[1..], columnIndexes, seen);
        Ok(next.(consumed := next.consumed + 1))
  }

  /**
   * The search stops at the first tuple with an unseen key, having skipped
   * only tuples whose keys were seen, and adds that key; without one it
   * pulls every tuple and adds nothing.
   */
  lemma {:induction false} NextUniqueSpec(ts: seq<Tuple>, columnIndexes: seq<Option<nat>>, seen: set<string>)
    requires NextUnique(ts, columnIndexes, seen).Ok?
    ensures var l := NextUnique(ts, columnIndexes, seen).value;
      l.consumed <= |ts| &&
      forall k :: 0 <= k < |ts| && k < l.consumed - (if l.found.Some? then 1 else 0) ==>
        TupleKey(ts[k], columnIndexes).Ok? && TupleKey(ts[k], columnIndexes).value in seen
    ensures var l := NextUnique(ts, columnIndexes, seen).value;
      l.found.None? ==> l.consumed == |ts| && l.seen == seen
    ensures var l := NextUnique(ts, columnIndexes, seen).value;
      l.found.Some? ==> (0 < l.consumed <= |ts| && l.found.value == ts[l.consumed - 1] &&
        TupleKey(ts[l.consumed - 1], columnIndexes).Ok? &&
        TupleKey(ts[l.consumed - 1], columnIndexes).value !in seen &&
        l.seen == seen + {TupleKey(ts[l.consumed - 1], columnIndexes).value})
  {
    if ts != [] && TupleKey(ts[0], columnIndexes).value in seen {
      NextUniqueSpec(ts[1..], columnIndexes, seen);
      var l := NextUnique(ts[1..], columnIndexes, seen).value;
      forall k | 0 < k < |ts|
        ensures ts[k] == ts[1..][k - 1]
      {
      }
    }
  }

  /** A result list with one more tuple in front, or the same exception. */
  function Prepend(t: Tuple, r: Result<seq<Tuple>, Error>): Result<seq<Tuple>, Error> {
    match r
    case Ok(rest) => Ok([t] + rest)
    case Err(e) => Err(e)
  }

  /**
   * Everything the operator emits from the tuples ts, given the keys already
   * seen: each tuple whose key is new, in child order, or the exception of
   * the first key that cannot be built.
   */
  function DistinctFrom(ts: seq<Tuple>, columnIndexes: seq<Option<nat>>, seen: set<string>): Result<seq<Tuple>, Error> {
    if ts == [] then Ok([])
    else
      var key :- TupleKey(ts[0], columnIndexes);
      if key in seen then DistinctFrom(ts[1..], columnIndexes, seen)
      else Prepend(ts[0], DistinctFrom(ts[1..], columnIndexes, seen + {key}))
  }

  /** One findNextUniqueTuple step produces the head of the output and leaves the rest to come. */
  lemma {:induction false} DistinctStep(ts: seq<Tuple>, columnIndexes: seq<Option<nat>>, seen: set<string>)
    ensures NextUnique(ts, columnIndexes, seen).Ok? ==> NextUnique(ts, columnIndexes, seen).value.consumed <= |ts|
    ensures NextUnique(ts, columnIndexes, seen).Err? ==>
      DistinctFrom(ts, columnIndexes, seen) == Err(NextUnique(ts, columnIndexes, seen).error)
    ensures NextUnique(ts, columnIndexes, seen).Ok? ==> (var l := NextUnique(ts, columnIndexes, seen).value;
      DistinctFrom(ts, columnIndexes, seen) ==
        match l.found
        case None => Ok([])
        case Some(t) => Prepend(t, DistinctFrom(ts[l.consumed..], columnIndexes, l.seen)))
  {
    if NextUnique(ts, columnIndexes, seen).Ok? {
      NextUniqueSpec(ts, columnIndexes, seen);
    }
    if ts != [] && TupleKey(ts[0], columnIndexes).Ok? && TupleKey(ts[0], columnIndexes).value in seen {
      DistinctStep(ts[1..], columnIndexes, seen);
      var r := NextUnique(ts[1..], columnIndexes, seen);
      if r.Ok? {
        assert ts[1..][r.value.consumed..] == ts[r.value.consumed + 1..];
      }
    }
  }

  /**
   * When every key can be built, the output is the first occurrence of each
   * key not already seen, in child order: pos lists their positions,
   * increasing, and a position is listed exactly when its key occurs there
   * first.
   */
  lemma {:induction false} DistinctPositions(ts: seq<Tuple>, columnIndexes: seq<Option<nat>>, seen: set<string>)
    returns (pos: seq<int>)
    requires forall k :: 0 <= k < |ts| ==> TupleKey(ts[k], columnIndexes).Ok?
    ensures DistinctFrom(ts, columnIndexes, seen).Ok?
    ensures |pos| == |DistinctFrom(ts, columnIndexes, seen).value|
    ensures forall k :: 0 <= k < |pos| ==> 0 <= pos[k] < |ts| && DistinctFrom(ts, columnIndexes, seen).value[k] == ts[pos[k]]
    ensures forall k1, k2 :: 0 <= k1 < k2 < |pos| ==> pos[k1] < pos[k2]
    ensures forall i :: 0 <= i < |ts| ==> (i in pos <==> FirstOccurrence(ts, columnIndexes, seen, i))
  {
    if ts == [] {
      pos := [];
    } else {
      var key := TupleKey(ts[0], columnIndexes).value;
      var tail := ts[1..];
      var seen' := seen + {key};
      var p := DistinctPositions(tail, columnIndexes, seen');
      var tailOut := DistinctFrom(tail, columnIndexes, seen').value;
      var lead := key !in seen;
      pos := Shifted(p, lead);
      DistinctFromHead(ts, columnIndexes, seen);
      ShiftedPicks(ts, tailOut, p, pos, lead);
      ShiftedFirstOccurrences(ts, columnIndexes, seen, p, pos);
    }
  }

  /** The tail's first occurrences, moved one place on, with the head in front when its key is new. */
  lemma ShiftedFirstOccurrences(ts: seq<Tuple>, columnIndexes: seq<Option<nat>>, seen: set<string>, p: seq<int>, pos: seq<int>)
    requires ts != [] && forall k :: 0 <= k < |ts| ==> TupleKey(ts[k], columnIndexes).Ok?
    requires forall k :: 0 <= k < |ts[1..]| ==> TupleKey(ts[1..][k], columnIndexes).Ok?
    requires forall i :: 0 <= i < |ts| - 1 ==>
      (i in p <==> FirstOccurrence(ts[1..], columnIndexes, seen + {TupleKey(ts[0], columnIndexes).value}, i))
    requires 0 in pos <==> TupleKey(ts[0], columnIndexes).value !in seen
    requires forall i :: i > 0 ==> (i in pos <==> i - 1 in p)
    ensures forall i :: 0 <= i < |ts| ==> (i in pos <==> FirstOccurrence(ts, columnIndexes, seen, i))
  {
    forall i | 0 <= i < |ts|
      ensures i in pos <==> FirstOccurrence(ts, columnIndexes, seen, i)
    {
      if i > 0 {
        FirstOccurrenceTail(ts, columnIndexes, seen, i);
      }
    }
  }

  /** The output starts with the first tuple exactly when its key is new; the rest comes from the tail. */
  lemma DistinctFromHead(ts: seq<Tuple>, columnIndexes: seq<Option<nat>>, seen: set<string>)
    requires ts != [] && TupleKey(ts[0], columnIndexes).Ok?
    requires DistinctFrom(ts[1..], columnIndexes, seen + {TupleKey(ts[0], columnIndexes).value}).Ok?
    ensures var key := TupleKey(ts[0], columnIndexes).value;
      DistinctFrom(ts, columnIndexes, seen) ==
        Ok((if key !in seen then [ts[0]] else []) + DistinctFrom(ts[1..], columnIndexes, seen + {key}).value)
  {
    var key := TupleKey(ts[0], columnIndexes).value;
    var rest := DistinctFrom(ts[1..], columnIndexes, seen + {key}).value;
    if key in seen {
      assert seen + {key} == seen;
      assert [] + rest == rest;
    }
  }

  /** The tail's picks, moved one place on, pick the same tuples from the whole sequence. */
  lemma ShiftedPicks(ts: seq<Tuple>, tailOut: seq<Tuple>, p: seq<int>, pos: seq<int>, lead: bool)
    requires ts != [] && |p| == |tailOut|
    requires forall k :: 0 <= k < |p| ==> 0 <= p[k] < |ts| - 1 && tailOut[k] == ts[1..][p[k]]
    requires |pos| == |p| + (if lead then 1 else 0)
    requires lead ==> pos[0] == 0 && forall k :: 0 <= k < |p| ==> pos[k + 1] == p[k] + 1
    requires !lead ==> forall k :: 0 <= k < |p| ==> pos[k] == p[k] + 1
    ensures forall k :: 0 <= k < |pos| ==>
      0 <= pos[k] < |ts| && ((if lead then [ts[0]] else []) + tailOut)[k] == ts[pos[k]]
  {
    var out := (if lead then [ts[0]] else []) + tailOut;
    forall k | 0 <= k < |pos|
      ensures 0 <= pos[k] < |ts| && out[k] == ts[pos[k]]
    {
      if !lead {
        assert out[k] == tailOut[k] == ts[1..][p[k]];
      } else if k > 0 {
        assert out[k] == tailOut[k - 1] == ts[1..][p[k - 1]];
      }
    }
  }

  /** Positions moved one place on, with position 0 in front when lead holds. */
  lemma Shifted(p: seq<int>, lead: bool) returns (pos: seq<int>)
    requires forall k :: 0 <= k < |p| ==> 0 <= p[k]
    requires forall k1, k2 :: 0 <= k1 < k2 < |p| ==> p[k1] < p[k2]
    ensures |pos| == |p| + (if lead then 1 else 0)
    ensures lead ==> pos[0] == 0 && forall k :: 0 <= k < |p| ==> pos[k + 1] == p[k] + 1
    ensures !lead ==> forall k :: 0 <= k < |p| ==> pos[k] == p[k] + 1
    ensures forall k1, k2 :: 0 <= k1 < k2 < |pos| ==> pos[k1] < pos[k2]
    ensures 0 in pos <==> lead
    ensures forall i :: i > 0 ==> (i in pos <==> i - 1 in p)
  {
    var shifted := seq(|p|, k requires 0 <= k < |p| => p[k] + 1);
    pos := if lead then [0] + shifted else shifted;
    forall i | i > 0
      ensures i in pos <==> i - 1 in p
    {
      if i - 1 in p {
        var k :| 0 <= k < |p| && p[k] == i - 1;
        assert shifted[k] == i;
      }
    }
  }

  /** Dropping the first tuple and adding its key to the seen set keeps every later first occurrence. */
  lemma FirstOccurrenceTail(ts: seq<Tuple>, columnIndexes: seq<Option<nat>>, seen: set<string>, i: int)
    requires forall k :: 0 <= k < |ts| ==> TupleKey(ts[k], columnIndexes).Ok?
    requires 0 < i < |ts|
    ensures FirstOccurrence(ts, columnIndexes, seen, i) <==>
      FirstOccurrence(ts[1..], columnIndexes, seen + {TupleKey(ts[0], columnIndexes).value}, i - 1)
  {
    var tail := ts[1..];
    assert tail[i - 1] == ts[i];
    forall j | 0 < j < i
      ensures ts[j] == tail[j - 1]
    {
    }
  }

  /** No two emitted tuples share a key, and none has a key that was already seen. */
  lemma DistinctKeysUnique(ts: seq<Tuple>, columnIndexes: seq<Option<nat>>, seen: set<string>)
    requires forall k :: 0 <= k < |ts| ==> TupleKey(ts[k], columnIndexes).Ok?
    ensures DistinctFrom(ts, columnIndexes, seen).Ok?
    ensures var out := DistinctFrom(ts, columnIndexes, seen).value;
      forall k1, k2 :: 0 <= k1 < k2 < |out| ==> TupleKey(out[k1], columnIndexes) != TupleKey(out[k2], columnIndexes)
    ensures var out := DistinctFrom(ts, columnIndexes, seen).value;
      forall k :: 0 <= k < |out| ==> TupleKey(out[k], columnIndexes).Ok? && TupleKey(out[k], columnIndexes).value !in seen
  {
    var pos := DistinctPositions(ts, columnIndexes, seen);
    var out := DistinctFrom(ts, columnIndexes, seen).value;
    forall k1, k2 | 0 <= k1 < k2 < |out|
      ensures TupleKey(out[k1], columnIndexes) != TupleKey(out[k2], columnIndexes)
    {
      assert pos[k2] in pos;
    }
    forall k | 0 <= k < |out|
      ensures TupleKey(out[k], columnIndexes).value !in seen
    {
      assert pos[k] in pos;
    }
  }

  /** Every key of the input that was not already seen is represented in the output. */
  lemma DistinctKeepsEveryKey(ts: seq<Tuple>, columnIndexes: seq<Option<nat>>, seen: set<string>, i: int)
    requires forall k :: 0 <= k < |ts| ==> TupleKey(ts[k], columnIndexes).Ok?
    requires 0 <= i < |ts| && TupleKey(ts[i], columnIndexes).value !in seen
    ensures DistinctFrom(ts, columnIndexes, seen).Ok?
    ensures exists k :: (0 <= k < |DistinctFrom(ts, columnIndexes, seen).value| &&
      TupleKey(DistinctFrom(ts, columnIndexes, seen).value[k], columnIndexes) == TupleKey(ts[i], columnIndexes))
  {
    var pos := DistinctPositions(ts, columnIndexes, seen);
    // the earliest tuple with the same key is a first occurrence, hence emitted
    var first :| 0 <= first <= i && TupleKey(ts[first], columnIndexes) == TupleKey(ts[i], columnIndexes) &&
      forall j :: 0 <= j < first ==> TupleKey(ts[j], columnIndexes) != TupleKey(ts[i], columnIndexes) by {
      EarliestMatch(ts, columnIndexes, i, i);
    }
    assert FirstOccurrence(ts, columnIndexes, seen, first);
    var k :| 0 <= k < |pos| && pos[k] == first;
    assert DistinctFrom(ts, columnIndexes, seen).value[k] == ts[first];
  }

  /** Some position at or before n carries the same key as i and no earlier one does. */
  lemma {:induction false} EarliestMatch(ts: seq<Tuple>, columnIndexes: seq<Option<nat>>, i: int, n: int)
    requires 0 <= n <= i < |ts| && TupleKey(ts[n], columnIndexes) == TupleKey(ts[i], columnIndexes)
    ensures exists first :: (0 <= first <= i && TupleKey(ts[first], columnIndexes) == TupleKey(ts[i], columnIndexes) &&
      forall j :: 0 <= j < first ==> TupleKey(ts[j], columnIndexes) != TupleKey(ts[i], columnIndexes))
    decreases n
  {
    if exists j :: 0 <= j < n && TupleKey(ts[j], columnIndexes) == TupleKey(ts[i], columnIndexes) {
      var j :| 0 <= j < n && TupleKey(ts[j], columnIndexes) == TupleKey(ts[i], columnIndexes);
      EarliestMatch(ts, columnIndexes, i, j);
    } else {
      assert forall j :: 0 <= j < n ==> TupleKey(ts[j], columnIndexes) != TupleKey(ts[i], columnIndexes);
    }
  }

  // ---------------------------------------------------------------------------
  // The operator
  // ---------------------------------------------------------------------------

  /** The position of each named column in the schema, null (None) when the schema cannot resolve it. */
  function ColumnIndexesOf(schema: Schema, columnNames: seq<string>): (r: seq<Option<nat>>)
    ensures |r| == |columnNames|
    ensures forall k :: 0 <= k < |columnNames| ==> r[k] == GetColumnIndex(schema, columnNames[k])
  {
    seq(|columnNames|, k requires 0 <= k < |columnNames| => GetColumnIndex(schema, columnNames[k]))
  }

  class DuplicateEliminationOperator {
    const child: Stream
    const columnIndexes: seq<Option<nat>>
    var seenTupleKeys: set<string>
    var nextUniqueTuple: Option<Tuple>

    ghost predicate Valid()
      reads this, child
    {
      child.Valid()
    }

    /**
     * What the operator still has to emit: the look-ahead tuple, then the
     * new-keyed tuples among those the child has not yet handed out.
     */
    ghost function Pending(): Result<seq<Tuple>, Error>
      reads this, child
      requires Valid()
    {
      match nextUniqueTuple
      case None => Ok([])
      case Some(t) => Prepend(t, DistinctFrom(child.items[child.pos..], columnIndexes, seenTupleKeys))
    }

    /** The constructor's loop: the schema's getColumnIndex of each column name, null when unknown. */
    constructor(child: Stream, schema: Schema, columnNames: seq<string>)
      requires child.Valid()
      ensures Valid() && this.child == child && columnIndexes == ColumnIndexesOf(schema, columnNames)
      ensures seenTupleKeys == {} && nextUniqueTuple.None?
    {
      this.child := child;
      var indexes: seq<Option<nat>> := [];
      for i := 0 to |columnNames|
        invariant |indexes| == i
        invariant forall k :: 0 <= k < i ==> indexes[k] == GetColumnIndex(schema, columnNames[k])
      {
        indexes := indexes + [GetColumnIndex(schema, columnNames[i])];
      }
      assert indexes == ColumnIndexesOf(schema, columnNames);
      this.columnIndexes := indexes;
      seenTupleKeys := {};
      nextUniqueTuple := None;
    }

    /** generateTupleKey: appends each selected value and "|" in column order. */
    method GenerateTupleKey(tuple: Tuple) returns (r: Result<string, Error>)
      ensures r == TupleKey(tuple, columnIndexes)
    {
      var key := "";
      ghost var values: seq<int> := [];
      for i := 0 to |columnIndexes|
        invariant SelectedValues(tuple, columnIndexes[..i]) == Ok(values)
        invariant key == KeyOf(values)
      {
        if columnIndexes[i].None? {
          SelectedValuesStop(tuple, columnIndexes, i, values);
          return Err(NullPointer);
        }
        var value := GetValueByPos(tuple, columnIndexes[i].value);
        if value.Err? {
          SelectedValuesStop(tuple, columnIndexes, i, values);
          return Err(value.error);
        }
        SelectedValuesSnoc(tuple, columnIndexes, i, values, value.value);
        KeyOfAppend(values, [value.value]);
        key := key + IntToString(value.value) + "|";
        values := values + [value.value];
      }
      assert columnIndexes[..|columnIndexes|] == columnIndexes;
      r := Ok(key);
    }

    /**
     * findNextUniqueTuple: pulls child tuples until one has a key not yet
     * seen, records the key and keeps the tuple as the look-ahead; null once
     * the child is exhausted.
     */
    method FindNextUniqueTuple() returns (failure: Option<Error>)
      requires Valid()
      modifies this, child
      ensures Valid()
      ensures NextUnique(old(child.items[child.pos..]), columnIndexes, old(seenTupleKeys)).Err? ==>
        failure == Some(NextUnique(old(child.items[child.pos..]), columnIndexes, old(seenTupleKeys)).error) &&
        seenTupleKeys == old(seenTupleKeys) && nextUniqueTuple == old(nextUniqueTuple)
      ensures NextUnique(old(child.items[child.pos..]), columnIndexes, old(seenTupleKeys)).Ok? ==>
        (var l := NextUnique(old(child.items[child.pos..]), columnIndexes, old(seenTupleKeys)).value;
        failure.None? && nextUniqueTuple == l.found && seenTupleKeys == l.seen && child.pos == old(child.pos) + l.consumed)
    {
      ghost var start := child.pos;
      ghost var goal := NextUnique(child.items[start..], columnIndexes, seenTupleKeys);
      while true
        invariant child.Valid() && start <= child.pos
        invariant seenTupleKeys == old(seenTupleKeys) && nextUniqueTuple == old(nextUniqueTuple)
        invariant goal == Advance(NextUnique(child.items[child.pos..], columnIndexes, seenTupleKeys), child.pos - start)
        decreases |child.items| - child.pos
      {
        var stop, f := PullOne(start, goal);
        if stop {
          return f;
        }
      }
    }

    /**
     * One pass of findNextUniqueTuple's loop: pull a tuple; stop at the end of
     * the child, at a key that cannot be built or at a new key (recording it
     * and the tuple), and otherwise go on with the look-ahead still to find.
     */
    method PullOne(ghost start: nat, ghost goal: Result<Lookahead, Error>) returns (stop: bool, failure: Option<Error>)
      requires child.Valid() && start <= child.pos
      requires goal == Advance(NextUnique(child.items[child.pos..], columnIndexes, seenTupleKeys), child.pos - start)
      modifies this, child
      ensures child.Valid() && start <= child.pos
      ensures !stop ==> (old(child.pos) < child.pos &&
        seenTupleKeys == old(seenTupleKeys) && nextUniqueTuple == old(nextUniqueTuple) &&
        goal == Advance(NextUnique(child.items[child.pos..], columnIndexes, seenTupleKeys), child.pos - start))
      ensures stop && goal.Err? ==>
        (failure == Some(goal.error) && seenTupleKeys == old(seenTupleKeys) && nextUniqueTuple == old(nextUniqueTuple))
      ensures stop && goal.Ok? ==>
        (failure.None? && nextUniqueTuple == goal.value.found && seenTupleKeys == goal.value.seen &&
        child.pos == start + goal.value.consumed)
    {
      ghost var rest := child.items[child.pos..];
      ghost var skipped := child.pos - start;
      NextUniqueAfter(rest, columnIndexes, seenTupleKeys, skipped, goal);
      var tuple := child.GetNextTuple();
      if tuple.None? {
        assert goal == Ok(Lookahead(None, skipped, seenTupleKeys));
        nextUniqueTuple := None;
        return true, None;
      }
      assert tuple.value == rest[0] && rest[1..] == child.items[child.pos..];
      var key := GenerateTupleKey(tuple.value);
      if key.Err? {
        assert goal == Err(key.error);
        return true, Some(key.error);
      }
      if key.value !in seenTupleKeys {
        assert goal == Ok(Lookahead(tuple, skipped + 1, seenTupleKeys + {key.value}));
        seenTupleKeys := seenTupleKeys + {key.value};
        nextUniqueTuple := tuple;
        return true, None;
      }
      return false, None;
    }

    /**
     * getNextTuple: hands out the look-ahead and fetches the next one; once
     * the look-ahead is null it stays null and the child is not pulled again.
     */
    method GetNextTuple() returns (r: Result<Option<Tuple>, Error>)
      requires Valid()
      modifies this, child
      ensures Valid()
      ensures old(nextUniqueTuple).None? ==>
        r == Ok(None) && child.pos == old(child.pos) && nextUniqueTuple.None? && seenTupleKeys == old(seenTupleKeys)
      ensures old(nextUniqueTuple).Some? && NextUnique(old(child.items[child.pos..]), columnIndexes, old(seenTupleKeys)).Err? ==>
        r == Err(NextUnique(old(child.items[child.pos..]), columnIndexes, old(seenTupleKeys)).error)
      ensures old(nextUniqueTuple).Some? && NextUnique(old(child.items[child.pos..]), columnIndexes, old(seenTupleKeys)).Ok? ==>
        (var l := NextUnique(old(child.items[child.pos..]), columnIndexes, old(seenTupleKeys)).value;
        r == Ok(old(nextUniqueTuple)) && nextUniqueTuple == l.found && seenTupleKeys == l.seen &&
        child.pos == old(child.pos) + l.consumed)
      ensures old(Pending()).Ok? && old(Pending()).value != [] ==>
        r == Ok(Some(old(Pending()).value[0])) && Pending() == Ok(old(Pending()).value[1..])
      ensures old(Pending()) == Ok([]) ==> r == Ok(None)
    {
      ghost var ts := child.items[child.pos..];
      DistinctStep(ts, columnIndexes, seenTupleKeys);
      var currentTuple := nextUniqueTuple;
      if currentTuple.Some? {
        var failure := FindNextUniqueTuple();
        if failure.Some? {
          return Err(failure.value);
        }
        var l := NextUnique(ts, columnIndexes, old(seenTupleKeys)).value;
        assert ts[l.consumed..] == child.items[child.pos..];
      }
      return Ok(currentTuple);
    }

    /** reset: does nothing; the seen keys, the look-ahead and the child stay as they are. */
    method Reset()
      requires Valid()
      ensures Valid() && Pending() == old(Pending())
    {
    }
  }

  /** findNextUniqueTuple's decision on the first tuple it pulls. */
  lemma NextUniqueHead(ts: seq<Tuple>, columnIndexes: seq<Option<nat>>, seen: set<string>)
    ensures ts == [] ==> NextUnique(ts, columnIndexes, seen) == Ok(Lookahead(None, 0, seen))
    ensures ts != [] && TupleKey(ts[0], columnIndexes).Err? ==>
      NextUnique(ts, columnIndexes, seen) == Err(TupleKey(ts[0], columnIndexes).error)
    ensures ts != [] && TupleKey(ts[0], columnIndexes).Ok? && TupleKey(ts[0], columnIndexes).value !in seen ==>
      NextUnique(ts, columnIndexes, seen) == Ok(Lookahead(Some(ts[0]), 1, seen + {TupleKey(ts[0], columnIndexes).value}))
    ensures ts != [] && TupleKey(ts[0], columnIndexes).Ok? && TupleKey(ts[0], columnIndexes).value in seen ==>
      NextUnique(ts, columnIndexes, seen) == Advance(NextUnique(ts[1..], columnIndexes, seen), 1)
  {
  }

  /** What a search that had already skipped n tuples finds, by the first of the tuples left. */
  lemma NextUniqueAfter(ts: seq<Tuple>, columnIndexes: seq<Option<nat>>, seen: set<string>, n: nat,
                        goal: Result<Lookahead, Error>)
    requires goal == Advance(NextUnique(ts, columnIndexes, seen), n)
    ensures ts == [] ==> goal == Ok(Lookahead(None, n, seen))
    ensures ts != [] && TupleKey(ts[0], columnIndexes).Err? ==> goal == Err(TupleKey(ts[0], columnIndexes).error)
    ensures ts != [] && TupleKey(ts[0], columnIndexes).Ok? && TupleKey(ts[0], columnIndexes).value !in seen ==>
      goal == Ok(Lookahead(Some(ts[0]), n + 1, seen + {TupleKey(ts[0], columnIndexes).value}))
    ensures ts != [] && TupleKey(ts[0], columnIndexes).Ok? && TupleKey(ts[0], columnIndexes).value in seen ==>
      goal == Advance(NextUnique(ts[1..], columnIndexes, seen), n + 1)
  {
    NextUniqueHead(ts, columnIndexes, seen);
    if ts != [] && TupleKey(ts[0], columnIndexes).Ok? && TupleKey(ts[0], columnIndexes).value in seen {
      AdvanceTwice(NextUnique(ts[1..], columnIndexes, seen), 1, n);
    }
  }

  /** A result with its consumed count moved on by n. */
  function Advance(r: Result<Lookahead, Error>, n: nat): Result<Lookahead, Error> {
    match r
    case Ok(l) => Ok(l.(consumed := l.consumed + n))
    case Err(e) => Err(e)
  }

  /** Moving the consumed count on twice is moving it on by the sum. */
  lemma AdvanceTwice(r: Result<Lookahead, Error>, a: nat, b: nat)
    ensures Advance(Advance(r, a), b) == Advance(r, a + b)
  {
  }

  /** One more column index whose position lies inside the tuple appends that value. */
  lemma SelectedValuesSnoc(t: Tuple, columnIndexes: seq<Option<nat>>, i: nat, values: seq<int>, v: int)
    requires i < |columnIndexes| && SelectedValues(t, columnIndexes[..i]) == Ok(values)
    requires columnIndexes[i].Some? && GetValueByPos(t, columnIndexes[i].value) == Ok(v)
    ensures SelectedValues(t, columnIndexes[..i + 1]) == Ok(values + [v])
  {
    assert columnIndexes[..i + 1][..i] == columnIndexes[..i];
  }

  /** A null index, or a position outside the tuple, right after a clean prefix decides the key's error. */
  lemma SelectedValuesStop(t: Tuple, columnIndexes: seq<Option<nat>>, i: nat, values: seq<int>)
    requires i < |columnIndexes| && SelectedValues(t, columnIndexes[..i]) == Ok(values)
    requires columnIndexes[i].Some? ==> GetValueByPos(t, columnIndexes[i].value).Err?
    ensures columnIndexes[i].None? ==> TupleKey(t, columnIndexes) == Err(NullPointer)
    ensures columnIndexes[i].Some? ==> TupleKey(t, columnIndexes) == Err(GetValueByPos(t, columnIndexes[i].value).error)
  {
    assert columnIndexes[..i + 1][..i] == columnIndexes[..i];
    SelectedValuesFailOnward(t, columnIndexes, i + 1);
  }

  /** Once a prefix of the column indexes fails, so does the whole list, with the same error. */
  lemma {:induction false} SelectedValuesFailOnward(t: Tuple, columnIndexes: seq<Option<nat>>, n: nat)
    requires n <= |columnIndexes| && SelectedValues(t, columnIndexes[..n]).Err?
    ensures SelectedValues(t, columnIndexes) == SelectedValues(t, columnIndexes[..n])
    decreases |columnIndexes| - n
  {
    if n < |columnIndexes| {
      assert columnIndexes[..n + 1][..n] == columnIndexes[..n];
      SelectedValuesFailOnward(t, columnIndexes, n + 1);
    } else {
      assert columnIndexes[..n] == columnIndexes;
    }
  }

  /**
   * Building the operator: the constructor's first findNextUniqueTuple either
   * raises its exception or leaves an operator that will emit exactly the
   * distinct-keyed tuples of the child's remaining output.
   */
  method Create(child: Stream, schema: Schema, columnNames: seq<string>) returns (r: Result<DuplicateEliminationOperator, Error>)
    requires child.Valid()
    modifies child
    ensures r.Ok? ==> fresh(r.value) && r.value.Valid() && r.value.child == child
    ensures r.Ok? ==> r.value.columnIndexes == ColumnIndexesOf(schema, columnNames)
    ensures r.Ok? ==> r.value.Pending() == DistinctFrom(old(child.items[child.pos..]), ColumnIndexesOf(schema, columnNames), {})
    ensures r.Err? ==> exists k :: (old(child.pos) <= k < |child.items| &&
      TupleKey(child.items[k], ColumnIndexesOf(schema, columnNames)).Err?)
  {
    var op := new DuplicateEliminationOperator(child, schema, columnNames);
    ghost var ts := child.items[child.pos..];
    DistinctStep(ts, op.columnIndexes, {});
    var failure := op.FindNextUniqueTuple();
    if failure.Some? {
      ghost var k := NextUniqueFailure(ts, op.columnIndexes, {});
      assert ts[k] == child.items[old(child.pos) + k];
      return Err(failure.value);
    }
    ghost var l := NextUnique(ts, op.columnIndexes, {}).value;
    assert ts[l.consumed..] == child.items[child.pos..];
    return Ok(op);
  }

  /** findNextUniqueTuple fails only at a tuple whose key cannot be built. */
  lemma {:induction false} NextUniqueFailure(ts: seq<Tuple>, columnIndexes: seq<Option<nat>>, seen: set<string>) returns (k: int)
    requires NextUnique(ts, columnIndexes, seen).Err?
    ensures 0 <= k < |ts| && TupleKey(ts[k], columnIndexes).Err?
    ensures NextUnique(ts, columnIndexes, seen).error == TupleKey(ts[k], columnIndexes).error
  {
    if TupleKey(ts[0], columnIndexes).Err? {
      k := 0;
    } else {
      NextUniqueHead(ts, columnIndexes, seen);
      var j := NextUniqueFailure(ts[1..], columnIndexes, seen);
      k := j + 1;
      assert ts[k] == ts[1..][j];
    }
  }
}
