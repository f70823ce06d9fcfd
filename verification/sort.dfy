/**
 * SortOperator: drains its child into a buffer, sorts the buffer stably with
 * its comparator, and replays it.
 */
module Sort {
  import opened Wrappers
  import opened Errors
  import opened Tuples
  import opened Streams
  import opened Comparators

  /** The comparator as a total order test; a comparison that fails counts as a tie. */
  function Cmp(c: Comparator, a: Tuple, b: Tuple): int {
    match CompareWith(c, a, b)
    case Ok(v) => v
    case Err(_) => 0
  }

  /** Every comparison between two different positions of the list succeeds. */
  predicate PairsOk(c: Comparator, xs: seq<Tuple>) {
    forall i, j :: 0 <= i < |xs| && 0 <= j < |xs| && i != j ==> CompareWith(c, xs[i], xs[j]).Ok?
  }

  /** The comparator orders any list it can compare throughout. */
  lemma PairsOkPreorder(c: Comparator, xs: seq<Tuple>)
    requires PairsOk(c, xs)
    ensures TotalPreorder(Order(c), set x | x in xs)
  {
    var S := set x | x in xs;
    forall a, b | a in S && b in S
      ensures Order(c)(a, b) > 0 <==> Order(c)(b, a) < 0
    {
      PairsOkSign(c, xs, a, b);
    }
    forall a, b, d | a in S && b in S && d in S && Order(c)(a, b) <= 0 && Order(c)(b, d) <= 0
      ensures Order(c)(a, d) <= 0
    {
      PairsOkTransitive(c, xs, a, b, d);
    }
  }

  /** On a list it can compare throughout, swapping two tuples flips the comparator's sign. */
  lemma PairsOkSign(c: Comparator, xs: seq<Tuple>, a: Tuple, b: Tuple)
    requires PairsOk(c, xs) && a in xs && b in xs
    ensures Order(c)(a, b) > 0 <==> Order(c)(b, a) < 0
  {
    if a == b {
      CompareWithSelf(c, a);
    } else {
      var i :| 0 <= i < |xs| && xs[i] == a;
      var j :| 0 <= j < |xs| && xs[j] == b;
      assert CompareWith(c, xs[i], xs[j]).Ok?;
      CompareWithAntisymmetric(c, a, b);
    }
  }

  /** On a list it can compare throughout, the comparator is transitive. */
  lemma PairsOkTransitive(c: Comparator, xs: seq<Tuple>, a: Tuple, b: Tuple, d: Tuple)
    requires PairsOk(c, xs) && a in xs && b in xs && d in xs
    requires Order(c)(a, b) <= 0 && Order(c)(b, d) <= 0
    ensures Order(c)(a, d) <= 0
  {
    if a == d {
      CompareWithSelf(c, a);
    } else if a != b && b != d {
      var i :| 0 <= i < |xs| && xs[i] == a;
      var j :| 0 <= j < |xs| && xs[j] == b;
      var k :| 0 <= k < |xs| && xs[k] == d;
      assert CompareWith(c, xs[i], xs[j]).Ok? && CompareWith(c, xs[j], xs[k]).Ok? && CompareWith(c, xs[i], xs[k]).Ok?;
      CompareWithTransitive(c, a, b, d);
    }
  }

  /** The comparator as a total order test on tuples. */
  function Order(c: Comparator): (Tuple, Tuple) -> int {
    (a: Tuple, b: Tuple) => Cmp(c, a, b)
  }

  /** Ordered by cmp: no element compares greater than a later one. */
  predicate SortedBy<T>(cmp: (T, T) -> int, s: seq<T>) {
    forall i, j :: 0 <= i < j < |s| ==> cmp(s[i], s[j]) <= 0
  }

  /** cmp is a total preorder on S: antisymmetric in sign and transitive. */
  ghost predicate TotalPreorder<T>(cmp: (T, T) -> int, S: set<T>) {
    (forall a, b {:trigger a in S, b in S} :: a in S && b in S ==> (cmp(a, b) > 0 <==> cmp(b, a) < 0)) &&
    (forall a, b, d {:trigger a in S, b in S, d in S} ::
      a in S && b in S && d in S && cmp(a, b) <= 0 && cmp(b, d) <= 0 ==> cmp(a, d) <= 0)
  }

  /** Places y after every element that does not compare greater than it. */
  function Insert<T>(cmp: (T, T) -> int, s: seq<T>, y: T): (r: seq<T>)
    ensures multiset(r) == multiset(s) + multiset{y}
  {
    if s == [] then [y]
    else if cmp(s[|s| - 1], y) <= 0 then s + [y]
    else
      assert s == s[..|s| - 1] + [s[|s| - 1]];
      Insert(cmp, s[..|s| - 1], y) + [s[|s| - 1]]
  }

  /**
   * The ordering Collections.sort produces: a stable sort, given here as an
   * insertion sort that takes the elements in input order.
   */
  function StableSort<T>(cmp: (T, T) -> int, xs: seq<T>): (r: seq<T>)
    ensures multiset(r) == multiset(xs)
  {
    if xs == [] then []
    else
      assert xs == xs[..|xs| - 1] + [xs[|xs| - 1]];
      Insert(cmp, StableSort(cmp, xs[..|xs| - 1]), xs[|xs| - 1])
  }

  /** The elements of s that tie with x, in their order in s. */
  function Ties<T>(cmp: (T, T) -> int, x: T, s: seq<T>): seq<T> {
    if s == [] then []
    else Ties(cmp, x, s[..|s| - 1]) + (if cmp(x, s[|s| - 1]) == 0 then [s[|s| - 1]] else [])
  }

  lemma {:induction false} InsertSorted<T>(cmp: (T, T) -> int, S: set<T>, s: seq<T>, y: T)
    requires TotalPreorder(cmp, S) && (forall k :: 0 <= k < |s| ==> s[k] in S) && y in S
    requires SortedBy(cmp, s)
    ensures SortedBy(cmp, Insert(cmp, s, y))
  {
    if s == [] {
    } else if cmp(s[|s| - 1], y) <= 0 {
      var r := s + [y];
      forall i, j | 0 <= i < j < |r|
        ensures cmp(r[i], r[j]) <= 0
      {
        if j == |s| && i < |s| - 1 {
          assert cmp(s[i], s[|s| - 1]) <= 0;
        }
      }
    } else {
      var init, last := s[..|s| - 1], s[|s| - 1];
      InsertSorted(cmp, S, init, y);
      var front := Insert(cmp, init, y);
      forall e | e in front
        ensures cmp(e, last) <= 0
      {
        assert e in multiset(init) + multiset{y};
        if e in init {
          var k :| 0 <= k < |init| && init[k] == e;
          assert s[k] == e;
        }
      }
      var r := front + [last];
      forall i, j | 0 <= i < j < |r|
        ensures cmp(r[i], r[j]) <= 0
      {
        if j == |front| {
          assert r[i] in front;
        } else {
          assert r[i] == front[i] && r[j] == front[j];
        }
      }
    }
  }

  /** The sort's output is ordered by cmp. */
  lemma {:induction false} StableSortSorted<T>(cmp: (T, T) -> int, S: set<T>, xs: seq<T>)
    requires TotalPreorder(cmp, S) && forall k :: 0 <= k < |xs| ==> xs[k] in S
    ensures SortedBy(cmp, StableSort(cmp, xs))
  {
    if xs != [] {
      var init := xs[..|xs| - 1];
      StableSortSorted(cmp, S, init);
      var sorted := StableSort(cmp, init);
      forall k | 0 <= k < |sorted|
        ensures sorted[k] in S
      {
        assert sorted[k] in multiset(init);
      }
      InsertSorted(cmp, S, sorted, xs[|xs| - 1]);
    }
  }

  /** Inserting y adds it to the ties of x after all of them, and nowhere else. */
  lemma {:induction false} InsertTies<T>(cmp: (T, T) -> int, S: set<T>, s: seq<T>, x: T, y: T)
    requires TotalPreorder(cmp, S) && (forall k :: 0 <= k < |s| ==> s[k] in S) && x in S && y in S
    ensures Ties(cmp, x, Insert(cmp, s, y)) == Ties(cmp, x, s) + (if cmp(x, y) == 0 then [y] else [])
  {
    if s == [] {
    } else if cmp(s[|s| - 1], y) <= 0 {
      assert (s + [y])[..|s|] == s;
    } else {
      var init, last := s[..|s| - 1], s[|s| - 1];
      assert last in S;
      var front := Insert(cmp, init, y);
      assert Insert(cmp, s, y) == front + [last];
      InsertTies(cmp, S, init, x, y);
      TiesSnoc(cmp, x, front, last);
      assert Ties(cmp, x, s) == Ties(cmp, x, init) + (if cmp(x, last) == 0 then [last] else []);
      NotBothTie(cmp, S, x, last, y);
      TieOrderIrrelevant(Ties(cmp, x, init), cmp(x, y) == 0, y, cmp(x, last) == 0, last);
    }
  }

  /** Appending one element extends the ties of x by that element exactly when it ties. */
  lemma TiesSnoc<T>(cmp: (T, T) -> int, x: T, s: seq<T>, e: T)
    ensures Ties(cmp, x, s + [e]) == Ties(cmp, x, s) + (if cmp(x, e) == 0 then [e] else [])
  {
    assert (s + [e])[..|s|] == s;
  }

  /** Two optional appends commute when at most one of them happens. */
  lemma TieOrderIrrelevant<T>(t: seq<T>, p: bool, y: T, q: bool, e: T)
    requires !(p && q)
    ensures t + (if p then [y] else []) + (if q then [e] else []) == t + (if q then [e] else []) + (if p then [y] else [])
  {
  }

  /** An element that compares greater than y cannot tie with x when y does. */
  lemma NotBothTie<T>(cmp: (T, T) -> int, S: set<T>, x: T, e: T, y: T)
    requires TotalPreorder(cmp, S) && x in S && e in S && y in S
    requires cmp(e, y) > 0
    ensures !(cmp(x, e) == 0 && cmp(x, y) == 0)
  {
  }

  /** Stability: the elements that tie with any x come out in their input order. */
  lemma {:induction false} StableSortTies<T>(cmp: (T, T) -> int, S: set<T>, xs: seq<T>, x: T)
    requires TotalPreorder(cmp, S) && (forall k :: 0 <= k < |xs| ==> xs[k] in S) && x in S
    ensures Ties(cmp, x, StableSort(cmp, xs)) == Ties(cmp, x, xs)
  {
    if xs != [] {
      var init := xs[..|xs| - 1];
      StableSortTies(cmp, S, init, x);
      var sorted := StableSort(cmp, init);
      forall k | 0 <= k < |sorted|
        ensures sorted[k] in S
      {
        assert sorted[k] in multiset(init);
      }
      InsertTies(cmp, S, sorted, x, xs[|xs| - 1]);
    }
  }

  /**
   * Collections.sort on a list the comparator can compare throughout: the
   * result is a permutation of the list, ordered by the comparator, and
   * stable.
   */
  lemma StableSortCorrect(c: Comparator, xs: seq<Tuple>)
    requires PairsOk(c, xs)
    ensures multiset(StableSort(Order(c), xs)) == multiset(xs)
    ensures SortedBy(Order(c), StableSort(Order(c), xs))
    ensures forall x :: x in xs ==> Ties(Order(c), x, StableSort(Order(c), xs)) == Ties(Order(c), x, xs)
  {
    var S := set x | x in xs;
    PairsOkPreorder(c, xs);
    StableSortSorted(Order(c), S, xs);
    forall x | x in xs
      ensures Ties(Order(c), x, StableSort(Order(c), xs)) == Ties(Order(c), x, xs)
    {
      StableSortTies(Order(c), S, xs, x);
    }
  }

  class SortOperator {
    const child: Stream
    const comparator: Comparator
    var sortedTuples: seq<Tuple>
    var currentIndex: nat

    ghost predicate Valid()
      reads this, child
    {
      child.Valid() && currentIndex <= |sortedTuples|
    }

    constructor(child: Stream, comparator: Comparator)
      requires child.Valid()
      ensures Valid() && sortedTuples == [] && currentIndex == 0
      ensures this.child == child && this.comparator == comparator
    {
      this.child := child;
      this.comparator := comparator;
      sortedTuples := [];
      currentIndex := 0;
    }

    /**
     * loadAndSortTuples: appends every remaining child tuple to the buffer,
     * then sorts the buffer; the comparator's exception when two buffered
     * tuples cannot be compared.
     */
    method LoadAndSortTuples() returns (failure: Option<Error>)
      requires Valid() && sortedTuples == [] && currentIndex == 0
      modifies this, child
      ensures Valid() && currentIndex == 0 && child.pos == |child.items|
      ensures failure.None? <==> PairsOk(comparator, old(child.items[child.pos..]))
      ensures failure.None? ==> sortedTuples == StableSort(Order(comparator), old(child.items[child.pos..]))
      ensures failure.Some? ==> exists i, j :: (0 <= i < |sortedTuples| && 0 <= j < |sortedTuples| && i != j &&
        CompareWith(comparator, sortedTuples[i], sortedTuples[j]) == Err(failure.value))
    {
      ghost var start := child.pos;
      ghost var remaining := child.items[start..];
      while true
        invariant child.Valid() && start <= child.pos && currentIndex == 0
        invariant sortedTuples == child.items[start..child.pos]
        decreases |child.items| - child.pos
      {
        var tuple := child.GetNextTuple();
        if tuple.None? {
          break;
        }
        sortedTuples := sortedTuples + [tuple.value];
      }
      assert child.pos == |child.items| && sortedTuples == remaining;
      if !PairsOk(comparator, sortedTuples) {
        var i, j :| 0 <= i < |sortedTuples| && 0 <= j < |sortedTuples| && i != j &&
          CompareWith(comparator, sortedTuples[i], sortedTuples[j]).Err?;
        return Some(CompareWith(comparator, sortedTuples[i], sortedTuples[j]).error);
      }
      sortedTuples := StableSort(Order(comparator), sortedTuples);
      return None;
    }

    /** getNextTuple: the buffer in order, then null. */
    method GetNextTuple() returns (t: Option<Tuple>)
      requires Valid()
      modifies this
      ensures Valid() && sortedTuples == old(sortedTuples)
      ensures old(currentIndex) < |sortedTuples| ==> t == Some(sortedTuples[old(currentIndex)]) && currentIndex == old(currentIndex) + 1
      ensures old(currentIndex) == |sortedTuples| ==> t == None && currentIndex == old(currentIndex)
    {
      if currentIndex < |sortedTuples| {
        t := Some(sortedTuples[currentIndex]);
        currentIndex := currentIndex + 1;
      } else {
        t := None;
      }
    }

    /** reset: rewinds the cursor; neither re-sorts nor touches the child. */
    method Reset()
      requires Valid()
      modifies this
      ensures Valid() && currentIndex == 0 && sortedTuples == old(sortedTuples)
    {
      currentIndex := 0;
    }
  }

  /**
   * Building a SortOperator: the constructor's load-and-sort either raises
   * the comparator's exception or leaves an operator whose buffer is the
   * child's remaining tuples stably sorted.
   */
  method Create(child: Stream, comparator: Comparator) returns (r: Result<SortOperator, Error>)
    requires child.Valid()
    modifies child
    ensures child.pos == |child.items|
    ensures r.Ok? <==> PairsOk(comparator, old(child.items[child.pos..]))
    ensures r.Ok? ==> fresh(r.value) && r.value.Valid() && r.value.child == child && r.value.currentIndex == 0
    ensures r.Ok? ==> r.value.sortedTuples == StableSort(Order(comparator), old(child.items[child.pos..]))
  {
    var op := new SortOperator(child, comparator);
    var failure := op.LoadAndSortTuples();
    if failure.Some? {
      return Err(failure.value);
    }
    return Ok(op);
  }
}
