/**
 * The comparators a sort can be given: TupleComparator, the per-column
 * compareTo lambda of an ORDER BY key, Comparator.reversed and
 * Comparator.thenComparing, with the exception each can raise.
 */
module Comparators {
  import opened Wrappers
  import opened Errors
  import opened Tuples
  import opened TupleComparators
  import opened Schemas

  datatype Comparator =
    | ByColumn(columnIndex: int)                           // new TupleComparator(columnIndex)
    | TupleOrder(columnIndex: int)                         // (t1, t2) -> t1.compareTo(t2, columnIndex)
    | Reversed(original: Comparator)                       // original.reversed()
    | ThenComparing(first: Comparator, second: Comparator) // first.thenComparing(second)

  /** What compare(a, b) returns, or the exception it raises. */
  function CompareWith(c: Comparator, a: Tuple, b: Tuple): Result<int, Error> {
    match c
    case ByColumn(i) => CompareColumn(i, a, b)
    case TupleOrder(i) => CompareTo(a, Some(b), i)
    case Reversed(original) => CompareWith(original, b, a)
    case ThenComparing(first, second) =>
      var r :- CompareWith(first, a, b);
      if r != 0 then Ok(r) else CompareWith(second, a, b)
  }

  function Sign(x: int): int {
    if x < 0 then -1 else if x == 0 then 0 else 1
  }

  /** A tuple compared with itself is equal to itself, whenever the comparison succeeds. */
  lemma {:induction false} CompareWithSelf(c: Comparator, x: Tuple)
    ensures CompareWith(c, x, x).Ok? ==> CompareWith(c, x, x).value == 0
  {
    match c
    case ByColumn(_) =>
    case TupleOrder(_) =>
    case Reversed(original) => CompareWithSelf(original, x);
    case ThenComparing(first, second) =>
      CompareWithSelf(first, x);
      CompareWithSelf(second, x);
  }

  /** compare(a, b) and compare(b, a) succeed together and have opposite signs. */
  lemma {:induction false} CompareWithAntisymmetric(c: Comparator, a: Tuple, b: Tuple)
    ensures CompareWith(c, a, b).Ok? <==> CompareWith(c, b, a).Ok?
    ensures CompareWith(c, a, b).Ok? ==> Sign(CompareWith(c, b, a).value) == -Sign(CompareWith(c, a, b).value)
  {
    match c
    case ByColumn(i) => CompareColumnAntisymmetric(i, a, b);
    case TupleOrder(i) => CompareToAntisymmetric(a, b, i);
    case Reversed(original) => CompareWithAntisymmetric(original, b, a);
    case ThenComparing(first, second) =>
      CompareWithAntisymmetric(first, a, b);
      CompareWithAntisymmetric(second, a, b);
  }

  /**
   * When all three comparisons among a, b and d succeed, a <= b and b <= d
   * give a <= d; the comparator is a total preorder on such tuples.
   */
  lemma {:induction false} CompareWithTransitive(c: Comparator, a: Tuple, b: Tuple, d: Tuple)
    requires CompareWith(c, a, b).Ok? && CompareWith(c, b, d).Ok? && CompareWith(c, a, d).Ok?
    requires CompareWith(c, a, b).value <= 0 && CompareWith(c, b, d).value <= 0
    ensures CompareWith(c, a, d).value <= 0
  {
    match c
    case ByColumn(i) =>
    case TupleOrder(i) =>
    case Reversed(original) =>
      CompareWithTransitive(original, d, b, a);
    case ThenComparing(first, second) =>
      var ab, bd, ad := CompareWith(first, a, b).value, CompareWith(first, b, d).value, CompareWith(first, a, d).value;
      CompareWithTransitive(first, a, b, d);
      if ad == 0 {
        if ab < 0 {
          // then d <= a and a < b would put d strictly below b, yet b <= d
          CompareWithAntisymmetric(first, a, d);
          CompareWithAntisymmetric(first, a, b);
          CompareWithTransitive(first, b, d, a);
          assert false;
        } else if bd < 0 {
          CompareWithAntisymmetric(first, a, d);
          CompareWithAntisymmetric(first, b, d);
          CompareWithTransitive(first, d, a, b);
          assert false;
        } else {
          CompareWithTransitive(second, a, b, d);
        }
      }
  }

  // ---------------------------------------------------------------------------
  // The ORDER BY comparator
  // ---------------------------------------------------------------------------

  /** One ORDER BY element: a column's fully qualified name and its direction. */
  datatype OrderByElement = OrderByElement(columnName: string, isAsc: bool)

  /** One element's comparator: compareTo on the column's position, reversed when descending. */
  function KeyComparator(position: int, isAsc: bool): Comparator {
    if isAsc then TupleOrder(position) else Reversed(TupleOrder(position))
  }

  /** A descending key orders by the column's value from the largest down. */
  lemma DescendingReverses(position: int, a: Tuple, b: Tuple)
    ensures CompareWith(KeyComparator(position, false), a, b) == CompareWith(KeyComparator(position, true), b, a)
    ensures CompareWith(KeyComparator(position, false), a, b).Ok? ==>
      (CompareWith(KeyComparator(position, false), a, b).value < 0 <==> a.values[position] > b.values[position])
  {
  }

  /**
   * The comparator built from the elements' positions in clause order: the
   * first key's comparator, each later one attached by thenComparing.
   */
  function Composite(keys: seq<(int, bool)>): Comparator
    requires keys != []
  {
    if |keys| == 1 then KeyComparator(keys[0].0, keys[0].1)
    else ThenComparing(Composite(keys[..|keys| - 1]), KeyComparator(keys[|keys| - 1].0, keys[|keys| - 1].1))
  }

  /** Every key's column lies inside the tuple. */
  predicate KeysFit(keys: seq<(int, bool)>, t: Tuple) {
    forall k :: 0 <= k < |keys| ==> 0 <= keys[k].0 < |t.values|
  }

  /**
   * The composite comparator orders lexicographically: it returns the first
   * key comparison that is not zero, in clause order, and zero when every
   * key ties.
   */
  lemma {:induction false} CompositeIsLexicographic(keys: seq<(int, bool)>, a: Tuple, b: Tuple)
    requires keys != [] && KeysFit(keys, a) && KeysFit(keys, b)
    ensures CompareWith(Composite(keys), a, b).Ok?
    ensures CompareWith(Composite(keys), a, b).value == 0 <==>
      forall k :: 0 <= k < |keys| ==> CompareWith(KeyComparator(keys[k].0, keys[k].1), a, b) == Ok(0)
    ensures CompareWith(Composite(keys), a, b).value != 0 ==>
      exists k :: 0 <= k < |keys| &&
        CompareWith(KeyComparator(keys[k].0, keys[k].1), a, b) == CompareWith(Composite(keys), a, b) &&
        forall j :: 0 <= j < k ==> CompareWith(KeyComparator(keys[j].0, keys[j].1), a, b) == Ok(0)
  {
    var n := |keys| - 1;
    var last := KeyComparator(keys[n].0, keys[n].1);
    assert CompareWith(last, a, b).Ok?;
    if n > 0 {
      var init := keys[..n];
      assert forall k :: 0 <= k < n ==> init[k] == keys[k];
      CompositeIsLexicographic(init, a, b);
    }
  }

  /** The keys of an ORDER BY clause: each element's position in the schema, with its direction. */
  function Keys(elements: seq<OrderByElement>, combinedSchema: Schema): (keys: seq<(int, bool)>)
    ensures |keys| == |elements|
    ensures forall k :: 0 <= k < |elements| ==>
      keys[k] == (GetIndex(combinedSchema, elements[k].columnName), elements[k].isAsc)
  {
    seq(|elements|, k requires 0 <= k < |elements| => (GetIndex(combinedSchema, elements[k].columnName), elements[k].isAsc))
  }

  /** One more ORDER BY element adds its key at the end. */
  lemma KeysSnoc(elements: seq<OrderByElement>, combinedSchema: Schema, i: int)
    requires 0 <= i < |elements|
    ensures Keys(elements[..i + 1], combinedSchema) ==
      Keys(elements[..i], combinedSchema) + [(GetIndex(combinedSchema, elements[i].columnName), elements[i].isAsc)]
  {
    assert elements[..i + 1][..i] == elements[..i];
  }

  /** One more key chains its comparator after the composite of the keys before. */
  lemma CompositeSnoc(keys: seq<(int, bool)>, key: (int, bool))
    ensures keys == [] ==> Composite(keys + [key]) == KeyComparator(key.0, key.1)
    ensures keys != [] ==> Composite(keys + [key]) == ThenComparing(Composite(keys), KeyComparator(key.0, key.1))
  {
    assert (keys + [key])[..|keys|] == keys;
  }

  /**
   * The ORDER BY block's loop: each element's position looked up with
   * getIndex on its fully qualified name, its comparator reversed when
   * descending and chained after the ones before; null when there are no
   * elements.
   */
  method BuildComparator(elements: seq<OrderByElement>, combinedSchema: Schema) returns (r: Option<Comparator>)
    ensures elements == [] <==> r.None?
    ensures r.Some? ==> r.value == Composite(Keys(elements, combinedSchema))
  {
    var composite: Option<Comparator> := None;
    for i := 0 to |elements|
      invariant i == 0 <==> composite.None?
      invariant i > 0 ==> composite == Some(Composite(Keys(elements[..i], combinedSchema)))
    {
      var columnIndex := GetIndex(combinedSchema, elements[i].columnName);
      var current := KeyComparator(columnIndex, elements[i].isAsc);
      KeysSnoc(elements, combinedSchema, i);
      CompositeSnoc(Keys(elements[..i], combinedSchema), (columnIndex, elements[i].isAsc));
      composite := if composite.None? then Some(current) else Some(ThenComparing(composite.value, current));
    }
    assert elements[..|elements|] == elements;
    r := composite;
  }
}
