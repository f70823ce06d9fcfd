/** A row of the engine: a list of integer column values. */
module Tuples {
  import opened Wrappers
  import opened Errors
  import opened Text

  /** An immutable row; position i holds the value of the i-th column of the operator's schema. */
  datatype Tuple = Tuple(values: seq<int>)

  /** Every value fits a Java int, as every value read from a table or produced by an aggregate does. */
  predicate IsInt32Tuple(t: Tuple) {
    forall k :: 0 <= k < |t.values| ==> IsInt32(t.values[k])
  }

  function Size(t: Tuple): (n: nat)
    ensures n == |t.values|
  {
    |t.values|
  }

  /** getValueByPos: the value at a position, or the exception List.get throws outside the row. */
  function GetValueByPos(t: Tuple, index: int): (r: Result<int, Error>)
    ensures r.Ok? <==> 0 <= index < |t.values|
    ensures r.Ok? ==> r.value == t.values[index]
    ensures r.Err? ==> r.error == IndexOutOfBounds(index)
  {
    if 0 <= index < |t.values| then Ok(t.values[index]) else Err(IndexOutOfBounds(index))
  }

  /** The decimal renderings of a row's values, in order. */
  function Rendered(values: seq<int>): (fs: seq<string>)
    ensures |fs| == |values|
    ensures forall k :: 0 <= k < |values| ==> fs[k] == IntToString(values[k])
  {
    seq(|values|, k requires 0 <= k < |values| => IntToString(values[k]))
  }

  /** toString: the decimal values separated by ", ". */
  function Render(t: Tuple): string {
    Join(Rendered(t.values), ", ")
  }

  /** Integer.compare: -1, 0 or 1 by the order of a and b. */
  function Compare(a: int, b: int): (c: int)
    ensures c == -1 <==> a < b
    ensures c == 0 <==> a == b
    ensures c == 1 <==> a > b
  {
    if a < b then -1 else if a == b then 0 else 1
  }

  /**
   * compareTo: the order of the two rows' values at one column; an
   * IllegalArgumentException when the other row is null or the column is
   * outside either row.
   */
  function CompareTo(t: Tuple, other: Option<Tuple>, columnIndex: int): (r: Result<int, Error>)
    ensures r.Ok? <==> other.Some? && 0 <= columnIndex < |t.values| && columnIndex < |other.value.values|
    ensures r.Err? ==> r.error == InvalidComparison
    ensures r.Ok? ==> r.value in {-1, 0, 1}
    ensures r.Ok? ==> (r.value < 0 <==> t.values[columnIndex] < other.value.values[columnIndex])
    ensures r.Ok? ==> (r.value == 0 <==> t.values[columnIndex] == other.value.values[columnIndex])
    ensures r.Ok? ==> (r.value > 0 <==> t.values[columnIndex] > other.value.values[columnIndex])
  {
    if other.None? || columnIndex < 0 || columnIndex >= |t.values| || columnIndex >= |other.value.values| then
      Err(InvalidComparison)
    else
      Ok(Compare(t.values[columnIndex], other.value.values[columnIndex]))
  }

  /** Swapping the two rows negates the result (and fails exactly when the original fails). */
  lemma CompareToAntisymmetric(a: Tuple, b: Tuple, i: int)
    ensures CompareTo(a, Some(b), i).Ok? <==> CompareTo(b, Some(a), i).Ok?
    ensures CompareTo(a, Some(b), i).Ok? ==> CompareTo(b, Some(a), i).value == -CompareTo(a, Some(b), i).value
  {
  }

  /** Only the compared column matters: rows that agree there compare alike against any third row. */
  lemma CompareToOnlyColumn(a: Tuple, a': Tuple, b: Tuple, i: int)
    requires 0 <= i < |a.values| && i < |a'.values| && a.values[i] == a'.values[i]
    ensures CompareTo(a, Some(b), i) == CompareTo(a', Some(b), i)
  {
  }
}
