/** TupleComparator: orders tuples by the value of one column. */
module TupleComparators {
  import opened Wrappers
  import opened Errors
  import opened Tuples

  /**
   * compare: Integer.compareTo of the two tuples' values at the column;
   * List.get's exception when the column lies outside the first tuple, then
   * outside the second.
   */
  function CompareColumn(columnIndex: int, t1: Tuple, t2: Tuple): (r: Result<int, Error>)
    ensures r.Ok? <==> 0 <= columnIndex < |t1.values| && columnIndex < |t2.values|
    ensures r.Err? ==> r.error == IndexOutOfBounds(columnIndex)
    ensures r.Ok? ==> (r.value < 0 <==> t1.values[columnIndex] < t2.values[columnIndex])
    ensures r.Ok? ==> (r.value == 0 <==> t1.values[columnIndex] == t2.values[columnIndex])
    ensures r.Ok? ==> (r.value > 0 <==> t1.values[columnIndex] > t2.values[columnIndex])
  {
    var value1 :- GetValueByPos(t1, columnIndex);
    var value2 :- GetValueByPos(t2, columnIndex);
    Ok(Compare(value1, value2))
  }

  /** compare(a, b) and compare(b, a) succeed together and have opposite signs. */
  lemma CompareColumnAntisymmetric(columnIndex: int, a: Tuple, b: Tuple)
    ensures CompareColumn(columnIndex, a, b).Ok? <==> CompareColumn(columnIndex, b, a).Ok?
    ensures CompareColumn(columnIndex, a, b).Ok? ==>
      CompareColumn(columnIndex, b, a).value == -CompareColumn(columnIndex, a, b).value
  {
  }

  /** The order is transitive, so it is a total preorder on the tuples that have the column. */
  lemma CompareColumnTransitive(columnIndex: int, a: Tuple, b: Tuple, c: Tuple)
    requires CompareColumn(columnIndex, a, b).Ok? && CompareColumn(columnIndex, b, c).Ok?
    requires CompareColumn(columnIndex, a, b).value <= 0 && CompareColumn(columnIndex, b, c).value <= 0
    ensures CompareColumn(columnIndex, a, c).Ok? && CompareColumn(columnIndex, a, c).value <= 0
  {
  }

  /** Only the compared column matters. */
  lemma CompareColumnOnlyColumn(columnIndex: int, a: Tuple, a': Tuple, b: Tuple)
    requires 0 <= columnIndex < |a.values| && columnIndex < |a'.values|
    requires a.values[columnIndex] == a'.values[columnIndex]
    ensures CompareColumn(columnIndex, a, b) == CompareColumn(columnIndex, a', b)
  {
  }
}
