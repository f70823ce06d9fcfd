/** ProjectOperator: keeps the named columns of each child tuple, in projection-list order. */
module Project {
  import opened Wrappers
  import opened Errors
  import opened Tuples
  import opened Schemas
  import opened Streams

  /**
   * One projection column of one tuple: the value at the column's schema
   * position, "Column not found" when the schema cannot resolve the name, and
   * List.get's exception when the position lies outside the tuple.
   */
  function ProjectColumn(t: Tuple, column: string, s: Schema): (r: Result<int, Error>)
    ensures r.Ok? <==> GetColumnIndex(s, column).Some? && GetColumnIndex(s, column).value < |t.values|
    ensures r.Ok? ==> r.value == t.values[GetColumnIndex(s, column).value]
    ensures GetColumnIndex(s, column).None? ==> r == Err(ColumnNotFound(column))
    ensures GetColumnIndex(s, column).Some? && r.Err? ==> r.error == IndexOutOfBounds(GetColumnIndex(s, column).value)
  {
    match GetColumnIndex(s, column)
    case None => Err(ColumnNotFound(column))
    case Some(i) => GetValueByPos(t, i)
  }

  /**
   * The projection of a tuple onto a column list, columns taken left to
   * right: the tuple of their values, or the error of the first column that
   * cannot be projected.
   */
  function Projection(t: Tuple, columns: seq<string>, s: Schema): (r: Result<Tuple, Error>)
    ensures r.Ok? <==> forall k :: 0 <= k < |columns| ==> ProjectColumn(t, columns[k], s).Ok?
    ensures r.Ok? ==> |r.value.values| == |columns|
    ensures r.Ok? ==> forall k :: 0 <= k < |columns| ==> r.value.values[k] == ProjectColumn(t, columns[k], s).value
  {
    if columns == [] then Ok(Tuple([]))
    else
      var init := columns[..|columns| - 1];
      assert forall k :: 0 <= k < |init| ==> init[k] == columns[k];
      var prefix :- Projection(t, init, s);
      var v :- ProjectColumn(t, columns[|columns| - 1], s);
      Ok(Tuple(prefix.values + [v]))
  }

  /** A failed projection fails with the error of its first column that cannot be projected. */
  lemma {:induction false} ProjectionError(t: Tuple, columns: seq<string>, s: Schema) returns (k: nat)
    requires Projection(t, columns, s).Err?
    ensures k < |columns| && ProjectColumn(t, columns[k], s) == Err(Projection(t, columns, s).error)
    ensures forall j :: 0 <= j < k ==> ProjectColumn(t, columns[j], s).Ok?
  {
    var init := columns[..|columns| - 1];
    if Projection(t, init, s).Err? {
      k := ProjectionError(t, init, s);
      assert columns[k] == init[k];
      assert forall j :: 0 <= j < k ==> columns[j] == init[j];
    } else {
      k := |columns| - 1;
      assert forall j :: 0 <= j < k ==> columns[j] == init[j];
    }
  }

  /** The loop of getNextTuple: one value per projection column, appended in order. */
  method ProjectValues(t: Tuple, columns: seq<string>, s: Schema) returns (r: Result<Tuple, Error>)
    ensures r == Projection(t, columns, s)
  {
    var projected: seq<int> := [];
    var i := 0;
    while i < |columns|
      invariant 0 <= i <= |columns|
      invariant Projection(t, columns[..i], s) == Ok(Tuple(projected))
    {
      var columnIndex := GetColumnIndex(s, columns[i]);
      if columnIndex.None? {
        ProjectionStop(t, columns, i, s);
        return Err(ColumnNotFound(columns[i]));
      }
      var value := GetValueByPos(t, columnIndex.value);
      if value.Err? {
        ProjectionStop(t, columns, i, s);
        return Err(value.error);
      }
      ProjectionSnoc(t, columns, i, s, projected);
      projected := projected + [value.value];
      i := i + 1;
    }
    assert columns[..i] == columns;
    r := Ok(Tuple(projected));
  }

  /** A prefix that projects cleanly, extended by one column that projects too. */
  lemma ProjectionSnoc(t: Tuple, columns: seq<string>, i: nat, s: Schema, projected: seq<int>)
    requires i < |columns| && Projection(t, columns[..i], s) == Ok(Tuple(projected))
    requires ProjectColumn(t, columns[i], s).Ok?
    ensures Projection(t, columns[..i + 1], s) == Ok(Tuple(projected + [ProjectColumn(t, columns[i], s).value]))
  {
    assert columns[..i + 1][..i] == columns[..i];
  }

  /** A prefix that projects cleanly, then a column that fails: the whole projection fails with its error. */
  lemma ProjectionStop(t: Tuple, columns: seq<string>, i: nat, s: Schema)
    requires i < |columns| && Projection(t, columns[..i], s).Ok?
    requires ProjectColumn(t, columns[i], s).Err?
    ensures Projection(t, columns, s) == Err(ProjectColumn(t, columns[i], s).error)
  {
    assert columns[..i + 1][..i] == columns[..i];
    ProjectionFailsOnward(t, columns, i + 1, s);
  }

  /** Once a prefix of the column list fails, the whole projection fails with the same error. */
  lemma {:induction false} ProjectionFailsOnward(t: Tuple, columns: seq<string>, n: nat, s: Schema)
    requires n <= |columns| && Projection(t, columns[..n], s).Err?
    ensures Projection(t, columns, s) == Projection(t, columns[..n], s)
    decreases |columns| - n
  {
    if n < |columns| {
      assert columns[..n + 1][..n] == columns[..n];
      ProjectionFailsOnward(t, columns, n + 1, s);
    } else {
      assert columns[..n] == columns;
    }
  }

  /**
   * Projecting a table's tuple onto all of its own column names, in
   * declaration order, gives the tuple back unchanged.
   */
  lemma ProjectAllColumns(tableName: string, columnNames: seq<string>, t: Tuple)
    requires forall a, b :: 0 <= a < b < |columnNames| ==> columnNames[a] != columnNames[b]
    requires forall a :: 0 <= a < |columnNames| ==> '.' !in columnNames[a]
    requires |t.values| == |columnNames|
    ensures Projection(t, columnNames, Schema(ColumnMap(tableName, columnNames))) == Ok(t)
  {
    var s := Schema(ColumnMap(tableName, columnNames));
    forall k | 0 <= k < |columnNames|
      ensures ProjectColumn(t, columnNames[k], s) == Ok(t.values[k])
    {
      UnqualifiedLookup(tableName, columnNames, k);
    }
    assert Projection(t, columnNames, s).value.values == t.values;
  }

  /** Projecting onto the concatenation of two column lists concatenates the two projections. */
  lemma {:induction false} ProjectionAppend(t: Tuple, xs: seq<string>, ys: seq<string>, s: Schema)
    requires Projection(t, xs, s).Ok? && Projection(t, ys, s).Ok?
    ensures Projection(t, xs + ys, s) == Ok(Tuple(Projection(t, xs, s).value.values + Projection(t, ys, s).value.values))
  {
    var zs := xs + ys;
    forall k | 0 <= k < |zs|
      ensures ProjectColumn(t, zs[k], s).Ok?
    {
      if k < |xs| {
        assert zs[k] == xs[k];
      } else {
        assert zs[k] == ys[k - |xs|];
      }
    }
    assert Projection(t, zs, s).Ok?;
    var r := Projection(t, zs, s).value.values;
    var e := Projection(t, xs, s).value.values + Projection(t, ys, s).value.values;
    assert |r| == |e|;
    forall k | 0 <= k < |zs|
      ensures r[k] == e[k]
    {
      if k < |xs| {
        assert zs[k] == xs[k];
      } else {
        assert zs[k] == ys[k - |xs|];
      }
    }
    assert r == e;
  }

  class ProjectOperator {
    const child: Stream
    const projectionColumns: seq<string>
    const schema: Schema

    ghost predicate Valid()
      reads this, child
    {
      child.Valid()
    }

    constructor(child: Stream, schema: Schema, projectionColumns: seq<string>)
      requires child.Valid()
      ensures Valid()
      ensures this.child == child && this.schema == schema && this.projectionColumns == projectionColumns
    {
      this.child := child;
      this.projectionColumns := projectionColumns;
      this.schema := schema;
    }

    /**
     * getNextTuple: consumes exactly one child tuple and returns its
     * projection; null exactly when the child returns null.
     */
    method GetNextTuple() returns (r: Result<Option<Tuple>, Error>)
      requires Valid()
      modifies child
      ensures Valid()
      ensures old(child.pos) < |child.items| ==>
        child.pos == old(child.pos) + 1 &&
        match Projection(child.items[old(child.pos)], projectionColumns, schema)
        case Ok(p) => r == Ok(Some(p))
        case Err(e) => r == Err(e)
      ensures old(child.pos) == |child.items| ==> child.pos == old(child.pos) && r == Ok(None)
    {
      var tuple := child.GetNextTuple();
      if tuple.None? {
        return Ok(None);
      }
      var projected := ProjectValues(tuple.value, projectionColumns, schema);
      if projected.Err? {
        return Err(projected.error);
      }
      return Ok(Some(projected.value));
    }

    /** reset: delegates to the child. */
    method Reset()
      requires Valid()
      modifies child
      ensures Valid() && child.pos == 0
    {
      child.Reset();
    }
  }
}
