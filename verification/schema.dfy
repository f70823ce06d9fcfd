/**
 * A schema maps fully qualified column names ("Table.column") to positions in
 * the tuples an operator produces.
 */
module Schemas {
  import opened Wrappers
  import opened Text

  datatype Schema = Schema(columnMapping: map<string, nat>)

  /** The fully qualified name of a column: table, '.', column. */
  function Qualify(tableName: string, column: string): (q: string)
    ensures |q| == |tableName| + 1 + |column|
    ensures q[|tableName|] == '.'
  {
    tableName + "." + column
  }

  lemma QualifyInjective(tableName: string, a: string, b: string)
    ensures Qualify(tableName, a) == Qualify(tableName, b) ==> a == b
  {
    if Qualify(tableName, a) == Qualify(tableName, b) {
      assert a == Qualify(tableName, a)[|tableName| + 1..];
      assert b == Qualify(tableName, b)[|tableName| + 1..];
    }
  }

  /**
   * The mapping the schema constructor builds: every column of the table
   * under its qualified name, at its position; when a column name repeats,
   * the later position overwrites the earlier one.
   */
  function ColumnMap(tableName: string, columnNames: seq<string>): map<string, nat> {
    if columnNames == [] then map[]
    else
      var n := |columnNames| - 1;
      ColumnMap(tableName, columnNames[..n])[Qualify(tableName, columnNames[n]) := n]
  }

  /** The last column of a schema is found at the last position. */
  lemma ColumnMapLast(tableName: string, columnNames: seq<string>, c: string)
    ensures Qualify(tableName, c) in ColumnMap(tableName, columnNames + [c])
    ensures ColumnMap(tableName, columnNames + [c])[Qualify(tableName, c)] == |columnNames|
  {
    assert (columnNames + [c])[..|columnNames|] == columnNames;
  }

  /** Looking up the last column of a schema by its qualified name gives the last position. */
  lemma LastColumnLookup(tableName: string, columnNames: seq<string>, c: string)
    ensures GetColumnIndex(Schema(ColumnMap(tableName, columnNames + [c])), Qualify(tableName, c)) == Some(|columnNames|)
  {
    ColumnMapLast(tableName, columnNames, c);
  }

  /**
   * The constructor's mapping holds exactly the qualified column names, each
   * at the last position where that column name occurs.
   */
  lemma {:induction false} ColumnMapSpec(tableName: string, columnNames: seq<string>)
    ensures forall i :: 0 <= i < |columnNames| ==>
      Qualify(tableName, columnNames[i]) in ColumnMap(tableName, columnNames) &&
      i <= ColumnMap(tableName, columnNames)[Qualify(tableName, columnNames[i])]
    ensures forall k :: k in ColumnMap(tableName, columnNames) ==>
      ColumnMap(tableName, columnNames)[k] < |columnNames| &&
      Qualify(tableName, columnNames[ColumnMap(tableName, columnNames)[k]]) == k
  {
    if columnNames != [] {
      var n := |columnNames| - 1;
      var prefix := columnNames[..n];
      ColumnMapSpec(tableName, prefix);
      var m := ColumnMap(tableName, columnNames);
      forall i | 0 <= i < |columnNames|
        ensures Qualify(tableName, columnNames[i]) in m && i <= m[Qualify(tableName, columnNames[i])]
      {
        if i < n {
          assert prefix[i] == columnNames[i];
        }
      }
      forall k | k in m
        ensures m[k] < |columnNames| && Qualify(tableName, columnNames[m[k]]) == k
      {
        if k != Qualify(tableName, columnNames[n]) {
          assert prefix[m[k]] == columnNames[m[k]];
        }
      }
    }
  }

  /** The schema constructor's loop, proved to build ColumnMap. */
  method NewSchema(tableName: string, columnNames: seq<string>) returns (s: Schema)
    ensures s.columnMapping == ColumnMap(tableName, columnNames)
  {
    var m: map<string, nat> := map[];
    var i := 0;
    while i < |columnNames|
      invariant 0 <= i <= |columnNames|
      invariant m == ColumnMap(tableName, columnNames[..i])
    {
      assert columnNames[..i + 1][..i] == columnNames[..i];
      m := m[Qualify(tableName, columnNames[i]) := i];
      i := i + 1;
    }
    assert columnNames[..i] == columnNames;
    s := Schema(m);
  }

  /** With distinct column names, every qualified name maps to exactly its own position. */
  lemma {:induction false} ColumnMapDistinct(tableName: string, columnNames: seq<string>, i: int)
    requires forall a, b :: 0 <= a < b < |columnNames| ==> columnNames[a] != columnNames[b]
    requires 0 <= i < |columnNames|
    ensures Qualify(tableName, columnNames[i]) in ColumnMap(tableName, columnNames)
    ensures ColumnMap(tableName, columnNames)[Qualify(tableName, columnNames[i])] == i
  {
    ColumnMapSpec(tableName, columnNames);
    var j := ColumnMap(tableName, columnNames)[Qualify(tableName, columnNames[i])];
    QualifyInjective(tableName, columnNames[j], columnNames[i]);
  }

  /**
   * combine: the first schema's entries, then the second's shifted by the
   * number of entries in the first; a name present in both takes the
   * second schema's shifted position.
   */
  function Combined(first: Schema, second: Schema): (r: Schema)
    ensures r.columnMapping.Keys == first.columnMapping.Keys + second.columnMapping.Keys
    ensures forall k :: k in second.columnMapping ==>
      r.columnMapping[k] == second.columnMapping[k] + |first.columnMapping|
    ensures forall k :: k in first.columnMapping && k !in second.columnMapping ==>
      r.columnMapping[k] == first.columnMapping[k]
  {
    var offset := |first.columnMapping|;
    Schema(map k | k in first.columnMapping.Keys + second.columnMapping.Keys ::
      if k in second.columnMapping then second.columnMapping[k] + offset else first.columnMapping[k])
  }

  /** What combine's mapping holds once the entries of the second schema outside pending are merged in. */
  function Merged(a: map<string, nat>, b: map<string, nat>, pending: set<string>, offset: nat): map<string, nat> {
    map k | k in a.Keys + (b.Keys - pending) :: if k in b && k !in pending then b[k] + offset else a[k]
  }

  lemma MergeOne(a: map<string, nat>, b: map<string, nat>, pending: set<string>, offset: nat, name: string)
    requires name in pending && pending <= b.Keys
    ensures Merged(a, b, pending, offset)[name := b[name] + offset] == Merged(a, b, pending - {name}, offset)
  {
  }

  lemma MergedStart(a: map<string, nat>, b: map<string, nat>, offset: nat)
    ensures Merged(a, b, b.Keys, offset) == a
  {
  }

  lemma MergedEnd(first: Schema, second: Schema)
    ensures Merged(first.columnMapping, second.columnMapping, {}, |first.columnMapping|)
      == Combined(first, second).columnMapping
  {
    MergedEndKeys(first, second);
    MergedEndValues(first, second);
  }

  lemma MergedEndKeys(first: Schema, second: Schema)
    ensures Merged(first.columnMapping, second.columnMapping, {}, |first.columnMapping|).Keys
      == Combined(first, second).columnMapping.Keys
  {
    assert second.columnMapping.Keys - {} == second.columnMapping.Keys;
  }

  lemma MergedEndValues(first: Schema, second: Schema)
    ensures var m := Merged(first.columnMapping, second.columnMapping, {}, |first.columnMapping|);
      forall k :: k in m ==> k in Combined(first, second).columnMapping && m[k] == Combined(first, second).columnMapping[k]
  {
  }

  /** combine's forEach over the second schema, in whatever order the map yields its entries. */
  method Combine(first: Schema, second: Schema) returns (r: Schema)
    ensures r == Combined(first, second)
  {
    var a, b := first.columnMapping, second.columnMapping;
    var offset := |a|;
    var pending := b.Keys;
    var combined := a;
    MergedStart(a, b, offset);
    while pending != {}
      invariant pending <= b.Keys
      invariant combined == Merged(a, b, pending, offset)
      decreases |pending|
    {
      var name :| name in pending;
      MergeOne(a, b, pending, offset, name);
      combined := combined[name := b[name] + offset];
      pending := pending - {name};
    }
    MergedEnd(first, second);
    r := Schema(combined);
  }

  /** Schemas with no name in common combine into one with as many entries as both together. */
  lemma CombinedSize(first: Schema, second: Schema)
    requires first.columnMapping.Keys !! second.columnMapping.Keys
    ensures |Combined(first, second).columnMapping| == |first.columnMapping| + |second.columnMapping|
  {
    var r := Combined(first, second).columnMapping;
    assert r.Keys == first.columnMapping.Keys + second.columnMapping.Keys;
    assert |r.Keys| == |r|;
  }

  /** The qualified names the suffix search matches: those ending in '.' followed by the name. */
  function SuffixMatches(s: Schema, columnName: string): set<string> {
    set k | k in s.columnMapping && EndsWith(k, "." + columnName)
  }

  predicate IsLeast(m: nat, xs: set<nat>) {
    m in xs && forall x :: x in xs ==> m <= x
  }

  /** The positions of the suffix matches. */
  function SuffixPositions(s: Schema, columnName: string): set<nat> {
    set k | k in SuffixMatches(s, columnName) :: s.columnMapping[k]
  }

  lemma SuffixPositionsNonEmpty(s: Schema, columnName: string)
    ensures SuffixMatches(s, columnName) != {} ==> SuffixPositions(s, columnName) != {}
  {
    if SuffixMatches(s, columnName) != {} {
      var k :| k in SuffixMatches(s, columnName);
      assert s.columnMapping[k] in SuffixPositions(s, columnName);
    }
  }

  lemma {:induction false} MinExists(xs: set<nat>)
    requires xs != {}
    ensures exists m :: IsLeast(m, xs)
    decreases |xs|
  {
    var y :| y in xs;
    var rest := xs - {y};
    if xs == {y} {
      assert IsLeast(y, xs);
    } else {
      MinExists(rest);
      var m :| IsLeast(m, rest);
      var least := if y < m then y else m;
      assert forall x :: x in xs ==> x == y || x in rest;
      assert IsLeast(least, xs);
    }
  }

  function Min(xs: set<nat>): (m: nat)
    requires xs != {}
    ensures m in xs && forall x :: x in xs ==> m <= x
  {
    MinExists(xs);
    var m :| IsLeast(m, xs);
    m
  }

  /**
   * getColumnIndex: the position of an exact name if the schema holds it;
   * otherwise the position of some entry whose name ends in '.' and the given
   * name (the first the map iterates; the model takes the smallest position);
   * otherwise null.
   */
  function GetColumnIndex(s: Schema, columnName: string): (r: Option<nat>)
    ensures columnName in s.columnMapping ==> r == Some(s.columnMapping[columnName])
    ensures columnName !in s.columnMapping ==> (r.Some? <==> SuffixMatches(s, columnName) != {})
    ensures columnName !in s.columnMapping && r.Some? ==>
      exists k :: k in SuffixMatches(s, columnName) && s.columnMapping[k] == r.value
  {
    if columnName in s.columnMapping then Some(s.columnMapping[columnName])
    else
      var matches := SuffixMatches(s, columnName);
      if matches == {} then None
      else
        SuffixPositionsNonEmpty(s, columnName);
        Some(Min(SuffixPositions(s, columnName)))
  }

  /** When exactly one qualified name ends with the unqualified name, the lookup finds its position. */
  lemma GetColumnIndexUniqueSuffix(s: Schema, columnName: string, k: string)
    requires columnName !in s.columnMapping
    requires SuffixMatches(s, columnName) == {k}
    ensures GetColumnIndex(s, columnName) == Some(s.columnMapping[k])
  {
  }


  lemma SuffixMatchesExist(s: Schema, columnName: string)
    ensures SuffixMatches(s, columnName) != {} <==>
      exists k :: k in s.columnMapping && EndsWith(k, "." + columnName)
  {
    if exists k :: k in s.columnMapping && EndsWith(k, "." + columnName) {
      var k :| k in s.columnMapping && EndsWith(k, "." + columnName);
      assert k in SuffixMatches(s, columnName);
    }
  }

  /** hasColumn: the exact name is present, or some name ends in '.' and the given name. */
  function HasColumn(s: Schema, columnName: string): (b: bool)
    ensures b <==> GetColumnIndex(s, columnName).Some?
  {
    SuffixMatchesExist(s, columnName);
    columnName in s.columnMapping || exists k :: k in s.columnMapping && EndsWith(k, "." + columnName)
  }

  /**
   * The position lookup the sum and ORDER BY code call as getIndex: the
   * column's position, or -1 when the schema does not hold it.
   */
  function GetIndex(s: Schema, columnName: string): (i: int)
    ensures i >= 0 <==> HasColumn(s, columnName)
    ensures i >= 0 ==> GetColumnIndex(s, columnName) == Some(i)
  {
    match GetColumnIndex(s, columnName)
    case Some(p) => p
    case None => -1
  }

  lemma SuffixChar(s: string, suffix: string, i: int)
    requires EndsWith(s, suffix) && 0 <= i < |suffix|
    ensures s[|s| - |suffix| + i] == suffix[i]
  {
  }

  /** A qualified name "t.c" ends with ".x" for a dot-free x only when c ends with ".x" or c == x. */
  lemma {:induction false} QualifiedSuffix(tableName: string, c: string, x: string)
    requires '.' !in c && '.' !in x
    requires EndsWith(Qualify(tableName, c), "." + x)
    ensures c == x
  {
    var q := Qualify(tableName, c);
    var n := |x| + 1;
    if |c| > |x| {
      SuffixChar(q, "." + x, 0);
      assert false;
    } else if |c| < |x| {
      SuffixChar(q, "." + x, |x| - |c|);
      assert false;
    } else {
      assert q[|q| - n..] == "." + c;
      assert c == ("." + c)[1..] && x == ("." + x)[1..];
    }
  }

  /**
   * The property the engine relies on when a query names a column without
   * its table: in a table's schema, with distinct dot-free column names, the
   * bare name of the i-th column resolves to position i.
   */
  lemma {:induction false} UnqualifiedLookup(tableName: string, columnNames: seq<string>, i: int)
    requires forall a, b :: 0 <= a < b < |columnNames| ==> columnNames[a] != columnNames[b]
    requires forall a :: 0 <= a < |columnNames| ==> '.' !in columnNames[a]
    requires 0 <= i < |columnNames|
    ensures GetColumnIndex(Schema(ColumnMap(tableName, columnNames)), columnNames[i]) == Some(i)
  {
    var s := Schema(ColumnMap(tableName, columnNames));
    var x := columnNames[i];
    var key := Qualify(tableName, x);
    ColumnMapSpec(tableName, columnNames);
    assert EndsWith(key, "." + x) by {
      assert key[|key| - (|x| + 1)..] == "." + x;
    }
    forall k | k in SuffixMatches(s, x)
      ensures k == key
    {
      QualifiedSuffix(tableName, columnNames[s.columnMapping[k]], x);
    }
    assert SuffixMatches(s, x) == {key};
    ColumnMapDistinct(tableName, columnNames, i);
    GetColumnIndexUniqueSuffix(s, x, key);
  }

  /** The exact qualified name of the i-th column resolves to position i. */
  lemma QualifiedLookup(tableName: string, columnNames: seq<string>, i: int)
    requires forall a, b :: 0 <= a < b < |columnNames| ==> columnNames[a] != columnNames[b]
    requires 0 <= i < |columnNames|
    ensures GetColumnIndex(Schema(ColumnMap(tableName, columnNames)), Qualify(tableName, columnNames[i])) == Some(i)
  {
    ColumnMapDistinct(tableName, columnNames, i);
  }

  /**
   * The join property: in the combination of two schemas with no name in
   * common, an exact name of the first keeps its position and an exact name
   * of the second is shifted past the first's entries.
   */
  lemma CombinedLookup(first: Schema, second: Schema, name: string)
    requires first.columnMapping.Keys !! second.columnMapping.Keys
    ensures name in first.columnMapping ==>
      GetColumnIndex(Combined(first, second), name) == Some(first.columnMapping[name])
    ensures name in second.columnMapping ==>
      GetColumnIndex(Combined(first, second), name) == Some(second.columnMapping[name] + |first.columnMapping|)
  {
    if name in first.columnMapping {
      CombinedKeepsFirst(first, second, name);
    }
    if name in second.columnMapping {
      CombinedShiftsSecond(first, second, name);
    }
  }

  lemma CombinedKeepsFirst(first: Schema, second: Schema, name: string)
    requires name in first.columnMapping && name !in second.columnMapping
    ensures GetColumnIndex(Combined(first, second), name) == Some(first.columnMapping[name])
  {
    var c := Combined(first, second).columnMapping;
    assert name in c && c[name] == first.columnMapping[name];
  }

  lemma CombinedShiftsSecond(first: Schema, second: Schema, name: string)
    requires name in second.columnMapping
    ensures GetColumnIndex(Combined(first, second), name) == Some(second.columnMapping[name] + |first.columnMapping|)
  {
    var c := Combined(first, second).columnMapping;
    assert name in c && c[name] == second.columnMapping[name] + |first.columnMapping|;
  }
}
