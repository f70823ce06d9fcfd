/**
 * SumOperator: SUM over the child's tuples, optionally grouped. The child is
 * drained when the operator is built; sums are kept per group key in Java
 * longs, and the finished result tuples are replayed by getNextTuple.
 */
module Sum {
  import opened Wrappers
  import opened Errors
  import opened Text
  import opened Tuples
  import opened Schemas
  import opened Streams

  // ---------------------------------------------------------------------------
  // Column values by name
  // ---------------------------------------------------------------------------

  /**
   * The value of each named column, looked up through the schema's getIndex
   * and read with getValueByPos, names taken left to right; the first name
   * whose position lies outside the tuple (-1 for an unknown name) raises
   * List.get's exception.
   */
  function ColumnValues(t: Tuple, names: seq<string>, s: Schema): (r: Result<seq<int>, Error>)
    ensures r.Ok? <==> forall k :: 0 <= k < |names| ==> 0 <= GetIndex(s, names[k]) < |t.values|
    ensures r.Ok? ==> |r.value| == |names|
    ensures r.Ok? ==> forall k :: 0 <= k < |names| ==> r.value[k] == t.values[GetIndex(s, names[k])]
    ensures r.Err? ==> exists k :: (0 <= k < |names| && r.error == IndexOutOfBounds(GetIndex(s, names[k])) &&
      !(0 <= GetIndex(s, names[k]) < |t.values|) &&
      forall j :: 0 <= j < k ==> 0 <= GetIndex(s, names[j]) < |t.values|)
  {
    if names == [] then Ok([])
    else
      var v :- GetValueByPos(t, GetIndex(s, names[0]));
      var rest :- ColumnValues(t, names[1..], s);
      assert forall k :: 0 <= k < |names[1..]| ==> names[1..][k] == names[k + 1];
      Ok([v] + rest)
  }

  // ---------------------------------------------------------------------------
  // Group keys
  // ---------------------------------------------------------------------------

  /** generateGroupKey: the group-by values in decimal, joined by "_". */
  function GroupKey(t: Tuple, groupBy: seq<string>, s: Schema): Result<string, Error> {
    var values :- ColumnValues(t, groupBy, s);
    Ok(Join(Rendered(values), "_"))
  }

  /** The fields of a split key that are not empty, in order. */
  function NonEmpty(parts: seq<string>): (r: seq<string>)
    ensures |r| <= |parts|
    ensures forall k :: 0 <= k < |r| ==> r[k] != "" && r[k] in parts
    ensures (forall k :: 0 <= k < |parts| ==> parts[k] != "") ==> r == parts
  {
    if parts == [] then []
    else if parts[0] == "" then NonEmpty(parts[1..])
    else [parts[0]] + NonEmpty(parts[1..])
  }

  /** Integer.parseInt of every field, or NumberFormatException for the first one that is not an int. */
  function ParseFields(parts: seq<string>): (r: Result<seq<int>, Error>)
    ensures r.Ok? <==> forall k :: 0 <= k < |parts| ==> ParseInt(parts[k]).Some?
    ensures r.Ok? ==> |r.value| == |parts| && forall k :: 0 <= k < |parts| ==> r.value[k] == ParseInt(parts[k]).value
    ensures r.Err? ==> exists k :: 0 <= k < |parts| && ParseInt(parts[k]).None? && r.error == NumberFormat(parts[k])
  {
    if parts == [] then Ok([])
    else
      var v :- match ParseInt(parts[0]) case Some(v) => Ok(v) case None => Err(NumberFormat(parts[0]));
      var rest :- ParseFields(parts[1..]);
      assert forall k :: 0 <= k < |parts[1..]| ==> parts[1..][k] == parts[k + 1];
      Ok([v] + rest)
  }

  /** How generateResults reads a key back: split at "_", empty fields dropped, each parsed as an int. */
  function ParseKey(key: string): Result<seq<int>, Error> {
    ParseFields(NonEmpty(Split(key, '_')))
  }

  /** Reading a group key back gives the group-by values it was made from. */
  lemma GroupKeyRoundTrip(values: seq<int>)
    requires forall k :: 0 <= k < |values| ==> IsInt32(values[k])
    ensures ParseKey(Join(Rendered(values), "_")) == Ok(values)
  {
    if values == [] {
      assert Split("", '_') == [""];
    } else {
      KeySplitsIntoFields(values);
      RenderedParses(values);
    }
  }

  /** Splitting a non-empty key at "_" gives back the rendered values, none of them empty. */
  lemma KeySplitsIntoFields(values: seq<int>)
    requires values != []
    ensures Split(Join(Rendered(values), "_"), '_') == Rendered(values)
    ensures forall k :: 0 <= k < |values| ==> Rendered(values)[k] != ""
  {
    var fs := Rendered(values);
    forall k | 0 <= k < |fs|
      ensures '_' !in fs[k] && fs[k] != ""
    {
      IntToStringAvoids(values[k], '_');
    }
    assert ['_'] + "" == "_";
    SplitJoined(fs, '_', "");
    var parts := Split(Join(fs, "_"), '_');
    forall k | 0 <= k < |fs|
      ensures parts[k] == fs[k]
    {
      if k > 0 {
        assert "" + fs[k] == fs[k];
      }
    }
  }

  /** Parsing the decimal renderings of int values gives the values back. */
  lemma RenderedParses(values: seq<int>)
    requires forall k :: 0 <= k < |values| ==> IsInt32(values[k])
    ensures ParseFields(Rendered(values)) == Ok(values)
  {
    var fs := Rendered(values);
    forall k | 0 <= k < |values|
      ensures ParseInt(fs[k]) == Some(values[k])
    {
      ParseIntOfIntToString(values[k]);
    }
    assert ParseFields(fs).value == values;
  }

  /** Two tuples share a group key exactly when their group-by values are equal. */
  lemma GroupKeyInjective(a: seq<int>, b: seq<int>)
    requires forall k :: 0 <= k < |a| ==> IsInt32(a[k])
    requires forall k :: 0 <= k < |b| ==> IsInt32(b[k])
    ensures Join(Rendered(a), "_") == Join(Rendered(b), "_") <==> a == b
  {
    GroupKeyRoundTrip(a);
    GroupKeyRoundTrip(b);
  }

  // ---------------------------------------------------------------------------
  // fetchValueToSum
  // ---------------------------------------------------------------------------

  /** A run of decimal digits, optionally followed by '.' and more digits. */
  predicate IsUnsignedDecimal(b: string) {
    if '.' in b then
      var i := IndexOf(b, '.');
      0 < i && i + 1 < |b| && AllDigits(b[..i]) && AllDigits(b[i + 1..])
    else
      |b| > 0 && AllDigits(b)
  }

  /** The whole string matches -?\d+(\.\d+)? (Java's \d is an ASCII digit). */
  predicate IsNumericLiteral(e: string) {
    if |e| > 0 && e[0] == '-' then IsUnsignedDecimal(e[1..]) else IsUnsignedDecimal(e)
  }

  /** The long product of the values, each step wrapping as Java's long multiplication does. */
  function WrappedProduct(values: seq<int>): (p: int)
    ensures IsInt64(p)
  {
    if values == [] then 1 else Wrap64(WrappedProduct(values[..|values| - 1]) * values[|values| - 1])
  }

  /** The exact product of the values. */
  function Product(values: seq<int>): int {
    if values == [] then 1 else Product(values[..|values| - 1]) * values[|values| - 1]
  }

  /** Multiplying step by step in longs gives the exact product taken modulo 2^64. */
  lemma {:induction false} WrappedProductIsProduct(values: seq<int>)
    ensures WrappedProduct(values) == Wrap64(Product(values))
  {
    if values != [] {
      var init := values[..|values| - 1];
      var last := values[|values| - 1];
      WrappedProductIsProduct(init);
      Wrap64Mul(Product(init), last);
    }
  }

  /** The column names of a product expression: its '*'-separated fields, trimmed. */
  function ProductFactors(expression: string): (names: seq<string>)
    ensures |names| == |Split(expression, '*')|
    ensures forall k :: 0 <= k < |names| ==> names[k] == Trim(Split(expression, '*')[k])
  {
    var parts := Split(expression, '*');
    seq(|parts|, k requires 0 <= k < |parts| => Trim(parts[k]))
  }

  /**
   * evaluateProductExpression: the long product, from 1, of the values of
   * the named columns; a name that is not in the schema raises List.get's
   * exception.
   */
  function EvaluateProductExpression(expression: string, t: Tuple, s: Schema): (r: Result<int, Error>)
    ensures r.Ok? <==> ColumnValues(t, ProductFactors(expression), s).Ok?
    ensures r.Ok? ==> r.value == Wrap64(Product(ColumnValues(t, ProductFactors(expression), s).value))
    ensures r.Err? ==> r.error == ColumnValues(t, ProductFactors(expression), s).error
  {
    var values :- ColumnValues(t, ProductFactors(expression), s);
    WrappedProductIsProduct(values);
    Ok(WrappedProduct(values))
  }

  /**
   * fetchValueToSum: what one tuple contributes to its group. A null or
   * empty expression gives 0; a numeric literal is read with
   * Long.parseLong, which rejects a decimal point and a value outside the
   * long range; an expression holding '*' is a product of columns; anything
   * else is a column name, whose value is taken when its position lies
   * inside the tuple, and 0 otherwise.
   */
  function FetchValueToSum(expression: Option<string>, t: Tuple, s: Schema): (r: Result<int, Error>)
    ensures expression.None? || expression == Some("") ==> r == Ok(0)
    ensures expression.Some? && IsNumericLiteral(expression.value) ==>
      (r.Ok? <==> '.' !in expression.value && ParseLong(expression.value).Some?) &&
      (r.Ok? ==> r.value == ParseDecimal(expression.value).value) &&
      (r.Err? ==> r.error == NumberFormat(expression.value))
    ensures expression.Some? && expression.value != "" && !IsNumericLiteral(expression.value) && '*' in expression.value ==>
      r == EvaluateProductExpression(expression.value, t, s)
    ensures expression.Some? && expression.value != "" && !IsNumericLiteral(expression.value) && '*' !in expression.value ==>
      r.Ok? &&
      (0 <= GetIndex(s, expression.value) < |t.values| ==> r.value == t.values[GetIndex(s, expression.value)]) &&
      (!(0 <= GetIndex(s, expression.value) < |t.values|) ==> r.value == 0)
    ensures IsInt32Tuple(t) && r.Ok? ==> IsInt64(r.value)
  {
    match expression
    case None => Ok(0)
    case Some(e) =>
      if e == "" then Ok(0)
      else if IsNumericLiteral(e) then
        if '.' in e then Err(NumberFormat(e))
        else match ParseLong(e) case Some(v) => Ok(v) case None => Err(NumberFormat(e))
      else if '*' in e then EvaluateProductExpression(e, t, s)
      else
        var index := GetIndex(s, e);
        if 0 <= index < |t.values| then Ok(t.values[index]) else Ok(0)
  }

  /** An integer literal within the long range contributes its own value. */
  lemma FetchLiteral(n: int, t: Tuple, s: Schema)
    requires IsInt64(n)
    ensures FetchValueToSum(Some(IntToString(n)), t, s) == Ok(n)
  {
    var e := IntToString(n);
    assert '.' !in e;
    NumericLiteralOfIntToString(n);
    ParseLongOfIntToString(n);
    IntToStringRoundTrip(n);
  }

  lemma NumericLiteralOfIntToString(n: int)
    ensures IsNumericLiteral(IntToString(n))
  {
    var e := IntToString(n);
    assert '.' !in e;
    if |e| > 0 && e[0] == '-' {
      assert n < 0;
      assert e[1..] == NatToString(-n);
    } else {
      assert n >= 0;
      assert e == NatToString(n);
    }
  }

  /** A literal with a decimal point is rejected by Long.parseLong. */
  lemma FetchDecimalLiteral(t: Tuple, s: Schema)
    ensures FetchValueToSum(Some("1.5"), t, s) == Err(NumberFormat("1.5"))
  {
    assert IndexOf("1.5", '.') == 1;
    assert "1.5"[..1] == "1" && "1.5"[2..] == "5";
    assert IsNumericLiteral("1.5");
  }

  // ---------------------------------------------------------------------------
  // performAggregation
  // ---------------------------------------------------------------------------

  /** One tuple's entry for the merge: its group key, then the value it contributes. */
  function Contribution(t: Tuple, column: Option<string>, groupBy: seq<string>, s: Schema): Result<(string, int), Error> {
    var key :- GroupKey(t, groupBy, s);
    var value :- FetchValueToSum(column, t, s);
    Ok((key, value))
  }

  /** The results of a sequence of steps taken in order: all their values, or the first error met. */
  function Collect<T>(rs: seq<Result<T, Error>>): Result<seq<T>, Error> {
    if rs == [] then Ok([])
    else
      var prefix :- Collect(rs[..|rs| - 1]);
      var x :- rs[|rs| - 1];
      Ok(prefix + [x])
  }

  /** Collect succeeds exactly when every step does, and otherwise fails with the first failing step's error. */
  lemma {:induction false} CollectSpec<T>(rs: seq<Result<T, Error>>)
    ensures Collect(rs).Ok? <==> forall k :: 0 <= k < |rs| ==> rs[k].Ok?
    ensures Collect(rs).Ok? ==> |Collect(rs).value| == |rs|
    ensures Collect(rs).Ok? ==> forall k :: 0 <= k < |rs| ==> rs[k] == Ok(Collect(rs).value[k])
    ensures Collect(rs).Err? ==>
      exists k :: (0 <= k < |rs| && rs[k] == Err(Collect(rs).error) && forall j :: 0 <= j < k ==> rs[j].Ok?)
  {
    if rs != [] {
      var init := rs[..|rs| - 1];
      assert forall k :: 0 <= k < |init| ==> init[k] == rs[k];
      CollectSpec(init);
    }
  }

  /** Once a prefix of the steps fails, the whole sequence fails with the same error. */
  lemma {:induction false} CollectFailsOnward<T>(rs: seq<Result<T, Error>>, n: nat)
    requires n <= |rs| && Collect(rs[..n]).Err?
    ensures Collect(rs) == Collect(rs[..n])
    decreases |rs| - n
  {
    if n < |rs| {
      assert rs[..n + 1][..n] == rs[..n];
      CollectFailsOnward(rs, n + 1);
    } else {
      assert rs[..n] == rs;
    }
  }

  /** Each tuple's contribution, in order. */
  function Entries(ts: seq<Tuple>, column: Option<string>, groupBy: seq<string>, s: Schema): (es: seq<Result<(string, int), Error>>)
    ensures |es| == |ts|
    ensures forall k :: 0 <= k < |ts| ==> es[k] == Contribution(ts[k], column, groupBy, s)
  {
    seq(|ts|, k requires 0 <= k < |ts| => Contribution(ts[k], column, groupBy, s))
  }

  /** The entries the merge loop sees, in order, or the first error met. */
  function Contributions(ts: seq<Tuple>, column: Option<string>, groupBy: seq<string>, s: Schema): Result<seq<(string, int)>, Error> {
    Collect(Entries(ts, column, groupBy, s))
  }

  /** The entries are the tuples' contributions, one per tuple, and the error raised is the first tuple's that fails. */
  lemma ContributionsSpec(ts: seq<Tuple>, column: Option<string>, groupBy: seq<string>, s: Schema)
    ensures Contributions(ts, column, groupBy, s).Ok? <==>
      forall k :: 0 <= k < |ts| ==> Contribution(ts[k], column, groupBy, s).Ok?
    ensures Contributions(ts, column, groupBy, s).Ok? ==> |Contributions(ts, column, groupBy, s).value| == |ts|
    ensures Contributions(ts, column, groupBy, s).Ok? ==> forall k :: 0 <= k < |ts| ==>
      Contribution(ts[k], column, groupBy, s) == Ok(Contributions(ts, column, groupBy, s).value[k])
    ensures Contributions(ts, column, groupBy, s).Err? ==> exists k :: (0 <= k < |ts| &&
      Contribution(ts[k], column, groupBy, s) == Err(Contributions(ts, column, groupBy, s).error) &&
      forall j :: 0 <= j < k ==> Contribution(ts[j], column, groupBy, s).Ok?)
  {
    CollectSpec(Entries(ts, column, groupBy, s));
  }

  /** One more tuple: its contribution is appended, or its error ends the sequence. */
  lemma ContributionsStep(ts: seq<Tuple>, t: Tuple, column: Option<string>, groupBy: seq<string>, s: Schema)
    requires Contributions(ts, column, groupBy, s).Ok?
    ensures Contribution(t, column, groupBy, s).Ok? ==>
      Contributions(ts + [t], column, groupBy, s) == Ok(Contributions(ts, column, groupBy, s).value + [Contribution(t, column, groupBy, s).value])
    ensures Contribution(t, column, groupBy, s).Err? ==>
      Contributions(ts + [t], column, groupBy, s) == Err(Contribution(t, column, groupBy, s).error)
  {
    assert Entries(ts + [t], column, groupBy, s)[..|ts|] == Entries(ts, column, groupBy, s);
  }

  /** A prefix that merged cleanly, extended by the next tuple when that one contributes too. */
  lemma ContributionsExtend(ts: seq<Tuple>, n: nat, merged: seq<(string, int)>, e: (string, int),
                            column: Option<string>, groupBy: seq<string>, s: Schema)
    requires n < |ts| && Contributions(ts[..n], column, groupBy, s) == Ok(merged)
    requires Contribution(ts[n], column, groupBy, s) == Ok(e)
    ensures Contributions(ts[..n + 1], column, groupBy, s) == Ok(merged + [e])
  {
    PrefixSnoc(ts, n);
    ContributionsStep(ts[..n], ts[n], column, groupBy, s);
  }

  /** A prefix that merged cleanly, then a tuple that fails: the whole sequence fails with its error. */
  lemma ContributionsStopAt(ts: seq<Tuple>, n: nat, column: Option<string>, groupBy: seq<string>, s: Schema)
    requires n < |ts| && Contributions(ts[..n], column, groupBy, s).Ok?
    requires Contribution(ts[n], column, groupBy, s).Err?
    ensures Contributions(ts, column, groupBy, s) == Err(Contribution(ts[n], column, groupBy, s).error)
  {
    PrefixSnoc(ts, n);
    ContributionsStep(ts[..n], ts[n], column, groupBy, s);
    ContributionsFailOnward(ts, n + 1, column, groupBy, s);
  }

  /** Once a prefix of the tuples fails, the whole sequence fails with the same error. */
  lemma ContributionsFailOnward(ts: seq<Tuple>, n: nat, column: Option<string>, groupBy: seq<string>, s: Schema)
    requires n <= |ts| && Contributions(ts[..n], column, groupBy, s).Err?
    ensures Contributions(ts, column, groupBy, s) == Contributions(ts[..n], column, groupBy, s)
  {
    assert Entries(ts, column, groupBy, s)[..n] == Entries(ts[..n], column, groupBy, s);
    CollectFailsOnward(Entries(ts, column, groupBy, s), n);
  }

  /** Every contribution of a tuple of Java ints fits a long. */
  lemma ContributionsInt64(ts: seq<Tuple>, column: Option<string>, groupBy: seq<string>, s: Schema)
    requires forall k :: 0 <= k < |ts| ==> IsInt32Tuple(ts[k])
    requires Contributions(ts, column, groupBy, s).Ok?
    ensures forall i :: 0 <= i < |Contributions(ts, column, groupBy, s).value| ==>
      IsInt64(Contributions(ts, column, groupBy, s).value[i].1)
  {
    ContributionsSpec(ts, column, groupBy, s);
  }

  /** HashMap.merge(key, value, Long::sum). */
  function Merge(sums: map<string, int>, key: string, value: int): map<string, int> {
    if key in sums then sums[key := Wrap64(sums[key] + value)] else sums[key := value]
  }

  /** The groupSums map after merging the entries in order. */
  function Sums(entries: seq<(string, int)>): map<string, int> {
    if entries == [] then map[]
    else Merge(Sums(entries[..|entries| - 1]), entries[|entries| - 1].0, entries[|entries| - 1].1)
  }

  lemma SumsAppend(entries: seq<(string, int)>, e: (string, int))
    ensures Sums(entries + [e]) == Merge(Sums(entries), e.0, e.1)
  {
    assert (entries + [e])[..|entries|] == entries;
  }

  /** The exact total of the values whose key is key. */
  function GroupTotal(entries: seq<(string, int)>, key: string): int {
    if entries == [] then 0
    else
      var last := entries[|entries| - 1];
      GroupTotal(entries[..|entries| - 1], key) + (if last.0 == key then last.1 else 0)
  }

  /** The exact total of all values. */
  function Total(entries: seq<(string, int)>): int {
    if entries == [] then 0 else Total(entries[..|entries| - 1]) + entries[|entries| - 1].1
  }

  /** The map has one key per distinct group key met. */
  lemma {:induction false} SumsKeys(entries: seq<(string, int)>)
    ensures forall key :: key in Sums(entries) <==> exists i :: 0 <= i < |entries| && entries[i].0 == key
  {
    if entries != [] {
      var init := entries[..|entries| - 1];
      SumsKeys(init);
      forall key
        ensures key in Sums(entries) <==> exists i :: 0 <= i < |entries| && entries[i].0 == key
      {
        if key in Sums(init) {
          var i :| 0 <= i < |init| && init[i].0 == key;
          assert entries[i].0 == key;
        }
        if exists i :: 0 <= i < |entries| && entries[i].0 == key {
          var i :| 0 <= i < |entries| && entries[i].0 == key;
          if i < |init| {
            assert init[i].0 == key;
          }
        }
      }
    }
  }

  /** Each key's entry is the long sum of its group's values: the exact total modulo 2^64. */
  lemma {:induction false} SumsValues(entries: seq<(string, int)>)
    requires forall i :: 0 <= i < |entries| ==> IsInt64(entries[i].1)
    ensures forall key :: key in Sums(entries) ==> Sums(entries)[key] == Wrap64(GroupTotal(entries, key))
  {
    if entries != [] {
      var init := entries[..|entries| - 1];
      var last := entries[|entries| - 1];
      assert forall i :: 0 <= i < |init| ==> init[i] == entries[i];
      SumsValues(init);
      SumsKeys(init);
      forall key | key in Sums(entries)
        ensures Sums(entries)[key] == Wrap64(GroupTotal(entries, key))
      {
        if key == last.0 {
          if key in Sums(init) {
            Wrap64Add(GroupTotal(init, key), last.1);
          } else {
            assert GroupTotal(init, key) == 0 by {
              GroupTotalAbsent(init, key);
            }
          }
        }
      }
    }
  }

  /** A key that never occurs totals 0. */
  lemma {:induction false} GroupTotalAbsent(entries: seq<(string, int)>, key: string)
    requires forall i :: 0 <= i < |entries| ==> entries[i].0 != key
    ensures GroupTotal(entries, key) == 0
  {
    if entries != [] {
      var init := entries[..|entries| - 1];
      assert forall i :: 0 <= i < |init| ==> init[i] == entries[i];
      GroupTotalAbsent(init, key);
    }
  }

  /** When every entry has the same key, that key's total is the total of everything. */
  lemma {:induction false} GroupTotalAll(entries: seq<(string, int)>, key: string)
    requires forall i :: 0 <= i < |entries| ==> entries[i].0 == key
    ensures GroupTotal(entries, key) == Total(entries)
  {
    if entries != [] {
      var init := entries[..|entries| - 1];
      assert forall i :: 0 <= i < |init| ==> init[i] == entries[i];
      GroupTotalAll(init, key);
    }
  }

  // ---------------------------------------------------------------------------
  // generateResults
  // ---------------------------------------------------------------------------

  /** Some element of a non-empty set: the order a HashMap happens to yield its keys in. */
  ghost function Pick(keys: set<string>): string
    requires keys != {}
  {
    var k :| k in keys; k
  }

  /** The exact sum of the map's values at the given keys. */
  ghost function SumOver(sums: map<string, int>, keys: set<string>): int
    requires keys <= sums.Keys
    decreases keys
  {
    if keys == {} then 0
    else
      var k := Pick(keys);
      sums[k] + SumOver(sums, keys - {k})
  }

  /** The sum does not depend on the order the keys are taken in. */
  lemma {:induction false} SumOverRemove(sums: map<string, int>, keys: set<string>, k: string)
    requires keys <= sums.Keys && k in keys
    ensures SumOver(sums, keys) == sums[k] + SumOver(sums, keys - {k})
    decreases keys
  {
    var p := Pick(keys);
    if p != k {
      SumOverRemove(sums, keys - {p}, k);
      SumOverRemove(sums, keys - {k}, p);
      assert keys - {p} - {k} == keys - {k} - {p};
    }
  }

  /** The stream sum of the map's values, in the map's order, in longs. */
  method TotalSum(sums: map<string, int>) returns (total: int)
    ensures total == Wrap64(SumOver(sums, sums.Keys))
  {
    total := 0;
    var pending := sums.Keys;
    while pending != {}
      invariant pending <= sums.Keys && IsInt64(total)
      invariant Wrap64(total + SumOver(sums, pending)) == Wrap64(SumOver(sums, sums.Keys))
      decreases pending
    {
      var key :| key in pending;
      SumOverRemove(sums, pending, key);
      Wrap64Add(total + sums[key], SumOver(sums, pending - {key}));
      total := Wrap64(total + sums[key]);
      pending := pending - {key};
    }
  }

  /** One grouped result: the values read back from the key, then the sum cast to int. */
  function GroupRow(key: string, sum: int): Result<Tuple, Error> {
    var values :- ParseKey(key);
    Ok(Tuple(values + [ToInt32(sum)]))
  }

  /** The forEach of generateResults over the map: one row per key, in the map's order. */
  method GroupedResults(sums: map<string, int>) returns (r: Result<seq<Tuple>, Error>)
    ensures r.Ok? <==> forall key :: key in sums ==> GroupRow(key, sums[key]).Ok?
    ensures r.Ok? ==> |r.value| == |sums|
    ensures r.Ok? ==> forall row :: row in r.value <==> exists key :: key in sums && GroupRow(key, sums[key]) == Ok(row)
    ensures r.Err? ==> exists key :: key in sums && GroupRow(key, sums[key]) == Err(r.error)
  {
    var results: seq<Tuple> := [];
    var pending := sums.Keys;
    ghost var done: set<string> := {};
    while pending != {}
      invariant pending !! done && pending + done == sums.Keys
      invariant |results| == |done|
      invariant forall key :: key in done ==> GroupRow(key, sums[key]).Ok?
      invariant forall row :: row in results <==> exists key :: key in done && GroupRow(key, sums[key]) == Ok(row)
      decreases pending
    {
      var key :| key in pending;
      var row := GroupRow(key, sums[key]);
      if row.Err? {
        return Err(row.error);
      }
      GroupStep(sums, pending, done, results, key, row.value);
      results := results + [row.value];
      pending := pending - {key};
      done := done + {key};
    }
    assert done == sums.Keys;
    return Ok(results);
  }

  /** Moving one key whose row exists from pending to done, its row appended, keeps the loop's invariants. */
  lemma GroupStep(sums: map<string, int>, pending: set<string>, done: set<string>, results: seq<Tuple>,
                  key: string, row: Tuple)
    requires pending !! done && pending + done == sums.Keys && key in pending
    requires |results| == |done|
    requires forall k :: k in done ==> GroupRow(k, sums[k]).Ok?
    requires forall r :: r in results <==> exists k :: k in done && GroupRow(k, sums[k]) == Ok(r)
    requires GroupRow(key, sums[key]) == Ok(row)
    ensures pending - {key} !! done + {key} && (pending - {key}) + (done + {key}) == sums.Keys
    ensures |results + [row]| == |done + {key}|
    ensures forall k :: k in done + {key} ==> GroupRow(k, sums[k]).Ok?
    ensures forall r :: r in results + [row] <==> exists k :: k in done + {key} && GroupRow(k, sums[k]) == Ok(r)
  {
  }

  /**
   * generateResults: without group-by columns a single tuple holding the
   * int-cast total; with them one tuple per key of the map.
   */
  method GenerateResults(sums: map<string, int>, groupBy: seq<string>) returns (r: Result<seq<Tuple>, Error>)
    ensures groupBy == [] ==> r == Ok([Tuple([ToInt32(Wrap64(SumOver(sums, sums.Keys)))])])
    ensures groupBy != [] ==> (r.Ok? <==> forall key :: key in sums ==> GroupRow(key, sums[key]).Ok?)
    ensures groupBy != [] && r.Ok? ==> |r.value| == |sums|
    ensures groupBy != [] && r.Ok? ==>
      forall row :: row in r.value <==> exists key :: key in sums && GroupRow(key, sums[key]) == Ok(row)
    ensures groupBy != [] && r.Err? ==> exists key :: key in sums && GroupRow(key, sums[key]) == Err(r.error)
  {
    if groupBy == [] {
      var globalSum := TotalSum(sums);
      r := Ok([Tuple([ToInt32(globalSum)])]);
    } else {
      r := GroupedResults(sums);
    }
  }

  /**
   * With group-by columns, each result row is the group-by values of some
   * input tuple followed by the int-cast long sum of its group.
   */
  lemma GroupedRow(ts: seq<Tuple>, column: Option<string>, groupBy: seq<string>, s: Schema, key: string)
    requires forall k :: 0 <= k < |ts| ==> IsInt32Tuple(ts[k])
    requires Contributions(ts, column, groupBy, s).Ok?
    requires key in Sums(Contributions(ts, column, groupBy, s).value)
    ensures exists i :: (0 <= i < |ts| && ColumnValues(ts[i], groupBy, s).Ok? &&
      GroupRow(key, Sums(Contributions(ts, column, groupBy, s).value)[key]) ==
        Ok(Tuple(ColumnValues(ts[i], groupBy, s).value + [ToInt32(GroupTotal(Contributions(ts, column, groupBy, s).value, key))])))
  {
    var entries := Contributions(ts, column, groupBy, s).value;
    var i := KeyOrigin(ts, column, groupBy, s, key);
    var values := ColumnValues(ts[i], groupBy, s).value;
    GroupKeyRoundTrip(values);
    ContributionsInt64(ts, column, groupBy, s);
    SumsValues(entries);
    ToInt32OfWrap64(GroupTotal(entries, key));
    assert GroupRow(key, Sums(entries)[key]) == Ok(Tuple(values + [ToInt32(GroupTotal(entries, key))]));
  }

  /** Every key of the map is the group key of some input tuple, whose group-by values are Java ints. */
  lemma KeyOrigin(ts: seq<Tuple>, column: Option<string>, groupBy: seq<string>, s: Schema, key: string) returns (i: nat)
    requires forall k :: 0 <= k < |ts| ==> IsInt32Tuple(ts[k])
    requires Contributions(ts, column, groupBy, s).Ok?
    requires key in Sums(Contributions(ts, column, groupBy, s).value)
    ensures i < |ts| && ColumnValues(ts[i], groupBy, s).Ok?
    ensures key == Join(Rendered(ColumnValues(ts[i], groupBy, s).value), "_")
    ensures forall k :: 0 <= k < |ColumnValues(ts[i], groupBy, s).value| ==> IsInt32(ColumnValues(ts[i], groupBy, s).value[k])
  {
    var entries := Contributions(ts, column, groupBy, s).value;
    SumsKeys(entries);
    i :| 0 <= i < |entries| && entries[i].0 == key;
    ContributionAt(ts, column, groupBy, s, i);
    assert IsInt32Tuple(ts[i]);
  }

  /** The i-th entry is the i-th tuple's contribution. */
  lemma ContributionAt(ts: seq<Tuple>, column: Option<string>, groupBy: seq<string>, s: Schema, i: nat)
    requires Contributions(ts, column, groupBy, s).Ok? && i < |Contributions(ts, column, groupBy, s).value|
    ensures i < |ts| && Contribution(ts[i], column, groupBy, s) == Ok(Contributions(ts, column, groupBy, s).value[i])
  {
    ContributionsSpec(ts, column, groupBy, s);
  }

  /** Without group-by columns the single result holds the int-cast exact total of all contributions. */
  lemma GlobalRow(ts: seq<Tuple>, column: Option<string>, s: Schema)
    requires forall k :: 0 <= k < |ts| ==> IsInt32Tuple(ts[k])
    requires Contributions(ts, column, [], s).Ok?
    ensures ToInt32(Wrap64(SumOver(Sums(Contributions(ts, column, [], s).value), Sums(Contributions(ts, column, [], s).value).Keys)))
      == ToInt32(Total(Contributions(ts, column, [], s).value))
  {
    var entries := Contributions(ts, column, [], s).value;
    var sums := Sums(entries);
    ContributionsSpec(ts, column, [], s);
    ContributionsInt64(ts, column, [], s);
    forall i | 0 <= i < |entries|
      ensures entries[i].0 == ""
    {
      assert Contribution(ts[i], column, [], s) == Ok(entries[i]);
      assert Rendered([]) == [];
    }
    SumsKeys(entries);
    SumsValues(entries);
    GroupTotalAll(entries, "");
    ToInt32OfWrap64(Total(entries));
    if "" in sums {
      assert sums.Keys == {""};
      SumOverRemove(sums, {""}, "");
      assert {""} - {""} == {};
      Wrap64Periodic(Total(entries), 0);
    } else {
      assert entries == [];
    }
  }

  class SumOperator {
    const child: Stream
    const columnName: Option<string>
    const groupByColumns: seq<string>
    const schema: Schema
    var groupSums: map<string, int>
    var results: seq<Tuple>
    var currentIndex: nat

    ghost predicate Valid()
      reads this, child
    {
      child.Valid() && currentIndex <= |results|
    }

    constructor(child: Stream, columnName: Option<string>, groupByColumns: seq<string>, schema: Schema)
      requires child.Valid()
      ensures Valid() && groupSums == map[] && results == [] && currentIndex == 0
      ensures this.child == child && this.columnName == columnName
      ensures this.groupByColumns == groupByColumns && this.schema == schema
    {
      this.child := child;
      this.columnName := columnName;
      this.groupByColumns := groupByColumns;
      this.schema := schema;
      groupSums := map[];
      results := [];
      currentIndex := 0;
    }

    /**
     * performAggregation: drains the child, merging each tuple's
     * contribution under its group key, then builds the results.
     */
    /** The draining loop of performAggregation: every child tuple merged into groupSums under its key. */
    method MergeChild() returns (failure: Option<Error>)
      requires Valid() && groupSums == map[] && currentIndex == 0
      modifies this, child
      ensures Valid() && currentIndex == 0
      ensures var c := Contributions(old(child.items[child.pos..]), columnName, groupByColumns, schema);
        (c.Err? <==> failure.Some?) &&
        (c.Err? ==> failure == Some(c.error)) &&
        (c.Ok? ==> child.pos == |child.items| && groupSums == Sums(c.value))
    {
      ghost var start := child.pos;
      ghost var items := child.items[start..];
      ghost var merged: seq<(string, int)> := [];
      while true
        invariant child.Valid() && start <= child.pos && currentIndex == 0
        invariant Contributions(items[..child.pos - start], columnName, groupByColumns, schema) == Ok(merged)
        invariant groupSums == Sums(merged)
        decreases |child.items| - child.pos
      {
        ghost var n := child.pos - start;
        var tuple := child.GetNextTuple();
        if tuple.None? {
          assert items[..n] == items;
          break;
        }
        assert tuple.value == items[n] && child.pos - start == n + 1;
        ghost var c := Contribution(tuple.value, columnName, groupByColumns, schema);
        var stepFailure := MergeTuple(tuple.value);
        if stepFailure.Some? {
          ContributionsStopAt(items, n, columnName, groupByColumns, schema);
          return stepFailure;
        }
        ContributionsExtend(items, n, merged, c.value, columnName, groupByColumns, schema);
        SumsAppend(merged, c.value);
        merged := merged + [c.value];
        assert items[..child.pos - start] == items[..n + 1];
      }
      return None;
    }

    /** One pass of the draining loop: the tuple's group key and value, merged into groupSums. */
    method MergeTuple(tuple: Tuple) returns (failure: Option<Error>)
      modifies this
      ensures currentIndex == old(currentIndex) && results == old(results)
      ensures var c := Contribution(tuple, columnName, groupByColumns, schema);
        (c.Err? ==> failure == Some(c.error) && groupSums == old(groupSums)) &&
        (c.Ok? ==> failure.None? && groupSums == Merge(old(groupSums), c.value.0, c.value.1))
    {
      var groupKey := GroupKey(tuple, groupByColumns, schema);
      if groupKey.Err? {
        return Some(groupKey.error);
      }
      var valueToSum := FetchValueToSum(columnName, tuple, schema);
      if valueToSum.Err? {
        return Some(valueToSum.error);
      }
      groupSums := Merge(groupSums, groupKey.value, valueToSum.value);
      return None;
    }

    method PerformAggregation() returns (failure: Option<Error>)
      requires Valid() && groupSums == map[] && currentIndex == 0
      modifies this, child
      ensures Valid() && currentIndex == 0
      ensures var c := Contributions(old(child.items[child.pos..]), columnName, groupByColumns, schema);
        (c.Err? ==> failure == Some(c.error)) &&
        (c.Ok? ==> child.pos == |child.items| && groupSums == Sums(c.value))
      ensures Contributions(old(child.items[child.pos..]), columnName, groupByColumns, schema).Ok? ==>
        (failure.None? <==> groupByColumns == [] || forall key :: key in groupSums ==> GroupRow(key, groupSums[key]).Ok?)
      ensures failure.None? && groupByColumns == [] ==> results == [Tuple([ToInt32(Wrap64(SumOver(groupSums, groupSums.Keys)))])]
      ensures failure.None? && groupByColumns != [] ==> |results| == |groupSums|
      ensures failure.None? && groupByColumns != [] ==>
        forall row :: row in results <==> exists key :: key in groupSums && GroupRow(key, groupSums[key]) == Ok(row)
    {
      failure := MergeChild();
      if failure.Some? {
        return;
      }
      var generated := GenerateResults(groupSums, groupByColumns);
      if generated.Err? {
        return Some(generated.error);
      }
      results := generated.value;
      return None;
    }

    /** getNextTuple: the results in order, then null. */
    method GetNextTuple() returns (t: Option<Tuple>)
      requires Valid()
      modifies this
      ensures Valid() && results == old(results) && groupSums == old(groupSums)
      ensures old(currentIndex) < |results| ==> t == Some(results[old(currentIndex)]) && currentIndex == old(currentIndex) + 1
      ensures old(currentIndex) == |results| ==> t == None && currentIndex == old(currentIndex)
    {
      if currentIndex < |results| {
        t := Some(results[currentIndex]);
        currentIndex := currentIndex + 1;
      } else {
        t := None;
      }
    }

    /** reset: replays the results from the first. */
    method Reset()
      requires Valid()
      modifies this
      ensures Valid() && currentIndex == 0 && results == old(results) && groupSums == old(groupSums)
    {
      currentIndex := 0;
    }

    /** getSchema: the group-by columns and then "Sum", all under the table name "Aggregated". */
    method GetSchema() returns (s: Schema)
      ensures s == Schema(ColumnMap(AggregatedTable, groupByColumns + [SumColumn]))
    {
      s := NewSchema(AggregatedTable, groupByColumns + [SumColumn]);
    }
  }

  /** The table name and the column name of the aggregated schema's sum. */
  const AggregatedTable: string := "Aggregated"
  const SumColumn: string := "Sum"

  /** The sum column of the aggregated schema is always the last position, whatever the group-by names. */
  lemma AggregatedSumColumn(groupBy: seq<string>)
    ensures GetColumnIndex(Schema(ColumnMap(AggregatedTable, groupBy + [SumColumn])), Qualify(AggregatedTable, SumColumn))
      == Some(|groupBy|)
  {
    LastColumnLookup(AggregatedTable, groupBy, SumColumn);
  }

  /**
   * Building a SumOperator: the constructor's aggregation either raises the
   * exception it meets (no operator results) or leaves an operator ready to
   * replay its results.
   */
  method Create(child: Stream, columnName: Option<string>, groupByColumns: seq<string>, schema: Schema)
    returns (r: Result<SumOperator, Error>)
    requires child.Valid()
    modifies child
    ensures r.Ok? ==> fresh(r.value) && r.value.Valid() && r.value.child == child && r.value.currentIndex == 0
    ensures r.Ok? ==> r.value.columnName == columnName && r.value.groupByColumns == groupByColumns && r.value.schema == schema
    ensures r.Ok? ==> child.pos == |child.items|
    ensures var c := Contributions(old(child.items[child.pos..]), columnName, groupByColumns, schema);
      (c.Err? ==> r == Err(c.error)) &&
      (c.Ok? ==> (r.Ok? <==> groupByColumns == [] || forall key :: key in Sums(c.value) ==> GroupRow(key, Sums(c.value)[key]).Ok?))
    ensures r.Ok? ==> (var c := Contributions(old(child.items[child.pos..]), columnName, groupByColumns, schema);
      c.Ok? && r.value.groupSums == Sums(c.value))
    ensures r.Ok? && groupByColumns == [] ==>
      r.value.results == [Tuple([ToInt32(Wrap64(SumOver(r.value.groupSums, r.value.groupSums.Keys)))])]
    ensures r.Ok? && groupByColumns != [] ==> |r.value.results| == |r.value.groupSums|
    ensures r.Ok? && groupByColumns != [] ==> forall row :: row in r.value.results <==>
      exists key :: key in r.value.groupSums && GroupRow(key, r.value.groupSums[key]) == Ok(row)
  {
    var op := new SumOperator(child, columnName, groupByColumns, schema);
    var failure := op.PerformAggregation();
    if failure.Some? {
      return Err(failure.value);
    }
    return Ok(op);
  }
}
