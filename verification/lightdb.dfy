/**
 * The helpers of the LightDB entry point that the query plan is built from:
 * whether the join conditions seen so far apply to the tables joined so far,
 * and the argument of the SUM item in the SELECT list.
 */
module LightDB {
  import opened Wrappers
  import opened Errors
  import opened Text
  import opened Schemas
  import opened Expressions

  // ---------------------------------------------------------------------------
  // canApplyJoinCondition
  // ---------------------------------------------------------------------------

  /** Every condition's column names, conditions in order (the stream's flatMap). */
  function InvolvedColumns(conditions: seq<Expr>): seq<string> {
    if conditions == [] then [] else ColumnNames(conditions[0]) + InvolvedColumns(conditions[1..])
  }

  /** A name is involved exactly when some condition mentions it. */
  lemma {:induction false} InvolvedColumnsMembers(conditions: seq<Expr>, name: string)
    ensures name in InvolvedColumns(conditions) <==>
      exists k :: 0 <= k < |conditions| && name in ColumnNames(conditions[k])
  {
    if conditions != [] {
      InvolvedColumnsMembers(conditions[1..], name);
      if exists k :: 0 <= k < |conditions| && name in ColumnNames(conditions[k]) {
        var k :| 0 <= k < |conditions| && name in ColumnNames(conditions[k]);
        if k > 0 {
          assert conditions[1..][k - 1] == conditions[k];
        }
      }
      if name in InvolvedColumns(conditions[1..]) {
        var k :| 0 <= k < |conditions[1..]| && name in ColumnNames(conditions[1..][k]);
        assert conditions[k + 1] == conditions[1..][k];
      }
    }
  }

  /** allMatch over the flattened list is allMatch over each condition's columns. */
  lemma AllInvolvedMatch(conditions: seq<Expr>, combinedSchema: Schema)
    ensures (forall name :: name in InvolvedColumns(conditions) ==> HasColumn(combinedSchema, name)) <==>
      (forall k, name :: 0 <= k < |conditions| && name in ColumnNames(conditions[k]) ==> HasColumn(combinedSchema, name))
  {
    forall name ensures name in InvolvedColumns(conditions) <==>
      exists k :: 0 <= k < |conditions| && name in ColumnNames(conditions[k])
    {
      InvolvedColumnsMembers(conditions, name);
    }
  }

  /**
   * canApplyJoinCondition: false for a null or empty list of conditions;
   * otherwise true exactly when every column of every condition is one the
   * combined schema has.
   */
  function CanApplyJoinCondition(joinConditions: Option<seq<Expr>>, combinedSchema: Schema): (b: bool)
    ensures joinConditions.None? || joinConditions.value == [] ==> !b
    ensures joinConditions.Some? && joinConditions.value != [] ==>
      (b <==> forall k, name :: 0 <= k < |joinConditions.value| && name in ColumnNames(joinConditions.value[k]) ==>
        HasColumn(combinedSchema, name))
  {
    if joinConditions.None? || joinConditions.value == [] then false
    else
      AllInvolvedMatch(joinConditions.value, combinedSchema);
      forall name :: name in InvolvedColumns(joinConditions.value) ==> HasColumn(combinedSchema, name)
  }

  /** Conditions that resolve against a tuple of the schema can be applied to it. */
  lemma ResolvableConditionsApply(joinConditions: seq<Expr>, combinedSchema: Schema, t: Tuples.Tuple)
    requires joinConditions != []
    requires forall k :: 0 <= k < |joinConditions| ==> Resolvable(joinConditions[k], t, combinedSchema)
    ensures CanApplyJoinCondition(Some(joinConditions), combinedSchema)
  {
    forall k, name | 0 <= k < |joinConditions| && name in ColumnNames(joinConditions[k])
      ensures HasColumn(combinedSchema, name)
    {
      ResolvableColumnsInSchema(joinConditions[k], t, combinedSchema);
    }
  }

  // ---------------------------------------------------------------------------
  // findSumColumnName
  // ---------------------------------------------------------------------------

  /** A SELECT item whose text, upper-cased, starts with "SUM(". */
  predicate IsSumItem(item: string) {
    StartsWith(ToUpper(item), "SUM(")
  }

  /** In a SUM item the first '(' is the fourth character. */
  lemma SumItemParen(item: string)
    requires IsSumItem(item)
    ensures IndexOf(item, '(') == 3
  {
    assert ToUpper(item)[..4] == "SUM(";
    assert UpperChar(item[3]) == '(';
    var i := IndexOf(item, '(');
    assert i <= 3 by {
      assert item[3] == '(';
    }
    assert UpperChar(item[i]) == '(';
    assert ToUpper(item)[i] == UpperChar(item[i]);
  }

  /**
   * The item's text between its first '(' and its last ')', or the
   * substring's exception when the item has no ')' after its '('.
   */
  function SumArgument(item: string): (r: Result<string, Error>)
    requires IsSumItem(item)
    ensures r.Ok? <==> ')' in item[4..]
    ensures r.Ok? ==> 4 + |r.value| < |item| && r.value == item[4..4 + |r.value|]
    ensures r.Ok? ==> item[4 + |r.value|] == ')' && ')' !in item[4 + |r.value| + 1..]
  {
    SumItemParen(item);
    var beginIndex := IndexOf(item, '(') + 1;
    var endIndex := LastIndexOf(item, ')');
    if 0 <= beginIndex <= endIndex <= |item| then
      Ok(item[beginIndex..endIndex])
    else
      Err(IndexOutOfBounds(endIndex))
  }

  /** SUM(x), in any case, yields x when x closes no parenthesis. */
  lemma SumArgumentOfSum(prefix: string, x: string)
    requires ToUpper(prefix) == "SUM" && ')' !in x
    ensures IsSumItem(prefix + "(" + x + ")")
    ensures SumArgument(prefix + "(" + x + ")") == Ok(x)
  {
    var item := prefix + "(" + x + ")";
    assert ToUpper(item)[..4] == ToUpper(prefix) + "(";
    var r := SumArgument(item);
    assert ')' in item[4..] by {
      assert item[4..][|x|] == ')';
    }
    assert item[4..4 + |x|] == x;
  }

  /**
   * findSumColumnName: the argument of the first SUM item in the SELECT list,
   * null when there is none, or the substring's exception when that item
   * lacks its closing parenthesis.
   */
  method FindSumColumnName(selectItems: seq<string>) returns (r: Result<Option<string>, Error>)
    ensures (forall k :: 0 <= k < |selectItems| ==> !IsSumItem(selectItems[k])) ==> r == Ok(None)
    ensures forall k :: (0 <= k < |selectItems| && IsSumItem(selectItems[k]) &&
      (forall j :: 0 <= j < k ==> !IsSumItem(selectItems[j]))) ==>
        r == (if SumArgument(selectItems[k]).Ok? then Ok(Some(SumArgument(selectItems[k]).value))
              else Err(SumArgument(selectItems[k]).error))
  {
    for i := 0 to |selectItems|
      invariant forall j :: 0 <= j < i ==> !IsSumItem(selectItems[j])
    {
      var itemStr := selectItems[i];
      if StartsWith(ToUpper(itemStr), "SUM(") {
        var columnName := SumArgument(itemStr);
        assert forall k :: (0 <= k < |selectItems| && IsSumItem(selectItems[k]) &&
          (forall j :: 0 <= j < k ==> !IsSumItem(selectItems[j]))) ==> k == i;
        if columnName.Err? {
          return Err(columnName.error);
        }
        return Ok(Some(columnName.value));
      }
    }
    return Ok(None);
  }
}
