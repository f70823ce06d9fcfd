/**
 * WhereClauseProcessor: walks a WHERE expression, collecting the tables its
 * columns mention, and files each condition it is told about under its one
 * table, into the AND-chained join expression when it mentions several
 * tables, or nowhere when it mentions none.
 */
module WhereClause {
  import opened Wrappers
  import opened Errors
  import opened Expressions

  /** The processor's three fields. */
  datatype Buckets = Buckets(tableConditions: map<string, seq<Expr>>, joinExpression: Option<Expr>, tablesInvolved: set<string>)

  /** A fresh processor: no conditions, no join expression, no tables. */
  function Initial(): Buckets {
    Buckets(map[], None, {})
  }

  /** getConditionsForTable: the table's conditions in filing order, an empty list when it has none. */
  function ConditionsFor(b: Buckets, tableName: string): seq<Expr> {
    if tableName in b.tableConditions then b.tableConditions[tableName] else []
  }

  /** appendExpression: the new condition alone, or AND-ed after the existing one. */
  function AppendExpression(existing: Option<Expr>, condition: Expr): (r: Expr)
    ensures existing.None? ==> r == condition
    ensures existing.Some? ==> r == And(existing.value, condition)
  {
    if existing.None? then condition else And(existing.value, condition)
  }

  /** The one element of a singleton set. */
  ghost function Only(s: set<string>): (t: string)
    requires |s| == 1
    ensures s == {t}
  {
    var t :| t in s;
    assert |s - {t}| == 0;
    assert s - {t} == {};
    t
  }

  /** appendCondition: files the condition by the number of tables collected, then clears them. */
  ghost function AppendCondition(b: Buckets, condition: Expr): Buckets {
    if |b.tablesInvolved| == 1 then
      var t := Only(b.tablesInvolved);
      Buckets(b.tableConditions[t := ConditionsFor(b, t) + [condition]], b.joinExpression, {})
    else if |b.tablesInvolved| > 1 then
      Buckets(b.tableConditions, Some(AppendExpression(b.joinExpression, condition)), {})
    else
      Buckets(b.tableConditions, b.joinExpression, {})
  }

  /**
   * A condition on exactly one table goes at the end of that table's list; one
   * on several tables is AND-ed onto the join expression; one on none is
   * dropped; the table set is empty afterwards.
   */
  lemma AppendConditionFiles(b: Buckets, condition: Expr)
    ensures AppendCondition(b, condition).tablesInvolved == {}
    ensures forall t :: b.tablesInvolved == {t} ==>
      ConditionsFor(AppendCondition(b, condition), t) == ConditionsFor(b, t) + [condition] &&
      (forall u :: u != t ==> ConditionsFor(AppendCondition(b, condition), u) == ConditionsFor(b, u)) &&
      AppendCondition(b, condition).joinExpression == b.joinExpression
    ensures |b.tablesInvolved| > 1 ==>
      AppendCondition(b, condition).tableConditions == b.tableConditions &&
      AppendCondition(b, condition).joinExpression == Some(AppendExpression(b.joinExpression, condition))
    ensures b.tablesInvolved == {} ==>
      AppendCondition(b, condition).tableConditions == b.tableConditions &&
      AppendCondition(b, condition).joinExpression == b.joinExpression
  {
    forall t | b.tablesInvolved == {t}
      ensures Only(b.tablesInvolved) == t
    {
      assert |b.tablesInvolved| == 1;
    }
  }

  /**
   * The traversal: a column adds its table (JSqlParser gives an unqualified
   * column no table, and asking its name fails); a comparison visits its
   * operands and is then filed; AND and OR visit both sides, each filed on
   * its own, and are then filed with whatever tables are left. The class
   * does not override the visit of `!=`, so as written (bucketsNe false) a
   * `!=` comparison collects its operands' tables but is never filed; the
   * corrected processor (bucketsNe true) files it like the other comparisons.
   */
  ghost function Classify(e: Expr, b: Buckets, bucketsNe: bool): Result<Buckets, Error> {
    match e
    case IntLit(_) => Ok(b)
    case Col(table, _) =>
      if table.None? then Err(NullPointer)
      else Ok(b.(tablesInvolved := b.tablesInvolved + {table.value}))
    case Cmp(op, l, r) =>
      var afterLeft :- Classify(l, b, bucketsNe);
      var afterRight :- Classify(r, afterLeft, bucketsNe);
      if op == Ne && !bucketsNe then Ok(afterRight) else Ok(AppendCondition(afterRight, e))
    case And(l, r) =>
      var afterLeft :- Classify(l, b, bucketsNe);
      var afterRight :- Classify(r, afterLeft, bucketsNe);
      Ok(AppendCondition(afterRight, e))
    case Or(l, r) =>
      var afterLeft :- Classify(l, b, bucketsNe);
      var afterRight :- Classify(r, afterLeft, bucketsNe);
      Ok(AppendCondition(afterRight, e))
  }

  // ---------------------------------------------------------------------------
  // What the classification amounts to
  // ---------------------------------------------------------------------------

  /** The tables a condition's qualified columns name. */
  function TablesOf(e: Expr): set<string> {
    match e
    case IntLit(_) => {}
    case Col(table, _) => if table.Some? then {table.value} else {}
    case Cmp(_, l, r) => TablesOf(l) + TablesOf(r)
    case And(l, r) => TablesOf(l) + TablesOf(r)
    case Or(l, r) => TablesOf(l) + TablesOf(r)
  }

  /** An operand the processor accepts: a literal or a qualified column. */
  predicate QualifiedOperand(e: Expr) {
    e.IntLit? || (e.Col? && e.table.Some?)
  }

  /**
   * An AND/OR tree of comparisons between literals and qualified columns,
   * with `!=` allowed only when the processor files it.
   */
  predicate Filable(e: Expr, bucketsNe: bool) {
    match e
    case IntLit(_) => false
    case Col(_, _) => false
    case Cmp(op, l, r) => (op != Ne || bucketsNe) && QualifiedOperand(l) && QualifiedOperand(r)
    case And(l, r) => Filable(l, bucketsNe) && Filable(r, bucketsNe)
    case Or(l, r) => Filable(l, bucketsNe) && Filable(r, bucketsNe)
  }

  /** The comparisons of an AND/OR tree, left to right. */
  function Leaves(e: Expr): seq<Expr> {
    match e
    case IntLit(_) => []
    case Col(_, _) => []
    case Cmp(_, _, _) => [e]
    case And(l, r) => Leaves(l) + Leaves(r)
    case Or(l, r) => Leaves(l) + Leaves(r)
  }

  /** Filing each condition in turn, each with exactly its own tables collected. */
  ghost function FileEach(cs: seq<Expr>, b: Buckets): Buckets {
    if cs == [] then b
    else FileEach(cs[1..], AppendCondition(b.(tablesInvolved := TablesOf(cs[0])), cs[0]))
  }

  lemma {:induction false} FileEachAppend(xs: seq<Expr>, ys: seq<Expr>, b: Buckets)
    ensures FileEach(xs + ys, b) == FileEach(ys, FileEach(xs, b))
  {
    if xs != [] {
      assert (xs + ys)[1..] == xs[1..] + ys;
      FileEachAppend(xs[1..], ys, AppendCondition(b.(tablesInvolved := TablesOf(xs[0])), xs[0]));
    } else {
      assert xs + ys == ys;
    }
  }

  /** Visiting an operand adds exactly its table. */
  lemma OperandTables(e: Expr, b: Buckets, bucketsNe: bool)
    requires QualifiedOperand(e)
    ensures Classify(e, b, bucketsNe) == Ok(b.(tablesInvolved := b.tablesInvolved + TablesOf(e)))
  {
    if e.IntLit? {
      assert b.tablesInvolved + TablesOf(e) == b.tablesInvolved;
    }
  }

  /**
   * Starting from an empty table set, the traversal of a filable tree files
   * each of its comparisons on its own, in order, and files no AND or OR node.
   */
  lemma {:induction false} ClassifyFilesEachComparison(e: Expr, b: Buckets, bucketsNe: bool)
    requires Filable(e, bucketsNe) && b.tablesInvolved == {}
    ensures Classify(e, b, bucketsNe) == Ok(FileEach(Leaves(e), b))
    ensures FileEach(Leaves(e), b).tablesInvolved == {}
  {
    match e
    case Cmp(op, l, r) =>
      OperandTables(l, b, bucketsNe);
      var afterLeft := b.(tablesInvolved := TablesOf(l));
      OperandTables(r, afterLeft, bucketsNe);
      assert Leaves(e)[1..] == [];
      AppendConditionFiles(b.(tablesInvolved := TablesOf(e)), e);
    case And(l, r) =>
      ClassifyFilesEachComparison(l, b, bucketsNe);
      var afterLeft := FileEach(Leaves(l), b);
      ClassifyFilesEachComparison(r, afterLeft, bucketsNe);
      var afterRight := FileEach(Leaves(r), afterLeft);
      FileEachAppend(Leaves(l), Leaves(r), b);
      AppendConditionFiles(afterRight, e);
      assert AppendCondition(afterRight, e) == afterRight;
    case Or(l, r) =>
      ClassifyFilesEachComparison(l, b, bucketsNe);
      var afterLeft := FileEach(Leaves(l), b);
      ClassifyFilesEachComparison(r, afterLeft, bucketsNe);
      var afterRight := FileEach(Leaves(r), afterLeft);
      FileEachAppend(Leaves(l), Leaves(r), b);
      AppendConditionFiles(afterRight, e);
      assert AppendCondition(afterRight, e) == afterRight;
  }

  /** The conditions of cs that mention exactly the table t, in order. */
  function OnTable(cs: seq<Expr>, t: string): seq<Expr> {
    if cs == [] then []
    else (if TablesOf(cs[0]) == {t} then [cs[0]] else []) + OnTable(cs[1..], t)
  }

  /** The conditions of cs that mention more than one table, AND-ed after the existing join expression. */
  function JoinOf(existing: Option<Expr>, cs: seq<Expr>): Option<Expr>
    decreases |cs|
  {
    if cs == [] then existing
    else JoinOf(if |TablesOf(cs[0])| > 1 then Some(AppendExpression(existing, cs[0])) else existing, cs[1..])
  }

  /**
   * Filing conditions one by one leaves each table with its old list followed
   * by the conditions on that table alone, and the join expression with the
   * multi-table conditions AND-ed on in order.
   */
  lemma {:induction false} FileEachContents(cs: seq<Expr>, b: Buckets)
    ensures forall t :: ConditionsFor(FileEach(cs, b), t) == ConditionsFor(b, t) + OnTable(cs, t)
    ensures FileEach(cs, b).joinExpression == JoinOf(b.joinExpression, cs)
  {
    if cs != [] {
      var c := cs[0];
      var b' := AppendCondition(b.(tablesInvolved := TablesOf(c)), c);
      AppendConditionFiles(b.(tablesInvolved := TablesOf(c)), c);
      FileEachContents(cs[1..], b');
      forall t
        ensures ConditionsFor(b', t) == ConditionsFor(b, t) + (if TablesOf(c) == {t} then [c] else [])
      {
        if TablesOf(c) != {t} && |TablesOf(c)| == 1 {
          var u := Only(TablesOf(c));
          assert ConditionsFor(b', t) == ConditionsFor(b.(tablesInvolved := TablesOf(c)), t);
        }
      }
      assert b'.joinExpression == (if |TablesOf(c)| > 1 then Some(AppendExpression(b.joinExpression, c)) else b.joinExpression) by {
        if |TablesOf(c)| == 1 {
          var u := Only(TablesOf(c));
        }
      }
    }
  }

  /**
   * From a fresh processor, a WHERE tree of comparisons leaves under each
   * table exactly the comparisons on that table alone, in clause order, and
   * as join expression the comparisons on several tables, AND-ed left to
   * right; no AND or OR node is filed and no table stays collected. With
   * `!=` filed (the corrected processor) this covers every comparison.
   */
  lemma FiledByTables(e: Expr, bucketsNe: bool)
    requires Filable(e, bucketsNe)
    ensures Classify(e, Initial(), bucketsNe).Ok?
    ensures forall t :: ConditionsFor(Classify(e, Initial(), bucketsNe).value, t) == OnTable(Leaves(e), t)
    ensures Classify(e, Initial(), bucketsNe).value.joinExpression == JoinOf(None, Leaves(e))
    ensures Classify(e, Initial(), bucketsNe).value.tablesInvolved == {}
  {
    ClassifyFilesEachComparison(e, Initial(), bucketsNe);
    FileEachContents(Leaves(e), Initial());
  }

  /**
   * The processor as written loses a `!=` condition: it is filed nowhere and
   * its table stays collected.
   */
  lemma NotEqualsNeverFiled()
    ensures var ne := Cmp(Ne, Col(Some("A"), "x"), IntLit(5));
      Classify(ne, Initial(), false) == Ok(Buckets(map[], None, {"A"})) &&
      Classify(ne, Initial(), true) == Ok(Buckets(map["A" := [ne]], None, {}))
  {
    var ne := Cmp(Ne, Col(Some("A"), "x"), IntLit(5));
    var collected := Buckets(map[], None, {"A"});
    assert Classify(ne, Initial(), true) == Ok(AppendCondition(collected, ne));
    AppendConditionFiles(collected, ne);
    assert Only({"A"}) == "A";
    assert ConditionsFor(collected, "A") + [ne] == [ne];
    assert map[]["A" := [ne]] == map["A" := [ne]];
  }

  /**
   * ...and the leftover table spills into the next comparison: in
   * `A.x != 5 AND B.y = 3` the selection on B is filed as a join condition.
   */
  lemma NotEqualsLeaksIntoNext()
    ensures var ne := Cmp(Ne, Col(Some("A"), "x"), IntLit(5));
      var eq := Cmp(Eq, Col(Some("B"), "y"), IntLit(3));
      Classify(And(ne, eq), Initial(), false) == Ok(Buckets(map[], Some(eq), {}))
  {
    var ne := Cmp(Ne, Col(Some("A"), "x"), IntLit(5));
    var eq := Cmp(Eq, Col(Some("B"), "y"), IntLit(3));
    var collected := Buckets(map[], None, {"A", "B"});
    assert |collected.tablesInvolved| == 2;
    assert Classify(eq, Buckets(map[], None, {"A"}), false) == Ok(AppendCondition(collected, eq));
    AppendConditionFiles(collected, eq);
    AppendConditionFiles(Buckets(map[], Some(eq), {}), And(ne, eq));
  }

  // ---------------------------------------------------------------------------
  // The processor
  // ---------------------------------------------------------------------------

  class WhereClauseProcessor {
    var tableConditions: map<string, seq<Expr>>
    var joinExpression: Option<Expr>
    var tablesInvolved: set<string>

    function State(): Buckets
      reads this
    {
      Buckets(tableConditions, joinExpression, tablesInvolved)
    }

    constructor()
      ensures State() == Initial()
    {
      tableConditions := map[];
      joinExpression := None;
      tablesInvolved := {};
    }

    /** getConditionsForTable: the list filed under the table, or an empty one. */
    method GetConditionsForTable(tableName: string) returns (r: seq<Expr>)
      ensures r == ConditionsFor(State(), tableName)
      ensures tableName !in tableConditions ==> r == []
    {
      if tableName in tableConditions {
        r := tableConditions[tableName];
      } else {
        r := [];
      }
    }

    /** getJoinExpression: the conditions on several tables AND-ed so far, null when there are none. */
    method GetJoinExpression() returns (r: Option<Expr>)
      ensures r == State().joinExpression
    {
      r := joinExpression;
    }

    /** appendCondition. */
    method AppendConditionTo(condition: Expr)
      modifies this
      ensures State() == AppendCondition(old(State()), condition)
    {
      if |tablesInvolved| == 1 {
        var tableName :| tableName in tablesInvolved;
        assert tablesInvolved == {tableName} by {
          assert Only(tablesInvolved) == tableName;
        }
        if tableName !in tableConditions {
          tableConditions := tableConditions[tableName := []];
        }
        tableConditions := tableConditions[tableName := tableConditions[tableName] + [condition]];
      } else if |tablesInvolved| > 1 {
        joinExpression := Some(AppendExpression(joinExpression, condition));
      }
      tablesInvolved := {};
    }

    /**
     * accept(this) on an expression: the visit methods the class overrides,
     * with the library's traversal of the nodes it does not. bucketsNe says
     * whether `!=` is visited like the other comparisons; the class as
     * written does not override that visit (bucketsNe false).
     */
    method Visit(e: Expr, bucketsNe: bool) returns (failure: Option<Error>)
      modifies this
      ensures Classify(e, old(State()), bucketsNe).Ok? ==> failure.None? && State() == Classify(e, old(State()), bucketsNe).value
      ensures Classify(e, old(State()), bucketsNe).Err? ==> failure == Some(Classify(e, old(State()), bucketsNe).error)
      decreases e
    {
      match e
      case IntLit(_) =>
        return None;
      case Col(table, _) =>
        if table.None? {
          return Some(NullPointer);
        }
        tablesInvolved := tablesInvolved + {table.value};
        return None;
      case Cmp(op, l, r) =>
        failure := Visit(l, bucketsNe);
        if failure.Some? {
          return;
        }
        failure := Visit(r, bucketsNe);
        if failure.Some? {
          return;
        }
        if op != Ne || bucketsNe {
          AppendConditionTo(e);
        }
      case And(l, r) =>
        failure := Visit(l, bucketsNe);
        if failure.Some? {
          return;
        }
        failure := Visit(r, bucketsNe);
        if failure.Some? {
          return;
        }
        AppendConditionTo(e);
      case Or(l, r) =>
        failure := Visit(l, bucketsNe);
        if failure.Some? {
          return;
        }
        failure := Visit(r, bucketsNe);
        if failure.Some? {
          return;
        }
        AppendConditionTo(e);
    }
  }
}
