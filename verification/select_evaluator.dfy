/**
 * SelectEvaluator: evaluates a WHERE condition over one tuple by visiting the
 * expression tree. The visitor's boolean `result` field is threaded through
 * the evaluation as a parameter; AND and OR stop after their left side when it
 * decides the answer.
 */
module SelectEvaluation {
  import opened Wrappers
  import opened Errors
  import opened Tuples
  import opened Schemas
  import opened Expressions

  /**
   * The numeric value of a comparison operand: a literal's value, or the
   * tuple's value at the column's schema position. An unknown column raises
   * "Column not found"; a position past the tuple's end raises the list's
   * index error; an operand that leaves no number behind cannot be parsed.
   */
  function Operand(e: Expr, t: Tuple, s: Schema): (r: Result<int, Error>)
    ensures (e.IntLit? || e.Col?) ==> (r.Ok? <==> ValueOf(e, t, s).Some?)
    ensures (e.IntLit? || e.Col?) && r.Ok? ==> r.value == ValueOf(e, t, s).value
    ensures (e.IntLit? || e.Col?) && Resolvable(e, t, s) ==> r == Ok(ValueOf(e, t, s).value)
    ensures e.Col? && GetColumnIndex(s, FullyQualifiedName(e)).None? ==>
      r == Err(ColumnNotFound(FullyQualifiedName(e)))
  {
    match e
    case IntLit(v) => Ok(v)
    case Col(_, _) =>
      var name := FullyQualifiedName(e);
      (match GetColumnIndex(s, name)
       case None => Err(ColumnNotFound(name))
       case Some(i) => if i < |t.values| then Ok(t.values[i]) else Err(IndexOutOfBounds(i)))
    case _ => Err(NumberFormat(""))
  }

  /**
   * One visit of e, starting from the visitor's current result: a comparison
   * sets the result from its two operands; AND keeps false without visiting
   * its right side; OR keeps true without visiting its right side; a bare
   * column is resolved and, like a bare literal, leaves the result as it was.
   * For a condition whose columns all resolve, the outcome is the condition's
   * truth value whatever the starting result was.
   */
  function Visit(e: Expr, t: Tuple, s: Schema, result: bool): (r: Result<bool, Error>)
    ensures IsCondition(e) && Resolvable(e, t, s) ==> r == Ok(Holds(e, t, s))
    ensures e.IntLit? ==> r == Ok(result)
  {
    match e
    case IntLit(_) => Ok(result)
    case Col(_, _) =>
      var _ :- Operand(e, t, s);
      Ok(result)
    case Cmp(op, l, r) =>
      var lv :- Operand(l, t, s);
      var rv :- Operand(r, t, s);
      Ok(CmpHolds(op, lv, rv))
    case And(l, r) =>
      var leftResult :- Visit(l, t, s, result);
      if !leftResult then Ok(leftResult) else Visit(r, t, s, leftResult)
    case Or(l, r) =>
      var leftResult :- Visit(l, t, s, result);
      if leftResult then Ok(leftResult) else Visit(r, t, s, leftResult)
  }

  /** The evaluator's answer for a tuple: a fresh visitor's result starts false. */
  function Evaluate(e: Expr, t: Tuple, s: Schema): (r: Result<bool, Error>)
    ensures IsCondition(e) && Resolvable(e, t, s) ==> r == Ok(Holds(e, t, s))
  {
    Visit(e, t, s, false)
  }

  /** AND whose left side is false answers false without visiting its right side. */
  lemma AndShortCircuit(l: Expr, r1: Expr, r2: Expr, t: Tuple, s: Schema, result: bool)
    requires Visit(l, t, s, result) == Ok(false)
    ensures Visit(And(l, r1), t, s, result) == Ok(false)
    ensures Visit(And(l, r1), t, s, result) == Visit(And(l, r2), t, s, result)
  {
  }

  /** AND whose left side is true answers whatever its right side answers. */
  lemma AndContinues(l: Expr, r: Expr, t: Tuple, s: Schema, result: bool)
    requires Visit(l, t, s, result) == Ok(true)
    ensures Visit(And(l, r), t, s, result) == Visit(r, t, s, true)
  {
  }

  /** OR whose left side is true answers true without visiting its right side. */
  lemma OrShortCircuit(l: Expr, r1: Expr, r2: Expr, t: Tuple, s: Schema, result: bool)
    requires Visit(l, t, s, result) == Ok(true)
    ensures Visit(Or(l, r1), t, s, result) == Ok(true)
    ensures Visit(Or(l, r1), t, s, result) == Visit(Or(l, r2), t, s, result)
  {
  }

  /** OR whose left side is false answers whatever its right side answers. */
  lemma OrContinues(l: Expr, r: Expr, t: Tuple, s: Schema, result: bool)
    requires Visit(l, t, s, result) == Ok(false)
    ensures Visit(Or(l, r), t, s, result) == Visit(r, t, s, false)
  {
  }

  /** A comparison whose left column the schema does not know raises "Column not found" for it. */
  lemma ComparisonColumnNotFound(op: CmpOp, c: Expr, right: Expr, t: Tuple, s: Schema, result: bool)
    requires c.Col? && GetColumnIndex(s, FullyQualifiedName(c)).None?
    ensures Visit(Cmp(op, c, right), t, s, result) == Err(ColumnNotFound(FullyQualifiedName(c)))
  {
  }
}
