/**
 * WHERE-clause expressions as the engine sees them after parsing: integer
 * literals, column references, the six comparisons, AND and OR; together
 * with their intended meaning over one tuple.
 */
module Expressions {
  import opened Wrappers
  import opened Tuples
  import opened Schemas

  datatype CmpOp = Eq | Ne | Lt | Le | Gt | Ge

  datatype Expr =
    | IntLit(value: int)
    | Col(table: Option<string>, name: string)   // table is the qualifier written in the query, if any
    | Cmp(op: CmpOp, left: Expr, right: Expr)
    | And(left: Expr, right: Expr)
    | Or(left: Expr, right: Expr)

  /** Column.getFullyQualifiedName: "table.name" when qualified, else the bare name. */
  function FullyQualifiedName(e: Expr): (n: string)
    requires e.Col?
    ensures e.table.Some? ==> n == Qualify(e.table.value, e.name)
    ensures e.table.None? ==> n == e.name
  {
    match e.table
    case Some(t) => Qualify(t, e.name)
    case None => e.name
  }

  /** The comparison each operator stands for. */
  predicate CmpHolds(op: CmpOp, a: int, b: int) {
    match op
    case Eq => a == b
    case Ne => a != b
    case Lt => a < b
    case Le => a <= b
    case Gt => a > b
    case Ge => a >= b
  }

  /** The fully qualified names of the columns of e, left before right (extractColumnNames). */
  function ColumnNames(e: Expr): (names: seq<string>)
    ensures e.IntLit? ==> names == []
    ensures e.Col? ==> names == [FullyQualifiedName(e)]
    ensures !e.IntLit? && !e.Col? ==> names == ColumnNames(e.left) + ColumnNames(e.right)
  {
    match e
    case IntLit(_) => []
    case Col(_, _) => [FullyQualifiedName(e)]
    case Cmp(_, l, r) => ColumnNames(l) + ColumnNames(r)
    case And(l, r) => ColumnNames(l) + ColumnNames(r)
    case Or(l, r) => ColumnNames(l) + ColumnNames(r)
  }

  /** The value a literal or a column of t denotes, or None for a column the schema or the tuple lacks. */
  function ValueOf(e: Expr, t: Tuple, s: Schema): Option<int>
    requires e.IntLit? || e.Col?
  {
    if e.IntLit? then Some(e.value)
    else
      match GetColumnIndex(s, FullyQualifiedName(e))
      case Some(i) => if i < |t.values| then Some(t.values[i]) else None
      case None => None
  }

  /** A condition: comparisons between literals and columns, combined with AND and OR. */
  predicate IsCondition(e: Expr) {
    match e
    case Cmp(_, l, r) => (l.IntLit? || l.Col?) && (r.IntLit? || r.Col?)
    case And(l, r) => IsCondition(l) && IsCondition(r)
    case Or(l, r) => IsCondition(l) && IsCondition(r)
    case _ => false
  }

  /** Every column e mentions names a position of the schema that t has. */
  predicate Resolvable(e: Expr, t: Tuple, s: Schema) {
    match e
    case IntLit(_) => ValueOf(e, t, s).Some?
    case Col(_, _) => ValueOf(e, t, s).Some?
    case Cmp(_, l, r) => Resolvable(l, t, s) && Resolvable(r, t, s)
    case And(l, r) => Resolvable(l, t, s) && Resolvable(r, t, s)
    case Or(l, r) => Resolvable(l, t, s) && Resolvable(r, t, s)
  }

  lemma OperandResolves(e: Expr, t: Tuple, s: Schema)
    requires (e.IntLit? || e.Col?) && Resolvable(e, t, s)
    ensures ValueOf(e, t, s).Some?
  {
  }

  /** What a condition means for one tuple: ordinary two-valued logic, no evaluation order. */
  predicate Holds(e: Expr, t: Tuple, s: Schema)
    requires IsCondition(e) && Resolvable(e, t, s)
  {
    match e
    case Cmp(op, l, r) =>
      OperandResolves(l, t, s);
      OperandResolves(r, t, s);
      CmpHolds(op, ValueOf(l, t, s).value, ValueOf(r, t, s).value)
    case And(l, r) => Holds(l, t, s) && Holds(r, t, s)
    case Or(l, r) => Holds(l, t, s) || Holds(r, t, s)
  }

  /** Every column of a resolvable expression is one the schema has. */
  lemma {:induction false} ResolvableColumnsInSchema(e: Expr, t: Tuple, s: Schema)
    requires Resolvable(e, t, s)
    ensures forall k :: 0 <= k < |ColumnNames(e)| ==> HasColumn(s, ColumnNames(e)[k])
  {
    match e
    case IntLit(_) =>
    case Col(_, _) =>
    case Cmp(_, l, r) =>
      ResolvableColumnsInSchema(l, t, s);
      ResolvableColumnsInSchema(r, t, s);
    case And(l, r) =>
      ResolvableColumnsInSchema(l, t, s);
      ResolvableColumnsInSchema(r, t, s);
    case Or(l, r) =>
      ResolvableColumnsInSchema(l, t, s);
      ResolvableColumnsInSchema(r, t, s);
  }
}
