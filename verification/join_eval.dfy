/**
 * JoinEvalExpression: evaluates a join condition over a pair of tuples whose
 * columns are addressed through the schema of their concatenation. Values are
 * Java objects — integers or booleans — and every operand is evaluated, with
 * no short-circuit.
 */
module JoinEvaluation {
  import opened Wrappers
  import opened Errors
  import opened Tuples
  import opened Schemas
  import opened Expressions

  /**
   * The objects evaluateExpression returns: a column value boxed as an
   * Integer, a literal's value boxed as a Long, or a Boolean.
   */
  datatype JValue = JInteger(i: int) | JLong(l: int) | JBool(b: bool)

  /**
   * Two readings of the evaluator. AsWritten is the code as it runs: a
   * literal is a Long, and an AND, being a BinaryExpression in JSqlParser,
   * is sent to evaluateBinaryExpression, which rejects it. Intended is what
   * the code evidently means: literals compare with column values by value,
   * and an AND is evaluated by evaluateAndExpression.
   */
  datatype Reading = AsWritten | Intended

  /**
   * evaluateColumn: the column's position in the combined schema picks the
   * left tuple below the left tuple's size and the right tuple, shifted back
   * by that size, from there on.
   */
  function EvaluateColumn(e: Expr, left: Tuple, right: Tuple, s: Schema): (r: Result<int, Error>)
    requires e.Col?
    ensures GetColumnIndex(s, FullyQualifiedName(e)).None? ==> r == Err(ColumnNotFound(e.name))
    ensures GetColumnIndex(s, FullyQualifiedName(e)).Some? ==>
      var i := GetColumnIndex(s, FullyQualifiedName(e)).value;
      (i < |left.values| ==> r == Ok(left.values[i])) &&
      (|left.values| <= i < |left.values| + |right.values| ==> r == Ok(right.values[i - |left.values|])) &&
      (i >= |left.values| + |right.values| ==> r.Err?)
  {
    match GetColumnIndex(s, FullyQualifiedName(e))
    case None => Err(ColumnNotFound(e.name))
    case Some(i) =>
      if i < |left.values| then GetValueByPos(left, i) else GetValueByPos(right, i - |left.values|)
  }

  /** Boolean.compareTo: false sorts before true. */
  function CompareBools(a: bool, b: bool): int {
    if a == b then 0 else if a then 1 else -1
  }

  /**
   * evaluateBinaryExpression after both operands are evaluated: = and != use
   * equals, so an Integer never equals a Long or a Boolean; the orderings use
   * compareTo, which throws ClassCastException unless both values are of the
   * same class.
   */
  function CompareValues(op: CmpOp, a: JValue, b: JValue): (r: Result<JValue, Error>)
    ensures r.Ok? ==> r.value.JBool?
    ensures a.JInteger? && b.JInteger? ==> r == Ok(JBool(CmpHolds(op, a.i, b.i)))
    ensures a.JLong? && b.JLong? ==> r == Ok(JBool(CmpHolds(op, a.l, b.l)))
    ensures (op == Eq || op == Ne) && a.JInteger? && !b.JInteger? ==> r == Ok(JBool(op == Ne))
    ensures (op == Eq || op == Ne) && a.JLong? && !b.JLong? ==> r == Ok(JBool(op == Ne))
    ensures op != Eq && op != Ne && (a.JInteger? != b.JInteger? || a.JLong? != b.JLong?) ==> r == Err(ClassCast)
  {
    match op
    case Eq => Ok(JBool(a == b))
    case Ne => Ok(JBool(a != b))
    case _ =>
      var c :-
        if a.JInteger? && b.JInteger? then Ok(Compare(a.i, b.i))
        else if a.JLong? && b.JLong? then Ok(Compare(a.l, b.l))
        else if a.JBool? && b.JBool? then Ok(CompareBools(a.b, b.b))
        else Err(ClassCast);
      Ok(JBool(match op
        case Gt => c > 0
        case Ge => c >= 0
        case Lt => c < 0
        case _ => c <= 0))
  }

  /**
   * evaluateExpression: a literal is its value, a column its value; a
   * comparison evaluates both operands then compares; OR evaluates both
   * sides and is then rejected as an unsupported binary expression, and so
   * is AND as written. Read as intended, AND evaluates and casts its left
   * side, then its right side, and conjoins.
   */
  function EvaluateExpression(e: Expr, left: Tuple, right: Tuple, s: Schema, reading: Reading): (r: Result<JValue, Error>)
    ensures e.IntLit? ==> r == Ok(if reading == AsWritten then JLong(e.value) else JInteger(e.value))
    ensures e.Col? ==> r.Ok? == EvaluateColumn(e, left, right, s).Ok?
    ensures e.Cmp? && r.Ok? ==> r.value.JBool?
    ensures e.And? && r.Ok? ==> reading.Intended? && r.value.JBool?
    ensures e.Or? ==> r.Err?
  {
    match e
    case IntLit(v) => Ok(if reading == AsWritten then JLong(v) else JInteger(v))
    case Col(_, _) =>
      var v :- EvaluateColumn(e, left, right, s);
      Ok(JInteger(v))
    case Cmp(op, l, r) =>
      var lv :- EvaluateExpression(l, left, right, s, reading);
      var rv :- EvaluateExpression(r, left, right, s, reading);
      CompareValues(op, lv, rv)
    case And(l, r) =>
      (match reading
      case AsWritten =>
        var _ :- EvaluateExpression(l, left, right, s, reading);
        var _ :- EvaluateExpression(r, left, right, s, reading);
        Err(UnsupportedExpression)
      case Intended =>
        var lv :- EvaluateExpression(l, left, right, s, reading);
        var leftResult :- if lv.JBool? then Ok(lv.b) else Err(ClassCast);
        var rv :- EvaluateExpression(r, left, right, s, reading);
        var rightResult :- if rv.JBool? then Ok(rv.b) else Err(ClassCast);
        Ok(JBool(leftResult && rightResult)))
    case Or(l, r) =>
      var _ :- EvaluateExpression(l, left, right, s, reading);
      var _ :- EvaluateExpression(r, left, right, s, reading);
      Err(UnsupportedExpression)
  }

  /**
   * evaluate: no condition accepts every pair (the cross product); otherwise
   * the condition's value, which must be a Boolean.
   */
  function EvaluateAs(reading: Reading, condition: Option<Expr>, left: Tuple, right: Tuple, s: Schema): (r: Result<bool, Error>)
    ensures condition.None? ==> r == Ok(true)
    ensures condition.Some? && EvaluateExpression(condition.value, left, right, s, reading).Ok? ==>
      (r.Ok? <==> EvaluateExpression(condition.value, left, right, s, reading).value.JBool?)
    ensures condition.Some? && EvaluateExpression(condition.value, left, right, s, reading).Err? ==>
      r == Err(EvaluateExpression(condition.value, left, right, s, reading).error)
  {
    match condition
    case None => Ok(true)
    case Some(e) =>
      var v :- EvaluateExpression(e, left, right, s, reading);
      if v.JBool? then Ok(v.b) else Err(NotBoolean)
  }

  /** The join condition as the rest of this model evaluates it: the intended reading. */
  function Evaluate(condition: Option<Expr>, left: Tuple, right: Tuple, s: Schema): Result<bool, Error> {
    EvaluateAs(Intended, condition, left, right, s)
  }

  /** The pair as one tuple: the left values followed by the right values. */
  function Concat(left: Tuple, right: Tuple): (t: Tuple)
    ensures |t.values| == |left.values| + |right.values|
    ensures forall k :: 0 <= k < |left.values| ==> t.values[k] == left.values[k]
    ensures forall k :: 0 <= k < |right.values| ==> t.values[|left.values| + k] == right.values[k]
  {
    Tuple(left.values + right.values)
  }

  predicate NoOr(e: Expr) {
    match e
    case Or(_, _) => false
    case Cmp(_, l, r) => NoOr(l) && NoOr(r)
    case And(l, r) => NoOr(l) && NoOr(r)
    case _ => true
  }

  /** Read as intended, an operand evaluates to its value on the concatenated tuple. */
  lemma {:induction false} ColumnAgrees(e: Expr, left: Tuple, right: Tuple, s: Schema)
    requires (e.IntLit? || e.Col?) && Resolvable(e, Concat(left, right), s)
    ensures EvaluateExpression(e, left, right, s, Intended) == Ok(JInteger(ValueOf(e, Concat(left, right), s).value))
  {
    if e.Col? {
      var i := GetColumnIndex(s, FullyQualifiedName(e)).value;
      if i >= |left.values| {
        assert Concat(left, right).values[i] == right.values[i - |left.values|];
      }
    }
  }

  /**
   * The join evaluator, read as intended, and the single-tuple meaning
   * agree: for an OR-free condition whose columns all resolve in the
   * concatenated tuple, evaluating it over the pair gives its truth value
   * on the concatenation.
   */
  lemma {:induction false} EvaluateAgreesOnConcat(e: Expr, left: Tuple, right: Tuple, s: Schema)
    requires IsCondition(e) && NoOr(e) && Resolvable(e, Concat(left, right), s)
    ensures EvaluateExpression(e, left, right, s, Intended) == Ok(JBool(Holds(e, Concat(left, right), s)))
  {
    match e
    case Cmp(op, l, r) =>
      ColumnAgrees(l, left, right, s);
      ColumnAgrees(r, left, right, s);
    case And(l, r) =>
      EvaluateAgreesOnConcat(l, left, right, s);
      EvaluateAgreesOnConcat(r, left, right, s);
  }

  /** Hence a join condition accepts a pair exactly when the condition holds of the concatenated tuple. */
  lemma JoinConditionMeaning(e: Expr, left: Tuple, right: Tuple, s: Schema)
    requires IsCondition(e) && NoOr(e) && Resolvable(e, Concat(left, right), s)
    ensures Evaluate(Some(e), left, right, s) == Ok(Holds(e, Concat(left, right), s))
  {
    EvaluateAgreesOnConcat(e, left, right, s);
  }

  /** evaluateAndExpression does not short-circuit: a false left side does not hide an error on the right. */
  lemma AndEvaluatesBothSides(l: Expr, r: Expr, left: Tuple, right: Tuple, s: Schema)
    requires EvaluateExpression(l, left, right, s, Intended) == Ok(JBool(false))
    requires EvaluateExpression(r, left, right, s, Intended).Err?
    ensures EvaluateExpression(And(l, r), left, right, s, Intended) == Err(EvaluateExpression(r, left, right, s, Intended).error)
  {
  }

  /** A comparison of two columns. */
  predicate ColumnComparison(e: Expr): (b: bool)
    ensures b ==> IsCondition(e) && NoOr(e)
  {
    e.Cmp? && e.left.Col? && e.right.Col?
  }

  /** Between columns alone the two readings agree, both values being Integers. */
  lemma ColumnComparisonReadings(e: Expr, left: Tuple, right: Tuple, s: Schema)
    requires ColumnComparison(e)
    ensures EvaluateExpression(e, left, right, s, AsWritten) == EvaluateExpression(e, left, right, s, Intended)
  {
  }

  /**
   * As written, a join on two conditions — A.x = B.y AND A.z = B.w — throws
   * "Unsupported binary expression type" on every pair, where the intended
   * reading gives the conjunction's truth value.
   */
  lemma TwoConditionJoinRejected(l: Expr, r: Expr, left: Tuple, right: Tuple, s: Schema)
    requires ColumnComparison(l) && ColumnComparison(r)
    requires Resolvable(And(l, r), Concat(left, right), s)
    ensures EvaluateAs(AsWritten, Some(And(l, r)), left, right, s) == Err(UnsupportedExpression)
    ensures EvaluateAs(Intended, Some(And(l, r)), left, right, s) == Ok(Holds(And(l, r), Concat(left, right), s))
  {
    JoinConditionMeaning(And(l, r), left, right, s);
    ColumnComparisonReadings(l, left, right, s);
    ColumnComparisonReadings(r, left, right, s);
  }

  /**
   * As written, a column compared with a literal holding its very value is
   * not equal to it (an Integer never equals a Long), and ordering the two
   * throws ClassCastException; the intended reading finds them equal.
   */
  lemma ColumnAgainstLiteral(c: Expr, v: int, left: Tuple, right: Tuple, s: Schema, op: CmpOp)
    requires c.Col? && ValueOf(c, Concat(left, right), s) == Some(v)
    ensures EvaluateAs(AsWritten, Some(Cmp(Eq, c, IntLit(v))), left, right, s) == Ok(false)
    ensures EvaluateAs(Intended, Some(Cmp(Eq, c, IntLit(v))), left, right, s) == Ok(true)
    ensures op != Eq && op != Ne ==> EvaluateAs(AsWritten, Some(Cmp(op, c, IntLit(v))), left, right, s) == Err(ClassCast)
  {
    assert Resolvable(c, Concat(left, right), s);
    ColumnAgrees(c, left, right, s);
    assert EvaluateExpression(c, left, right, s, AsWritten) == EvaluateExpression(c, left, right, s, Intended);
  }
}
