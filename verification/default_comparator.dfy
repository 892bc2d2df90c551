/**
 * The handlers of the default comparator: each turns an operator applied
 * to a column expression into an expression-tree node, or into the
 * exception the handler raises.
 */
module DefaultComparator {
  import opened Wrappers
  import opened Types
  import opened Operators
  import opened Elements

  /**
   * The comparator's `_adapt_expression`: given the operator and the two
   * operands in their final order, the (possibly different) operator and
   * the result type of the node. Its rules depend on the operand types
   * and are not part of this model.
   */
  type Adapter = (Op, Expr, Expr) -> (Op, SqlType)

  // ---------------------------------------------------------------------
  // _boolean_compare
  // ---------------------------------------------------------------------

  /** The constant is compared literally and the operator is kept. */
  predicate KeepsOperator(op: Op, obj: Operand) {
    IsSpecialConstant(obj) &&
    ((EqualityOp(op) && IsBooleanConstant(obj)) || DistinctFromOp(op))
  }

  /** The comparison against a constant is rewritten to IS / IS NOT. */
  predicate RewritesToIs(op: Op, obj: Operand, anyAllExpr: bool) {
    IsSpecialConstant(obj) && !KeepsOperator(op, obj) && !anyAllExpr &&
    (MeansIs(op) || MeansIsNot(op))
  }

  /** The operand is coerced and ordered according to `reverse`. */
  predicate GeneralPath(op: Op, obj: Operand, anyAllExpr: bool) {
    !IsSpecialConstant(obj) || (!KeepsOperator(op, obj) && anyAllExpr)
  }

  /** A binary node with the operands in the order `reverse` asks for. */
  function OrderedBinary(expr: Expr, obj: Expr, op: Op, negate: Option<Op>, reverse: bool,
                         t: SqlType, kw: Kw): Expr
  {
    if reverse then Binary(obj, expr, op, negate, Some(t), kw)
    else Binary(expr, obj, op, negate, Some(t), kw)
  }

  /**
   * `_boolean_compare`: a comparison. Against None/True/False/NULL only
   * the operators of `ConstantOp` are accepted; `=`/`!=` against
   * None/NULL become IS / IS NOT; everything else keeps its operator and
   * the caller's negation.
   */
  function BooleanCompare(expr: Element, op: Op, obj: Operand, negateOp: Option<Op>,
                          reverse: bool, anyAllExpr: bool, resultType: Option<SqlType>,
                          kw: Kw): (r: Result)
    // error cases: exactly an unsupported operator against a constant
    ensures r.ArgumentError? <==> IsSpecialConstant(obj) && !anyAllExpr && !ConstantOp(op)
    ensures !r.NotImplementedError?
    // the node is binary and typed, Boolean unless a type is given
    ensures r.Ok? ==> r.expr.Binary? && r.expr.resultType == Some(resultType.GetOr(BooleanType))
    // its operands are the expression and the coerced operand
    ensures r.Ok? ==>
      var role := if GeneralPath(op, obj, anyAllExpr) && !IsSpecialConstant(obj)
                  then BinaryElementRole else ConstExprRole;
      (r.expr.left == Elem(expr) && r.expr.right == Coerced(role, obj)) ||
      (r.expr.left == Coerced(role, obj) && r.expr.right == Elem(expr))
    // the expression is on the left unless the general path is reversed
    ensures r.Ok? ==> (r.expr.left == Elem(expr) <==> !(reverse && GeneralPath(op, obj, anyAllExpr)))
    // the operator changes only when = / != meet None or NULL
    ensures r.Ok? ==> (r.expr.operator != op <==> IsNullConstant(obj) && !anyAllExpr && EqualityOp(op))
    // the caller's negation and keywords survive except on the IS path
    ensures r.Ok? && !RewritesToIs(op, obj, anyAllExpr) ==>
      r.expr.negate == negateOp && r.expr.modifiers == kw
    ensures r.Ok? && RewritesToIs(op, obj, anyAllExpr) ==>
      r.expr.negate.Some? && r.expr.negate.value != r.expr.operator && r.expr.modifiers == map[]
    ensures r.Ok? && RewritesToIs(op, obj, anyAllExpr) ==> (r.expr.operator == Is <==> MeansIs(op))
    ensures r.Ok? && RewritesToIs(op, obj, anyAllExpr) ==>
      (r.expr.operator == Is && r.expr.negate == Some(IsNot)) ||
      (r.expr.operator == IsNot && r.expr.negate == Some(Is))
  {
    var t := resultType.GetOr(BooleanType);
    if IsSpecialConstant(obj) then
      if EqualityOp(op) && IsBooleanConstant(obj) then
        Ok(Binary(Elem(expr), Coerced(ConstExprRole, obj), op, negateOp, Some(t), kw))
      else if DistinctFromOp(op) then
        Ok(Binary(Elem(expr), Coerced(ConstExprRole, obj), op, negateOp, Some(t), kw))
      else if anyAllExpr then
        Ok(OrderedBinary(Elem(expr), Coerced(ConstExprRole, obj), op, negateOp, reverse, t, kw))
      else if MeansIs(op) then
        Ok(Binary(Elem(expr), Coerced(ConstExprRole, obj), Is, Some(IsNot), Some(t), map[]))
      else if MeansIsNot(op) then
        Ok(Binary(Elem(expr), Coerced(ConstExprRole, obj), IsNot, Some(Is), Some(t), map[]))
      else
        ArgumentError
    else
      Ok(OrderedBinary(Elem(expr), Coerced(BinaryElementRole, obj), op, negateOp, reverse, t, kw))
  }

  // ---------------------------------------------------------------------
  // _custom_op_operate and _binary_operate
  // ---------------------------------------------------------------------

  /**
   * Against an operand that is not a constant, `_boolean_compare` without
   * `reverse` builds the plain comparison: the expression, then the operand
   * coerced as a binary element, with the caller's operator, negation and
   * keywords, typed Boolean unless a type was given.
   */
  lemma PlainComparison(expr: Element, op: Op, obj: Operand, negateOp: Option<Op>,
                        resultType: Option<SqlType>, kw: Kw)
    ensures !IsSpecialConstant(obj) ==>
      BooleanCompare(expr, op, obj, negateOp, false, false, resultType, kw)
      == Ok(Binary(Elem(expr), Coerced(BinaryElementRole, obj), op, negateOp,
                   Some(resultType.GetOr(BooleanType)), kw))
  {
  }

  /** The result type `_custom_op_operate` hands on to `_binary_operate`. */
  function CustomOpResultType(op: Op, resultType: Option<SqlType>): (r: Option<SqlType>)
    requires op.CustomOp?
    ensures resultType.Some? ==> r == resultType
    ensures resultType.None? && op.returnType.Some? ==> r == op.returnType
    ensures resultType.None? && op.returnType.None? ==>
      (r.Some? <==> op.isComparison) && (r.Some? ==> r.value == BooleanType)
  {
    if resultType.None? then
      if op.returnType.Some? then op.returnType
      else if op.isComparison then Some(BooleanType)
      else None
    else resultType
  }

  /**
   * `_binary_operate`: the operand is coerced, the two sides are ordered
   * by `reverse`, and the operator and type are adapted only when no
   * result type was given. The node carries no negation.
   */
  function BinaryOperate(expr: Element, op: Op, obj: Operand, reverse: bool,
                         resultType: Option<SqlType>, kw: Kw, adapt: Adapter): (r: Expr)
    ensures r.Binary? && r.negate.None? && r.resultType.Some? && r.modifiers == kw
    ensures reverse ==> r.left == Coerced(BinaryElementRole, obj) && r.right == Elem(expr)
    ensures !reverse ==> r.left == Elem(expr) && r.right == Coerced(BinaryElementRole, obj)
    ensures resultType.Some? ==> r.operator == op && r.resultType == resultType
    ensures resultType.None? ==> (r.operator, r.resultType.value) == adapt(op, r.left, r.right)
  {
    var coerced := Coerced(BinaryElementRole, obj);
    var left := if reverse then coerced else Elem(expr);
    var right := if reverse then Elem(expr) else coerced;
    if resultType.None? then
      var adapted := adapt(op, left, right);
      Binary(left, right, adapted.0, None, Some(adapted.1), kw)
    else
      Binary(left, right, op, None, resultType, kw)
  }

  /** `_custom_op_operate`: a binary node typed by the custom operator's declaration. */
  function CustomOpOperate(expr: Element, op: Op, obj: Operand, reverse: bool,
                           resultType: Option<SqlType>, kw: Kw, adapt: Adapter): (r: Expr)
    requires op.CustomOp?
    ensures r.Binary? && r.negate.None? && r.resultType.Some? && r.modifiers == kw
    ensures reverse ==> r.left == Coerced(BinaryElementRole, obj) && r.right == Elem(expr)
    ensures !reverse ==> r.left == Elem(expr) && r.right == Coerced(BinaryElementRole, obj)
    ensures resultType.Some? || op.returnType.Some? || op.isComparison ==> r.operator == op
    ensures resultType.Some? ==> r.resultType == resultType
    ensures resultType.None? && op.returnType.Some? ==> r.resultType == op.returnType
    ensures resultType.None? && op.returnType.None? && op.isComparison ==>
      r.resultType == Some(BooleanType)
    ensures resultType.None? && op.returnType.None? && !op.isComparison ==>
      (r.operator, r.resultType.value) == adapt(op, r.left, r.right)
  {
    BinaryOperate(expr, op, obj, reverse, CustomOpResultType(op, resultType), kw, adapt)
  }

  // ---------------------------------------------------------------------
  // the remaining handlers
  // ---------------------------------------------------------------------

  /** `_conjunction_operate`: AND / OR, anything else is not implemented. */
  function ConjunctionOperate(expr: Element, op: Op, other: Operand): (r: Result)
    ensures r.NotImplementedError? <==> op != And && op != Or
    ensures !r.ArgumentError?
    ensures r.Ok? ==> r.expr == Conjunction(op, Elem(expr), other)
  {
    if op == And then Ok(Conjunction(And, Elem(expr), other))
    else if op == Or then Ok(Conjunction(Or, Elem(expr), other))
    else NotImplementedError
  }

  /** `_scalar`: applies the factory function the table supplies. */
  function Scalar(expr: Element, fn: Ctor): Expr {
    Created(fn, Elem(expr))
  }

  /**
   * `_in_impl`: the collection is coerced as an IN element; an `in_ops`
   * annotation on the coerced element, modelled as `inOps`, replaces both
   * the operator and its negation.
   */
  function InImpl(expr: Element, op: Op, seqOrSelectable: Operand, negateOp: Op,
                  inOps: Option<(Op, Op)>, kw: Kw): (r: Result)
    ensures r.Ok? && r.expr.Binary?
    ensures r.expr.left == Elem(expr)
    ensures r.expr.right == Coerced(BinaryElementRole, Clause(Coerced(InElementRole, seqOrSelectable)))
    ensures inOps.None? ==> r.expr.operator == op && r.expr.negate == Some(negateOp)
    ensures inOps.Some? ==> r.expr.operator == inOps.value.0 && r.expr.negate == Some(inOps.value.1)
    ensures r.expr.resultType == Some(BooleanType) && r.expr.modifiers == kw
  {
    var coerced := Coerced(InElementRole, seqOrSelectable);
    var ops := if inOps.Some? then inOps.value else (op, negateOp);
    BooleanCompare(expr, ops.0, Clause(coerced), Some(ops.1), false, false, None, kw)
  }

  /** `_unsupported_impl`: always raises. */
  function UnsupportedImpl(expr: Element, op: Op): (r: Result)
    ensures r.NotImplementedError?
  {
    NotImplementedError
  }

  /**
   * `_getitem_impl`: indexing is a binary operation on indexable types
   * and unsupported on all others.
   */
  function GetItemImpl(expr: Element, op: Op, other: Operand, reverse: bool,
                       resultType: Option<SqlType>, kw: Kw, adapt: Adapter): (r: Result)
    ensures r.NotImplementedError? <==> !IsIndexable(expr.sqlType)
    ensures !r.ArgumentError?
    ensures r.Ok? ==> r.expr.Binary? && r.expr.negate.None? && r.expr.resultType.Some?
    ensures r.Ok? ==> r.expr.modifiers == kw
    ensures r.Ok? ==>
      var c := Coerced(BinaryElementRole, Clause(Coerced(BinaryElementRole, other)));
      if reverse then r.expr.left == c && r.expr.right == Elem(expr)
      else r.expr.left == Elem(expr) && r.expr.right == c
    ensures r.Ok? && resultType.Some? ==> r.expr.operator == op && r.expr.resultType == resultType
    ensures r.Ok? && resultType.None? ==>
      (r.expr.operator, r.expr.resultType.value) == adapt(op, r.expr.left, r.expr.right)
  {
    if IsIndexable(expr.sqlType) then
      var coerced := Coerced(BinaryElementRole, other);
      Ok(BinaryOperate(expr, op, Clause(coerced), reverse, resultType, kw, adapt))
    else
      UnsupportedImpl(expr, op)
  }

  /**
   * `_inv_impl`: an expression's own `negation_clause` wins; otherwise the
   * expression negates itself. A binary node with a recorded negation
   * negates by exchanging its operator and its negation; any other
   * expression negates opaquely.
   */
  function InvImpl(e: Expr): (r: Expr)
    ensures IsNegatableBinary(e) ==>
      IsNegatableBinary(r) && r.left == e.left && r.right == e.right &&
      r.operator == e.negate.value && r.negate == Some(e.operator) &&
      r.resultType == e.resultType && r.modifiers == e.modifiers
    ensures e.Elem? && e.element.negationClause.Some? ==> r == e.element.negationClause.value
  {
    match e
    case Elem(el) =>
      if el.negationClause.Some? then el.negationClause.value else Inverted(e)
    case Binary(l, rt, op, neg, t, m) =>
      if neg.Some? then Binary(l, rt, neg.value, Some(op), t, m) else Inverted(e)
    case _ => Inverted(e)
  }

  /** Negating a negatable binary node twice gives it back. */
  lemma InvImplInvolution(e: Expr)
    requires IsNegatableBinary(e)
    ensures InvImpl(InvImpl(e)) == e
  {
  }

  /**
   * `~` applied `k` times to a negatable binary node: an even number of
   * negations gives the node back, an odd number its negation.
   */
  function InvRepeat(e: Expr, k: nat): (r: Expr)
    requires IsNegatableBinary(e)
    ensures IsNegatableBinary(r)
    ensures k % 2 == 0 ==> r == e
    ensures k % 2 == 1 ==> r == InvImpl(e)
  {
    if k == 0 then e else InvImpl(InvRepeat(e, k - 1))
  }

  /** `_neg_impl`: unary minus, keeping the expression's type, whatever `op` was. */
  function NegImpl(expr: Element, op: Op): (r: Expr)
    ensures r.Unary? && r.inner == Elem(expr)
    ensures r.operator == Neg && r.unaryType == expr.sqlType
  {
    Unary(Elem(expr), Neg, expr.sqlType)
  }

  /** `_distinct_impl`: DISTINCT, keeping the expression's type, whatever `op` was. */
  function DistinctImpl(expr: Element, op: Op): (r: Expr)
    ensures r.Unary? && r.inner == Elem(expr)
    ensures r.operator == DistinctOp && r.unaryType == expr.sqlType
  {
    Unary(Elem(expr), DistinctOp, expr.sqlType)
  }

  /** The negation a toggling handler records: `negated` when called with `positive`, else `positive`. */
  function Toggle(op: Op, positive: Op, negated: Op): Op {
    if op == positive then negated else positive
  }

  /**
   * `_match_impl`: always a MATCH node typed `MATCHTYPE`; the negation is
   * NOT MATCH when called with `match_op`, else MATCH.
   */
  function MatchImpl(expr: Element, op: Op, other: Operand, kw: Kw): (r: Result)
    ensures r.Ok? && r.expr.Binary?
    ensures r.expr.operator == MatchOp && r.expr.resultType == Some(MatchType)
    ensures r.expr.negate == Some(if op == MatchOp then NotMatchOp else MatchOp)
    ensures r.expr.left == Elem(expr)
    ensures r.expr.right == Coerced(BinaryElementRole, Clause(Coerced(BinaryElementRole, other)))
    ensures r.expr.modifiers == kw
  {
    var coerced := Coerced(BinaryElementRole, other);
    BooleanCompare(expr, MatchOp, Clause(coerced), Some(Toggle(op, MatchOp, NotMatchOp)),
                   false, false, Some(MatchType), kw)
  }

  /**
   * `_between_impl`: the right side is an ungrouped AND list of the two
   * coerced bounds; the negation toggles between BETWEEN and NOT BETWEEN.
   */
  function BetweenImpl(expr: Element, op: Op, cleft: Operand, cright: Operand, kw: Kw): (r: Expr)
    ensures r.Binary? && r.left == Elem(expr) && r.operator == op
    ensures r.negate == Some(if op == BetweenOp then NotBetweenOp else BetweenOp)
    ensures r.right.ClauseList? && r.right.operator == And
    ensures !r.right.group && !r.right.groupContents
    ensures r.right.clauses == [Coerced(BinaryElementRole, cleft), Coerced(BinaryElementRole, cright)]
    ensures r.resultType.None? && r.modifiers == kw
  {
    var bounds := ClauseList([Coerced(BinaryElementRole, cleft), Coerced(BinaryElementRole, cright)],
                             And, false, false);
    Binary(Elem(expr), bounds, op, Some(Toggle(op, BetweenOp, NotBetweenOp)), None, kw)
  }

  /** `_collate_impl`: a collation clause over the expression. */
  function CollateImpl(expr: Element, collation: Operand): (r: Expr)
    ensures r.Collation? && r.inner == Elem(expr) && r.collation == collation
  {
    Collation(Elem(expr), collation)
  }

  /**
   * Adding the `flags` modifier keeps every other keyword and stores the
   * flags coerced, or None when none were given.
   */
  lemma FlagsModifier(kw: Kw, flags: Operand)
    ensures var m := kw["flags" := CoerceFlags(flags)];
      m.Keys == kw.Keys + {"flags"} &&
      (flags.PyNone? ==> m["flags"] == PyNone) &&
      (!flags.PyNone? ==> m["flags"] == Clause(Coerced(BinaryElementRole, flags))) &&
      forall k :: k in kw && k != "flags" ==> m[k] == kw[k]
  {
  }

  /** `flags`, coerced unless it is None. */
  function CoerceFlags(flags: Operand): Operand {
    if flags.PyNone? then PyNone else Clause(Coerced(BinaryElementRole, flags))
  }

  /**
   * `_regexp_match_impl`: a comparison against the (uncoerced) pattern,
   * with the coerced flags among the modifiers; the negation toggles
   * between REGEXP MATCH and NOT REGEXP MATCH.
   */
  function RegexpMatchImpl(expr: Element, op: Op, pattern: Operand, flags: Operand, kw: Kw): (r: Result)
    requires op == RegexpMatchOp || op == NotRegexpMatchOp
    ensures r.ArgumentError? <==> IsSpecialConstant(pattern)
    ensures !r.NotImplementedError?
    ensures r.Ok? ==> r.expr.Binary? && r.expr.operator == op
    ensures r.Ok? ==>
      r.expr.negate == Some(if op == RegexpMatchOp then NotRegexpMatchOp else RegexpMatchOp)
    ensures r.Ok? ==> r.expr.left == Elem(expr) && r.expr.right == Coerced(BinaryElementRole, pattern)
    ensures r.Ok? ==> r.expr.resultType == Some(BooleanType)
    ensures r.Ok? ==> r.expr.modifiers.Keys == kw.Keys + {"flags"}
    ensures r.Ok? && flags.PyNone? ==> r.expr.modifiers["flags"] == PyNone
    ensures r.Ok? && !flags.PyNone? ==> r.expr.modifiers["flags"] == Clause(Coerced(BinaryElementRole, flags))
    ensures r.Ok? ==> forall k :: k in kw && k != "flags" ==> r.expr.modifiers[k] == kw[k]
  {
    var negateOp := Some(Toggle(op, RegexpMatchOp, NotRegexpMatchOp));
    var mods := kw["flags" := CoerceFlags(flags)];
    PlainComparison(expr, op, pattern, negateOp, None, mods);
    FlagsModifier(kw, flags);
    BooleanCompare(expr, op, pattern, negateOp, false, false, None, mods)
  }

  /**
   * `_regexp_replace_impl`: a binary operation whose coerced replacement
   * and flags travel as modifiers.
   */
  function RegexpReplaceImpl(expr: Element, op: Op, pattern: Operand, replacement: Operand,
                             flags: Operand, kw: Kw, adapt: Adapter): (r: Expr)
    ensures r.Binary? && r.negate.None? && r.resultType.Some?
    ensures r.left == Elem(expr) && r.right == Coerced(BinaryElementRole, pattern)
    ensures "replacement" in r.modifiers && "flags" in r.modifiers
    ensures r.modifiers["replacement"] == Clause(Coerced(BinaryElementRole, replacement))
    ensures flags.PyNone? ==> r.modifiers["flags"] == PyNone
    ensures !flags.PyNone? ==> r.modifiers["flags"] == Clause(Coerced(BinaryElementRole, flags))
    ensures r.modifiers.Keys == kw.Keys + {"replacement", "flags"}
    ensures (r.operator, r.resultType.value) == adapt(op, r.left, r.right)
    ensures forall k :: k in kw && k != "replacement" && k != "flags" ==>
      k in r.modifiers && r.modifiers[k] == kw[k]
  {
    var mods := kw["replacement" := Clause(Coerced(BinaryElementRole, replacement))]
                  ["flags" := CoerceFlags(flags)];
    BinaryOperate(expr, op, pattern, false, None, mods, adapt)
  }
}
