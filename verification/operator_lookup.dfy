/**
 * The comparator's lookup table: for each operator, the handler that
 * builds its node and the extra keyword the handler is called with (a
 * fixed negation, or a factory function for `_scalar`).
 */
module OperatorLookup {
  import opened Wrappers
  import opened Types
  import opened Operators
  import opened Elements
  import DC = DefaultComparator

  /** The handlers of the default comparator, by name. */
  datatype Handler =
    | ConjunctionOperateHandler | InvImplHandler | BinaryOperateHandler | CustomOpOperateHandler | ScalarHandler
    | BooleanCompareHandler | InImplHandler | CollateImplHandler | MatchImplHandler | DistinctImplHandler
    | BetweenImplHandler | NegImplHandler | GetItemImplHandler | UnsupportedImplHandler
    | RegexpMatchImplHandler | RegexpReplaceImplHandler

  /** The fixed keyword arguments of a table entry. */
  datatype TableKw = NoKw | NegateKw(negateOp: Op) | FnKw(fn: Ctor)

  datatype Entry = Entry(handler: Handler, kw: TableKw)

  /**
   * `operator_lookup[op.__name__]`; every custom operator shares the
   * `custom_op` entry. The three negated containment operators have no
   * entry: looking them up is a KeyError for the caller. Exactly the
   * comparison and IN handlers receive a fixed negation, and exactly
   * `_scalar` receives a factory function.
   */
  function Lookup(op: Op): (r: Option<Entry>)
    ensures r.None? <==> NegatedContainment(op)
    ensures r.Some? ==>
      (r.value.kw.NegateKw? <==> r.value.handler.BooleanCompareHandler? || r.value.handler.InImplHandler?)
    ensures r.Some? ==> (r.value.kw.FnKw? <==> r.value.handler.ScalarHandler?)
  {
    match op
    case And => Some(Entry(ConjunctionOperateHandler, NoKw))
    case Or => Some(Entry(ConjunctionOperateHandler, NoKw))
    case Inv => Some(Entry(InvImplHandler, NoKw))
    case Add => Some(Entry(BinaryOperateHandler, NoKw))
    case Mul => Some(Entry(BinaryOperateHandler, NoKw))
    case Sub => Some(Entry(BinaryOperateHandler, NoKw))
    case Div => Some(Entry(BinaryOperateHandler, NoKw))
    case Mod => Some(Entry(BinaryOperateHandler, NoKw))
    case TrueDiv => Some(Entry(BinaryOperateHandler, NoKw))
    case FloorDiv => Some(Entry(BinaryOperateHandler, NoKw))
    case CustomOp(_, _, _) => Some(Entry(CustomOpOperateHandler, NoKw))
    case JsonPathGetItem => Some(Entry(BinaryOperateHandler, NoKw))
    case JsonGetItem => Some(Entry(BinaryOperateHandler, NoKw))
    case Concat => Some(Entry(BinaryOperateHandler, NoKw))
    case AnyOp => Some(Entry(ScalarHandler, FnKw(CreateAny)))
    case AllOp => Some(Entry(ScalarHandler, FnKw(CreateAll)))
    case Lt => Some(Entry(BooleanCompareHandler, NegateKw(Ge)))
    case Le => Some(Entry(BooleanCompareHandler, NegateKw(Gt)))
    case Ne => Some(Entry(BooleanCompareHandler, NegateKw(Eq)))
    case Gt => Some(Entry(BooleanCompareHandler, NegateKw(Le)))
    case Ge => Some(Entry(BooleanCompareHandler, NegateKw(Lt)))
    case Eq => Some(Entry(BooleanCompareHandler, NegateKw(Ne)))
    case IsDistinctFrom => Some(Entry(BooleanCompareHandler, NegateKw(IsNotDistinctFrom)))
    case IsNotDistinctFrom => Some(Entry(BooleanCompareHandler, NegateKw(IsDistinctFrom)))
    case LikeOp => Some(Entry(BooleanCompareHandler, NegateKw(NotLikeOp)))
    case ILikeOp => Some(Entry(BooleanCompareHandler, NegateKw(NotILikeOp)))
    case NotLikeOp => Some(Entry(BooleanCompareHandler, NegateKw(LikeOp)))
    case NotILikeOp => Some(Entry(BooleanCompareHandler, NegateKw(ILikeOp)))
    case ContainsOp => Some(Entry(BooleanCompareHandler, NegateKw(NotContainsOp)))
    case StartsWithOp => Some(Entry(BooleanCompareHandler, NegateKw(NotStartsWithOp)))
    case EndsWithOp => Some(Entry(BooleanCompareHandler, NegateKw(NotEndsWithOp)))
    case NotContainsOp => None
    case NotStartsWithOp => None
    case NotEndsWithOp => None
    case DescOp => Some(Entry(ScalarHandler, FnKw(CreateDesc)))
    case AscOp => Some(Entry(ScalarHandler, FnKw(CreateAsc)))
    case NullsFirstOp => Some(Entry(ScalarHandler, FnKw(CreateNullsFirst)))
    case NullsLastOp => Some(Entry(ScalarHandler, FnKw(CreateNullsLast)))
    case InOp => Some(Entry(InImplHandler, NegateKw(NotInOp)))
    case NotInOp => Some(Entry(InImplHandler, NegateKw(InOp)))
    case Is => Some(Entry(BooleanCompareHandler, NegateKw(Is)))
    case IsNot => Some(Entry(BooleanCompareHandler, NegateKw(IsNot)))
    case Collate => Some(Entry(CollateImplHandler, NoKw))
    case MatchOp => Some(Entry(MatchImplHandler, NoKw))
    case NotMatchOp => Some(Entry(MatchImplHandler, NoKw))
    case DistinctOp => Some(Entry(DistinctImplHandler, NoKw))
    case BetweenOp => Some(Entry(BetweenImplHandler, NoKw))
    case NotBetweenOp => Some(Entry(BetweenImplHandler, NoKw))
    case Neg => Some(Entry(NegImplHandler, NoKw))
    case GetItem => Some(Entry(GetItemImplHandler, NoKw))
    case LShift => Some(Entry(UnsupportedImplHandler, NoKw))
    case RShift => Some(Entry(UnsupportedImplHandler, NoKw))
    case Contains => Some(Entry(UnsupportedImplHandler, NoKw))
    case RegexpMatchOp => Some(Entry(RegexpMatchImplHandler, NoKw))
    case NotRegexpMatchOp => Some(Entry(RegexpMatchImplHandler, NoKw))
    case RegexpReplaceOp => Some(Entry(RegexpReplaceImplHandler, NoKw))
  }

  /** The three operators `operator_lookup` names only as negations. */
  predicate NegatedContainment(op: Op) {
    op.NotContainsOp? || op.NotStartsWithOp? || op.NotEndsWithOp?
  }

  /**
   * The `negate_op` the table fixes for `op`, if any: only the comparison
   * and IN entries have one.
   */
  function TableNegation(op: Op): (r: Option<Op>)
    ensures r.Some? <==>
      Lookup(op).Some? && (Lookup(op).value.handler.BooleanCompareHandler? || Lookup(op).value.handler.InImplHandler?)
    ensures r.Some? ==> Lookup(op).value.kw == NegateKw(r.value)
  {
    match Lookup(op)
    case Some(Entry(_, NegateKw(n))) => Some(n)
    case _ => None
  }

  /** The operators the table pairs with their logical negation, both ways. */
  predicate Paired(op: Op) {
    ComparePaired(op) || op.InOp? || op.NotInOp?
  }

  /** The paired operators whose handler is `_boolean_compare` itself. */
  predicate ComparePaired(op: Op) {
    op.Lt? || op.Ge? || op.Le? || op.Gt? || op.Eq? || op.Ne? ||
    op.IsDistinctFrom? || op.IsNotDistinctFrom? ||
    op.LikeOp? || op.NotLikeOp? || op.ILikeOp? || op.NotILikeOp?
  }

  /** The operators whose table negation has no entry of its own. */
  predicate OneWay(op: Op) {
    op.ContainsOp? || op.StartsWithOp? || op.EndsWithOp?
  }

  /**
   * `_boolean_compare` called the way the table calls it for an operator
   * whose entry names that handler: with the entry's fixed negation.
   */
  function TableCompare(expr: Element, op: Op, obj: Operand, reverse: bool, anyAllExpr: bool,
                        resultType: Option<SqlType>, kw: Kw): (r: Result)
    requires Lookup(op).Some? && Lookup(op).value.handler == BooleanCompareHandler
    ensures r.Ok? ==> IsNegatableBinary(r.expr)
    ensures r.Ok? && !DC.RewritesToIs(op, obj, anyAllExpr) ==> r.expr.negate == TableNegation(op)
  {
    DC.BooleanCompare(expr, op, obj, TableNegation(op), reverse, anyAllExpr, resultType, kw)
  }
}
