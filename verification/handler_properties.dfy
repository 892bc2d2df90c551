/**
 * Properties of the handlers that do not compare: how `reverse` and the
 * declared types shape binary nodes, which operators the table routes to
 * each handler, and which nodes have no recorded negation.
 */
module HandlerProperties {
  import opened Wrappers
  import opened Types
  import opened Operators
  import opened Elements
  import opened DefaultComparator
  import OL = OperatorLookup

  // ---------------------------------------------------------------------
  // binary and custom operators
  // ---------------------------------------------------------------------

  /**
   * With a result type given, `reverse` exactly swaps the two sides of a
   * binary node; without one, adaptation sees the operand first.
   */
  lemma BinaryReverseSwaps(expr: Element, op: Op, obj: Operand, resultType: Option<SqlType>,
                           kw: Kw, adapt: Adapter)
    ensures resultType.Some? ==>
      var forward := BinaryOperate(expr, op, obj, false, resultType, kw, adapt);
      BinaryOperate(expr, op, obj, true, resultType, kw, adapt)
      == forward.(left := forward.right, right := forward.left)
    ensures resultType.None? ==>
      var backward := BinaryOperate(expr, op, obj, true, resultType, kw, adapt);
      (backward.operator, backward.resultType.value) == adapt(op, Coerced(BinaryElementRole, obj), Elem(expr))
  {
  }

  /** A binary operation records no negation, so `~` over it is opaque. */
  lemma BinaryNotNegatable(expr: Element, op: Op, obj: Operand, reverse: bool,
                           resultType: Option<SqlType>, kw: Kw, adapt: Adapter)
    ensures var b := BinaryOperate(expr, op, obj, reverse, resultType, kw, adapt);
      InvImpl(b) == Inverted(b)
  {
  }

  /**
   * Once a custom operator's type is known (passed by the caller, declared
   * as its return type, or Boolean for a comparison), the node does not
   * depend on adaptation at all.
   */
  lemma CustomOpIgnoresAdapter(expr: Element, op: Op, obj: Operand, reverse: bool,
                               resultType: Option<SqlType>, kw: Kw, adapt1: Adapter, adapt2: Adapter)
    requires op.CustomOp?
    requires resultType.Some? || op.returnType.Some? || op.isComparison
    ensures CustomOpOperate(expr, op, obj, reverse, resultType, kw, adapt1)
         == CustomOpOperate(expr, op, obj, reverse, resultType, kw, adapt2)
  {
  }

  /**
   * A custom operator given a result type, or declaring a return type,
   * builds the same node as a plain binary operation with that type.
   */
  lemma CustomOpAsBinary(expr: Element, op: Op, obj: Operand, reverse: bool,
                         resultType: Option<SqlType>, kw: Kw, adapt: Adapter)
    requires op.CustomOp?
    ensures resultType.Some? ==>
      CustomOpOperate(expr, op, obj, reverse, resultType, kw, adapt)
      == BinaryOperate(expr, op, obj, reverse, resultType, kw, adapt)
    ensures resultType.None? && op.returnType.Some? ==>
      CustomOpOperate(expr, op, obj, reverse, resultType, kw, adapt)
      == BinaryOperate(expr, op, obj, reverse, op.returnType, kw, adapt)
  {
  }

  // ---------------------------------------------------------------------
  // which operators reach which handler
  // ---------------------------------------------------------------------

  /**
   * The table routes exactly `and_` and `or_` to `_conjunction_operate`,
   * which is exactly where that handler succeeds.
   */
  lemma ConjunctionRouting(expr: Element, op: Op, other: Operand)
    ensures OL.Lookup(op).Some? && OL.Lookup(op).value.handler.ConjunctionOperateHandler?
        <==> ConjunctionOperate(expr, op, other).Ok?
  {
  }

  /** Only `getitem` reaches `_getitem_impl`. */
  lemma GetItemRouting(op: Op)
    ensures OL.Lookup(op).Some? && OL.Lookup(op).value.handler.GetItemImplHandler? <==> op.GetItem?
  {
  }

  /**
   * Indexing a type that is not indexable is exactly `_unsupported_impl`;
   * on an indexable type with a result type, `reverse` swaps the sides.
   */
  lemma GetItemFallsBack(expr: Element, op: Op, other: Operand, reverse: bool,
                         resultType: Option<SqlType>, kw: Kw, adapt: Adapter)
    ensures !IsIndexable(expr.sqlType) ==>
      GetItemImpl(expr, op, other, reverse, resultType, kw, adapt) == UnsupportedImpl(expr, op)
    ensures IsIndexable(expr.sqlType) && resultType.Some? ==>
      var forward := GetItemImpl(expr, op, other, false, resultType, kw, adapt).expr;
      GetItemImpl(expr, op, other, true, resultType, kw, adapt)
      == Ok(forward.(left := forward.right, right := forward.left))
  {
  }

  /**
   * On an indexable type, indexing is exactly the binary operation over
   * the index coerced once more as a binary element.
   */
  lemma GetItemAsBinary(expr: Element, op: Op, other: Operand, reverse: bool,
                        resultType: Option<SqlType>, kw: Kw, adapt: Adapter)
    requires IsIndexable(expr.sqlType)
    ensures GetItemImpl(expr, op, other, reverse, resultType, kw, adapt)
         == Ok(BinaryOperate(expr, op, Clause(Coerced(BinaryElementRole, other)), reverse, resultType, kw, adapt))
  {
  }

  /** Only `neg` reaches `_neg_impl`, `distinct_op` `_distinct_impl`, `collate` `_collate_impl`. */
  lemma UnaryRouting(op: Op)
    ensures OL.Lookup(op).Some? && OL.Lookup(op).value.handler.NegImplHandler? <==> op.Neg?
    ensures OL.Lookup(op).Some? && OL.Lookup(op).value.handler.DistinctImplHandler? <==> op.DistinctOp?
    ensures OL.Lookup(op).Some? && OL.Lookup(op).value.handler.CollateImplHandler? <==> op.Collate?
  {
  }

  /**
   * Unary minus and DISTINCT do not depend on the operator they are called
   * with, and record no negation, so `~` over them is opaque.
   */
  lemma UnaryIgnoresOperator(expr: Element, op1: Op, op2: Op)
    ensures NegImpl(expr, op1) == NegImpl(expr, op2)
    ensures DistinctImpl(expr, op1) == DistinctImpl(expr, op2)
    ensures InvImpl(NegImpl(expr, op1)) == Inverted(NegImpl(expr, op1))
    ensures InvImpl(DistinctImpl(expr, op1)) == Inverted(DistinctImpl(expr, op1))
  {
  }

  /**
   * The `_scalar` entries: ANY, ALL, DESC, ASC, NULLS FIRST and NULLS LAST
   * each reach `_scalar` with their own factory, and no other operator
   * does.
   */
  lemma ScalarRouting(op: Op)
    ensures OL.Lookup(op) == Some(OL.Entry(OL.ScalarHandler, OL.FnKw(CreateAny))) <==> op.AnyOp?
    ensures OL.Lookup(op) == Some(OL.Entry(OL.ScalarHandler, OL.FnKw(CreateAll))) <==> op.AllOp?
    ensures OL.Lookup(op) == Some(OL.Entry(OL.ScalarHandler, OL.FnKw(CreateDesc))) <==> op.DescOp?
    ensures OL.Lookup(op) == Some(OL.Entry(OL.ScalarHandler, OL.FnKw(CreateAsc))) <==> op.AscOp?
    ensures OL.Lookup(op) == Some(OL.Entry(OL.ScalarHandler, OL.FnKw(CreateNullsFirst))) <==> op.NullsFirstOp?
    ensures OL.Lookup(op) == Some(OL.Entry(OL.ScalarHandler, OL.FnKw(CreateNullsLast))) <==> op.NullsLastOp?
  {
  }

  /** A factory-built node records no negation, so `~` over it is opaque. */
  lemma ScalarNotNegatable(expr: Element, fn: Ctor)
    ensures InvImpl(Scalar(expr, fn)) == Inverted(Scalar(expr, fn))
  {
  }

  // ---------------------------------------------------------------------
  // regular expressions
  // ---------------------------------------------------------------------

  /**
   * Only `regexp_replace_op` reaches `_regexp_replace_impl`; its node
   * records no negation, so `~` over it is opaque, unlike REGEXP MATCH.
   */
  lemma RegexpReplaceNotNegatable(expr: Element, op: Op, pattern: Operand, replacement: Operand,
                                  flags: Operand, kw: Kw, adapt: Adapter)
    ensures OL.Lookup(op).Some? && OL.Lookup(op).value.handler.RegexpReplaceImplHandler?
        <==> op.RegexpReplaceOp?
    ensures var r := RegexpReplaceImpl(expr, op, pattern, replacement, flags, kw, adapt);
      InvImpl(r) == Inverted(r)
  {
  }
}
