/**
 * Properties that relate several handlers, or a handler and the lookup
 * table: how comparisons against constants are rewritten, how `reverse`
 * orders operands, and how the table's fixed negations agree with the
 * nodes the handlers build.
 */
module ComparatorProperties {
  import opened Wrappers
  import opened Types
  import opened Operators
  import opened Elements
  import opened DefaultComparator
  import OL = OperatorLookup

  // ---------------------------------------------------------------------
  // comparisons against None / True / False / NULL
  // ---------------------------------------------------------------------

  /** `x == None` and `x.is_(None)` become `x IS NULL`, negated by IS NOT. */
  lemma NoneEqualityBecomesIs(expr: Element, op: Op, obj: Operand, negateOp: Option<Op>,
                              reverse: bool, resultType: Option<SqlType>, kw: Kw)
    requires IsNullConstant(obj) && MeansIs(op)
    ensures BooleanCompare(expr, op, obj, negateOp, reverse, false, resultType, kw)
         == Ok(Binary(Elem(expr), Coerced(ConstExprRole, obj), Is, Some(IsNot),
                      Some(resultType.GetOr(BooleanType)), map[]))
  {
  }

  /** `x != None` and `x.is_not(None)` become `x IS NOT NULL`, negated by IS. */
  lemma NoneInequalityBecomesIsNot(expr: Element, op: Op, obj: Operand, negateOp: Option<Op>,
                                   reverse: bool, resultType: Option<SqlType>, kw: Kw)
    requires IsNullConstant(obj) && MeansIsNot(op)
    ensures BooleanCompare(expr, op, obj, negateOp, reverse, false, resultType, kw)
         == Ok(Binary(Elem(expr), Coerced(ConstExprRole, obj), IsNot, Some(Is),
                      Some(resultType.GetOr(BooleanType)), map[]))
  {
  }

  /**
   * `is_` and `is_not` against any constant (None, a bool, NULL, TRUE or
   * FALSE) build `x IS const` / `x IS NOT const`, each negated by the
   * other, whatever `reverse` is and whatever negation the caller passed.
   */
  lemma IsAgainstConstant(expr: Element, obj: Operand, negateOp: Option<Op>,
                          reverse: bool, resultType: Option<SqlType>, kw: Kw)
    requires IsSpecialConstant(obj)
    ensures BooleanCompare(expr, Is, obj, negateOp, reverse, false, resultType, kw)
         == Ok(Binary(Elem(expr), Coerced(ConstExprRole, obj), Is, Some(IsNot),
                      Some(resultType.GetOr(BooleanType)), map[]))
    ensures BooleanCompare(expr, IsNot, obj, negateOp, reverse, false, resultType, kw)
         == Ok(Binary(Elem(expr), Coerced(ConstExprRole, obj), IsNot, Some(Is),
                      Some(resultType.GetOr(BooleanType)), map[]))
  {
  }

  /**
   * `x == True` / `x != False` are kept as equalities, with the caller's
   * negation and keywords and the expression on the left, whatever
   * `reverse` and `_any_all_expr` say.
   */
  lemma BooleanEqualityKept(expr: Element, op: Op, obj: Operand, negateOp: Option<Op>,
                            reverse: bool, anyAllExpr: bool, resultType: Option<SqlType>, kw: Kw)
    requires IsBooleanConstant(obj) && EqualityOp(op)
    ensures BooleanCompare(expr, op, obj, negateOp, reverse, anyAllExpr, resultType, kw)
         == Ok(Binary(Elem(expr), Coerced(ConstExprRole, obj), op, negateOp,
                      Some(resultType.GetOr(BooleanType)), kw))
  {
  }

  /** IS [NOT] DISTINCT FROM against any constant keeps its operator. */
  lemma DistinctFromKept(expr: Element, op: Op, obj: Operand, negateOp: Option<Op>,
                         reverse: bool, anyAllExpr: bool, resultType: Option<SqlType>, kw: Kw)
    requires IsSpecialConstant(obj) && DistinctFromOp(op)
    ensures BooleanCompare(expr, op, obj, negateOp, reverse, anyAllExpr, resultType, kw)
         == Ok(Binary(Elem(expr), Coerced(ConstExprRole, obj), op, negateOp,
                      Some(resultType.GetOr(BooleanType)), kw))
  {
  }

  /**
   * Outside ANY/ALL, a comparison against a constant never looks at
   * `reverse`; on the general path `reverse` exactly swaps the operands.
   */
  lemma ReverseOrdering(expr: Element, op: Op, obj: Operand, negateOp: Option<Op>,
                        anyAllExpr: bool, resultType: Option<SqlType>, kw: Kw)
    ensures IsSpecialConstant(obj) && !anyAllExpr ==>
      BooleanCompare(expr, op, obj, negateOp, true, anyAllExpr, resultType, kw)
      == BooleanCompare(expr, op, obj, negateOp, false, anyAllExpr, resultType, kw)
    ensures !IsSpecialConstant(obj) ==>
      var forward := BooleanCompare(expr, op, obj, negateOp, false, anyAllExpr, resultType, kw);
      var backward := BooleanCompare(expr, op, obj, negateOp, true, anyAllExpr, resultType, kw);
      forward.Ok? && backward.Ok? &&
      backward.expr == forward.expr.(left := forward.expr.right, right := forward.expr.left)
  {
  }

  // ---------------------------------------------------------------------
  // the table's negations
  // ---------------------------------------------------------------------

  /** On the paired operators the table's negation is an involution without fixed points. */
  lemma NegationTableInvolution(op: Op)
    requires OL.Paired(op)
    ensures OL.TableNegation(op).Some?
    ensures OL.Paired(OL.TableNegation(op).value)
    ensures OL.TableNegation(op).value != op
    ensures OL.TableNegation(OL.TableNegation(op).value) == Some(op)
  {
    if OL.ComparePaired(op) {
      ComparePairedInvolution(op);
    }
  }

  /** The table's own negation of IS is IS, and of IS NOT is IS NOT. */
  lemma IsEntriesSelfNegate()
    ensures OL.TableNegation(Is) == Some(Is)
    ensures OL.TableNegation(IsNot) == Some(IsNot)
  {
  }

  /** A table negation that leads back to the operator belongs to a pair or to IS / IS NOT. */
  lemma RoundTripOnlyOnPairs(op: Op)
    requires OL.TableNegation(op).Some?
    requires OL.TableNegation(OL.TableNegation(op).value) == Some(op)
    ensures OL.Paired(op) || op == Is || op == IsNot
  {
  }

  /** The containment operators negate to operators that have no entry. */
  lemma OneWayNegations(op: Op)
    requires OL.OneWay(op)
    ensures OL.TableNegation(op).Some? && OL.Lookup(OL.TableNegation(op).value).None?
  {
  }

  /**
   * Negating twice through the table returns to the operator exactly for
   * the paired operators and IS / IS NOT.
   */
  lemma NegationRoundTrip(op: Op)
    ensures (OL.TableNegation(op).Some? && OL.TableNegation(OL.TableNegation(op).value) == Some(op))
        <==> OL.Paired(op) || op == Is || op == IsNot
  {
    if OL.TableNegation(op).Some? && OL.TableNegation(OL.TableNegation(op).value) == Some(op) {
      RoundTripOnlyOnPairs(op);
    }
    if OL.Paired(op) {
      NegationTableInvolution(op);
    }
  }

  /** LSHIFT, RSHIFT and `contains` dispatch to the handler that always raises. */
  lemma UnsupportedOperatorsRaise(expr: Element, op: Op)
    ensures OL.Lookup(op).Some? && OL.Lookup(op).value.handler == OL.UnsupportedImplHandler
        <==> op.LShift? || op.RShift? || op.Contains?
    ensures op.LShift? || op.RShift? || op.Contains? ==> UnsupportedImpl(expr, op).NotImplementedError?
  {
    if OL.Lookup(op).Some? && OL.Lookup(op).value.handler == OL.UnsupportedImplHandler {
      OnlyShiftsAndContainsUnsupported(op);
    }
  }

  /** No other entry names `_unsupported_impl`. */
  lemma OnlyShiftsAndContainsUnsupported(op: Op)
    requires OL.Lookup(op).Some? && OL.Lookup(op).value.handler == OL.UnsupportedImplHandler
    ensures op.LShift? || op.RShift? || op.Contains?
  {
  }

  // ---------------------------------------------------------------------
  // the table's negations agree with the nodes the handlers build
  // ---------------------------------------------------------------------

  /**
   * Two operators whose comparison nodes are each other's negation: both
   * outside `ConstantOp` (so they are treated alike against every
   * operand), or = and !=, or the two DISTINCT FROM operators.
   */
  predicate Complementary(op: Op, n: Op) {
    (!ConstantOp(op) && !ConstantOp(n)) ||
    (op == Eq && n == Ne) || (op == Ne && n == Eq) ||
    (op == IsDistinctFrom && n == IsNotDistinctFrom) ||
    (op == IsNotDistinctFrom && n == IsDistinctFrom)
  }

  /** Complementary comparisons against an operand that is not a constant. */
  lemma ComplementaryOnOperand(expr: Element, op: Op, n: Op, obj: Operand, reverse: bool,
                                 anyAllExpr: bool, resultType: Option<SqlType>, kw: Kw)
    requires !IsSpecialConstant(obj)
    ensures
      var r := BooleanCompare(expr, op, obj, Some(n), reverse, anyAllExpr, resultType, kw);
      var rn := BooleanCompare(expr, n, obj, Some(op), reverse, anyAllExpr, resultType, kw);
      (r.ArgumentError? <==> rn.ArgumentError?) &&
      (r.Ok? ==> rn.Ok? && InvImpl(r.expr) == rn.expr)
  {
  }

  /** Two operators outside `ConstantOp` against a constant: both raise, or both pass through ANY/ALL. */
  lemma ComplementaryNonConstantOps(expr: Element, op: Op, n: Op, obj: Operand, reverse: bool,
                                 anyAllExpr: bool, resultType: Option<SqlType>, kw: Kw)
    requires IsSpecialConstant(obj) && !ConstantOp(op) && !ConstantOp(n)
    ensures
      var r := BooleanCompare(expr, op, obj, Some(n), reverse, anyAllExpr, resultType, kw);
      var rn := BooleanCompare(expr, n, obj, Some(op), reverse, anyAllExpr, resultType, kw);
      (r.ArgumentError? <==> rn.ArgumentError?) &&
      (r.Ok? ==> rn.Ok? && InvImpl(r.expr) == rn.expr)
  {
  }

  /** = and != against True/False are kept, each negated by the other. */
  lemma ComplementaryBooleanEquality(expr: Element, op: Op, n: Op, obj: Operand, reverse: bool,
                                 anyAllExpr: bool, resultType: Option<SqlType>, kw: Kw)
    requires IsBooleanConstant(obj) && ((op.Eq? && n.Ne?) || (op.Ne? && n.Eq?))
    ensures
      var r := BooleanCompare(expr, op, obj, Some(n), reverse, anyAllExpr, resultType, kw);
      var rn := BooleanCompare(expr, n, obj, Some(op), reverse, anyAllExpr, resultType, kw);
      (r.ArgumentError? <==> rn.ArgumentError?) &&
      (r.Ok? ==> rn.Ok? && InvImpl(r.expr) == rn.expr)
  {
  }

  /** = and != against None/NULL become IS and IS NOT (or pass through ANY/ALL). */
  lemma ComplementaryNullEquality(expr: Element, op: Op, n: Op, obj: Operand, reverse: bool,
                                 anyAllExpr: bool, resultType: Option<SqlType>, kw: Kw)
    requires IsNullConstant(obj) && ((op.Eq? && n.Ne?) || (op.Ne? && n.Eq?))
    ensures
      var r := BooleanCompare(expr, op, obj, Some(n), reverse, anyAllExpr, resultType, kw);
      var rn := BooleanCompare(expr, n, obj, Some(op), reverse, anyAllExpr, resultType, kw);
      (r.ArgumentError? <==> rn.ArgumentError?) &&
      (r.Ok? ==> rn.Ok? && InvImpl(r.expr) == rn.expr)
  {
    if !anyAllExpr {
      NoneEqualityBecomesIs(expr, Eq, obj, Some(Ne), reverse, resultType, kw);
      NoneInequalityBecomesIsNot(expr, Ne, obj, Some(Eq), reverse, resultType, kw);
    }
  }

  /** The two DISTINCT FROM operators against a constant pass through. */
  lemma ComplementaryDistinctFrom(expr: Element, op: Op, n: Op, obj: Operand, reverse: bool,
                                 anyAllExpr: bool, resultType: Option<SqlType>, kw: Kw)
    requires IsSpecialConstant(obj) && DistinctFromOp(op) && DistinctFromOp(n) && op != n
    ensures
      var r := BooleanCompare(expr, op, obj, Some(n), reverse, anyAllExpr, resultType, kw);
      var rn := BooleanCompare(expr, n, obj, Some(op), reverse, anyAllExpr, resultType, kw);
      (r.ArgumentError? <==> rn.ArgumentError?) &&
      (r.Ok? ==> rn.Ok? && InvImpl(r.expr) == rn.expr)
  {
  }

  /**
   * Comparing with `op` (negated by `n`) and with `n` (negated by `op`)
   * builds nodes that are each other's negation, on every operand
   * (including the IS / IS NOT rewrite of None), and one raises if and
   * only if the other does.
   */
  lemma ComplementaryComparisons(expr: Element, op: Op, n: Op, obj: Operand, reverse: bool,
                                 anyAllExpr: bool, resultType: Option<SqlType>, kw: Kw)
    requires Complementary(op, n)
    ensures
      var r := BooleanCompare(expr, op, obj, Some(n), reverse, anyAllExpr, resultType, kw);
      var rn := BooleanCompare(expr, n, obj, Some(op), reverse, anyAllExpr, resultType, kw);
      (r.ArgumentError? <==> rn.ArgumentError?) &&
      (r.Ok? ==> rn.Ok? && InvImpl(r.expr) == rn.expr)
  {
    if !IsSpecialConstant(obj) {
      ComplementaryOnOperand(expr, op, n, obj, reverse, anyAllExpr, resultType, kw);
    } else if !ConstantOp(op) {
      ComplementaryNonConstantOps(expr, op, n, obj, reverse, anyAllExpr, resultType, kw);
    } else if EqualityOp(op) && IsBooleanConstant(obj) {
      ComplementaryBooleanEquality(expr, op, n, obj, reverse, anyAllExpr, resultType, kw);
    } else if EqualityOp(op) {
      ComplementaryNullEquality(expr, op, n, obj, reverse, anyAllExpr, resultType, kw);
    } else {
      ComplementaryDistinctFrom(expr, op, n, obj, reverse, anyAllExpr, resultType, kw);
    }
  }

  /** Each paired comparison's table negation is another paired comparison negating back to it. */
  lemma ComparePairedInvolution(op: Op)
    requires OL.ComparePaired(op)
    ensures OL.TableNegation(op).Some?
    ensures var n := OL.TableNegation(op).value;
      n != op && OL.ComparePaired(n) && OL.TableNegation(n) == Some(op)
  {
    if op.Lt? || op.Ge? || op.Le? || op.Gt? || op.Eq? || op.Ne? {
      OrderPairsInvolution(op);
    } else {
      PatternPairsInvolution(op);
    }
  }

  /** The ordering comparisons and equality. */
  lemma OrderPairsInvolution(op: Op)
    requires op.Lt? || op.Ge? || op.Le? || op.Gt? || op.Eq? || op.Ne?
    ensures OL.TableNegation(op).Some?
    ensures var n := OL.TableNegation(op).value;
      n != op && OL.ComparePaired(n) && OL.TableNegation(n) == Some(op)
  {
  }

  /** DISTINCT FROM, LIKE and ILIKE. */
  lemma PatternPairsInvolution(op: Op)
    requires op.IsDistinctFrom? || op.IsNotDistinctFrom? || op.LikeOp? || op.NotLikeOp? || op.ILikeOp? || op.NotILikeOp?
    ensures OL.TableNegation(op).Some?
    ensures var n := OL.TableNegation(op).value;
      n != op && OL.ComparePaired(n) && OL.TableNegation(n) == Some(op)
  {
  }

  /** The paired comparisons are handled by `_boolean_compare`. */
  lemma ComparePairedHandler(op: Op)
    requires OL.ComparePaired(op)
    ensures OL.Lookup(op).Some? && OL.Lookup(op).value.handler == OL.BooleanCompareHandler
  {
  }

  /** Each paired comparison is complementary to its table negation. */
  lemma ComparePairedComplementary(op: Op)
    requires OL.ComparePaired(op)
    ensures OL.TableNegation(op).Some? && Complementary(op, OL.TableNegation(op).value)
  {
    if op.Lt? || op.Ge? || op.Le? || op.Gt? || op.Eq? || op.Ne? {
      OrderPairsComplementary(op);
    } else {
      PatternPairsComplementary(op);
    }
  }

  /** The ordering comparisons and equality. */
  lemma OrderPairsComplementary(op: Op)
    requires op.Lt? || op.Ge? || op.Le? || op.Gt? || op.Eq? || op.Ne?
    ensures OL.TableNegation(op).Some? && Complementary(op, OL.TableNegation(op).value)
  {
  }

  /** DISTINCT FROM, LIKE and ILIKE. */
  lemma PatternPairsComplementary(op: Op)
    requires op.IsDistinctFrom? || op.IsNotDistinctFrom? || op.LikeOp? || op.NotLikeOp? || op.ILikeOp? || op.NotILikeOp?
    ensures OL.TableNegation(op).Some? && Complementary(op, OL.TableNegation(op).value)
  {
  }

  /**
   * For a paired comparison, negating the node the table builds gives
   * exactly the node the table builds for the negated operator.
   */
  lemma ComparisonNegationAgrees(expr: Element, op: Op, obj: Operand, reverse: bool,
                                 anyAllExpr: bool, resultType: Option<SqlType>, kw: Kw)
    requires OL.ComparePaired(op)
    ensures OL.TableNegation(op).Some?
    ensures var n := OL.TableNegation(op).value;
      OL.Lookup(n).Some? && OL.Lookup(n).value.handler == OL.BooleanCompareHandler &&
      var r := OL.TableCompare(expr, op, obj, reverse, anyAllExpr, resultType, kw);
      var rn := OL.TableCompare(expr, n, obj, reverse, anyAllExpr, resultType, kw);
      (r.ArgumentError? <==> rn.ArgumentError?) &&
      (r.Ok? ==> rn.Ok? && InvImpl(r.expr) == rn.expr)
  {
    ComparePairedInvolution(op);
    ComparePairedComplementary(op);
    var n := OL.TableNegation(op).value;
    ComparePairedHandler(n);
    assert OL.TableCompare(expr, op, obj, reverse, anyAllExpr, resultType, kw)
        == BooleanCompare(expr, op, obj, Some(n), reverse, anyAllExpr, resultType, kw);
    assert OL.TableCompare(expr, n, obj, reverse, anyAllExpr, resultType, kw)
        == BooleanCompare(expr, n, obj, Some(op), reverse, anyAllExpr, resultType, kw);
    ComplementaryComparisons(expr, op, n, obj, reverse, anyAllExpr, resultType, kw);
  }

  /**
   * IN and NOT IN negate into each other when the coerced collection
   * carries no `in_ops` annotation.
   */
  lemma InNegationAgrees(expr: Element, s: Operand, kw: Kw)
    ensures InvImpl(InImpl(expr, InOp, s, NotInOp, None, kw).expr)
         == InImpl(expr, NotInOp, s, InOp, None, kw).expr
    ensures InvImpl(InImpl(expr, NotInOp, s, InOp, None, kw).expr)
         == InImpl(expr, InOp, s, NotInOp, None, kw).expr
  {
  }

  /**
   * Through the table, IS and IS NOT against any constant (None, a bool,
   * NULL, TRUE or FALSE) negate into each other.
   */
  lemma IsConstantNegation(expr: Element, obj: Operand, reverse: bool,
                           resultType: Option<SqlType>, kw: Kw)
    requires IsSpecialConstant(obj)
    ensures OL.TableCompare(expr, Is, obj, reverse, false, resultType, kw).Ok?
    ensures OL.TableCompare(expr, IsNot, obj, reverse, false, resultType, kw).Ok?
    ensures InvImpl(OL.TableCompare(expr, Is, obj, reverse, false, resultType, kw).expr)
         == OL.TableCompare(expr, IsNot, obj, reverse, false, resultType, kw).expr
  {
    assert OL.TableNegation(Is) == Some(Is) && OL.TableNegation(IsNot) == Some(IsNot);
    IsAgainstConstant(expr, obj, Some(Is), reverse, resultType, kw);
    IsAgainstConstant(expr, obj, Some(IsNot), reverse, resultType, kw);
  }

  /**
   * Against an operand that is not a constant, the table's self-negation
   * of IS and IS NOT makes `~` give back the very same node.
   */
  lemma IsSelfNegation(expr: Element, op: Op, obj: Operand, reverse: bool,
                       resultType: Option<SqlType>, kw: Kw)
    requires op.Is? || op.IsNot?
    requires !IsSpecialConstant(obj)
    ensures OL.TableCompare(expr, op, obj, reverse, false, resultType, kw).Ok?
    ensures InvImpl(OL.TableCompare(expr, op, obj, reverse, false, resultType, kw).expr)
         == OL.TableCompare(expr, op, obj, reverse, false, resultType, kw).expr
  {
    assert OL.TableNegation(op) == Some(op);
  }

  /** BETWEEN and NOT BETWEEN negate into each other. */
  lemma BetweenNegationAgrees(expr: Element, cleft: Operand, cright: Operand, kw: Kw)
    ensures InvImpl(BetweenImpl(expr, BetweenOp, cleft, cright, kw))
         == BetweenImpl(expr, NotBetweenOp, cleft, cright, kw)
    ensures InvImpl(BetweenImpl(expr, NotBetweenOp, cleft, cright, kw))
         == BetweenImpl(expr, BetweenOp, cleft, cright, kw)
  {
  }

  /** REGEXP MATCH and NOT REGEXP MATCH negate into each other. */
  lemma RegexpNegationAgrees(expr: Element, pattern: Operand, flags: Operand, kw: Kw)
    requires !IsSpecialConstant(pattern)
    ensures InvImpl(RegexpMatchImpl(expr, RegexpMatchOp, pattern, flags, kw).expr)
         == RegexpMatchImpl(expr, NotRegexpMatchOp, pattern, flags, kw).expr
  {
  }

  /**
   * MATCH negates to NOT MATCH; but the handler called with NOT MATCH
   * itself still builds MATCH, recording MATCH as its negation, so that
   * node is its own negation.
   */
  lemma MatchNegation(expr: Element, other: Operand, kw: Kw)
    ensures InvImpl(MatchImpl(expr, MatchOp, other, kw).expr).operator == NotMatchOp
    ensures InvImpl(MatchImpl(expr, NotMatchOp, other, kw).expr)
         == MatchImpl(expr, NotMatchOp, other, kw).expr
  {
  }
}
