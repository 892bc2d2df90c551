/**
 * The expression-tree nodes the comparator builds. The constructors of
 * the SQL element classes (and the coercion of Python values into SQL
 * elements) are opaque: a node only records which constructor was chosen
 * and with which arguments.
 */
module Elements {
  import opened Wrappers
  import opened Types
  import opened Operators

  /** The coercion roles the comparator asks for. */
  datatype Role = ConstExprRole | BinaryElementRole | InElementRole

  /** The factory functions the table hands to `_scalar`. */
  datatype Ctor =
    | CreateAny | CreateAll
    | CreateDesc | CreateAsc | CreateNullsFirst | CreateNullsLast

  /**
   * The column expression an operator is applied to. It is known by
   * identity and type; `negationClause` is the optional
   * `negation_clause` attribute some expressions carry.
   */
  datatype Element = Element(id: nat, sqlType: SqlType, negationClause: Option<Expr>)

  /**
   * The right-hand operand as the comparator receives it: a Python
   * `None` or `bool`, one of the SQL constants `Null()`, `True_()`,
   * `False_()`, any other Python value, or an already-built SQL element
   * that is none of those three constants.
   */
  datatype Operand =
    | PyNone
    | PyBool(b: bool)
    | SqlNull
    | SqlTrue
    | SqlFalse
    | Value(id: nat)
    | Clause(e: Expr)

  /** Keyword arguments that end up as a node's `modifiers`. */
  type Kw = map<string, Operand>

  datatype Expr =
      /** the column expression itself */
    | Elem(element: Element)
      /** `coercions.expect(role, source)` */
    | Coerced(role: Role, source: Operand)
      /** `BinaryExpression(left, right, operator, negate=..., type_=..., modifiers=...)` */
    | Binary(left: Expr, right: Expr, operator: Op, negate: Option<Op>,
             resultType: Option<SqlType>, modifiers: Kw)
      /** `UnaryExpression(inner, operator=..., type_=...)` */
    | Unary(inner: Expr, operator: Op, unaryType: SqlType)
      /** `ClauseList(*clauses, operator=..., group=..., group_contents=...)` */
    | ClauseList(clauses: seq<Expr>, operator: Op, group: bool, groupContents: bool)
      /** `and_(left, other)` or `or_(left, other)`, told apart by `operator` */
    | Conjunction(operator: Op, left: Expr, other: Operand)
      /** the result of one of the `_scalar` factory functions */
    | Created(ctor: Ctor, inner: Expr)
      /** `CollationClause._create_collation_expression(inner, collation)` */
    | Collation(inner: Expr, collation: Operand)
      /** the opaque `_negate()` of an expression that is not a negatable binary node */
    | Inverted(inner: Expr)

  /** What an operator application produces: a node, or the exception it raises. */
  datatype Result = Ok(expr: Expr) | ArgumentError | NotImplementedError

  /** `isinstance(obj, (NoneType, bool, Null, True_, False_))` */
  predicate IsSpecialConstant(o: Operand) {
    o.PyNone? || o.PyBool? || o.SqlNull? || o.SqlTrue? || o.SqlFalse?
  }

  /** `isinstance(obj, (bool, True_, False_))` */
  predicate IsBooleanConstant(o: Operand) {
    o.PyBool? || o.SqlTrue? || o.SqlFalse?
  }

  /** `None` or `Null()`: the constants an equality is always rewritten to IS for. */
  predicate IsNullConstant(o: Operand) {
    o.PyNone? || o.SqlNull?
  }

  /** A Binary node whose recorded negation can be used by `~`. */
  predicate IsNegatableBinary(e: Expr) {
    e.Binary? && e.negate.Some?
  }
}
