/** The operators the default comparator dispatches on. */
module Operators {
  import opened Wrappers
  import opened Types

  /**
   * One constructor per operator named in the comparator's lookup table,
   * plus the three negations (`not_contains_op`, `not_startswith_op`,
   * `not_endswith_op`) that the table refers to but has no entry for.
   * A custom operator carries its operator string, its declared return
   * type and whether it was declared a comparison.
   */
  datatype Op =
    | And | Or | Inv
    | Add | Mul | Sub | Div | Mod | TrueDiv | FloorDiv
    | CustomOp(opstring: string, returnType: Option<SqlType>, isComparison: bool)
    | JsonPathGetItem | JsonGetItem | Concat
    | AnyOp | AllOp
    | Lt | Le | Ne | Gt | Ge | Eq
    | IsDistinctFrom | IsNotDistinctFrom
    | LikeOp | ILikeOp | NotLikeOp | NotILikeOp
    | ContainsOp | StartsWithOp | EndsWithOp
    | NotContainsOp | NotStartsWithOp | NotEndsWithOp
    | DescOp | AscOp | NullsFirstOp | NullsLastOp
    | InOp | NotInOp | Is | IsNot
    | Collate | MatchOp | NotMatchOp | DistinctOp
    | BetweenOp | NotBetweenOp | Neg | GetItem
    | LShift | RShift | Contains
    | RegexpMatchOp | NotRegexpMatchOp | RegexpReplaceOp

  /** The operators that may be used against None/True/False/NULL. */
  predicate ConstantOp(op: Op) {
    op.Eq? || op.Ne? || op.Is? || op.IsNot? || op.IsDistinctFrom? || op.IsNotDistinctFrom?
  }

  /** `=` and `!=` */
  predicate EqualityOp(op: Op) {
    op.Eq? || op.Ne?
  }

  /** The operators that mean IS against None. */
  predicate MeansIs(op: Op) {
    op.Eq? || op.Is?
  }

  /** The operators that mean IS NOT against None. */
  predicate MeansIsNot(op: Op) {
    op.Ne? || op.IsNot?
  }

  /** IS DISTINCT FROM and IS NOT DISTINCT FROM */
  predicate DistinctFromOp(op: Op) {
    op.IsDistinctFrom? || op.IsNotDistinctFrom?
  }
}
