# SQLAlchemy default comparator, modelled in Dafny

This project models `lib/sqlalchemy/sql/default_comparator.py`. That module
decides what happens when a SQL operator is applied to a column expression.
It turns the application into an expression-tree node (a `BinaryExpression`,
a `UnaryExpression`, a conjunction, ...) or into the exception it raises.

The model is purely functional:

- `Operators.Op` is the operator enum. It has one constructor per name in
  `operator_lookup`, plus the three negated containment operators that the
  table refers to but has no entry for. A custom operator carries its return
  type and its `is_comparison` flag.
- `Elements.Operand` classifies the right-hand operand. It is a Python
  `None` or `bool`, one of the SQL constants `Null()`, `True_()` and
  `False_()`, any other Python value, or an already-built SQL element.
- `Elements.Expr` is the tree. Coercion (`coercions.expect(role, x, ...)`)
  is the opaque wrapper `Coerced(role, x)`, which keeps the role and the
  value but not the `expr=` and `operator=` arguments. Every other element constructor records
  only which constructor was chosen and with which arguments.
- `Elements.Result` is either `Ok(node)`, `ArgumentError` or
  `NotImplementedError`.
- `DefaultComparator` has one function per handler.
- `OperatorLookup.Lookup` is the table: for each operator, a handler plus its
  fixed keyword (a `negate_op`, or a factory function for `_scalar`).
- `ComparatorProperties` holds the lemmas that relate the comparison
  handlers and the table's negations; `HandlerProperties` those about the
  other handlers and the operators the table routes to them.

Two behaviours are modelled as written:

- The table gives `is_` and `is_not` themselves as their negation. The
  IS / IS NOT rewrite against None, a bool, `null()`, `true()` or
  `false()` replaces that negation with the right one
  (`IsConstantNegation`). Against an operand that is none of these, `~`
  gives back the very same node (`IsSelfNegation`).
- `_match_impl` always builds `match_op`. When it is called with
  `not_match_op`, it also records `match_op` as the negation, so that node is
  its own negation (`MatchNegation`).

## Model

| member | source | states |
|---|---|---|
| DefaultComparator.BooleanCompare | lib/sqlalchemy/sql/default_comparator.py:46-141 | Raises ArgumentError exactly when the operand is None/bool/Null/True_/False_, `_any_all_expr` is off and the operator is not one of =, !=, IS, IS NOT, IS [NOT] DISTINCT FROM. Never raises NotImplementedError. Otherwise the result is a binary node whose type is the given result type, or Boolean if none was given. Its two sides are the expression and the operand coerced as a constant (special values) or as a binary element. The expression is on the left unless `reverse` is set on the general path. The operator changes only when =/!= meets None/NULL. The caller's negation and keywords are kept except on the IS/IS NOT rewrite, which builds IS negated by IS NOT or IS NOT negated by IS, and drops the modifiers. |
| DefaultComparator.PlainComparison | lib/sqlalchemy/sql/default_comparator.py:119-141 | Against an operand that is not a constant and without `reverse` or ANY/ALL, the comparison is exactly the expression, then the operand coerced as a binary element, with the caller's operator, negation and keywords, typed Boolean unless a type was given. |
| DefaultComparator.CustomOpResultType | lib/sqlalchemy/sql/default_comparator.py:144-149 | A given result type wins. Otherwise the custom operator's `return_type` is used, else Boolean when it is a comparison, else no type (left for adaptation). |
| DefaultComparator.CustomOpOperate | lib/sqlalchemy/sql/default_comparator.py:144-153 | A custom operator builds a binary node with no negation, carrying the keywords as modifiers, with the coerced operand on the left exactly when `reverse` is set. A result type passed by the caller is the node's type; otherwise the declared return type is, or Boolean for a comparison. In all these cases the operator is kept. Only when no type is known are operator and type taken from adaptation. |
| DefaultComparator.BinaryOperate | lib/sqlalchemy/sql/default_comparator.py:156-182 | The operand is coerced as a binary element. `reverse` puts it on the left, otherwise the expression is on the left. The node has no negation and carries the keywords as modifiers. A given result type keeps the operator. Without one, operator and type come from adapting the operator over the operands in their final order. |
| DefaultComparator.ConjunctionOperate | lib/sqlalchemy/sql/default_comparator.py:185-191 | `and_` and `or_` build the matching conjunction of the expression and the other operand. Every other operator raises NotImplementedError. |
| DefaultComparator.InImpl | lib/sqlalchemy/sql/default_comparator.py:198-207 | IN always builds a Boolean binary node with the expression on the left and the collection coerced as an IN element. The operator and negation come from the caller, unless an `in_ops` annotation on the coerced element replaces both. |
| DefaultComparator.UnsupportedImpl | lib/sqlalchemy/sql/default_comparator.py:220-223 | Raises NotImplementedError whatever the operator and operands. |
| DefaultComparator.GetItemImpl | lib/sqlalchemy/sql/default_comparator.py:210-217 | Indexing raises NotImplementedError exactly when the expression's type is not indexable. Otherwise it builds a binary node with no negation over the expression and the twice-coerced index: the index is on the left exactly when `reverse` is set, the keywords become the modifiers, a given result type keeps the operator and is the node's type, and without one adaptation picks operator and type. |
| DefaultComparator.InvImpl | lib/sqlalchemy/sql/default_comparator.py:226-234 | An expression's own `negation_clause` is returned as is. Negating a binary node that records a negation keeps its operands, type and modifiers and exchanges its operator with its negation. |
| DefaultComparator.InvImplInvolution | lib/sqlalchemy/sql/default_comparator.py:226-234 | Negating a binary node that records a negation twice gives the node back. |
| DefaultComparator.InvRepeat | lib/sqlalchemy/sql/default_comparator.py:226-234 | Applying `~` k times to such a node gives the node for even k and its negation for odd k. |
| DefaultComparator.NegImpl | lib/sqlalchemy/sql/default_comparator.py:237-239 | Unary minus over the expression keeps the expression's type and uses `neg` whatever operator it was called with. |
| DefaultComparator.DistinctImpl | lib/sqlalchemy/sql/default_comparator.py:262-266 | DISTINCT over the expression keeps the expression's type and uses `distinct_op` whatever operator it was called with. |
| DefaultComparator.MatchImpl | lib/sqlalchemy/sql/default_comparator.py:242-259 | MATCH never raises. It always uses `match_op` with the match type, with the expression on the left and the coerced operand on the right. The negation is NOT MATCH when called with `match_op` and MATCH otherwise. |
| DefaultComparator.BetweenImpl | lib/sqlalchemy/sql/default_comparator.py:269-295 | BETWEEN keeps the operator it was called with. The right side is an ungrouped AND list of exactly the two coerced bounds, in order. The negation is NOT BETWEEN when called with `between_op` and BETWEEN otherwise. No result type is given. |
| DefaultComparator.CollateImpl | lib/sqlalchemy/sql/default_comparator.py:298-299 | Builds a collation clause over the expression with the given collation. |
| DefaultComparator.RegexpMatchImpl | lib/sqlalchemy/sql/default_comparator.py:302-319 | The pattern is compared uncoerced, so a None/bool/constant pattern raises ArgumentError and nothing else does. Otherwise the node is a Boolean comparison of the expression (left) with the pattern coerced as a binary element (right), keeping the operator. The negation toggles between REGEXP MATCH and NOT REGEXP MATCH. The modifiers are the caller's keywords plus `flags`, which holds the coerced flags, or None when none were given. |
| DefaultComparator.RegexpReplaceImpl | lib/sqlalchemy/sql/default_comparator.py:322-340 | A binary node with no negation, with the expression on the left and the coerced pattern on the right, operator and type from adaptation. The modifiers are the caller's keywords plus `replacement`, holding the coerced replacement, and `flags`, holding the coerced flags or None when none were given; every other keyword is kept. |
| OperatorLookup.TableCompare | lib/sqlalchemy/sql/default_comparator.py:370-443 | A comparison dispatched through the table always records a negation. Off the IS rewrite, that negation is the table's `negate_op` for the operator. |
| ComparatorProperties.NoneEqualityBecomesIs | lib/sqlalchemy/sql/default_comparator.py:95-104 | `=` or `is_` against None/NULL (outside ANY/ALL) gives exactly `expr IS const`, negated by IS NOT, whatever `reverse` is. |
| ComparatorProperties.NoneInequalityBecomesIsNot | lib/sqlalchemy/sql/default_comparator.py:105-112 | `!=` or `is_not` against None/NULL (outside ANY/ALL) gives exactly `expr IS NOT const`, negated by IS, whatever `reverse` is. |
| ComparatorProperties.IsAgainstConstant | lib/sqlalchemy/sql/default_comparator.py:95-112 | `is_` and `is_not` against any of the constants (outside ANY/ALL) give exactly `expr IS const` negated by IS NOT, and `expr IS NOT const` negated by IS. The keywords are dropped, and neither `reverse` nor the caller's negation matters. |
| ComparatorProperties.BooleanEqualityKept | lib/sqlalchemy/sql/default_comparator.py:68-78 | `=`/`!=` against a bool, True_ or False_ keeps its operator, the caller's negation and keywords, with the expression on the left, whatever `reverse` and `_any_all_expr` are. |
| ComparatorProperties.DistinctFromKept | lib/sqlalchemy/sql/default_comparator.py:79-90 | IS [NOT] DISTINCT FROM against any of the constants keeps its operator, negation and keywords, with the expression on the left. |
| ComparatorProperties.ReverseOrdering | lib/sqlalchemy/sql/default_comparator.py:91-141 | Outside ANY/ALL, a comparison against a constant does not depend on `reverse`. Against any other operand, `reverse` exactly swaps the two sides and changes nothing else. |
| ComparatorProperties.NegationTableInvolution | lib/sqlalchemy/sql/default_comparator.py:370-435 | For lt/ge, le/gt, eq/ne, the DISTINCT FROM pair, like/not like, ilike/not ilike and in/not in, the table's negation is another operator of these pairs, never the operator itself, and it negates back to the operator. |
| ComparatorProperties.IsEntriesSelfNegate | lib/sqlalchemy/sql/default_comparator.py:436-443 | The table's negation of `is_` is `is_`, and of `is_not` is `is_not`. |
| ComparatorProperties.NegationRoundTrip | lib/sqlalchemy/sql/default_comparator.py:370-443 | Negating twice through the table leads back to the operator exactly for the paired operators and `is_`/`is_not`. |
| ComparatorProperties.OneWayNegations | lib/sqlalchemy/sql/default_comparator.py:400-411 | `contains_op`, `startswith_op` and `endswith_op` negate to operators that have no table entry. |
| OperatorLookup.Lookup | lib/sqlalchemy/sql/default_comparator.py:345-458 | Every operator name maps to the handler and fixed keyword listed for it, and every custom operator to the `custom_op` entry. Exactly the three negated containment operators have no entry. Exactly the `_boolean_compare` and `_in_impl` entries carry a fixed negation, and exactly the `_scalar` entries carry a factory function. |
| OperatorLookup.TableNegation | lib/sqlalchemy/sql/default_comparator.py:370-443 | An operator has a fixed `negate_op` exactly when its entry names `_boolean_compare` or `_in_impl`, and it is the one that entry lists. |
| ComparatorProperties.UnsupportedOperatorsRaise | lib/sqlalchemy/sql/default_comparator.py:452-454 | Exactly `lshift`, `rshift` and `contains` dispatch to `_unsupported_impl`, and for them it raises NotImplementedError. |
| ComparatorProperties.ComplementaryComparisons | lib/sqlalchemy/sql/default_comparator.py:64-141 | Take two operators that are either both outside the constant-safe set, or =/!=, or the DISTINCT FROM pair, each passed the other as its negation. On every operand one raises iff the other does. Otherwise negating one node gives exactly the other, including the IS/IS NOT rewrite of None. |
| ComparatorProperties.ComparisonNegationAgrees | lib/sqlalchemy/sql/default_comparator.py:370-399 | For every paired comparison in the table, the negation is also a `_boolean_compare` entry. On every operand, negating the node built for the operator gives the node built for its negation, and one raises iff the other does. |
| ComparatorProperties.InNegationAgrees | lib/sqlalchemy/sql/default_comparator.py:428-435 | Without an `in_ops` annotation, negating an IN node gives the NOT IN node, and the reverse. |
| ComparatorProperties.IsConstantNegation | lib/sqlalchemy/sql/default_comparator.py:95-112 | Through the table, IS and IS NOT against None, a bool, NULL, TRUE or FALSE both succeed, and negating the IS node gives the IS NOT node. |
| ComparatorProperties.IsSelfNegation | lib/sqlalchemy/sql/default_comparator.py:436-443 | Through the table, IS or IS NOT against an operand that is not a constant succeeds, and negating that node gives back the same node. |
| ComparatorProperties.BetweenNegationAgrees | lib/sqlalchemy/sql/default_comparator.py:269-295 | Negating the BETWEEN node gives the NOT BETWEEN node over the same bounds, and the reverse. |
| ComparatorProperties.RegexpNegationAgrees | lib/sqlalchemy/sql/default_comparator.py:302-319 | For a pattern that is not a constant, negating the REGEXP MATCH node gives the NOT REGEXP MATCH node. |
| ComparatorProperties.MatchNegation | lib/sqlalchemy/sql/default_comparator.py:242-259 | Negating the MATCH node gives a NOT MATCH node. The node built when called with `not_match_op` is its own negation. |
| HandlerProperties.BinaryReverseSwaps | lib/sqlalchemy/sql/default_comparator.py:156-182 | With a result type given, `reverse` exactly swaps the two sides of the binary node and changes nothing else. Without one, adaptation is applied to the coerced operand first and the expression second. |
| HandlerProperties.BinaryNotNegatable | lib/sqlalchemy/sql/default_comparator.py:156-182 | A binary operation records no negation, so `~` over it does not exchange operators but negates the node opaquely. |
| HandlerProperties.CustomOpIgnoresAdapter | lib/sqlalchemy/sql/default_comparator.py:144-153 | Once a custom operator's type is known (passed by the caller, declared as its return type, or Boolean for a comparison), the node is the same whatever adaptation would do. |
| HandlerProperties.CustomOpAsBinary | lib/sqlalchemy/sql/default_comparator.py:144-153 | A custom operator given a result type builds the same node as a plain binary operation with that type; one declaring a return type builds the node a binary operation with that return type would. |
| HandlerProperties.ConjunctionRouting | lib/sqlalchemy/sql/default_comparator.py:185-191 | The table sends exactly `and_` and `or_` to `_conjunction_operate`, and these are exactly the operators for which it does not raise. |
| HandlerProperties.GetItemRouting | lib/sqlalchemy/sql/default_comparator.py:451 | Only `getitem` reaches `_getitem_impl`. |
| HandlerProperties.GetItemFallsBack | lib/sqlalchemy/sql/default_comparator.py:210-217 | Indexing a type that is not indexable is exactly `_unsupported_impl`. On an indexable type with a result type, `reverse` exactly swaps the two sides. |
| HandlerProperties.GetItemAsBinary | lib/sqlalchemy/sql/default_comparator.py:210-215 | On an indexable type, indexing builds exactly the node `_binary_operate` builds for the index coerced as a binary element, with the same `reverse`, result type, keywords and adaptation. |
| HandlerProperties.UnaryRouting | lib/sqlalchemy/sql/default_comparator.py:444-450 | Only `neg` reaches `_neg_impl`, only `distinct_op` reaches `_distinct_impl`, and only `collate` reaches `_collate_impl`. |
| HandlerProperties.UnaryIgnoresOperator | lib/sqlalchemy/sql/default_comparator.py:237-266 | Unary minus and DISTINCT build the same node whatever operator they are called with, and record no negation, so `~` over them negates opaquely. |
| HandlerProperties.ScalarRouting | lib/sqlalchemy/sql/default_comparator.py:362-427 | `any_op`, `all_op`, `desc_op`, `asc_op`, `nulls_first_op` and `nulls_last_op` each reach `_scalar` with their own factory, and no other operator reaches `_scalar` with that factory. |
| HandlerProperties.ScalarNotNegatable | lib/sqlalchemy/sql/default_comparator.py:194-195 | The node `_scalar` builds from a factory records no negation, so `~` over it negates opaquely. |
| HandlerProperties.RegexpReplaceNotNegatable | lib/sqlalchemy/sql/default_comparator.py:322-340 | Only `regexp_replace_op` reaches `_regexp_replace_impl`. Its node records no negation, so unlike REGEXP MATCH, `~` over it negates opaquely. |

## Left out

- Coercion (`coercions.expect`) is an opaque wrapper. It ignores the `expr=` and `operator=` arguments the source passes. So the node equalities in ComparisonNegationAgrees, ComplementaryComparisons, InNegationAgrees and RegexpNegationAgrees hold up to the operator each coercion was given: `~(x < y)` carries `y` coerced for `lt`, `x >= y` carries it coerced for `ge`.
- The model never classifies a coerced value as `Null()`, `True_()` or `False_()`. So a coercion that yields one of these (for example `match(None)`) takes the general path here.
- `_adapt_expression` is the function parameter `Adapter`. Its type-dependent rules are not part of this model.
- `and_`, `or_`, `CollectionAggregate._create_any/_create_all`, the `UnaryExpression._create_*` factories and `CollationClause._create_collation_expression` are foreign constructors. A node records only which one was chosen and its arguments.
- The `in_ops` annotation is the `inOps` parameter. `negation_clause` is the optional field `Element.negationClause`. Other annotations are not modelled.
- `_negate()` is modelled for one case only: a binary node that records a negation exchanges its operator and negation. Every other expression negates to the opaque `Inverted` node. The element classes are not part of this model.
- `_python_is_types` is fixed at `(NoneType, bool)`. Callers overriding it are not modelled.
- InImpl: forwards `**kw` to `_boolean_compare`. In the model these keywords are modifiers only, so a forwarded `reverse`, `_any_all_expr` or `result_type` is not modelled and the defaults are used.
- MatchImpl: forwards `**kw` to `_boolean_compare`. A forwarded `reverse` or `_any_all_expr` is not modelled, and the defaults are used.
- RegexpMatchImpl: forwards `**kw` to `_boolean_compare`. A forwarded `reverse`, `_any_all_expr` or `result_type` is not modelled, and the defaults are used.
- RegexpReplaceImpl: forwards `**kw` to `_binary_operate`. A forwarded `reverse` or `result_type` is not modelled; the model uses `reverse=False` and no result type.
- The table is keyed by `op.__name__`. The model keys it by operator constructor, and every custom operator shares the `custom_op` entry.
- Applying the table is left out: the caller that does it is not part of this model. So are the KeyError for an operator without an entry and Python's arity errors. `Scalar` (`_scalar`) just applies the factory the table supplies. It has no contract of its own; `ScalarRouting` and `ScalarNotNegatable` state what is known about it.
- `_regexp_match_impl` and `_regexp_replace_impl` called with a `flags` or `replacement` keyword of their own would raise Python's duplicate-keyword TypeError. The model overwrites that keyword instead.
- RegexpMatchImpl: requires the operator to be `regexp_match_op` or `not_regexp_match_op`. Those are the only operators the table routes to it.
