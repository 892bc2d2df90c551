/** SQL datatypes, as far as the comparator looks at them. */
module Types {

  /**
   * A SQL type engine. The comparator only ever names two types itself
   * (`BOOLEANTYPE` and `MATCHTYPE`); every other type is an opaque user
   * type, of which the comparator only asks whether it is indexable.
   */
  datatype SqlType =
    | BooleanType
    | MatchType
    | UserType(id: nat, indexable: bool)

  /** `isinstance(t, type_api.INDEXABLE)` */
  predicate IsIndexable(t: SqlType) {
    t.UserType? && t.indexable
  }
}
