/**
 * One clause of a query: the attribute it reads, the test it applies, the
 * literal it tests against, how it joins the clauses before it, and
 * whether its outcome is inverted.
 */
module GatherCriteria {
  import opened JavaValues

  /** The tests a clause can apply. */
  datatype Operation =
    | IsNull
    | Equals
    | EqualsIgnoreCase
    | WildcardMatch
    | RegexMatch
    | LessThan
    | LessThanOrEquals
    | GreaterThan
    | GreaterThanOrEquals
    | In
    | HasProperty
    | CollectionHasValue
    | CollectionHasAllValues
    | CollectionHasAnyValue

  /** How a clause's outcome combines with the outcome so far. */
  datatype SiblingJoin = AND | OR

  /** `GatherCriteria(key, operation, value, siblingJoin, inverse)`; a null
      key is `None`. */
  datatype Criterion = Criterion(
    key: Option<string>,
    operation: Operation,
    value: Value,
    join: SiblingJoin,
    inverse: bool)
}
