/**
 * The four ordering tests the ordering criteria apply to the result of
 * `compareTo`: each is a sign test on a Java `int`.
 */
module NumericComparison {

  datatype NumericComparison = LessThan | LessThanOrEquals | GreaterThan | GreaterThanOrEquals
  {
    /** `test(int value)` of the matching constant: only the sign of the
        comparison result matters; zero passes exactly the non-strict
        tests, and a non-zero result the two tests on its side. */
    predicate Test(value: int)
      ensures value == 0 ==> (Test(value) <==> this == LessThanOrEquals || this == GreaterThanOrEquals)
      ensures value != 0 ==> (Test(value) <==> (value < 0 <==> this == LessThan || this == LessThanOrEquals))
    {
      match this
      case LessThan => value < 0
      case LessThanOrEquals => value <= 0
      case GreaterThan => value > 0
      case GreaterThanOrEquals => value >= 0
    }

    /** The constant whose test is the negation of this one's. */
    function Complement(): (c: NumericComparison)
      ensures forall v :: c.Test(v) <==> !Test(v)
    {
      match this
      case LessThan => GreaterThanOrEquals
      case LessThanOrEquals => GreaterThan
      case GreaterThan => LessThanOrEquals
      case GreaterThanOrEquals => LessThan
    }

    /** The constant that gives the same answer on the operands swapped,
        i.e. on the negated comparison result. */
    function Mirror(): (c: NumericComparison)
      ensures forall v :: c.Test(-v) <==> Test(v)
    {
      match this
      case LessThan => GreaterThan
      case LessThanOrEquals => GreaterThanOrEquals
      case GreaterThan => LessThan
      case GreaterThanOrEquals => LessThanOrEquals
    }
  }
}
