/**
 * The query builder: a pending key, the join for the next clause and an
 * inversion flag, plus the list of clauses that the terminal calls
 * append to.  A built query is fired at a collection through the
 * executor.
 */
module GatherQuery {
  import opened JavaValues
  import opened GatherCriteria
  import GatherReflect
  import GatherExecutor

  /** A `String` argument as a value: `null` or the string. */
  function StrOrNull(s: Option<string>): (v: Value)
    ensures s.None? <==> v.Null?
    ensures s.Some? ==> v == Str(s.value)
  {
    match s
    case None => Null
    case Some(t) => Str(t)
  }

  class Gather {
    /** The clauses, in the order they were added. */
    var criteria: seq<Criterion>
    /** The attribute the next terminal call tests; `None` once consumed. */
    var key: Option<string>
    /** How the next clause joins the ones before it. */
    var siblingJoin: SiblingJoin
    /** Whether the next clause's outcome is inverted. */
    var inverse: bool

    /** `new Gather(key)`: no clauses, join OR, not inverted. */
    constructor(key: Option<string>)
      ensures criteria == [] && this.key == key && siblingJoin == OR && !inverse
    {
      criteria := [];
      this.key := key;
      siblingJoin := OR;
      inverse := false;
    }

    /** `Gather.where(name)`: a fresh query whose first clause tests `name`. */
    static method Where(name: Option<string>) returns (g: Gather)
      ensures fresh(g)
      ensures g.criteria == [] && g.key == name && g.siblingJoin == OR && !g.inverse
    {
      g := new Gather(name);
    }

    /** `Gather.hasProperty(name)`: a fresh query holding exactly one clause,
        that `name` resolves to a field. */
    static method HasProperty(name: Option<string>) returns (g: Gather)
      ensures fresh(g)
      ensures g.criteria == [Criterion(name, Operation.HasProperty, Null, OR, false)]
      ensures g.key.None? && g.siblingJoin == OR && !g.inverse
    {
      g := new Gather(name);
      g.ExistsProperty();
    }

    /** `fluent()`: the pending key and inversion are consumed; the join
        stays for the next clause. */
    method Fluent()
      modifies this
      ensures key.None? && !inverse
      ensures criteria == old(criteria) && siblingJoin == old(siblingJoin)
    {
      key := None;
      inverse := false;
    }

    /** Appends one clause on the pending key with the current join and
        the given inversion, then consumes the key. */
    method AddClause(op: Operation, value: Value, inv: bool)
      modifies this
      ensures criteria == old(criteria) + [Criterion(old(key), op, value, old(siblingJoin), inv)]
      ensures key.None? && !inverse && siblingJoin == old(siblingJoin)
    {
      criteria := criteria + [Criterion(key, op, value, siblingJoin, inv)];
      Fluent();
    }

    /** `and(key)` as written: throws when a key is still pending, and
        otherwise sets the join to AND but drops its argument, so no key
        is pending afterwards. */
    method And(k: Option<string>) returns (c: Completion)
      modifies this
      ensures old(key).Some? ==> c == Abrupt(IllegalArgument) && unchanged(this)
      ensures old(key).None? ==> c == Normal && criteria == old(criteria) && siblingJoin == AND
      ensures old(key).None? ==> key.None? && !inverse
    {
      if key.Some? {
        return Abrupt(IllegalArgument);
      }
      siblingJoin := AND;
      Fluent();
      return Normal;
    }

    /** `or(key)` as written: as `And`, with the join set to OR. */
    method Or(k: Option<string>) returns (c: Completion)
      modifies this
      ensures old(key).Some? ==> c == Abrupt(IllegalArgument) && unchanged(this)
      ensures old(key).None? ==> c == Normal && criteria == old(criteria) && siblingJoin == OR
      ensures old(key).None? ==> key.None? && !inverse
    {
      if key.Some? {
        return Abrupt(IllegalArgument);
      }
      siblingJoin := OR;
      Fluent();
      return Normal;
    }

    /** `and(key)` keeping its argument as the next clause's key. */
    method AndKeepingKey(k: Option<string>) returns (c: Completion)
      modifies this
      ensures old(key).Some? ==> c == Abrupt(IllegalArgument) && unchanged(this)
      ensures old(key).None? ==> c == Normal && criteria == old(criteria) && siblingJoin == AND &&
                                 key == k && !inverse
    {
      if key.Some? {
        return Abrupt(IllegalArgument);
      }
      siblingJoin := AND;
      Fluent();
      key := k;
      return Normal;
    }

    /** `or(key)` keeping its argument as the next clause's key. */
    method OrKeepingKey(k: Option<string>) returns (c: Completion)
      modifies this
      ensures old(key).Some? ==> c == Abrupt(IllegalArgument) && unchanged(this)
      ensures old(key).None? ==> c == Normal && criteria == old(criteria) && siblingJoin == OR &&
                                 key == k && !inverse
    {
      if key.Some? {
        return Abrupt(IllegalArgument);
      }
      siblingJoin := OR;
      Fluent();
      key := k;
      return Normal;
    }

    /** `not()`: inverts the next clause; throws when no key is pending. */
    method Not() returns (c: Completion)
      modifies this
      ensures old(key).None? ==> c == Abrupt(IllegalArgument) && unchanged(this)
      ensures old(key).Some? ==>
                c == Normal && inverse &&
                criteria == old(criteria) && key == old(key) && siblingJoin == old(siblingJoin)
    {
      if key.None? {
        return Abrupt(IllegalArgument);
      }
      inverse := true;
      return Normal;
    }

    /** `is(value)`: an Equals clause; throws when no key is pending. */
    method Is(value: Value) returns (c: Completion)
      modifies this
      ensures old(key).None? ==> c == Abrupt(IllegalArgument) && unchanged(this)
      ensures old(key).Some? ==>
                c == Normal &&
                criteria == old(criteria) + [Criterion(old(key), Operation.Equals, value, old(siblingJoin), old(inverse))] &&
                key.None? && !inverse && siblingJoin == old(siblingJoin)
    {
      if key.None? {
        return Abrupt(IllegalArgument);
      }
      AddClause(Operation.Equals, value, inverse);
      return Normal;
    }

    /** `existsProperty()`: a HasProperty clause, never inverted. */
    method ExistsProperty()
      modifies this
      ensures criteria == old(criteria) + [Criterion(old(key), Operation.HasProperty, Null, old(siblingJoin), false)]
      ensures key.None? && !inverse && siblingJoin == old(siblingJoin)
    {
      AddClause(Operation.HasProperty, Null, false);
    }

    /** `notExistsProperty()`: a HasProperty clause, always inverted. */
    method NotExistsProperty()
      modifies this
      ensures criteria == old(criteria) + [Criterion(old(key), Operation.HasProperty, Null, old(siblingJoin), true)]
      ensures key.None? && !inverse && siblingJoin == old(siblingJoin)
    {
      AddClause(Operation.HasProperty, Null, true);
    }

    /** `has(value)`: the field is a collection or array holding `value`. */
    method Has(value: Value)
      modifies this
      ensures criteria == old(criteria) + [Criterion(old(key), CollectionHasValue, value, old(siblingJoin), old(inverse))]
      ensures key.None? && !inverse && siblingJoin == old(siblingJoin)
    {
      AddClause(CollectionHasValue, value, inverse);
    }

    /** `hasAll(values)`, for a collection or an object array of values. */
    method HasAll(values: Value)
      modifies this
      ensures criteria == old(criteria) + [Criterion(old(key), CollectionHasAllValues, values, old(siblingJoin), old(inverse))]
      ensures key.None? && !inverse && siblingJoin == old(siblingJoin)
    {
      AddClause(CollectionHasAllValues, values, inverse);
    }

    /** `hasAny(values)`, for a collection or an object array of values. */
    method HasAny(values: Value)
      modifies this
      ensures criteria == old(criteria) + [Criterion(old(key), CollectionHasAnyValue, values, old(siblingJoin), old(inverse))]
      ensures key.None? && !inverse && siblingJoin == old(siblingJoin)
    {
      AddClause(CollectionHasAnyValue, values, inverse);
    }

    /** `isNull()`. */
    method IsNull()
      modifies this
      ensures criteria == old(criteria) + [Criterion(old(key), Operation.IsNull, Null, old(siblingJoin), old(inverse))]
      ensures key.None? && !inverse && siblingJoin == old(siblingJoin)
    {
      AddClause(Operation.IsNull, Null, inverse);
    }

    /** `isNotNull()`: an IsNull clause, always inverted. */
    method IsNotNull()
      modifies this
      ensures criteria == old(criteria) + [Criterion(old(key), Operation.IsNull, Null, old(siblingJoin), true)]
      ensures key.None? && !inverse && siblingJoin == old(siblingJoin)
    {
      AddClause(Operation.IsNull, Null, true);
    }

    /** `isIgnoreCase(value)`. */
    method IsIgnoreCase(value: Option<string>)
      modifies this
      ensures criteria == old(criteria) + [Criterion(old(key), EqualsIgnoreCase, StrOrNull(value), old(siblingJoin), old(inverse))]
      ensures key.None? && !inverse && siblingJoin == old(siblingJoin)
    {
      AddClause(EqualsIgnoreCase, StrOrNull(value), inverse);
    }

    /** `like(pattern)`: a wildcard clause. */
    method Like(pattern: Option<string>)
      modifies this
      ensures criteria == old(criteria) + [Criterion(old(key), WildcardMatch, StrOrNull(pattern), old(siblingJoin), old(inverse))]
      ensures key.None? && !inverse && siblingJoin == old(siblingJoin)
    {
      AddClause(WildcardMatch, StrOrNull(pattern), inverse);
    }

    /** `regex(pattern)`, for a pattern given as text or compiled. */
    method Regex(pattern: Value)
      requires pattern.Null? || pattern.Str? || pattern.Pattern?
      modifies this
      ensures criteria == old(criteria) + [Criterion(old(key), RegexMatch, pattern, old(siblingJoin), old(inverse))]
      ensures key.None? && !inverse && siblingJoin == old(siblingJoin)
    {
      AddClause(RegexMatch, pattern, inverse);
    }

    /** `greaterThan(value)`. */
    method GreaterThan(value: Value)
      modifies this
      ensures criteria == old(criteria) + [Criterion(old(key), Operation.GreaterThan, value, old(siblingJoin), old(inverse))]
      ensures key.None? && !inverse && siblingJoin == old(siblingJoin)
    {
      AddClause(Operation.GreaterThan, value, inverse);
    }

    /** `greaterThanOrEquals(value)`. */
    method GreaterThanOrEquals(value: Value)
      modifies this
      ensures criteria == old(criteria) + [Criterion(old(key), Operation.GreaterThanOrEquals, value, old(siblingJoin), old(inverse))]
      ensures key.None? && !inverse && siblingJoin == old(siblingJoin)
    {
      AddClause(Operation.GreaterThanOrEquals, value, inverse);
    }

    /** `lessThan(value)`. */
    method LessThan(value: Value)
      modifies this
      ensures criteria == old(criteria) + [Criterion(old(key), Operation.LessThan, value, old(siblingJoin), old(inverse))]
      ensures key.None? && !inverse && siblingJoin == old(siblingJoin)
    {
      AddClause(Operation.LessThan, value, inverse);
    }

    /** `lessThanOrEquals(value)`. */
    method LessThanOrEquals(value: Value)
      modifies this
      ensures criteria == old(criteria) + [Criterion(old(key), Operation.LessThanOrEquals, value, old(siblingJoin), old(inverse))]
      ensures key.None? && !inverse && siblingJoin == old(siblingJoin)
    {
      AddClause(Operation.LessThanOrEquals, value, inverse);
    }

    /** `count(collection)`: the number of items matching the query. */
    method Count(o: Oracles, cache: GatherReflect.FieldCache, items: Option<seq<Value>>) returns (r: Outcome<int>)
      requires cache.Valid()
      modifies cache
      ensures cache.Valid()
      ensures items.None? ==> r == Thrown(NullPointer)
      ensures items.Some? && GatherExecutor.NoneThrow(GatherExecutor.Verdicts(o, items.value, criteria)) ==>
        r == Ok(|GatherExecutor.Matching(o, items.value, criteria)|)
      ensures items.Some? && !GatherExecutor.NoneThrow(GatherExecutor.Verdicts(o, items.value, criteria)) ==>
        r == Thrown(GatherExecutor.FirstFailure(GatherExecutor.Verdicts(o, items.value, criteria)).value)
    {
      r := GatherExecutor.Count(o, cache, items, criteria);
    }

    /** `find(collection, numResults, skipCount)`; `find(collection)` and
        `find(collection, numResults)` pass zeros for what they omit. As
        written, `getResults` drops both numbers, so every match comes back. */
    method Find(o: Oracles, cache: GatherReflect.FieldCache, items: Option<seq<Value>>, numResults: int, skipCount: int)
      returns (r: Outcome<seq<Value>>)
      requires cache.Valid()
      modifies cache
      ensures cache.Valid()
      ensures items.None? ==> r == Thrown(NullPointer)
      ensures items.Some? && GatherExecutor.NoneThrow(GatherExecutor.Verdicts(o, items.value, criteria)) ==>
        r == Ok(GatherExecutor.Matching(o, items.value, criteria))
      ensures items.Some? && !GatherExecutor.NoneThrow(GatherExecutor.Verdicts(o, items.value, criteria)) ==>
        r == Thrown(GatherExecutor.FirstFailure(GatherExecutor.Verdicts(o, items.value, criteria)).value)
    {
      r := GatherExecutor.GetResultsAsWritten(o, cache, items, criteria, numResults, skipCount);
    }

    /** `findOne(collection, skipCount)` as written: it asks for one result
        after `skipCount`, but `getResults` drops both numbers, so it is the
        first match whatever `skipCount` is, or null when nothing matches. */
    method FindOne(o: Oracles, cache: GatherReflect.FieldCache, items: Option<seq<Value>>, skipCount: int)
      returns (r: Outcome<Value>)
      requires cache.Valid()
      modifies cache
      ensures cache.Valid()
      ensures items.None? ==> r == Thrown(NullPointer)
      ensures items.Some? && GatherExecutor.NoneThrow(GatherExecutor.Verdicts(o, items.value, criteria)) ==>
        var ms := GatherExecutor.Matching(o, items.value, criteria);
        r == Ok(if |ms| > 0 then ms[0] else Null)
      ensures items.Some? && !GatherExecutor.NoneThrow(GatherExecutor.Verdicts(o, items.value, criteria)) ==>
        r == Thrown(GatherExecutor.FirstFailure(GatherExecutor.Verdicts(o, items.value, criteria)).value)
    {
      var results := GatherExecutor.GetResultsAsWritten(o, cache, items, criteria, 1, skipCount);
      match results {
        case Thrown(e) => return Thrown(e);
        case Ok(list) =>
          if |list| == 0 {
            return Ok(Null);
          }
          return Ok(list[0]);
      }
    }

    /** `find` over the corrected `getResults`, which honours `numResults`
        and `skipCount`. */
    method FindLimited(o: Oracles, cache: GatherReflect.FieldCache, items: Option<seq<Value>>, numResults: int, skipCount: int)
      returns (r: Outcome<seq<Value>>)
      requires cache.Valid()
      modifies cache
      ensures cache.Valid()
      ensures items.None? ==> r == Thrown(NullPointer)
      ensures items.Some? && GatherExecutor.NoneThrow(GatherExecutor.Verdicts(o, items.value, criteria)) ==>
        r == Ok(GatherExecutor.Window(GatherExecutor.Matching(o, items.value, criteria),
                                      if skipCount > 0 then skipCount else 0, numResults))
      ensures items.Some? ==>
        (r.Thrown? <==> GatherExecutor.ResultsInternal(o, items, criteria, numResults, skipCount, false).Thrown?)
      ensures items.Some? && r.Thrown? ==>
        GatherExecutor.FirstFailure(GatherExecutor.Verdicts(o, items.value, criteria)) == Some(r.ex)
      ensures items.Some? && numResults <= 0 && !GatherExecutor.NoneThrow(GatherExecutor.Verdicts(o, items.value, criteria)) ==>
        r == Thrown(GatherExecutor.FirstFailure(GatherExecutor.Verdicts(o, items.value, criteria)).value)
    {
      r := GatherExecutor.GetResults(o, cache, items, criteria, numResults, skipCount);
    }

    /** `findOne` over the corrected `getResults`: the first match after
        skipping `skipCount` matches, or null when there is none. */
    method FindOneSkipping(o: Oracles, cache: GatherReflect.FieldCache, items: Option<seq<Value>>, skipCount: int)
      returns (r: Outcome<Value>)
      requires cache.Valid()
      modifies cache
      ensures cache.Valid()
      ensures items.None? ==> r == Thrown(NullPointer)
      ensures items.Some? && GatherExecutor.NoneThrow(GatherExecutor.Verdicts(o, items.value, criteria)) ==>
        var ms := GatherExecutor.Matching(o, items.value, criteria);
        var s := if skipCount > 0 then skipCount else 0;
        r == Ok(if s < |ms| then ms[s] else Null)
      ensures items.Some? ==>
        (r.Thrown? <==> GatherExecutor.ResultsInternal(o, items, criteria, 1, skipCount, false).Thrown?)
      ensures items.Some? && r.Thrown? ==>
        GatherExecutor.FirstFailure(GatherExecutor.Verdicts(o, items.value, criteria)) == Some(r.ex)
    {
      var results := GatherExecutor.GetResults(o, cache, items, criteria, 1, skipCount);
      match results {
        case Thrown(e) => return Thrown(e);
        case Ok(list) =>
          if |list| == 0 {
            return Ok(Null);
          }
          return Ok(list[0]);
      }
    }
  }

  /** `where(a).is(x).and(b).is(y)` as written: `and` drops `b`, so the
      second `is` finds no pending key and throws. */
  method AndThenIsThrows(a: string, x: Value, b: string, y: Value) returns (g: Gather, c: Completion)
    ensures fresh(g)
    ensures c == Abrupt(IllegalArgument)
    ensures g.criteria == [Criterion(Some(a), Operation.Equals, x, OR, false)]
  {
    g := Gather.Where(Some(a));
    c := g.Is(x);
    c := g.And(Some(b));
    c := g.Is(y);
  }

  /** The same chain with the key kept: two Equals clauses, the second
      joined by AND. */
  method AndKeepingKeyThenIs(a: string, x: Value, b: string, y: Value) returns (g: Gather, c: Completion)
    ensures fresh(g)
    ensures c == Normal
    ensures g.criteria == [Criterion(Some(a), Operation.Equals, x, OR, false),
                           Criterion(Some(b), Operation.Equals, y, AND, false)]
  {
    g := Gather.Where(Some(a));
    c := g.Is(x);
    c := g.AndKeepingKey(Some(b));
    c := g.Is(y);
  }
}
