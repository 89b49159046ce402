/**
 * Running a query: each clause resolves its attribute on an item and
 * applies its test; the clause outcomes fold left to right through their
 * joins; matching items are counted or collected, with skipping and a
 * result limit; aggregation feeds resolved values into a reducer.
 */
module GatherExecutor {
  import opened JavaValues
  import opened GatherCriteria
  import opened GatherReflect
  import opened GatherAggregator
  import GatherUtils
  import NumericComparison

  // =====================================================================
  // The tests
  // =====================================================================

  /** `handleEquals`: both sides non-null and the field value equals the
      literal; every non-null value equals itself. */
  predicate HandleEquals(field: Value, required: Value)
    ensures HandleEquals(field, required) ==> !field.Null? && !required.Null?
    ensures !field.Null? && required == field ==> HandleEquals(field, required)
  {
    if field.Null? || required.Null? then false
    else EqualsReflexive(field); JavaValues.Equals(field, required)
  }

  /** `handleEqualsIgnoreCase`: a string field is compared ignoring case
      with the literal's text; any other field falls back to equality.
      Whatever is equal is also equal ignoring case. */
  predicate HandleEqualsIgnoreCase(o: Oracles, field: Value, required: Value)
    ensures HandleEquals(field, required) ==> HandleEqualsIgnoreCase(o, field, required)
    ensures HandleEqualsIgnoreCase(o, field, required) ==> !field.Null? && !required.Null?
  {
    if field.Null? || required.Null? then false
    else if field.Str? then
      assert HandleEquals(field, required) ==> required == field;
      JavaValues.EqualsIgnoreCase(o, field.s, ToString(o, required))
    else HandleEquals(field, required)
  }

  /** `handleValueIn`: the field value is an element of the literal, which
      must be a non-empty collection or an object array.  It is the
      converse of `handleCollectionHasValue` on those containers. */
  predicate HandleValueIn(field: Value, required: Value)
    ensures HandleValueIn(field, required) <==>
      ((required.List? && |required.items| > 0) || required.RefArray?) &&
      HandleCollectionHasValue(required, field)
  {
    if field.Null? || required.Null? then false
    else match required
      case List(items) => |items| > 0 && CollectionContains(items, field)
      case RefArray(_, _, elems) => GatherUtils.ObjectIn(elems, field)
      case _ => false
  }

  /** `handleCollectionHasValue`: the field value is a collection or array
      holding the literal.  Only containers hold anything, and primitive
      numeric arrays only hold numbers equal, once narrowed, to an element. */
  predicate HandleCollectionHasValue(field: Value, required: Value)
    ensures HandleCollectionHasValue(field, required) ==>
      !required.Null? && (field.List? || field.RefArray? || field.CharArray? || field.BoolArray? || field.IntArray?)
    ensures HandleCollectionHasValue(field, required) && field.IntArray? ==>
      IsNumber(required) && exists k :: 0 <= k < |field.ints| && field.ints[k] == NarrowTo(field.width, required)
  {
    if field.Null? || required.Null? then false
    else match field
      case List(items) => CollectionContains(items, required)
      case RefArray(_, _, elems) => GatherUtils.ObjectIn(elems, required)
      case CharArray(_, cs) => GatherUtils.CharIn(cs, required)
      case BoolArray(_, bs) => GatherUtils.BoolIn(bs, required)
      case IntArray(_, w, ns) => IsNumber(required) && GatherUtils.IntIn(ns, w, required)
      case _ => false
  }

  /** `handleCollectionHasAllOrAnyValues`: dispatch on the field's container
      type to the matching `containsAllOrAny`.  Only a `Boolean[]` literal
      holding a null makes it throw, by unboxing, and only against a
      non-empty `boolean[]` field; only containers can match. */
  function HandleCollectionHasAllOrAny(field: Value, required: Value, all: bool): (r: Outcome<bool>)
    ensures r.Thrown? <==>
      field.BoolArray? && |field.bools| > 0 && required.RefArray? && required.elemKind == Booleans &&
      GatherUtils.HasNull(required.elems)
    ensures r.Thrown? ==> r.ex == NullPointer
    ensures r == Ok(true) ==>
      !required.Null? && (field.List? || field.RefArray? || field.CharArray? || field.BoolArray? || field.IntArray?)
  {
    if field.Null? || required.Null? then Ok(false)
    else match field
      case List(items) => Ok(GatherUtils.CollectionAllOrAny(items, required, all))
      case RefArray(_, _, elems) => Ok(GatherUtils.ObjectsAllOrAny(elems, required, all))
      case CharArray(_, cs) => Ok(GatherUtils.CharsAllOrAny(cs, required, all))
      case BoolArray(_, bs) => GatherUtils.BoolsAllOrAny(bs, required, all)
      case IntArray(_, w, ns) => Ok(GatherUtils.IntsAllOrAny(ns, w, required, all))
      case _ => Ok(false)
  }

  /** `handleWildcardMatch`: the field's text is matched against the
      literal's text by `wildcardMatch` as written, which is the glob
      relation whenever the field's text holds no `*`. */
  predicate HandleWildcardMatch(o: Oracles, field: Value, required: Value)
    ensures (forall k :: 0 <= k < |ToString(o, field)| ==> ToString(o, field)[k] != '*') ==>
      (HandleWildcardMatch(o, field, required) <==>
       !field.Null? && !required.Null? && GatherUtils.Glob(ToString(o, field), ToString(o, required)))
  {
    !field.Null? && !required.Null? &&
    var text := ToString(o, field);
    var pattern := ToString(o, required);
    GatherUtils.AsWrittenAgreesWithoutStarsInText(text, pattern);
    GatherUtils.WildcardMatchAsWritten(text, pattern)
  }

  /** `handleRegexMatch`: the field's text fully matches the literal, used
      as is when it is a compiled pattern and compiled from its text
      otherwise.  Only pattern text that does not compile throws. */
  function HandleRegexMatch(o: Oracles, field: Value, required: Value): (r: Outcome<bool>)
    ensures r.Thrown? <==>
      !field.Null? && !required.Null? && !required.Pattern? && !o.regexCompiles(ToString(o, required))
    ensures r.Thrown? ==> r.ex == IllegalArgument
  {
    if field.Null? || required.Null? then Ok(false)
    else
      var text := ToString(o, field);
      match required
      case Pattern(_, regex) => Ok(o.regexMatches(text, regex))
      case _ =>
        var pattern := ToString(o, required);
        if o.regexCompiles(pattern) then Ok(o.regexMatches(text, pattern))
        else Thrown(IllegalArgument)
  }

  // ---------------------------------------------------------------------
  // Ordering
  // ---------------------------------------------------------------------

  /** Values whose class implements `Comparable`. */
  predicate IsComparable(v: Value)
  {
    v.Str? || v.Char? || v.Bool? || v.Boxed? || v.Decimal?
  }

  /** The literal is non-null and of the field's own class, so the cast
      inside `compareTo` succeeds. */
  predicate SameComparableClass(field: Value, required: Value)
  {
    match field
    case Str(_) => required.Str?
    case Char(_) => required.Char?
    case Bool(_) => required.Bool?
    case Boxed(k, _) => required.Boxed? && required.kind == k
    case Decimal(_) => required.Decimal?
    case _ => false
  }

  /** `String.compareTo`: the difference of the first differing characters,
      or of the lengths when one string is a prefix of the other. */
  function StringCompare(a: string, b: string): int
    decreases |a|
  {
    if a == [] || b == [] then |a| - |b|
    else if a[0] != b[0] then a[0] as int - b[0] as int
    else StringCompare(a[1..], b[1..])
  }

  lemma {:induction false} StringCompareZeroIffEqual(a: string, b: string)
    ensures StringCompare(a, b) == 0 <==> a == b
    decreases |a|
  {
    if a != [] && b != [] && a[0] == b[0] {
      StringCompareZeroIffEqual(a[1..], b[1..]);
      if a[1..] == b[1..] {
        assert a == [a[0]] + a[1..] && b == [b[0]] + b[1..];
      }
    }
  }

  lemma {:induction false} StringCompareAntisymmetric(a: string, b: string)
    ensures StringCompare(a, b) == -StringCompare(b, a)
    decreases |a|
  {
    if a != [] && b != [] && a[0] == b[0] {
      StringCompareAntisymmetric(a[1..], b[1..]);
    }
  }

  /** `field.compareTo(required)` through the raw `Comparable<Object>`
      view: a null literal throws, a literal of another class fails the
      cast.  Byte, Short and Character return the difference, Integer, Long
      and BigDecimal -1, 0 or 1. */
  function CompareTo(field: Value, required: Value): (r: Outcome<int>)
    requires IsComparable(field)
    ensures r.Thrown? <==> !SameComparableClass(field, required)
    ensures r.Thrown? ==> (r.ex == NullPointer <==> required.Null?)
    ensures r.Thrown? ==> (r.ex == NullPointer || r.ex == ClassCast)
  {
    if required.Null? then Thrown(NullPointer)
    else match field
      case Str(a) => if required.Str? then Ok(StringCompare(a, required.s)) else Thrown(ClassCast)
      case Char(a) => if required.Char? then Ok(a as int - required.c as int) else Thrown(ClassCast)
      case Bool(a) =>
        if required.Bool? then Ok(if a == required.b then 0 else if a then 1 else -1)
        else Thrown(ClassCast)
      case Boxed(k, _) =>
        if required.Boxed? && required.kind == k then
          var d := field.n - required.n;
          match k
          case Byte => Ok(d)
          case Short => Ok(d)
          case _ => Ok(Sign(d))
        else Thrown(ClassCast)
      case Decimal(a) =>
        if required.Decimal? then Ok(GatherUtils.RealSign(a - required.d)) else Thrown(ClassCast)
  }

  /** Every comparable value compares equal to itself. */
  lemma CompareToReflexive(v: Value)
    requires IsComparable(v)
    ensures CompareTo(v, v) == Ok(0)
  {
    if v.Str? {
      StringCompareZeroIffEqual(v.s, v.s);
    }
  }

  /** Swapping the operands negates the sign of the comparison. */
  lemma CompareToAntisymmetric(a: Value, b: Value)
    requires IsComparable(a) && IsComparable(b)
    ensures CompareTo(a, b).Ok? <==> CompareTo(b, a).Ok?
    ensures CompareTo(a, b).Ok? ==> Sign(CompareTo(a, b).value) == -Sign(CompareTo(b, a).value)
  {
    if a.Str? && b.Str? {
      StringCompareAntisymmetric(a.s, b.s);
    }
  }

  /** `handleNumericComparison`: a null field never matches; a comparable
      field is compared with the literal and the test applied to the
      result; any other field does not match.  It throws exactly when
      `compareTo` does: for a comparable field and a literal that is null
      or of another class. */
  function HandleNumericComparison(field: Value, required: Value, test: NumericComparison.NumericComparison): (r: Outcome<bool>)
    ensures r.Thrown? <==> IsComparable(field) && !SameComparableClass(field, required)
    ensures r.Thrown? ==> (r.ex == NullPointer <==> required.Null?)
    ensures r == Ok(true) ==> IsComparable(field)
  {
    if field.Null? then Ok(false)
    else if IsComparable(field) then
      match CompareTo(field, required)
      case Ok(n) => Ok(test.Test(n))
      case Thrown(e) => Thrown(e)
    else Ok(false)
  }

  /** Swapping the field and a literal of its own class and mirroring the
      test gives the same answer. */
  lemma SwappedOperandsMirrorTest(a: Value, b: Value, test: NumericComparison.NumericComparison)
    requires IsComparable(a) && SameComparableClass(a, b)
    ensures HandleNumericComparison(a, b, test).Ok? && HandleNumericComparison(b, a, test.Mirror()).Ok?
    ensures HandleNumericComparison(b, a, test.Mirror()).value == HandleNumericComparison(a, b, test).value
  {
    CompareToAntisymmetric(a, b);
  }

  /** For a comparable field, "less than" and "greater than or equal" are
      complementary, as are "greater than" and "less than or equal". */
  lemma OrderingTestsComplement(field: Value, required: Value, test: NumericComparison.NumericComparison)
    requires IsComparable(field)
    ensures HandleNumericComparison(field, required, test).Ok? <==>
            HandleNumericComparison(field, required, test.Complement()).Ok?
    ensures HandleNumericComparison(field, required, test).Ok? ==>
            HandleNumericComparison(field, required, test).value ==
            !HandleNumericComparison(field, required, test.Complement()).value
  {
  }

  /** A comparable value equals the literal of its own class exactly when
      both "less than or equal" and "greater than or equal" hold. */
  lemma OrderingAgreesWithEquality(field: Value, required: Value)
    requires IsComparable(field) && SameComparableClass(field, required)
    ensures HandleNumericComparison(field, required, NumericComparison.LessThanOrEquals).Ok?
    ensures HandleNumericComparison(field, required, NumericComparison.GreaterThanOrEquals).Ok?
    ensures (HandleNumericComparison(field, required, NumericComparison.LessThanOrEquals).value &&
             HandleNumericComparison(field, required, NumericComparison.GreaterThanOrEquals).value)
            <==> HandleEquals(field, required)
  {
    if field.Str? {
      StringCompareZeroIffEqual(field.s, required.s);
    }
  }

  // =====================================================================
  // Clauses
  // =====================================================================

  /** `valueMatchesCriteria`: dispatch on the operation.  `HasProperty`
      never reaches it and throws if it does.  Equality, membership,
      IsNull and wildcard tests never throw; a null field value matches
      nothing but IsNull, which looks at the field value alone. */
  function ValueMatchesCriteria(o: Oracles, field: Value, op: Operation, required: Value): (r: Outcome<bool>)
    ensures r.Thrown? ==>
      op in {GreaterThan, GreaterThanOrEquals, LessThan, LessThanOrEquals,
             CollectionHasAllValues, CollectionHasAnyValue, RegexMatch, HasProperty}
    ensures op == HasProperty ==> r == Thrown(IllegalState)
    ensures op == IsNull ==> r == Ok(field.Null?)
    ensures field.Null? && op != IsNull && op != HasProperty ==> r == Ok(false)
  {
    match op
    case Equals => Ok(HandleEquals(field, required))
    case EqualsIgnoreCase => Ok(HandleEqualsIgnoreCase(o, field, required))
    case GreaterThan => HandleNumericComparison(field, required, NumericComparison.GreaterThan)
    case GreaterThanOrEquals => HandleNumericComparison(field, required, NumericComparison.GreaterThanOrEquals)
    case In => Ok(HandleValueIn(field, required))
    case IsNull => Ok(field.Null?)
    case CollectionHasValue => Ok(HandleCollectionHasValue(field, required))
    case CollectionHasAllValues => HandleCollectionHasAllOrAny(field, required, true)
    case CollectionHasAnyValue => HandleCollectionHasAllOrAny(field, required, false)
    case LessThan => HandleNumericComparison(field, required, NumericComparison.LessThan)
    case LessThanOrEquals => HandleNumericComparison(field, required, NumericComparison.LessThanOrEquals)
    case RegexMatch => HandleRegexMatch(o, field, required)
    case WildcardMatch => Ok(HandleWildcardMatch(o, field, required))
    case HasProperty => Thrown(IllegalState)
  }

  /** A null literal matches nothing, except that an ordering test on a
      comparable field throws while comparing with it. */
  lemma NullLiteralNeverMatches(o: Oracles, field: Value, op: Operation)
    requires !field.Null? && op != IsNull && op != HasProperty
    ensures op in {LessThan, LessThanOrEquals, GreaterThan, GreaterThanOrEquals} && IsComparable(field) ==>
      ValueMatchesCriteria(o, field, op, Null) == Thrown(NullPointer)
    ensures !(op in {LessThan, LessThanOrEquals, GreaterThan, GreaterThanOrEquals} && IsComparable(field)) ==>
      ValueMatchesCriteria(o, field, op, Null) == Ok(false)
  {
  }

  /** An empty collection literal never contains the field value, but an
      empty object array is searched like any other. */
  lemma InEmptyCollectionIsFalse(field: Value)
    ensures !HandleValueIn(field, List([]))
  {
  }

  /** The pattern `*` matches the text of every non-null field whose text
      holds no `*`. */
  lemma StarLiteralMatchesEveryField(o: Oracles, field: Value)
    requires !field.Null?
    requires forall k :: 0 <= k < |ToString(o, field)| ==> ToString(o, field)[k] != '*'
    ensures ValueMatchesCriteria(o, field, WildcardMatch, Str("*")) == Ok(true)
  {
    GatherUtils.StarMatchesAll(ToString(o, field));
  }

  /** A `*` in the field's text is consumed by a `*` of the pattern as a
      literal character: `like("*")` rejects the text `*a` and `like("*a")`
      rejects `*ba`, although both are glob matches. */
  lemma StarInFieldTextRejected(o: Oracles)
    ensures ValueMatchesCriteria(o, Str("*a"), WildcardMatch, Str("*")) == Ok(false)
    ensures ValueMatchesCriteria(o, Str("*ba"), WildcardMatch, Str("*a")) == Ok(false)
    ensures GatherUtils.Glob("*a", "*") && GatherUtils.Glob("*ba", "*a")
  {
    GatherUtils.StarMatchesAll("*a");
    GatherUtils.AsWrittenRejectsStarInText();
  }

  /** A wildcard literal without `*` or `?` asks for the field's text to
      equal it, whatever that text holds. */
  lemma PlainWildcardIsTextEquality(o: Oracles, field: Value, p: string)
    requires !field.Null?
    requires forall k :: 0 <= k < |p| ==> p[k] != '*' && p[k] != '?'
    ensures ValueMatchesCriteria(o, field, WildcardMatch, Str(p)) == Ok(ToString(o, field) == p)
  {
  }

  /** `matchCriteria`: the clause's key is resolved as a single field name
      on the item.  `HasProperty` asks only whether it resolves; every
      other test fails on an unresolved key and otherwise applies to the
      field's value.  An unresolved key, a null one included, never
      matches, and only the test of a resolved field can throw. */
  function MatchCriterion(o: Oracles, item: Value, c: Criterion): (r: Outcome<bool>)
    ensures LookupField(item, c.key).None? ==> r == Ok(false)
    ensures r.Thrown? ==> c.operation != HasProperty && LookupField(item, c.key).Some?
  {
    var f := LookupField(item, c.key);
    if c.operation == HasProperty then Ok(f.Some?)
    else if f.None? then Ok(false)
    else ValueMatchesCriteria(o, ReadField(item, f.value), c.operation, c.value)
  }

  /** A clause with a dotted key never holds: dotted paths are not walked
      when matching. */
  lemma DottedKeyNeverMatches(o: Oracles, item: Value, c: Criterion)
    requires c.key.Some? && '.' in c.key.value
    ensures MatchCriterion(o, item, c) == Ok(false)
  {
    DottedKeyNeverResolves(item, c.key.value);
  }

  /** Some field of the class or of a superclass carries the name. */
  predicate HasFieldNamed(cls: Class, name: string)
  {
    exists k :: 0 <= k < |AllFields(cls)| && AllFields(cls)[k].name == name
  }

  /** `HasProperty` holds exactly when the key names a field of the item's class. */
  lemma HasPropertyMeansFieldExists(o: Oracles, item: Value, c: Criterion)
    requires c.operation == HasProperty && c.key.Some? && !IsBlank(c.key.value) && !item.Null?
    ensures MatchCriterion(o, item, c) == Ok(HasFieldNamed(ClassOf(item), c.key.value))
  {
    FieldMapLast(AllFields(ClassOf(item)), c.key.value);
  }

  /** The clause's contribution once its `inverse` flag is applied. */
  function ClauseOutcome(o: Oracles, item: Value, c: Criterion): Outcome<bool>
  {
    match MatchCriterion(o, item, c)
    case Ok(b) => Ok(if c.inverse then !b else b)
    case Thrown(e) => Thrown(e)
  }

  /** The left fold of `matches`: OR and AND combine each clause with the
      result so far, with no short-circuit, so every clause is evaluated
      and the first exception ends the fold. */
  function FoldClauses(o: Oracles, item: Value, acc: bool, cs: seq<Criterion>): Outcome<bool>
    decreases |cs|
  {
    if cs == [] then Ok(acc)
    else
      match ClauseOutcome(o, item, cs[0])
      case Thrown(e) => Thrown(e)
      case Ok(b) =>
        var next := if cs[0].join == OR then b || acc else b && acc;
        FoldClauses(o, item, next, cs[1..])
  }

  /** What `matches(item, gather)` returns: a null item never matches, a
      query without clauses matches everything, otherwise the fold
      starting from `false`. */
  function MatchesSpec(o: Oracles, item: Value, cs: seq<Criterion>): Outcome<bool>
  {
    if item.Null? then Ok(false)
    else if cs == [] then Ok(true)
    else FoldClauses(o, item, false, cs)
  }

  /** The fold throws exactly when some clause throws. */
  lemma {:induction false} FoldThrowsIffSomeClauseThrows(o: Oracles, item: Value, acc: bool, cs: seq<Criterion>)
    ensures FoldClauses(o, item, acc, cs).Thrown? <==>
            exists k :: 0 <= k < |cs| && ClauseOutcome(o, item, cs[k]).Thrown?
    decreases |cs|
  {
    if cs != [] && ClauseOutcome(o, item, cs[0]).Ok? {
      var b := ClauseOutcome(o, item, cs[0]).value;
      var next := if cs[0].join == OR then b || acc else b && acc;
      FoldThrowsIffSomeClauseThrows(o, item, next, cs[1..]);
      assert forall k :: 1 <= k < |cs| ==> cs[k] == cs[1..][k - 1];
      if exists k :: 0 <= k < |cs| && ClauseOutcome(o, item, cs[k]).Thrown? {
        var k :| 0 <= k < |cs| && ClauseOutcome(o, item, cs[k]).Thrown?;
        assert cs[1..][k - 1] == cs[k];
      }
    }
  }

  /** With only OR joins, an item matches exactly when some clause holds. */
  lemma {:induction false} OrClausesMeanAny(o: Oracles, item: Value, acc: bool, cs: seq<Criterion>)
    requires forall k :: 0 <= k < |cs| ==> cs[k].join == OR && ClauseOutcome(o, item, cs[k]).Ok?
    ensures FoldClauses(o, item, acc, cs) ==
            Ok(acc || exists k :: 0 <= k < |cs| && ClauseOutcome(o, item, cs[k]).value)
    decreases |cs|
  {
    if cs != [] {
      var b := ClauseOutcome(o, item, cs[0]).value;
      OrClausesMeanAny(o, item, b || acc, cs[1..]);
      assert forall k :: 1 <= k < |cs| ==> cs[k] == cs[1..][k - 1];
      if exists k :: 0 <= k < |cs| && ClauseOutcome(o, item, cs[k]).value {
        var k :| 0 <= k < |cs| && ClauseOutcome(o, item, cs[k]).value;
        if k > 0 {
          assert cs[1..][k - 1] == cs[k];
        }
      }
    }
  }

  /** With only AND joins the fold keeps its starting value false: such a
      query matches nothing (unless a clause throws). */
  lemma {:induction false} AndClausesFromFalseNeverMatch(o: Oracles, item: Value, cs: seq<Criterion>)
    requires forall k :: 0 <= k < |cs| ==> cs[k].join == AND
    ensures FoldClauses(o, item, false, cs) != Ok(true)
    decreases |cs|
  {
    if cs != [] && ClauseOutcome(o, item, cs[0]).Ok? {
      assert forall k :: 0 <= k < |cs[1..]| ==> cs[1..][k] == cs[k + 1];
      AndClausesFromFalseNeverMatch(o, item, cs[1..]);
    }
  }

  /** A first OR clause followed by AND clauses: the item matches exactly
      when every clause holds. */
  lemma {:induction false} OrThenAndsMeanAll(o: Oracles, item: Value, acc: bool, cs: seq<Criterion>)
    requires forall k :: 0 <= k < |cs| ==> cs[k].join == AND && ClauseOutcome(o, item, cs[k]).Ok?
    ensures FoldClauses(o, item, acc, cs) ==
            Ok(acc && forall k :: 0 <= k < |cs| ==> ClauseOutcome(o, item, cs[k]).value)
    decreases |cs|
  {
    if cs != [] {
      var b := ClauseOutcome(o, item, cs[0]).value;
      OrThenAndsMeanAll(o, item, b && acc, cs[1..]);
      assert forall k :: 1 <= k < |cs| ==> cs[k] == cs[1..][k - 1];
      if acc && b && forall k :: 0 <= k < |cs[1..]| ==> ClauseOutcome(o, item, cs[1..][k]).value {
        forall k | 0 <= k < |cs| ensures ClauseOutcome(o, item, cs[k]).value {
          if k > 0 {
            assert cs[k] == cs[1..][k - 1];
          }
        }
      }
    }
  }

  /** `matchCriteria(item, criteria)`: resolves the key through the field
      cache, then applies the test. */
  method MatchCriteria(o: Oracles, cache: FieldCache, item: Value, c: Criterion) returns (r: Outcome<bool>)
    requires cache.Valid()
    modifies cache
    ensures cache.Valid()
    ensures r == MatchCriterion(o, item, c)
  {
    var f := cache.GetField(item, c.key);
    if c.operation == HasProperty {
      return Ok(f.Some?);
    }
    if f.None? {
      return Ok(false);
    }
    var value := ReadField(item, f.value);
    return ValueMatchesCriteria(o, value, c.operation, c.value);
  }

  /** One step of the fold, given the outcome of the clause at `i`. */
  lemma FoldStep(o: Oracles, item: Value, acc: bool, cs: seq<Criterion>, i: nat, m: Outcome<bool>)
    requires i < |cs| && m == MatchCriterion(o, item, cs[i])
    ensures m.Thrown? ==> FoldClauses(o, item, acc, cs[i..]) == Thrown(m.ex)
    ensures m.Ok? ==>
      var b := if cs[i].inverse then !m.value else m.value;
      FoldClauses(o, item, acc, cs[i..]) ==
      FoldClauses(o, item, if cs[i].join == OR then b || acc else b && acc, cs[i + 1..])
  {
    assert cs[i..][0] == cs[i] && cs[i..][1..] == cs[i + 1..];
  }

  /** `matches(item, gather)`. */
  method Matches(o: Oracles, cache: FieldCache, item: Value, cs: seq<Criterion>) returns (r: Outcome<bool>)
    requires cache.Valid()
    modifies cache
    ensures cache.Valid()
    ensures r == MatchesSpec(o, item, cs)
  {
    if item.Null? {
      return Ok(false);
    }
    if |cs| == 0 {
      return Ok(true);
    }
    var finalResult := false;
    var i := 0;
    while i < |cs|
      invariant 0 <= i <= |cs|
      invariant cache.Valid()
      invariant MatchesSpec(o, item, cs) == FoldClauses(o, item, finalResult, cs[i..])
    {
      var criteriaResult := MatchCriteria(o, cache, item, cs[i]);
      FoldStep(o, item, finalResult, cs, i, criteriaResult);
      if criteriaResult.Thrown? {
        return Thrown(criteriaResult.ex);
      }
      var b := criteriaResult.value;
      if cs[i].inverse {
        b := !b;
      }
      match cs[i].join {
        case OR => finalResult := b || finalResult;
        case AND => finalResult := b && finalResult;
      }
      i := i + 1;
    }
    return Ok(finalResult);
  }

  // =====================================================================
  // Collecting results
  // =====================================================================

  /** The private result holder: matching items in list mode, their number
      in count mode. */
  datatype ResultsOrCount = ResultsOrCount(list: seq<Value>, count: int)

  /** What `matches` returns for each item of the collection, in order. */
  function Verdicts(o: Oracles, items: seq<Value>, cs: seq<Criterion>): (vs: seq<Outcome<bool>>)
    ensures |vs| == |items|
    ensures forall k :: 0 <= k < |items| ==> vs[k] == MatchesSpec(o, items[k], cs)
  {
    seq(|items|, k requires 0 <= k < |items| => MatchesSpec(o, items[k], cs))
  }

  /** The loop of `getResultsInternal` from position `i` on, given each
      item's verdict, having skipped `skipped` matches and collected
      `acc`: the first exception ends the loop; matching items are
      skipped while fewer than `skipCount` have been; the rest are counted
      or added, and collection stops once the list holds `numResults`. */
  function Collect(items: seq<Value>, vs: seq<Outcome<bool>>, numResults: int, skipCount: int,
                   countMode: bool, i: nat, skipped: int, acc: ResultsOrCount): Outcome<ResultsOrCount>
    requires |vs| == |items| && i <= |items|
    decreases |items| - i
  {
    if i == |items| then Ok(acc)
    else
      match vs[i]
      case Thrown(e) => Thrown(e)
      case Ok(m) =>
        if !m then Collect(items, vs, numResults, skipCount, countMode, i + 1, skipped, acc)
        else if skipCount > 0 && skipped < skipCount then
          Collect(items, vs, numResults, skipCount, countMode, i + 1, skipped + 1, acc)
        else
          var acc' := if countMode then acc.(count := acc.count + 1) else acc.(list := acc.list + [items[i]]);
          if numResults > 0 && |acc'.list| == numResults then Ok(acc')
          else Collect(items, vs, numResults, skipCount, countMode, i + 1, skipped, acc')
  }

  /** What `getResultsInternal` returns; `None` for a null collection. */
  function ResultsInternal(o: Oracles, items: Option<seq<Value>>, cs: seq<Criterion>,
                           numResults: int, skipCount: int, countMode: bool): Outcome<Option<ResultsOrCount>>
  {
    if items.None? then Ok(None)
    else
      match Collect(items.value, Verdicts(o, items.value, cs), numResults, skipCount, countMode, 0, 0, ResultsOrCount([], 0))
      case Ok(r) => Ok(Some(r))
      case Thrown(e) => Thrown(e)
  }

  /** `getResultsInternal(collection, gather, numResults, skipCount, countMode)`. */
  method GetResultsInternal(o: Oracles, cache: FieldCache, items: Option<seq<Value>>, cs: seq<Criterion>,
                            numResults: int, skipCount: int, countMode: bool)
    returns (r: Outcome<Option<ResultsOrCount>>)
    requires cache.Valid()
    modifies cache
    ensures cache.Valid()
    ensures r == ResultsInternal(o, items, cs, numResults, skipCount, countMode)
  {
    if items.None? {
      return Ok(None);
    }
    var collection := items.value;
    ghost var vs := Verdicts(o, collection, cs);
    var resultsOrCount := ResultsOrCount([], 0);
    if |collection| == 0 {
      return Ok(Some(resultsOrCount));
    }
    var skipped := 0;
    var i := 0;
    while i < |collection|
      invariant 0 <= i <= |collection|
      invariant cache.Valid()
      invariant Collect(collection, vs, numResults, skipCount, countMode, 0, 0, ResultsOrCount([], 0)) ==
                Collect(collection, vs, numResults, skipCount, countMode, i, skipped, resultsOrCount)
    {
      var item := collection[i];
      var m := Matches(o, cache, item, cs);
      if m.Thrown? {
        return Thrown(m.ex);
      }
      if m.value {
        if skipCount > 0 && skipped < skipCount {
          skipped := skipped + 1;
          i := i + 1;
          continue;
        }
        if countMode {
          resultsOrCount := resultsOrCount.(count := resultsOrCount.count + 1);
        } else {
          resultsOrCount := resultsOrCount.(list := resultsOrCount.list + [item]);
        }
        if numResults > 0 && |resultsOrCount.list| == numResults {
          return Ok(Some(resultsOrCount));
        }
      }
      i := i + 1;
    }
    return Ok(Some(resultsOrCount));
  }

  /** No verdict is an exception. */
  predicate NoneThrow(vs: seq<Outcome<bool>>)
  {
    forall k :: 0 <= k < |vs| ==> vs[k].Ok?
  }

  /** The exception of the first verdict that is one; none when no verdict
      throws. */
  function FirstFailure(vs: seq<Outcome<bool>>): (e: Option<Exception>)
    ensures e.None? <==> NoneThrow(vs)
    ensures e.Some? ==> Thrown(e.value) in vs
    decreases |vs|
  {
    if vs == [] then None
    else if vs[0].Thrown? then Some(vs[0].ex)
    else FirstFailure(vs[1..])
  }

  /** The loop can only end with the first exception among the verdicts it
      has not yet read, and without a positive limit it reads them all, so
      it does end with that exception when there is one. */
  lemma {:induction false} CollectFailure(items: seq<Value>, vs: seq<Outcome<bool>>, numResults: int, skipCount: int,
                                          countMode: bool, i: nat, skipped: int, acc: ResultsOrCount)
    requires |vs| == |items| && i <= |items|
    ensures Collect(items, vs, numResults, skipCount, countMode, i, skipped, acc).Thrown? ==>
      FirstFailure(vs[i..]) == Some(Collect(items, vs, numResults, skipCount, countMode, i, skipped, acc).ex)
    ensures numResults <= 0 && FirstFailure(vs[i..]).Some? ==>
      Collect(items, vs, numResults, skipCount, countMode, i, skipped, acc) == Thrown(FirstFailure(vs[i..]).value)
    decreases |items| - i
  {
    if i < |items| {
      assert vs[i..][0] == vs[i] && vs[i..][1..] == vs[i + 1..];
      if vs[i].Ok? {
        if !vs[i].value {
          CollectFailure(items, vs, numResults, skipCount, countMode, i + 1, skipped, acc);
        } else if skipCount > 0 && skipped < skipCount {
          CollectFailure(items, vs, numResults, skipCount, countMode, i + 1, skipped + 1, acc);
        } else {
          var acc' := if countMode then acc.(count := acc.count + 1) else acc.(list := acc.list + [items[i]]);
          CollectFailure(items, vs, numResults, skipCount, countMode, i + 1, skipped, acc');
        }
      }
    }
  }

  /** What the collection loop ends with when a clause throws. */
  lemma ResultsFailure(o: Oracles, items: seq<Value>, cs: seq<Criterion>, numResults: int, skipCount: int,
                       countMode: bool)
    ensures ResultsInternal(o, Some(items), cs, numResults, skipCount, countMode).Thrown? ==>
      FirstFailure(Verdicts(o, items, cs)) ==
      Some(ResultsInternal(o, Some(items), cs, numResults, skipCount, countMode).ex)
    ensures numResults <= 0 && !NoneThrow(Verdicts(o, items, cs)) ==>
      ResultsInternal(o, Some(items), cs, numResults, skipCount, countMode) ==
      Thrown(FirstFailure(Verdicts(o, items, cs)).value)
  {
    var vs := Verdicts(o, items, cs);
    CollectFailure(items, vs, numResults, skipCount, countMode, 0, 0, ResultsOrCount([], 0));
    assert vs[0..] == vs;
  }

  /** The items whose verdict is a match, in collection order. */
  function Filter(items: seq<Value>, vs: seq<Outcome<bool>>): seq<Value>
    requires |vs| == |items| && NoneThrow(vs)
    decreases |items|
  {
    if items == [] then []
    else (if vs[0].value then [items[0]] else []) + Filter(items[1..], vs[1..])
  }

  /** The items of a collection that match the clauses. */
  function Matching(o: Oracles, items: seq<Value>, cs: seq<Criterion>): seq<Value>
    requires NoneThrow(Verdicts(o, items, cs))
  {
    Filter(items, Verdicts(o, items, cs))
  }

  /** The filter keeps exactly the items whose verdict is a match. */
  lemma {:induction false} FilterKeepsMatches(items: seq<Value>, vs: seq<Outcome<bool>>, v: Value)
    requires |vs| == |items| && NoneThrow(vs)
    ensures v in Filter(items, vs) <==> exists k :: 0 <= k < |items| && items[k] == v && vs[k] == Ok(true)
    decreases |items|
  {
    if items != [] {
      FilterKeepsMatches(items[1..], vs[1..], v);
      if exists k :: 0 <= k < |items| && items[k] == v && vs[k] == Ok(true) {
        var k :| 0 <= k < |items| && items[k] == v && vs[k] == Ok(true);
        if k > 0 {
          assert items[1..][k - 1] == v && vs[1..][k - 1] == Ok(true);
        }
      }
      if v in Filter(items[1..], vs[1..]) {
        var k :| 0 <= k < |items[1..]| && items[1..][k] == v && vs[1..][k] == Ok(true);
        assert items[k + 1] == v && vs[k + 1] == Ok(true);
      }
    }
  }

  /** An item is among the matching items exactly when it is in the
      collection and matches the clauses. */
  lemma MatchingIsExactlyTheMatches(o: Oracles, items: seq<Value>, cs: seq<Criterion>, v: Value)
    requires NoneThrow(Verdicts(o, items, cs))
    ensures v in Matching(o, items, cs) <==> v in items && MatchesSpec(o, v, cs) == Ok(true)
  {
    FilterKeepsMatches(items, Verdicts(o, items, cs), v);
  }

  /** Skip the first `skip` matches, then keep at most `limit` (all when
      `limit` is not positive). */
  function Window(ms: seq<Value>, skip: nat, limit: int): seq<Value>
  {
    var rest := ms[if skip < |ms| then skip else |ms|..];
    if limit > 0 && limit < |rest| then rest[..limit] else rest
  }

  /** The window is the run of matches that starts after the skipped
      ones: as many as remain, but no more than a positive limit. */
  lemma WindowIsSlice(ms: seq<Value>, skip: nat, limit: int)
    ensures var w := Window(ms, skip, limit);
      |w| == (if skip >= |ms| then 0
              else if limit > 0 && limit < |ms| - skip then limit
              else |ms| - skip) &&
      forall k :: 0 <= k < |w| ==> w[k] == ms[skip + k]
  {
  }

  /** The skip budget still open after `skipped` skips. */
  function Remaining(skipCount: int, skipped: int): nat
  {
    if skipCount > 0 && skipped < skipCount then skipCount - skipped else 0
  }

  /** The filter of the suffix from `i`, one item at a time. */
  lemma FilterStep(items: seq<Value>, vs: seq<Outcome<bool>>, i: nat)
    requires |vs| == |items| && i < |items| && NoneThrow(vs)
    ensures NoneThrow(vs[i..]) && NoneThrow(vs[i + 1..])
    ensures Filter(items[i..], vs[i..]) ==
      (if vs[i].value then [items[i]] else []) + Filter(items[i + 1..], vs[i + 1..])
  {
    var tail := vs[i..];
    assert forall k :: 0 <= k < |tail| ==> tail[k] == vs[i + k];
    var rest := vs[i + 1..];
    assert forall k :: 0 <= k < |rest| ==> rest[k] == vs[i + 1 + k];
    assert items[i..][0] == items[i] && items[i..][1..] == items[i + 1..];
    assert vs[i..][0] == vs[i] && vs[i..][1..] == vs[i + 1..];
  }

  /** Skipping a leading match uses up one unit of the skip budget. */
  lemma WindowSkip(x: Value, ms: seq<Value>, skip: nat, limit: int)
    requires skip > 0
    ensures Window([x] + ms, skip, limit) == Window(ms, skip - 1, limit)
  {
    var s := if skip < |[x] + ms| then skip else |[x] + ms|;
    var s' := if skip - 1 < |ms| then skip - 1 else |ms|;
    assert ([x] + ms)[s..] == ms[s'..];
  }

  /** Taking a leading match when more than one may be taken, or any number. */
  lemma WindowTake(x: Value, ms: seq<Value>, limit: int)
    requires limit != 1
    ensures Window([x] + ms, 0, limit) == [x] + Window(ms, 0, if limit > 0 then limit - 1 else 0)
  {
    assert ([x] + ms)[0..] == [x] + ms && ms[0..] == ms;
    if limit > 0 && limit < |[x] + ms| {
      assert ([x] + ms)[..limit] == [x] + ms[..limit - 1];
    }
  }

  /** Taking a leading match when exactly one may be taken. */
  lemma WindowTakeLast(x: Value, ms: seq<Value>)
    ensures Window([x] + ms, 0, 1) == [x]
  {
    assert ([x] + ms)[0..] == [x] + ms;
  }

  lemma AppendAssociates(a: seq<Value>, b: seq<Value>, c: seq<Value>)
    ensures (a + b) + c == a + (b + c)
  {
  }

  /** In list mode the loop appends the window of the remaining matches. */
  lemma {:induction false} CollectListIsWindow(items: seq<Value>, vs: seq<Outcome<bool>>, numResults: int,
                                               skipCount: int, i: nat, skipped: int, acc: ResultsOrCount)
    requires |vs| == |items| && i <= |items| && NoneThrow(vs)
    requires numResults > 0 ==> |acc.list| < numResults
    requires 0 <= skipped && (skipCount <= 0 ==> skipped == 0) && (skipCount > 0 ==> skipped <= skipCount)
    ensures NoneThrow(vs[i..])
    ensures Collect(items, vs, numResults, skipCount, false, i, skipped, acc) ==
      Ok(acc.(list := acc.list + Window(Filter(items[i..], vs[i..]), Remaining(skipCount, skipped),
                                        if numResults > 0 then numResults - |acc.list| else 0)))
    decreases |items| - i
  {
    if i == |items| {
      assert acc.list + [] == acc.list;
    } else {
      FilterStep(items, vs, i);
      var ms' := Filter(items[i + 1..], vs[i + 1..]);
      var rem := Remaining(skipCount, skipped);
      var limit := if numResults > 0 then numResults - |acc.list| else 0;
      if !vs[i].value {
        assert [] + ms' == ms';
        CollectListIsWindow(items, vs, numResults, skipCount, i + 1, skipped, acc);
      } else if skipCount > 0 && skipped < skipCount {
        WindowSkip(items[i], ms', rem, limit);
        CollectListIsWindow(items, vs, numResults, skipCount, i + 1, skipped + 1, acc);
      } else {
        var acc' := acc.(list := acc.list + [items[i]]);
        if numResults > 0 && |acc'.list| == numResults {
          WindowTakeLast(items[i], ms');
        } else {
          WindowTake(items[i], ms', limit);
          CollectListIsWindow(items, vs, numResults, skipCount, i + 1, skipped, acc');
          var limit' := if numResults > 0 then numResults - |acc'.list| else 0;
          assert limit' == if limit > 0 then limit - 1 else 0;
          AppendAssociates(acc.list, [items[i]], Window(ms', 0, limit'));
        }
      }
    }
  }

  /** In count mode the loop counts the remaining matches past the skip. */
  lemma {:induction false} CollectCountIsSize(items: seq<Value>, vs: seq<Outcome<bool>>, numResults: int,
                                              skipCount: int, i: nat, skipped: int, acc: ResultsOrCount)
    requires |vs| == |items| && i <= |items| && NoneThrow(vs) && acc.list == []
    requires 0 <= skipped && (skipCount <= 0 ==> skipped == 0) && (skipCount > 0 ==> skipped <= skipCount)
    ensures NoneThrow(vs[i..])
    ensures Collect(items, vs, numResults, skipCount, true, i, skipped, acc) ==
      Ok(acc.(count := acc.count + |Window(Filter(items[i..], vs[i..]), Remaining(skipCount, skipped), 0)|))
    decreases |items| - i
  {
    if i < |items| {
      FilterStep(items, vs, i);
      var ms' := Filter(items[i + 1..], vs[i + 1..]);
      var rem := Remaining(skipCount, skipped);
      if !vs[i].value {
        assert [] + ms' == ms';
        CollectCountIsSize(items, vs, numResults, skipCount, i + 1, skipped, acc);
      } else if skipCount > 0 && skipped < skipCount {
        WindowSkip(items[i], ms', rem, 0);
        CollectCountIsSize(items, vs, numResults, skipCount, i + 1, skipped + 1, acc);
      } else {
        var acc' := acc.(count := acc.count + 1);
        assert rem == 0;
        WindowTake(items[i], ms', 0);
        CountStep(items, vs, numResults, skipCount, i, skipped, acc);
        CollectCountIsSize(items, vs, numResults, skipCount, i + 1, skipped, acc');
      }
    } else {
      assert Window(Filter(items[i..], vs[i..]), Remaining(skipCount, skipped), 0) == [];
    }
  }

  /** In count mode a counted match never fills the (empty) list, so the
      loop goes on with the next item. */
  lemma CountStep(items: seq<Value>, vs: seq<Outcome<bool>>, numResults: int,
                  skipCount: int, i: nat, skipped: int, acc: ResultsOrCount)
    requires |vs| == |items| && i < |items| && vs[i] == Ok(true) && acc.list == []
    requires !(skipCount > 0 && skipped < skipCount)
    ensures Collect(items, vs, numResults, skipCount, true, i, skipped, acc) ==
            Collect(items, vs, numResults, skipCount, true, i + 1, skipped, acc.(count := acc.count + 1))
  {
  }

  /** `count(collection, gather)`: the number of matching items; a null
      collection dereferences the null holder. */
  method Count(o: Oracles, cache: FieldCache, items: Option<seq<Value>>, cs: seq<Criterion>) returns (r: Outcome<int>)
    requires cache.Valid()
    modifies cache
    ensures cache.Valid()
    ensures items.None? ==> r == Thrown(NullPointer)
    ensures items.Some? && NoneThrow(Verdicts(o, items.value, cs)) ==> r == Ok(|Matching(o, items.value, cs)|)
    ensures items.Some? && !NoneThrow(Verdicts(o, items.value, cs)) ==>
      r == Thrown(FirstFailure(Verdicts(o, items.value, cs)).value)
  {
    var holder := GetResultsInternal(o, cache, items, cs, 0, 0, true);
    if items.Some? {
      ResultsFailure(o, items.value, cs, 0, 0, true);
    }
    if items.Some? && NoneThrow(Verdicts(o, items.value, cs)) {
      var vs := Verdicts(o, items.value, cs);
      CollectCountIsSize(items.value, vs, 0, 0, 0, 0, ResultsOrCount([], 0));
      assert items.value[0..] == items.value && vs[0..] == vs;
      var ms := Filter(items.value, vs);
      assert ms[0..] == ms;
    }
    match holder {
      case Thrown(e) => return Thrown(e);
      case Ok(h) =>
        if h.None? {
          return Thrown(NullPointer);
        }
        return Ok(h.value.count);
    }
  }

  /** `getResults(collection, gather, numResults, skipCount)` as written:
      the limit and skip count are not passed on, so every match is
      returned. */
  method GetResultsAsWritten(o: Oracles, cache: FieldCache, items: Option<seq<Value>>, cs: seq<Criterion>,
                             numResults: int, skipCount: int) returns (r: Outcome<seq<Value>>)
    requires cache.Valid()
    modifies cache
    ensures cache.Valid()
    ensures items.None? ==> r == Thrown(NullPointer)
    ensures items.Some? && NoneThrow(Verdicts(o, items.value, cs)) ==> r == Ok(Matching(o, items.value, cs))
    ensures items.Some? && !NoneThrow(Verdicts(o, items.value, cs)) ==>
      r == Thrown(FirstFailure(Verdicts(o, items.value, cs)).value)
  {
    var holder := GetResultsInternal(o, cache, items, cs, 0, 0, false);
    if items.Some? {
      ResultsFailure(o, items.value, cs, 0, 0, false);
    }
    if items.Some? && NoneThrow(Verdicts(o, items.value, cs)) {
      var vs := Verdicts(o, items.value, cs);
      CollectListIsWindow(items.value, vs, 0, 0, 0, 0, ResultsOrCount([], 0));
      assert items.value[0..] == items.value && vs[0..] == vs;
      var ms := Filter(items.value, vs);
      assert ms[0..] == ms && [] + ms == ms;
    }
    match holder {
      case Thrown(e) => return Thrown(e);
      case Ok(h) =>
        if h.None? {
          return Thrown(NullPointer);
        }
        return Ok(h.value.list);
    }
  }

  /** `getResults` with the limit and skip count passed on: the matches
      after the first `skipCount`, at most `numResults` of them when that
      is positive. */
  method GetResults(o: Oracles, cache: FieldCache, items: Option<seq<Value>>, cs: seq<Criterion>,
                    numResults: int, skipCount: int) returns (r: Outcome<seq<Value>>)
    requires cache.Valid()
    modifies cache
    ensures cache.Valid()
    ensures items.None? ==> r == Thrown(NullPointer)
    ensures items.Some? && NoneThrow(Verdicts(o, items.value, cs)) ==>
      r == Ok(Window(Matching(o, items.value, cs), if skipCount > 0 then skipCount else 0, numResults))
    ensures items.Some? ==> (r.Thrown? <==> ResultsInternal(o, items, cs, numResults, skipCount, false).Thrown?)
    ensures items.Some? && r.Thrown? ==> FirstFailure(Verdicts(o, items.value, cs)) == Some(r.ex)
    ensures items.Some? && numResults <= 0 && !NoneThrow(Verdicts(o, items.value, cs)) ==>
      r == Thrown(FirstFailure(Verdicts(o, items.value, cs)).value)
  {
    var holder := GetResultsInternal(o, cache, items, cs, numResults, skipCount, false);
    if items.Some? {
      ResultsFailure(o, items.value, cs, numResults, skipCount, false);
    }
    if items.Some? && NoneThrow(Verdicts(o, items.value, cs)) {
      ResultsAreWindow(o, items.value, cs, numResults, skipCount);
    }
    match holder {
      case Thrown(e) => return Thrown(e);
      case Ok(h) =>
        if h.None? {
          return Thrown(NullPointer);
        }
        return Ok(h.value.list);
    }
  }

  /** In list mode, when no clause throws, the results are the window of
      the matching items. */
  lemma ResultsAreWindow(o: Oracles, items: seq<Value>, cs: seq<Criterion>, numResults: int, skipCount: int)
    requires NoneThrow(Verdicts(o, items, cs))
    ensures ResultsInternal(o, Some(items), cs, numResults, skipCount, false) ==
      Ok(Some(ResultsOrCount(Window(Matching(o, items, cs), if skipCount > 0 then skipCount else 0, numResults), 0)))
  {
    CollectFromStartIsWindow(items, Verdicts(o, items, cs), numResults, skipCount);
  }

  /** The list-mode loop run from the start over verdicts none of which
      throws. */
  lemma CollectFromStartIsWindow(items: seq<Value>, vs: seq<Outcome<bool>>, numResults: int, skipCount: int)
    requires |vs| == |items| && NoneThrow(vs)
    ensures Collect(items, vs, numResults, skipCount, false, 0, 0, ResultsOrCount([], 0)) ==
      Ok(ResultsOrCount(Window(Filter(items, vs), if skipCount > 0 then skipCount else 0, numResults), 0))
  {
    CollectListIsWindow(items, vs, numResults, skipCount, 0, 0, ResultsOrCount([], 0));
    assert items[0..] == items && vs[0..] == vs;
    var w := Window(Filter(items, vs), if skipCount > 0 then skipCount else 0, numResults);
    assert [] + w == w;
  }

  /** When at least two items match, a limit of one keeps fewer items than
      there are matches: the code as written, which returns every match,
      and the limited result differ. */
  lemma AsWrittenIgnoresLimit(ms: seq<Value>)
    requires |ms| >= 2
    ensures Window(ms, 0, 1) == ms[..1] != ms
  {
  }

  // =====================================================================
  // Aggregation
  // =====================================================================

  /** What `aggregateOnItem` feeds for one item: the field's value when the
      item's class has the field, nothing otherwise. */
  function FedOne(item: Value, key: Option<string>): (vs: seq<Value>)
    ensures |vs| <= 1
    ensures |vs| == 1 <==> LookupField(item, key).Some?
  {
    var f := LookupField(item, key);
    if f.Some? then [ReadField(item, f.value)] else []
  }

  /** The values an aggregation feeds, item by item. */
  function Fed(items: seq<Value>, key: Option<string>): seq<Value>
    decreases |items|
  {
    if items == [] then []
    else FedOne(items[0], key) + Fed(items[1..], key)
  }

  /** Position of the first value that is not a number (the length when
      there is none). */
  function FirstNonNumber(vs: seq<Value>): (k: nat)
    ensures k <= |vs|
    ensures forall j :: 0 <= j < k ==> IsNumber(vs[j])
    ensures k < |vs| ==> !IsNumber(vs[k])
  {
    if vs == [] then 0
    else if !IsNumber(vs[0]) then 0
    else 1 + FirstNonNumber(vs[1..])
  }

  lemma {:induction false} FedAppend(a: seq<Value>, b: seq<Value>, key: Option<string>)
    ensures Fed(a + b, key) == Fed(a, key) + Fed(b, key)
    decreases |a|
  {
    if a == [] {
      assert a + b == b;
    } else {
      assert (a + b)[1..] == a[1..] + b;
      FedAppend(a[1..], b, key);
    }
  }

  lemma FedSnoc(items: seq<Value>, i: nat, key: Option<string>)
    requires i < |items|
    ensures Fed(items[..i + 1], key) == Fed(items[..i], key) + FedOne(items[i], key)
  {
    assert items[..i + 1] == items[..i] + [items[i]];
    FedAppend(items[..i], [items[i]], key);
  }

  /** The first non-number of `before + [v] + after`, where `before` holds
      only numbers and `v` is not one, is `v`. */
  lemma FirstNonNumberAt(before: seq<Value>, v: Value, after: seq<Value>)
    requires AllNumbers(before) && !IsNumber(v)
    ensures FirstNonNumber(before + [v] + after) == |before|
  {
    var vs := before + [v] + after;
    assert forall j :: 0 <= j < |before| ==> vs[j] == before[j];
    assert vs[|before|] == v;
  }

  /** `aggregateOnItem`: an item whose class has the field feeds its value
      to the aggregator under the next index. */
  method AggregateOnItem(cache: FieldCache, item: Value, key: Option<string>, aggregator: Aggregator, found: int)
    returns (found': int, c: Completion)
    requires cache.Valid() && aggregator.Valid()
    modifies cache, aggregator
    ensures cache.Valid() && aggregator.Valid()
    ensures c.Abrupt? <==> IsNumeric(aggregator.kind) && FedOne(item, key) != [] && !IsNumber(FedOne(item, key)[0])
    ensures c.Abrupt? ==> c.ex == IllegalArgument && aggregator.consumed == old(aggregator.consumed)
    ensures c.Normal? ==> aggregator.consumed == old(aggregator.consumed) + FedOne(item, key) &&
                          found' == found + |FedOne(item, key)|
  {
    found' := found;
    var field := cache.GetField(item, key);
    if field.None? {
      return found', Normal;
    }
    found' := found + 1;
    var value := ReadField(item, field.value);
    c := aggregator.Aggregate(found', value);
  }

  /** `aggregate(collection, key, aggregator)`: a null collection, key or
      aggregator, or an empty collection, gives null.  Otherwise each item
      whose class has the field feeds the field's value, numbered from 1,
      and the aggregator's result is returned; a long aggregator given a
      non-number throws after consuming the values before it. */
  method Aggregate(cache: FieldCache, items: Option<seq<Value>>, key: Option<string>, aggregator: Aggregator?)
    returns (r: Outcome<Option<AggregateResult>>)
    requires cache.Valid()
    requires aggregator != null ==> aggregator.Valid()
    modifies cache, aggregator
    ensures cache.Valid()
    ensures aggregator != null ==> aggregator.Valid()
    ensures items.None? || key.None? || aggregator == null || |items.value| == 0 ==>
      r == Ok(None) && (aggregator != null ==> aggregator.consumed == old(aggregator.consumed))
    ensures items.Some? && key.Some? && aggregator != null && |items.value| > 0 ==>
      var fed := Fed(items.value, key);
      if IsNumeric(aggregator.kind) && FirstNonNumber(fed) < |fed| then
        r == Thrown(IllegalArgument) &&
        aggregator.consumed == old(aggregator.consumed) + fed[..FirstNonNumber(fed)]
      else
        aggregator.consumed == old(aggregator.consumed) + fed &&
        r == Ok(Some(ResultOf(aggregator.kind, aggregator.consumed)))
  {
    if items.None? || key.None? || aggregator == null || |items.value| == 0 {
      return Ok(None);
    }
    var collection := items.value;
    ghost var start := aggregator.consumed;
    var found := 0;
    var i := 0;
    while i < |collection|
      invariant 0 <= i <= |collection|
      invariant cache.Valid() && aggregator.Valid()
      invariant found == |Fed(collection[..i], key)|
      invariant aggregator.consumed == start + Fed(collection[..i], key)
    {
      FedSnoc(collection, i, key);
      var c;
      found, c := AggregateOnItem(cache, collection[i], key, aggregator, found);
      if c.Abrupt? {
        AllNumbersSuffix(start, Fed(collection[..i], key));
        FailureIsFirstNonNumber(collection, i, key);
        return Thrown(c.ex);
      }
      i := i + 1;
    }
    assert collection[..i] == collection;
    if IsNumeric(aggregator.kind) {
      AllNumbersSuffix(start, Fed(collection, key));
    }
    var res := aggregator.GetResult(found);
    return Ok(Some(res));
  }

  lemma AllNumbersSuffix(a: seq<Value>, b: seq<Value>)
    requires AllNumbers(a + b)
    ensures AllNumbers(b)
  {
    assert forall k :: 0 <= k < |b| ==> b[k] == (a + b)[|a| + k];
  }

  /** When the item at `i` feeds the first non-number, the values fed before
      it are exactly the prefix up to the first non-number. */
  lemma FailureIsFirstNonNumber(items: seq<Value>, i: nat, key: Option<string>)
    requires i < |items| && AllNumbers(Fed(items[..i], key))
    requires FedOne(items[i], key) != [] && !IsNumber(FedOne(items[i], key)[0])
    ensures var fed := Fed(items, key);
      FirstNonNumber(fed) == |Fed(items[..i], key)| < |fed| &&
      fed[..FirstNonNumber(fed)] == Fed(items[..i], key)
  {
    var before := Fed(items[..i], key);
    var v := FedOne(items[i], key)[0];
    var after := Fed(items[i + 1..], key);
    assert items == items[..i] + [items[i]] + items[i + 1..];
    FedAppend(items[..i] + [items[i]], items[i + 1..], key);
    FedAppend(items[..i], [items[i]], key);
    assert Fed([items[i]], key) == [v] by {
      assert [items[i]][1..] == [];
    }
    assert Fed(items, key) == before + [v] + after;
    FirstNonNumberAt(before, v, after);
    assert (before + [v] + after)[..|before|] == before;
  }
}
