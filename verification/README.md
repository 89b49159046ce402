# gather, modelled in Dafny

gather is a small Java library that runs SQL-like queries over in-memory
collections of plain objects. A query is built fluently:
`Gather.where("age").greaterThan(18)` starts a query on `age` and adds one
clause; `and(key)` and `or(key)` are meant to start the next clause on a new
key, but as written they drop that key (see Findings), so a chain such as
`where("age").greaterThan(18).and("name").like("A*")` fails. A query holds a
list of clauses. Each clause names an attribute, a test, a literal, the join
(AND/OR) with the clauses before it, and an inversion flag. Running the
query reads every item's attribute by reflection and applies the tests.
The clause outcomes fold from left to right. The matching items are
counted, or collected with a skip count and a limit. Aggregation feeds one
attribute of every item into a reducer: unique values, count, and long
minimum, maximum, sum or average.

The model has one Dafny module per Java file of the core, plus two shared
modules:

- `JavaValues` (`java_values.dfy`) holds the dynamically typed values
  the engine sees: boxed numbers, strings, characters, booleans, atomic
  counters, `BigDecimal`, compiled patterns, primitive and object arrays,
  lists and plain objects (records of a class with a superclass chain). It
  also holds Java's `equals`, two's-complement narrowing, `long`
  wrap-around and truncating division. Arrays, records, atomics and patterns
  carry an explicit identity, so identity-based `equals` is modelled.
- `GatherCriteria` (`gather_criteria.dfy`) is the clause record and the
  operation and join enumerations.
- `NumericComparison` (`numeric_comparison.dfy`) models the four
  ordering tests on a `compareTo` result.
- `GatherUtils` (`gather_utils.dfy`) covers array and collection
  membership, the all/any containment tests, number classification, numeric
  comparison and the wildcard matcher. Each loop in the source is a method
  proved against a specification function.
- `GatherReflect` (`gather_reflect.dfy`) covers field lookup through the
  class hierarchy and the per-class field-name cache, a `FieldCache` class
  whose map is updated in place. It also covers dotted-path resolution.
- `GatherAggregator` (`gather_aggregator.dfy`) is one `Aggregator`
  class. Its `kind` says which Java implementation it stands for. A ghost
  history of consumed values ties its fields to a specification of each
  reducer.
- `GatherExecutor` (`gather_executor.dfy`) holds the value tests,
  clause matching, the clause fold, the result collection loop with skip and
  limit, and aggregation over a collection.
- `GatherQuery` (`gather.dfy`) is the fluent `Gather` builder, a class
  whose methods append clauses and update the pending key, join and
  inversion flag.

Java exceptions are results. `Outcome<T>` is `Ok(value)` or
`Thrown(exception)`, and `Completion` is the same for calls that return
`this`. A Java `null` is `Null` among values and `None` among optional
strings and collections. Behaviour outside the library enters as a
parameter of type `Oracles`:

- whether a regular expression compiles, and full-string regex matching;
- `toString()` of objects other than strings, characters, booleans and
  integral numbers;
- the per-character rule of `String.equalsIgnoreCase`.

The static field cache becomes a `FieldCache` object passed explicitly.

## Model

All source paths are under `src/main/java/com/sangupta/gather/` unless they
start with `src/test`.

| member | source | states |
|---|---|---|
| NumericComparison.NumericComparison.Complement | src/main/java/com/sangupta/gather/GatherNumericComparison.java:32-81 | LESS_THAN and GREATER_THAN_OR_EQUALS (and GREATER_THAN and LESS_THAN_OR_EQUALS) answer oppositely on every compareTo result |
| NumericComparison.NumericComparison.Mirror | src/main/java/com/sangupta/gather/GatherNumericComparison.java:32-81 | each test on a negated comparison result equals its mirror test (less/greater swapped) |
| NumericComparison.NumericComparison.Test | src/main/java/com/sangupta/gather/GatherNumericComparison.java:32-81 | each test looks only at the sign of the compareTo result: zero passes exactly the two non-strict tests, a negative result exactly LESS_THAN and LESS_THAN_OR_EQUALS, a positive one the two GREATER tests |
| GatherUtils.ContainsBools | src/main/java/com/sangupta/gather/GatherUtils.java:69-88 | true exactly when the array is non-null and the probe is a Boolean equal to an element |
| GatherUtils.ContainsChars | src/main/java/com/sangupta/gather/GatherUtils.java:48-67 | true exactly when the array is non-null and the probe is a Character equal to an element |
| GatherUtils.ContainsInts | src/main/java/com/sangupta/gather/GatherUtils.java:102-119 | for a Number probe: true exactly when the array is non-null and the probe narrowed to the element width equals an element |
| GatherUtils.ContainsIntsOfObject | src/main/java/com/sangupta/gather/GatherUtils.java:90-100 | any probe: non-numbers (null included) are never contained, numbers as in ContainsInts |
| GatherUtils.ContainsObjects | src/main/java/com/sangupta/gather/GatherUtils.java:276-296 | true exactly when some non-null element equals the probe; a null probe is never contained |
| GatherUtils.ContainsAllOrAnyBools | src/main/java/com/sangupta/gather/GatherUtils.java:397-485 | the all/any test over a boolean[] equals the specification: an empty array or null literal is false, a Boolean[] literal holding null throws NullPointerException, other literal types are false |
| GatherUtils.ContainsAllOrAnyChars | src/main/java/com/sangupta/gather/GatherUtils.java:487-575 | the all/any test over a char[] equals the specification over char[], Character[] and collection literals |
| GatherUtils.ContainsAllOrAnyInts | src/main/java/com/sangupta/gather/GatherUtils.java:577-935 | the all/any test over byte[], short[], int[] and long[] equals the specification, with narrowing of each required number |
| GatherUtils.ContainsAllOrAnyObjects | src/main/java/com/sangupta/gather/GatherUtils.java:1117-1177 | the all/any test over an Object[] equals the specification over array and collection literals |
| GatherUtils.ContainsAllOrAnyCollection | src/main/java/com/sangupta/gather/GatherUtils.java:1179-1239 | the all/any test over a Collection equals the specification using collection contains |
| GatherUtils.AllOrAnyStep | src/main/java/com/sangupta/gather/GatherUtils.java:397-485 | one AND/OR step of the containsAllOrAny fold, which visits every required element, extends the all/any verdict by that element |
| GatherUtils.IsNumberType | src/main/java/com/sangupta/gather/GatherUtils.java:369-375 | a number type is a Number; null and BigDecimal are not number types |
| GatherUtils.AsNumber | src/main/java/com/sangupta/gather/GatherUtils.java:377-395 | non-null exactly for number types; atomics unwrap to Integer or Long with the same value; boxed numbers are returned as is |
| GatherUtils.CompareNumbers | src/main/java/com/sangupta/gather/GatherUtils.java:1241-1340 | throws NullPointerException exactly when either side is null; otherwise its sign is the sign of field minus literal, the literal narrowed to the field's type |
| GatherUtils.CompareNumbersAntisymmetric | src/main/java/com/sangupta/gather/GatherUtils.java:1241-1340 | swapping two numbers of the same boxed type negates the sign |
| GatherUtils.WildcardMatch | src/main/java/com/sangupta/gather/GatherUtils.java:298-332 | the corrected greedy matcher with backtracking returns exactly the glob relation (`?` one character, `*` any run) |
| GatherUtils.AsWrittenAgreesWithoutStarsInText | src/main/java/com/sangupta/gather/GatherUtils.java:298-332 | the matcher as written agrees with the glob relation whenever the text holds no `*` |
| GatherUtils.WildcardMatchAsWritten | src/main/java/com/sangupta/gather/GatherUtils.java:298-332 | `wildcardMatch` as written: with a pattern free of `*` and `?` it holds exactly when the text equals the pattern, whatever the text holds |
| GatherUtils.AsWrittenRejectsStarInText | src/main/java/com/sangupta/gather/GatherUtils.java:310-313 | the matcher as written rejects text `*ba` against pattern `*a`, which the glob relation accepts |
| GatherUtils.StarMatchesAll | src/main/java/com/sangupta/gather/GatherUtils.java:298-332 | in the glob relation, the pattern `*` matches every text |
| GatherUtils.NoWildcardsMeansEquality | src/main/java/com/sangupta/gather/GatherUtils.java:298-332 | a pattern without `*` or `?` matches exactly the equal text |
| GatherUtils.QuestionMatchesOneCharacter | src/main/java/com/sangupta/gather/GatherUtils.java:298-332 | the pattern `?` matches exactly the one-character texts |
| GatherUtils.StarExample | src/test/java/com/sangupta/gather/TestGatherUtils.java:219 | `abc.wav` matches `*`, in the code as written and in the glob relation |
| GatherUtils.SuffixExample | src/test/java/com/sangupta/gather/TestGatherUtils.java:220 | `abc.wav` matches `*.w?v` in both |
| GatherUtils.InnerExample | src/test/java/com/sangupta/gather/TestGatherUtils.java:221 | `abc.wav` matches `*b?.wav` in both |
| GatherUtils.QuestionsExample | src/test/java/com/sangupta/gather/TestGatherUtils.java:225 | `abc.wav` matches `???.???` in both |
| GatherUtils.WrongSuffixExample | src/test/java/com/sangupta/gather/TestGatherUtils.java:228 | `abc.wav` does not match `*.html` in either |
| GatherUtils.TooShortExample | src/test/java/com/sangupta/gather/TestGatherUtils.java:230 | `abc.wav` does not match `??.wav` in either |
| GatherUtils.WrongLastExample | src/test/java/com/sangupta/gather/TestGatherUtils.java:231 | `abc.wav` does not match `abc.wi?` in either |
| GatherReflect.PopulateAllFields | src/main/java/com/sangupta/gather/GatherReflect.java:146-165 | appends the declared fields of the class and then of each superclass up to Object; a null class appends nothing |
| GatherReflect.GetAllFields | src/main/java/com/sangupta/gather/GatherReflect.java:135-144 | null for a null class, otherwise every field of the class chain, subclass first |
| GatherReflect.PutFields | src/main/java/com/sangupta/gather/GatherReflect.java:128-130 | the name-to-field map built by putting the fields in order, so a later field overwrites an earlier one with the same name |
| GatherReflect.FieldMapLast | src/main/java/com/sangupta/gather/GatherReflect.java:128-132 | a name is a key exactly when some field carries it, and maps to the last such field |
| GatherReflect.SuperclassFieldWins | src/main/java/com/sangupta/gather/GatherReflect.java:146-165 | a name declared in a superclass resolves to the superclass's field, since it comes later in the list |
| GatherReflect.FieldMapKeysAreIdentifiers | src/main/java/com/sangupta/gather/GatherReflect.java:128-132 | every key of a class's field map is a dot-free identifier |
| GatherReflect.LookupField | src/main/java/com/sangupta/gather/GatherReflect.java:99-133 | what `getField` resolves, independent of the cache: a resolved field carries the requested name and belongs to the item's class chain; null item, null or blank key give none |
| GatherReflect.DottedKeyNeverResolves | src/main/java/com/sangupta/gather/GatherReflect.java:108-116 | a key containing a dot never resolves, whether or not the class is cached |
| GatherReflect.FieldCache.GetField | src/main/java/com/sangupta/gather/GatherReflect.java:99-133 | returns the field the specification resolves, and caches the item's class field map exactly when a non-blank, dot-free key reaches an uncached class |
| GatherReflect.FieldCache.FillClass | src/main/java/com/sangupta/gather/GatherReflect.java:119-130 | stores the class's complete name-to-field map in the cache and returns it |
| GatherReflect.CacheUpdateValid | src/main/java/com/sangupta/gather/GatherReflect.java:119-130 | adding a class's true field map keeps every cache entry equal to its class's field map |
| GatherReflect.SplitJoin | src/main/java/com/sangupta/gather/GatherReflect.java:68 | splitting at dots inverts joining dot-free parts |
| GatherReflect.JavaSplitDot | src/main/java/com/sangupta/gather/GatherReflect.java:68 | `key.split("\\.")` on a key holding a dot: dot-free parts, trailing empty parts removed |
| GatherReflect.DottedPathWalksNames | src/main/java/com/sangupta/gather/GatherReflect.java:55-97 | a path of two or more identifiers resolves by walking the fields one name at a time |
| GatherReflect.GetFieldAndInstance | src/main/java/com/sangupta/gather/GatherReflect.java:55-97 | null for a null item or key; a plain key pairs the resolved field with the item; a dotted key walks the path, and its result equals the path specification |
| GatherReflect.WalkPath | src/main/java/com/sangupta/gather/GatherReflect.java:72-94 | the token loop returns null at the first unresolved token, else the last field with the instance that holds it |
| GatherAggregator.UniqueOfDistinct | src/main/java/com/sangupta/gather/GatherAggregator.java:37-59 | the unique aggregator's set never holds two equal values |
| GatherAggregator.UniqueOfFromInput | src/main/java/com/sangupta/gather/GatherAggregator.java:37-59 | every member of the set was aggregated |
| GatherAggregator.UniqueOfCoversInput | src/main/java/com/sangupta/gather/GatherAggregator.java:42-49 | every non-null aggregated value has an equal member in the set; nulls are ignored |
| GatherAggregator.MinOfIsMinimum | src/main/java/com/sangupta/gather/GatherAggregator.java:179-202 | the long minimum is at most every value and is one of them; with no values it is Long.MAX_VALUE |
| GatherAggregator.MaxOfIsMaximum | src/main/java/com/sangupta/gather/GatherAggregator.java:204-227 | the long maximum is at least every value and is one of them; with no values it is Long.MIN_VALUE |
| GatherAggregator.WrappedSumIsWrappedTotal | src/main/java/com/sangupta/gather/GatherAggregator.java:229-250 | the running sum with 64-bit wrap-around at every step equals the exact total wrapped once |
| GatherAggregator.AverageIsTruncatedMean | src/main/java/com/sangupta/gather/GatherAggregator.java:252-283 | the average is the wrapped total divided by the count, truncated toward zero |
| GatherAggregator.Aggregator.constructor | src/main/java/com/sangupta/gather/GatherAggregator.java:37-283 | a fresh aggregator has an empty set, a zero count, and a result of Long.MAX_VALUE (min), Long.MIN_VALUE (max) or 0 |
| GatherAggregator.Aggregator.Aggregate | src/main/java/com/sangupta/gather/GatherAggregator.java:37-283 | a long aggregator throws IllegalArgumentException on a non-number (null included) and changes nothing; otherwise the value is consumed and every field still equals its reducer over the consumed values |
| GatherAggregator.Aggregator.AggregateUnique | src/main/java/com/sangupta/gather/GatherAggregator.java:42-49 | adds a non-null value unless an equal one is present |
| GatherAggregator.Aggregator.AggregateLong | src/main/java/com/sangupta/gather/GatherAggregator.java:184-271 | updates the minimum, maximum, wrapped sum or sum and count with the value's longValue |
| GatherAggregator.Aggregator.GetResult | src/main/java/com/sangupta/gather/GatherAggregator.java:51-53 | the set size, the count, the long result, or the truncated average; Double 0 for an empty average (lines 276-282) |
| GatherExecutor.StringCompareZeroIffEqual | src/main/java/com/sangupta/gather/GatherExecutor.java:477-503 | String.compareTo is zero exactly for equal strings |
| GatherExecutor.StringCompareAntisymmetric | src/main/java/com/sangupta/gather/GatherExecutor.java:477-503 | String.compareTo of swapped strings is negated |
| GatherExecutor.HandleEquals | src/main/java/com/sangupta/gather/GatherExecutor.java:558-572 | never true when either side is null; every non-null value equals itself |
| GatherExecutor.HandleEqualsIgnoreCase | src/main/java/com/sangupta/gather/GatherExecutor.java:541-556 | never true when either side is null; whatever is equal (handleEquals) is also equal ignoring case |
| GatherExecutor.HandleValueIn | src/main/java/com/sangupta/gather/GatherExecutor.java:505-531 | the converse of handleCollectionHasValue: true exactly when the literal is a non-empty collection or an object array that has the field value |
| GatherExecutor.HandleCollectionHasValue | src/main/java/com/sangupta/gather/GatherExecutor.java:353-417 | only a container field with a non-null literal can hold it; a primitive integral array holds only a Number whose value narrowed to the element width is an element |
| GatherExecutor.HandleCollectionHasAllOrAny | src/main/java/com/sangupta/gather/GatherExecutor.java:287-344 | throws NullPointerException exactly for a non-empty boolean[] field and a Boolean[] literal holding null (unboxing); only container fields can match |
| GatherExecutor.HandleWildcardMatch | src/main/java/com/sangupta/gather/GatherExecutor.java:426-439 | uses `wildcardMatch` as written; when the field's text holds no `*` this is exactly "both non-null and the text matches the literal in the glob relation" |
| GatherExecutor.HandleRegexMatch | src/main/java/com/sangupta/gather/GatherExecutor.java:441-459 | throws exactly when both sides are non-null and the literal is pattern text that does not compile (IllegalArgumentException); a compiled Pattern never throws |
| GatherExecutor.CompareTo | src/main/java/com/sangupta/gather/GatherExecutor.java:482-487 | compareTo on a Comparable field throws exactly when the literal is not of the field's class: NullPointerException for null, ClassCastException otherwise |
| GatherExecutor.CompareToReflexive | src/main/java/com/sangupta/gather/GatherExecutor.java:482-487 | every comparable value compares equal to itself |
| GatherExecutor.CompareToAntisymmetric | src/main/java/com/sangupta/gather/GatherExecutor.java:482-487 | swapping the operands negates the sign, and one side throws exactly when the other does |
| GatherExecutor.HandleNumericComparison | src/main/java/com/sangupta/gather/GatherExecutor.java:461-488 | throws exactly when the field is comparable and the literal is null (NullPointerException) or of another class; only a comparable field can satisfy an ordering test |
| GatherExecutor.SwappedOperandsMirrorTest | src/main/java/com/sangupta/gather/GatherExecutor.java:461-488 | for a literal of the field's class, swapping the two values and mirroring the test (less for greater) gives the same answer |
| GatherExecutor.OrderingTestsComplement | src/main/java/com/sangupta/gather/GatherExecutor.java:461-503 | on a comparable field, lessThan and greaterThanOrEquals (and greaterThan and lessThanOrEquals) give opposite answers or throw together |
| GatherExecutor.OrderingAgreesWithEquality | src/main/java/com/sangupta/gather/GatherExecutor.java:461-503 | for a literal of the field's class, both non-strict comparisons hold exactly when equals holds |
| GatherExecutor.ValueMatchesCriteria | src/main/java/com/sangupta/gather/GatherExecutor.java:229-277 | only ordering, hasAll/hasAny and regex tests can throw (and HasProperty, which always throws IllegalStateException); isNull is exactly "the field value is null"; a null field value fails every other test |
| GatherExecutor.NullLiteralNeverMatches | src/main/java/com/sangupta/gather/GatherExecutor.java:229-572 | a null literal fails every test except isNull, except that an ordering test on a comparable field throws NullPointerException |
| GatherExecutor.InEmptyCollectionIsFalse | src/main/java/com/sangupta/gather/GatherExecutor.java:505-531 | no value is in an empty collection literal |
| GatherExecutor.StarLiteralMatchesEveryField | src/main/java/com/sangupta/gather/GatherExecutor.java:426-439 | `like("*")` matches every non-null field whose text holds no `*` |
| GatherExecutor.StarInFieldTextRejected | src/main/java/com/sangupta/gather/GatherExecutor.java:426-439 | as written, `like("*")` rejects a field whose text is `*a` and `like("*a")` rejects `*ba`, though both are glob matches |
| GatherExecutor.PlainWildcardIsTextEquality | src/main/java/com/sangupta/gather/GatherExecutor.java:426-439 | a wildcard literal without `*` or `?` matches exactly the fields whose text equals it, whatever that text holds |
| GatherExecutor.DottedKeyNeverMatches | src/main/java/com/sangupta/gather/GatherExecutor.java:199-227 | a clause with a dotted key never matches |
| GatherExecutor.MatchCriterion | src/main/java/com/sangupta/gather/GatherExecutor.java:199-227 | a key that does not resolve (a null key included) never matches; only the test of a resolved field can throw, and HasProperty never does |
| GatherExecutor.HasPropertyMeansFieldExists | src/main/java/com/sangupta/gather/GatherExecutor.java:199-209 | hasProperty holds exactly when the item's class chain, as modelled, has a field of that name |
| GatherExecutor.FoldThrowsIffSomeClauseThrows | src/main/java/com/sangupta/gather/GatherExecutor.java:168-188 | every clause is evaluated, without short-circuit: matching throws exactly when some clause throws |
| GatherExecutor.OrClausesMeanAny | src/main/java/com/sangupta/gather/GatherExecutor.java:168-188 | with only OR joins an item matches exactly when some clause holds |
| GatherExecutor.AndClausesFromFalseNeverMatch | src/main/java/com/sangupta/gather/GatherExecutor.java:168-188 | with only AND joins the fold starting from false never matches |
| GatherExecutor.OrThenAndsMeanAll | src/main/java/com/sangupta/gather/GatherExecutor.java:168-188 | an OR clause followed by AND clauses matches exactly when every one holds |
| GatherExecutor.MatchCriteria | src/main/java/com/sangupta/gather/GatherExecutor.java:199-227 | resolves the field through the cache and returns the clause specification's outcome |
| GatherExecutor.Matches | src/main/java/com/sangupta/gather/GatherExecutor.java:159-189 | a null item never matches, no clauses match everything, otherwise the left fold of the inverted clause outcomes from false |
| GatherExecutor.GetResultsInternal | src/main/java/com/sangupta/gather/GatherExecutor.java:121-157 | the collection loop equals the skip, count or collect, and stop-at-limit specification; null for a null collection |
| GatherExecutor.MatchingIsExactlyTheMatches | src/main/java/com/sangupta/gather/GatherExecutor.java:121-157 | the filtered items are exactly the collection's items that match |
| GatherExecutor.WindowIsSlice | src/main/java/com/sangupta/gather/GatherExecutor.java:135-152 | the window is the run of matches after the skipped ones, no longer than a positive limit |
| GatherExecutor.CollectListIsWindow | src/main/java/com/sangupta/gather/GatherExecutor.java:121-157 | in list mode the loop returns the matches after `skipCount`, at most `numResults` of them |
| GatherExecutor.CollectCountIsSize | src/main/java/com/sangupta/gather/GatherExecutor.java:121-157 | in count mode the loop returns the number of matches after the skipped ones |
| GatherExecutor.FirstFailure | src/main/java/com/sangupta/gather/GatherExecutor.java:133-134 | the exception of the first item whose `matches` throws; none exactly when no item throws |
| GatherExecutor.CollectFailure | src/main/java/com/sangupta/gather/GatherExecutor.java:133-157 | the loop can only throw the first exception among the items it reaches, and with no positive limit it does throw it |
| GatherExecutor.ResultsFailure | src/main/java/com/sangupta/gather/GatherExecutor.java:121-157 | getResultsInternal on a collection ends with the first item's exception when it throws, and always throws it when there is no positive limit |
| GatherExecutor.Count | src/main/java/com/sangupta/gather/GatherExecutor.java:111-114 | NullPointerException for a null collection; the first exception a clause throws on an item; otherwise the number of matching items |
| GatherExecutor.GetResultsAsWritten | src/main/java/com/sangupta/gather/GatherExecutor.java:116-119 | as written: every matching item, whatever the limit and skip count; the first exception a clause throws on an item |
| GatherExecutor.AsWrittenIgnoresLimit | src/main/java/com/sangupta/gather/GatherExecutor.java:116-119 | with two or more matches, a limit of one gives a shorter list than the one returned as written |
| GatherExecutor.GetResults | src/main/java/com/sangupta/gather/GatherExecutor.java:116-119 | corrected: the matches after the first `skipCount`, at most `numResults` when positive; it throws exactly when the loop reaches an item whose clauses throw, with the first such exception, always so without a positive limit |
| GatherExecutor.FirstNonNumber | src/main/java/com/sangupta/gather/GatherExecutor.java:39-109 | the position of the first fed value that a long aggregator rejects |
| GatherExecutor.FailureIsFirstNonNumber | src/main/java/com/sangupta/gather/GatherExecutor.java:39-109 | the value that makes aggregation throw is the first non-number fed |
| GatherExecutor.AggregateOnItem | src/main/java/com/sangupta/gather/GatherExecutor.java:89-109 | an item without the field feeds nothing and keeps the count; otherwise it feeds the field's value and adds one to the count |
| GatherExecutor.Aggregate | src/main/java/com/sangupta/gather/GatherExecutor.java:39-62 | null for a null or empty collection, a null key or a null aggregator; a long aggregator given a non-number throws after consuming the values before it; otherwise every fed value is consumed and the result is the reducer over them |
| GatherQuery.StrOrNull | src/main/java/com/sangupta/gather/Gather.java:227-258 | a String argument is null exactly when absent, otherwise the string value |
| GatherQuery.Gather.constructor | src/main/java/com/sangupta/gather/Gather.java:120-122 | no clauses, the given key, join OR, not inverted |
| GatherQuery.Gather.Where | src/main/java/com/sangupta/gather/Gather.java:59-61 | a fresh query on the key |
| GatherQuery.Gather.HasProperty | src/main/java/com/sangupta/gather/Gather.java:63-67 | a fresh query holding one non-inverted HasProperty clause |
| GatherQuery.Gather.Fluent | src/main/java/com/sangupta/gather/Gather.java:325-329 | clears the key and the inversion; the join and clauses stay |
| GatherQuery.Gather.And | src/main/java/com/sangupta/gather/Gather.java:124-131 | as written: throws IllegalArgumentException and changes nothing while a key is pending; otherwise sets the join to AND and leaves no key pending |
| GatherQuery.Gather.Or | src/main/java/com/sangupta/gather/Gather.java:142-149 | as `And`, with the join set to OR |
| GatherQuery.Gather.AndKeepingKey | src/main/java/com/sangupta/gather/Gather.java:124-131 | corrected: as `And`, but its argument becomes the pending key |
| GatherQuery.Gather.OrKeepingKey | src/main/java/com/sangupta/gather/Gather.java:142-149 | corrected: as `Or`, but its argument becomes the pending key |
| GatherQuery.Gather.Not | src/main/java/com/sangupta/gather/Gather.java:133-140 | throws IllegalArgumentException and changes nothing when no key is pending; otherwise inverts the next clause |
| GatherQuery.Gather.Is | src/main/java/com/sangupta/gather/Gather.java:157-164 | throws IllegalArgumentException and changes nothing when no key is pending; otherwise appends an Equals clause and clears the key and inversion |
| GatherQuery.Gather.ExistsProperty | src/main/java/com/sangupta/gather/Gather.java:166-169 | appends a HasProperty clause that is never inverted |
| GatherQuery.Gather.NotExistsProperty | src/main/java/com/sangupta/gather/Gather.java:171-174 | appends a HasProperty clause that is always inverted |
| GatherQuery.Gather.Has | src/main/java/com/sangupta/gather/Gather.java:176-179 | appends a CollectionHasValue clause |
| GatherQuery.Gather.HasAll | src/main/java/com/sangupta/gather/Gather.java:181-189 | appends a CollectionHasAllValues clause |
| GatherQuery.Gather.HasAny | src/main/java/com/sangupta/gather/Gather.java:191-199 | appends a CollectionHasAnyValue clause |
| GatherQuery.Gather.IsNull | src/main/java/com/sangupta/gather/Gather.java:206-209 | appends an IsNull clause with the pending inversion |
| GatherQuery.Gather.IsNotNull | src/main/java/com/sangupta/gather/Gather.java:216-219 | appends an IsNull clause that is always inverted |
| GatherQuery.Gather.IsIgnoreCase | src/main/java/com/sangupta/gather/Gather.java:227-230 | appends an EqualsIgnoreCase clause |
| GatherQuery.Gather.Like | src/main/java/com/sangupta/gather/Gather.java:238-241 | appends a WildcardMatch clause |
| GatherQuery.Gather.Regex | src/main/java/com/sangupta/gather/Gather.java:249-263 | appends a RegexMatch clause with pattern text or a compiled pattern |
| GatherQuery.Gather.GreaterThan | src/main/java/com/sangupta/gather/Gather.java:265-268 | appends a GreaterThan clause |
| GatherQuery.Gather.GreaterThanOrEquals | src/main/java/com/sangupta/gather/Gather.java:270-273 | appends a GreaterThanOrEquals clause |
| GatherQuery.Gather.LessThan | src/main/java/com/sangupta/gather/Gather.java:275-278 | appends a LessThan clause |
| GatherQuery.Gather.LessThanOrEquals | src/main/java/com/sangupta/gather/Gather.java:280-283 | appends a LessThanOrEquals clause |
| GatherQuery.Gather.Count | src/main/java/com/sangupta/gather/Gather.java:285-287 | NullPointerException for a null collection; the first exception a clause throws on an item; otherwise the number of matching items |
| GatherQuery.Gather.Find | src/main/java/com/sangupta/gather/Gather.java:296-306 | as written: every match in collection order, whatever `numResults` and `skipCount` are; when some item's clauses throw, the exception of the first such item; a null collection throws NullPointerException |
| GatherQuery.Gather.FindOne | src/main/java/com/sangupta/gather/Gather.java:308-319 | as written: the first match whatever `skipCount` is, or null when nothing matches; when some item's clauses throw, the exception of the first such item; a null collection throws NullPointerException |
| GatherQuery.Gather.FindLimited | src/main/java/com/sangupta/gather/Gather.java:304-306 | with the corrected getResults: the matches after `skipCount`, at most `numResults` when positive; an exception only when the loop reaches an item whose clauses throw, the first such one |
| GatherQuery.Gather.FindOneSkipping | src/main/java/com/sangupta/gather/Gather.java:312-319 | with the corrected getResults: the match at position `skipCount`, or null when there are not that many matches; an exception only when an item up to that match throws, the first such one |
| GatherQuery.AndThenIsThrows | src/main/java/com/sangupta/gather/Gather.java:124-131 | as written, `where(a).is(x).and(b).is(y)` throws IllegalArgumentException and keeps only the first clause |
| GatherQuery.AndKeepingKeyThenIs | src/main/java/com/sangupta/gather/Gather.java:124-131 | with the key kept, the same chain builds both Equals clauses, the second joined by AND |

## Left out

- `float`, `double`, `Float` and `Double` values: the `float[]`/`double[]` overloads of `contains` and `containsAllOrAny` (GatherUtils.java:214-274, 937-1115), the float and double branches of `compareNumbers`, and the four Double aggregators (GatherAggregator.java:76-177). Floating-point arithmetic is outside the model.
- The static aggregation shortcuts `Gather.unique`, `count`, `sumAsLong`, `minAsLong`, `maxAsLong`, `averageAsLong` and their Double variants (Gather.java:73-114). Each only builds one aggregator and calls the executor's `aggregate`, which is modelled.
- The two `aggregate` overloads, for a Collection and for an `Object[]`, have the same body. Both are `GatherExecutor.Aggregate` over a sequence.
- Regular expressions: compilation and matching are oracles. The `COMPILED_PATTERNS` cache in GatherUtils.java:42 only memoises compilation and is not modelled.
- `toString()` of objects and the case folding of `equalsIgnoreCase` are oracles. The model does not know the Unicode case tables.
- `BigDecimal` is an exact real: its scale, and therefore scale-sensitive `equals`, is not modelled.
- `hashCode` and the `HashSet` of the unique aggregator: the set is a sequence kept free of `equals`-duplicates, which is what a consistent `hashCode` gives.
- JavaValues.ClassOf / GatherExecutor.HasPropertyMeansFieldExists: library values (strings, boxed numbers, arrays, lists, atomics) are given a class with no declared fields. The private fields of JDK classes, such as `String.hash` or `ArrayList.size`, are not modelled, so `getField` on such a value resolves nothing in the model, while the source would find those fields by reflection (and on recent JDKs `setAccessible` on them would throw).
- User classes that override `equals` or implement `Comparable` are not modelled. Records compare by identity and are not comparable.
- Reflection failures (`IllegalAccessException`, turned into `RuntimeException` in GatherExecutor.java:98-105 and 219-223, GatherReflect.java:89-93) cannot happen in the model: every field is readable.
- `populateAllFields` throwing on a null list (GatherReflect.java:151-153): no caller passes one, and the model's field list is a value.
- GatherReflect.FieldCache.FillClass: the source puts an empty map in the cache first and fills it in place through an alias. The model stores the complete map once. Nothing reads the cache between the two steps.
- GatherExecutor.Count: the `int` counter is unbounded; Java overflow after 2^31 matches is not modelled.
- GatherAggregator.Aggregator: the `count` field of CountingAggregator and LongAverageAggregator is a Java `int` (GatherAggregator.java:63, 256) that wraps after 2^31 values; the model's count is unbounded, and so is the average's divisor.
- GatherExecutor.StringCompare, GatherUtils.WildcardMatchAsWritten, GatherUtils.Glob and `JavaValues.Value.Char` work on Unicode scalar values, not Java's UTF-16 code units. They differ on text outside the Basic Multilingual Plane: `StringCompare("\uFFFF", "\U{1F600}")` is negative where Java's `compareTo` is positive (the high surrogate 0xD83D sorts below 0xFFFF); Java's `wildcardMatch("😀", "??")` is true because each `?` takes one surrogate, while the model's is false; and lone surrogates cannot be represented at all.
- GatherExecutor.CompareTo: boxed `Byte`/`Short`/`Integer`/`Long` values are taken to lie within their type's range, and the raw value is compared without narrowing.
- Thread safety of the static caches and the private `ResultsOrCount` holder's identity are not modelled. The holder is a value.

## Findings

| source | as written | input that shows it | evidently intended | confidence | as-written member | corrected member |
|---|---|---|---|---|---|---|
| src/main/java/com/sangupta/gather/GatherUtils.java:310-313 | a pattern `*` is compared as a literal character first, so a `*` in the text consumes the pattern's star without recording a backtrack point | `wildcardMatch("*ba", "*a")` returns false | glob matching, where `*` matches any run, so `*a` matches `*ba`; the query engine's `like` test keeps the matcher as written (GatherExecutor.StarInFieldTextRejected) | not executed | GatherUtils.AsWrittenRejectsStarInText | GatherUtils.WildcardMatch |
| src/main/java/com/sangupta/gather/GatherExecutor.java:116-119 | `getResults` passes 0 and 0 to `getResultsInternal` instead of `numResults` and `skipCount` | two matching items and `find(collection, 1)` return both items | at most `numResults` matches after the first `skipCount` | not executed | GatherExecutor.AsWrittenIgnoresLimit | GatherExecutor.GetResults |
| src/main/java/com/sangupta/gather/Gather.java:124-149 | `and(key)` and `or(key)` ignore their argument, and `fluent()` clears the pending key | `Gather.where("a").is(1).and("b").is(2)` throws IllegalArgumentException | the argument becomes the key of the next clause | not executed | GatherQuery.AndThenIsThrows | GatherQuery.Gather.AndKeepingKey |
