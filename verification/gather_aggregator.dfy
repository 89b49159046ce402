/**
 * The reducers an aggregation feeds each resolved field value into: unique
 * values, a plain count, and long minimum, maximum, sum and average.
 */
module GatherAggregator {
  import opened JavaValues

  /** Which `GatherAggregator` implementation an aggregator object is. */
  datatype AggregatorKind = Unique | Counting | LongMin | LongMax | LongSum | LongAverage

  predicate IsNumeric(kind: AggregatorKind)
  {
    !kind.Unique? && !kind.Counting?
  }

  /** The `Number` `getResult` returns: an Integer, a Long, or the Double
      zero an empty average reports. */
  datatype AggregateResult = IntResult(n: int) | LongResult(n: int) | ZeroDouble

  // ---------------------------------------------------------------------
  // What the state is after a run of values
  // ---------------------------------------------------------------------

  /** The set kept by the unique aggregator: nulls are ignored, and a value
      is added unless an element it equals is already present. */
  function UniqueOf(vs: seq<Value>): seq<Value>
  {
    if vs == [] then []
    else
      var s := UniqueOf(vs[..|vs| - 1]);
      var v := vs[|vs| - 1];
      if v.Null? || HasEqual(s, v) then s else s + [v]
  }

  predicate HasEqual(s: seq<Value>, v: Value)
  {
    exists k :: 0 <= k < |s| && Equals(v, s[k])
  }

  /** No element equals an earlier one, and there are no nulls. */
  predicate Distinct(s: seq<Value>)
  {
    (forall k :: 0 <= k < |s| ==> !s[k].Null?) &&
    forall i, j :: 0 <= i < j < |s| ==> !Equals(s[j], s[i])
  }

  /** The unique set holds no null and no two equal values. */
  lemma {:induction false} UniqueOfDistinct(vs: seq<Value>)
    ensures Distinct(UniqueOf(vs))
    decreases |vs|
  {
    if vs != [] {
      var init := vs[..|vs| - 1];
      UniqueOfDistinct(init);
      var s := UniqueOf(init);
      var v := vs[|vs| - 1];
      if !v.Null? && !HasEqual(s, v) {
        var t := s + [v];
        forall i, j | 0 <= i < j < |t| ensures !Equals(t[j], t[i]) {
          if j == |s| {
            assert t[i] == s[i];
          } else {
            assert t[i] == s[i] && t[j] == s[j];
          }
        }
      }
    }
  }

  /** Feeding one more value adds it unless it is null or already has an equal. */
  lemma UniqueOfSnoc(vs: seq<Value>, v: Value)
    ensures UniqueOf(vs + [v]) ==
      if v.Null? || HasEqual(UniqueOf(vs), v) then UniqueOf(vs) else UniqueOf(vs) + [v]
  {
    assert (vs + [v])[..|vs|] == vs;
  }

  /** Every element of the unique set was fed. */
  lemma {:induction false} UniqueOfFromInput(vs: seq<Value>)
    ensures forall k :: 0 <= k < |UniqueOf(vs)| ==> UniqueOf(vs)[k] in vs
    decreases |vs|
  {
    if vs != [] {
      var init := vs[..|vs| - 1];
      UniqueOfFromInput(init);
      assert forall x :: x in init ==> x in vs;
    }
  }

  /** Every non-null value fed has an equal in the unique set. */
  lemma {:induction false} UniqueOfCoversInput(vs: seq<Value>)
    ensures forall k :: 0 <= k < |vs| && !vs[k].Null? ==> HasEqual(UniqueOf(vs), vs[k])
    decreases |vs|
  {
    if vs != [] {
      var init := vs[..|vs| - 1];
      UniqueOfCoversInput(init);
      var s := UniqueOf(init);
      var v := vs[|vs| - 1];
      forall k | 0 <= k < |vs| && !vs[k].Null?
        ensures HasEqual(UniqueOf(vs), vs[k])
      {
        if k < |vs| - 1 {
          assert vs[k] == init[k];
          var e :| 0 <= e < |s| && Equals(vs[k], s[e]);
          assert UniqueOf(vs)[e] == s[e];
        } else if !HasEqual(s, v) {
          EqualsReflexive(v);
          assert UniqueOf(vs)[|s|] == v;
        }
      }
    }
  }

  /** The running total after one more value, from the total before it. */
  lemma SumStep(ns: seq<int>, x: int, before: int, after: int)
    requires before == WrappedSum(ns) && after == Wrap64(before + x)
    ensures after == WrappedSum(ns + [x])
  {
    RunningStep(ns, x);
  }

  /** Values narrowed as `longValue()` does; defined only for numbers. */
  function LongValues(vs: seq<Value>): (ns: seq<int>)
    requires forall k :: 0 <= k < |vs| ==> IsNumber(vs[k])
    ensures |ns| == |vs| && forall k :: 0 <= k < |vs| ==> ns[k] == LongValue(vs[k])
  {
    seq(|vs|, k requires 0 <= k < |vs| => LongValue(vs[k]))
  }

  predicate AllNumbers(vs: seq<Value>)
  {
    forall k :: 0 <= k < |vs| ==> IsNumber(vs[k])
  }

  /** Running minimum seeded with `Long.MAX_VALUE`. */
  function MinOf(ns: seq<int>): int
  {
    if ns == [] then LONG_MAX
    else
      var m := MinOf(ns[..|ns| - 1]);
      if m > ns[|ns| - 1] then ns[|ns| - 1] else m
  }

  /** Extending the consumed values by one number extends their longs by one. */
  lemma LongValuesSnoc(vs: seq<Value>, v: Value)
    requires AllNumbers(vs) && IsNumber(v)
    ensures AllNumbers(vs + [v])
    ensures LongValues(vs + [v]) == LongValues(vs) + [LongValue(v)]
  {
    assert forall k :: 0 <= k < |vs| ==> (vs + [v])[k] == vs[k];
  }

  /** One step of each running reduction. */
  lemma RunningStep(ns: seq<int>, x: int)
    ensures MinOf(ns + [x]) == if MinOf(ns) > x then x else MinOf(ns)
    ensures MaxOf(ns + [x]) == if MaxOf(ns) < x then x else MaxOf(ns)
    ensures WrappedSum(ns + [x]) == Wrap64(WrappedSum(ns) + x)
  {
    assert (ns + [x])[..|ns|] == ns;
  }

  /** Running maximum seeded with `Long.MIN_VALUE`. */
  function MaxOf(ns: seq<int>): int
  {
    if ns == [] then LONG_MIN
    else
      var m := MaxOf(ns[..|ns| - 1]);
      if m < ns[|ns| - 1] then ns[|ns| - 1] else m
  }

  /** Running `long` sum, wrapping on every addition. */
  function WrappedSum(ns: seq<int>): int
  {
    if ns == [] then 0 else Wrap64(WrappedSum(ns[..|ns| - 1]) + ns[|ns| - 1])
  }

  /** The exact sum. */
  function Sum(ns: seq<int>): int
  {
    if ns == [] then 0 else Sum(ns[..|ns| - 1]) + ns[|ns| - 1]
  }

  /** The minimum is a lower bound of the values and, when there are
      values, one of them. */
  lemma {:induction false} MinOfIsMinimum(ns: seq<int>)
    requires forall k :: 0 <= k < |ns| ==> ns[k] <= LONG_MAX
    ensures forall k :: 0 <= k < |ns| ==> MinOf(ns) <= ns[k]
    ensures ns != [] ==> MinOf(ns) in ns
    ensures ns == [] ==> MinOf(ns) == LONG_MAX
    decreases |ns|
  {
    if ns != [] {
      var init := ns[..|ns| - 1];
      MinOfIsMinimum(init);
      assert forall k :: 0 <= k < |init| ==> init[k] == ns[k];
    }
  }

  /** The maximum is an upper bound of the values and, when there are
      values, one of them. */
  lemma {:induction false} MaxOfIsMaximum(ns: seq<int>)
    requires forall k :: 0 <= k < |ns| ==> LONG_MIN <= ns[k]
    ensures forall k :: 0 <= k < |ns| ==> ns[k] <= MaxOf(ns)
    ensures ns != [] ==> MaxOf(ns) in ns
    ensures ns == [] ==> MaxOf(ns) == LONG_MIN
    decreases |ns|
  {
    if ns != [] {
      var init := ns[..|ns| - 1];
      MaxOfIsMaximum(init);
      assert forall k :: 0 <= k < |init| ==> init[k] == ns[k];
    }
  }

  /** Two values in range that differ by a multiple of the modulus are equal. */
  lemma WrapUnique(n: int, r: int, w: Width)
    requires InRange(w, r) && (r - n) % Modulus(w) == 0
    ensures r == Wrap(n, w)
  {
    var x := Wrap(n, w);
    var m := Modulus(w);
    var a := (x - n) / m;
    var b := (r - n) / m;
    assert x - n == a * m;
    assert r - n == b * m;
    assert r - x == (b - a) * m;
    ZeroMultiple(b - a, m);
  }

  /** The only multiple of `m` strictly between `-m` and `m` is zero. */
  lemma ZeroMultiple(c: int, m: int)
    requires m > 0 && -m < c * m < m
    ensures c == 0
  {
  }

  /** Wrapping after every addition gives the wrapped exact total. */
  lemma {:induction false} WrappedSumIsWrappedTotal(ns: seq<int>)
    ensures WrappedSum(ns) == Wrap64(Sum(ns))
    decreases |ns|
  {
    if ns != [] {
      var init := ns[..|ns| - 1];
      var last := ns[|ns| - 1];
      WrappedSumIsWrappedTotal(init);
      var p := WrappedSum(init);
      var r := Wrap64(p + last);
      var m := Modulus(W64);
      assert (r - (p + last)) % m == 0;
      assert (p - Sum(init)) % m == 0;
      assert (r - Sum(ns)) % m == 0 by {
        var a := (r - (p + last)) / m;
        var b := (p - Sum(init)) / m;
        assert r - (p + last) == a * m;
        assert p - Sum(init) == b * m;
        assert r - Sum(ns) == (a + b) * m;
      }
      WrapUnique(Sum(ns), r, W64);
    }
  }

  /** What `getResult` reports after the given values were aggregated. */
  function ResultOf(kind: AggregatorKind, consumed: seq<Value>): AggregateResult
    requires IsNumeric(kind) ==> AllNumbers(consumed)
  {
    match kind
    case Unique => IntResult(|UniqueOf(consumed)|)
    case Counting => IntResult(|consumed|)
    case LongMin => LongResult(MinOf(LongValues(consumed)))
    case LongMax => LongResult(MaxOf(LongValues(consumed)))
    case LongSum => LongResult(WrappedSum(LongValues(consumed)))
    case LongAverage =>
      if |consumed| == 0 then ZeroDouble
      else LongResult(JavaDiv(WrappedSum(LongValues(consumed)), |consumed|))
  }

  /** The average is the wrapped total divided by the count, truncated. */
  lemma AverageIsTruncatedMean(consumed: seq<Value>)
    requires AllNumbers(consumed) && |consumed| > 0
    ensures ResultOf(LongAverage, consumed) ==
      LongResult(JavaDiv(Wrap64(Sum(LongValues(consumed))), |consumed|))
  {
    WrappedSumIsWrappedTotal(LongValues(consumed));
  }

  // ---------------------------------------------------------------------
  // The aggregator objects
  // ---------------------------------------------------------------------

  /** One `GatherAggregator` instance.  `uniques` (the `set` field) belongs to the unique
      aggregator, `count` to the counting and average aggregators, and
      `result` to the long aggregators; `consumed` records the values
      aggregated so far. */
  class Aggregator {
    const kind: AggregatorKind
    var uniques: seq<Value>
    var count: int
    var result: int
    ghost var consumed: seq<Value>

    ghost predicate Valid()
      reads this
    {
      (IsNumeric(kind) ==> AllNumbers(consumed)) &&
      match kind
      case Unique => uniques == UniqueOf(consumed)
      case Counting => count == |consumed|
      case LongMin => result == MinOf(LongValues(consumed))
      case LongMax => result == MaxOf(LongValues(consumed))
      case LongSum => result == WrappedSum(LongValues(consumed))
      case LongAverage => result == WrappedSum(LongValues(consumed)) && count == |consumed|
    }

    /** A fresh aggregator: empty set, zero count, and the result seeded
        with `Long.MAX_VALUE` for the minimum, `Long.MIN_VALUE` for the
        maximum and 0 otherwise. */
    constructor(kind: AggregatorKind)
      ensures this.kind == kind && consumed == [] && Valid()
      ensures uniques == [] && count == 0
      ensures result == match kind
        case LongMin => LONG_MAX
        case LongMax => LONG_MIN
        case _ => 0
    {
      this.kind := kind;
      uniques := [];
      count := 0;
      result := match kind
        case LongMin => LONG_MAX
        case LongMax => LONG_MIN
        case _ => 0;
      consumed := [];
    }

    /** `aggregate(int index, Object value)`.  The long aggregators reject a
        value that is not a Number (null included) before changing
        anything; the index is ignored by every implementation. */
    method Aggregate(index: int, value: Value) returns (c: Completion)
      requires Valid()
      modifies this
      ensures Valid()
      ensures c.Abrupt? <==> IsNumeric(kind) && !IsNumber(value)
      ensures c.Abrupt? ==> c.ex == IllegalArgument && unchanged(this)
      ensures c.Normal? ==> consumed == old(consumed) + [value]
    {
      if kind == Unique {
        AggregateUnique(value);
        return Normal;
      }
      if kind == Counting {
        count := count + 1;
        consumed := consumed + [value];
        return Normal;
      }
      if !IsNumber(value) {
        return Abrupt(IllegalArgument);
      }
      AggregateLong(value);
      return Normal;
    }

    /** `UniqueAggregator.aggregate`: nulls are skipped, other values are
        added to the hash set. */
    method AggregateUnique(value: Value)
      requires Valid() && kind == Unique
      modifies this
      ensures Valid()
      ensures consumed == old(consumed) + [value]
    {
      UniqueOfSnoc(consumed, value);
      consumed := consumed + [value];
      if value.Null? {
        return;
      }
      if !HasEqual(uniques, value) {
        uniques := uniques + [value];
      }
    }

    /** `aggregate` of the long minimum, maximum, sum and average, once the
        value is known to be a Number. */
    method AggregateLong(value: Value)
      requires Valid() && IsNumeric(kind) && IsNumber(value)
      modifies this
      ensures Valid()
      ensures consumed == old(consumed) + [value]
    {
      var fieldValue := LongValue(value);
      ghost var ns := LongValues(consumed);
      LongValuesSnoc(consumed, value);
      consumed := consumed + [value];
      assert LongValues(consumed) == ns + [fieldValue];
      match kind {
        case LongMin =>
          RunningStep(ns, fieldValue);
          if result > fieldValue {
            result := fieldValue;
          }
          assert result == MinOf(ns + [fieldValue]);
        case LongMax =>
          RunningStep(ns, fieldValue);
          if result < fieldValue {
            result := fieldValue;
          }
          assert result == MaxOf(ns + [fieldValue]);
        case LongSum =>
          var total := Wrap64(result + fieldValue);
          SumStep(ns, fieldValue, result, total);
          result := total;
          assert result == WrappedSum(ns + [fieldValue]);
        case LongAverage =>
          var total := Wrap64(result + fieldValue);
          SumStep(ns, fieldValue, result, total);
          result := total;
          count := count + 1;
          assert result == WrappedSum(ns + [fieldValue]);
      }
    }

    /** `getResult(int counted)`; the argument is ignored by every
        implementation. */
    method GetResult(counted: int) returns (r: AggregateResult)
      requires Valid()
      ensures r == ResultOf(kind, consumed)
    {
      match kind {
        case Unique => r := IntResult(|uniques|);
        case Counting => r := IntResult(count);
        case LongAverage =>
          if count == 0 {
            r := ZeroDouble;
          } else {
            r := LongResult(JavaDiv(result, count));
          }
        case _ => r := LongResult(result);
      }
    }
  }
}
