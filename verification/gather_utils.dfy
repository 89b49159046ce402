/**
 * The matching primitives: single-element membership over primitive arrays,
 * object arrays and collections, the ALL/ANY containment folds, the
 * wildcard matcher, number recognition and the numeric comparison.
 */
module GatherUtils {
  import opened JavaValues

  // =====================================================================
  // Single-element membership
  // =====================================================================

  /** A `boolean[]` holds the probe: the probe is a Boolean equal to an element. */
  predicate BoolIn(arr: seq<bool>, probe: Value)
  {
    probe.Bool? && probe.b in arr
  }

  /** A `char[]` holds the probe: the probe is a Character equal to an element. */
  predicate CharIn(arr: seq<char>, probe: Value)
  {
    probe.Char? && probe.c in arr
  }

  /** A `byte[]`/`short[]`/`int[]`/`long[]` holds the probe: the probe is a
      Number whose value narrowed to the element width equals an element. */
  predicate IntIn(arr: seq<int>, w: Width, probe: Value)
  {
    IsNumber(probe) && NarrowTo(w, probe) in arr
  }

  /** An `Object[]` holds the probe: some non-null element equals it. */
  predicate ObjectIn(arr: seq<Value>, probe: Value)
  {
    exists k :: 0 <= k < |arr| && !arr[k].Null? && Equals(arr[k], probe)
  }

  /** `contains(boolean[] arr, Object value)`; `None` is a null arr. */
  method ContainsBools(arr: Option<seq<bool>>, value: Value) returns (r: bool)
    ensures r <==> arr.Some? && BoolIn(arr.value, value)
  {
    if arr.None? {
      return false;
    }
    if value.Null? {
      return false;
    }
    if value.Bool? {
      var val := value.b;
      var items := arr.value;
      var i := 0;
      while i < |items|
        invariant 0 <= i <= |items|
        invariant val !in items[..i]
      {
        if items[i] == val {
          return true;
        }
        i := i + 1;
      }
      assert items[..i] == items;
    }
    return false;
  }

  /** `contains(char[] arr, Object value)`; `None` is a null arr. */
  method ContainsChars(arr: Option<seq<char>>, value: Value) returns (r: bool)
    ensures r <==> arr.Some? && CharIn(arr.value, value)
  {
    if arr.None? {
      return false;
    }
    if value.Null? {
      return false;
    }
    if value.Char? {
      var val := value.c;
      var items := arr.value;
      var i := 0;
      while i < |items|
        invariant 0 <= i <= |items|
        invariant val !in items[..i]
      {
        if items[i] == val {
          return true;
        }
        i := i + 1;
      }
      assert items[..i] == items;
    }
    return false;
  }

  /** `contains(byte[]/short[]/int[]/long[] arr, Number value)`: the
      probe is narrowed to the element width once, then compared with each
      element. */
  method ContainsInts(arr: Option<seq<int>>, w: Width, value: Value) returns (r: bool)
    requires IsNumberOrNull(value)
    ensures r <==> arr.Some? && IntIn(arr.value, w, value)
  {
    if arr.None? {
      return false;
    }
    if value.Null? {
      return false;
    }
    var val := NarrowTo(w, value);
    var items := arr.value;
    var i := 0;
    while i < |items|
      invariant 0 <= i <= |items|
      invariant val !in items[..i]
    {
      if items[i] == val {
        return true;
      }
      i := i + 1;
    }
    assert items[..i] == items;
    return false;
  }

  /** `contains(byte[]/short[]/int[]/long[] arr, Object value)`: anything
      but a Number is never found. */
  method ContainsIntsOfObject(arr: Option<seq<int>>, w: Width, value: Value) returns (r: bool)
    ensures r <==> arr.Some? && IntIn(arr.value, w, value)
  {
    if value.Null? {
      return false;
    }
    if IsNumber(value) {
      r := ContainsInts(arr, w, value);
      return;
    }
    return false;
  }

  /** `contains(Object[] arr, Object valueToCheck)`: null elements are
      skipped, so a null probe is never found. */
  method ContainsObjects(arr: Option<seq<Value>>, probe: Value) returns (r: bool)
    ensures r <==> arr.Some? && ObjectIn(arr.value, probe)
    ensures probe.Null? ==> !r
  {
    if arr.None? {
      return false;
    }
    var items := arr.value;
    if |items| == 0 {
      return false;
    }
    var i := 0;
    while i < |items|
      invariant 0 <= i <= |items|
      invariant forall k :: 0 <= k < i && !items[k].Null? ==> !Equals(items[k], probe)
    {
      if !items[i].Null? && Equals(items[i], probe) {
        return true;
      }
      i := i + 1;
    }
    return false;
  }

  // =====================================================================
  // ALL / ANY containment
  // =====================================================================

  /** ALL: every required element is contained (vacuously true when there
      are none).  ANY: at least one is. */
  predicate AllOrAny(hits: seq<bool>, all: bool)
  {
    if all then forall k :: 0 <= k < |hits| ==> hits[k]
    else exists k :: 0 <= k < |hits| && hits[k]
  }

  /** One more element folded in: ALL ands it, ANY ors it. */
  lemma AllOrAnyStep(hits: seq<bool>, i: nat, all: bool)
    requires i < |hits|
    ensures AllOrAny(hits[..i + 1], all) ==
            if all then AllOrAny(hits[..i], all) && hits[i] else AllOrAny(hits[..i], all) || hits[i]
  {
    var pre := hits[..i + 1];
    assert pre[..i] == hits[..i];
    assert pre[i] == hits[i];
  }

  /** The primitive elements of a `boolean[]`, `char[]` or integral arr,
      boxed the way the enhanced for-loop hands them to `contains`. */
  function BoxBools(bs: seq<bool>): (vs: seq<Value>)
    ensures |vs| == |bs| && forall k :: 0 <= k < |bs| ==> vs[k] == Bool(bs[k])
  {
    seq(|bs|, k requires 0 <= k < |bs| => Bool(bs[k]))
  }

  function BoxChars(cs: seq<char>): (vs: seq<Value>)
    ensures |vs| == |cs| && forall k :: 0 <= k < |cs| ==> vs[k] == Char(cs[k])
  {
    seq(|cs|, k requires 0 <= k < |cs| => Char(cs[k]))
  }

  function WidthKind(w: Width): IntKind
  {
    match w
    case W8 => Byte
    case W16 => Short
    case W32 => Integer
    case W64 => Long
  }

  function BoxInts(w: Width, ns: seq<int>): (vs: seq<Value>)
    ensures |vs| == |ns| && forall k :: 0 <= k < |ns| ==> vs[k] == Boxed(WidthKind(w), ns[k])
  {
    seq(|ns|, k requires 0 <= k < |ns| => Boxed(WidthKind(w), ns[k]))
  }

  function BoolHits(arr: seq<bool>, req: seq<Value>): (h: seq<bool>)
    ensures |h| == |req| && forall k :: 0 <= k < |req| ==> h[k] == BoolIn(arr, req[k])
  {
    seq(|req|, k requires 0 <= k < |req| => BoolIn(arr, req[k]))
  }

  function CharHits(arr: seq<char>, req: seq<Value>): (h: seq<bool>)
    ensures |h| == |req| && forall k :: 0 <= k < |req| ==> h[k] == CharIn(arr, req[k])
  {
    seq(|req|, k requires 0 <= k < |req| => CharIn(arr, req[k]))
  }

  function IntHits(arr: seq<int>, w: Width, req: seq<Value>): (h: seq<bool>)
    ensures |h| == |req| && forall k :: 0 <= k < |req| ==> h[k] == IntIn(arr, w, req[k])
  {
    seq(|req|, k requires 0 <= k < |req| => IntIn(arr, w, req[k]))
  }

  function ObjectHits(arr: seq<Value>, req: seq<Value>): (h: seq<bool>)
    ensures |h| == |req| && forall k :: 0 <= k < |req| ==> h[k] == ObjectIn(arr, req[k])
  {
    seq(|req|, k requires 0 <= k < |req| => ObjectIn(arr, req[k]))
  }

  function CollectionHits(collection: seq<Value>, req: seq<Value>): (h: seq<bool>)
    ensures |h| == |req| && forall k :: 0 <= k < |req| ==> h[k] == CollectionContains(collection, req[k])
  {
    seq(|req|, k requires 0 <= k < |req| => CollectionContains(collection, req[k]))
  }

  predicate HasNull(vs: seq<Value>)
  {
    exists k :: 0 <= k < |vs| && vs[k].Null?
  }

  /** `containsAllOrAny(boolean[] arr, Object value, boolean usingAllClause)`.
      Accepted required values: `boolean[]`, `Boolean[]` (each element is
      unboxed, so a null element throws) and a Collection (non-Boolean
      elements count as not contained). */
  function BoolsAllOrAny(arr: seq<bool>, value: Value, all: bool): Outcome<bool>
  {
    if |arr| == 0 || value.Null? then Ok(false)
    else match value
      case BoolArray(_, req) => Ok(AllOrAny(BoolHits(arr, BoxBools(req)), all))
      case RefArray(_, Booleans, req) =>
        if HasNull(req) then Thrown(NullPointer) else Ok(AllOrAny(BoolHits(arr, req), all))
      case List(req) => Ok(AllOrAny(BoolHits(arr, req), all))
      case _ => Ok(false)
  }

  /** `containsAllOrAny(char[] ...)`: required `char[]`, `Character[]` or a
      Collection. */
  function CharsAllOrAny(arr: seq<char>, value: Value, all: bool): bool
  {
    if |arr| == 0 || value.Null? then false
    else match value
      case CharArray(_, req) => AllOrAny(CharHits(arr, BoxChars(req)), all)
      case RefArray(_, Characters, req) => AllOrAny(CharHits(arr, req), all)
      case List(req) => AllOrAny(CharHits(arr, req), all)
      case _ => false
  }

  /** `containsAllOrAny(byte[]/short[]/int[]/long[] ...)`: required arr of
      the same primitive type, a `Number[]` or a Collection. */
  function IntsAllOrAny(arr: seq<int>, w: Width, value: Value, all: bool): bool
  {
    if |arr| == 0 || value.Null? then false
    else match value
      case IntArray(_, w', req) =>
        if w' == w then AllOrAny(IntHits(arr, w, BoxInts(w, req)), all) else false
      case RefArray(_, Numbers, req) => AllOrAny(IntHits(arr, w, req), all)
      case List(req) => AllOrAny(IntHits(arr, w, req), all)
      case _ => false
  }

  /** `containsAllOrAny(Object[] ...)`: required `Object[]` (of any element
      type) or a Collection. */
  function ObjectsAllOrAny(arr: seq<Value>, value: Value, all: bool): bool
  {
    if |arr| == 0 || value.Null? then false
    else match value
      case RefArray(_, _, req) => AllOrAny(ObjectHits(arr, req), all)
      case List(req) => AllOrAny(ObjectHits(arr, req), all)
      case _ => false
  }

  /** `containsAllOrAny(Collection<?> ...)`: required `Object[]` or a
      Collection, membership by `Collection.contains`. */
  function CollectionAllOrAny(collection: seq<Value>, value: Value, all: bool): bool
  {
    if |collection| == 0 || value.Null? then false
    else match value
      case RefArray(_, _, req) => AllOrAny(CollectionHits(collection, req), all)
      case List(req) => AllOrAny(CollectionHits(collection, req), all)
      case _ => false
  }

  method ContainsAllOrAnyBools(arr: Option<seq<bool>>, value: Value, all: bool) returns (r: Outcome<bool>)
    ensures r == if arr.None? then Ok(false) else BoolsAllOrAny(arr.value, value, all)
  {
    if arr.None? || |arr.value| == 0 || value.Null? {
      return Ok(false);
    }
    var req: seq<Value>;
    var unboxing := false;
    match value {
      case BoolArray(_, bs) => req := BoxBools(bs);
      case RefArray(_, kind, vs) =>
        if kind != Booleans {
          return Ok(false);
        }
        req, unboxing := vs, true;
      case List(vs) => req := vs;
      case _ => return Ok(false);
    }
    ghost var hits := BoolHits(arr.value, req);
    var result := all;
    var i := 0;
    while i < |req|
      invariant 0 <= i <= |req|
      invariant result == AllOrAny(hits[..i], all)
      invariant unboxing ==> forall k :: 0 <= k < i ==> !req[k].Null?
    {
      var item := req[i];
      if unboxing && item.Null? {
        return Thrown(NullPointer);
      }
      var itemResult := ContainsBools(arr, item);
      AllOrAnyStep(hits, i, all);
      if all {
        result := result && itemResult;
      } else {
        result := result || itemResult;
      }
      i := i + 1;
    }
    assert hits[..i] == hits;
    return Ok(result);
  }

  method ContainsAllOrAnyChars(arr: Option<seq<char>>, value: Value, all: bool) returns (r: bool)
    ensures r == (arr.Some? && CharsAllOrAny(arr.value, value, all))
  {
    if arr.None? || |arr.value| == 0 || value.Null? {
      return false;
    }
    var req: seq<Value>;
    match value {
      case CharArray(_, cs) => req := BoxChars(cs);
      case RefArray(_, kind, vs) =>
        if kind != Characters {
          return false;
        }
        req := vs;
      case List(vs) => req := vs;
      case _ => return false;
    }
    ghost var hits := CharHits(arr.value, req);
    var result := all;
    var i := 0;
    while i < |req|
      invariant 0 <= i <= |req|
      invariant result == AllOrAny(hits[..i], all)
    {
      var itemResult := ContainsChars(arr, req[i]);
      AllOrAnyStep(hits, i, all);
      if all {
        result := result && itemResult;
      } else {
        result := result || itemResult;
      }
      i := i + 1;
    }
    assert hits[..i] == hits;
    return result;
  }

  method ContainsAllOrAnyInts(arr: Option<seq<int>>, w: Width, value: Value, all: bool) returns (r: bool)
    ensures r == (arr.Some? && IntsAllOrAny(arr.value, w, value, all))
  {
    if arr.None? || |arr.value| == 0 || value.Null? {
      return false;
    }
    var req: seq<Value>;
    match value {
      case IntArray(_, w', ns) =>
        if w' != w {
          return false;
        }
        req := BoxInts(w, ns);
      case RefArray(_, kind, vs) =>
        if kind != Numbers {
          return false;
        }
        req := vs;
      case List(vs) => req := vs;
      case _ => return false;
    }
    ghost var hits := IntHits(arr.value, w, req);
    var result := all;
    var i := 0;
    while i < |req|
      invariant 0 <= i <= |req|
      invariant result == AllOrAny(hits[..i], all)
    {
      var itemResult := ContainsIntsOfObject(arr, w, req[i]);
      AllOrAnyStep(hits, i, all);
      if all {
        result := result && itemResult;
      } else {
        result := result || itemResult;
      }
      i := i + 1;
    }
    assert hits[..i] == hits;
    return result;
  }

  method ContainsAllOrAnyObjects(arr: Option<seq<Value>>, value: Value, all: bool) returns (r: bool)
    ensures r == (arr.Some? && ObjectsAllOrAny(arr.value, value, all))
  {
    if arr.None? || |arr.value| == 0 || value.Null? {
      return false;
    }
    var req: seq<Value>;
    match value {
      case RefArray(_, _, vs) => req := vs;
      case List(vs) => req := vs;
      case _ => return false;
    }
    ghost var hits := ObjectHits(arr.value, req);
    var result := all;
    var i := 0;
    while i < |req|
      invariant 0 <= i <= |req|
      invariant result == AllOrAny(hits[..i], all)
    {
      var itemResult := ContainsObjects(arr, req[i]);
      AllOrAnyStep(hits, i, all);
      if all {
        result := result && itemResult;
      } else {
        result := result || itemResult;
      }
      i := i + 1;
    }
    assert hits[..i] == hits;
    return result;
  }

  method ContainsAllOrAnyCollection(collection: Option<seq<Value>>, value: Value, all: bool) returns (r: bool)
    ensures r == (collection.Some? && CollectionAllOrAny(collection.value, value, all))
  {
    if collection.None? || |collection.value| == 0 || value.Null? {
      return false;
    }
    var req: seq<Value>;
    match value {
      case RefArray(_, _, vs) => req := vs;
      case List(vs) => req := vs;
      case _ => return false;
    }
    ghost var hits := CollectionHits(collection.value, req);
    var result := all;
    var i := 0;
    while i < |req|
      invariant 0 <= i <= |req|
      invariant result == AllOrAny(hits[..i], all)
    {
      var itemResult := CollectionContains(collection.value, req[i]);
      AllOrAnyStep(hits, i, all);
      if all {
        result := result && itemResult;
      } else {
        result := result || itemResult;
      }
      i := i + 1;
    }
    assert hits[..i] == hits;
    return result;
  }

  // =====================================================================
  // Numbers
  // =====================================================================

  /** `isNumberType`: the value's exact class is one of Integer, Long, Byte,
      Short, AtomicLong, AtomicInteger (Float and Double are outside the
      value model), so BigDecimal and null are not number types. */
  predicate IsNumberType(v: Value)
    ensures IsNumberType(v) ==> IsNumber(v)
    ensures v.Null? || v.Decimal? ==> !IsNumberType(v)
  {
    v.Boxed? || v.Atomic?
  }

  /** `asNumber`: null for anything that is not a number type; atomic
      counters are unwrapped to their current value as Long or Integer. */
  function AsNumber(v: Value): (r: Option<Value>)
    ensures r.Some? <==> IsNumberType(v)
    ensures r.Some? ==> r.value.Boxed? && r.value.n == IntegralPart(v)
    ensures v.Boxed? ==> r == Some(v)
    ensures v.Atomic? ==> r.Some? && r.value.kind == (if v.isLong then Long else Integer)
  {
    match v
    case Boxed(_, _) => Some(v)
    case Atomic(isLong, _, n) => Some(Boxed(if isLong then Long else Integer, n))
    case _ => None
  }

  /** The comparison domain `compareNumbers` picks from the field's kind:
      the field's own value, and the literal converted into that domain. */
  function FieldInDomain(field: Value): real
    requires IsNumber(field)
  {
    match field
    case Boxed(k, _) => NarrowTo(KindWidth(k), field) as real
    case Atomic(isLong, _, _) => NarrowTo(if isLong then W64 else W32, field) as real
    case Decimal(d) => d
  }

  function LiteralInDomain(field: Value, literal: Value): real
    requires IsNumber(field) && IsNumber(literal)
  {
    match field
    case Boxed(k, _) => NarrowTo(KindWidth(k), literal) as real
    case Atomic(isLong, _, _) => NarrowTo(if isLong then W64 else W32, literal) as real
    case Decimal(_) =>
      match literal
      case Decimal(d) => d
      case Boxed(k, _) => NarrowTo(KindWidth(k), literal) as real
      case Atomic(isLong, _, _) => NarrowTo(if isLong then W64 else W32, literal) as real
  }

  function RealSign(x: real): int { if x < 0.0 then -1 else if x == 0.0 then 0 else 1 }

  /** `compareNumbers(Number fieldValue, Number requiredValue)`.  Byte and
      Short compare by difference, the other kinds by -1/0/1; a null on
      either side throws.  Every Number kind of the value model is handled,
      so the "cannot compare" exception is not reachable here. */
  function CompareNumbers(field: Value, literal: Value): (r: Outcome<int>)
    requires IsNumberOrNull(field) && IsNumberOrNull(literal)
    ensures r.Thrown? <==> field.Null? || literal.Null?
    ensures r.Thrown? ==> r.ex == NullPointer
    ensures r.Ok? ==> Sign(r.value) == RealSign(FieldInDomain(field) - LiteralInDomain(field, literal))
  {
    if field.Null? || literal.Null? then Thrown(NullPointer)
    else match field
      case Boxed(Byte, _) => Ok(NarrowTo(W8, field) - NarrowTo(W8, literal))
      case Boxed(Short, _) => Ok(NarrowTo(W16, field) - NarrowTo(W16, literal))
      case Boxed(Integer, _) => Ok(Sign(NarrowTo(W32, field) - NarrowTo(W32, literal)))
      case Boxed(Long, _) => Ok(Sign(NarrowTo(W64, field) - NarrowTo(W64, literal)))
      case Atomic(false, _, _) => Ok(Sign(NarrowTo(W32, field) - NarrowTo(W32, literal)))
      case Atomic(true, _, _) => Ok(Sign(NarrowTo(W64, field) - NarrowTo(W64, literal)))
      case Decimal(d) => Ok(RealSign(d - LiteralInDomain(field, literal)))
  }

  /** Two numbers of the same kind compare in opposite directions when swapped. */
  lemma CompareNumbersAntisymmetric(a: Value, b: Value)
    requires IsNumber(a) && IsNumber(b)
    requires a.Boxed? && b.Boxed? && a.kind == b.kind
    ensures CompareNumbers(a, b).Ok? && CompareNumbers(b, a).Ok?
    ensures Sign(CompareNumbers(a, b).value) == -Sign(CompareNumbers(b, a).value)
  {
  }

  // =====================================================================
  // Wildcard matching
  // =====================================================================

  /** Glob semantics: `?` matches exactly one character, `*` any run of
      characters (possibly empty), every other pattern character itself. */
  predicate Glob(s: string, p: string)
    decreases |s| + |p|
  {
    if p == [] then s == []
    else if p[0] == '*' then Glob(s, p[1..]) || (s != [] && Glob(s[1..], p))
    else s != [] && (p[0] == '?' || p[0] == s[0]) && Glob(s[1..], p[1..])
  }

  predicate StarFree(p: string)
  {
    forall k :: 0 <= k < |p| ==> p[k] != '*'
  }

  /** A star-free pattern piece matches text of its own length position by position. */
  predicate LitMatch(t: string, lit: string)
  {
    |t| == |lit| && forall k :: 0 <= k < |lit| ==> lit[k] == '?' || lit[k] == t[k]
  }

  /** The empty text matches exactly the patterns made of stars only. */
  lemma {:induction false} GlobEmptyText(p: string)
    ensures Glob([], p) <==> forall k :: 0 <= k < |p| ==> p[k] == '*'
    decreases |p|
  {
    if p != [] {
      GlobEmptyText(p[1..]);
      assert forall k :: 1 <= k < |p| ==> p[k] == p[1..][k - 1];
    }
  }

  /** A leading star consumes any prefix of the text. */
  lemma {:induction false} GlobStar(s: string, q: string)
    ensures Glob(s, ['*'] + q) <==> exists k :: 0 <= k <= |s| && Glob(s[k..], q)
    decreases |s|
  {
    var sp := ['*'] + q;
    assert sp[0] == '*' && sp[1..] == q;
    if s == [] {
      assert s[0..] == s;
    } else {
      GlobStar(s[1..], q);
      if Glob(s, sp) {
        if Glob(s, q) {
          assert s[0..] == s;
        } else {
          var k :| 0 <= k <= |s| - 1 && Glob(s[1..][k..], q);
          assert s[1..][k..] == s[k + 1..];
        }
      }
      if exists k :: 0 <= k <= |s| && Glob(s[k..], q) {
        var k :| 0 <= k <= |s| && Glob(s[k..], q);
        if k == 0 {
          assert s[0..] == s;
        } else {
          assert s[1..][k - 1..] == s[k..];
        }
      }
    }
  }

  /** A star-free pattern prefix matches a text prefix of its own length. */
  lemma {:induction false} GlobLitPrefix(t: string, lit: string, r: string)
    requires StarFree(lit)
    ensures Glob(t, lit + r) <==>
            |lit| <= |t| && LitMatch(t[..|lit|], lit) && Glob(t[|lit|..], r)
    decreases |lit|
  {
    if lit == [] {
      assert lit + r == r;
      assert t[0..] == t;
    } else {
      var lr := lit + r;
      assert lr[0] == lit[0] && lr[1..] == lit[1..] + r;
      assert StarFree(lit[1..]) by {
        forall k | 0 <= k < |lit[1..]| ensures lit[1..][k] != '*' {
          assert lit[1..][k] == lit[k + 1];
        }
      }
      if t != [] {
        GlobLitPrefix(t[1..], lit[1..], r);
        if |lit| <= |t| {
          assert t[1..][|lit| - 1..] == t[|lit|..];
          var a, b := t[..|lit|], t[1..][..|lit| - 1];
          assert b == a[1..];
          assert LitMatch(a, lit) <==> (lit[0] == '?' || lit[0] == t[0]) && LitMatch(b, lit[1..]) by {
            if LitMatch(a, lit) {
              forall k | 0 <= k < |lit[1..]| ensures lit[1..][k] == '?' || lit[1..][k] == b[k] {
                assert lit[1..][k] == lit[k + 1] && b[k] == a[k + 1];
              }
            }
            if (lit[0] == '?' || lit[0] == t[0]) && LitMatch(b, lit[1..]) {
              forall k | 0 <= k < |lit| ensures lit[k] == '?' || lit[k] == a[k] {
                if k > 0 {
                  assert lit[1..][k - 1] == lit[k] && b[k - 1] == a[k];
                }
              }
            }
          }
        }
      }
    }
  }

  /** A star can absorb extra leading text. */
  lemma StarAbsorbs(v: string, r: string, m: nat)
    requires r != [] && r[0] == '*' && m <= |v|
    requires Glob(v[m..], r)
    ensures Glob(v, r)
  {
    assert r == ['*'] + r[1..];
    GlobStar(v[m..], r[1..]);
    var k :| 0 <= k <= |v[m..]| && Glob(v[m..][k..], r[1..]);
    assert v[m..][k..] == v[m + k..];
    GlobStar(v, r[1..]);
  }

  /** Restarting the bookmark at a later star loses nothing: once the
      literal piece after the earlier star has matched, the later star
      covers every alignment the earlier one could still try. */
  lemma BookmarkRestart(u: string, lit: string, r: string)
    requires StarFree(lit) && |lit| <= |u| && LitMatch(u[..|lit|], lit)
    requires r != [] && r[0] == '*'
    ensures Glob(u, ['*'] + (lit + r)) <==> Glob(u[|lit|..], r)
  {
    GlobStar(u, lit + r);
    if Glob(u[|lit|..], r) {
      assert u[0..] == u;
      GlobLitPrefix(u, lit, r);
    }
    if Glob(u, ['*'] + (lit + r)) {
      var k :| 0 <= k <= |u| && Glob(u[k..], lit + r);
      GlobLitPrefix(u[k..], lit, r);
      assert u[k..][|lit|..] == u[|lit|..][k..];
      StarAbsorbs(u[|lit|..], r, k);
    }
  }

  /** When the text after the matched literal piece fails, the bookmarked
      star must take one more character. */
  lemma Backtrack(u: string, lit: string, r: string)
    requires StarFree(lit) && |lit| < |u| && LitMatch(u[..|lit|], lit)
    requires !Glob(u[|lit|..], r)
    ensures Glob(u, ['*'] + (lit + r)) <==> Glob(u[1..], ['*'] + (lit + r))
  {
    var sp := ['*'] + (lit + r);
    assert sp[0] == '*' && sp[1..] == lit + r;
    GlobLitPrefix(u, lit, r);
  }

  /** At the end of the text a bookmarked star can only have stood for the
      text it already skipped. */
  lemma EndOfText(u: string, lit: string, r: string)
    requires StarFree(lit) && LitMatch(u, lit)
    ensures Glob(u, ['*'] + (lit + r)) <==> Glob([], r)
  {
    GlobStar(u, lit + r);
    assert u[..|lit|] == u && u[|lit|..] == [];
    GlobLitPrefix(u, lit, r);
    if Glob(u, ['*'] + (lit + r)) {
      var k :| 0 <= k <= |u| && Glob(u[k..], lit + r);
      GlobLitPrefix(u[k..], lit, r);
      assert k == 0;
    } else {
      assert u[0..] == u;
    }
  }

  /** The state of the single-bookmark scan: `i` and `j` index text and
      pattern, `star` is the last star seen (or -1) and `mark` the text
      position it was last tried from. */
  predicate ScanBounds(s: string, p: string, i: int, j: int, star: int, mark: int)
  {
    0 <= i <= |s| && 0 <= j <= |p| && -1 <= star < j &&
    (star == -1 ==> mark == -1) && (star >= 0 ==> 0 <= mark <= i)
  }

  /** What the scan state means: without a bookmark the rest of the text
      must match the rest of the pattern; with one, the pattern from the
      bookmarked star on must match the text from the mark on, and the
      star-free piece since the star has matched the text since the mark. */
  ghost predicate ScanInv(s: string, p: string, i: int, j: int, star: int, mark: int)
  {
    ScanBounds(s, p, i, j, star, mark) &&
    (star == -1 ==> (Glob(s, p) <==> Glob(s[i..], p[j..]))) &&
    (star >= 0 ==>
      p[star] == '*' && i - mark == j - star - 1 &&
      StarFree(p[star + 1..j]) && LitMatch(s[mark..i], p[star + 1..j]) &&
      (Glob(s, p) <==> Glob(s[mark..], p[star..])))
  }

  lemma SplitAtStar(p: string, star: nat, j: nat)
    requires star < j <= |p| && p[star] == '*'
    ensures p[star..] == ['*'] + (p[star + 1..j] + p[j..])
  {
  }

  /** Neither a literal step nor a star applies at (i, j): the rest of the
      text cannot match the rest of the pattern. */
  lemma NoStep(s: string, p: string, i: nat, j: nat)
    requires i < |s| && j <= |p|
    requires !(j < |p| && p[j] != '*' && (p[j] == '?' || p[j] == s[i]))
    requires !(j < |p| && p[j] == '*')
    ensures !Glob(s[i..], p[j..])
  {
  }

  lemma InvLiteral(s: string, p: string, i: int, j: int, star: int, mark: int)
    requires ScanInv(s, p, i, j, star, mark) && i < |s| && j < |p|
    requires p[j] != '*' && (p[j] == '?' || p[j] == s[i])
    ensures ScanInv(s, p, i + 1, j + 1, star, mark)
  {
    if star == -1 {
      assert s[i..][1..] == s[i + 1..] && p[j..][1..] == p[j + 1..];
    } else {
      var t, lit := s[mark..i], p[star + 1..j];
      assert s[mark..i + 1] == t + [s[i]] && p[star + 1..j + 1] == lit + [p[j]];
    }
  }

  lemma InvStar(s: string, p: string, i: int, j: int, star: int, mark: int)
    requires ScanInv(s, p, i, j, star, mark) && j < |p| && p[j] == '*'
    ensures ScanInv(s, p, i, j + 1, j, i)
  {
    if star >= 0 {
      StarRestart(s, p, i, j, star, mark);
    }
    assert Glob(s, p) <==> Glob(s[i..], p[j..]);
    assert StarFree(p[j + 1..j + 1]) && LitMatch(s[i..i], p[j + 1..j + 1]);
  }

  /** Meeting a later star with a bookmark set: the text from here must
      match the pattern from the new star. */
  lemma StarRestart(s: string, p: string, i: int, j: int, star: int, mark: int)
    requires ScanInv(s, p, i, j, star, mark) && j < |p| && p[j] == '*' && star >= 0
    ensures Glob(s, p) <==> Glob(s[i..], p[j..])
  {
    SplitAtStar(p, star, j);
    BookmarkRestart(s[mark..], p[star + 1..j], p[j..]);
    assert s[mark..][j - star - 1..] == s[i..];
    assert s[mark..][..j - star - 1] == s[mark..i];
  }

  lemma InvBacktrack(s: string, p: string, i: int, j: int, star: int, mark: int)
    requires ScanInv(s, p, i, j, star, mark) && i < |s| && star != -1
    requires !(j < |p| && p[j] != '*' && (p[j] == '?' || p[j] == s[i]))
    requires !(j < |p| && p[j] == '*')
    ensures ScanInv(s, p, mark + 1, star + 1, star, mark + 1)
  {
    NoStep(s, p, i, j);
    SplitAtStar(p, star, j);
    assert s[mark..][j - star - 1..] == s[i..];
    assert s[mark..][..j - star - 1] == s[mark..i];
    Backtrack(s[mark..], p[star + 1..j], p[j..]);
    assert s[mark..][1..] == s[mark + 1..];
  }

  lemma InvFail(s: string, p: string, i: int, j: int, star: int, mark: int)
    requires ScanInv(s, p, i, j, star, mark) && i < |s| && star == -1
    requires !(j < |p| && p[j] != '*' && (p[j] == '?' || p[j] == s[i]))
    requires !(j < |p| && p[j] == '*')
    ensures !Glob(s, p)
  {
    NoStep(s, p, i, j);
  }

  lemma InvEnd(s: string, p: string, i: int, j: int, star: int, mark: int)
    requires ScanInv(s, p, i, j, star, mark) && i == |s|
    ensures Glob(s, p) <==> Glob([], p[j..])
  {
    if star >= 0 {
      SplitAtStar(p, star, j);
      EndOfText(s[mark..], p[star + 1..j], p[j..]);
    }
  }

  /** `wildcardMatch(String string, String pattern)` with the literal step
      restricted to non-star pattern characters, so that a `*` in the
      pattern always acts as a wildcard. */
  method WildcardMatch(s: string, p: string) returns (r: bool)
    ensures r == Glob(s, p)
  {
    var i, j := 0, 0;
    var star, mark := -1, -1;
    while i < |s|
      invariant ScanInv(s, p, i, j, star, mark)
      decreases |s| - mark, |s| - i, |p| - j
    {
      if j < |p| && p[j] != '*' && (p[j] == '?' || p[j] == s[i]) {
        InvLiteral(s, p, i, j, star, mark);
        i, j := i + 1, j + 1;
      } else if j < |p| && p[j] == '*' {
        InvStar(s, p, i, j, star, mark);
        star, mark := j, i;
        j := j + 1;
      } else if star != -1 {
        InvBacktrack(s, p, i, j, star, mark);
        j := star + 1;
        mark := mark + 1;
        i := mark;
      } else {
        InvFail(s, p, i, j, star, mark);
        return false;
      }
    }
    InvEnd(s, p, i, j, star, mark);
    while j < |p| && p[j] == '*'
      invariant 0 <= j <= |p|
      invariant Glob(s, p) <==> Glob([], p[j..])
    {
      assert p[j..][1..] == p[j + 1..];
      j := j + 1;
    }
    return j == |p|;
  }

  /** The trailing loop of `wildcardMatch`: skip stars, then succeed
      exactly at the end of the pattern. */
  function TrailingStars(p: string, j: nat): (r: bool)
    requires j <= |p|
    ensures r == Glob([], p[j..])
    decreases |p| - j
  {
    assert j < |p| ==> p[j..][1..] == p[j + 1..];
    if j < |p| && p[j] == '*' then TrailingStars(p, j + 1) else j == |p|
  }

  /** `wildcardMatch` as written: the literal step is taken whenever the
      pattern character is `?` or equals the text character, even when
      that pattern character is a `*`. */
  function Scan(s: string, p: string, i: int, j: int, star: int, mark: int): bool
    requires ScanBounds(s, p, i, j, star, mark)
    decreases |s| - mark, |s| - i, |p| - j
  {
    if i < |s| then
      if j < |p| && (p[j] == '?' || p[j] == s[i]) then Scan(s, p, i + 1, j + 1, star, mark)
      else if j < |p| && p[j] == '*' then Scan(s, p, i, j + 1, j, i)
      else if star != -1 then Scan(s, p, mark + 1, star + 1, star, mark + 1)
      else false
    else TrailingStars(p, j)
  }

  /** With a pattern free of wildcards the loop as written only takes
      literal steps, so it compares the texts character by character. */
  function WildcardMatchAsWritten(s: string, p: string): (r: bool)
    ensures (forall k :: 0 <= k < |p| ==> p[k] != '*' && p[k] != '?') ==> (r <==> s == p)
  {
    ScanLiteral(s, p, 0);
    assert s[0..] == s && p[0..] == p;
    Scan(s, p, 0, 0, -1, -1)
  }

  lemma {:induction false} ScanLiteral(s: string, p: string, i: nat)
    requires i <= |s| && i <= |p|
    ensures (forall k :: 0 <= k < |p| ==> p[k] != '*' && p[k] != '?') ==>
      (Scan(s, p, i, i, -1, -1) <==> s[i..] == p[i..])
    decreases |s| - i
  {
    if forall k :: 0 <= k < |p| ==> p[k] != '*' && p[k] != '?' {
      if i < |s| && i < |p| && p[i] == s[i] {
        ScanLiteral(s, p, i + 1);
        assert s[i..] == [s[i]] + s[i + 1..] && p[i..] == [p[i]] + p[i + 1..];
      } else if i < |s| {
        assert s[i..][0] == s[i];
        if i < |p| {
          assert p[i..][0] == p[i];
        }
      } else if i < |p| {
        assert p[i..][0] == p[i];
      }
    }
  }

  /** On text without a `*` the code as written computes glob matching. */
  lemma {:induction false} ScanAgrees(s: string, p: string, i: int, j: int, star: int, mark: int)
    requires forall k :: 0 <= k < |s| ==> s[k] != '*'
    requires ScanInv(s, p, i, j, star, mark)
    ensures Scan(s, p, i, j, star, mark) == Glob(s, p)
    decreases |s| - mark, |s| - i, |p| - j
  {
    if i < |s| {
      if j < |p| && (p[j] == '?' || p[j] == s[i]) {
        InvLiteral(s, p, i, j, star, mark);
        ScanAgrees(s, p, i + 1, j + 1, star, mark);
      } else if j < |p| && p[j] == '*' {
        InvStar(s, p, i, j, star, mark);
        ScanAgrees(s, p, i, j + 1, j, i);
      } else if star != -1 {
        InvBacktrack(s, p, i, j, star, mark);
        ScanAgrees(s, p, mark + 1, star + 1, star, mark + 1);
      } else {
        InvFail(s, p, i, j, star, mark);
      }
    } else {
      InvEnd(s, p, i, j, star, mark);
    }
  }

  lemma AsWrittenAgreesWithoutStarsInText(s: string, p: string)
    ensures (forall k :: 0 <= k < |s| ==> s[k] != '*') ==> WildcardMatchAsWritten(s, p) == Glob(s, p)
  {
    if forall k :: 0 <= k < |s| ==> s[k] != '*' {
      assert s[0..] == s && p[0..] == p;
      ScanAgrees(s, p, 0, 0, -1, -1);
    }
  }

  /** A `*` in the text is consumed literally by a `*` in the pattern, after
      which no bookmark exists: "*ba" is rejected by "*a" although the
      pattern's star can stand for "*b". */
  lemma AsWrittenRejectsStarInText()
    ensures !WildcardMatchAsWritten("*ba", "*a")
    ensures Glob("*ba", "*a")
  {
    assert Glob("a", "a");
    assert Glob("ba", "*a");
  }

  /** Examples the matcher is expected to honour, on both definitions. */
  lemma StarExample()
    ensures WildcardMatchAsWritten("abc.wav", "*") && Glob("abc.wav", "*")
  {
    AsWrittenAgreesWithoutStarsInText("abc.wav", "*");
  }

  lemma SuffixExample()
    ensures WildcardMatchAsWritten("abc.wav", "*.w?v") && Glob("abc.wav", "*.w?v")
  {
    AsWrittenAgreesWithoutStarsInText("abc.wav", "*.w?v");
  }

  lemma InnerExample()
    ensures WildcardMatchAsWritten("abc.wav", "*b?.wav") && Glob("abc.wav", "*b?.wav")
  {
    AsWrittenAgreesWithoutStarsInText("abc.wav", "*b?.wav");
  }

  lemma QuestionsExample()
    ensures WildcardMatchAsWritten("abc.wav", "???.???") && Glob("abc.wav", "???.???")
  {
    AsWrittenAgreesWithoutStarsInText("abc.wav", "???.???");
  }

  lemma WrongSuffixExample()
    ensures !WildcardMatchAsWritten("abc.wav", "*.html") && !Glob("abc.wav", "*.html")
  {
    AsWrittenAgreesWithoutStarsInText("abc.wav", "*.html");
  }

  lemma TooShortExample()
    ensures !WildcardMatchAsWritten("abc.wav", "??.wav") && !Glob("abc.wav", "??.wav")
  {
    AsWrittenAgreesWithoutStarsInText("abc.wav", "??.wav");
  }

  lemma WrongLastExample()
    ensures !WildcardMatchAsWritten("abc.wav", "abc.wi?") && !Glob("abc.wav", "abc.wi?")
  {
    AsWrittenAgreesWithoutStarsInText("abc.wav", "abc.wi?");
  }

  /** A lone `*` matches every text. */
  lemma {:induction false} StarMatchesAll(s: string)
    ensures Glob(s, "*")
    decreases |s|
  {
    if s != [] {
      StarMatchesAll(s[1..]);
    }
  }

  /** A pattern without wildcards matches exactly itself. */
  lemma NoWildcardsMeansEquality(s: string, p: string)
    requires forall k :: 0 <= k < |p| ==> p[k] != '*' && p[k] != '?'
    ensures Glob(s, p) <==> s == p
  {
    GlobLitPrefix(s, p, []);
    assert p + [] == p;
    if |p| <= |s| && LitMatch(s[..|p|], p) {
      assert s[..|p|] == p;
    }
    if s == p {
      assert s[..|p|] == s && s[|p|..] == [];
    }
  }

  /** `?` matches exactly the one-character texts. */
  lemma QuestionMatchesOneCharacter(s: string)
    ensures Glob(s, "?") <==> |s| == 1
  {
    if |s| == 1 {
      assert s[1..] == [];
    }
  }
}
