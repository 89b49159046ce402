/**
 * The dynamically typed values the query engine sees: field values read off
 * records and the literals a query carries.  Java's boxed numbers, strings,
 * arrays, collections and plain objects become one tagged union; reference
 * identity (arrays, plain objects, atomic counters, compiled patterns) is an
 * explicit `id`.
 */
module JavaValues {

  datatype Option<+T> = None | Some(value: T)

  /** The exceptions the modelled code can raise. */
  datatype Exception =
    | NullPointer
    | ClassCast
    | IllegalArgument
    | IllegalState
    | Runtime

  /** A Java call that either returns a value or throws. */
  datatype Outcome<+T> = Ok(value: T) | Thrown(ex: Exception)

  /** A Java call returning `void` (or `this`) that may throw. */
  datatype Completion = Normal | Abrupt(ex: Exception)

  // ---------------------------------------------------------------------
  // Fixed-width two's-complement integers
  // ---------------------------------------------------------------------

  /** Element width of the integral primitive types byte, short, int, long. */
  datatype Width = W8 | W16 | W32 | W64

  /** 2 to the number of bits of the width */
  function Modulus(w: Width): int
  {
    match w
    case W8 => 0x100
    case W16 => 0x1_0000
    case W32 => 0x1_0000_0000
    case W64 => 0x1_0000_0000_0000_0000
  }

  /** Half the modulus: the magnitude of the most negative value */
  function Half(w: Width): (h: int)
    ensures h > 0 && Modulus(w) == 2 * h
  {
    match w
    case W8 => 0x80
    case W16 => 0x8000
    case W32 => 0x8000_0000
    case W64 => 0x8000_0000_0000_0000
  }

  predicate InRange(w: Width, n: int) { -Half(w) <= n < Half(w) }

  const LONG_MIN: int := -0x8000_0000_0000_0000
  const LONG_MAX: int := 0x7FFF_FFFF_FFFF_FFFF

  /** Two's-complement truncation of `n` to width `w` (a Java narrowing cast). */
  function Wrap(n: int, w: Width): (r: int)
    ensures InRange(w, r)
    ensures (r - n) % Modulus(w) == 0
    ensures InRange(w, n) ==> r == n
  {
    var m := Modulus(w);
    var h := Half(w);
    var q := (n + h) / m;
    assert n + h == q * m + (n + h) % m;
    assert InRange(w, n) ==> q == 0;
    (n + h) % m - h
  }

  /** Java `long` arithmetic: wrap to 64 bits. */
  function Wrap64(n: int): (r: int)
    ensures LONG_MIN <= r <= LONG_MAX
    ensures LONG_MIN <= n <= LONG_MAX ==> r == n
  {
    Wrap(n, W64)
  }

  /** Java's `/` on integers: the quotient truncated toward zero. */
  function JavaDiv(a: int, b: int): (q: int)
    requires b != 0
    ensures a >= 0 && b > 0 ==> q == a / b
  {
    if (a >= 0) == (b >= 0) then Abs(a) / Abs(b) else -(Abs(a) / Abs(b))
  }

  function Abs(a: int): nat { if a < 0 then -a else a }

  function Sign(a: int): int { if a < 0 then -1 else if a == 0 then 0 else 1 }

  /** The integer part of a real, truncated toward zero (`BigDecimal.toBigInteger`). */
  function TruncReal(r: real): int
  {
    if r >= 0.0 then r.Floor else -((-r).Floor)
  }

  // ---------------------------------------------------------------------
  // Classes and records (the shape the attribute resolver walks)
  // ---------------------------------------------------------------------

  /** A Java field name: non-empty, no dot, no blank characters. */
  predicate IsIdentifier(s: string)
  {
    |s| > 0 && forall k :: 0 <= k < |s| ==> s[k] != '.' && s[k] > ' '
  }

  type Identifier = s: string | IsIdentifier(s) witness "f"

  /** A class: its name, the names of its declared fields in declaration
      order, and its superclass (absent for java.lang.Object). */
  datatype Class = Class(name: string, declared: seq<Identifier>, superclass: Option<Class>)

  /** A resolved field: the class that declares it and its name. */
  datatype FieldRef = FieldRef(declarer: string, name: Identifier)

  // ---------------------------------------------------------------------
  // Values
  // ---------------------------------------------------------------------

  /** The boxed integral classes Byte, Short, Integer and Long. */
  datatype IntKind = Byte | Short | Integer | Long

  function KindWidth(k: IntKind): Width
  {
    match k
    case Byte => W8
    case Short => W16
    case Integer => W32
    case Long => W64
  }

  /** The static element type of an `Object[]`: plain Object[], Boolean[],
      Character[], or Number[] (which covers Integer[], Long[], ...). */
  datatype RefArrayKind = Objects | Booleans | Characters | Numbers

  datatype Value =
    | Null
    | Bool(b: bool)
    | Char(c: char)
    | Str(s: string)
    | Boxed(kind: IntKind, n: int)
    | Atomic(isLong: bool, id: nat, n: int)
    | Decimal(d: real)
    | Pattern(pid: nat, regex: string)
    | Record(rid: nat, cls: Class, slots: map<FieldRef, Value>)
    | BoolArray(bid: nat, bools: seq<bool>)
    | CharArray(cid: nat, chars: seq<char>)
    | IntArray(iid: nat, width: Width, ints: seq<int>)
    | RefArray(aid: nat, elemKind: RefArrayKind, elems: seq<Value>)
    | List(items: seq<Value>)

  /** `v instanceof Number` */
  predicate IsNumber(v: Value)
  {
    v.Boxed? || v.Atomic? || v.Decimal?
  }

  /** A Java reference of static type `Number`: a number or null. */
  predicate IsNumberOrNull(v: Value)
  {
    v.Null? || IsNumber(v)
  }

  /** `Number.longValue()` before the final narrowing: the exact integral part. */
  function IntegralPart(v: Value): int
    requires IsNumber(v)
  {
    match v
    case Boxed(_, n) => n
    case Atomic(_, _, n) => n
    case Decimal(d) => TruncReal(d)
  }

  /** `byteValue()`, `shortValue()`, `intValue()`, `longValue()` of a Number. */
  function NarrowTo(w: Width, v: Value): (r: int)
    requires IsNumber(v)
    ensures InRange(w, r)
  {
    Wrap(IntegralPart(v), w)
  }

  function LongValue(v: Value): (r: int)
    requires IsNumber(v)
    ensures LONG_MIN <= r <= LONG_MAX
  {
    Wrap64(IntegralPart(v))
  }

  /** `a.equals(b)` for a non-null receiver `a`.  Strings, boxed values and
      lists compare by content; arrays, records, atomic counters and compiled
      patterns do not override `equals` and compare by identity. */
  predicate Equals(a: Value, b: Value)
    decreases a, 0
  {
    match a
    case Null => false
    case Bool(x) => b == Bool(x)
    case Char(x) => b == Char(x)
    case Str(x) => b == Str(x)
    case Boxed(k, x) => b == Boxed(k, x)
    case Atomic(l, i, _) => b.Atomic? && b.isLong == l && b.id == i
    case Decimal(x) => b == Decimal(x)
    case Pattern(i, _) => b.Pattern? && b.pid == i
    case Record(i, _, _) => b.Record? && b.rid == i
    case BoolArray(i, _) => b.BoolArray? && b.bid == i
    case CharArray(i, _) => b.CharArray? && b.cid == i
    case IntArray(i, _, _) => b.IntArray? && b.iid == i
    case RefArray(i, _, _) => b.RefArray? && b.aid == i
    case List(xs) =>
      b.List? && |xs| == |b.items| &&
      forall k :: 0 <= k < |xs| ==> NullSafeEquals(xs[k], b.items[k])
  }

  /** `Objects.equals(a, b)`: what `List.equals` and `Collection.contains` use. */
  predicate NullSafeEquals(a: Value, b: Value)
    decreases a, 1
  {
    if a.Null? then b.Null? else Equals(a, b)
  }

  lemma {:induction false} EqualsReflexive(a: Value)
    requires !a.Null?
    ensures Equals(a, a)
    decreases a
  {
    if a.List? {
      forall k | 0 <= k < |a.items|
        ensures NullSafeEquals(a.items[k], a.items[k])
      {
        if !a.items[k].Null? {
          EqualsReflexive(a.items[k]);
        }
      }
    }
  }

  /** `collection.contains(x)` on a list. */
  predicate CollectionContains(items: seq<Value>, x: Value)
  {
    exists k :: 0 <= k < |items| && NullSafeEquals(x, items[k])
  }

  // ---------------------------------------------------------------------
  // Collaborators outside the model
  // ---------------------------------------------------------------------

  /** Behaviour supplied from outside: whether a regular expression
      compiles, full-string regular-expression matching, `toString()` of
      values that are not strings, characters, booleans or integral
      numbers, and per-character case-insensitive equality as
      `String.equalsIgnoreCase` applies it. */
  datatype Oracles = Oracles(
    regexCompiles: string -> bool,
    regexMatches: (string, string) -> bool,
    describe: Value -> string,
    sameIgnoringCase: (char, char) -> bool)

  function DigitsOf(n: nat): (s: string)
    ensures |s| > 0
    ensures forall k :: 0 <= k < |s| ==> '0' <= s[k] <= '9'
    decreases n
  {
    var d := [(('0' as int) + n % 10) as char];
    if n < 10 then d else DigitsOf(n / 10) + d
  }

  /** `Long.toString(n)` */
  function DecimalString(n: int): string
  {
    if n < 0 then "-" + DigitsOf(-n) else DigitsOf(n)
  }

  /** `v.toString()` for a non-null value. */
  function ToString(o: Oracles, v: Value): string
  {
    match v
    case Str(s) => s
    case Char(c) => [c]
    case Bool(b) => if b then "true" else "false"
    case Boxed(_, n) => DecimalString(n)
    case Atomic(_, _, n) => DecimalString(n)
    case _ => o.describe(v)
  }

  /** `a.equalsIgnoreCase(b)` */
  predicate EqualsIgnoreCase(o: Oracles, a: string, b: string)
  {
    |a| == |b| &&
    forall k :: 0 <= k < |a| ==> a[k] == b[k] || o.sameIgnoringCase(a[k], b[k])
  }

  // ---------------------------------------------------------------------
  // Runtime classes
  // ---------------------------------------------------------------------

  const ObjectClass: Class := Class("java.lang.Object", [], None)

  /** `v.getClass()` for a non-null value.  Library classes are modelled
      with no declared fields. */
  function ClassOf(v: Value): Class
  {
    match v
    case Record(_, c, _) => c
    case _ => Class(LibraryClassName(v), [], Some(ObjectClass))
  }

  function LibraryClassName(v: Value): string
  {
    match v
    case Null => "null"
    case Bool(_) => "java.lang.Boolean"
    case Char(_) => "java.lang.Character"
    case Str(_) => "java.lang.String"
    case Boxed(k, _) =>
      (match k
       case Byte => "java.lang.Byte"
       case Short => "java.lang.Short"
       case Integer => "java.lang.Integer"
       case Long => "java.lang.Long")
    case Atomic(l, _, _) =>
      if l then "java.util.concurrent.atomic.AtomicLong" else "java.util.concurrent.atomic.AtomicInteger"
    case Decimal(_) => "java.math.BigDecimal"
    case Pattern(_, _) => "java.util.regex.Pattern"
    case Record(_, c, _) => c.name
    case BoolArray(_, _) => "[Z"
    case CharArray(_, _) => "[C"
    case IntArray(_, w, _) =>
      (match w
       case W8 => "[B"
       case W16 => "[S"
       case W32 => "[I"
       case W64 => "[J")
    case RefArray(_, _, _) => "[Ljava.lang.Object;"
    case List(_) => "java.util.ArrayList"
  }
}
