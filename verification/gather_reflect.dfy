/**
 * Attribute resolution: the fields a class exposes (its own, then its
 * superclasses'), the per-class name-to-field cache, and dotted-path
 * resolution through nested objects.
 */
module GatherReflect {
  import opened JavaValues

  // ---------------------------------------------------------------------
  // The fields of a class
  // ---------------------------------------------------------------------

  /** `getDeclaredFields()`: the fields a class declares, in order. */
  function Declared(c: Class): (fs: seq<FieldRef>)
    ensures |fs| == |c.declared|
    ensures forall k :: 0 <= k < |fs| ==> fs[k] == FieldRef(c.name, c.declared[k])
  {
    seq(|c.declared|, k requires 0 <= k < |c.declared| => FieldRef(c.name, c.declared[k]))
  }

  /** The fields `populateAllFields` collects: the class's own declared
      fields, then its superclass's, up to the root. */
  function AllFields(c: Class): seq<FieldRef>
    decreases c
  {
    Declared(c) + match c.superclass
      case None => []
      case Some(sc) => AllFields(sc)
  }

  /** The name-to-field map built by putting the fields in order, so that a
      later field (one from a superclass) replaces an earlier one of the
      same name. */
  function FieldMap(fs: seq<FieldRef>): map<string, FieldRef>
  {
    if fs == [] then map[]
    else FieldMap(fs[..|fs| - 1])[fs[|fs| - 1].name := fs[|fs| - 1]]
  }

  /** Building the map from two runs of fields: the second run's entries win. */
  lemma {:induction false} FieldMapAppend(a: seq<FieldRef>, b: seq<FieldRef>)
    ensures FieldMap(a + b) == FieldMap(a) + FieldMap(b)
    decreases |b|
  {
    if b == [] {
      assert a + b == a;
    } else {
      var b' := b[..|b| - 1];
      assert (a + b)[..|a + b| - 1] == a + b';
      FieldMapAppend(a, b');
    }
  }

  /** A name maps to a field exactly when some field has that name, and
      then to the last such field. */
  lemma {:induction false} FieldMapLast(fs: seq<FieldRef>, name: string)
    ensures name in FieldMap(fs) <==> exists k :: 0 <= k < |fs| && fs[k].name == name
    ensures name in FieldMap(fs) ==>
      exists k :: 0 <= k < |fs| && fs[k] == FieldMap(fs)[name] && fs[k].name == name &&
        forall k' :: k < k' < |fs| ==> fs[k'].name != name
    decreases |fs|
  {
    if fs != [] {
      var last := |fs| - 1;
      var init := fs[..last];
      FieldMapLast(init, name);
      assert forall k :: 0 <= k < last ==> init[k] == fs[k];
      if name in FieldMap(init) && fs[last].name != name {
        var k :| 0 <= k < |init| && init[k] == FieldMap(init)[name] && init[k].name == name &&
          forall k' :: k < k' < |init| ==> init[k'].name != name;
        assert fs[k] == FieldMap(fs)[name];
      }
      if fs[last].name == name {
        assert fs[last] == FieldMap(fs)[name];
      }
    }
  }

  /** A field a superclass exposes hides the subclass's field of the same name. */
  lemma SuperclassFieldWins(c: Class, name: string)
    requires c.superclass.Some? && name in FieldMap(AllFields(c.superclass.value))
    ensures name in FieldMap(AllFields(c))
    ensures FieldMap(AllFields(c))[name] == FieldMap(AllFields(c.superclass.value))[name]
  {
    FieldMapAppend(Declared(c), AllFields(c.superclass.value));
  }

  /** Every field name is an identifier, so a name with a dot or a blank
      character is never in the map. */
  lemma FieldMapKeysAreIdentifiers(fs: seq<FieldRef>, name: string)
    ensures name in FieldMap(fs) ==> IsIdentifier(name) && '.' !in name
  {
    FieldMapLast(fs, name);
    if name in FieldMap(fs) {
      assert IsIdentifier(name);
      assert forall k :: 0 <= k < |name| ==> name[k] != '.';
    }
  }

  // ---------------------------------------------------------------------
  // Field lookup
  // ---------------------------------------------------------------------

  /** `key.trim().isEmpty()`: every character is at most a space. */
  predicate IsBlank(s: string)
  {
    forall k :: 0 <= k < |s| ==> s[k] <= ' '
  }

  /** The field `getField(item, key)` resolves, independent of the cache
      state: none for a null item, a null or blank key, or a name no field
      of the item's class carries.  A resolved field carries the key as
      its name and belongs to the item's class or one of its superclasses. */
  function LookupField(item: Value, key: Option<string>): (f: Option<FieldRef>)
    ensures f.Some? ==> key.Some? && f.value.name == key.value && f.value in AllFields(ClassOf(item))
  {
    if item.Null? || key.None? || IsBlank(key.value) then None
    else
      var m := FieldMap(AllFields(ClassOf(item)));
      FieldMapLast(AllFields(ClassOf(item)), key.value);
      if key.value in m then Some(m[key.value]) else None
  }

  /** `getField` never resolves a dotted key. */
  lemma DottedKeyNeverResolves(item: Value, key: string)
    requires '.' in key
    ensures LookupField(item, Some(key)) == None
  {
    FieldMapKeysAreIdentifiers(AllFields(ClassOf(item)), key);
  }

  /** `field.get(instance)`: the slot's value, null when unset. */
  function ReadField(instance: Value, f: FieldRef): Value
  {
    if instance.Record? && f in instance.slots then instance.slots[f] else Null
  }

  /** Whether `getField` stores a new class entry in the cache: only on a
      miss for a non-null item with a usable, undotted key. */
  predicate Caches(cache: map<Class, map<string, FieldRef>>, item: Value, key: Option<string>)
  {
    !item.Null? && key.Some? && !IsBlank(key.value) &&
    ClassOf(item) !in cache && '.' !in key.value
  }

  /** `populateAllFields(clazz, fields)`: appends the fields of the class and
      its superclasses to the list.  `None` is a null class. */
  method PopulateAllFields(c: Option<Class>, fields: seq<FieldRef>) returns (out: seq<FieldRef>)
    ensures out == fields + if c.None? then [] else AllFields(c.value)
    decreases c
  {
    if c.None? {
      return fields;
    }
    var cls := c.value;
    out := fields + Declared(cls);
    if cls.superclass.None? {
      return out;
    }
    out := PopulateAllFields(cls.superclass, out);
  }

  /** `getAllFields(clazz)`: null for a null class. */
  method GetAllFields(c: Option<Class>) returns (fields: Option<seq<FieldRef>>)
    ensures c.None? ==> fields.None?
    ensures c.Some? ==> fields == Some(AllFields(c.value))
  {
    if c.None? {
      return None;
    }
    var fs := PopulateAllFields(c, []);
    assert [] + AllFields(c.value) == AllFields(c.value);
    return Some(fs);
  }

  /** The put loop of `getField`: each field is stored under its name, a
      later field replacing an earlier one. */
  method PutFields(fs: seq<FieldRef>) returns (fieldCache: map<string, FieldRef>)
    ensures fieldCache == FieldMap(fs)
  {
    fieldCache := map[];
    var i := 0;
    while i < |fs|
      invariant 0 <= i <= |fs|
      invariant fieldCache == FieldMap(fs[..i])
    {
      assert fs[..i + 1][..i] == fs[..i];
      fieldCache := fieldCache[fs[i].name := fs[i]];
      i := i + 1;
    }
    assert fs[..i] == fs;
  }

  /** The class-keyed cache of name-to-field maps shared by every lookup. */
  class FieldCache {
    var classes: map<Class, map<string, FieldRef>>

    /** Every cached map is the one the class's fields determine. */
    ghost predicate Valid()
      reads this
    {
      forall c :: c in classes ==> classes[c] == FieldMap(AllFields(c))
    }

    constructor()
      ensures classes == map[]
      ensures Valid()
    {
      classes := map[];
    }

    /** `getField(item, key)`: resolves through the cache, filling the
        entry for the item's class on a miss. */
    method GetField(item: Value, key: Option<string>) returns (f: Option<FieldRef>)
      requires Valid()
      modifies this
      ensures Valid()
      ensures f == LookupField(item, key)
      ensures classes ==
        if Caches(old(classes), item, key)
        then old(classes)[ClassOf(item) := FieldMap(AllFields(ClassOf(item)))]
        else old(classes)
    {
      if item.Null? {
        return None;
      }
      if key.None? || IsBlank(key.value) {
        return None;
      }
      var name := key.value;
      var cls := ClassOf(item);
      ghost var expected := FieldMap(AllFields(cls));
      assert LookupField(item, key) == if name in expected then Some(expected[name]) else None;
      if cls in classes {
        var classCache := classes[cls];
        assert classCache == expected;
        return if name in classCache then Some(classCache[name]) else None;
      }
      if '.' in name {
        DottedKeyNeverResolves(item, name);
        return None;
      }
      var fieldCache := FillClass(cls);
      return if name in fieldCache then Some(fieldCache[name]) else None;
    }

    /** The miss path of `getField`: the class's map is stored before it
        is filled, so the entry ends up holding every field under its name
        (empty when the class has no fields). */
    method FillClass(cls: Class) returns (fieldCache: map<string, FieldRef>)
      requires Valid() && cls !in classes
      modifies this
      ensures Valid()
      ensures fieldCache == FieldMap(AllFields(cls))
      ensures classes == old(classes)[cls := fieldCache]
    {
      fieldCache := map[];
      var fields := GetAllFields(Some(cls));
      if fields.Some? && |fields.value| > 0 {
        fieldCache := PutFields(fields.value);
      }
      CacheUpdateValid(classes, cls);
      classes := classes[cls := fieldCache];
    }
  }

  /** Storing a class's own field map keeps every cache entry correct. */
  lemma CacheUpdateValid(cache: map<Class, map<string, FieldRef>>, c: Class)
    requires forall c' :: c' in cache ==> cache[c'] == FieldMap(AllFields(c'))
    ensures var cache' := cache[c := FieldMap(AllFields(c))];
      forall c' :: c' in cache' ==> cache'[c'] == FieldMap(AllFields(c'))
  {
  }

  // ---------------------------------------------------------------------
  // Dotted paths
  // ---------------------------------------------------------------------

  /** The field a path resolves to and the object that holds it. */
  datatype FieldAndInstance = FieldAndInstance(field: Option<FieldRef>, instance: Value)

  /** Pieces of a string between dots (at least one piece). */
  function SplitDot(s: string): (parts: seq<string>)
    ensures |parts| >= 1
    ensures forall k :: 0 <= k < |parts| ==> '.' !in parts[k]
    ensures JoinDot(parts) == s
  {
    if s == [] then [[]]
    else
      var rest := SplitDot(s[1..]);
      if s[0] == '.' then [[]] + rest
      else
        assert JoinDot(rest) == rest[0] + (if |rest| == 1 then [] else "." + JoinDot(rest[1..]));
        [[s[0]] + rest[0]] + rest[1..]
  }

  /** The pieces glued back with dots. */
  function JoinDot(parts: seq<string>): string
    requires |parts| >= 1
  {
    if |parts| == 1 then parts[0] else parts[0] + "." + JoinDot(parts[1..])
  }

  /** Splitting undoes joining pieces that hold no dot. */
  lemma {:induction false} SplitJoin(parts: seq<string>)
    requires |parts| >= 1
    requires forall k :: 0 <= k < |parts| ==> '.' !in parts[k]
    ensures SplitDot(JoinDot(parts)) == parts
    decreases |parts|, |parts[0]|
  {
    var p := parts[0];
    if p == [] {
      if |parts| > 1 {
        var j := JoinDot(parts);
        assert j == "." + JoinDot(parts[1..]);
        assert j[1..] == JoinDot(parts[1..]);
        SplitJoin(parts[1..]);
      }
    } else {
      var parts' := [p[1..]] + parts[1..];
      assert parts'[1..] == parts[1..];
      assert forall k :: 0 <= k < |parts'| ==> '.' !in parts'[k];
      var j := JoinDot(parts);
      assert j != [] && j[0] == p[0] && j[1..] == JoinDot(parts') by {
        if |parts| > 1 {
          assert j == p + "." + JoinDot(parts[1..]);
        }
      }
      assert p[0] != '.' by {
        assert p[0] in p;
      }
      SplitJoin(parts');
      assert [p[0]] + p[1..] == p;
      assert parts == [p] + parts[1..];
    }
  }

  /** `key.split("\\.")`: the pieces, with trailing empty pieces removed. */
  function JavaSplitDot(s: string): (parts: seq<string>)
    requires '.' in s
    ensures forall k :: 0 <= k < |parts| ==> '.' !in parts[k]
  {
    DropTrailingEmpty(SplitDot(s))
  }

  function DropTrailingEmpty(parts: seq<string>): (r: seq<string>)
    ensures r <= parts
    ensures r == [] || r[|r| - 1] != []
  {
    if parts != [] && parts[|parts| - 1] == [] then DropTrailingEmpty(parts[..|parts| - 1])
    else parts
  }

  /** Walking the tokens: each but the last names a field whose value is
      the next object; the last names the field returned with its holder. */
  function PathLookup(instance: Value, tokens: seq<string>): Option<FieldAndInstance>
    decreases |tokens|
  {
    if tokens == [] then None
    else
      var f := LookupField(instance, Some(tokens[0]));
      if f.None? then None
      else if |tokens| == 1 then Some(FieldAndInstance(f, instance))
      else PathLookup(ReadField(instance, f.value), tokens[1..])
  }

  /** What `getFieldAndInstance(item, key)` returns. */
  function FieldAndInstanceOf(item: Value, key: Option<string>): Option<FieldAndInstance>
  {
    if item.Null? || key.None? then None
    else if '.' !in key.value then Some(FieldAndInstance(LookupField(item, key), item))
    else PathLookup(item, JavaSplitDot(key.value))
  }

  /** A dotted path of field names resolves by walking those names in order. */
  lemma DottedPathWalksNames(item: Value, path: seq<Identifier>)
    requires |path| >= 2 && !item.Null?
    ensures FieldAndInstanceOf(item, Some(JoinDot(path))) == PathLookup(item, path)
  {
    var parts: seq<string> := path;
    assert forall k :: 0 <= k < |parts| ==> '.' !in parts[k] by {
      forall k | 0 <= k < |parts| ensures '.' !in parts[k] {
        assert IsIdentifier(path[k]);
      }
    }
    SplitJoin(parts);
    var j := JoinDot(parts);
    assert j == parts[0] + "." + JoinDot(parts[1..]);
    assert j[|parts[0]|] == '.';
    assert parts[|parts| - 1] != [] by {
      assert IsIdentifier(path[|path| - 1]);
    }
  }

  /** One step of the walk, from token `index` on. */
  lemma PathLookupStep(instance: Value, tokens: seq<string>, index: nat)
    requires index < |tokens|
    ensures var f := LookupField(instance, Some(tokens[index]));
      PathLookup(instance, tokens[index..]) ==
        if f.None? then None
        else if index == |tokens| - 1 then Some(FieldAndInstance(f, instance))
        else PathLookup(ReadField(instance, f.value), tokens[index + 1..])
  {
    assert tokens[index..][0] == tokens[index] && |tokens[index..]| == |tokens| - index;
    assert tokens[index..][1..] == tokens[index + 1..];
  }

  /** `getFieldAndInstance(item, key)`: a plain key resolves on the item
      itself (the field may be null); a dotted key walks the tokens,
      reading each intermediate field, and fails on the first token that
      does not resolve. */
  method GetFieldAndInstance(cache: FieldCache, item: Value, key: Option<string>)
    returns (r: Option<FieldAndInstance>)
    requires cache.Valid()
    modifies cache
    ensures cache.Valid()
    ensures r == FieldAndInstanceOf(item, key)
  {
    if item.Null? {
      return None;
    }
    if key.None? {
      return None;
    }
    if '.' !in key.value {
      var f := cache.GetField(item, key);
      return Some(FieldAndInstance(f, item));
    }
    r := WalkPath(cache, item, JavaSplitDot(key.value));
  }

  /** The loop of `getFieldAndInstance` over the tokens of a dotted key. */
  method WalkPath(cache: FieldCache, item: Value, tokens: seq<string>) returns (r: Option<FieldAndInstance>)
    requires cache.Valid()
    modifies cache
    ensures cache.Valid()
    ensures r == PathLookup(item, tokens)
  {
    var instance := item;
    var index := 0;
    while index < |tokens|
      invariant 0 <= index <= |tokens|
      invariant cache.Valid()
      invariant PathLookup(item, tokens) == PathLookup(instance, tokens[index..])
      decreases |tokens| - index
    {
      var token := tokens[index];
      PathLookupStep(instance, tokens, index);
      var field := cache.GetField(instance, Some(token));
      if field.None? {
        return None;
      }
      if index == |tokens| - 1 {
        return Some(FieldAndInstance(field, instance));
      }
      instance := ReadField(instance, field.value);
      index := index + 1;
    }
    return None;
  }
}
