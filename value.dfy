/**
 * The dynamically typed `Value` of merde_core together with its `Array` and
 * `Map` wrappers, the `ValueType` tags and `MerdeError` of the error module,
 * lifetime erasure (`into_static`) and the crate's `PartialEq`.
 *
 * A `HashMap<CowStr, Value>` is an association list here: keys are compared
 * by text, as `CowStr`'s `Eq`/`Hash` do, and the order of the list stands for
 * the map's iteration order. Equality of maps ignores that order.
 */
module Value {
  import opened Wrappers
  import opened MachineInts
  import CowStr
  import Float64

  datatype Value =
    | Int(i: i64)
    | Float(f: Float64.F64)
    | Str(s: CowStr.CowStr)
    | Null
    | Bool(b: bool)
    | Array(arr: Array)
    | Map(mapping: Map)

  /** `Array(pub Vec<Value>)`. */
  datatype Array = ArrayOf(items: seq<Value>)

  /** `Map(pub HashMap<CowStr, Value>)`. */
  datatype Map = MapOf(entries: seq<Entry>)

  datatype Entry = Entry(key: CowStr.CowStr, val: Value)

  /** `ValueType` of the error module: a `Value` variant without its payload. */
  datatype ValueType = NullType | BoolType | IntType | BigIntType | FloatType | StringType | ArrayType | MapType

  /**
   * `MerdeError` of the error module; an I/O error's payload is not modelled.
   * The deserializers of the same crate build `InvalidKey` with the offending
   * key and the key type's name, which `InvalidKeyWith` carries; the error
   * module's own `InvalidKey` has no payload.
   */
  datatype MerdeError =
    | MismatchedType(expected: ValueType, found: ValueType)
    | MissingProperty(prop: CowStr.CowStr)
    | IndexOutOfBounds(index: nat, len: nat)
    | UnknownProperty(name: string)
    | OutOfRange
    | MissingValue
    | InvalidKey
    | InvalidKeyWith(key: CowStr.CowStr, typeName: string)
    | InvalidDateTimeValue
    | Io

  /** `Value::value_type`. */
  function ValueTypeOf(v: Value): ValueType
  {
    match v
    case Null => NullType
    case Bool(_) => BoolType
    case Int(_) => IntType
    case Float(_) => FloatType
    case Str(_) => StringType
    case Array(_) => ArrayType
    case Map(_) => MapType
  }

  /** `value_type` never produces `BigInt` and tells every pair of variants apart. */
  lemma ValueTypeOfInjective(a: Value, b: Value)
    ensures ValueTypeOf(a) != BigIntType
    ensures ValueTypeOf(a) == ValueTypeOf(b) <==>
      (a.Null? && b.Null?) || (a.Bool? && b.Bool?) || (a.Int? && b.Int?) || (a.Float? && b.Float?) ||
      (a.Str? && b.Str?) || (a.Array? && b.Array?) || (a.Map? && b.Map?)
  {
  }

  /** `value_type` follows the variant names: `Str` is reported as `String`. */
  lemma ValueTypeOfNames(i: i64, f: Float64.F64, s: CowStr.CowStr, b: bool, a: Array, m: Map)
    ensures ValueTypeOf(Null) == NullType && ValueTypeOf(Bool(b)) == BoolType
    ensures ValueTypeOf(Int(i)) == IntType && ValueTypeOf(Float(f)) == FloatType
    ensures ValueTypeOf(Str(s)) == StringType && ValueTypeOf(Array(a)) == ArrayType
    ensures ValueTypeOf(Map(m)) == MapType
  {
  }

  // ----- maps as association lists -----

  /** Texts of the keys, in iteration order. */
  function KeyTexts(entries: seq<Entry>): (r: seq<string>)
    ensures |r| == |entries|
    ensures forall i :: 0 <= i < |entries| ==> r[i] == CowStr.Deref(entries[i].key)
  {
    if entries == [] then [] else [CowStr.Deref(entries[0].key)] + KeyTexts(entries[1..])
  }

  /** No two keys have the same text: what `HashMap<CowStr, _>` guarantees. */
  predicate DistinctKeys(entries: seq<Entry>)
  {
    forall i, j :: 0 <= i < j < |entries| ==> CowStr.Deref(entries[i].key) != CowStr.Deref(entries[j].key)
  }

  /** Position of the entry whose key has text `k`, if any. */
  function Find(entries: seq<Entry>, k: string): (r: Option<nat>)
    ensures r.Some? ==> r.value < |entries| && CowStr.Deref(entries[r.value].key) == k
    ensures r.Some? ==> forall i :: 0 <= i < r.value ==> CowStr.Deref(entries[i].key) != k
    ensures r.None? <==> k !in KeyTexts(entries)
  {
    if entries == [] then None
    else if CowStr.Deref(entries[0].key) == k then Some(0)
    else match Find(entries[1..], k)
      case None => None
      case Some(i) => Some(i + 1)
  }

  /** `HashMap::get` by key text. */
  function Get(m: Map, k: string): Option<Value>
  {
    match Find(m.entries, k)
    case None => None
    case Some(i) => Some(m.entries[i].val)
  }

  /**
   * `HashMap::insert`: an existing key keeps its position and its original
   * `CowStr`, only the value is replaced; a new key is added.
   */
  function Insert(m: Map, k: CowStr.CowStr, v: Value): (r: Map)
    ensures Get(r, CowStr.Deref(k)) == Some(v)
    ensures forall t :: t != CowStr.Deref(k) ==> Get(r, t) == Get(m, t)
    ensures DistinctKeys(m.entries) ==> DistinctKeys(r.entries)
    ensures |r.entries| == if Get(m, CowStr.Deref(k)).Some? then |m.entries| else |m.entries| + 1
  {
    match Find(m.entries, CowStr.Deref(k))
    case Some(i) =>
      var r := MapOf(m.entries[i := Entry(m.entries[i].key, v)]);
      assert forall t :: Find(r.entries, t) == Find(m.entries, t) by {
        forall t ensures Find(r.entries, t) == Find(m.entries, t) {
          FindUnderValueUpdate(m.entries, i, v, t);
        }
      }
      r
    case None =>
      var r := MapOf(m.entries + [Entry(k, v)]);
      forall t ensures Get(r, t) == (if t == CowStr.Deref(k) then Some(v) else Get(m, t)) {
        FindAppend(m.entries, Entry(k, v), t);
      }
      r
  }

  /** `HashMap::remove` by key text: the entry goes, the others keep their order. */
  function Remove(m: Map, t: string): (r: Map)
    ensures DistinctKeys(m.entries) ==> Get(r, t) == None
    ensures forall u :: u != t ==> Get(r, u) == Get(m, u)
    ensures DistinctKeys(m.entries) ==> DistinctKeys(r.entries)
    ensures |r.entries| == if Get(m, t).Some? then |m.entries| - 1 else |m.entries|
  {
    var r := MapOf(RemoveEntries(m.entries, t));
    forall u ensures u != t ==> Get(r, u) == Get(m, u) {
      RemoveLookup(m.entries, t, u);
    }
    RemoveLookup(m.entries, t, t);
    r
  }

  function RemoveEntries(es: seq<Entry>, t: string): (r: seq<Entry>)
    ensures |r| == if t in KeyTexts(es) then |es| - 1 else |es|
    ensures forall e :: e in r ==> e in es
  {
    if es == [] then []
    else if CowStr.Deref(es[0].key) == t then es[1..]
    else [es[0]] + RemoveEntries(es[1..], t)
  }

  lemma {:induction false} RemoveLookup(es: seq<Entry>, t: string, u: string)
    ensures u != t ==> Find(RemoveEntries(es, t), u).None? == Find(es, u).None?
    ensures u != t && Find(es, u).Some? ==>
      RemoveEntries(es, t)[Find(RemoveEntries(es, t), u).value].val == es[Find(es, u).value].val
    ensures DistinctKeys(es) ==> Find(RemoveEntries(es, t), t).None?
    ensures DistinctKeys(es) ==> DistinctKeys(RemoveEntries(es, t))
  {
    if es != [] {
      var r := RemoveEntries(es, t);
      var k0 := CowStr.Deref(es[0].key);
      if DistinctKeys(es) {
        assert DistinctKeys(es[1..]);
        assert forall e :: e in es[1..] ==> CowStr.Deref(e.key) != k0;
      }
      if k0 == t {
        if DistinctKeys(es) {
          assert t !in KeyTexts(es[1..]);
        }
      } else {
        RemoveLookup(es[1..], t, u);
        RemoveLookup(es[1..], t, t);
        assert r[1..] == RemoveEntries(es[1..], t);
      }
    }
  }

  lemma {:induction false} FindUnderValueUpdate(entries: seq<Entry>, i: nat, v: Value, t: string)
    requires i < |entries|
    ensures Find(entries[i := Entry(entries[i].key, v)], t) == Find(entries, t)
  {
    if i > 0 {
      var u := entries[i := Entry(entries[i].key, v)];
      assert u[1..] == entries[1..][i - 1 := Entry(entries[i].key, v)];
      FindUnderValueUpdate(entries[1..], i - 1, v, t);
    }
  }

  lemma {:induction false} FindAppend(entries: seq<Entry>, e: Entry, t: string)
    ensures Find(entries + [e], t) ==
      (if t in KeyTexts(entries) then Find(entries, t)
       else if t == CowStr.Deref(e.key) then Some(|entries|) else None)
  {
    if entries != [] {
      assert (entries + [e])[1..] == entries[1..] + [e];
      FindAppend(entries[1..], e, t);
    }
  }

  // ----- the crate's PartialEq -----

  /**
   * `#[derive(PartialEq)]` on `Value`: strings by text, floats as `f64`
   * (so NaN is unequal to itself), arrays element by element, maps as
   * `HashMap` equality: same length and every key of one found in the
   * other with an equal value.
   */
  predicate ValueEq(a: Value, b: Value)
    decreases a, 1
  {
    match a
    case Int(x) => b.Int? && b.i == x
    case Float(x) => b.Float? && Float64.Eq(x, b.f)
    case Str(x) => b.Str? && CowStr.Eq(x, b.s)
    case Null => b.Null?
    case Bool(x) => b.Bool? && b.b == x
    case Array(x) => b.Array? && ArrayEq(x, b.arr)
    case Map(x) => b.Map? && MapEq(x, b.mapping)
  }

  predicate ArrayEq(a: Array, b: Array)
    decreases a, 0
  {
    |a.items| == |b.items| && forall i :: 0 <= i < |a.items| ==> ValueEq(a.items[i], b.items[i])
  }

  predicate MapEq(a: Map, b: Map)
    decreases a, 0
  {
    |a.entries| == |b.entries| &&
    forall i :: 0 <= i < |a.entries| ==>
      var other := Get(b, CowStr.Deref(a.entries[i].key));
      other.Some? && ValueEq(a.entries[i].val, other.value)
  }

  // ----- into_static -----

  /** `IntoStatic for Value`: the variant and scalars stay, strings and containers are converted. */
  function IntoStatic(v: Value): Value
  {
    match v
    case Int(i) => Int(i)
    case Float(f) => Float(f)
    case Str(s) => Str(CowStr.IntoStatic(s))
    case Null => Null
    case Bool(b) => Bool(b)
    case Array(a) => Array(ArrayIntoStatic(a))
    case Map(m) => Map(MapIntoStatic(m))
  }

  /** `IntoStatic for Array`: element-wise. */
  function ArrayIntoStatic(a: Array): (r: Array)
    ensures |r.items| == |a.items|
    ensures forall i :: 0 <= i < |a.items| ==> r.items[i] == IntoStatic(a.items[i])
  {
    ArrayOf(seq(|a.items|, i requires 0 <= i < |a.items| => IntoStatic(a.items[i])))
  }

  /** `IntoStatic for Map`: every key and value converted; the entry order is kept. */
  function MapIntoStatic(m: Map): (r: Map)
    ensures |r.entries| == |m.entries|
    ensures forall i :: 0 <= i < |m.entries| ==>
      r.entries[i] == Entry(CowStr.IntoStatic(m.entries[i].key), IntoStatic(m.entries[i].val))
  {
    MapOf(seq(|m.entries|, i requires 0 <= i < |m.entries| =>
      Entry(CowStr.IntoStatic(m.entries[i].key), IntoStatic(m.entries[i].val))))
  }

  /** Nothing in the value borrows its input any more. */
  predicate IsStatic(v: Value)
    decreases v
  {
    match v
    case Str(s) => s.Owned?
    case Array(a) => forall i :: 0 <= i < |a.items| ==> IsStatic(a.items[i])
    case Map(m) => forall i :: 0 <= i < |m.entries| ==> m.entries[i].key.Owned? && IsStatic(m.entries[i].val)
    case _ => true
  }

  /** `find` looks only at the key texts. */
  lemma {:induction false} FindDependsOnKeys(e1: seq<Entry>, e2: seq<Entry>, t: string)
    requires KeyTexts(e1) == KeyTexts(e2)
    ensures Find(e1, t) == Find(e2, t)
  {
    if e1 != [] {
      assert KeyTexts(e1[1..]) == KeyTexts(e1)[1..] && KeyTexts(e2[1..]) == KeyTexts(e2)[1..];
      FindDependsOnKeys(e1[1..], e2[1..], t);
    }
  }

  /** Looking a key up in the converted map finds the converted value. */
  lemma GetIntoStatic(m: Map, t: string)
    ensures Get(MapIntoStatic(m), t) ==
      (if Get(m, t).Some? then Some(IntoStatic(Get(m, t).value)) else None)
  {
    var r := MapIntoStatic(m);
    assert KeyTexts(r.entries) == KeyTexts(m.entries);
    FindDependsOnKeys(r.entries, m.entries, t);
  }

  /** `into_static` erases every borrow, keeps the variant tree, and is idempotent. */
  lemma {:induction false} IntoStaticErasesBorrows(v: Value)
    ensures IsStatic(IntoStatic(v))
    ensures ValueTypeOf(IntoStatic(v)) == ValueTypeOf(v)
    ensures IntoStatic(IntoStatic(v)) == IntoStatic(v)
    decreases v
  {
    match v
    case Array(a) =>
      forall i | 0 <= i < |a.items| { IntoStaticErasesBorrows(a.items[i]); }
      assert ArrayIntoStatic(ArrayIntoStatic(a)) == ArrayIntoStatic(a);
    case Map(m) =>
      forall i | 0 <= i < |m.entries| { IntoStaticErasesBorrows(m.entries[i].val); }
      assert MapIntoStatic(MapIntoStatic(m)) == MapIntoStatic(m);
    case _ =>
  }

  /**
   * `into_static` preserves the crate's equality: the converted value is
   * equal to exactly the values the original is equal to.
   */
  lemma {:induction false} IntoStaticPreservesEq(v: Value, w: Value)
    ensures ValueEq(IntoStatic(v), w) <==> ValueEq(v, w)
    ensures ValueEq(w, IntoStatic(v)) <==> ValueEq(w, v)
    decreases v, w
  {
    match v
    case Array(a) =>
      if w.Array? {
        var b := w.arr;
        var ra := ArrayIntoStatic(a);
        if |a.items| == |b.items| {
          forall i | 0 <= i < |a.items|
            ensures ValueEq(ra.items[i], b.items[i]) <==> ValueEq(a.items[i], b.items[i])
            ensures ValueEq(b.items[i], ra.items[i]) <==> ValueEq(b.items[i], a.items[i])
          {
            IntoStaticPreservesEq(a.items[i], b.items[i]);
          }
        }
      }
    case Map(m) =>
      if w.Map? {
        MapIntoStaticPreservesEq(m, w.mapping);
      }
    case _ =>
  }

  lemma {:induction false} MapIntoStaticPreservesEq(m: Map, n: Map)
    ensures MapEq(MapIntoStatic(m), n) <==> MapEq(m, n)
    ensures MapEq(n, MapIntoStatic(m)) <==> MapEq(n, m)
    decreases Map(m), n, 1
  {
    MapIntoStaticPreservesEqLeft(m, n);
    MapIntoStaticPreservesEqRight(m, n);
  }

  lemma {:induction false} MapIntoStaticPreservesEqLeft(m: Map, n: Map)
    ensures MapEq(MapIntoStatic(m), n) <==> MapEq(m, n)
    decreases Map(m), n, 0
  {
    var rm := MapIntoStatic(m);
    forall i | 0 <= i < |m.entries| && Get(n, CowStr.Deref(m.entries[i].key)).Some?
      ensures ValueEq(rm.entries[i].val, Get(n, CowStr.Deref(rm.entries[i].key)).value)
          <==> ValueEq(m.entries[i].val, Get(n, CowStr.Deref(m.entries[i].key)).value)
    {
      IntoStaticPreservesEq(m.entries[i].val, Get(n, CowStr.Deref(m.entries[i].key)).value);
    }
  }

  lemma {:induction false} MapIntoStaticPreservesEqRight(m: Map, n: Map)
    ensures MapEq(n, MapIntoStatic(m)) <==> MapEq(n, m)
    decreases Map(m), n, 0
  {
    var rm := MapIntoStatic(m);
    forall j | 0 <= j < |n.entries|
      ensures var t := CowStr.Deref(n.entries[j].key);
        (Get(rm, t).Some? && ValueEq(n.entries[j].val, Get(rm, t).value)) <==>
        (Get(m, t).Some? && ValueEq(n.entries[j].val, Get(m, t).value))
    {
      var t := CowStr.Deref(n.entries[j].key);
      GetIntoStatic(m, t);
      if Get(m, t).Some? {
        var x := m.entries[Find(m.entries, t).value].val;
        IntoStaticPreservesEq(x, n.entries[j].val);
      }
    }
  }

  // ----- From conversions -----

  function FromI64(x: i64): Value { Int(x) }
  function FromF64(f: Float64.F64): Value { Float(f) }
  function FromCowStr(s: CowStr.CowStr): Value { Str(s) }

  /** `From<&str>` and `From<&String>` borrow, `From<String>` owns. */
  function FromStr(s: string): (r: Value)
    ensures r.Str? && r.s.Borrowed? && CowStr.Deref(r.s) == s
  {
    Str(CowStr.FromStr(s))
  }

  function FromString(s: string): (r: Value)
    ensures r.Str? && r.s.Owned? && CowStr.Deref(r.s) == s
  {
    Str(CowStr.FromString(s))
  }

  function FromUnit(): Value { Null }
  function FromBool(b: bool): Value { Bool(b) }
  function FromArray(a: Array): Value { Array(a) }
  function FromMap(m: Map): Value { Map(m) }

  /** `From<Vec<Value>>` and `From<HashMap<CowStr, Value>>` wrap the container. */
  function FromVec(items: seq<Value>): (r: Value)
    ensures r.Array? && r.arr.items == items
  {
    Array(ArrayOf(items))
  }

  function FromHashMap(entries: seq<Entry>): (r: Value)
    ensures r.Map? && r.mapping.entries == entries
  {
    Map(MapOf(entries))
  }

  /** Each `From` conversion lands in the variant its source type names, which `value_type` reports. */
  lemma FromConversionsVariants(x: i64, f: Float64.F64, s: string, b: bool, items: seq<Value>, entries: seq<Entry>)
    ensures ValueTypeOf(FromI64(x)) == IntType && ValueTypeOf(FromF64(f)) == FloatType
    ensures ValueTypeOf(FromStr(s)) == StringType && ValueTypeOf(FromString(s)) == StringType
    ensures ValueTypeOf(FromUnit()) == NullType && ValueTypeOf(FromBool(b)) == BoolType
    ensures ValueTypeOf(FromVec(items)) == ArrayType && ValueTypeOf(FromHashMap(entries)) == MapType
    ensures ValueEq(FromStr(s), FromString(s))
  {
  }

  /**
   * The `map_err` of `must_get`, `must_pop` and `must_remove`: a
   * `MissingValue` becomes the more precise `e`, anything else passes.
   */
  function RewriteMissing<T>(r: Result<T, MerdeError>, e: MerdeError): (r': Result<T, MerdeError>)
    ensures r'.Ok? <==> r.Ok?
    ensures r != Err(MissingValue) ==> r' == r
    ensures r == Err(MissingValue) ==> r' == Err(e)
  {
    match r
    case Err(MissingValue) => Err(e)
    case _ => r
  }

  // ----- accessors -----

  function Mismatch<T>(expected: ValueType, v: Value): Result<T, MerdeError>
  {
    Err(MismatchedType(expected, ValueTypeOf(v)))
  }

  /** `as_map` and `into_map`. */
  function AsMap(v: Value): (r: Result<Map, MerdeError>)
    ensures r.Ok? <==> v.Map?
    ensures r.Ok? ==> v == Map(r.value)
    ensures r.Err? ==> r.error == MismatchedType(MapType, ValueTypeOf(v))
  {
    if v.Map? then Ok(v.mapping) else Mismatch(MapType, v)
  }

  /** `as_array` and `into_array`. */
  function AsArray(v: Value): (r: Result<Array, MerdeError>)
    ensures r.Ok? <==> v.Array?
    ensures r.Ok? ==> v == Array(r.value)
    ensures r.Err? ==> r.error == MismatchedType(ArrayType, ValueTypeOf(v))
  {
    if v.Array? then Ok(v.arr) else Mismatch(ArrayType, v)
  }

  /** `as_str` and `into_str`. */
  function AsStr(v: Value): (r: Result<CowStr.CowStr, MerdeError>)
    ensures r.Ok? <==> v.Str?
    ensures r.Ok? ==> v == Str(r.value)
    ensures r.Err? ==> r.error == MismatchedType(StringType, ValueTypeOf(v))
  {
    if v.Str? then Ok(v.s) else Mismatch(StringType, v)
  }

  /** `as_i64`: only `Int`; a `Float` is not coerced. */
  function AsI64(v: Value): (r: Result<i64, MerdeError>)
    ensures r.Ok? <==> v.Int?
    ensures r.Ok? ==> v == Int(r.value)
    ensures r.Err? ==> r.error == MismatchedType(IntType, ValueTypeOf(v))
  {
    if v.Int? then Ok(v.i) else Mismatch(IntType, v)
  }

  /** Each accessor inverts the matching `From` conversion and rejects every other variant. */
  lemma AccessorsInvertFrom(x: i64, s: string, items: seq<Value>, entries: seq<Entry>, f: Float64.F64)
    ensures AsI64(FromI64(x)) == Ok(x)
    ensures AsStr(FromStr(s)) == Ok(CowStr.Borrowed(s)) && AsStr(FromString(s)) == Ok(CowStr.Owned(s))
    ensures AsArray(FromVec(items)) == Ok(ArrayOf(items))
    ensures AsMap(FromHashMap(entries)) == Ok(MapOf(entries))
    ensures AsI64(FromF64(f)) == Err(MismatchedType(IntType, FloatType))
    ensures AsMap(FromVec(items)) == Err(MismatchedType(MapType, ArrayType))
  {
  }
}
