/**
 * The oldest merde_json layer, over jiter's `JsonValue`: the
 * `JsonDeserialize` impls that turn a parsed JSON value (or its absence)
 * into a typed Rust value, the `JsonValueExt` accessors and `must_get` on
 * objects, with `MerdeJsonError` and `JsonFieldType` as errors.
 *
 * As in the `Deserialize` module, the Rust target type is a `Target` value
 * and the typed result an `Out` of the matching shape. A jiter object is
 * its insertion-ordered vector of members; a lookup follows the
 * `LazyIndexMap` of the `LazyIndex` module, with the `last_find` cell as
 * an explicit `hint`.
 */
module LegacyJson {
  import opened Wrappers
  import opened MachineInts
  import Float64
  import StdCow
  import LI = LazyIndex
  import D = Deserialize
  import LD = LegacyDeserialize

  /** jiter's `JsonValue`; an object is its vector of `(key, value)` members. */
  datatype JsonValue =
    | Null
    | Bool(b: bool)
    | Int(i: i64)
    | BigInt(big: int)
    | Float(f: Float64.F64)
    | Str(s: StdCow.Cow<string>)
    | Array(items: seq<JsonValue>)
    | Object(members: seq<LI.Slot<string, JsonValue>>)

  /** `JsonFieldType`: a value's variant without its payload. */
  datatype FieldType = NullType | BoolType | IntType | BigIntType | FloatType | StringType | ArrayType | ObjectType

  /** `MerdeJsonError`; the parser's own error is kept as an opaque code. */
  datatype JsonError =
    | MismatchedType(expected: FieldType, found: FieldType)
    | MissingProperty(property: string)
    | IndexOutOfBounds(index: nat, len: nat)
    | UnknownProperty(name: string)
    | ParserError(code: nat)
    | OutOfRange
    | MissingValue
    | InvalidKey
    | InvalidDateTimeValue

  /** `From<&JsonValue> for JsonFieldType`. */
  function FieldTypeOf(v: JsonValue): FieldType
  {
    match v
    case Null => NullType
    case Bool(_) => BoolType
    case Int(_) => IntType
    case BigInt(_) => BigIntType
    case Float(_) => FloatType
    case Str(_) => StringType
    case Array(_) => ArrayType
    case Object(_) => ObjectType
  }

  /** Two values report the same field type exactly when they are the same variant. */
  lemma FieldTypeOneToOne(a: JsonValue, b: JsonValue)
    ensures FieldTypeOf(a) == FieldTypeOf(b) <==>
      (a.Null? && b.Null?) || (a.Bool? && b.Bool?) || (a.Int? && b.Int?) || (a.BigInt? && b.BigInt?) ||
      (a.Float? && b.Float?) || (a.Str? && b.Str?) || (a.Array? && b.Array?) || (a.Object? && b.Object?)
  {
  }

  /** Target types with a `JsonDeserialize` impl (`&str` and `Cow<str>` are `StrT` and `CowT`). */
  datatype Target =
    | StrT
    | CowT
    | IntT(kind: LD.LegacyIntKind)
    | BoolT
    | OptionT(inner: Target)
    | VecT(elem: Target)
    | HashMapT(key: D.KeyType, val: Target)
    | ValueT

  /** A deserialized value; each constructor belongs to the `Target` of the same shape. */
  datatype Out =
    | StrOut(text: string)
    | CowOut(c: StdCow.Cow<string>)
    | IntOut(n: int)
    | BoolOut(b: bool)
    | NoneOut
    | SomeOut(some: Out)
    | VecOut(items: seq<Out>)
    | MapOut(entries: seq<Entry>)
    | ValueOut(v: JsonValue)

  datatype Entry = Entry(key: D.Key, val: Out)

  function Mismatch<T>(expected: FieldType, v: JsonValue): Result<T, JsonError>
  {
    Err(MismatchedType(expected, FieldTypeOf(v)))
  }

  // ----- integers -----

  /** `u64`: a non-negative `Int` or an in-range `BigInt`; a `Float` is rounded with a saturating cast. */
  function U64Json(v: Option<JsonValue>): (r: Result<int, JsonError>)
    ensures r.Ok? ==> 0 <= r.value <= U64_MAX
  {
    match v
    case Some(Int(n)) => if n >= 0 then Ok(n as int) else Err(OutOfRange)
    case Some(Float(f)) => Ok(Float64.RoundAsU64(f) as int)
    case Some(BigInt(b)) => if 0 <= b <= U64_MAX then Ok(b) else Err(OutOfRange)
    case Some(x) => Mismatch(IntType, x)
    case None => Err(MissingValue)
  }

  /** `i64`: an `Int` as is, an in-range `BigInt`, or a `Float` rounded with a saturating cast. */
  function I64Json(v: Option<JsonValue>): (r: Result<int, JsonError>)
    ensures r.Ok? ==> I64_MIN <= r.value <= I64_MAX
  {
    match v
    case Some(Int(n)) => Ok(n as int)
    case Some(Float(f)) => Ok(Float64.RoundAsI64(f) as int)
    case Some(BigInt(b)) => if I64_MIN <= b <= I64_MAX then Ok(b) else Err(OutOfRange)
    case Some(x) => Mismatch(IntType, x)
    case None => Err(MissingValue)
  }

  /** `usize` (64-bit): a non-negative `Int`, or a `Float` rounded to `i64` and then checked; it has no `BigInt` arm. */
  function UsizeJson(v: Option<JsonValue>): (r: Result<int, JsonError>)
    ensures r.Ok? ==> 0 <= r.value <= I64_MAX
  {
    match v
    case Some(Int(n)) => if n >= 0 then Ok(n as int) else Err(OutOfRange)
    case Some(Float(f)) =>
      var r := Float64.RoundAsI64(f) as int;
      if r >= 0 then Ok(r) else Err(OutOfRange)
    case Some(x) => Mismatch(IntType, x)
    case None => Err(MissingValue)
  }

  /** `try_into` followed by `map_err(|_| OutOfRange)`. */
  function Narrow(k: IntKind, r: Result<int, JsonError>): Result<Out, JsonError>
  {
    match r
    case Err(e) => Err(e)
    case Ok(n) => if Fits(k, n) then Ok(IntOut(n)) else Err(OutOfRange)
  }

  /** The integer impls: narrow unsigned types go through `u64`, narrow signed ones through `i64`. */
  function IntJson(k: LD.LegacyIntKind, v: Option<JsonValue>): (r: Result<Out, JsonError>)
    ensures r.Ok? ==> r.value.IntOut? && Fits(k, r.value.n)
  {
    if k == Usize then Narrow(k, UsizeJson(v))
    else if IsSigned(k) then Narrow(k, I64Json(v))
    else Narrow(k, U64Json(v))
  }

  // ----- the conversions -----

  /** `T::json_deserialize(value)` for the target type `t`. */
  function Deserialize(t: Target, v: Option<JsonValue>): Result<Out, JsonError>
    decreases t, 0
  {
    match t
    case StrT =>
      (match v
       case Some(Str(s)) => Ok(StrOut(s.val))
       case Some(x) => Mismatch(StringType, x)
       case None => Err(MissingValue))
    case CowT =>
      (match v
       case Some(Str(s)) => Ok(CowOut(s))
       case Some(x) => Mismatch(StringType, x)
       case None => Err(MissingValue))
    case IntT(k) => IntJson(k, v)
    case BoolT =>
      (match v
       case Some(Bool(b)) => Ok(BoolOut(b))
       case Some(x) => Mismatch(BoolType, x)
       case None => Err(MissingValue))
    case OptionT(inner) =>
      (match v
       case Some(Null) => Ok(NoneOut)
       case Some(x) =>
         (match Deserialize(inner, Some(x)) case Ok(o) => Ok(SomeOut(o)) case Err(e) => Err(e))
       case None => Ok(NoneOut))
    case VecT(elem) =>
      (match v
       case Some(Array(items)) => Elements(elem, items)
       case Some(x) => Mismatch(ArrayType, x)
       case None => Err(MissingValue))
    case HashMapT(kt, vt) =>
      (match v
       case Some(Object(members)) => Members(kt, vt, members, [])
       case Some(x) => Mismatch(ObjectType, x)
       case None => Err(MissingValue))
    case ValueT =>
      (match v
       case Some(x) => Ok(ValueOut(x))
       case None => Err(MissingValue))
  }

  /** `Vec<T>`: the elements converted in order and collected; the first error stops the collection. */
  function Elements(elem: Target, items: seq<JsonValue>): Result<Out, JsonError>
    decreases elem, 1, |items|
  {
    if items == [] then Ok(VecOut([]))
    else match Deserialize(elem, Some(items[0]))
      case Err(e) => Err(e)
      case Ok(o) =>
        match Elements(elem, items[1..])
        case Err(e) => Err(e)
        case Ok(rest) => Ok(VecOut([o] + rest.items))
  }

  /** `HashMap::insert` on the map being filled: a repeated key keeps its slot and takes the new value. */
  function Insert(entries: seq<Entry>, k: D.Key, x: Out): (r: seq<Entry>)
    ensures Entry(k, x) in r
    ensures forall i :: 0 <= i < |entries| && entries[i].key != k ==> entries[i] in r
    ensures forall e :: e in r ==> e.key == k || e in entries
  {
    if entries == [] then [Entry(k, x)]
    else if entries[0].key == k then [Entry(k, x)] + entries[1..]
    else [entries[0]] + Insert(entries[1..], k, x)
  }

  /**
   * `HashMap<K, V>`: the members in iteration order, each key parsed with
   * `FromStr` (a failure is a bare `InvalidKey`) and its value converted,
   * then inserted into `acc`.
   */
  function Members(kt: D.KeyType, vt: Target, members: seq<LI.Slot<string, JsonValue>>, acc: seq<Entry>): Result<Out, JsonError>
    decreases vt, 1, |members|
  {
    if members == [] then Ok(MapOut(acc))
    else match D.ParseKey(kt, members[0].key)
      case None => Err(InvalidKey)
      case Some(k) =>
        match Deserialize(vt, Some(members[0].val))
        case Err(e) => Err(e)
        case Ok(o) => Members(kt, vt, members[1..], Insert(acc, k, o))
  }

  /** The `HashMap` impl's `for` loop, filling a local map. */
  method DeserializeHashMap(kt: D.KeyType, vt: Target, members: seq<LI.Slot<string, JsonValue>>) returns (r: Result<Out, JsonError>)
    ensures r == Deserialize(HashMapT(kt, vt), Some(Object(members)))
  {
    assert Deserialize(HashMapT(kt, vt), Some(Object(members))) == Members(kt, vt, members, []);
    assert members[0..] == members;
    var filled: seq<Entry> := [];
    var i := 0;
    while i < |members|
      invariant 0 <= i <= |members|
      invariant Members(kt, vt, members[i..], filled) == Members(kt, vt, members, [])
    {
      var member := members[i];
      assert members[i..][1..] == members[i + 1..];
      var parsedKey := D.ParseKey(kt, member.key);
      if parsedKey.None? {
        return Err(InvalidKey);
      }
      var parsedValue := Deserialize(vt, Some(member.val));
      if parsedValue.Err? {
        return Err(parsedValue.error);
      }
      filled := Insert(filled, parsedKey.value, parsedValue.value);
      i := i + 1;
    }
    return Ok(MapOut(filled));
  }

  // ----- properties of the conversions -----

  /**
   * Every integer type accepts an `Int(n)` exactly when `n` is in its
   * range, and reports `OutOfRange` otherwise.
   */
  lemma IntNarrowing(k: LD.LegacyIntKind, n: i64)
    ensures Deserialize(IntT(k), Some(Int(n))) == if Fits(k, n as int) then Ok(IntOut(n as int)) else Err(OutOfRange)
  {
  }

  /**
   * A value that is neither `Int`, `Float` nor `BigInt` is a type mismatch
   * naming `Int` and what was found; a `BigInt` is one for `usize` alone;
   * absence is `MissingValue`.
   */
  lemma IntMismatch(k: LD.LegacyIntKind, x: JsonValue)
    ensures !x.Int? && !x.Float? && !x.BigInt? ==>
      Deserialize(IntT(k), Some(x)) == Err(MismatchedType(IntType, FieldTypeOf(x)))
    ensures x.BigInt? && k == Usize ==> Deserialize(IntT(k), Some(x)) == Err(MismatchedType(IntType, BigIntType))
    ensures Deserialize(IntT(k), None) == Err(MissingValue)
  {
  }

  /** A `BigInt` becomes any integer type it fits, and `OutOfRange` otherwise, except for `usize`. */
  lemma BigIntNarrowing(k: LD.LegacyIntKind, b: int)
    requires k != Usize
    ensures Deserialize(IntT(k), Some(BigInt(b))) == if Fits(k, b) then Ok(IntOut(b)) else Err(OutOfRange)
  {
  }

  /** `Option<T>`: `Null` and absence are `None`; anything else is `Some` of `T`'s result, or `T`'s error. */
  lemma OptionSpec(t: Target, v: Option<JsonValue>)
    ensures v.None? || v.value.Null? ==> Deserialize(OptionT(t), v) == Ok(NoneOut)
    ensures v.Some? && !v.value.Null? ==>
      (Deserialize(OptionT(t), v).Ok? <==> Deserialize(t, v).Ok?) &&
      (Deserialize(t, v).Ok? ==> Deserialize(OptionT(t), v) == Ok(SomeOut(Deserialize(t, v).value))) &&
      (Deserialize(t, v).Err? ==> Deserialize(OptionT(t), v) == Err(Deserialize(t, v).error))
  {
  }

  /** Index of the first element that fails to convert, or `|items|`. */
  function FirstFailure(elem: Target, items: seq<JsonValue>): (i: nat)
    ensures i <= |items|
    ensures forall j :: 0 <= j < i ==> Deserialize(elem, Some(items[j])).Ok?
    ensures i < |items| ==> Deserialize(elem, Some(items[i])).Err?
  {
    if items == [] then 0
    else if Deserialize(elem, Some(items[0])).Err? then 0
    else 1 + FirstFailure(elem, items[1..])
  }

  /**
   * `Vec<T>` rejects a non-array with a mismatch naming `Array` and needs a
   * value; on an array it succeeds exactly when every element converts,
   * element `j` of the result coming from element `j`, and otherwise it
   * returns the first failing element's error.
   */
  lemma {:induction false} VecSpec(elem: Target, v: Option<JsonValue>)
    ensures v.None? ==> Deserialize(VecT(elem), v) == Err(MissingValue)
    ensures v.Some? && !v.value.Array? ==> Deserialize(VecT(elem), v) == Err(MismatchedType(ArrayType, FieldTypeOf(v.value)))
    ensures v.Some? && v.value.Array? ==>
      var items := v.value.items;
      var r := Deserialize(VecT(elem), v);
      var i := FirstFailure(elem, items);
      (r.Ok? <==> i == |items|) &&
      (r.Ok? ==> (r.value.VecOut? && |r.value.items| == |items| &&
        forall j :: 0 <= j < |items| ==> r.value.items[j] == Deserialize(elem, Some(items[j])).value)) &&
      (r.Err? ==> r.error == Deserialize(elem, Some(items[i])).error)
  {
    if v.Some? && v.value.Array? {
      ElementsSpec(elem, v.value.items);
    }
  }

  lemma {:induction false} ElementsSpec(elem: Target, items: seq<JsonValue>)
    ensures var r := Elements(elem, items);
      var i := FirstFailure(elem, items);
      (r.Ok? <==> i == |items|) &&
      (r.Ok? ==> (r.value.VecOut? && |r.value.items| == |items| &&
        forall j :: 0 <= j < |items| ==> r.value.items[j] == Deserialize(elem, Some(items[j])).value)) &&
      (r.Err? ==> r.error == Deserialize(elem, Some(items[i])).error)
  {
    ElementsOkIff(elem, items);
    ElementsValues(elem, items);
    ElementsFirstError(elem, items);
  }

  /** `Vec<T>` succeeds exactly when no element fails. */
  lemma {:induction false} ElementsOkIff(elem: Target, items: seq<JsonValue>)
    ensures Elements(elem, items).Ok? <==> FirstFailure(elem, items) == |items|
  {
    if items != [] && Deserialize(elem, Some(items[0])).Ok? {
      ElementsOkIff(elem, items[1..]);
    }
  }

  /** A successful `Vec<T>` holds element `j` converted at index `j`. */
  lemma {:induction false} ElementsValues(elem: Target, items: seq<JsonValue>)
    ensures var r := Elements(elem, items);
      r.Ok? ==> (r.value.VecOut? && |r.value.items| == |items| &&
        forall j :: 0 <= j < |items| ==>
          Deserialize(elem, Some(items[j])).Ok? && r.value.items[j] == Deserialize(elem, Some(items[j])).value)
  {
    if items != [] {
      var head := Deserialize(elem, Some(items[0]));
      var tail := Elements(elem, items[1..]);
      if head.Ok? && tail.Ok? {
        ElementsValues(elem, items[1..]);
        var r := Elements(elem, items);
        assert r == Ok(VecOut([head.value] + tail.value.items));
        forall j | 0 <= j < |items|
          ensures Deserialize(elem, Some(items[j])).Ok? && r.value.items[j] == Deserialize(elem, Some(items[j])).value
        {
          if j > 0 { assert items[1..][j - 1] == items[j]; }
        }
      }
    }
  }

  /** A failing `Vec<T>` returns the error of its first failing element. */
  lemma {:induction false} ElementsFirstError(elem: Target, items: seq<JsonValue>)
    ensures var r := Elements(elem, items);
      var i := FirstFailure(elem, items);
      r.Err? ==> i < |items| && r.error == Deserialize(elem, Some(items[i])).error
  {
    if items != [] && Deserialize(elem, Some(items[0])).Ok? {
      ElementsFirstError(elem, items[1..]);
      var k := FirstFailure(elem, items[1..]);
      assert FirstFailure(elem, items) == 1 + k;
      if Elements(elem, items[1..]).Err? {
        assert items[1..][k] == items[1 + k];
      }
    }
  }

  /** Types that accept an absent value: `Option` alone. */
  predicate AcceptsAbsent(t: Target)
  {
    t.OptionT?
  }

  /**
   * `MissingValue` comes only from an absent value given to a type that
   * needs one: never from a present value, however deeply nested.
   */
  lemma {:induction false} MissingValueOnlyWhenAbsent(t: Target, v: Option<JsonValue>)
    ensures Deserialize(t, v) == Err(MissingValue) <==> v.None? && !AcceptsAbsent(t)
    decreases t, 0
  {
    match t
    case OptionT(inner) =>
      if v.Some? && !v.value.Null? {
        MissingValueOnlyWhenAbsent(inner, v);
      }
    case VecT(elem) =>
      if v.Some? && v.value.Array? {
        ElementsNeverMissing(elem, v.value.items);
      }
    case HashMapT(kt, vt) =>
      if v.Some? && v.value.Object? {
        MembersNeverMissing(kt, vt, v.value.members, []);
      }
    case _ =>
  }

  lemma {:induction false} ElementsNeverMissing(elem: Target, items: seq<JsonValue>)
    ensures Elements(elem, items) != Err(MissingValue)
    decreases elem, 1, |items|
  {
    if items != [] {
      MissingValueOnlyWhenAbsent(elem, Some(items[0]));
      ElementsNeverMissing(elem, items[1..]);
    }
  }

  lemma {:induction false} MembersNeverMissing(kt: D.KeyType, vt: Target, members: seq<LI.Slot<string, JsonValue>>, acc: seq<Entry>)
    ensures Members(kt, vt, members, acc) != Err(MissingValue)
    decreases vt, 1, |members|
  {
    if members != [] {
      MissingValueOnlyWhenAbsent(vt, Some(members[0].val));
      var k := D.ParseKey(kt, members[0].key);
      var o := Deserialize(vt, Some(members[0].val));
      if k.Some? && o.Ok? {
        MembersNeverMissing(kt, vt, members[1..], Insert(acc, k.value, o.value));
      }
    }
  }

  /**
   * `HashMap<K, V>` succeeds exactly when every key parses and every value
   * converts; a bad key in first position is `InvalidKey` whatever its value.
   */
  lemma {:induction false} MembersOkSpec(kt: D.KeyType, vt: Target, members: seq<LI.Slot<string, JsonValue>>, acc: seq<Entry>)
    ensures Members(kt, vt, members, acc).Ok? <==>
      forall i :: 0 <= i < |members| ==>
        D.ParseKey(kt, members[i].key).Some? && Deserialize(vt, Some(members[i].val)).Ok?
    ensures members != [] && D.ParseKey(kt, members[0].key).None? ==> Members(kt, vt, members, acc) == Err(InvalidKey)
    decreases |members|
  {
    if members != [] {
      var k := D.ParseKey(kt, members[0].key);
      var o := Deserialize(vt, Some(members[0].val));
      if k.Some? && o.Ok? {
        MembersOkSpec(kt, vt, members[1..], Insert(acc, k.value, o.value));
        assert forall i :: 1 <= i < |members| ==> members[1..][i - 1] == members[i];
      }
    }
  }

  /** The `JsonValue` impl clones the value; `&str` and `Cow<str>` return the string, keeping the `Cow` variant. */
  lemma PassThrough(x: JsonValue)
    ensures Deserialize(ValueT, Some(x)) == Ok(ValueOut(x))
    ensures x.Str? ==> Deserialize(StrT, Some(x)) == Ok(StrOut(x.s.val)) && Deserialize(CowT, Some(x)) == Ok(CowOut(x.s))
    ensures !x.Str? ==> Deserialize(StrT, Some(x)) == Err(MismatchedType(StringType, FieldTypeOf(x)))
    ensures !x.Bool? ==> Deserialize(BoolT, Some(x)) == Err(MismatchedType(BoolType, FieldTypeOf(x)))
  {
  }

  // ----- JsonValueExt -----

  /** `as_object`: the members of an `Object`, or a mismatch naming `Object`. */
  function AsObject(v: JsonValue): (r: Result<seq<LI.Slot<string, JsonValue>>, JsonError>)
    ensures r.Ok? <==> v.Object?
    ensures r.Ok? ==> v == Object(r.value)
    ensures r.Err? ==> r.error == MismatchedType(ObjectType, FieldTypeOf(v))
  {
    match v
    case Object(members) => Ok(members)
    case _ => Mismatch(ObjectType, v)
  }

  /** `as_array`: the items of an `Array`, or a mismatch naming `Array`. */
  function AsArray(v: JsonValue): (r: Result<seq<JsonValue>, JsonError>)
    ensures r.Ok? <==> v.Array?
    ensures r.Ok? ==> v == Array(r.value)
    ensures r.Err? ==> r.error == MismatchedType(ArrayType, FieldTypeOf(v))
  {
    match v
    case Array(items) => Ok(items)
    case _ => Mismatch(ArrayType, v)
  }

  /** `as_cow_str`: the string of a `Str`, variant kept, or a mismatch naming `String`. */
  function AsCowStr(v: JsonValue): (r: Result<StdCow.Cow<string>, JsonError>)
    ensures r.Ok? <==> v.Str?
    ensures r.Ok? ==> v == Str(r.value)
    ensures r.Err? ==> r.error == MismatchedType(StringType, FieldTypeOf(v))
  {
    match v
    case Str(s) => Ok(s)
    case _ => Mismatch(StringType, v)
  }

  /** `as_i64`: only an `Int` gives its number; a `Float` or `BigInt` is a mismatch naming `Int`. */
  function AsI64(v: JsonValue): (r: Result<i64, JsonError>)
    ensures r.Ok? <==> v.Int?
    ensures r.Ok? ==> v == Int(r.value)
    ensures r.Err? ==> r.error == MismatchedType(IntType, FieldTypeOf(v))
  {
    match v
    case Int(n) => Ok(n)
    case _ => Mismatch(IntType, v)
  }

  /** Each accessor gives back the payload of the variant it names. */
  lemma AccessorsInvert(members: seq<LI.Slot<string, JsonValue>>, items: seq<JsonValue>, s: StdCow.Cow<string>, n: i64)
    ensures AsObject(Object(members)) == Ok(members)
    ensures AsArray(Array(items)) == Ok(items)
    ensures AsCowStr(Str(s)) == Ok(s)
    ensures AsI64(Int(n)) == Ok(n)
  {
  }

  // ----- objects -----

  /**
   * `JsonObject::get(key)` with `last_find` at `hint`: above the threshold
   * through the key map, otherwise the circular scan starting after the
   * last hit.
   */
  function ObjectGet(members: seq<LI.Slot<string, JsonValue>>, hint: nat, key: string): Option<JsonValue>
  {
    if |members| > LI.THRESHOLD then
      var m := LI.BuildMap(members);
      if key in m then Some(members[m[key]].val) else None
    else
      match LI.FirstFrom(members, key, hint + 1, 0)
      case Some(j) => Some(members[j].val)
      case None => None
  }

  /**
   * A lookup finds a value exactly when some member has the key, and the
   * value is that of a member with the key; when no key repeats, the hint
   * does not matter.
   */
  lemma ObjectGetFinds(members: seq<LI.Slot<string, JsonValue>>, hint: nat, key: string)
    ensures ObjectGet(members, hint, key).None? <==> key !in LI.KeySet(members)
    ensures ObjectGet(members, hint, key).Some? ==> LI.Slot(key, ObjectGet(members, hint, key).value) in members
  {
    LI.BuildMapLast(members);
    LI.FirstFromFinds(members, key, hint + 1);
  }

  /** Keys that occur once each. */
  predicate DistinctKeys(members: seq<LI.Slot<string, JsonValue>>)
  {
    forall i, j :: 0 <= i < j < |members| ==> members[i].key != members[j].key
  }

  lemma HintIrrelevant(members: seq<LI.Slot<string, JsonValue>>, hint1: nat, hint2: nat, key: string)
    requires DistinctKeys(members)
    ensures ObjectGet(members, hint1, key) == ObjectGet(members, hint2, key)
  {
    ObjectGetFinds(members, hint1, key);
    ObjectGetFinds(members, hint2, key);
    var a := ObjectGet(members, hint1, key);
    var b := ObjectGet(members, hint2, key);
    if a.Some? && b.Some? {
      var i :| 0 <= i < |members| && members[i] == LI.Slot(key, a.value);
      var j :| 0 <= j < |members| && members[j] == LI.Slot(key, b.value);
      assert i == j;
    }
  }

  /** `must_get`: the lookup converted to `T`, with `MissingValue` renamed `MissingProperty(key)`. */
  function MustGet(t: Target, members: seq<LI.Slot<string, JsonValue>>, hint: nat, key: string): (r: Result<Out, JsonError>)
    ensures r != Err(MissingValue)
    ensures r.Ok? <==> Deserialize(t, ObjectGet(members, hint, key)).Ok?
    ensures r.Ok? ==> r == Deserialize(t, ObjectGet(members, hint, key))
  {
    match Deserialize(t, ObjectGet(members, hint, key))
    case Ok(o) => Ok(o)
    case Err(MissingValue) => Err(MissingProperty(key))
    case Err(e) => Err(e)
  }

  /**
   * `must_get` reports a missing key as `MissingProperty(key)` unless the
   * target is an `Option`, which gives `None`; any other error of the
   * conversion passes through unchanged.
   */
  lemma MustGetSpec(t: Target, members: seq<LI.Slot<string, JsonValue>>, hint: nat, key: string)
    ensures key !in LI.KeySet(members) && !AcceptsAbsent(t) ==> MustGet(t, members, hint, key) == Err(MissingProperty(key))
    ensures key !in LI.KeySet(members) && AcceptsAbsent(t) ==> MustGet(t, members, hint, key) == Ok(NoneOut)
    ensures key in LI.KeySet(members) ==> MustGet(t, members, hint, key) == Deserialize(t, ObjectGet(members, hint, key))
  {
    ObjectGetFinds(members, hint, key);
    MissingValueOnlyWhenAbsent(t, ObjectGet(members, hint, key));
  }
}
