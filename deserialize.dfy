/**
 * `ValueDeserialize` of merde_core: how a `Value` (or its absence) becomes a
 * typed Rust value.
 *
 * The Rust trait is generic over the target type; here the target type is a
 * `Target` value naming one of the implementing types, and the typed result
 * is an `Out` value of the matching shape. `from_value_ref` and `from_value`
 * differ only in borrowing versus moving their input, so `FromValue` models
 * `from_value_ref`, and `FromValueOwned` follows the `from_value` overrides
 * that move their input; the two are proved equal.
 */
module Deserialize {
  import opened Wrappers
  import opened MachineInts
  import CowStr
  import StdCow
  import Float64
  import V = Value

  /** The key types of `HashMap<K, V>` that the model parses with `FromStr`. */
  datatype KeyType = StringKey | IntKey(kind: IntKind)

  /** `Box`, `Rc` and `Arc`: transparent wrappers around the inner result. */
  datatype SmartPtr = Box | Rc | Arc

  /** Target types with a `ValueDeserialize` impl. */
  datatype Target =
    | CowStrT
    | CowT
    | StringT
    | IntT(kind: IntKind)
    | BoolT
    | OptionT(inner: Target)
    | VecT(elem: Target)
    | HashMapT(key: KeyType, val: Target)
    | ValueT
    | ArrayT
    | MapT
    | SmartPtrT(ptr: SmartPtr, inner: Target)
    | TupleT(parts: seq<Target>)

  /** A parsed `HashMap` key. */
  datatype Key = StrKey(text: string) | IntKeyOf(n: int)

  /** A deserialized value; each constructor belongs to the `Target` of the same shape. */
  datatype Out =
    | CowStrOut(s: CowStr.CowStr)
    | CowOut(c: StdCow.Cow<string>)
    | StringOut(text: string)
    | IntOut(n: int)
    | BoolOut(b: bool)
    | NoneOut
    | SomeOut(some: Out)
    | VecOut(items: seq<Out>)
    | HashMapOut(entries: seq<KeyedOut>)
    | ValueOut(v: V.Value)
    | ArrayOut(a: V.Array)
    | MapOut(m: V.Map)
    | SmartPtrOut(ptr: SmartPtr, inner: Out)
    | TupleOut(parts: seq<Out>)

  datatype KeyedOut = KeyedOut(key: Key, val: Out)

  function Mismatch(expected: V.ValueType, v: V.Value): Result<Out, V.MerdeError>
  {
    Err(V.MismatchedType(expected, V.ValueTypeOf(v)))
  }

  // ----- integers -----

  /** `u64::from_value_ref`: `Int` must be non-negative, `Float` is rounded with a saturating cast. */
  function U64From(v: Option<V.Value>): (r: Result<int, V.MerdeError>)
    ensures r.Ok? ==> 0 <= r.value <= U64_MAX
  {
    match v
    case Some(Int(n)) => if n >= 0 then Ok(n as int) else Err(V.OutOfRange)
    case Some(Float(f)) => Ok(Float64.RoundAsU64(f) as int)
    case Some(x) => Err(V.MismatchedType(V.IntType, V.ValueTypeOf(x)))
    case None => Err(V.MissingValue)
  }

  /** `i64::from_value_ref`: `Int` as is, `Float` rounded with a saturating cast. */
  function I64From(v: Option<V.Value>): (r: Result<int, V.MerdeError>)
    ensures r.Ok? ==> I64_MIN <= r.value <= I64_MAX
  {
    match v
    case Some(Int(n)) => Ok(n as int)
    case Some(Float(f)) => Ok(Float64.RoundAsI64(f) as int)
    case Some(x) => Err(V.MismatchedType(V.IntType, V.ValueTypeOf(x)))
    case None => Err(V.MissingValue)
  }

  /** `try_into` followed by `map_err(|_| OutOfRange)`. */
  function Narrow(k: IntKind, r: Result<int, V.MerdeError>): Result<Out, V.MerdeError>
  {
    match r
    case Err(e) => Err(e)
    case Ok(n) => if Fits(k, n) then Ok(IntOut(n)) else Err(V.OutOfRange)
  }

  /**
   * The integer impls: the narrow unsigned types go through `u64`, the
   * narrow signed ones through `i64`; `usize` and `isize` round a float to
   * `i64` first and then convert (on a 64-bit target).
   */
  function IntFrom(k: IntKind, v: Option<V.Value>): (r: Result<Out, V.MerdeError>)
    ensures r.Ok? ==> r.value.IntOut? && Fits(k, r.value.n)
  {
    match k
    case U8 => Narrow(k, U64From(v))
    case U16 => Narrow(k, U64From(v))
    case U32 => Narrow(k, U64From(v))
    case U64 => Narrow(k, U64From(v))
    case I8 => Narrow(k, I64From(v))
    case I16 => Narrow(k, I64From(v))
    case I32 => Narrow(k, I64From(v))
    case I64 => Narrow(k, I64From(v))
    case Usize => Narrow(k, I64From(v))
    case Isize => Narrow(k, I64From(v))
  }

  // ----- keys -----

  predicate IsDigit(c: char)
  {
    '0' <= c <= '9'
  }

  predicate AllDigits(s: string)
  {
    forall i :: 0 <= i < |s| ==> IsDigit(s[i])
  }

  function DecimalValue(d: string): (n: nat)
    requires AllDigits(d)
  {
    if d == [] then 0
    else
      var last := d[|d| - 1];
      assert IsDigit(last);
      DecimalValue(d[..|d| - 1]) * 10 + (last as int - '0' as int)
  }

  /**
   * `FromStr` for the integer types: an optional `+` (or `-` for a signed
   * type), then at least one ASCII digit, and the value in range.
   */
  function ParseInt(k: IntKind, s: string): (r: Option<int>)
    ensures r.Some? ==> Fits(k, r.value)
  {
    if s == [] then None
    else
      var negative := s[0] == '-' && IsSigned(k);
      var digits := if s[0] == '+' || negative then s[1..] else s;
      if digits == [] || !AllDigits(digits) then None
      else
        var n: int := if negative then -(DecimalValue(digits) as int) else DecimalValue(digits);
        if Fits(k, n) then Some(n) else None
  }

  /** `K::from_str` for the modelled key types; `String` parsing never fails. */
  function ParseKey(kt: KeyType, s: string): Option<Key>
  {
    match kt
    case StringKey => Some(StrKey(s))
    case IntKey(k) => match ParseInt(k, s) { case None => None case Some(n) => Some(IntKeyOf(n)) }
  }

  /** `std::any::type_name::<K>()` as the standard library spells these types. */
  function KeyTypeName(kt: KeyType): string
  {
    match kt
    case StringKey => "alloc::string::String"
    case IntKey(k) =>
      match k
      case U8 => "u8" case U16 => "u16" case U32 => "u32" case U64 => "u64" case Usize => "usize"
      case I8 => "i8" case I16 => "i16" case I32 => "i32" case I64 => "i64" case Isize => "isize"
  }

  /** `HashMap::insert` on the output map: a key seen before keeps its slot and gets the new value. */
  function InsertOut(entries: seq<KeyedOut>, k: Key, x: Out): (r: seq<KeyedOut>)
    ensures KeyedOut(k, x) in r
    ensures forall i :: 0 <= i < |entries| && entries[i].key != k ==> entries[i] in r
    ensures forall e :: e in r ==> e.key == k || e in entries
  {
    if entries == [] then [KeyedOut(k, x)]
    else if entries[0].key == k then [KeyedOut(k, x)] + entries[1..]
    else [entries[0]] + InsertOut(entries[1..], k, x)
  }

  // ----- the conversions -----

  /** `T::from_value_ref(value)` for the target type `t`. */
  function FromValue(t: Target, v: Option<V.Value>): Result<Out, V.MerdeError>
    decreases t, 0
  {
    match t
    case CowStrT =>
      (match v
       case Some(Str(s)) => Ok(CowStrOut(s))
       case Some(x) => Mismatch(V.StringType, x)
       case None => Err(V.MissingValue))
    case CowT =>
      (match v
       case Some(Str(s)) => Ok(CowOut(if s.Borrowed? then StdCow.Borrowed(s.text) else StdCow.Owned(s.text)))
       case Some(x) => Mismatch(V.StringType, x)
       case None => Err(V.MissingValue))
    case StringT =>
      (match v
       case Some(Str(s)) => Ok(StringOut(CowStr.IntoString(s)))
       case Some(x) => Mismatch(V.StringType, x)
       case None => Err(V.MissingValue))
    case IntT(k) => IntFrom(k, v)
    case BoolT =>
      (match v
       case Some(Bool(b)) => Ok(BoolOut(b))
       case Some(x) => Mismatch(V.BoolType, x)
       case None => Err(V.MissingValue))
    case OptionT(inner) =>
      (match v
       case Some(Null) => Ok(NoneOut)
       case Some(x) =>
         (match FromValue(inner, Some(x)) case Ok(o) => Ok(SomeOut(o)) case Err(e) => Err(e))
       case None => Ok(NoneOut))
    case VecT(elem) =>
      (match v
       case Some(Array(a)) => ElementsFrom(elem, a.items)
       case Some(x) => Mismatch(V.ArrayType, x)
       case None => Err(V.MissingValue))
    case HashMapT(kt, vt) =>
      (match v
       case Some(Map(m)) => EntriesFrom(kt, vt, m.entries, [])
       case Some(x) => Mismatch(V.MapType, x)
       case None => Err(V.MissingValue))
    case ValueT =>
      (match v
       case Some(x) => Ok(ValueOut(x))
       case None => Err(V.MissingValue))
    case ArrayT =>
      (match v
       case Some(Array(a)) => Ok(ArrayOut(a))
       case Some(x) => Mismatch(V.ArrayType, x)
       case None => Err(V.MissingValue))
    case MapT =>
      (match v
       case Some(Map(m)) => Ok(MapOut(m))
       case Some(x) => Mismatch(V.MapType, x)
       case None => Err(V.MissingValue))
    case SmartPtrT(p, inner) =>
      (match FromValue(inner, v) case Ok(o) => Ok(SmartPtrOut(p, o)) case Err(e) => Err(e))
    case TupleT(parts) =>
      (match v
       case Some(Array(a)) =>
         if |a.items| == |parts| then PartsFrom(parts, a.items) else Mismatch(V.ArrayType, V.Array(a))
       case Some(x) => Mismatch(V.ArrayType, x)
       case None => Err(V.MissingValue))
  }

  /** `Vec<T>`: every element converted in order; the first failure is the result. */
  function ElementsFrom(elem: Target, items: seq<V.Value>): Result<Out, V.MerdeError>
    decreases elem, 1, |items|
  {
    if items == [] then Ok(VecOut([]))
    else match FromValue(elem, Some(items[0]))
      case Err(e) => Err(e)
      case Ok(o) =>
        match ElementsFrom(elem, items[1..])
        case Err(e) => Err(e)
        case Ok(rest) => Ok(VecOut([o] + rest.items))
  }

  /** A tuple: component `i` from element `i`, left to right, stopping at the first failure. */
  function PartsFrom(parts: seq<Target>, items: seq<V.Value>): Result<Out, V.MerdeError>
    requires |parts| == |items|
    decreases parts
  {
    if parts == [] then Ok(TupleOut([]))
    else match FromValue(parts[0], Some(items[0]))
      case Err(e) => Err(e)
      case Ok(o) =>
        match PartsFrom(parts[1..], items[1..])
        case Err(e) => Err(e)
        case Ok(rest) => Ok(TupleOut([o] + rest.parts))
  }

  /**
   * `HashMap<K, V>`: the entries in iteration order, each key parsed (a bad
   * key reports itself, made owned, with the key type's name) and then its
   * value converted; parsed keys are inserted into `acc`.
   */
  function EntriesFrom(kt: KeyType, vt: Target, entries: seq<V.Entry>, acc: seq<KeyedOut>): Result<Out, V.MerdeError>
    decreases vt, 1, |entries|
  {
    if entries == [] then Ok(HashMapOut(acc))
    else match ParseKey(kt, CowStr.Deref(entries[0].key))
      case None => Err(V.InvalidKeyWith(CowStr.IntoStatic(entries[0].key), KeyTypeName(kt)))
      case Some(k) =>
        match FromValue(vt, Some(entries[0].val))
        case Err(e) => Err(e)
        case Ok(o) => EntriesFrom(kt, vt, entries[1..], InsertOut(acc, k, o))
  }

  lemma HashMapFrom(kt: KeyType, vt: Target, obj: V.Map)
    ensures FromValue(HashMapT(kt, vt), Some(V.Map(obj))) == EntriesFrom(kt, vt, obj.entries, [])
  {
  }

  /** The `HashMap` impl's `for` loop, filling the map in place. */
  method DeserializeHashMap(kt: KeyType, vt: Target, obj: V.Map) returns (r: Result<Out, V.MerdeError>)
    ensures r == FromValue(HashMapT(kt, vt), Some(V.Map(obj)))
  {
    HashMapFrom(kt, vt, obj);
    var filled: seq<KeyedOut> := [];
    var i := 0;
    while i < |obj.entries|
      invariant 0 <= i <= |obj.entries|
      invariant EntriesFrom(kt, vt, obj.entries[i..], filled) == EntriesFrom(kt, vt, obj.entries, [])
    {
      var entry := obj.entries[i];
      assert obj.entries[i..][1..] == obj.entries[i + 1..];
      var parsedKey := ParseKey(kt, CowStr.Deref(entry.key));
      if parsedKey.None? {
        return Err(V.InvalidKeyWith(CowStr.IntoStatic(entry.key), KeyTypeName(kt)));
      }
      var parsedValue := FromValue(vt, Some(entry.val));
      if parsedValue.Err? {
        return Err(parsedValue.error);
      }
      filled := InsertOut(filled, parsedKey.value, parsedValue.value);
      i := i + 1;
    }
    return Ok(HashMapOut(filled));
  }

  /**
   * The `from_value` overrides: `Option`, `Box`/`Rc`/`Arc` and the tuples
   * move their input into the inner `from_value`; every other impl uses the
   * default, which hands a reference to `from_value_ref`.
   */
  function FromValueOwned(t: Target, v: Option<V.Value>): Result<Out, V.MerdeError>
    decreases t, 0
  {
    match t
    case OptionT(inner) =>
      (match v
       case Some(Null) => Ok(NoneOut)
       case Some(x) =>
         (match FromValueOwned(inner, Some(x)) case Ok(o) => Ok(SomeOut(o)) case Err(e) => Err(e))
       case None => Ok(NoneOut))
    case SmartPtrT(p, inner) =>
      (match FromValueOwned(inner, v) case Ok(o) => Ok(SmartPtrOut(p, o)) case Err(e) => Err(e))
    case TupleT(parts) =>
      (match v
       case Some(Array(a)) =>
         if |a.items| == |parts| then PartsFromOwned(parts, a.items) else Mismatch(V.ArrayType, V.Array(a))
       case Some(x) => Mismatch(V.ArrayType, x)
       case None => Err(V.MissingValue))
    case _ => FromValue(t, v)
  }

  function PartsFromOwned(parts: seq<Target>, items: seq<V.Value>): Result<Out, V.MerdeError>
    requires |parts| == |items|
    decreases parts
  {
    if parts == [] then Ok(TupleOut([]))
    else match FromValueOwned(parts[0], Some(items[0]))
      case Err(e) => Err(e)
      case Ok(o) =>
        match PartsFromOwned(parts[1..], items[1..])
        case Err(e) => Err(e)
        case Ok(rest) => Ok(TupleOut([o] + rest.parts))
  }

  // ----- properties -----

  /** Moving the value in and lending it out give the same result, for every target. */
  lemma {:induction false} OwnedAgreesWithRef(t: Target, v: Option<V.Value>)
    ensures FromValueOwned(t, v) == FromValue(t, v)
    decreases t, 0
  {
    match t
    case OptionT(inner) =>
      if v.Some? && !v.value.Null? { OwnedAgreesWithRef(inner, v); }
    case SmartPtrT(p, inner) =>
      OwnedAgreesWithRef(inner, v);
    case TupleT(parts) =>
      if v.Some? && v.value.Array? && |v.value.arr.items| == |parts| {
        PartsOwnedAgree(parts, v.value.arr.items);
      }
    case _ =>
  }

  lemma {:induction false} PartsOwnedAgree(parts: seq<Target>, items: seq<V.Value>)
    requires |parts| == |items|
    ensures PartsFromOwned(parts, items) == PartsFrom(parts, items)
    decreases parts
  {
    if parts != [] {
      OwnedAgreesWithRef(parts[0], Some(items[0]));
      PartsOwnedAgree(parts[1..], items[1..]);
    }
  }

  /**
   * The free function `from_value_ref`: the target's deserializer lent a
   * value that is there, so it never reports `MissingValue`.
   */
  function FromValueRefOf(t: Target, v: V.Value): (r: Result<Out, V.MerdeError>)
    ensures r != Err(V.MissingValue)
  {
    MissingValueOnlyWhenAbsent(t, Some(v));
    FromValue(t, Some(v))
  }

  /**
   * The free function `from_value`: the value moved in, which gives what
   * lending it gives.
   */
  function FromValueOf(t: Target, v: V.Value): (r: Result<Out, V.MerdeError>)
    ensures r == FromValueRefOf(t, v)
  {
    OwnedAgreesWithRef(t, Some(v));
    FromValueOwned(t, Some(v))
  }

  /**
   * Integer narrowing: an `Int(n)` is accepted exactly when `n` is in the
   * target type's range and is then returned unchanged; otherwise the error
   * is `OutOfRange`.
   */
  lemma IntNarrowing(k: IntKind, n: i64)
    ensures FromValue(IntT(k), Some(V.Int(n))) == (if Fits(k, n as int) then Ok(IntOut(n as int)) else Err(V.OutOfRange))
  {
  }

  /** A value that is neither `Int` nor `Float` is a type mismatch for every integer type, and absence is `MissingValue`. */
  lemma IntMismatch(k: IntKind, x: V.Value)
    ensures !x.Int? && !x.Float? ==> FromValue(IntT(k), Some(x)) == Err(V.MismatchedType(V.IntType, V.ValueTypeOf(x)))
    ensures FromValue(IntT(k), None) == Err(V.MissingValue)
  {
  }

  /**
   * A negative float is rounded through `u64` for `u64` but through `i64`
   * for `usize`: the `u64` cast saturates to 0, while `usize` rejects any
   * float that rounds below zero (such as -1.0) as out of range.
   */
  lemma NegativeFloatAsU64AndUsize(f: Float64.F64)
    requires Float64.SignBit(f)
    ensures FromValue(IntT(U64), Some(V.Float(f))) == Ok(IntOut(0))
    ensures Float64.RoundAsI64(f) < 0 ==> FromValue(IntT(Usize), Some(V.Float(f))) == Err(V.OutOfRange)
    ensures Float64.RoundAsI64(f) >= 0 ==> FromValue(IntT(Usize), Some(V.Float(f))) == Ok(IntOut(0))
  {
  }

  /** Targets that accept an absent value: `Option`, possibly inside a `Box`, `Rc` or `Arc`. */
  predicate AcceptsAbsent(t: Target)
  {
    match t
    case OptionT(_) => true
    case SmartPtrT(_, inner) => AcceptsAbsent(inner)
    case _ => false
  }

  /**
   * `MissingValue` reports exactly an absent value for a target that is not
   * optional: a present value never yields it, at any depth, and an absent
   * one yields it unless the target is an `Option`.
   */
  lemma {:induction false} MissingValueOnlyWhenAbsent(t: Target, v: Option<V.Value>)
    ensures v.Some? ==> FromValue(t, v) != Err(V.MissingValue)
    ensures v.None? ==> (FromValue(t, v).Ok? <==> AcceptsAbsent(t))
    ensures v.None? && !AcceptsAbsent(t) ==> FromValue(t, v) == Err(V.MissingValue)
    decreases t, 0
  {
    match t
    case OptionT(inner) =>
      if v.Some? && !v.value.Null? { MissingValueOnlyWhenAbsent(inner, v); }
    case SmartPtrT(p, inner) =>
      MissingValueOnlyWhenAbsent(inner, v);
    case VecT(elem) =>
      if v.Some? && v.value.Array? { ElementsNeverMissing(elem, v.value.arr.items); }
    case HashMapT(kt, vt) =>
      if v.Some? && v.value.Map? { EntriesNeverMissing(kt, vt, v.value.mapping.entries, []); }
    case TupleT(parts) =>
      if v.Some? && v.value.Array? && |v.value.arr.items| == |parts| { PartsNeverMissing(parts, v.value.arr.items); }
    case IntT(k) =>
    case _ =>
  }

  lemma {:induction false} ElementsNeverMissing(elem: Target, items: seq<V.Value>)
    ensures ElementsFrom(elem, items) != Err(V.MissingValue)
    decreases elem, 1, |items|
  {
    if items != [] {
      MissingValueOnlyWhenAbsent(elem, Some(items[0]));
      ElementsNeverMissing(elem, items[1..]);
    }
  }

  lemma {:induction false} PartsNeverMissing(parts: seq<Target>, items: seq<V.Value>)
    requires |parts| == |items|
    ensures PartsFrom(parts, items) != Err(V.MissingValue)
    decreases parts
  {
    if parts != [] {
      MissingValueOnlyWhenAbsent(parts[0], Some(items[0]));
      PartsNeverMissing(parts[1..], items[1..]);
    }
  }

  lemma {:induction false} EntriesNeverMissing(kt: KeyType, vt: Target, entries: seq<V.Entry>, acc: seq<KeyedOut>)
    ensures EntriesFrom(kt, vt, entries, acc) != Err(V.MissingValue)
    decreases vt, 1, |entries|
  {
    if entries != [] {
      MissingValueOnlyWhenAbsent(vt, Some(entries[0].val));
      var k := ParseKey(kt, CowStr.Deref(entries[0].key));
      if k.Some? && FromValue(vt, Some(entries[0].val)).Ok? {
        EntriesNeverMissing(kt, vt, entries[1..], InsertOut(acc, k.value, FromValue(vt, Some(entries[0].val)).value));
      }
    }
  }

  /** Index of the first element that fails to convert, or `|items|`. */
  function FirstFailure(elem: Target, items: seq<V.Value>): (i: nat)
    ensures i <= |items|
    ensures forall j :: 0 <= j < i ==> FromValue(elem, Some(items[j])).Ok?
    ensures i < |items| ==> FromValue(elem, Some(items[i])).Err?
  {
    if items == [] then 0
    else if FromValue(elem, Some(items[0])).Err? then 0
    else 1 + FirstFailure(elem, items[1..])
  }

  /**
   * `Vec<T>` converts element-wise in order: it succeeds exactly when every
   * element does, with element `j` of the result converted from element `j`,
   * and otherwise returns the error of the first element that fails.
   */
  lemma {:induction false} ElementsSpec(elem: Target, items: seq<V.Value>)
    ensures var r := ElementsFrom(elem, items);
      var i := FirstFailure(elem, items);
      (r.Ok? <==> i == |items|) &&
      (r.Ok? ==> (r.value.VecOut? && |r.value.items| == |items| &&
        forall j :: 0 <= j < |items| ==> r.value.items[j] == FromValue(elem, Some(items[j])).value)) &&
      (r.Err? ==> r.error == FromValue(elem, Some(items[i])).error)
  {
    ElementsOkIff(elem, items);
    ElementsValues(elem, items);
    ElementsFirstError(elem, items);
  }

  /** `Vec<T>` succeeds exactly when no element fails. */
  lemma {:induction false} ElementsOkIff(elem: Target, items: seq<V.Value>)
    ensures ElementsFrom(elem, items).Ok? <==> FirstFailure(elem, items) == |items|
  {
    if items != [] && FromValue(elem, Some(items[0])).Ok? {
      ElementsOkIff(elem, items[1..]);
    }
  }

  /** A successful `Vec<T>` holds element `j` converted at index `j`. */
  lemma {:induction false} ElementsValues(elem: Target, items: seq<V.Value>)
    ensures var r := ElementsFrom(elem, items);
      r.Ok? ==> (r.value.VecOut? && |r.value.items| == |items| &&
        forall j :: 0 <= j < |items| ==>
          FromValue(elem, Some(items[j])).Ok? && r.value.items[j] == FromValue(elem, Some(items[j])).value)
  {
    if items != [] {
      var head := FromValue(elem, Some(items[0]));
      var tail := ElementsFrom(elem, items[1..]);
      if head.Ok? && tail.Ok? {
        ElementsValues(elem, items[1..]);
        var r := ElementsFrom(elem, items);
        assert r == Ok(VecOut([head.value] + tail.value.items));
        forall j | 0 <= j < |items|
          ensures FromValue(elem, Some(items[j])).Ok? && r.value.items[j] == FromValue(elem, Some(items[j])).value
        {
          if j > 0 { assert items[1..][j - 1] == items[j]; }
        }
      }
    }
  }

  /** A failing `Vec<T>` returns the error of its first failing element. */
  lemma {:induction false} ElementsFirstError(elem: Target, items: seq<V.Value>)
    ensures var r := ElementsFrom(elem, items);
      var i := FirstFailure(elem, items);
      r.Err? ==> i < |items| && r.error == FromValue(elem, Some(items[i])).error
  {
    if items != [] && FromValue(elem, Some(items[0])).Ok? {
      ElementsFirstError(elem, items[1..]);
      var k := FirstFailure(elem, items[1..]);
      assert FirstFailure(elem, items) == 1 + k;
      if ElementsFrom(elem, items[1..]).Err? {
        assert items[1..][k] == items[1 + k];
      }
    }
  }

  /**
   * An n-tuple accepts only an array of exactly n elements: a wrong length
   * is reported as an array found where an array was expected, and a
   * matching array yields component `j` from element `j`.
   */
  lemma {:induction false} TupleSpec(parts: seq<Target>, items: seq<V.Value>)
    ensures |items| != |parts| ==>
      FromValue(TupleT(parts), Some(V.Array(V.ArrayOf(items)))) == Err(V.MismatchedType(V.ArrayType, V.ArrayType))
    ensures |items| == |parts| ==>
      var r := FromValue(TupleT(parts), Some(V.Array(V.ArrayOf(items))));
      (r.Ok? <==> forall j :: 0 <= j < |parts| ==> FromValue(parts[j], Some(items[j])).Ok?) &&
      (r.Ok? ==> (r.value.TupleOut? && |r.value.parts| == |parts| &&
        forall j :: 0 <= j < |parts| ==> r.value.parts[j] == FromValue(parts[j], Some(items[j])).value))
    decreases parts
  {
    if |items| == |parts| && parts != [] {
      TupleSpec(parts[1..], items[1..]);
      var r := PartsFrom(parts, items);
      var head := FromValue(parts[0], Some(items[0]));
      if head.Ok? {
        var rest := PartsFrom(parts[1..], items[1..]);
        assert forall j :: 1 <= j < |parts| ==> parts[1..][j - 1] == parts[j] && items[1..][j - 1] == items[j];
        if rest.Ok? {
          assert r.value.parts == [head.value] + rest.value.parts;
        }
      }
    }
  }

  /** `Option<T>`: `Null` and absence are `None`; anything else is `Some` of `T`'s result, or `T`'s error. */
  lemma OptionSpec(t: Target, v: Option<V.Value>)
    ensures v.None? || v.value.Null? ==> FromValue(OptionT(t), v) == Ok(NoneOut)
    ensures v.Some? && !v.value.Null? ==>
      (FromValue(OptionT(t), v).Ok? <==> FromValue(t, v).Ok?) &&
      (FromValue(t, v).Ok? ==> FromValue(OptionT(t), v) == Ok(SomeOut(FromValue(t, v).value))) &&
      (FromValue(t, v).Err? ==> FromValue(OptionT(t), v) == Err(FromValue(t, v).error))
  {
  }

  /**
   * `CowStr`, `Value`, `Array` and `Map` hand back the payload itself (a
   * borrowed string stays borrowed), `Cow<str>` keeps the variant and the
   * text, `String` keeps the text, and `Box`, `Rc` and `Arc` wrap the inner
   * result.
   */
  lemma PassThrough(x: V.Value, t: Target, p: SmartPtr)
    ensures x.Str? ==> FromValue(CowStrT, Some(x)) == Ok(CowStrOut(x.s))
    ensures x.Str? ==> (FromValue(CowT, Some(x)).Ok? &&
      FromValue(CowT, Some(x)).value.c.Borrowed? == x.s.Borrowed? &&
      FromValue(CowT, Some(x)).value.c.val == CowStr.Deref(x.s))
    ensures x.Str? ==> FromValue(StringT, Some(x)) == Ok(StringOut(CowStr.Deref(x.s)))
    ensures FromValue(ValueT, Some(x)) == Ok(ValueOut(x))
    ensures x.Array? ==> FromValue(ArrayT, Some(x)) == Ok(ArrayOut(x.arr))
    ensures x.Map? ==> FromValue(MapT, Some(x)) == Ok(MapOut(x.mapping))
    ensures !x.Str? ==> FromValue(CowStrT, Some(x)) == Err(V.MismatchedType(V.StringType, V.ValueTypeOf(x)))
    ensures FromValue(SmartPtrT(p, t), Some(x)).Ok? <==> FromValue(t, Some(x)).Ok?
    ensures FromValue(t, Some(x)).Ok? ==> FromValue(SmartPtrT(p, t), Some(x)) == Ok(SmartPtrOut(p, FromValue(t, Some(x)).value))
  {
  }

  /** Which entries of a map convert: the key parses and the value converts. */
  predicate EntryConverts(kt: KeyType, vt: Target, e: V.Entry)
  {
    ParseKey(kt, CowStr.Deref(e.key)).Some? && FromValue(vt, Some(e.val)).Ok?
  }

  /** `HashMap<K, V>` succeeds exactly when every key parses and every value converts. */
  lemma {:induction false} EntriesOkSpec(kt: KeyType, vt: Target, entries: seq<V.Entry>, acc: seq<KeyedOut>)
    ensures EntriesFrom(kt, vt, entries, acc).Ok? <==> forall i :: 0 <= i < |entries| ==> EntryConverts(kt, vt, entries[i])
    ensures EntriesFrom(kt, vt, entries, acc).Ok? ==> EntriesFrom(kt, vt, entries, acc).value.HashMapOut?
    decreases |entries|
  {
    if entries != [] {
      var k := ParseKey(kt, CowStr.Deref(entries[0].key));
      var o := FromValue(vt, Some(entries[0].val));
      if k.Some? && o.Ok? {
        var acc' := InsertOut(acc, k.value, o.value);
        assert EntriesFrom(kt, vt, entries, acc) == EntriesFrom(kt, vt, entries[1..], acc');
        EntriesOkSpec(kt, vt, entries[1..], acc');
        assert forall i :: 1 <= i < |entries| ==> entries[1..][i - 1] == entries[i];
      } else {
        assert !EntryConverts(kt, vt, entries[0]);
        assert EntriesFrom(kt, vt, entries, acc).Err?;
      }
    }
  }

  /** On success, every entry's parsed key is bound in the resulting map. */
  lemma {:induction false} EntriesKeysSpec(kt: KeyType, vt: Target, entries: seq<V.Entry>, acc: seq<KeyedOut>, i: nat)
    requires i < |entries|
    requires EntriesFrom(kt, vt, entries, acc).Ok?
    ensures var r := EntriesFrom(kt, vt, entries, acc).value;
      r.HashMapOut? &&
      exists j :: 0 <= j < |r.entries| && ParseKey(kt, CowStr.Deref(entries[i].key)) == Some(r.entries[j].key)
    decreases |entries|
  {
    var k := ParseKey(kt, CowStr.Deref(entries[0].key)).value;
    var o := FromValue(vt, Some(entries[0].val)).value;
    var acc' := InsertOut(acc, k, o);
    if i == 0 {
      assert KeyedOut(k, o) in acc';
      KeysSurviveEntries(kt, vt, entries[1..], acc', k);
    } else {
      assert entries[1..][i - 1] == entries[i];
      EntriesKeysSpec(kt, vt, entries[1..], acc', i - 1);
    }
  }

  /** A key already in the accumulator stays there. */
  lemma {:induction false} KeysSurviveEntries(kt: KeyType, vt: Target, entries: seq<V.Entry>, acc: seq<KeyedOut>, k: Key)
    requires exists j :: 0 <= j < |acc| && acc[j].key == k
    requires EntriesFrom(kt, vt, entries, acc).Ok?
    ensures var r := EntriesFrom(kt, vt, entries, acc).value;
      r.HashMapOut? && exists j :: 0 <= j < |r.entries| && r.entries[j].key == k
    decreases |entries|
  {
    if entries != [] {
      var pk := ParseKey(kt, CowStr.Deref(entries[0].key)).value;
      var o := FromValue(vt, Some(entries[0].val)).value;
      var acc' := InsertOut(acc, pk, o);
      var j :| 0 <= j < |acc| && acc[j].key == k;
      if pk == k {
        assert KeyedOut(pk, o) in acc';
        var i :| 0 <= i < |acc'| && acc'[i] == KeyedOut(pk, o);
      } else {
        assert acc[j] in acc';
        var i :| 0 <= i < |acc'| && acc'[i] == acc[j];
      }
      KeysSurviveEntries(kt, vt, entries[1..], acc', k);
    }
  }

  /** Integer keys go through `FromStr`: an unsigned type rejects a leading `-`, and a lone sign is no number. */
  lemma ParseIntSigns(k: IntKind, s: string)
    ensures !IsSigned(k) && |s| > 0 && s[0] == '-' ==> ParseInt(k, s).None?
    ensures ParseInt(k, "+").None? && ParseInt(k, "-").None? && ParseInt(k, "").None?
    ensures ParseInt(k, "+" + s) == (if |s| > 0 && (s[0] == '+' || s[0] == '-') then None else ParseInt(k, s))
  {
    assert !AllDigits("-") by { assert "-"[0] == '-'; }
    assert "-"[1..] == [] && "+"[1..] == [];
    if |s| > 0 && !IsDigit(s[0]) {
      assert !AllDigits(s);
    }
    var t := "+" + s;
    assert t[0] == '+' && t[1..] == s;
  }
}
