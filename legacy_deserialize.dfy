/**
 * The older `ValueDeserialize` of merde-core. It covers fewer target types
 * than merde_core's (no `isize`, no `Box`/`Rc`/`Arc`, no tuples) and its
 * `InvalidKey` error carries no payload; otherwise each impl makes the same
 * decisions, which `LegacyAgrees` proves against the newer model.
 *
 * Values and errors reuse merde_core's `Value` and `MerdeError`: the
 * variants merde-core's deserializers use (`Int`, `Float`, `Str`, `Null`,
 * `Bool`, `Array`, `Map`; `MissingValue`, `MismatchedType`, `OutOfRange`,
 * `InvalidKey`) have the same shapes in both, and only `InvalidKey`'s
 * payload differs, which `Legacy` and `LegacyAgrees` account for.
 */
module LegacyDeserialize {
  import opened Wrappers
  import opened MachineInts
  import CowStr
  import StdCow
  import V = Value
  import D = Deserialize

  /** merde-core has no `isize` impl. */
  type LegacyIntKind = k: IntKind | k != Isize witness U8

  /** Target types with an impl in merde-core. */
  datatype LegacyTarget =
    | CowStrT
    | CowT
    | StringT
    | IntT(kind: LegacyIntKind)
    | BoolT
    | OptionT(inner: LegacyTarget)
    | VecT(elem: LegacyTarget)
    | HashMapT(key: D.KeyType, val: LegacyTarget)
    | ValueT
    | ArrayT
    | MapT

  /** The same type as a target of the newer crate. */
  function Embed(t: LegacyTarget): (r: D.Target)
    ensures !r.SmartPtrT? && !r.TupleT?
  {
    match t
    case CowStrT => D.CowStrT
    case CowT => D.CowT
    case StringT => D.StringT
    case IntT(k) => D.IntT(k)
    case BoolT => D.BoolT
    case OptionT(inner) => D.OptionT(Embed(inner))
    case VecT(elem) => D.VecT(Embed(elem))
    case HashMapT(kt, vt) => D.HashMapT(kt, Embed(vt))
    case ValueT => D.ValueT
    case ArrayT => D.ArrayT
    case MapT => D.MapT
  }

  /** `T::from_value_ref(value)` (and, through the default, `from_value`) for merde-core. */
  function FromValue(t: LegacyTarget, v: Option<V.Value>): Result<D.Out, V.MerdeError>
    decreases t, 0
  {
    match t
    case CowStrT =>
      (match v
       case Some(Str(s)) => Ok(D.CowStrOut(s))
       case Some(x) => D.Mismatch(V.StringType, x)
       case None => Err(V.MissingValue))
    case CowT =>
      (match v
       case Some(Str(s)) => Ok(D.CowOut(if s.Borrowed? then StdCow.Borrowed(s.text) else StdCow.Owned(s.text)))
       case Some(x) => D.Mismatch(V.StringType, x)
       case None => Err(V.MissingValue))
    case StringT =>
      (match v
       case Some(Str(s)) => Ok(D.StringOut(CowStr.IntoString(s)))
       case Some(x) => D.Mismatch(V.StringType, x)
       case None => Err(V.MissingValue))
    case IntT(k) => D.IntFrom(k, v)
    case BoolT =>
      (match v
       case Some(Bool(b)) => Ok(D.BoolOut(b))
       case Some(x) => D.Mismatch(V.BoolType, x)
       case None => Err(V.MissingValue))
    case OptionT(inner) =>
      (match v
       case Some(Null) => Ok(D.NoneOut)
       case Some(x) =>
         (match FromValue(inner, Some(x)) case Ok(o) => Ok(D.SomeOut(o)) case Err(e) => Err(e))
       case None => Ok(D.NoneOut))
    case VecT(elem) =>
      (match v
       case Some(Array(a)) => ElementsFrom(elem, a.items)
       case Some(x) => D.Mismatch(V.ArrayType, x)
       case None => Err(V.MissingValue))
    case HashMapT(kt, vt) =>
      (match v
       case Some(Map(m)) => EntriesFrom(kt, vt, m.entries, [])
       case Some(x) => D.Mismatch(V.MapType, x)
       case None => Err(V.MissingValue))
    case ValueT =>
      (match v
       case Some(x) => Ok(D.ValueOut(x))
       case None => Err(V.MissingValue))
    case ArrayT =>
      (match v
       case Some(Array(a)) => Ok(D.ArrayOut(a))
       case Some(x) => D.Mismatch(V.ArrayType, x)
       case None => Err(V.MissingValue))
    case MapT =>
      (match v
       case Some(Map(m)) => Ok(D.MapOut(m))
       case Some(x) => D.Mismatch(V.MapType, x)
       case None => Err(V.MissingValue))
  }

  function ElementsFrom(elem: LegacyTarget, items: seq<V.Value>): Result<D.Out, V.MerdeError>
    decreases elem, 1, |items|
  {
    if items == [] then Ok(D.VecOut([]))
    else match FromValue(elem, Some(items[0]))
      case Err(e) => Err(e)
      case Ok(o) =>
        match ElementsFrom(elem, items[1..])
        case Err(e) => Err(e)
        case Ok(rest) => Ok(D.VecOut([o] + rest.items))
  }

  /** The `HashMap` loop: a key that `FromStr` rejects is a bare `InvalidKey`. */
  function EntriesFrom(kt: D.KeyType, vt: LegacyTarget, entries: seq<V.Entry>, acc: seq<D.KeyedOut>): Result<D.Out, V.MerdeError>
    decreases vt, 1, |entries|
  {
    if entries == [] then Ok(D.HashMapOut(acc))
    else match D.ParseKey(kt, CowStr.Deref(entries[0].key))
      case None => Err(V.InvalidKey)
      case Some(k) =>
        match FromValue(vt, Some(entries[0].val))
        case Err(e) => Err(e)
        case Ok(o) => EntriesFrom(kt, vt, entries[1..], D.InsertOut(acc, k, o))
  }

  /** The `HashMap` impl's `for` loop over the entries, inserting into a local map. */
  method DeserializeHashMap(kt: D.KeyType, vt: LegacyTarget, obj: V.Map) returns (r: Result<D.Out, V.MerdeError>)
    ensures r == FromValue(HashMapT(kt, vt), Some(V.Map(obj)))
  {
    var entries := obj.entries;
    assert FromValue(HashMapT(kt, vt), Some(V.Map(obj))) == EntriesFrom(kt, vt, entries, []);
    assert entries[0..] == entries;
    var filled: seq<D.KeyedOut> := [];
    var i := 0;
    while i < |entries|
      invariant 0 <= i <= |entries|
      invariant EntriesFrom(kt, vt, entries[i..], filled) == EntriesFrom(kt, vt, entries, [])
    {
      var entry := entries[i];
      EntriesStep(kt, vt, entries, i, filled);
      var parsedKey := D.ParseKey(kt, CowStr.Deref(entry.key));
      if parsedKey.None? {
        return Err(V.InvalidKey);
      }
      var parsedValue := FromValue(vt, Some(entry.val));
      if parsedValue.Err? {
        return Err(parsedValue.error);
      }
      filled := D.InsertOut(filled, parsedKey.value, parsedValue.value);
      i := i + 1;
    }
    return Ok(D.HashMapOut(filled));
  }

  /** The `HashMap` loop's step on entry `i`. */
  lemma EntriesStep(kt: D.KeyType, vt: LegacyTarget, entries: seq<V.Entry>, i: nat, acc: seq<D.KeyedOut>)
    requires i < |entries|
    ensures EntriesFrom(kt, vt, entries[i..], acc) ==
      match D.ParseKey(kt, CowStr.Deref(entries[i].key))
      case None => Err(V.InvalidKey)
      case Some(k) =>
        match FromValue(vt, Some(entries[i].val))
        case Err(e) => Err(e)
        case Ok(o) => EntriesFrom(kt, vt, entries[i + 1..], D.InsertOut(acc, k, o))
  {
    assert entries[i..][0] == entries[i] && entries[i..][1..] == entries[i + 1..];
  }

  /** merde-core's error for the same failure: `InvalidKey` loses its payload. */
  function Legacy(r: Result<D.Out, V.MerdeError>): Result<D.Out, V.MerdeError>
  {
    match r
    case Err(InvalidKeyWith(_, _)) => Err(V.InvalidKey)
    case _ => r
  }

  /**
   * For every target both crates support, merde-core decides exactly as
   * merde_core does, except that a rejected key is reported without the key
   * and the key type's name.
   */
  lemma {:induction false} LegacyAgrees(t: LegacyTarget, v: Option<V.Value>)
    ensures FromValue(t, v) == Legacy(D.FromValue(Embed(t), v))
    decreases t, 0
  {
    match t
    case OptionT(inner) =>
      if v.Some? && !v.value.Null? { LegacyAgrees(inner, v); }
    case VecT(elem) =>
      if v.Some? && v.value.Array? { ElementsAgree(elem, v.value.arr.items); }
    case HashMapT(kt, vt) =>
      if v.Some? && v.value.Map? { EntriesAgree(kt, vt, v.value.mapping.entries, []); }
    case IntT(k) => IntAgrees(t, v);
    case CowStrT => TextAgrees(t, v);
    case CowT => TextAgrees(t, v);
    case StringT => TextAgrees(t, v);
    case _ => WholeAgrees(t, v);
  }

  /** The integer targets share `IntFrom`. */
  lemma IntAgrees(t: LegacyTarget, v: Option<V.Value>)
    requires t.IntT?
    ensures FromValue(t, v) == Legacy(D.FromValue(Embed(t), v))
  {
  }

  /** The string targets. */
  lemma TextAgrees(t: LegacyTarget, v: Option<V.Value>)
    requires t.CowStrT? || t.CowT? || t.StringT?
    ensures FromValue(t, v) == Legacy(D.FromValue(Embed(t), v))
  {
  }

  /** `bool` and the `Value`, `Array` and `Map` targets. */
  lemma WholeAgrees(t: LegacyTarget, v: Option<V.Value>)
    requires t.BoolT? || t.ValueT? || t.ArrayT? || t.MapT?
    ensures FromValue(t, v) == Legacy(D.FromValue(Embed(t), v))
  {
  }

  lemma {:induction false} ElementsAgree(elem: LegacyTarget, items: seq<V.Value>)
    ensures ElementsFrom(elem, items) == Legacy(D.ElementsFrom(Embed(elem), items))
    decreases elem, 1, |items|
  {
    if items != [] {
      LegacyAgrees(elem, Some(items[0]));
      ElementsAgree(elem, items[1..]);
    }
  }

  lemma {:induction false} EntriesAgree(kt: D.KeyType, vt: LegacyTarget, entries: seq<V.Entry>, acc: seq<D.KeyedOut>)
    ensures EntriesFrom(kt, vt, entries, acc) == Legacy(D.EntriesFrom(kt, Embed(vt), entries, acc))
    decreases vt, 1, |entries|
  {
    if entries != [] {
      LegacyAgrees(vt, Some(entries[0].val));
      var k := D.ParseKey(kt, CowStr.Deref(entries[0].key));
      if k.Some? {
        var o := FromValue(vt, Some(entries[0].val));
        if o.Ok? {
          EntriesAgree(kt, vt, entries[1..], D.InsertOut(acc, k.value, o.value));
        }
      }
    }
  }

  /** `usize` accepts exactly the non-negative integers. */
  lemma UsizeAcceptsNonNegative(n: i64)
    ensures FromValue(IntT(Usize), Some(V.Int(n))) == (if n >= 0 then Ok(D.IntOut(n as int)) else Err(V.OutOfRange))
  {
  }

  /**
   * A map with a key the key type cannot parse fails with `InvalidKey`
   * when that key is the first entry, whatever its value.
   */
  lemma BadFirstKey(kt: D.KeyType, vt: LegacyTarget, e: V.Entry, rest: seq<V.Entry>)
    requires D.ParseKey(kt, CowStr.Deref(e.key)).None?
    ensures FromValue(HashMapT(kt, vt), Some(V.Map(V.MapOf([e] + rest)))) == Err(V.InvalidKey)
  {
    assert ([e] + rest)[0] == e;
  }
}
