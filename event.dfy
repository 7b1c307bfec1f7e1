/**
 * `Event` of merde_core: the flat token stream that serializers consume and
 * deserializers produce, with its `From` conversions, the content-less
 * `EventType`, and the `into_*` accessors.
 */
module Event {
  import opened Wrappers
  import MachineInts
  import CowStr
  import CowBytes
  import Float64
  import StdCow

  datatype Event =
    | I64(i: MachineInts.i64)
    | U64(u: MachineInts.u64)
    | F64(f: Float64.F64)
    | Str(s: CowStr.CowStr)
    | Bytes(bytes: CowBytes.CowBytes)
    | Bool(flag: bool)
    | Null
    | MapStart(mapHint: Option<MachineInts.usize>)
    | MapEnd
    | ArrayStart(arrayHint: Option<MachineInts.usize>)
    | ArrayEnd

  datatype EventType = I64T | U64T | FloatT | StrT | BytesT | BoolT | NullT | MapStartT | MapEndT | ArrayStartT | ArrayEndT

  /** `MerdeError::UnexpectedEvent`, the only error the accessors raise. */
  datatype EventError = UnexpectedEvent(got: EventType, expected: seq<EventType>)

  /** `From<&Event> for EventType`. */
  function TypeOf(e: Event): EventType
  {
    match e
    case I64(_) => I64T
    case U64(_) => U64T
    case F64(_) => FloatT
    case Str(_) => StrT
    case Bytes(_) => BytesT
    case Bool(_) => BoolT
    case Null => NullT
    case MapStart(_) => MapStartT
    case MapEnd => MapEndT
    case ArrayStart(_) => ArrayStartT
    case ArrayEnd => ArrayEndT
  }

  /** `From<i8..i64>`, `From<u8..u64>` and `From<isize>`/`From<usize>`: signed to `I64`, unsigned to `U64`. */
  function FromInt(k: MachineInts.IntKind, x: int): (r: Event)
    requires MachineInts.Fits(k, x)
    ensures MachineInts.IsSigned(k) ==> r == I64(x)
    ensures !MachineInts.IsSigned(k) ==> r == U64(x)
  {
    if MachineInts.IsSigned(k) then I64(x) else U64(x)
  }

  function FromF64(f: Float64.F64): Event
  {
    F64(f)
  }

  function FromBool(b: bool): Event
  {
    Bool(b)
  }

  /** `From<&str>`: a borrowed string event. */
  function FromStr(s: string): (r: Event)
    ensures r.Str? && r.s.Borrowed? && CowStr.Deref(r.s) == s
  {
    Str(CowStr.FromStr(s))
  }

  /** `From<String>`: an owned string event. */
  function FromString(s: string): (r: Event)
    ensures r.Str? && r.s.Owned? && CowStr.Deref(r.s) == s
  {
    Str(CowStr.FromString(s))
  }

  /** `From<Cow<str>>`: the borrow variant carries over. */
  function FromCow(c: StdCow.Cow<string>): (r: Event)
    ensures r.Str? && (r.s.Borrowed? <==> c.Borrowed?) && CowStr.Deref(r.s) == c.val
  {
    Str(CowStr.FromCow(c))
  }

  /** `From<&[u8]>`. */
  function FromSlice(b: seq<MachineInts.byte>): (r: Event)
    ensures r.Bytes? && r.bytes.Borrowed? && CowBytes.Deref(r.bytes) == b
  {
    Bytes(CowBytes.FromSlice(b))
  }

  /** `From<Vec<u8>>`. */
  function FromVec(b: seq<MachineInts.byte>): (r: Event)
    ensures r.Bytes? && r.bytes.Owned? && CowBytes.Deref(r.bytes) == b
  {
    Bytes(CowBytes.FromVec(b))
  }

  /** `From<CowBytes>` passes the bytes through untouched. */
  function FromCowBytes(b: CowBytes.CowBytes): (r: Event)
    ensures r.Bytes? && r.bytes == b
  {
    Bytes(b)
  }

  function Unexpected<T>(e: Event, want: EventType): Result<T, EventError>
  {
    Err(UnexpectedEvent(TypeOf(e), [want]))
  }

  function IntoI64(e: Event): (r: Result<MachineInts.i64, EventError>)
    ensures r.Ok? <==> TypeOf(e) == I64T
    ensures r.Err? ==> r.error == UnexpectedEvent(TypeOf(e), [I64T])
  {
    if e.I64? then Ok(e.i) else Unexpected(e, I64T)
  }

  function IntoU64(e: Event): (r: Result<MachineInts.u64, EventError>)
    ensures r.Ok? <==> TypeOf(e) == U64T
    ensures r.Err? ==> r.error == UnexpectedEvent(TypeOf(e), [U64T])
  {
    if e.U64? then Ok(e.u) else Unexpected(e, U64T)
  }

  function IntoF64(e: Event): (r: Result<Float64.F64, EventError>)
    ensures r.Ok? <==> TypeOf(e) == FloatT
    ensures r.Err? ==> r.error == UnexpectedEvent(TypeOf(e), [FloatT])
  {
    if e.F64? then Ok(e.f) else Unexpected(e, FloatT)
  }

  function IntoStr(e: Event): (r: Result<CowStr.CowStr, EventError>)
    ensures r.Ok? <==> TypeOf(e) == StrT
    ensures r.Err? ==> r.error == UnexpectedEvent(TypeOf(e), [StrT])
  {
    if e.Str? then Ok(e.s) else Unexpected(e, StrT)
  }

  function IntoBytes(e: Event): (r: Result<CowBytes.CowBytes, EventError>)
    ensures r.Ok? <==> TypeOf(e) == BytesT
    ensures r.Err? ==> r.error == UnexpectedEvent(TypeOf(e), [BytesT])
  {
    if e.Bytes? then Ok(e.bytes) else Unexpected(e, BytesT)
  }

  function IntoBool(e: Event): (r: Result<bool, EventError>)
    ensures r.Ok? <==> TypeOf(e) == BoolT
    ensures r.Err? ==> r.error == UnexpectedEvent(TypeOf(e), [BoolT])
  {
    if e.Bool? then Ok(e.flag) else Unexpected(e, BoolT)
  }

  function IntoNull(e: Event): (r: Result<(), EventError>)
    ensures r.Ok? <==> TypeOf(e) == NullT
    ensures r.Err? ==> r.error == UnexpectedEvent(TypeOf(e), [NullT])
  {
    if e.Null? then Ok(()) else Unexpected(e, NullT)
  }

  function IntoMapStart(e: Event): (r: Result<Option<MachineInts.usize>, EventError>)
    ensures r.Ok? <==> TypeOf(e) == MapStartT
    ensures r.Err? ==> r.error == UnexpectedEvent(TypeOf(e), [MapStartT])
  {
    if e.MapStart? then Ok(e.mapHint) else Unexpected(e, MapStartT)
  }

  function IntoMapEnd(e: Event): (r: Result<(), EventError>)
    ensures r.Ok? <==> TypeOf(e) == MapEndT
    ensures r.Err? ==> r.error == UnexpectedEvent(TypeOf(e), [MapEndT])
  {
    if e.MapEnd? then Ok(()) else Unexpected(e, MapEndT)
  }

  function IntoArrayStart(e: Event): (r: Result<Option<MachineInts.usize>, EventError>)
    ensures r.Ok? <==> TypeOf(e) == ArrayStartT
    ensures r.Err? ==> r.error == UnexpectedEvent(TypeOf(e), [ArrayStartT])
  {
    if e.ArrayStart? then Ok(e.arrayHint) else Unexpected(e, ArrayStartT)
  }

  function IntoArrayEnd(e: Event): (r: Result<(), EventError>)
    ensures r.Ok? <==> TypeOf(e) == ArrayEndT
    ensures r.Err? ==> r.error == UnexpectedEvent(TypeOf(e), [ArrayEndT])
  {
    if e.ArrayEnd? then Ok(()) else Unexpected(e, ArrayEndT)
  }

  /** `EventType::from` tells the variants apart: two events have the same type exactly when they are the same variant. */
  lemma TypeOfSeparatesVariants(a: Event, b: Event)
    ensures TypeOf(a) == TypeOf(b) <==>
      (a.I64? && b.I64?) || (a.U64? && b.U64?) || (a.F64? && b.F64?) || (a.Str? && b.Str?) ||
      (a.Bytes? && b.Bytes?) || (a.Bool? && b.Bool?) || (a.Null? && b.Null?) ||
      (a.MapStart? && b.MapStart?) || (a.MapEnd? && b.MapEnd?) ||
      (a.ArrayStart? && b.ArrayStart?) || (a.ArrayEnd? && b.ArrayEnd?)
  {
    match a
    case I64(_) => case U64(_) => case F64(_) => case Str(_) => case Bytes(_) => case Bool(_) =>
    case Null => case MapStart(_) => case MapEnd => case ArrayStart(_) => case ArrayEnd =>
  }

  /** Every `EventType` is the type of some event. */
  lemma TypeOfCoversEveryType(t: EventType)
    ensures exists e :: TypeOf(e) == t
  {
    var w := match t
      case I64T => I64(0) case U64T => U64(0) case FloatT => F64(Float64.F64(0))
      case StrT => Str(CowStr.Borrowed("")) case BytesT => Bytes(CowBytes.Borrowed([]))
      case BoolT => Bool(false) case NullT => Null case MapStartT => MapStart(None)
      case MapEndT => MapEnd case ArrayStartT => ArrayStart(None) case ArrayEndT => ArrayEnd;
    assert TypeOf(w) == t;
  }

  /** Each conversion into an event is undone by the matching accessor. */
  lemma FromThenInto(k: MachineInts.IntKind, x: int, f: Float64.F64, b: bool, s: string, c: CowBytes.CowBytes)
    requires MachineInts.Fits(k, x)
    ensures MachineInts.IsSigned(k) ==> IntoI64(FromInt(k, x)) == Ok(x)
    ensures !MachineInts.IsSigned(k) ==> IntoU64(FromInt(k, x)) == Ok(x)
    ensures IntoF64(FromF64(f)) == Ok(f) && IntoBool(FromBool(b)) == Ok(b)
    ensures IntoStr(FromStr(s)) == Ok(CowStr.Borrowed(s)) && IntoStr(FromString(s)) == Ok(CowStr.Owned(s))
    ensures IntoBytes(FromCowBytes(c)) == Ok(c)
    ensures IntoNull(FromBool(b)) == Err(UnexpectedEvent(BoolT, [NullT]))
  {
  }
}
