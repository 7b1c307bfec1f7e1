/**
 * merde_msgpack's `MsgpackDeserializer`: a pull parser that turns a
 * MessagePack byte slice into merde events. It keeps a byte offset, a stack
 * of counters (items left in each open array, keys plus values left in each
 * open map) and a one-event put-back slot.
 *
 * `NextSpec` states what one call of `next` does to that state, on values;
 * the class's methods are proved to do exactly that, and the lemmas below
 * the class state the format's rules in terms of `NextSpec`.
 */
module Msgpack {
  import opened Wrappers
  import opened MachineInts
  import Utf8
  import CowStr
  import CowBytes
  import Float64
  import Float32
  import opened Event

  /**
   * The errors the decoder raises: running out of input, invalid UTF-8 in a
   * string, and a type byte it does not decode.
   */
  datatype MsgpackError =
    | Eof
    | InvalidUtf8(err: Utf8.Utf8Error)
    | BinaryParsingError(format: string, message: string)

  /** `StackItem`: what is left to read in an open container. */
  datatype StackItem = Array(count: nat) | Map(count: nat)

  /** The decoder's mutable fields, as a value. */
  datatype State = State(offset: nat, stack: seq<StackItem>, starter: Option<Event>)

  /** What one call returns and the state it leaves. */
  datatype Step = Step(result: Result<Event, MsgpackError>, state: State)

  // ----- big-endian integers -----

  function Pow256(n: nat): (r: nat)
    ensures r >= 1
  {
    if n == 0 then 1 else 256 * Pow256(n - 1)
  }

  /** `uN::from_be_bytes`: the most significant byte first. */
  function FromBeBytes(b: seq<byte>): (v: nat)
    ensures v < Pow256(|b|)
  {
    if b == [] then 0 else 256 * FromBeBytes(b[..|b| - 1]) + b[|b| - 1]
  }

  /** `v.to_be_bytes()` for a value of `n` bytes: the inverse of `FromBeBytes`. */
  function ToBeBytes(v: nat, n: nat): (b: seq<byte>)
    ensures |b| == n
  {
    if n == 0 then [] else ToBeBytes(v / 256, n - 1) + [(v % 256) as byte]
  }

  /** `FromBeBytes` and `ToBeBytes` are inverse on values that fit. */
  lemma {:induction false} BeBytesRoundTrip(v: nat, n: nat)
    requires v < Pow256(n)
    ensures FromBeBytes(ToBeBytes(v, n)) == v
  {
    if n > 0 {
      var b := ToBeBytes(v, n);
      DivBound(v, Pow256(n - 1));
      BeBytesRoundTrip(v / 256, n - 1);
      assert b[..n - 1] == ToBeBytes(v / 256, n - 1);
      assert b[n - 1] == v % 256;
      assert FromBeBytes(b) == 256 * (v / 256) + v % 256;
    }
  }

  lemma DivBound(v: nat, p: nat)
    requires v < 256 * p
    ensures v / 256 < p
  {
  }

  lemma {:induction false} BeBytesRoundTripBytes(b: seq<byte>)
    ensures ToBeBytes(FromBeBytes(b), |b|) == b
  {
    if b != [] {
      var front := b[..|b| - 1];
      BeBytesRoundTripBytes(front);
      var v := FromBeBytes(b);
      assert v / 256 == FromBeBytes(front) && v % 256 == b[|b| - 1];
      assert b == front + [b[|b| - 1]];
    }
  }

  /** `v as iN` for an `n`-byte unsigned `v`: two's complement. */
  function AsSigned(v: nat, n: nat): int
  {
    if n >= 1 && 2 * v >= Pow256(n) then v - Pow256(n) else v
  }

  /** The bytes that `read_u8`..`read_u64` read at `offset`, or `Eof` when fewer remain. */
  function ReadUInt(source: seq<byte>, offset: nat, n: nat): (r: Result<nat, MsgpackError>)
    ensures r.Err? <==> offset + n > |source|
    ensures r.Err? ==> r.error == Eof
    ensures r.Ok? ==> r.value < Pow256(n) && ToBeBytes(r.value, n) == source[offset..offset + n]
  {
    if offset + n > |source| then Err(Eof)
    else
      BeBytesRoundTripBytes(source[offset..offset + n]);
      Ok(FromBeBytes(source[offset..offset + n]))
  }

  /** The length field width of a `*8`/`*16`/`*32`/`*64` type: 1, 2, 4 or 8 bytes. */
  function Width(k: nat): nat
  {
    if k == 0 then 1 else if k == 1 then 2 else if k == 2 then 4 else 8
  }

  lemma Pow256Values()
    ensures Pow256(1) == 0x100 && Pow256(2) == 0x1_0000 && Pow256(4) == 0x1_0000_0000
    ensures Pow256(8) == 0x1_0000_0000_0000_0000
  {
    assert Pow256(2) == 0x1_0000;
    assert Pow256(4) == 256 * 256 * Pow256(2);
    assert Pow256(8) == 256 * 256 * 256 * 256 * Pow256(4);
  }

  // ----- one event -----

  function HexDigit(n: nat): (c: char)
    requires n < 16
    ensures '0' <= c <= '9' || 'a' <= c <= 'f'
  {
    if n < 10 then ('0' as int + n) as char else ('a' as int + n - 10) as char
  }

  /** `{byte:02x}`: two lowercase hex digits. */
  function Hex2(b: byte): (r: string)
    ensures |r| == 2 && HexValue(r[0]) * 16 + HexValue(r[1]) == b
  {
    [HexDigit(b / 16), HexDigit(b % 16)]
  }

  /** The value of a lowercase hex digit. */
  function HexValue(c: char): nat
  {
    if '0' <= c <= '9' then c as nat - '0' as nat
    else if 'a' <= c <= 'f' then c as nat - 'a' as nat + 10
    else 0
  }

  function Unsupported(b: byte): MsgpackError
  {
    if 0xd4 <= b <= 0xd8 || 0xc7 <= b <= 0xc9 then
      BinaryParsingError("msgpack", "unsupported extension type 0x" + Hex2(b))
    else BinaryParsingError("msgpack", "unsupported type 0x" + Hex2(b))
  }

  /** `read_str(len)` at `offset`: `len` bytes of UTF-8, borrowed from the input. */
  function StrRead(source: seq<byte>, offset: nat, len: nat): (r: Result<Event, MsgpackError>)
    ensures offset + len > |source| <==> r == Err(Eof)
    ensures r.Ok? <==> offset + len <= |source| && Utf8.Valid(source[offset..offset + len])
    ensures r.Ok? ==>
      r.value.Str? && r.value.s.Borrowed? && Utf8.Encode(r.value.s.text) == source[offset..offset + len]
  {
    if offset + len > |source| then Err(Eof)
    else match CowStr.FromUtf8(source[offset..offset + len])
      case Err(e) => Err(InvalidUtf8(e))
      case Ok(s) => Ok(Str(s))
  }

  /** `read_bytes(len)` at `offset`: `len` bytes, borrowed from the input. */
  function BytesRead(source: seq<byte>, offset: nat, len: nat): (r: Result<Event, MsgpackError>)
    ensures r.Err? <==> offset + len > |source|
    ensures r.Err? ==> r.error == Eof
    ensures r.Ok? ==> r == Ok(Bytes(CowBytes.Borrowed(source[offset..offset + len])))
  {
    if offset + len > |source| then Err(Eof)
    else Ok(Bytes(CowBytes.FromSlice(source[offset..offset + len])))
  }

  /** A read of `n` bytes that yields an event (or fails without moving). */
  function Fixed(r: Result<Event, MsgpackError>, offset: nat, n: nat, stack: seq<StackItem>): Step
  {
    Step(r, State(if r.Ok? then offset + n else offset, stack, None))
  }

  /** A length field of `w` bytes, then `len` bytes of payload read by `payload`. */
  function Sized(source: seq<byte>, offset: nat, w: nat, stack: seq<StackItem>, isStr: bool): Step
  {
    match ReadUInt(source, offset, w)
    case Err(e) => Step(Err(e), State(offset, stack, None))
    case Ok(len) =>
      var r := if isStr then StrRead(source, offset + w, len) else BytesRead(source, offset + w, len);
      Step(r, State(if r.Ok? then offset + w + len else offset + w, stack, None))
  }

  /** A container header whose length field is `w` bytes. */
  function Header(source: seq<byte>, offset: nat, w: nat, stack: seq<StackItem>, isMap: bool): Step
    requires w == 2 || w == 4
  {
    Pow256Values();
    match ReadUInt(source, offset, w)
    case Err(e) => Step(Err(e), State(offset, stack, None))
    case Ok(len) => Opened(len, offset + w, stack, isMap)
  }

  /** A container of `len` items opens: its counter is pushed and its size reported. */
  function Opened(len: nat, offset: nat, stack: seq<StackItem>, isMap: bool): Step
    requires len < 0x1_0000_0000
  {
    if isMap then Step(Ok(MapStart(Some(len))), State(offset, stack + [Map(2 * len)], None))
    else Step(Ok(ArrayStart(Some(len))), State(offset, stack + [Array(len)], None))
  }

  /**
   * The `match byte` of `next`, by ranges of the type byte `b`; `offset` is
   * just past it. The fix forms carry a length in their low bits, which the
   * source masks out (`byte & 0x0f`, `byte & 0x1f`) and which is `b` minus
   * the start of the range here.
   */
  function DecodeSpec(source: seq<byte>, b: byte, offset: nat, stack: seq<StackItem>): Step
  {
    if b <= 0x7f then Step(Ok(Event.U64(b)), State(offset, stack, None))
    else if b <= 0x8f then Opened(b - 0x80, offset, stack, true)
    else if b <= 0x9f then Opened(b - 0x90, offset, stack, false)
    else if b <= 0xbf then Fixed(StrRead(source, offset, b - 0xa0), offset, b - 0xa0, stack)
    else if b <= 0xdf then DecodeMarker(source, b, offset, stack)
    else Step(Ok(Event.I64(b as int - 0x100)), State(offset, stack, None))
  }

  /** The type bytes `0xc0..=0xdf`: nil, booleans, the sized forms, numbers and long containers. */
  function DecodeMarker(source: seq<byte>, b: byte, offset: nat, stack: seq<StackItem>): Step
    requires 0xc0 <= b <= 0xdf
  {
    var here := State(offset, stack, None);
    if b == 0xc0 then Step(Ok(Null), here)
    else if b == 0xc2 || b == 0xc3 then Step(Ok(Bool(b == 0xc3)), here)
    else if 0xc4 <= b <= 0xc6 then Sized(source, offset, Width(b - 0xc4), stack, false)
    else if 0xca <= b <= 0xd3 then DecodeNumber(source, b, offset, stack)
    else if 0xd9 <= b <= 0xdb then Sized(source, offset, Width(b - 0xd9), stack, true)
    else if 0xdc <= b <= 0xdf then Header(source, offset, if b == 0xdc || b == 0xde then 2 else 4, stack, b >= 0xde)
    else Step(Err(Unsupported(b)), here)
  }

  /** The width of the payload of `float 32/64`, `uint 8..64` and `int 8..64`. */
  function NumberWidth(b: byte): (w: nat)
    requires 0xca <= b <= 0xd3
    ensures w == 1 || w == 2 || w == 4 || w == 8
  {
    if b == 0xca then 4 else if b == 0xcb then 8 else if b <= 0xcf then Width(b - 0xcc) else Width(b - 0xd0)
  }

  /** The event for a fixed-width number: `f32` widened, `f64`, zero-extended or sign-extended. */
  function NumberEvent(b: byte, v: nat): Event
    requires 0xca <= b <= 0xd3 && v < Pow256(NumberWidth(b))
  {
    Pow256Values();
    if b == 0xca then F64(Float32.Widen(v))
    else if b == 0xcb then F64(Float64.F64(v))
    else if b <= 0xcf then Event.U64(v)
    else SignedFits(v, NumberWidth(b)); Event.I64(AsSigned(v, NumberWidth(b)))
  }

  function DecodeNumber(source: seq<byte>, b: byte, offset: nat, stack: seq<StackItem>): Step
    requires 0xca <= b <= 0xd3
  {
    var w := NumberWidth(b);
    var r := ReadUInt(source, offset, w);
    Fixed(if r.Ok? then Ok(NumberEvent(b, r.value)) else Err(r.error), offset, w, stack)
  }

  lemma SignedFits(v: nat, w: nat)
    requires (w == 1 || w == 2 || w == 4 || w == 8) && v < Pow256(w)
    ensures I64_MIN <= AsSigned(v, w) <= I64_MAX
  {
    Pow256Values();
  }

  /** Every counter on the stack but the top one, and the top one minus one. */
  function Decrement(stack: seq<StackItem>): seq<StackItem>
    requires stack != [] && stack[|stack| - 1].count > 0
  {
    var top := stack[|stack| - 1];
    stack[..|stack| - 1] + [if top.Array? then Array(top.count - 1) else Map(top.count - 1)]
  }

  /** The stack once the item about to be read has been counted against its container. */
  function Counted(stack: seq<StackItem>): (r: seq<StackItem>)
    requires stack == [] || stack[|stack| - 1].count > 0
    ensures |r| == |stack|
  {
    if stack == [] then [] else Decrement(stack)
  }

  /** What one call of `next` returns, and the state it leaves. */
  function NextSpec(source: seq<byte>, st: State): Step
  {
    if st.starter.Some? then Step(Ok(st.starter.value), st.(starter := None))
    else if st.stack != [] && st.stack[|st.stack| - 1].count == 0 then
      var ended := if st.stack[|st.stack| - 1].Array? then ArrayEnd else MapEnd;
      Step(Ok(ended), st.(stack := st.stack[..|st.stack| - 1]))
    else
      var stack := Counted(st.stack);
      if st.offset >= |source| then Step(Err(Eof), st.(stack := stack))
      else DecodeSpec(source, source[st.offset], st.offset + 1, stack)
  }

  // ----- the deserializer -----

  class MsgpackDeserializer {
    const source: seq<byte>
    var offset: nat
    var stack: seq<StackItem>
    var starter: Option<Event>

    function Snapshot(): State
      reads this
    {
      State(offset, stack, starter)
    }

    /** `MsgpackDeserializer::new`: at the start of the input, nothing open, nothing put back. */
    constructor(source: seq<byte>)
      ensures this.source == source && Snapshot() == State(0, [], None)
    {
      this.source := source;
      offset := 0;
      stack := [];
      starter := None;
    }

    /** `put_back`: the next call of `next` returns `event`. */
    method PutBack(event: Event) returns (r: Result<(), MsgpackError>)
      modifies this
      ensures r.Ok? && Snapshot() == old(Snapshot()).(starter := Some(event))
    {
      starter := Some(event);
      return Ok(());
    }

    /** `next`. */
    method Next() returns (r: Result<Event, MsgpackError>)
      modifies this
      ensures r == NextSpec(source, old(Snapshot())).result
      ensures Snapshot() == NextSpec(source, old(Snapshot())).state
    {
      ghost var before := Snapshot();
      if starter.Some? {
        var ev := starter.value;
        starter := None;
        return Ok(ev);
      }
      if stack != [] {
        var top := stack[|stack| - 1];
        if top.count == 0 {
          stack := stack[..|stack| - 1];
          return Ok(if top.Array? then ArrayEnd else MapEnd);
        }
        stack := Decrement(stack);
      }
      if offset >= |source| {
        return Err(Eof);
      }
      var b := source[offset];
      assert NextSpec(source, before) == DecodeSpec(source, b, offset + 1, stack);
      offset := offset + 1;
      r := DecodeByte(b);
    }

    /** The `match byte` arms, with the type byte `b` already consumed. */
    method DecodeByte(b: byte) returns (r: Result<Event, MsgpackError>)
      requires starter.None?
      modifies this
      ensures r == DecodeSpec(source, b, old(offset), old(stack)).result
      ensures Snapshot() == DecodeSpec(source, b, old(offset), old(stack)).state
    {
      if b <= 0x7f {
        return Ok(Event.U64(b));
      } else if b <= 0x8f {
        var len := b - 0x80;
        stack := stack + [Map(len * 2)];
        return Ok(MapStart(Some(len)));
      } else if b <= 0x9f {
        var len := b - 0x90;
        stack := stack + [Array(len)];
        return Ok(ArrayStart(Some(len)));
      } else if b <= 0xbf {
        r := ReadStr(b - 0xa0);
      } else if b <= 0xdf {
        r := DecodeMarkerByte(b);
      } else {
        return Ok(Event.I64(b as int - 0x100));
      }
    }

    method DecodeMarkerByte(b: byte) returns (r: Result<Event, MsgpackError>)
      requires 0xc0 <= b <= 0xdf && starter.None?
      modifies this
      ensures r == DecodeMarker(source, b, old(offset), old(stack)).result
      ensures Snapshot() == DecodeMarker(source, b, old(offset), old(stack)).state
    {
      if b == 0xc0 {
        return Ok(Null);
      } else if b == 0xc2 || b == 0xc3 {
        return Ok(Bool(b == 0xc3));
      } else if 0xc4 <= b <= 0xc6 || 0xd9 <= b <= 0xdb {
        r := ReadSized(b);
      } else if 0xca <= b <= 0xd3 {
        r := ReadNumber(b);
      } else if b == 0xdc {
        r := ReadArray16();
      } else if b == 0xdd {
        r := ReadArray32();
      } else if b == 0xde || b == 0xdf {
        r := ReadMapHeader(b);
      } else {
        return Err(Unsupported(b));
      }
    }

    /** `0xc4..=0xc6` (`read_bytes_8/16/32`) and `0xd9..=0xdb` (`read_str_8/16/32`). */
    method ReadSized(b: byte) returns (r: Result<Event, MsgpackError>)
      requires 0xc4 <= b <= 0xc6 || 0xd9 <= b <= 0xdb
      requires starter.None?
      modifies this
      ensures r == DecodeMarker(source, b, old(offset), old(stack)).result
      ensures Snapshot() == DecodeMarker(source, b, old(offset), old(stack)).state
    {
      var k := if b <= 0xc6 then b - 0xc4 else b - 0xd9;
      SizedByte(source, b, offset, stack);
      var len := ReadLength(k);
      if len.Err? {
        return Err(len.error);
      }
      if b <= 0xc6 {
        r := ReadBytes(len.value);
      } else {
        r := ReadStr(len.value);
      }
    }

    /** The length field of a sized type: `read_u8`, `read_u16` or `read_u32` by `k`. */
    method ReadLength(k: nat) returns (r: Result<nat, MsgpackError>)
      requires k <= 2
      modifies this
      ensures r == ReadUInt(source, old(offset), Width(k))
      ensures Snapshot() == old(Snapshot()).(offset := if r.Ok? then old(offset) + Width(k) else old(offset))
    {
      if k == 0 {
        r := ReadU8();
      } else if k == 1 {
        r := ReadU16();
      } else {
        r := ReadU32();
      }
    }

    /** `0xca..=0xd3`: `read_f32`, `read_f64`, `read_u8..u64` and `read_i8..i64`. */
    method ReadNumber(b: byte) returns (r: Result<Event, MsgpackError>)
      requires 0xca <= b <= 0xd3
      requires starter.None?
      modifies this
      ensures r == DecodeNumber(source, b, old(offset), old(stack)).result
      ensures Snapshot() == DecodeNumber(source, b, old(offset), old(stack)).state
    {
      if b <= 0xcb {
        r := ReadFloat(b);
      } else if b <= 0xcf {
        r := ReadUnsigned(b);
      } else {
        r := ReadSigned(b);
      }
    }

    /** `0xca` and `0xcb`: a `float 32`, widened, or a `float 64`. */
    method ReadFloat(b: byte) returns (r: Result<Event, MsgpackError>)
      requires b == 0xca || b == 0xcb
      requires starter.None?
      modifies this
      ensures r == DecodeNumber(source, b, old(offset), old(stack)).result
      ensures Snapshot() == DecodeNumber(source, b, old(offset), old(stack)).state
    {
      Pow256Values();
      if b == 0xca {
        var v := ReadU32();
        return if v.Ok? then Ok(F64(Float32.Widen(v.value))) else Err(v.error);
      } else {
        var v := ReadU64();
        return if v.Ok? then Ok(F64(Float64.F64(v.value))) else Err(v.error);
      }
    }

    /** `0xcc..=0xcf`: `uint 8..64`, zero-extended. */
    method ReadUnsigned(b: byte) returns (r: Result<Event, MsgpackError>)
      requires 0xcc <= b <= 0xcf
      requires starter.None?
      modifies this
      ensures r == DecodeNumber(source, b, old(offset), old(stack)).result
      ensures Snapshot() == DecodeNumber(source, b, old(offset), old(stack)).state
    {
      Pow256Values();
      var v;
      if b == 0xcc {
        v := ReadU8();
      } else if b == 0xcd {
        v := ReadU16();
      } else if b == 0xce {
        v := ReadU32();
      } else {
        v := ReadU64();
      }
      return if v.Ok? then Ok(Event.U64(v.value)) else Err(v.error);
    }

    /** `0xd0..=0xd3`: `int 8..64`, sign-extended. */
    method ReadSigned(b: byte) returns (r: Result<Event, MsgpackError>)
      requires 0xd0 <= b <= 0xd3
      requires starter.None?
      modifies this
      ensures r == DecodeNumber(source, b, old(offset), old(stack)).result
      ensures Snapshot() == DecodeNumber(source, b, old(offset), old(stack)).state
    {
      Pow256Values();
      ghost var u := ReadUInt(source, offset, NumberWidth(b));
      var v;
      if b == 0xd0 {
        v := ReadI8();
      } else if b == 0xd1 {
        v := ReadI16();
      } else if b == 0xd2 {
        v := ReadI32();
      } else {
        v := ReadI64();
      }
      if u.Ok? {
        SignedFits(u.value, NumberWidth(b));
      }
      return if v.Ok? then Ok(Event.I64(v.value)) else Err(v.error);
    }

    /** `0xde` and `0xdf`: a map header with a 16- or 32-bit length; the counter covers keys and values. */
    method ReadMapHeader(b: byte) returns (r: Result<Event, MsgpackError>)
      requires b == 0xde || b == 0xdf
      requires starter.None?
      modifies this
      ensures r == DecodeMarker(source, b, old(offset), old(stack)).result
      ensures Snapshot() == DecodeMarker(source, b, old(offset), old(stack)).state
    {
      Pow256Values();
      var len;
      if b == 0xde {
        len := ReadU16();
      } else {
        len := ReadU32();
      }
      if len.Err? {
        return Err(len.error);
      }
      stack := stack + [Map(len.value * 2)];
      return Ok(MapStart(Some(len.value)));
    }

    method ReadU8() returns (r: Result<nat, MsgpackError>)
      modifies this
      ensures r == ReadUInt(source, old(offset), 1)
      ensures Snapshot() == old(Snapshot()).(offset := if r.Ok? then old(offset) + 1 else old(offset))
    {
      if offset + 1 > |source| {
        return Err(Eof);
      }
      var value := source[offset];
      assert source[offset..offset + 1] == [value];
      offset := offset + 1;
      return Ok(value);
    }

    method ReadU16() returns (r: Result<nat, MsgpackError>)
      modifies this
      ensures r == ReadUInt(source, old(offset), 2)
      ensures Snapshot() == old(Snapshot()).(offset := if r.Ok? then old(offset) + 2 else old(offset))
    {
      if offset + 2 > |source| {
        return Err(Eof);
      }
      var bytes := [source[offset], source[offset + 1]];
      assert bytes == source[offset..offset + 2];
      var value := FromBeBytes(bytes);
      offset := offset + 2;
      return Ok(value);
    }

    method ReadU32() returns (r: Result<nat, MsgpackError>)
      modifies this
      ensures r == ReadUInt(source, old(offset), 4)
      ensures Snapshot() == old(Snapshot()).(offset := if r.Ok? then old(offset) + 4 else old(offset))
    {
      if offset + 4 > |source| {
        return Err(Eof);
      }
      var bytes := [source[offset], source[offset + 1], source[offset + 2], source[offset + 3]];
      assert bytes == source[offset..offset + 4];
      var value := FromBeBytes(bytes);
      offset := offset + 4;
      return Ok(value);
    }

    method ReadU64() returns (r: Result<nat, MsgpackError>)
      modifies this
      ensures r == ReadUInt(source, old(offset), 8)
      ensures Snapshot() == old(Snapshot()).(offset := if r.Ok? then old(offset) + 8 else old(offset))
    {
      if offset + 8 > |source| {
        return Err(Eof);
      }
      var bytes := [source[offset], source[offset + 1], source[offset + 2], source[offset + 3],
                    source[offset + 4], source[offset + 5], source[offset + 6], source[offset + 7]];
      assert bytes == source[offset..offset + 8];
      var value := FromBeBytes(bytes);
      offset := offset + 8;
      return Ok(value);
    }

    method ReadI8() returns (r: Result<int, MsgpackError>)
      modifies this
      ensures var u := ReadUInt(source, old(offset), 1);
        r == (if u.Ok? then Ok(AsSigned(u.value, 1)) else Err(u.error))
      ensures Snapshot() == old(Snapshot()).(offset := if r.Ok? then old(offset) + 1 else old(offset))
    {
      var u := ReadU8();
      return if u.Ok? then Ok(AsSigned(u.value, 1)) else Err(u.error);
    }

    method ReadI16() returns (r: Result<int, MsgpackError>)
      modifies this
      ensures var u := ReadUInt(source, old(offset), 2);
        r == (if u.Ok? then Ok(AsSigned(u.value, 2)) else Err(u.error))
      ensures Snapshot() == old(Snapshot()).(offset := if r.Ok? then old(offset) + 2 else old(offset))
    {
      var u := ReadU16();
      return if u.Ok? then Ok(AsSigned(u.value, 2)) else Err(u.error);
    }

    method ReadI32() returns (r: Result<int, MsgpackError>)
      modifies this
      ensures var u := ReadUInt(source, old(offset), 4);
        r == (if u.Ok? then Ok(AsSigned(u.value, 4)) else Err(u.error))
      ensures Snapshot() == old(Snapshot()).(offset := if r.Ok? then old(offset) + 4 else old(offset))
    {
      var u := ReadU32();
      return if u.Ok? then Ok(AsSigned(u.value, 4)) else Err(u.error);
    }

    method ReadI64() returns (r: Result<int, MsgpackError>)
      modifies this
      ensures var u := ReadUInt(source, old(offset), 8);
        r == (if u.Ok? then Ok(AsSigned(u.value, 8)) else Err(u.error))
      ensures Snapshot() == old(Snapshot()).(offset := if r.Ok? then old(offset) + 8 else old(offset))
    {
      var u := ReadU64();
      return if u.Ok? then Ok(AsSigned(u.value, 8)) else Err(u.error);
    }

    method ReadStr(len: nat) returns (r: Result<Event, MsgpackError>)
      modifies this
      ensures r == StrRead(source, old(offset), len)
      ensures Snapshot() == old(Snapshot()).(offset := if r.Ok? then old(offset) + len else old(offset))
    {
      if offset + len > |source| {
        return Err(Eof);
      }
      var s := CowStr.FromUtf8(source[offset..offset + len]);
      if s.Err? {
        return Err(InvalidUtf8(s.error));
      }
      offset := offset + len;
      return Ok(Str(s.value));
    }

    method ReadBytes(len: nat) returns (r: Result<Event, MsgpackError>)
      modifies this
      ensures r == BytesRead(source, old(offset), len)
      ensures Snapshot() == old(Snapshot()).(offset := if r.Ok? then old(offset) + len else old(offset))
    {
      if offset + len > |source| {
        return Err(Eof);
      }
      var bytes := source[offset..offset + len];
      offset := offset + len;
      return Ok(Bytes(CowBytes.FromSlice(bytes)));
    }

    method ReadArray16() returns (r: Result<Event, MsgpackError>)
      requires starter.None?
      modifies this
      ensures r == DecodeMarker(source, 0xdc, old(offset), old(stack)).result
      ensures Snapshot() == DecodeMarker(source, 0xdc, old(offset), old(stack)).state
    {
      var len := ReadU16();
      if len.Err? {
        return Err(len.error);
      }
      stack := stack + [Array(len.value)];
      return Ok(ArrayStart(Some(len.value)));
    }

    method ReadArray32() returns (r: Result<Event, MsgpackError>)
      requires starter.None?
      modifies this
      ensures r == DecodeMarker(source, 0xdd, old(offset), old(stack)).result
      ensures Snapshot() == DecodeMarker(source, 0xdd, old(offset), old(stack)).state
    {
      var len := ReadU32();
      if len.Err? {
        return Err(len.error);
      }
      Pow256Values();
      stack := stack + [Array(len.value)];
      return Ok(ArrayStart(Some(len.value)));
    }
  }

  // ----- what `next` promises -----

  /** `next` is about to read an item: nothing is put back and no open container is exhausted. */
  predicate Reading(st: State)
  {
    st.starter.None? && (st.stack == [] || st.stack[|st.stack| - 1].count > 0)
  }

  /** A put-back event is returned first, and nothing else changes. */
  lemma PutBackComesFirst(source: seq<byte>, st: State, e: Event)
    ensures NextSpec(source, st.(starter := Some(e))) == Step(Ok(e), st.(starter := None))
  {
  }

  /** An exhausted container is popped and closed without reading a byte. */
  lemma ExhaustedContainerEnds(source: seq<byte>, st: State)
    requires st.starter.None? && st.stack != [] && st.stack[|st.stack| - 1].count == 0
    ensures var top := st.stack[|st.stack| - 1];
      NextSpec(source, st) ==
        Step(Ok(if top.Array? then ArrayEnd else MapEnd), State(st.offset, st.stack[..|st.stack| - 1], None))
  {
  }

  /** Past the end of the input, `next` fails with `Eof` after counting the item. */
  lemma EofAtEnd(source: seq<byte>, st: State)
    requires Reading(st) && st.offset >= |source|
    ensures NextSpec(source, st) == Step(Err(Eof), State(st.offset, Counted(st.stack), None))
  {
  }

  /** Otherwise `next` counts the item and decodes the type byte at the offset. */
  lemma NextReads(source: seq<byte>, st: State)
    requires Reading(st) && st.offset < |source|
    ensures NextSpec(source, st) == DecodeSpec(source, source[st.offset], st.offset + 1, Counted(st.stack))
  {
  }

  /** Counting an item lowers the innermost counter by one and leaves the rest of the stack alone. */
  lemma CountedDecrements(stack: seq<StackItem>)
    requires stack != [] && stack[|stack| - 1].count > 0
    ensures var r := Counted(stack); var top := stack[|stack| - 1];
      && r[..|r| - 1] == stack[..|stack| - 1]
      && r[|r| - 1].count == top.count - 1
      && (r[|r| - 1].Array? <==> top.Array?)
  {
  }

  /**
   * Decoding one type byte never closes a container and never puts an event
   * back; it pushes a counter exactly when a container starts: `len` for an
   * array, `2 * len` for a map. Otherwise the stack is left alone.
   */
  lemma StackDiscipline(source: seq<byte>, b: byte, offset: nat, stack: seq<StackItem>)
    ensures var s := DecodeSpec(source, b, offset, stack);
      && s.state.starter.None?
      && s.state.offset >= offset
      && (s.result.Ok? && s.result.value.ArrayStart? ==>
            s.result.value.arrayHint.Some?
            && s.state.stack == stack + [Array(s.result.value.arrayHint.value)])
      && (s.result.Ok? && s.result.value.MapStart? ==>
            s.result.value.mapHint.Some?
            && s.state.stack == stack + [Map(2 * s.result.value.mapHint.value)])
      && (!(s.result.Ok? && (s.result.value.ArrayStart? || s.result.value.MapStart?)) ==>
            s.state.stack == stack)
      && (s.result.Ok? ==> !s.result.value.ArrayEnd? && !s.result.value.MapEnd?)
  {
    if 0xc0 <= b <= 0xdf {
      MarkerDiscipline(source, b, offset, stack);
    }
  }

  lemma MarkerDiscipline(source: seq<byte>, b: byte, offset: nat, stack: seq<StackItem>)
    requires 0xc0 <= b <= 0xdf
    ensures var s := DecodeMarker(source, b, offset, stack);
      && s.state.starter.None?
      && s.state.offset >= offset
      && (s.result.Ok? && s.result.value.ArrayStart? ==>
            s.result.value.arrayHint.Some?
            && s.state.stack == stack + [Array(s.result.value.arrayHint.value)])
      && (s.result.Ok? && s.result.value.MapStart? ==>
            s.result.value.mapHint.Some?
            && s.state.stack == stack + [Map(2 * s.result.value.mapHint.value)])
      && (!(s.result.Ok? && (s.result.value.ArrayStart? || s.result.value.MapStart?)) ==>
            s.state.stack == stack)
      && (s.result.Ok? ==> !s.result.value.ArrayEnd? && !s.result.value.MapEnd?)
  {
    if 0xca <= b <= 0xd3 {
      var r := ReadUInt(source, offset, NumberWidth(b));
      if r.Ok? {
        var e := NumberEvent(b, r.value);
        assert e.F64? || e.U64? || e.I64?;
      }
    }
  }

  /** Positive fixints are the type byte itself; negative fixints are its two's-complement value. */
  lemma FixintForms(source: seq<byte>, b: byte, offset: nat, stack: seq<StackItem>)
    requires b <= 0x7f || b >= 0xe0
    ensures DecodeSpec(source, b, offset, stack) ==
      Step(Ok(if b <= 0x7f then Event.U64(b) else Event.I64(AsSigned(b, 1))), State(offset, stack, None))
  {
  }

  /**
   * The fixed-width numbers: `uint 8..64` zero-extended to `U64`, `int
   * 8..64` sign-extended to `I64`, `float 32` widened and `float 64` as its
   * bits; all read big-endian, and a payload cut short is `Eof` without
   * moving past the type byte.
   */
  lemma NumberForms(source: seq<byte>, b: byte, offset: nat, stack: seq<StackItem>)
    requires 0xca <= b <= 0xd3
    ensures var w := NumberWidth(b);
      var s := DecodeSpec(source, b, offset, stack);
      if offset + w > |source| then s == Step(Err(Eof), State(offset, stack, None))
      else
        var v := FromBeBytes(source[offset..offset + w]);
        && s.state == State(offset + w, stack, None)
        && (b == 0xca ==> v < 0x1_0000_0000 && s.result == Ok(F64(Float32.Widen(v))))
        && (b == 0xcb ==> v < 0x1_0000_0000_0000_0000 && s.result == Ok(F64(Float64.F64(v))))
        && (0xcc <= b <= 0xcf ==> s.result == Ok(Event.U64(v)))
        && (b >= 0xd0 ==> s.result == Ok(Event.I64(AsSigned(v, w))))
  {
    var w := NumberWidth(b);
    NumberByte(source, b, offset, stack);
    if offset + w <= |source| {
      var v := FromBeBytes(source[offset..offset + w]);
      assert ReadUInt(source, offset, w) == Ok(v);
      NumberEvents(b, v);
    }
  }

  lemma NumberWidthIs(b: byte)
    requires 0xca <= b <= 0xd3
    ensures NumberWidth(b) == if b == 0xca then 4 else if b == 0xcb then 8 else Width((b - 0xcc) % 4)
  {
    if b >= 0xd0 {
      assert (b - 0xcc) % 4 == b - 0xd0;
    }
  }

  lemma NumberEvents(b: byte, v: nat)
    requires 0xca <= b <= 0xd3 && v < Pow256(NumberWidth(b))
    ensures b == 0xca ==> v < 0x1_0000_0000 && NumberEvent(b, v) == F64(Float32.Widen(v))
    ensures b == 0xcb ==> v < 0x1_0000_0000_0000_0000 && NumberEvent(b, v) == F64(Float64.F64(v))
    ensures 0xcc <= b <= 0xcf ==> NumberEvent(b, v) == Event.U64(v)
    ensures b >= 0xd0 ==> NumberEvent(b, v) == Event.I64(AsSigned(v, NumberWidth(b)))
  {
    Pow256Values();
  }

  /** The type bytes `0xc0..=0xdf` decode by `DecodeMarker`. */
  lemma MarkerByte(source: seq<byte>, b: byte, o: nat, stack: seq<StackItem>)
    requires 0xc0 <= b <= 0xdf
    ensures DecodeSpec(source, b, o, stack) == DecodeMarker(source, b, o, stack)
  {
  }

  /** `bin 8/16/32` and `str 8/16/32` decode by `Sized`, with the length field's width. */
  lemma SizedByte(source: seq<byte>, b: byte, o: nat, stack: seq<StackItem>)
    requires 0xc4 <= b <= 0xc6 || 0xd9 <= b <= 0xdb
    ensures DecodeMarker(source, b, o, stack) ==
      Sized(source, o, Width(if b <= 0xc6 then b - 0xc4 else b - 0xd9), stack, b >= 0xd9)
  {
  }

  /** The fixed-width numbers among them decode by `DecodeNumber`. */
  lemma NumberByte(source: seq<byte>, b: byte, o: nat, stack: seq<StackItem>)
    requires 0xca <= b <= 0xd3
    ensures DecodeSpec(source, b, o, stack) == DecodeNumber(source, b, o, stack)
  {
    MarkerByte(source, b, o, stack);
  }

  /** `v as iN`: the one value in the signed range that equals `v` or `v - 2^(8n)`. */
  lemma SignExtension(v: nat, n: nat)
    requires n >= 1 && v < Pow256(n)
    ensures -(Pow256(n) as int) <= 2 * AsSigned(v, n) < Pow256(n)
    ensures AsSigned(v, n) == v || AsSigned(v, n) == v - Pow256(n)
    ensures AsSigned(v, n) < 0 <==> 2 * v >= Pow256(n)
  {
  }

  /** Sign extension undoes two's-complement truncation. */
  lemma SignExtensionInverse(i: int, n: nat)
    requires n >= 1 && -(Pow256(n) as int) <= 2 * i < Pow256(n)
    ensures AsSigned(if i < 0 then i + Pow256(n) else i, n) == i
  {
  }

  /**
   * The container forms: a fixmap or fixarray carries its length in the low
   * four bits; `array 16/32` and `map 16/32` read it big-endian. A map's
   * counter covers its keys and its values.
   */
  lemma ContainerForms(source: seq<byte>, b: byte, offset: nat, stack: seq<StackItem>)
    requires 0x80 <= b <= 0x9f || 0xdc <= b <= 0xdf
    ensures var s := DecodeSpec(source, b, offset, stack);
      && (b <= 0x8f ==> s == Step(Ok(MapStart(Some(b % 16))), State(offset, stack + [Map(2 * (b % 16))], None)))
      && (0x90 <= b <= 0x9f ==>
            s == Step(Ok(ArrayStart(Some(b % 16))), State(offset, stack + [Array(b % 16)], None)))
      && (b >= 0xdc ==>
            var w := if b % 2 == 0 then 2 else 4;
            if offset + w > |source| then s == Step(Err(Eof), State(offset, stack, None))
            else
              var len := FromBeBytes(source[offset..offset + w]);
              if b <= 0xdd then s == Step(Ok(ArrayStart(Some(len))), State(offset + w, stack + [Array(len)], None))
              else s == Step(Ok(MapStart(Some(len))), State(offset + w, stack + [Map(2 * len)], None)))
  {
    if b >= 0xdc {
      assert DecodeSpec(source, b, offset, stack) == DecodeMarker(source, b, offset, stack);
    }
  }

  /** A fixstr carries its length in the low five bits and is followed by that many bytes of UTF-8. */
  lemma FixStrForm(source: seq<byte>, b: byte, offset: nat, stack: seq<StackItem>)
    requires 0xa0 <= b <= 0xbf
    ensures var s := DecodeSpec(source, b, offset, stack);
      && s.result == StrRead(source, offset, b % 32)
      && s.state == State(if s.result.Ok? then offset + b % 32 else offset, stack, None)
  {
    assert b % 32 == b - 0xa0;
    assert DecodeSpec(source, b, offset, stack) == Fixed(StrRead(source, offset, b - 0xa0), offset, b - 0xa0, stack);
  }

  /**
   * `str 8/16/32` and `bin 8/16/32` read a 1-, 2- or 4-byte length and then
   * take exactly that many bytes, borrowed from the input; a cut-short length
   * is `Eof` right after the type byte, a cut-short payload `Eof` after the length.
   */
  lemma SizedForms(source: seq<byte>, b: byte, offset: nat, stack: seq<StackItem>)
    requires 0xc4 <= b <= 0xc6 || 0xd9 <= b <= 0xdb
    ensures var s := DecodeSpec(source, b, offset, stack);
      var w := if b >= 0xd9 then Width(b - 0xd9) else Width(b - 0xc4);
      && s.state.stack == stack && s.state.starter.None?
      && if offset + w > |source| then s.result == Err(Eof) && s.state.offset == offset
         else
           var len := FromBeBytes(source[offset..offset + w]);
           && s.result == (if b >= 0xd9 then StrRead(source, offset + w, len) else BytesRead(source, offset + w, len))
           && s.state.offset == if s.result.Ok? then offset + w + len else offset + w
  {
    var w := if b >= 0xd9 then Width(b - 0xd9) else Width(b - 0xc4);
    assert DecodeSpec(source, b, offset, stack) == Sized(source, offset, w, stack, b >= 0xd9);
  }

  /** Extension types and the never-used byte are refused with a message naming the byte. */
  lemma UnsupportedForms(source: seq<byte>, b: byte, offset: nat, stack: seq<StackItem>)
    ensures var s := DecodeSpec(source, b, offset, stack);
      && ((0xd4 <= b <= 0xd8 || 0xc7 <= b <= 0xc9) ==>
            s.result == Err(BinaryParsingError("msgpack", "unsupported extension type 0x" + Hex2(b))))
      && (b == 0xc1 ==> s.result == Err(BinaryParsingError("msgpack", "unsupported type 0x" + Hex2(b))))
      && (s.result.Err? && s.result.error.BinaryParsingError? <==> 0xc7 <= b <= 0xc9 || 0xd4 <= b <= 0xd8 || b == 0xc1)
  {
    if 0xc0 <= b <= 0xdf {
      MarkerByte(source, b, offset, stack);
    }
  }
}
