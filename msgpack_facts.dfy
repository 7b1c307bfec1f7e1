/**
 * The MessagePack deserializer against a reference writer: `Encode` writes
 * a value in the shortest form the MessagePack format allows, and `Events`
 * lists the merde events that value stands for. Reading an encoding with
 * `next` again and again yields exactly those events, consumes exactly the
 * encoding, and leaves the counter stack as it found it.
 */
module MsgpackFacts {
  import opened Wrappers
  import opened MachineInts
  import Utf8
  import CowStr
  import CowBytes
  import opened Event
  import opened Msgpack

  /** A MessagePack value. A `Dict` lists its keys and values alternately. */
  datatype Msg =
    | Nil
    | Boolean(flag: bool)
    | UInt(u: u64)
    | NegInt(i: i64)
    | Text(text: string)
    | Binary(data: seq<byte>)
    | List(items: seq<Msg>)
    | Dict(items: seq<Msg>)

  /** What the format can represent: lengths below 2^32, negative `NegInt`s, whole key/value pairs. */
  predicate WellFormed(m: Msg)
    decreases m
  {
    match m
    case NegInt(i) => i < 0
    case Text(t) => |Utf8.Encode(t)| < 0x1_0000_0000
    case Binary(d) => |d| < 0x1_0000_0000
    case List(items) => |items| < 0x1_0000_0000 && AllWellFormed(items)
    case Dict(items) => |items| % 2 == 0 && |items| / 2 < 0x1_0000_0000 && AllWellFormed(items)
    case _ => true
  }

  predicate AllWellFormed(ms: seq<Msg>)
    decreases ms
  {
    ms == [] || (WellFormed(ms[0]) && AllWellFormed(ms[1..]))
  }

  // ----- the reference writer -----

  /** A type byte followed by a `w`-byte big-endian field. */
  function Tagged(tag: byte, v: nat, w: nat): seq<byte>
  {
    [tag] + ToBeBytes(v, w)
  }

  function EncodeUInt(v: u64): seq<byte>
  {
    if v < 0x80 then [v as byte]
    else if v < 0x100 then Tagged(0xcc, v, 1)
    else if v < 0x1_0000 then Tagged(0xcd, v, 2)
    else if v < 0x1_0000_0000 then Tagged(0xce, v, 4)
    else Tagged(0xcf, v, 8)
  }

  function EncodeNegInt(i: i64): seq<byte>
    requires i < 0
  {
    if i >= -32 then [(i + 0x100) as byte]
    else if i >= -0x80 then Tagged(0xd0, i + 0x100, 1)
    else if i >= -0x8000 then Tagged(0xd1, i + 0x1_0000, 2)
    else if i >= -0x8000_0000 then Tagged(0xd2, i + 0x1_0000_0000, 4)
    else Tagged(0xd3, i + 0x1_0000_0000_0000_0000, 8)
  }

  function StrHeader(n: nat): seq<byte>
    requires n < 0x1_0000_0000
  {
    if n < 32 then [(0xa0 + n) as byte]
    else if n < 0x100 then Tagged(0xd9, n, 1)
    else if n < 0x1_0000 then Tagged(0xda, n, 2)
    else Tagged(0xdb, n, 4)
  }

  function BinHeader(n: nat): seq<byte>
    requires n < 0x1_0000_0000
  {
    if n < 0x100 then Tagged(0xc4, n, 1)
    else if n < 0x1_0000 then Tagged(0xc5, n, 2)
    else Tagged(0xc6, n, 4)
  }

  function ArrayHeader(n: nat): seq<byte>
    requires n < 0x1_0000_0000
  {
    if n < 16 then [(0x90 + n) as byte]
    else if n < 0x1_0000 then Tagged(0xdc, n, 2)
    else Tagged(0xdd, n, 4)
  }

  function MapHeader(n: nat): seq<byte>
    requires n < 0x1_0000_0000
  {
    if n < 16 then [(0x80 + n) as byte]
    else if n < 0x1_0000 then Tagged(0xde, n, 2)
    else Tagged(0xdf, n, 4)
  }

  function Encode(m: Msg): seq<byte>
    requires WellFormed(m)
    decreases m
  {
    match m
    case Nil => [0xc0]
    case Boolean(f) => [if f then 0xc3 else 0xc2]
    case UInt(v) => EncodeUInt(v)
    case NegInt(i) => EncodeNegInt(i)
    case Text(t) => StrHeader(|Utf8.Encode(t)|) + Utf8.Encode(t)
    case Binary(d) => BinHeader(|d|) + d
    case List(items) => ArrayHeader(|items|) + EncodeAll(items)
    case Dict(items) => MapHeader(|items| / 2) + EncodeAll(items)
  }

  function EncodeAll(ms: seq<Msg>): seq<byte>
    requires AllWellFormed(ms)
    decreases ms
  {
    if ms == [] then [] else Encode(ms[0]) + EncodeAll(ms[1..])
  }

  /** The events a value stands for: scalars are one event, containers are bracketed. */
  function Events(m: Msg): seq<Event>
    requires WellFormed(m)
    decreases m
  {
    match m
    case Nil => [Null]
    case Boolean(f) => [Bool(f)]
    case UInt(v) => [Event.U64(v)]
    case NegInt(i) => [Event.I64(i)]
    case Text(t) => [Str(CowStr.Borrowed(t))]
    case Binary(d) => [Bytes(CowBytes.Borrowed(d))]
    case List(items) => [ArrayStart(Some(|items|))] + EventsAll(items) + [ArrayEnd]
    case Dict(items) => [MapStart(Some(|items| / 2))] + EventsAll(items) + [MapEnd]
  }

  function EventsAll(ms: seq<Msg>): seq<Event>
    requires AllWellFormed(ms)
    decreases ms
  {
    if ms == [] then [] else Events(ms[0]) + EventsAll(ms[1..])
  }

  // ----- running the deserializer -----

  datatype Trace = Trace(events: seq<Event>, state: State)

  /** `n` calls of a step function: the events returned and the final state, or `None` if one fails. */
  function RunWith(next: State -> Step, st: State, n: nat): Option<Trace>
    decreases n
  {
    if n == 0 then Some(Trace([], st))
    else
      var s := next(st);
      if s.result.Err? then None
      else
        var rest := RunWith(next, s.state, n - 1);
        if rest.None? then None else Some(Trace([s.result.value] + rest.value.events, rest.value.state))
  }

  /** One call of `next` on `source`. */
  function Next(source: seq<byte>): State -> Step
  {
    st => NextSpec(source, st)
  }

  /** `n` calls of `next` on `source`. */
  function Run(source: seq<byte>, st: State, n: nat): Option<Trace>
  {
    RunWith(Next(source), st, n)
  }

  lemma {:induction false} RunWithAppend(next: State -> Step, st: State, a: nat, b: nat, mid: Trace, last: Trace)
    requires RunWith(next, st, a) == Some(mid) && RunWith(next, mid.state, b) == Some(last)
    ensures RunWith(next, st, a + b) == Some(Trace(mid.events + last.events, last.state))
    decreases a
  {
    if a > 0 {
      RunWithAppendStep(next, st, a, b, mid, last);
    } else {
      assert mid == Trace([], st);
      assert [] + last.events == last.events;
    }
  }

  lemma {:induction false} RunWithAppendStep(next: State -> Step, st: State, a: nat, b: nat, mid: Trace, last: Trace)
    requires a > 0 && RunWith(next, st, a) == Some(mid) && RunWith(next, mid.state, b) == Some(last)
    ensures RunWith(next, st, a + b) == Some(Trace(mid.events + last.events, last.state))
    decreases a, 0
  {
    var s := next(st);
    var rest := RunWith(next, s.state, a - 1).value;
    var e := s.result.value;
    RunWithAppend(next, s.state, a - 1, b, rest, last);
    assert mid.events + last.events == [e] + (rest.events + last.events);
  }

  lemma RunWithOne(next: State -> Step, st: State, e: Event, after: State)
    requires next(st) == Step(Ok(e), after)
    ensures RunWith(next, st, 1) == Some(Trace([e], after))
  {
    assert RunWith(next, after, 0) == Some(Trace([], after));
    assert [e] + [] == [e];
  }

  /** An opening step, a run, and a closing step make one run. */
  lemma RunWithBracket(next: State -> Step, st: State, start: Event, inside: State, body: Trace, end: Event,
                       after: State)
    requires next(st) == Step(Ok(start), inside)
    requires RunWith(next, inside, |body.events|) == Some(body)
    requires next(body.state) == Step(Ok(end), after)
    ensures RunWith(next, st, |body.events| + 2) == Some(Trace([start] + body.events + [end], after))
  {
    RunWithOne(next, st, start, inside);
    RunWithAppend(next, st, 1, |body.events|, Trace([start], inside), body);
    RunWithOne(next, body.state, end, after);
    RunWithAppend(next, st, 1 + |body.events|, 1, Trace([start] + body.events, body.state), Trace([end], after));
  }

  /** `bytes` lies in `source` at `offset`. */
  predicate At(source: seq<byte>, offset: nat, bytes: seq<byte>)
  {
    offset + |bytes| <= |source| && source[offset..offset + |bytes|] == bytes
  }

  lemma AtSplit(source: seq<byte>, offset: nat, a: seq<byte>, b: seq<byte>)
    requires At(source, offset, a + b)
    ensures At(source, offset, a) && At(source, offset + |a|, b)
  {
    assert source[offset..offset + |a|] == (a + b)[..|a|];
    assert source[offset + |a|..offset + |a| + |b|] == (a + b)[|a|..];
  }

  /** A tagged field reads back: the type byte, then the value. */
  lemma AtTagged(source: seq<byte>, offset: nat, tag: byte, v: nat, w: nat)
    requires At(source, offset, Tagged(tag, v, w)) && v < Pow256(w)
    ensures offset < |source| && source[offset] == tag
    ensures ReadUInt(source, offset + 1, w) == Ok(v)
  {
    assert source[offset] == Tagged(tag, v, w)[0];
    assert source[offset + 1..offset + 1 + w] == Tagged(tag, v, w)[1..];
    BeBytesRoundTrip(v, w);
  }

  /** The container slot an array or a map pushes. */
  function Slot(isMap: bool, n: nat): StackItem
  {
    if isMap then Map(n) else Array(n)
  }

  /** The counter a container of `n` entries pushes: `n` items, or `n` keys and `n` values. */
  function Opening(isMap: bool, n: nat): StackItem
  {
    Slot(isMap, if isMap then 2 * n else n)
  }

  function ContainerHeader(isMap: bool, n: nat): seq<byte>
    requires n < 0x1_0000_0000
  {
    if isMap then MapHeader(n) else ArrayHeader(n)
  }

  function StartEvent(isMap: bool, n: nat): Event
    requires n < 0x1_0000_0000
  {
    if isMap then MapStart(Some(n)) else ArrayStart(Some(n))
  }

  function EndEvent(isMap: bool): Event
  {
    if isMap then MapEnd else ArrayEnd
  }

  lemma CountedSlot(outer: seq<StackItem>, isMap: bool, n: nat)
    ensures Counted(outer + [Slot(isMap, n + 1)]) == outer + [Slot(isMap, n)]
  {
    var s := outer + [Slot(isMap, n + 1)];
    assert s[..|s| - 1] == outer;
  }

  // ----- one step per scalar form -----

  /** The step that reads a scalar, for any reading state. */
  predicate ScalarStep(source: seq<byte>, st: State, m: Msg)
    requires WellFormed(m) && Reading(st)
  {
    NextSpec(source, st) == Step(Ok(Events(m)[0]), State(st.offset + |Encode(m)|, Counted(st.stack), None))
  }

  /** `next` at a reading state whose type byte is `b` does what decoding `b` does. */
  lemma NextFrom(source: seq<byte>, st: State, b: byte, s: Step)
    requires Reading(st) && st.offset < |source| && source[st.offset] == b
    requires DecodeSpec(source, b, st.offset + 1, Counted(st.stack)) == s
    ensures NextSpec(source, st) == s
  {
    NextReads(source, st);
  }

  /** A type byte that is the whole encoding: nil, booleans and fixints. */
  lemma SingleByteStep(source: seq<byte>, st: State, b: byte, e: Event)
    requires Reading(st) && At(source, st.offset, [b])
    requires DecodeSpec(source, b, st.offset + 1, Counted(st.stack)) == Step(Ok(e), State(st.offset + 1, Counted(st.stack), None))
    ensures NextSpec(source, st) == Step(Ok(e), State(st.offset + 1, Counted(st.stack), None))
  {
    assert source[st.offset] == [b][0];
    NextFrom(source, st, b, Step(Ok(e), State(st.offset + 1, Counted(st.stack), None)));
  }

  lemma UnsignedTagged(source: seq<byte>, k: nat, o: nat, stack: seq<StackItem>, v: u64)
    requires k <= 3 && v < Pow256(Width(k))
    ensures ReadUInt(source, o, Width(k)) == Ok(v) ==>
      DecodeSpec(source, 0xcc + k, o, stack) == Step(Ok(Event.U64(v)), State(o + Width(k), stack, None))
  {
    var b: byte := 0xcc + k;
    NumberByte(source, b, o, stack);
    assert NumberWidth(b) == Width(k);
    assert NumberEvent(b, v) == Event.U64(v);
  }

  lemma SignedTagged(source: seq<byte>, k: nat, o: nat, stack: seq<StackItem>, i: i64, b: byte, u: nat)
    requires k <= 3 && -(Pow256(Width(k)) as int) <= 2 * i < 0
    requires b as int == 0xd0 + k && u == i + Pow256(Width(k))
    ensures ReadUInt(source, o, Width(k)) == Ok(u) ==>
      DecodeSpec(source, b, o, stack) == Step(Ok(Event.I64(i)), State(o + Width(k), stack, None))
  {
    NumberByte(source, b, o, stack);
    assert NumberWidth(b) == Width(k);
    assert AsSigned(u, Width(k)) == i;
    assert NumberEvent(b, u) == Event.I64(i);
  }

  /** A tagged field at a reading state: `next` reads the tag, then decodes with the field in hand. */
  lemma TaggedStep(source: seq<byte>, st: State, tag: byte, v: nat, w: nat, s: Step)
    requires Reading(st) && v < Pow256(w) && At(source, st.offset, Tagged(tag, v, w))
    requires ReadUInt(source, st.offset + 1, w) == Ok(v) ==> DecodeSpec(source, tag, st.offset + 1, Counted(st.stack)) == s
    ensures NextSpec(source, st) == s
  {
    AtTagged(source, st.offset, tag, v, w);
    NextFrom(source, st, tag, s);
  }

  lemma UIntStep(source: seq<byte>, st: State, v: u64)
    requires Reading(st) && At(source, st.offset, EncodeUInt(v))
    ensures ScalarStep(source, st, UInt(v))
  {
    Pow256Values();
    var after := State(st.offset + |EncodeUInt(v)|, Counted(st.stack), None);
    if v < 0x80 {
      SingleByteStep(source, st, v, Event.U64(v));
    } else {
      var k := if v < 0x100 then 0 else if v < 0x1_0000 then 1 else if v < 0x1_0000_0000 then 2 else 3;
      assert EncodeUInt(v) == Tagged(0xcc + k, v, Width(k));
      UnsignedTagged(source, k, st.offset + 1, Counted(st.stack), v);
      TaggedStep(source, st, 0xcc + k, v, Width(k), Step(Ok(Event.U64(v)), after));
    }
  }

  lemma NegIntStep(source: seq<byte>, st: State, i: i64)
    requires i < 0 && Reading(st) && At(source, st.offset, EncodeNegInt(i))
    ensures ScalarStep(source, st, NegInt(i))
  {
    Pow256Values();
    if i >= -32 {
      SingleByteStep(source, st, i + 0x100, Event.I64(i));
    } else {
      var k := if i >= -0x80 then 0 else if i >= -0x8000 then 1 else if i >= -0x8000_0000 then 2 else 3;
      assert EncodeNegInt(i) == Tagged(0xd0 + k, i + Pow256(Width(k)), Width(k));
      SignedStep(source, st, k, i);
    }
  }

  lemma SignedStep(source: seq<byte>, st: State, k: nat, i: i64)
    requires k <= 3 && -(Pow256(Width(k)) as int) <= 2 * i < 0 && Reading(st)
    requires At(source, st.offset, Tagged(0xd0 + k, i + Pow256(Width(k)), Width(k)))
    ensures NextSpec(source, st) ==
      Step(Ok(Event.I64(i)), State(st.offset + 1 + Width(k), Counted(st.stack), None))
  {
    var b: byte := 0xd0 + k;
    var u: nat := i + Pow256(Width(k));
    var s := Step(Ok(Event.I64(i)), State(st.offset + 1 + Width(k), Counted(st.stack), None));
    SignedTagged(source, k, st.offset + 1, Counted(st.stack), i, b, u);
    TaggedStep(source, st, b, u, Width(k), s);
  }

  /** The payload of a string reads back as the same text, borrowed. */
  lemma StrReadsBack(source: seq<byte>, offset: nat, t: string)
    requires At(source, offset, Utf8.Encode(t))
    ensures StrRead(source, offset, |Utf8.Encode(t)|) == Ok(Str(CowStr.Borrowed(t)))
  {
    Utf8.DecodeEncode(t);
  }

  /** The type byte of `str 8/16/32` (`isStr`) or `bin 8/16/32`. */
  function SizedTag(isStr: bool, k: nat): byte
    requires k <= 2
  {
    (if isStr then 0xd9 else 0xc4) + k as byte
  }

  /** The payload of a `str` (`isStr`) or `bin` form. */
  function Payload(source: seq<byte>, isStr: bool, at: nat, len: nat): Result<Event, MsgpackError>
  {
    if isStr then StrRead(source, at, len) else BytesRead(source, at, len)
  }

  /** `str 8/16/32` (`isStr`) or `bin 8/16/32`: a `Width(k)`-byte length, then the payload at `at`. */
  lemma SizedTagged(source: seq<byte>, k: nat, o: nat, stack: seq<StackItem>, isStr: bool, len: nat, at: nat, e: Event)
    requires k <= 2 && at == o + Width(k) && Payload(source, isStr, at, len) == Ok(e)
    ensures ReadUInt(source, o, Width(k)) == Ok(len) ==>
      DecodeSpec(source, SizedTag(isStr, k), o, stack) == Step(Ok(e), State(at + len, stack, None))
  {
    var b := SizedTag(isStr, k);
    MarkerByte(source, b, o, stack);
    SizedByte(source, b, o, stack);
  }

  /** A sized form, header and payload, at a reading state: one step takes both. */
  lemma SizedStep(source: seq<byte>, st: State, k: nat, isStr: bool, len: nat, at: nat, e: Event)
    requires k <= 2 && len < Pow256(Width(k)) && Reading(st)
    requires At(source, st.offset, Tagged(SizedTag(isStr, k), len, Width(k)))
    requires at == st.offset + 1 + Width(k) && Payload(source, isStr, at, len) == Ok(e)
    ensures NextSpec(source, st) == Step(Ok(e), State(at + len, Counted(st.stack), None))
  {
    SizedTagged(source, k, st.offset + 1, Counted(st.stack), isStr, len, at, e);
    TaggedStep(source, st, SizedTag(isStr, k), len, Width(k), Step(Ok(e), State(at + len, Counted(st.stack), None)));
  }

  lemma TextStep(source: seq<byte>, st: State, t: string)
    requires |Utf8.Encode(t)| < 0x1_0000_0000 && Reading(st)
    requires At(source, st.offset, StrHeader(|Utf8.Encode(t)|) + Utf8.Encode(t))
    ensures ScalarStep(source, st, Text(t))
  {
    var e := Utf8.Encode(t);
    assert Encode(Text(t)) == StrHeader(|e|) + e;
    TextStepWith(source, st, t, e);
  }

  /** `TextStep` with the UTF-8 form `e` of `t` given. */
  lemma TextStepWith(source: seq<byte>, st: State, t: string, e: seq<byte>)
    requires e == Utf8.Encode(t) && |e| < 0x1_0000_0000 && Reading(st)
    requires At(source, st.offset, StrHeader(|e|) + e)
    ensures NextSpec(source, st) == Step(Ok(Str(CowStr.Borrowed(t))), State(st.offset + |StrHeader(|e|) + e|, Counted(st.stack), None))
  {
    var n := |e|;
    var h := StrHeader(n);
    var at := st.offset + |h|;
    TextParts(source, st.offset, h, e, t, at);
    StrStep(source, st, n, at, Str(CowStr.Borrowed(t)));
  }

  /** A header followed by the UTF-8 `e` of `t`: the header is there, and the payload reads back as `t`. */
  lemma TextParts(source: seq<byte>, offset: nat, h: seq<byte>, e: seq<byte>, t: string, at: nat)
    requires e == Utf8.Encode(t) && At(source, offset, h + e) && at == offset + |h|
    ensures At(source, offset, h) && StrRead(source, at, |e|) == Ok(Str(CowStr.Borrowed(t)))
  {
    AtSplit(source, offset, h, e);
    StrReadsBack(source, at, t);
  }

  /** The header the encoder writes for a string of `n` bytes, and a payload that reads as `e`. */
  lemma StrStep(source: seq<byte>, st: State, n: nat, at: nat, e: Event)
    requires n < 0x1_0000_0000 && Reading(st) && At(source, st.offset, StrHeader(n))
    requires at == st.offset + |StrHeader(n)| && StrRead(source, at, n) == Ok(e)
    ensures NextSpec(source, st) == Step(Ok(e), State(at + n, Counted(st.stack), None))
  {
    if n < 32 {
      FixStrNext(source, st, n, at, e);
    } else {
      LongSizedStep(source, st, true, n, at, e);
    }
  }

  /** How many bytes a `str`/`bin` length field of at least 32 takes: `Width(k)`. */
  function SizeClass(n: nat): (k: nat)
    ensures k <= 2
  {
    if n < 0x100 then 0 else if n < 0x1_0000 then 1 else 2
  }

  lemma LongHeaders(n: nat)
    requires n < 0x1_0000_0000
    ensures n < Pow256(Width(SizeClass(n)))
    ensures BinHeader(n) == Tagged(0xc4 + SizeClass(n), n, Width(SizeClass(n)))
    ensures n >= 32 ==> StrHeader(n) == Tagged(0xd9 + SizeClass(n), n, Width(SizeClass(n)))
  {
    Pow256Values();
  }

  /** The header the encoder writes for a `str` of at least 32 bytes (`isStr`) or a `bin`. */
  function LongHeader(isStr: bool, n: nat): seq<byte>
    requires n < 0x1_0000_0000
  {
    if isStr then StrHeader(n) else BinHeader(n)
  }

  /** A `str` of at least 32 bytes or any `bin`, by the header the encoder writes. */
  lemma LongSizedStep(source: seq<byte>, st: State, isStr: bool, n: nat, at: nat, e: Event)
    requires n < 0x1_0000_0000 && (isStr ==> n >= 32) && Reading(st)
    requires At(source, st.offset, LongHeader(isStr, n))
    requires at == st.offset + |LongHeader(isStr, n)| && Payload(source, isStr, at, n) == Ok(e)
    ensures NextSpec(source, st) == Step(Ok(e), State(at + n, Counted(st.stack), None))
  {
    var k := SizeClass(n);
    LongHeaders(n);
    assert LongHeader(isStr, n) == Tagged(SizedTag(isStr, k), n, Width(k));
    SizedStep(source, st, k, isStr, n, at, e);
  }

  lemma FixStrNext(source: seq<byte>, st: State, n: nat, at: nat, e: Event)
    requires n < 32 && Reading(st) && At(source, st.offset, [(0xa0 + n) as byte])
    requires at == st.offset + 1 && StrRead(source, at, n) == Ok(e)
    ensures NextSpec(source, st) == Step(Ok(e), State(at + n, Counted(st.stack), None))
  {
    var b: byte := (0xa0 + n) as byte;
    assert source[st.offset] == [b][0];
    FixStrForm(source, b, st.offset + 1, Counted(st.stack));
    NextFrom(source, st, b, Step(Ok(e), State(at + n, Counted(st.stack), None)));
  }

  lemma BinaryStep(source: seq<byte>, st: State, d: seq<byte>)
    requires |d| < 0x1_0000_0000 && Reading(st)
    requires At(source, st.offset, BinHeader(|d|) + d)
    ensures ScalarStep(source, st, Binary(d))
  {
    var h := BinHeader(|d|);
    var at := st.offset + |h|;
    BinaryParts(source, st.offset, h, d, at);
    LongSizedStep(source, st, false, |d|, at, Bytes(CowBytes.Borrowed(d)));
  }

  /** A header followed by `d`: the header is there, and the payload reads back as `d`, borrowed. */
  lemma BinaryParts(source: seq<byte>, offset: nat, h: seq<byte>, d: seq<byte>, at: nat)
    requires At(source, offset, h + d) && at == offset + |h|
    ensures At(source, offset, h) && BytesRead(source, at, |d|) == Ok(Bytes(CowBytes.Borrowed(d)))
  {
    AtSplit(source, offset, h, d);
    assert source[at..at + |d|] == d;
  }

  lemma ScalarSteps(source: seq<byte>, st: State, m: Msg)
    requires WellFormed(m) && !m.List? && !m.Dict? && Reading(st) && At(source, st.offset, Encode(m))
    ensures ScalarStep(source, st, m)
  {
    match m
    case Nil => SingleByteStep(source, st, 0xc0, Null);
    case Boolean(f) => SingleByteStep(source, st, if f then 0xc3 else 0xc2, Bool(f));
    case UInt(v) => UIntStep(source, st, v);
    case NegInt(i) => NegIntStep(source, st, i);
    case Text(t) => TextStep(source, st, t);
    case Binary(d) => BinaryStep(source, st, d);
  }

  /** The step that reads a container header: the container's counter is pushed. */
  lemma HeaderStep(source: seq<byte>, st: State, n: nat, isMap: bool)
    requires n < 0x1_0000_0000 && Reading(st)
    requires At(source, st.offset, ContainerHeader(isMap, n))
    ensures var h := ContainerHeader(isMap, n);
      NextSpec(source, st) ==
        Step(Ok(StartEvent(isMap, n)),
             State(st.offset + |h|, Counted(st.stack) + [Opening(isMap, n)], None))
  {
    Pow256Values();
    if n < 16 {
      var b: byte := (if isMap then 0x80 else 0x90) + n;
      assert ContainerHeader(isMap, n) == [b];
      assert b % 16 == n;
      ContainerForms(source, b, st.offset + 1, Counted(st.stack));
      assert source[st.offset] == [b][0];
      NextFrom(source, st, b, Step(Ok(StartEvent(isMap, n)),
                                   State(st.offset + 1, Counted(st.stack) + [Opening(isMap, n)], None)));
    } else {
      var k := if n < 0x1_0000 then 1 else 2;
      var tag: byte := (if isMap then 0xdd else 0xdb) + k;
      assert ContainerHeader(isMap, n) == Tagged(tag, n, Width(k));
      LongHeaderStep(source, st, n, isMap, tag, Width(k));
    }
  }

  /** `array 16/32` and `map 16/32`: a `w`-byte count, and the container opens. */
  lemma HeaderTagged(source: seq<byte>, tag: byte, o: nat, stack: seq<StackItem>, n: nat, isMap: bool, w: nat)
    requires n < 0x1_0000_0000
    requires tag == (if isMap then 0xde else 0xdc) || tag == (if isMap then 0xdf else 0xdd)
    requires w == (if tag % 2 == 0 then 2 else 4)
    ensures ReadUInt(source, o, w) == Ok(n) ==>
      DecodeSpec(source, tag, o, stack) ==
        Step(Ok(StartEvent(isMap, n)),
             State(o + w, stack + [Opening(isMap, n)], None))
  {
    MarkerByte(source, tag, o, stack);
    assert DecodeMarker(source, tag, o, stack) == Header(source, o, w, stack, isMap);
  }

  lemma LongHeaderStep(source: seq<byte>, st: State, n: nat, isMap: bool, tag: byte, w: nat)
    requires n < 0x1_0000_0000 && n < Pow256(w) && Reading(st)
    requires tag == (if isMap then 0xde else 0xdc) || tag == (if isMap then 0xdf else 0xdd)
    requires w == (if tag % 2 == 0 then 2 else 4)
    requires At(source, st.offset, Tagged(tag, n, w))
    ensures NextSpec(source, st) ==
      Step(Ok(StartEvent(isMap, n)),
           State(st.offset + 1 + w, Counted(st.stack) + [Opening(isMap, n)], None))
  {
    var s := Step(Ok(StartEvent(isMap, n)),
                  State(st.offset + 1 + w, Counted(st.stack) + [Opening(isMap, n)], None));
    HeaderTagged(source, tag, st.offset + 1, Counted(st.stack), n, isMap, w);
    TaggedStep(source, st, tag, n, w, s);
  }

  // ----- the whole value -----

  /** An encoded scalar at a reading state is read in one step. */
  ghost predicate ScalarRule(next: State -> Step, source: seq<byte>, m: Msg, st: State)
  {
    WellFormed(m) && !m.List? && !m.Dict? && Reading(st) && At(source, st.offset, Encode(m)) ==>
      next(st) == Step(Ok(Events(m)[0]), State(st.offset + |Encode(m)|, Counted(st.stack), None))
  }

  /** An encoded container header at a reading state pushes the container's counter. */
  ghost predicate HeaderRule(next: State -> Step, source: seq<byte>, n: nat, isMap: bool, st: State)
  {
    n < 0x1_0000_0000 && Reading(st) && At(source, st.offset, ContainerHeader(isMap, n)) ==>
      next(st) == Step(Ok(StartEvent(isMap, n)),
                       State(st.offset + |ContainerHeader(isMap, n)|,
                             Counted(st.stack) + [Opening(isMap, n)], None))
  }

  /** An exhausted container closes. */
  ghost predicate EndRule(next: State -> Step, outer: seq<StackItem>, isMap: bool, offset: nat)
  {
    next(State(offset, outer + [Slot(isMap, 0)], None)) ==
      Step(Ok(EndEvent(isMap)), State(offset, outer, None))
  }

  /** The rules the proof of the round trip needs from a step function on `source`. */
  ghost predicate Behaves(next: State -> Step, source: seq<byte>)
  {
    && (forall m: Msg, st: State :: ScalarRule(next, source, m, st))
    && (forall n: nat, isMap: bool, st: State :: HeaderRule(next, source, n, isMap, st))
    && (forall outer: seq<StackItem>, isMap: bool, offset: nat :: EndRule(next, outer, isMap, offset))
  }

  /** `next` follows those rules. */
  lemma NextBehaves(source: seq<byte>)
    ensures Behaves(Next(source), source)
  {
    forall m: Msg, st: State ensures ScalarRule(Next(source), source, m, st) {
      if WellFormed(m) && !m.List? && !m.Dict? && Reading(st) && At(source, st.offset, Encode(m)) {
        ScalarSteps(source, st, m);
      }
    }
    forall n: nat, isMap: bool, st: State ensures HeaderRule(Next(source), source, n, isMap, st) {
      if n < 0x1_0000_0000 && Reading(st) && At(source, st.offset, ContainerHeader(isMap, n)) {
        HeaderStep(source, st, n, isMap);
      }
    }
    forall outer: seq<StackItem>, isMap: bool, offset: nat ensures EndRule(Next(source), outer, isMap, offset) {
      var st := State(offset, outer + [Slot(isMap, 0)], None);
      ExhaustedContainerEnds(source, st);
      assert st.stack[..|st.stack| - 1] == outer;
    }
  }

  /** A container's encoding and events: its header, its items, and its end. */
  lemma ContainerShape(m: Msg)
    requires WellFormed(m) && (m.List? || m.Dict?)
    ensures var n := if m.Dict? then |m.items| / 2 else |m.items|;
      && AllWellFormed(m.items) && n < 0x1_0000_0000
      && |m.items| == (if m.Dict? then 2 * n else n)
      && Encode(m) == ContainerHeader(m.Dict?, n) + EncodeAll(m.items)
      && Events(m) == [StartEvent(m.Dict?, n)] + EventsAll(m.items) + [EndEvent(m.Dict?)]
  {
  }

  /**
   * Reading one encoded value from a state that is about to read an item:
   * the value's events, the offset just past its encoding, and the item
   * counted against the enclosing container.
   */
  lemma {:induction false} DecodesItem(next: State -> Step, source: seq<byte>, m: Msg, st: State)
    requires Behaves(next, source)
    requires WellFormed(m) && Reading(st) && At(source, st.offset, Encode(m))
    ensures RunWith(next, st, |Events(m)|) ==
      Some(Trace(Events(m), State(st.offset + |Encode(m)|, Counted(st.stack), None)))
    decreases m, 2
  {
    if m.List? || m.Dict? {
      DecodesContainer(next, source, m, st);
    } else {
      DecodesScalar(next, source, m, st);
    }
  }

  lemma {:induction false} DecodesContainer(next: State -> Step, source: seq<byte>, m: Msg, st: State)
    requires Behaves(next, source)
    requires WellFormed(m) && (m.List? || m.Dict?) && Reading(st) && At(source, st.offset, Encode(m))
    ensures RunWith(next, st, |Events(m)|) ==
      Some(Trace(Events(m), State(st.offset + |Encode(m)|, Counted(st.stack), None)))
    decreases m, 1
  {
    var n := if m.Dict? then |m.items| / 2 else |m.items|;
    var k, tr := ContainerTrace(m, st, Counted(st.stack));
    ContainerShape(m);
    DecodesBracketed(next, source, m.Dict?, m.items, n, st);
  }

  /** A container's run length and trace, as its parts and as a whole. */
  lemma ContainerTrace(m: Msg, st: State, stack: seq<StackItem>) returns (k: nat, tr: Trace)
    requires WellFormed(m) && (m.List? || m.Dict?)
    ensures var n := if m.Dict? then |m.items| / 2 else |m.items|;
      n < 0x1_0000_0000 && k == |EventsAll(m.items)| + 2 &&
      tr == Trace([StartEvent(m.Dict?, n)] + EventsAll(m.items) + [EndEvent(m.Dict?)],
                  State(st.offset + |ContainerHeader(m.Dict?, n)| + |EncodeAll(m.items)|, stack, None))
    ensures k == |Events(m)| && tr == Trace(Events(m), State(st.offset + |Encode(m)|, stack, None))
  {
    ContainerShape(m);
    k := |Events(m)|;
    tr := Trace(Events(m), State(st.offset + |Encode(m)|, stack, None));
  }

  lemma DecodesScalar(next: State -> Step, source: seq<byte>, m: Msg, st: State)
    requires Behaves(next, source)
    requires WellFormed(m) && !m.List? && !m.Dict? && Reading(st) && At(source, st.offset, Encode(m))
    ensures RunWith(next, st, |Events(m)|) ==
      Some(Trace(Events(m), State(st.offset + |Encode(m)|, Counted(st.stack), None)))
  {
    assert ScalarRule(next, source, m, st);
    ScalarRun(next, m, st, State(st.offset + |Encode(m)|, Counted(st.stack), None));
  }

  /** A scalar is one event, so one step is the whole run. */
  lemma ScalarRun(next: State -> Step, m: Msg, st: State, after: State)
    requires WellFormed(m) && !m.List? && !m.Dict? && next(st) == Step(Ok(Events(m)[0]), after)
    ensures RunWith(next, st, |Events(m)|) == Some(Trace(Events(m), after))
  {
    RunWithOne(next, st, Events(m)[0], after);
    assert Events(m) == [Events(m)[0]];
  }

  /** A container as its header, its items and its end. */
  lemma {:induction false} DecodesBracketed(next: State -> Step, source: seq<byte>, isMap: bool, items: seq<Msg>,
                                            n: nat, st: State)
    requires Behaves(next, source)
    requires n < 0x1_0000_0000 && |items| == (if isMap then 2 * n else n) && AllWellFormed(items)
    requires Reading(st) && At(source, st.offset, ContainerHeader(isMap, n) + EncodeAll(items))
    ensures var h := ContainerHeader(isMap, n);
      RunWith(next, st, |EventsAll(items)| + 2) ==
        Some(Trace([StartEvent(isMap, n)] + EventsAll(items)
                     + [EndEvent(isMap)],
                   State(st.offset + |h| + |EncodeAll(items)|, Counted(st.stack), None)))
    decreases items, 0, 2
  {
    var h := ContainerHeader(isMap, n);
    AtSplit(source, st.offset, h, EncodeAll(items));
    DecodesItems(next, source, items, st.offset + |h|, Counted(st.stack), isMap, 0);
    BracketRun(next, source, isMap, n, st, EventsAll(items), |EncodeAll(items)|);
  }

  /** The header and the end around a run of items, for a step function that follows the rules. */
  lemma BracketRun(next: State -> Step, source: seq<byte>, isMap: bool, n: nat, st: State, body: seq<Event>, size: nat)
    requires Behaves(next, source)
    requires n < 0x1_0000_0000 && Reading(st) && At(source, st.offset, ContainerHeader(isMap, n))
    requires var at := st.offset + |ContainerHeader(isMap, n)|;
      RunWith(next, State(at, Counted(st.stack) + [Opening(isMap, n)], None), |body|) ==
        Some(Trace(body, State(at + size, Counted(st.stack) + [Slot(isMap, 0)], None)))
    ensures var at := st.offset + |ContainerHeader(isMap, n)|;
      RunWith(next, st, |body| + 2) ==
        Some(Trace([StartEvent(isMap, n)] + body + [EndEvent(isMap)],
                   State(at + size, Counted(st.stack), None)))
  {
    HeaderNext(next, source, isMap, n, st);
    EndNext(next, source, Counted(st.stack), isMap, st.offset + |ContainerHeader(isMap, n)| + size);
    ContainerRun(next, isMap, n, st, body, size);
  }

  /** A header step, a run over the items that empties the new counter, and the closing step make one run. */
  lemma ContainerRun(next: State -> Step, isMap: bool, n: nat, st: State, body: seq<Event>, size: nat)
    requires n < 0x1_0000_0000 && Reading(st)
    requires var at := st.offset + |ContainerHeader(isMap, n)|;
      next(st) == Step(Ok(StartEvent(isMap, n)),
                       State(at, Counted(st.stack) + [Opening(isMap, n)], None))
    requires var at := st.offset + |ContainerHeader(isMap, n)|;
      RunWith(next, State(at, Counted(st.stack) + [Opening(isMap, n)], None), |body|) ==
        Some(Trace(body, State(at + size, Counted(st.stack) + [Slot(isMap, 0)], None)))
    requires var at := st.offset + |ContainerHeader(isMap, n)|;
      next(State(at + size, Counted(st.stack) + [Slot(isMap, 0)], None)) ==
        Step(Ok(EndEvent(isMap)), State(at + size, Counted(st.stack), None))
    ensures var at := st.offset + |ContainerHeader(isMap, n)|;
      RunWith(next, st, |body| + 2) ==
        Some(Trace([StartEvent(isMap, n)] + body + [EndEvent(isMap)],
                   State(at + size, Counted(st.stack), None)))
  {
    var at := st.offset + |ContainerHeader(isMap, n)|;
    RunWithBracket(next, st, StartEvent(isMap, n),
                   State(at, Counted(st.stack) + [Opening(isMap, n)], None),
                   Trace(body, State(at + size, Counted(st.stack) + [Slot(isMap, 0)], None)),
                   EndEvent(isMap), State(at + size, Counted(st.stack), None));
  }

  lemma HeaderNext(next: State -> Step, source: seq<byte>, isMap: bool, n: nat, st: State)
    requires Behaves(next, source)
    requires n < 0x1_0000_0000 && Reading(st) && At(source, st.offset, ContainerHeader(isMap, n))
    ensures next(st) == Step(Ok(StartEvent(isMap, n)),
                             State(st.offset + |ContainerHeader(isMap, n)|,
                                   Counted(st.stack) + [Opening(isMap, n)], None))
  {
    assert HeaderRule(next, source, n, isMap, st);
  }

  lemma EndNext(next: State -> Step, source: seq<byte>, outer: seq<StackItem>, isMap: bool, offset: nat)
    requires Behaves(next, source)
    ensures next(State(offset, outer + [Slot(isMap, 0)], None)) ==
      Step(Ok(EndEvent(isMap)), State(offset, outer, None))
  {
    assert EndRule(next, outer, isMap, offset);
  }

  /** Reading the items of an open container, each counted against it. */
  lemma {:induction false} DecodesItems(next: State -> Step, source: seq<byte>, ms: seq<Msg>, offset: nat,
                                        outer: seq<StackItem>, isMap: bool, k: nat)
    requires Behaves(next, source)
    requires AllWellFormed(ms) && At(source, offset, EncodeAll(ms))
    ensures RunWith(next, State(offset, outer + [Slot(isMap, |ms| + k)], None), |EventsAll(ms)|) ==
      Some(Trace(EventsAll(ms), State(offset + |EncodeAll(ms)|, outer + [Slot(isMap, k)], None)))
    decreases ms, 0, 1
  {
    if ms == [] {
      var st := State(offset, outer + [Slot(isMap, k)], None);
      assert RunWith(next, st, 0) == Some(Trace([], st));
    } else {
      DecodesItemsCons(next, source, ms, offset, outer, isMap, k);
    }
  }

  lemma {:induction false} DecodesItemsCons(next: State -> Step, source: seq<byte>, ms: seq<Msg>, offset: nat,
                                            outer: seq<StackItem>, isMap: bool, k: nat)
    requires Behaves(next, source)
    requires ms != [] && AllWellFormed(ms) && At(source, offset, EncodeAll(ms))
    ensures RunWith(next, State(offset, outer + [Slot(isMap, |ms| + k)], None), |EventsAll(ms)|) ==
      Some(Trace(EventsAll(ms), State(offset + |EncodeAll(ms)|, outer + [Slot(isMap, k)], None)))
    decreases ms, 0, 0
  {
    var st := State(offset, outer + [Slot(isMap, |ms| + k)], None);
    var m := ms[0];
    AtSplit(source, offset, Encode(m), EncodeAll(ms[1..]));
    CountedSlot(outer, isMap, |ms| - 1 + k);
    DecodesItem(next, source, m, st);
    var mid := State(offset + |Encode(m)|, outer + [Slot(isMap, |ms| - 1 + k)], None);
    DecodesItems(next, source, ms[1..], mid.offset, outer, isMap, k);
    RunWithAppend(next, st, |Events(m)|, |EventsAll(ms[1..])|,
                  Trace(Events(m), mid),
                  Trace(EventsAll(ms[1..]), State(offset + |EncodeAll(ms)|, outer + [Slot(isMap, k)], None)));
  }

  /**
   * A fresh deserializer over an encoded value (followed by anything)
   * returns exactly the value's events, stops just past the encoding, and
   * has no container left open.
   */
  lemma DecodesEncoding(m: Msg, rest: seq<byte>)
    requires WellFormed(m)
    ensures Run(Encode(m) + rest, State(0, [], None), |Events(m)|) ==
      Some(Trace(Events(m), State(|Encode(m)|, [], None)))
  {
    var source := Encode(m) + rest;
    assert source[0..|Encode(m)|] == Encode(m);
    NextBehaves(source);
    DecodesItem(Next(source), source, m, State(0, [], None));
  }
}
