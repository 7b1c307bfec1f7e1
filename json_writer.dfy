/**
 * `JsonSerializer` of merde_json: a `Serializer` that turns the event
 * stream into JSON text. A stack of frames remembers, for each open
 * container, whether the next item is the first element of an array, a
 * map key (first or not) or a map value, and so which separator to write
 * before it. The buffer it extends is the `&mut Vec<u8>` writer, which
 * cannot fail.
 *
 * `Step` is what one `write` call does; `JsonSerializer.Write` is proved to
 * do exactly that. `Run` chains the steps over an event sequence, and
 * `ValueRun`/`TopRun` prove that the events merde_core emits for a value
 * come out as the text an independent recursive printer, `Json`, gives.
 */
module JsonWriter {
  import opened Wrappers
  import opened MachineInts
  import E = Event
  import CowStr
  import CowBytes
  import Float64
  import Decimal
  import JsonEscape
  import S = Serialize

  /** What the next item inside the innermost open container is. */
  datatype Frame = ArrayFrame(first: bool) | MapKey(first: bool) | MapValue

  /** One `write` call: the bytes it appends, the stack it leaves, and whether it panicked. */
  datatype Outcome = Outcome(bytes: seq<byte>, stack: seq<Frame>, panicked: bool)

  /** `ryu::Buffer::format`, the text of a float; the float formatter is not part of this model. */
  type FloatFormat = Float64.F64 -> seq<byte>

  const NULL: seq<byte> := [0x6E, 0x75, 0x6C, 0x6C]
  const TRUE: seq<byte> := [0x74, 0x72, 0x75, 0x65]
  const FALSE: seq<byte> := [0x66, 0x61, 0x6C, 0x73, 0x65]
  const COMMA: byte := 0x2C
  const COLON: byte := 0x3A
  const OPEN_BRACKET: byte := 0x5B
  const CLOSE_BRACKET: byte := 0x5D
  const OPEN_BRACE: byte := 0x7B
  const CLOSE_BRACE: byte := 0x7D

  /** The second half of `write`: the event's own text, and the frame of a container it opens. */
  function Emit(stack: seq<Frame>, ev: E.Event, ryu: FloatFormat): Outcome
  {
    match ev
    case Null => Outcome(NULL, stack, false)
    case Bool(b) => Outcome(if b then TRUE else FALSE, stack, false)
    case I64(i) => Outcome(Decimal.Format(i), stack, false)
    case U64(u) => Outcome(Decimal.Format(u), stack, false)
    case F64(f) => Outcome(ryu(f), stack, false)
    case Str(s) => Outcome(JsonEscape.Quoted(CowStr.Deref(s)), stack, false)
    case MapStart(_) => Outcome([OPEN_BRACE], stack + [MapKey(true)], false)
    case MapEnd => Outcome([CLOSE_BRACE], stack, false)
    case ArrayStart(_) => Outcome([OPEN_BRACKET], stack + [ArrayFrame(true)], false)
    case ArrayEnd => Outcome([], stack, true)
    case Bytes(_) => Outcome([], stack, false)
  }

  /** `o` with the separator `sep` written before it. */
  function Behind(sep: seq<byte>, o: Outcome): Outcome
  {
    Outcome(sep + o.bytes, o.stack, o.panicked)
  }

  /**
   * `write(ev)` on a serializer whose frame stack is `stack`: the top frame
   * either closes on a matching end event or yields its separator and moves
   * on, then the event writes itself.
   */
  function Step(stack: seq<Frame>, ev: E.Event, ryu: FloatFormat): Outcome
  {
    if stack == [] then Emit([], ev, ryu)
    else
      var rest := stack[..|stack| - 1];
      match stack[|stack| - 1]
      case ArrayFrame(first) =>
        if ev.ArrayEnd? then Outcome([CLOSE_BRACKET], rest, false)
        else Behind(if first then [] else [COMMA], Emit(rest + [ArrayFrame(false)], ev, ryu))
      case MapKey(first) =>
        if ev.MapEnd? then Outcome([CLOSE_BRACE], rest, false)
        else Behind(if first then [] else [COMMA], Emit(rest + [MapValue], ev, ryu))
      case MapValue =>
        Behind([COLON], Emit(rest + [MapKey(false)], ev, ryu))
  }

  class JsonSerializer {
    /** The buffer behind the `&mut Vec<u8>` writer. */
    var out: seq<byte>
    var stack: seq<Frame>

    /** `JsonSerializer::new(w)`: writes after what `w` already holds, with no container open. */
    constructor (w: seq<byte>)
      ensures out == w && stack == []
    {
      out := w;
      stack := [];
    }

    /** `Serializer::write`; `true` stands for the panic on an `ArrayEnd` outside an array. */
    method Write(ev: E.Event, ryu: FloatFormat) returns (panicked: bool)
      modifies this
      ensures var o := Step(old(stack), ev, ryu);
        out == old(out) + o.bytes && stack == o.stack && panicked == o.panicked
    {
      var sep: seq<byte> := [];
      if |stack| > 0 {
        var n := |stack| - 1;
        var top := stack[n];
        ghost var base := stack[..n];
        assert stack == base + [top];
        StepUnder(base, top, ev, ryu);
        if Closes(top, ev) {
          Extend([if ev.ArrayEnd? then CLOSE_BRACKET else CLOSE_BRACE]);
          stack := stack[..n];
          return false;
        }
        sep := Sep(top);
        Extend(sep);
        stack := stack[..n] + [After(top)];
      }
      ghost var o := Emit(stack, ev, ryu);
      panicked := WriteEvent(ev, ryu);
      assert out == old(out) + (sep + o.bytes);
    }

    /** The second half of `write`: the event's own text, and a frame for a container it opens. */
    method WriteEvent(ev: E.Event, ryu: FloatFormat) returns (panicked: bool)
      modifies this
      ensures var o := Emit(old(stack), ev, ryu);
        out == old(out) + o.bytes && stack == o.stack && panicked == o.panicked
    {
      panicked := false;
      match ev
      case Null => out := out + NULL;
      case Bool(b) => out := out + (if b then TRUE else FALSE);
      case I64(i) => out := out + Decimal.Format(i);
      case U64(u) => out := out + Decimal.Format(u);
      case F64(f) => out := out + ryu(f);
      case Str(s) => WriteStr(CowStr.Deref(s));
      case MapStart(_) =>
        out := out + [OPEN_BRACE];
        stack := stack + [MapKey(true)];
      case MapEnd => out := out + [CLOSE_BRACE];
      case ArrayStart(_) =>
        out := out + [OPEN_BRACKET];
        stack := stack + [ArrayFrame(true)];
      case ArrayEnd => panicked := true;
      case Bytes(_) =>
    }

    /** The `Str` arm: a quote, each character's escape in turn, a quote. */
    method WriteStr(s: string)
      modifies this
      ensures out == old(out) + JsonEscape.Quoted(s) && stack == old(stack)
    {
      ghost var front := out;
      Extend([JsonEscape.QUOTE]);
      WriteEscaped(s);
      Extend([JsonEscape.QUOTE]);
      Enclose(front, JsonEscape.QUOTE, JsonEscape.Escape(s), JsonEscape.QUOTE);
    }

    /** The loop over `s.chars()`: each character's escape, in order. */
    method WriteEscaped(s: string)
      modifies this
      ensures out == old(out) + JsonEscape.Escape(s) && stack == old(stack)
    {
      var i := 0;
      while i < |s|
        invariant 0 <= i <= |s|
        invariant out == old(out) + JsonEscape.Escape(s[..i])
        invariant stack == old(stack)
      {
        EscapeMore(old(out), s, i);
        Extend(JsonEscape.EscapeChar(s[i]));
        i := i + 1;
      }
      assert s[..|s|] == s;
    }

    /** `extend_from_slice` on the writer. */
    method Extend(bytes: seq<byte>)
      modifies this
      ensures out == old(out) + bytes && stack == old(stack)
    {
      out := out + bytes;
    }
  }

  /** Bytes written between an opening and a closing byte after `front`. */
  lemma Enclose(front: seq<byte>, open: byte, inner: seq<byte>, close: byte)
    ensures front + [open] + inner + [close] == front + ([open] + inner + [close])
  {
  }

  /** Escaping one more character of `s` after `front`. */
  lemma EscapeMore(front: seq<byte>, s: string, i: nat)
    requires i < |s|
    ensures front + JsonEscape.Escape(s[..i]) + JsonEscape.EscapeChar(s[i]) == front + JsonEscape.Escape(s[..i + 1])
  {
    JsonEscape.EscapeSnoc(s, i);
  }

  // ----- single steps -----

  /** The separator a frame asks for before an item that does not close it. */
  function Sep(top: Frame): seq<byte>
  {
    match top
    case ArrayFrame(first) => if first then [] else [COMMA]
    case MapKey(first) => if first then [] else [COMMA]
    case MapValue => [COLON]
  }

  /** The frame after an item has been written under it. */
  function After(top: Frame): Frame
  {
    match top
    case ArrayFrame(_) => ArrayFrame(false)
    case MapKey(_) => MapValue
    case MapValue => MapKey(false)
  }

  /** Whether `ev` closes the container of frame `top`. */
  predicate Closes(top: Frame, ev: E.Event)
  {
    (top.ArrayFrame? && ev.ArrayEnd?) || (top.MapKey? && ev.MapEnd?)
  }

  /**
   * Under a top frame an event either closes it (writing `]` or `}` and
   * popping) or gets the frame's separator, which the frame then records.
   */
  lemma StepUnder(base: seq<Frame>, top: Frame, ev: E.Event, ryu: FloatFormat)
    ensures Closes(top, ev) ==>
      Step(base + [top], ev, ryu) == Outcome([if ev.ArrayEnd? then CLOSE_BRACKET else CLOSE_BRACE], base, false)
    ensures !Closes(top, ev) ==> Step(base + [top], ev, ryu) == Behind(Sep(top), Emit(base + [After(top)], ev, ryu))
  {
    assert (base + [top])[..|base + [top]| - 1] == base;
  }

  /** A step panics exactly on an `ArrayEnd` whose top frame is not an array's. */
  lemma PanicsExactly(stack: seq<Frame>, ev: E.Event, ryu: FloatFormat)
    ensures Step(stack, ev, ryu).panicked <==>
      ev.ArrayEnd? && (stack == [] || !stack[|stack| - 1].ArrayFrame?)
  {
  }

  /**
   * The stack grows by one on a container start, shrinks by one when an end
   * event closes the top frame, and otherwise keeps its depth: its length
   * counts the open containers.
   */
  lemma StepDepth(stack: seq<Frame>, ev: E.Event, ryu: FloatFormat)
    requires !Step(stack, ev, ryu).panicked
    ensures var closes := stack != [] && Closes(stack[|stack| - 1], ev);
      |Step(stack, ev, ryu).stack| ==
        |stack| + (if ev.ArrayStart? || ev.MapStart? then 1 else 0) - (if closes then 1 else 0)
  {
  }

  /**
   * A map end with no open container writes a bare `}`; a `Bytes` event
   * writes nothing but the separator its frame asks for.
   */
  lemma EndsAndBytes(base: seq<Frame>, top: Frame, b: CowBytes.CowBytes, ryu: FloatFormat)
    ensures Step([], E.MapEnd, ryu) == Outcome([CLOSE_BRACE], [], false)
    ensures Step([], E.Bytes(b), ryu) == Outcome([], [], false)
    ensures Step(base + [top], E.Bytes(b), ryu) == Outcome(Sep(top), base + [After(top)], false)
  {
    StepUnder(base, top, E.Bytes(b), ryu);
    assert Sep(top) + [] == Sep(top);
  }


  // ----- event sequences -----

  /** One `write` call as a function of the frame stack and the event. */
  type Stepper = (seq<Frame>, E.Event) -> Outcome

  /** `step` applied to each event in turn, stopping at a panic. */
  function Fold(step: Stepper, stack: seq<Frame>, evs: seq<E.Event>): Outcome
    decreases |evs|
  {
    if evs == [] then Outcome([], stack, false)
    else
      var o := step(stack, evs[0]);
      if o.panicked then o
      else
        var r := Fold(step, o.stack, evs[1..]);
        Outcome(o.bytes + r.bytes, r.stack, r.panicked)
  }

  /** Folding two sequences one after the other, when the first does not panic. */
  lemma {:induction false} FoldAppend(step: Stepper, stack: seq<Frame>, a: seq<E.Event>, b: seq<E.Event>)
    requires !Fold(step, stack, a).panicked
    ensures var x := Fold(step, stack, a);
      var y := Fold(step, x.stack, b);
      Fold(step, stack, a + b) == Outcome(x.bytes + y.bytes, y.stack, y.panicked)
    decreases |a|
  {
    if a == [] {
      assert a + b == b;
      assert [] + Fold(step, stack, b).bytes == Fold(step, stack, b).bytes;
    } else {
      var o := step(stack, a[0]);
      var r := Fold(step, o.stack, a[1..]);
      assert (a + b)[0] == a[0] && (a + b)[1..] == a[1..] + b;
      FoldAppend(step, o.stack, a[1..], b);
      var y := Fold(step, r.stack, b);
      assert o.bytes + (r.bytes + y.bytes) == (o.bytes + r.bytes) + y.bytes;
    }
  }

  /** `write` called on each event in turn, stopping at a panic. */
  function Run(stack: seq<Frame>, evs: seq<E.Event>, ryu: FloatFormat): Outcome
  {
    Fold((st, ev) => Step(st, ev, ryu), stack, evs)
  }

  /** Running two sequences one after the other, when the first does not panic. */
  lemma RunAppend(stack: seq<Frame>, a: seq<E.Event>, b: seq<E.Event>, ryu: FloatFormat)
    requires !Run(stack, a, ryu).panicked
    ensures var x := Run(stack, a, ryu);
      var y := Run(x.stack, b, ryu);
      Run(stack, a + b, ryu) == Outcome(x.bytes + y.bytes, y.stack, y.panicked)
  {
    FoldAppend((st, ev) => Step(st, ev, ryu), stack, a, b);
  }

  lemma FoldOne(step: Stepper, stack: seq<Frame>, ev: E.Event)
    requires !step(stack, ev).panicked
    ensures Fold(step, stack, [ev]) == step(stack, ev)
  {
    assert [ev][1..] == [];
    assert step(stack, ev).bytes + [] == step(stack, ev).bytes;
  }

  lemma RunOne(stack: seq<Frame>, ev: E.Event, ryu: FloatFormat)
    requires !Step(stack, ev, ryu).panicked
    ensures Run(stack, [ev], ryu) == Step(stack, ev, ryu)
  {
    FoldOne((st, e) => Step(st, e, ryu), stack, ev);
  }

  // ----- the reference printer -----

  /**
   * JSON text for a merde_core `Value`, written recursively: items joined
   * by `,` inside `[` `]`, members as `"key":value` joined by `,` inside
   * `{` `}`. A byte string has no JSON form and prints as nothing.
   */
  function Json(v: S.Value, ryu: FloatFormat): seq<byte>
    decreases v, 1
  {
    match v
    case I64(i) => Decimal.Format(i)
    case U64(u) => Decimal.Format(u)
    case Float(f) => ryu(f)
    case Str(s) => JsonEscape.Quoted(CowStr.Deref(s))
    case Bytes(_) => []
    case Null => NULL
    case Bool(b) => if b then TRUE else FALSE
    case Array(items) => [OPEN_BRACKET] + JsonItems(items, ryu) + [CLOSE_BRACKET]
    case Map(entries) => [OPEN_BRACE] + JsonMembers(entries, ryu) + [CLOSE_BRACE]
  }

  function JsonItems(items: seq<S.Value>, ryu: FloatFormat): seq<byte>
    decreases items, 0
  {
    if items == [] then []
    else
      var n := |items| - 1;
      JsonItems(items[..n], ryu) + (if n == 0 then [] else [COMMA]) + Json(items[n], ryu)
  }

  function JsonMembers(entries: seq<S.Entry>, ryu: FloatFormat): seq<byte>
    decreases entries, 0
  {
    if entries == [] then []
    else
      var n := |entries| - 1;
      JsonMembers(entries[..n], ryu) + (if n == 0 then [] else [COMMA]) + JsonMember(entries[n], ryu)
  }

  function JsonMember(e: S.Entry, ryu: FloatFormat): seq<byte>
    decreases e, 0
  {
    JsonEscape.Quoted(CowStr.Deref(e.key)) + [COLON] + Json(e.val, ryu)
  }

  // ----- the events of a value print as the value -----

  /** The separator the top frame of `stack` asks for; none on an empty stack. */
  function SepOf(stack: seq<Frame>): seq<byte>
  {
    if stack == [] then [] else Sep(stack[|stack| - 1])
  }

  /** The stack once an item has been written on it: the top frame moved on. */
  function AfterOf(stack: seq<Frame>): seq<Frame>
  {
    if stack == [] then [] else stack[..|stack| - 1] + [After(stack[|stack| - 1])]
  }

  lemma AtTop(base: seq<Frame>, top: Frame)
    ensures SepOf(base + [top]) == Sep(top) && AfterOf(base + [top]) == base + [After(top)]
  {
    assert (base + [top])[..|base|] == base;
  }

  /** An event that ends no container is written after the separator of whatever frame is on top. */
  lemma StepAt(stack: seq<Frame>, ev: E.Event, ryu: FloatFormat)
    requires !ev.ArrayEnd? && !ev.MapEnd?
    ensures Step(stack, ev, ryu) == Behind(SepOf(stack), Emit(AfterOf(stack), ev, ryu))
  {
    if stack == [] {
      assert [] + Emit([], ev, ryu).bytes == Emit([], ev, ryu).bytes;
    } else {
      var n := |stack| - 1;
      assert stack == stack[..n] + [stack[n]];
      StepUnder(stack[..n], stack[n], ev, ryu);
    }
  }

  /**
   * The events of a value, written on a stack: the top frame's separator,
   * the value's text, and the top frame moved on; nothing below the top
   * frame changes and nothing panics.
   */
  lemma {:induction false} ValueRun(stack: seq<Frame>, v: S.Value, ryu: FloatFormat)
    requires S.ValidValue(v)
    ensures Run(stack, S.ValueEvents(v), ryu) == Outcome(SepOf(stack) + Json(v, ryu), AfterOf(stack), false)
    decreases v, 2
  {
    match v
    case Array(items) => ArrayRun(stack, items, ryu);
    case Map(entries) => MapRun(stack, entries, ryu);
    case _ => ScalarRun(stack, v, ryu);
  }

  lemma {:induction false} ArrayRun(stack: seq<Frame>, items: seq<S.Value>, ryu: FloatFormat)
    requires S.ValidValue(S.Array(items))
    ensures Run(stack, S.ValueEvents(S.Array(items)), ryu) ==
      Outcome(SepOf(stack) + Json(S.Array(items), ryu), AfterOf(stack), false)
    decreases S.Array(items), 1
  {
    var b := AfterOf(stack);
    ArrayShape(items, ryu);
    ItemsRun(b, items, ryu);
    StepAt(stack, E.ArrayStart(Some(|items|)), ryu);
    StepUnder(b, ArrayFrame(items == []), E.ArrayEnd, ryu);
    ContainerRun(stack, b, E.ArrayStart(Some(|items|)), S.Concat(S.ArrayRuns(items)), E.ArrayEnd,
                 OPEN_BRACKET, CLOSE_BRACKET, ArrayFrame(true), ArrayFrame(items == []), SepOf(stack),
                 JsonItems(items, ryu), ryu);
  }

  lemma {:induction false} MapRun(stack: seq<Frame>, entries: seq<S.Entry>, ryu: FloatFormat)
    requires S.ValidValue(S.Map(entries))
    ensures Run(stack, S.ValueEvents(S.Map(entries)), ryu) ==
      Outcome(SepOf(stack) + Json(S.Map(entries), ryu), AfterOf(stack), false)
    decreases S.Map(entries), 1
  {
    var b := AfterOf(stack);
    MapShape(entries, ryu);
    MembersRun(b, entries, ryu);
    StepAt(stack, E.MapStart(Some(|entries|)), ryu);
    StepUnder(b, MapKey(entries == []), E.MapEnd, ryu);
    ContainerRun(stack, b, E.MapStart(Some(|entries|)), S.Concat(S.MapRuns(entries)), E.MapEnd,
                 OPEN_BRACE, CLOSE_BRACE, MapKey(true), MapKey(entries == []), SepOf(stack),
                 JsonMembers(entries, ryu), ryu);
  }

  /** A scalar is one event, written after the frame's separator. */
  lemma ScalarRun(stack: seq<Frame>, v: S.Value, ryu: FloatFormat)
    requires !v.Array? && !v.Map?
    ensures Run(stack, S.ValueEvents(v), ryu) == Outcome(SepOf(stack) + Json(v, ryu), AfterOf(stack), false)
  {
    var ev := S.ValueEvents(v)[0];
    assert S.ValueEvents(v) == [ev];
    StepAt(stack, ev, ryu);
    RunOne(stack, ev, ryu);
  }

  /**
   * A container's run: the start event writes `sep` and the opening
   * bracket and pushes `inner`; the members leave `innerAfter`; the end
   * event writes the closing bracket and pops.
   */
  lemma ContainerRun(stack: seq<Frame>, b: seq<Frame>, open: E.Event, members: seq<E.Event>, close: E.Event,
                     openByte: byte, closeByte: byte, inner: Frame, innerAfter: Frame, sep: seq<byte>,
                     text: seq<byte>, ryu: FloatFormat)
    requires Step(stack, open, ryu) == Outcome(sep + [openByte], b + [inner], false)
    requires Run(b + [inner], members, ryu) == Outcome(text, b + [innerAfter], false)
    requires Step(b + [innerAfter], close, ryu) == Outcome([closeByte], b, false)
    ensures Run(stack, [open] + members + [close], ryu) == Outcome(sep + ([openByte] + text + [closeByte]), b, false)
  {
    FoldContainer((st, ev) => Step(st, ev, ryu), stack, b + [inner], b + [innerAfter], b,
                  open, members, close, sep + [openByte], text, [closeByte]);
    Regroup(sep, [openByte], text, [closeByte]);
  }

  /** An opening step, a run of members and a closing step, for any step function. */
  lemma FoldContainer(step: Stepper, stack: seq<Frame>, s1: seq<Frame>, s2: seq<Frame>, s3: seq<Frame>,
                      open: E.Event, members: seq<E.Event>, close: E.Event,
                      x: seq<byte>, y: seq<byte>, z: seq<byte>)
    requires step(stack, open) == Outcome(x, s1, false)
    requires Fold(step, s1, members) == Outcome(y, s2, false)
    requires step(s2, close) == Outcome(z, s3, false)
    ensures Fold(step, stack, [open] + members + [close]) == Outcome(x + (y + z), s3, false)
  {
    var evs := [open] + members + [close];
    assert evs[0] == open && evs[1..] == members + [close];
    FoldAppend(step, s1, members, [close]);
    FoldOne(step, s2, close);
  }

  lemma Regroup(a: seq<byte>, b: seq<byte>, c: seq<byte>, d: seq<byte>)
    ensures (a + b) + (c + d) == a + (b + c + d)
  {
  }

  /** An array's events and text: its items between the start and end event, and between brackets. */
  lemma ArrayShape(items: seq<S.Value>, ryu: FloatFormat)
    requires S.ValidValue(S.Array(items))
    ensures S.ValueEvents(S.Array(items)) ==
      [E.ArrayStart(Some(|items|))] + S.Concat(S.ArrayRuns(items)) + [E.ArrayEnd]
    ensures Json(S.Array(items), ryu) == [OPEN_BRACKET] + JsonItems(items, ryu) + [CLOSE_BRACKET]
  {
  }

  /** A map's events and text: its members between the start and end event, and between braces. */
  lemma MapShape(entries: seq<S.Entry>, ryu: FloatFormat)
    requires S.ValidValue(S.Map(entries))
    ensures S.ValueEvents(S.Map(entries)) ==
      [E.MapStart(Some(|entries|))] + S.Concat(S.MapRuns(entries)) + [E.MapEnd]
    ensures Json(S.Map(entries), ryu) == [OPEN_BRACE] + JsonMembers(entries, ryu) + [CLOSE_BRACE]
  {
  }

  /** Two runs one after the other, each ending where the next starts. */
  lemma RunThen(st0: seq<Frame>, a: seq<E.Event>, c: seq<E.Event>, x: seq<byte>, st1: seq<Frame>,
                y: seq<byte>, st2: seq<Frame>, ryu: FloatFormat)
    requires Run(st0, a, ryu) == Outcome(x, st1, false)
    requires Run(st1, c, ryu) == Outcome(y, st2, false)
    ensures Run(st0, a + c, ryu) == Outcome(x + y, st2, false)
  {
    FoldAppend((st, ev) => Step(st, ev, ryu), st0, a, c);
  }

  /** An array's items, written after its `[`. */
  lemma {:induction false} ItemsRun(b: seq<Frame>, items: seq<S.Value>, ryu: FloatFormat)
    requires forall i :: 0 <= i < |items| ==> S.ValidValue(items[i])
    ensures Run(b + [ArrayFrame(true)], S.Concat(S.ArrayRuns(items)), ryu) ==
      Outcome(JsonItems(items, ryu), b + [ArrayFrame(items == [])], false)
    decreases items, 1
  {
    if items != [] {
      var n := |items| - 1;
      var init := items[..n];
      var runs := S.ArrayRuns(items);
      assert runs[..n] == S.ArrayRuns(init);
      assert S.Concat(runs) == S.Concat(runs[..n]) + runs[n];
      ItemsRun(b, init, ryu);
      ItemRun(b, n == 0, items[n], ryu);
      RunThen(b + [ArrayFrame(true)], S.Concat(S.ArrayRuns(init)), S.ValueEvents(items[n]),
              JsonItems(init, ryu), b + [ArrayFrame(n == 0)],
              Sep(ArrayFrame(n == 0)) + Json(items[n], ryu), b + [ArrayFrame(false)], ryu);
    }
  }

  /** One item under `ArrayFrame`: its separator and text, leaving the frame past its first item. */
  lemma ItemRun(b: seq<Frame>, first: bool, v: S.Value, ryu: FloatFormat)
    requires S.ValidValue(v)
    ensures Run(b + [ArrayFrame(first)], S.ValueEvents(v), ryu) ==
      Outcome(Sep(ArrayFrame(first)) + Json(v, ryu), b + [ArrayFrame(false)], false)
    decreases v, 3
  {
    ValueRun(b + [ArrayFrame(first)], v, ryu);
    AtTop(b, ArrayFrame(first));
  }

  /** A map's members, written after its `{`. */
  lemma {:induction false} MembersRun(b: seq<Frame>, entries: seq<S.Entry>, ryu: FloatFormat)
    requires forall i :: 0 <= i < |entries| ==> S.ValidValue(entries[i].val)
    ensures Run(b + [MapKey(true)], S.Concat(S.MapRuns(entries)), ryu) ==
      Outcome(JsonMembers(entries, ryu), b + [MapKey(entries == [])], false)
    decreases entries, 1
  {
    if entries != [] {
      var n := |entries| - 1;
      var init := entries[..n];
      var runs := S.MapRuns(entries);
      assert runs[..n] == S.MapRuns(init);
      assert S.Concat(runs) == S.Concat(runs[..n]) + runs[n];
      MembersRun(b, init, ryu);
      EntryRun(b, n == 0, entries[n], ryu);
      RunThen(b + [MapKey(true)], S.Concat(S.MapRuns(init)), S.EntryEvents(entries[n]),
              JsonMembers(init, ryu), b + [MapKey(n == 0)],
              Sep(MapKey(n == 0)) + JsonMember(entries[n], ryu), b + [MapKey(false)], ryu);
    }
  }

  /** One member: the key moves the frame to `MapValue`, the value's `:` moves it back. */
  lemma EntryRun(b: seq<Frame>, first: bool, e: S.Entry, ryu: FloatFormat)
    requires S.ValidValue(e.val)
    ensures Run(b + [MapKey(first)], S.EntryEvents(e), ryu) ==
      Outcome(Sep(MapKey(first)) + JsonMember(e, ryu), b + [MapKey(false)], false)
    decreases e, 1
  {
    var key := E.Str(CowStr.Borrowed(CowStr.Deref(e.key)));
    var sep := Sep(MapKey(first));
    var quoted := JsonEscape.Quoted(CowStr.Deref(e.key));
    KeyRun(b, first, key, ryu);
    ValueRun(b + [MapValue], e.val, ryu);
    AtTop(b, MapValue);
    RunThen(b + [MapKey(first)], [key], S.ValueEvents(e.val), sep + quoted, b + [MapValue],
            [COLON] + Json(e.val, ryu), b + [MapKey(false)], ryu);
    Regroup(sep, quoted, [COLON], Json(e.val, ryu));
  }

  /** A key under `MapKey`: its separator and quoted text, leaving the frame at `MapValue`. */
  lemma KeyRun(b: seq<Frame>, first: bool, key: E.Event, ryu: FloatFormat)
    requires key.Str?
    ensures Run(b + [MapKey(first)], [key], ryu) ==
      Outcome(Sep(MapKey(first)) + JsonEscape.Quoted(CowStr.Deref(key.s)), b + [MapValue], false)
  {
    StepUnder(b, MapKey(first), key, ryu);
    RunOne(b + [MapKey(first)], key, ryu);
  }

  /** From a fresh serializer, a value's events write exactly its JSON text and close every frame. */
  lemma TopRun(v: S.Value, ryu: FloatFormat)
    requires S.ValidValue(v)
    ensures Run([], S.ValueEvents(v), ryu) == Outcome(Json(v, ryu), [], false)
  {
    ValueRun([], v, ryu);
    assert [] + Json(v, ryu) == Json(v, ryu);
  }
}
