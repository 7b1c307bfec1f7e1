/**
 * `Serialize` of merde_core: each serializable value writes a fixed
 * sequence of events to a `Serializer`, stopping at the first write that
 * fails.
 *
 * `Events(x)` is the whole sequence a value emits; the `Serialize*`
 * methods issue the writes one at a time to a `Sink` and are proved to
 * log exactly a prefix of `Events(x)`: all of it when no write fails, and
 * everything before the failing write otherwise.
 */
module Serialize {
  import opened Wrappers
  import opened MachineInts
  import CowStr
  import CowBytes
  import StdCow
  import Float64
  import E = Event

  /**
   * The `Value` that this file serializes. Its shape differs from the
   * `Value` of merde_core/src/value.rs: it has separate signed and
   * unsigned integers and a byte-string variant.
   */
  datatype Value =
    | I64(i: i64)
    | U64(u: u64)
    | Float(f: Float64.F64)
    | Str(s: CowStr.CowStr)
    | Bytes(b: CowBytes.CowBytes)
    | Null
    | Bool(flag: bool)
    | Array(items: seq<Value>)
    | Map(entries: seq<Entry>)

  datatype Entry = Entry(key: CowStr.CowStr, val: Value)

  /** A key and a value of a `HashMap`. */
  datatype Pair = Pair(key: Ser, val: Ser)

  /** A value of some type with a `Serialize` impl. */
  datatype Ser =
    | SInt(kind: IntKind, n: int)            // i8..i64, u8..u64, isize, usize
    | SFloat(f: Float64.F64)                 // f32 (widened) and f64
    | SBool(flag: bool)
    | SString(text: string)                  // String
    | SStr(text: string)                     // &str
    | SCowStr(c: CowStr.CowStr)
    | SCow(cow: StdCow.Cow<string>)
    | SCowBytes(bytes: CowBytes.CowBytes)
    | SOption(opt: Option<Ser>)
    | SSeq(elems: seq<Ser>)                  // &[T] and Vec<T>
    | SSmartPtr(inner: Ser)                   // Box<T> and Arc<T>
    | SHashMap(pairs: seq<Pair>)               // HashMap<K, V>, in iteration order
    | SMap(mapEntries: seq<Entry>)
    | SArray(arrayItems: seq<Value>)
    | SValue(v: Value)
    | STuple(parts: seq<Ser>)                // arity 1 to 12

  /**
   * What the Rust types guarantee: integers are in their type's range, and
   * a length fits a `usize`.
   */
  predicate ValidValue(v: Value)
  {
    match v
    case Array(items) => |items| <= U64_MAX && forall i :: 0 <= i < |items| ==> ValidValue(items[i])
    case Map(entries) => |entries| <= U64_MAX && forall i :: 0 <= i < |entries| ==> ValidValue(entries[i].val)
    case _ => true
  }

  predicate Valid(x: Ser)
  {
    match x
    case SInt(k, n) => Fits(k, n)
    case SOption(o) => o.Some? ==> Valid(o.value)
    case SSeq(elems) => |elems| <= U64_MAX && forall i :: 0 <= i < |elems| ==> Valid(elems[i])
    case SSmartPtr(inner) => Valid(inner)
    case SHashMap(pairs) =>
      |pairs| <= U64_MAX && forall i :: 0 <= i < |pairs| ==> Valid(pairs[i].key) && Valid(pairs[i].val)
    case SMap(entries) => ValidValue(Map(entries))
    case SArray(items) => ValidValue(Array(items))
    case SValue(v) => ValidValue(v)
    case STuple(parts) => 1 <= |parts| <= 12 && forall i :: 0 <= i < |parts| ==> Valid(parts[i])
    case _ => true
  }

  /** The concatenation of event runs, built from the back so that one more run is one more append. */
  function Concat(runs: seq<seq<E.Event>>): seq<E.Event>
  {
    if runs == [] then [] else Concat(runs[..|runs| - 1]) + runs[|runs| - 1]
  }

  /** A container's events: the start event, the runs of its members, the end event. */
  function Container(open: E.Event, runs: seq<seq<E.Event>>, close: E.Event): seq<E.Event>
  {
    [open] + Concat(runs) + [close]
  }

  // ----- the event sequences -----

  /** `impl Serialize for Value`: scalars as their own event, containers as `Array`/`Map` do. */
  function ValueEvents(v: Value): seq<E.Event>
    requires ValidValue(v)
    decreases v, 2
  {
    match v
    case I64(i) => [E.I64(i)]
    case U64(u) => [E.U64(u)]
    case Float(f) => [E.F64(f)]
    case Str(s) => [E.Str(s)]
    case Bytes(b) => [E.Bytes(b)]
    case Null => [E.Null]
    case Bool(b) => [E.Bool(b)]
    case Array(items) => ArrayEvents(items)
    case Map(entries) => MapEvents(entries)
  }

  /** `impl Serialize for Array`: `ArrayStart` with the length, each item, `ArrayEnd`. */
  function ArrayEvents(items: seq<Value>): seq<E.Event>
    requires |items| <= U64_MAX && forall i :: 0 <= i < |items| ==> ValidValue(items[i])
    decreases items, 1
  {
    Container(E.ArrayStart(Some(|items|)), ArrayRuns(items), E.ArrayEnd)
  }

  function ArrayRuns(items: seq<Value>): (runs: seq<seq<E.Event>>)
    requires forall i :: 0 <= i < |items| ==> ValidValue(items[i])
    ensures |runs| == |items|
    ensures forall i :: 0 <= i < |items| ==> runs[i] == ValueEvents(items[i])
    decreases items, 0
  {
    seq(|items|, i requires 0 <= i < |items| => ValueEvents(items[i]))
  }

  /** `impl Serialize for Map`: `MapStart` with the length, each key as a borrowed string then its value, `MapEnd`. */
  function MapEvents(entries: seq<Entry>): seq<E.Event>
    requires |entries| <= U64_MAX && forall i :: 0 <= i < |entries| ==> ValidValue(entries[i].val)
    decreases entries, 1
  {
    Container(E.MapStart(Some(|entries|)), MapRuns(entries), E.MapEnd)
  }

  function MapRuns(entries: seq<Entry>): (runs: seq<seq<E.Event>>)
    requires forall i :: 0 <= i < |entries| ==> ValidValue(entries[i].val)
    ensures |runs| == |entries|
    ensures forall i :: 0 <= i < |entries| ==> runs[i] == EntryEvents(entries[i])
    decreases entries, 0
  {
    seq(|entries|, i requires 0 <= i < |entries| => EntryEvents(entries[i]))
  }

  function EntryEvents(e: Entry): seq<E.Event>
    requires ValidValue(e.val)
    decreases e, 0
  {
    [E.Str(CowStr.Borrowed(CowStr.Deref(e.key)))] + ValueEvents(e.val)
  }

  /** The events `x.serialize(serializer)` writes when every write succeeds. */
  function Events(x: Ser): seq<E.Event>
    requires Valid(x)
    decreases x, 2
  {
    match x
    case SInt(k, n) => [E.FromInt(k, n)]
    case SFloat(f) => [E.F64(f)]
    case SBool(b) => [E.Bool(b)]
    case SString(s) => [E.Str(CowStr.Borrowed(s))]
    case SStr(s) => [E.Str(CowStr.Borrowed(s))]
    case SCowStr(c) => [E.Str(CowStr.Borrowed(CowStr.Deref(c)))]
    case SCow(c) => [E.Str(CowStr.Borrowed(c.val))]
    case SCowBytes(b) => [E.Bytes(CowBytes.Borrowed(CowBytes.Deref(b)))]
    case SOption(o) => if o.None? then [E.Null] else Events(o.value)
    case SSeq(elems) => SeqEvents(elems)
    case SSmartPtr(inner) => Events(inner)
    case SHashMap(pairs) => HashMapEvents(pairs)
    case SMap(entries) => MapEvents(entries)
    case SArray(items) => ArrayEvents(items)
    case SValue(v) => ValueEvents(v)
    case STuple(parts) => SeqEvents(parts)
  }

  /** Slices, `Vec` and tuples: `ArrayStart` with the length, every element in order, `ArrayEnd`. */
  function SeqEvents(elems: seq<Ser>): seq<E.Event>
    requires |elems| <= U64_MAX && forall i :: 0 <= i < |elems| ==> Valid(elems[i])
    decreases elems, 1
  {
    Container(E.ArrayStart(Some(|elems|)), SeqRuns(elems), E.ArrayEnd)
  }

  function SeqRuns(elems: seq<Ser>): (runs: seq<seq<E.Event>>)
    requires forall i :: 0 <= i < |elems| ==> Valid(elems[i])
    ensures |runs| == |elems|
    ensures forall i :: 0 <= i < |elems| ==> runs[i] == Events(elems[i])
    decreases elems, 0
  {
    seq(|elems|, i requires 0 <= i < |elems| => Events(elems[i]))
  }

  /** `HashMap`: `MapStart` with the length, each key's events then its value's, `MapEnd`. */
  function HashMapEvents(pairs: seq<Pair>): seq<E.Event>
    requires |pairs| <= U64_MAX && forall i :: 0 <= i < |pairs| ==> Valid(pairs[i].key) && Valid(pairs[i].val)
    decreases pairs, 1
  {
    Container(E.MapStart(Some(|pairs|)), PairRuns(pairs), E.MapEnd)
  }

  function PairRuns(pairs: seq<Pair>): (runs: seq<seq<E.Event>>)
    requires forall i :: 0 <= i < |pairs| ==> Valid(pairs[i].key) && Valid(pairs[i].val)
    ensures |runs| == |pairs|
    ensures forall i :: 0 <= i < |pairs| ==> runs[i] == PairEvents(pairs[i])
    decreases pairs, 0
  {
    seq(|pairs|, i requires 0 <= i < |pairs| => PairEvents(pairs[i]))
  }

  function PairEvents(p: Pair): seq<E.Event>
    requires Valid(p.key) && Valid(p.val)
    decreases p, 0
  {
    Events(p.key) + Events(p.val)
  }

  // ----- writing to a serializer -----

  /** The error a failing `write` returns; `at` counts the writes before it. */
  datatype WriteError = WriteFailed(at: nat)

  /**
   * A `Serializer` that records every event it accepts and fails the write
   * with index `failAt`, if any: it stands for any sink whose `write` may
   * fail, such as one writing to an I/O stream.
   */
  class Sink {
    var log: seq<E.Event>
    const failAt: Option<nat>

    constructor (failAt: Option<nat>)
      ensures log == [] && this.failAt == failAt
    {
      log := [];
      this.failAt := failAt;
    }

    method Write(ev: E.Event) returns (r: Result<(), WriteError>)
      modifies this
      ensures failAt == Some(|old(log)|) ==> r == Err(WriteFailed(|old(log)|)) && log == old(log)
      ensures failAt != Some(|old(log)|) ==> r == Ok(()) && log == old(log) + [ev]
    {
      if failAt == Some(|log|) {
        r := Err(WriteFailed(|log|));
      } else {
        log := log + [ev];
        r := Ok(());
      }
    }
  }

  /** The write with index `failAt` is among the `n` writes starting at index `start`. */
  predicate FailsWithin(failAt: Option<nat>, start: nat, n: nat)
  {
    failAt.Some? && start <= failAt.value < start + n
  }

  /** The events that reach the sink when `evs` are written from index `start` on. */
  function Logged(failAt: Option<nat>, start: nat, evs: seq<E.Event>): seq<E.Event>
  {
    if FailsWithin(failAt, start, |evs|) then evs[..failAt.value - start] else evs
  }

  /** What writing `evs` from index `start` returns: the first failure, or success. */
  function Outcome(failAt: Option<nat>, start: nat, evs: seq<E.Event>): (r: Result<(), WriteError>)
    ensures r.Err? <==> FailsWithin(failAt, start, |evs|)
  {
    if FailsWithin(failAt, start, |evs|) then Err(WriteFailed(failAt.value)) else Ok(())
  }

  lemma LoggedAppend(failAt: Option<nat>, start: nat, a: seq<E.Event>, b: seq<E.Event>)
    ensures FailsWithin(failAt, start, |a|) ==>
      Logged(failAt, start, a + b) == Logged(failAt, start, a) && Outcome(failAt, start, a + b) == Outcome(failAt, start, a)
    ensures !FailsWithin(failAt, start, |a|) ==>
      Logged(failAt, start, a + b) == a + Logged(failAt, start + |a|, b) && Outcome(failAt, start, a + b) == Outcome(failAt, start + |a|, b)
  {
    if FailsWithin(failAt, start, |a|) {
      assert (a + b)[..failAt.value - start] == a[..failAt.value - start];
    } else if FailsWithin(failAt, start + |a|, |b|) {
      assert (a + b)[..failAt.value - start] == a + b[..failAt.value - start - |a|];
    }
  }

  lemma {:induction false} ConcatSplit(runs: seq<seq<E.Event>>, i: nat)
    requires i <= |runs|
    ensures Concat(runs) == Concat(runs[..i]) + Concat(runs[i..])
    decreases |runs|
  {
    if i < |runs| {
      var last := |runs| - 1;
      ConcatSplit(runs[..last], i);
      assert runs[..last][..i] == runs[..i];
      assert runs[i..][..|runs[i..]| - 1] == runs[..last][i..];
    } else {
      assert runs[..i] == runs;
    }
  }

  lemma ConcatFirst(runs: seq<seq<E.Event>>)
    requires runs != []
    ensures Concat(runs) == runs[0] + Concat(runs[1..])
  {
    ConcatSplit(runs, 1);
    assert runs[..1] == [runs[0]];
    assert Concat([runs[0]]) == Concat([]) + runs[0];
  }

  /**
   * One iteration of the loop over a container's members, when member `i`'s
   * writes fail: before it no write had failed and the sink held the runs of
   * members `0..i`, so the sink and the result are those of writing all the runs.
   */
  lemma MemberFails(failAt: Option<nat>, start: nat, log0: seq<E.Event>, runs: seq<seq<E.Event>>, i: nat,
                    before: seq<E.Event>, after: seq<E.Event>, r: Result<(), WriteError>)
    requires i < |runs|
    requires !FailsWithin(failAt, start, |Concat(runs[..i])|)
    requires start == |log0| && before == log0 + Concat(runs[..i])
    requires after == before + Logged(failAt, |before|, runs[i])
    requires r == Outcome(failAt, |before|, runs[i]) && r.Err?
    ensures after == log0 + Logged(failAt, start, Concat(runs)) && r == Outcome(failAt, start, Concat(runs))
  {
    var done := Concat(runs[..i]);
    var rest := Concat(runs[i + 1..]);
    ConcatSplit(runs, i);
    ConcatFirst(runs[i..]);
    assert runs[i..][0] == runs[i] && runs[i..][1..] == runs[i + 1..];
    assert Concat(runs) == done + (runs[i] + rest);
    LoggedAppend(failAt, start, done, runs[i] + rest);
    LoggedAppend(failAt, start + |done|, runs[i], rest);
    assert after == log0 + (done + Logged(failAt, start + |done|, runs[i]));
  }

  /**
   * One iteration of the loop over a container's members, when member `i`'s
   * writes succeed: the written prefix grows by member `i`'s run, still with no failure.
   */
  lemma MemberDone(failAt: Option<nat>, start: nat, log0: seq<E.Event>, runs: seq<seq<E.Event>>, i: nat,
                   before: seq<E.Event>, after: seq<E.Event>, r: Result<(), WriteError>)
    requires i < |runs|
    requires !FailsWithin(failAt, start, |Concat(runs[..i])|)
    requires start == |log0| && before == log0 + Concat(runs[..i])
    requires after == before + Logged(failAt, |before|, runs[i])
    requires r == Outcome(failAt, |before|, runs[i]) && r.Ok?
    ensures !FailsWithin(failAt, start, |Concat(runs[..i + 1])|) && after == log0 + Concat(runs[..i + 1])
  {
    assert runs[..i + 1][..i] == runs[..i];
    var done := Concat(runs[..i]);
    assert Concat(runs[..i + 1]) == done + runs[i];
    assert after == log0 + (done + runs[i]);
  }

  /** Before the loop nothing is written; after it, with no failure, every run is, and the loop succeeds. */
  lemma MembersBounds(failAt: Option<nat>, start: nat, runs: seq<seq<E.Event>>)
    ensures Concat(runs[..0]) == [] && !FailsWithin(failAt, start, 0)
    ensures !FailsWithin(failAt, start, |Concat(runs[..|runs|])|) ==>
      Logged(failAt, start, Concat(runs)) == Concat(runs[..|runs|]) && Outcome(failAt, start, Concat(runs)) == Ok(())
  {
    assert runs[..0] == [];
    assert runs[..|runs|] == runs;
  }

  /** A container's writes: the start event, then the members' runs, then the end event. */
  lemma ContainerParts(failAt: Option<nat>, start: nat, open: E.Event, runs: seq<seq<E.Event>>, close: E.Event)
    ensures var whole := Container(open, runs, close);
      (FailsWithin(failAt, start, 1) ==>
         Logged(failAt, start, whole) == [] && Outcome(failAt, start, whole) == Err(WriteFailed(start))) &&
      (!FailsWithin(failAt, start, 1) && FailsWithin(failAt, start + 1, |Concat(runs)|) ==>
         Logged(failAt, start, whole) == [open] + Logged(failAt, start + 1, Concat(runs)) &&
         Outcome(failAt, start, whole) == Outcome(failAt, start + 1, Concat(runs))) &&
      (!FailsWithin(failAt, start, 1) && !FailsWithin(failAt, start + 1, |Concat(runs)|) ==>
         Logged(failAt, start, whole) == [open] + Concat(runs) + Logged(failAt, start + 1 + |Concat(runs)|, [close]) &&
         Outcome(failAt, start, whole) == Outcome(failAt, start + 1 + |Concat(runs)|, [close]))
  {
    assert Container(open, runs, close) == [open] + (Concat(runs) + [close]);
    LoggedAppend(failAt, start, [open], Concat(runs) + [close]);
    LoggedAppend(failAt, start + 1, Concat(runs), [close]);
  }

  /** Writing a container whose start event fails logs nothing of it. */
  lemma ContainerOpenFails(failAt: Option<nat>, log0: seq<E.Event>, open: E.Event, runs: seq<seq<E.Event>>, close: E.Event)
    requires failAt == Some(|log0|)
    ensures log0 == log0 + Logged(failAt, |log0|, Container(open, runs, close))
    ensures Err(WriteFailed(|log0|)) == Outcome(failAt, |log0|, Container(open, runs, close))
  {
    ContainerParts(failAt, |log0|, open, runs, close);
  }

  /** Writing a container one of whose members fails logs the start event and the members' prefix. */
  lemma ContainerBodyFails(failAt: Option<nat>, log0: seq<E.Event>, open: E.Event, runs: seq<seq<E.Event>>, close: E.Event)
    requires failAt != Some(|log0|) && FailsWithin(failAt, |log0| + 1, |Concat(runs)|)
    ensures log0 + [open] + Logged(failAt, |log0| + 1, Concat(runs)) == log0 + Logged(failAt, |log0|, Container(open, runs, close))
    ensures Outcome(failAt, |log0| + 1, Concat(runs)) == Outcome(failAt, |log0|, Container(open, runs, close))
  {
    ContainerParts(failAt, |log0|, open, runs, close);
    assert log0 + [open] + Logged(failAt, |log0| + 1, Concat(runs)) == log0 + ([open] + Logged(failAt, |log0| + 1, Concat(runs)));
  }

  /** Writing a container whose end event fails logs all but the end event. */
  lemma ContainerCloseFails(failAt: Option<nat>, log0: seq<E.Event>, open: E.Event, runs: seq<seq<E.Event>>, close: E.Event)
    requires failAt == Some(|log0| + 1 + |Concat(runs)|)
    ensures log0 + [open] + Concat(runs) == log0 + Logged(failAt, |log0|, Container(open, runs, close))
    ensures Err(WriteFailed(|log0| + 1 + |Concat(runs)|)) == Outcome(failAt, |log0|, Container(open, runs, close))
  {
    ContainerParts(failAt, |log0|, open, runs, close);
    assert [close][..0] == [];
    assert log0 + [open] + Concat(runs) == log0 + ([open] + Concat(runs) + []);
  }

  /** Writing a container none of whose writes fails logs all of its events. */
  lemma ContainerDone(failAt: Option<nat>, log0: seq<E.Event>, open: E.Event, runs: seq<seq<E.Event>>, close: E.Event)
    requires failAt != Some(|log0|) && !FailsWithin(failAt, |log0| + 1, |Concat(runs)|)
    requires failAt != Some(|log0| + 1 + |Concat(runs)|)
    ensures log0 + [open] + Concat(runs) + [close] == log0 + Logged(failAt, |log0|, Container(open, runs, close))
    ensures Ok(()) == Outcome(failAt, |log0|, Container(open, runs, close))
  {
    ContainerParts(failAt, |log0|, open, runs, close);
    assert log0 + [open] + Concat(runs) + [close] == log0 + ([open] + Concat(runs) + [close]);
  }

  /** `impl Serialize for Value`. */
  method SerializeValue(v: Value, sink: Sink) returns (r: Result<(), WriteError>)
    requires ValidValue(v)
    modifies sink
    ensures sink.log == old(sink.log) + Logged(sink.failAt, |old(sink.log)|, ValueEvents(v))
    ensures r == Outcome(sink.failAt, |old(sink.log)|, ValueEvents(v))
    decreases v, 3
  {
    match v
    case I64(i) => r := sink.Write(E.I64(i));
    case U64(u) => r := sink.Write(E.U64(u));
    case Float(f) => r := sink.Write(E.F64(f));
    case Str(s) => r := sink.Write(E.Str(s));
    case Bytes(b) => r := sink.Write(E.Bytes(b));
    case Null => r := sink.Write(E.Null);
    case Bool(b) => r := sink.Write(E.Bool(b));
    case Array(items) => r := SerializeArray(items, sink);
    case Map(entries) => r := SerializeMap(entries, sink);
  }

  /** `impl Serialize for Array`: the start event with the length, the items, the end event. */
  method SerializeArray(items: seq<Value>, sink: Sink) returns (r: Result<(), WriteError>)
    requires |items| <= U64_MAX && forall i :: 0 <= i < |items| ==> ValidValue(items[i])
    modifies sink
    ensures sink.log == old(sink.log) + Logged(sink.failAt, |old(sink.log)|, ArrayEvents(items))
    ensures r == Outcome(sink.failAt, |old(sink.log)|, ArrayEvents(items))
    decreases items, 2
  {
    ghost var log0 := sink.log;
    r := sink.Write(E.ArrayStart(Some(|items|)));
    if r.Err? {
      ContainerOpenFails(sink.failAt, log0, E.ArrayStart(Some(|items|)), ArrayRuns(items), E.ArrayEnd);
      return;
    }
    r := WriteArrayMembers(items, sink);
    if r.Err? {
      ContainerBodyFails(sink.failAt, log0, E.ArrayStart(Some(|items|)), ArrayRuns(items), E.ArrayEnd);
      return;
    }
    r := sink.Write(E.ArrayEnd);
    if r.Err? {
      ContainerCloseFails(sink.failAt, log0, E.ArrayStart(Some(|items|)), ArrayRuns(items), E.ArrayEnd);
    } else {
      ContainerDone(sink.failAt, log0, E.ArrayStart(Some(|items|)), ArrayRuns(items), E.ArrayEnd);
    }
  }

  /** The `for` loop of SerializeArray: every member in order, stopping at the first failure. */
  method WriteArrayMembers(items: seq<Value>, sink: Sink) returns (r: Result<(), WriteError>)
    requires |items| <= U64_MAX && forall i :: 0 <= i < |items| ==> ValidValue(items[i])
    modifies sink
    ensures sink.log == old(sink.log) + Logged(sink.failAt, |old(sink.log)|, Concat(ArrayRuns(items)))
    ensures r == Outcome(sink.failAt, |old(sink.log)|, Concat(ArrayRuns(items)))
    decreases items, 1
  {
    ghost var log0, start := sink.log, |sink.log|;
    ghost var runs := ArrayRuns(items);
    MembersBounds(sink.failAt, start, runs);
    r := Ok(());
    var i := 0;
    while i < |items|
      invariant 0 <= i <= |items|
      invariant !FailsWithin(sink.failAt, start, |Concat(runs[..i])|)
      invariant sink.log == log0 + Concat(runs[..i])
      invariant r == Ok(())
    {
      assert runs[i] == ValueEvents(items[i]);
      ghost var before := sink.log;
      r := SerializeValue(items[i], sink);
      if r.Err? {
        MemberFails(sink.failAt, start, log0, runs, i, before, sink.log, r);
        return;
      }
      MemberDone(sink.failAt, start, log0, runs, i, before, sink.log, r);
      i := i + 1;
    }
  }

  /** `impl Serialize for Map`: the start event with the length, each key then its value, the end event. */
  method SerializeMap(entries: seq<Entry>, sink: Sink) returns (r: Result<(), WriteError>)
    requires |entries| <= U64_MAX && forall i :: 0 <= i < |entries| ==> ValidValue(entries[i].val)
    modifies sink
    ensures sink.log == old(sink.log) + Logged(sink.failAt, |old(sink.log)|, MapEvents(entries))
    ensures r == Outcome(sink.failAt, |old(sink.log)|, MapEvents(entries))
    decreases entries, 2
  {
    ghost var log0 := sink.log;
    r := sink.Write(E.MapStart(Some(|entries|)));
    if r.Err? {
      ContainerOpenFails(sink.failAt, log0, E.MapStart(Some(|entries|)), MapRuns(entries), E.MapEnd);
      return;
    }
    r := WriteMapMembers(entries, sink);
    if r.Err? {
      ContainerBodyFails(sink.failAt, log0, E.MapStart(Some(|entries|)), MapRuns(entries), E.MapEnd);
      return;
    }
    r := sink.Write(E.MapEnd);
    if r.Err? {
      ContainerCloseFails(sink.failAt, log0, E.MapStart(Some(|entries|)), MapRuns(entries), E.MapEnd);
    } else {
      ContainerDone(sink.failAt, log0, E.MapStart(Some(|entries|)), MapRuns(entries), E.MapEnd);
    }
  }

  /** The `for` loop of SerializeMap: every member in order, stopping at the first failure. */
  method WriteMapMembers(entries: seq<Entry>, sink: Sink) returns (r: Result<(), WriteError>)
    requires |entries| <= U64_MAX && forall i :: 0 <= i < |entries| ==> ValidValue(entries[i].val)
    modifies sink
    ensures sink.log == old(sink.log) + Logged(sink.failAt, |old(sink.log)|, Concat(MapRuns(entries)))
    ensures r == Outcome(sink.failAt, |old(sink.log)|, Concat(MapRuns(entries)))
    decreases entries, 1
  {
    ghost var log0, start := sink.log, |sink.log|;
    ghost var runs := MapRuns(entries);
    MembersBounds(sink.failAt, start, runs);
    r := Ok(());
    var i := 0;
    while i < |entries|
      invariant 0 <= i <= |entries|
      invariant !FailsWithin(sink.failAt, start, |Concat(runs[..i])|)
      invariant sink.log == log0 + Concat(runs[..i])
      invariant r == Ok(())
    {
      assert runs[i] == EntryEvents(entries[i]);
      ghost var before := sink.log;
      r := SerializeEntry(entries[i], sink);
      if r.Err? {
        MemberFails(sink.failAt, start, log0, runs, i, before, sink.log, r);
        return;
      }
      MemberDone(sink.failAt, start, log0, runs, i, before, sink.log, r);
      i := i + 1;
    }
  }

  /** One iteration of the `Map` loop: the key as a borrowed string, then the value. */
  method SerializeEntry(e: Entry, sink: Sink) returns (r: Result<(), WriteError>)
    requires ValidValue(e.val)
    modifies sink
    ensures sink.log == old(sink.log) + Logged(sink.failAt, |old(sink.log)|, EntryEvents(e))
    ensures r == Outcome(sink.failAt, |old(sink.log)|, EntryEvents(e))
    decreases e, 0
  {
    var key := E.Str(CowStr.Borrowed(CowStr.Deref(e.key)));
    LoggedAppend(sink.failAt, |sink.log|, [key], ValueEvents(e.val));
    r := sink.Write(key);
    if r.Err? {
      return;
    }
    r := SerializeValue(e.val, sink);
  }

  /** `x.serialize(serializer)`. */
  method Serialize(x: Ser, sink: Sink) returns (r: Result<(), WriteError>)
    requires Valid(x)
    modifies sink
    ensures sink.log == old(sink.log) + Logged(sink.failAt, |old(sink.log)|, Events(x))
    ensures r == Outcome(sink.failAt, |old(sink.log)|, Events(x))
    decreases x, 3
  {
    match x
    case SInt(k, n) => r := sink.Write(E.FromInt(k, n));
    case SFloat(f) => r := sink.Write(E.F64(f));
    case SBool(b) => r := sink.Write(E.Bool(b));
    case SString(s) => r := sink.Write(E.Str(CowStr.Borrowed(s)));
    case SStr(s) => r := sink.Write(E.Str(CowStr.Borrowed(s)));
    case SCowStr(c) => r := sink.Write(E.Str(CowStr.Borrowed(CowStr.Deref(c))));
    case SCow(c) => r := sink.Write(E.Str(CowStr.Borrowed(c.val)));
    case SCowBytes(b) => r := sink.Write(E.Bytes(CowBytes.Borrowed(CowBytes.Deref(b))));
    case SOption(o) =>
      if o.None? {
        r := sink.Write(E.Null);
      } else {
        r := Serialize(o.value, sink);
      }
    case SSeq(elems) => r := SerializeSeq(elems, sink);
    case SSmartPtr(inner) => r := Serialize(inner, sink);
    case SHashMap(pairs) => r := SerializeHashMap(pairs, sink);
    case SMap(entries) => r := SerializeMap(entries, sink);
    case SArray(items) => r := SerializeArray(items, sink);
    case SValue(v) => r := SerializeValue(v, sink);
    case STuple(parts) => r := SerializeSeq(parts, sink);
  }

  /** Slices, `Vec` and the tuples: the start event with the length, the elements in order, the end event. */
  method SerializeSeq(elems: seq<Ser>, sink: Sink) returns (r: Result<(), WriteError>)
    requires |elems| <= U64_MAX && forall i :: 0 <= i < |elems| ==> Valid(elems[i])
    modifies sink
    ensures sink.log == old(sink.log) + Logged(sink.failAt, |old(sink.log)|, SeqEvents(elems))
    ensures r == Outcome(sink.failAt, |old(sink.log)|, SeqEvents(elems))
    decreases elems, 2
  {
    ghost var log0 := sink.log;
    r := sink.Write(E.ArrayStart(Some(|elems|)));
    if r.Err? {
      ContainerOpenFails(sink.failAt, log0, E.ArrayStart(Some(|elems|)), SeqRuns(elems), E.ArrayEnd);
      return;
    }
    r := WriteSeqMembers(elems, sink);
    if r.Err? {
      ContainerBodyFails(sink.failAt, log0, E.ArrayStart(Some(|elems|)), SeqRuns(elems), E.ArrayEnd);
      return;
    }
    r := sink.Write(E.ArrayEnd);
    if r.Err? {
      ContainerCloseFails(sink.failAt, log0, E.ArrayStart(Some(|elems|)), SeqRuns(elems), E.ArrayEnd);
    } else {
      ContainerDone(sink.failAt, log0, E.ArrayStart(Some(|elems|)), SeqRuns(elems), E.ArrayEnd);
    }
  }

  /** The `for` loop of SerializeSeq: every member in order, stopping at the first failure. */
  method WriteSeqMembers(elems: seq<Ser>, sink: Sink) returns (r: Result<(), WriteError>)
    requires |elems| <= U64_MAX && forall i :: 0 <= i < |elems| ==> Valid(elems[i])
    modifies sink
    ensures sink.log == old(sink.log) + Logged(sink.failAt, |old(sink.log)|, Concat(SeqRuns(elems)))
    ensures r == Outcome(sink.failAt, |old(sink.log)|, Concat(SeqRuns(elems)))
    decreases elems, 1
  {
    ghost var log0, start := sink.log, |sink.log|;
    ghost var runs := SeqRuns(elems);
    MembersBounds(sink.failAt, start, runs);
    r := Ok(());
    var i := 0;
    while i < |elems|
      invariant 0 <= i <= |elems|
      invariant !FailsWithin(sink.failAt, start, |Concat(runs[..i])|)
      invariant sink.log == log0 + Concat(runs[..i])
      invariant r == Ok(())
    {
      assert runs[i] == Events(elems[i]);
      ghost var before := sink.log;
      r := Serialize(elems[i], sink);
      if r.Err? {
        MemberFails(sink.failAt, start, log0, runs, i, before, sink.log, r);
        return;
      }
      MemberDone(sink.failAt, start, log0, runs, i, before, sink.log, r);
      i := i + 1;
    }
  }

  /** `impl Serialize for HashMap`: the start event with the length, each key then its value, the end event. */
  method SerializeHashMap(pairs: seq<Pair>, sink: Sink) returns (r: Result<(), WriteError>)
    requires |pairs| <= U64_MAX && forall i :: 0 <= i < |pairs| ==> Valid(pairs[i].key) && Valid(pairs[i].val)
    modifies sink
    ensures sink.log == old(sink.log) + Logged(sink.failAt, |old(sink.log)|, HashMapEvents(pairs))
    ensures r == Outcome(sink.failAt, |old(sink.log)|, HashMapEvents(pairs))
    decreases pairs, 2
  {
    ghost var log0 := sink.log;
    r := sink.Write(E.MapStart(Some(|pairs|)));
    if r.Err? {
      ContainerOpenFails(sink.failAt, log0, E.MapStart(Some(|pairs|)), PairRuns(pairs), E.MapEnd);
      return;
    }
    r := WriteHashMapMembers(pairs, sink);
    if r.Err? {
      ContainerBodyFails(sink.failAt, log0, E.MapStart(Some(|pairs|)), PairRuns(pairs), E.MapEnd);
      return;
    }
    r := sink.Write(E.MapEnd);
    if r.Err? {
      ContainerCloseFails(sink.failAt, log0, E.MapStart(Some(|pairs|)), PairRuns(pairs), E.MapEnd);
    } else {
      ContainerDone(sink.failAt, log0, E.MapStart(Some(|pairs|)), PairRuns(pairs), E.MapEnd);
    }
  }

  /** The `for` loop of SerializeHashMap: every member in order, stopping at the first failure. */
  method WriteHashMapMembers(pairs: seq<Pair>, sink: Sink) returns (r: Result<(), WriteError>)
    requires |pairs| <= U64_MAX && forall i :: 0 <= i < |pairs| ==> Valid(pairs[i].key) && Valid(pairs[i].val)
    modifies sink
    ensures sink.log == old(sink.log) + Logged(sink.failAt, |old(sink.log)|, Concat(PairRuns(pairs)))
    ensures r == Outcome(sink.failAt, |old(sink.log)|, Concat(PairRuns(pairs)))
    decreases pairs, 1
  {
    ghost var log0, start := sink.log, |sink.log|;
    ghost var runs := PairRuns(pairs);
    MembersBounds(sink.failAt, start, runs);
    r := Ok(());
    var i := 0;
    while i < |pairs|
      invariant 0 <= i <= |pairs|
      invariant !FailsWithin(sink.failAt, start, |Concat(runs[..i])|)
      invariant sink.log == log0 + Concat(runs[..i])
      invariant r == Ok(())
    {
      assert runs[i] == PairEvents(pairs[i]);
      ghost var before := sink.log;
      r := SerializePair(pairs[i], sink);
      if r.Err? {
        MemberFails(sink.failAt, start, log0, runs, i, before, sink.log, r);
        return;
      }
      MemberDone(sink.failAt, start, log0, runs, i, before, sink.log, r);
      i := i + 1;
    }
  }

  method SerializePair(p: Pair, sink: Sink) returns (r: Result<(), WriteError>)
    requires Valid(p.key) && Valid(p.val)
    modifies sink
    ensures sink.log == old(sink.log) + Logged(sink.failAt, |old(sink.log)|, PairEvents(p))
    ensures r == Outcome(sink.failAt, |old(sink.log)|, PairEvents(p))
    decreases p, 0
  {
    ghost var log0, start := sink.log, |sink.log|;
    ghost var key, val := Events(p.key), Events(p.val);
    assert PairEvents(p) == key + val;
    LoggedAppend(sink.failAt, start, key, val);
    r := Serialize(p.key, sink);
    if r.Err? {
      return;
    }
    r := Serialize(p.val, sink);
    assert sink.log == log0 + (key + Logged(sink.failAt, start + |key|, val));
  }
}
