/**
 * The guard-based writer of the oldest merde_json layer: `JsonSerializer`
 * appends to its buffer, `write_obj`/`write_arr` open a container and hand
 * out an `ObjectGuard`/`ArrayGuard` that writes the separators between the
 * members and, when dropped, the closing brace or bracket; the
 * `JsonSerialize` impls drive them.
 *
 * Every `JsonSerialize` impl is a constructor of `Serializable`, and
 * `Serialize` is its `json_serialize`; it is proved to append exactly what
 * the recursive printer `Text` gives, and `Text` is proved to be valid
 * UTF-8, which is what `to_json_string` relies on when it skips the check.
 * An `f64` is written with its `Display` text, a parameter here.
 */
module LegacyJsonWriter {
  import opened Wrappers
  import opened MachineInts
  import Utf8
  import Decimal
  import JsonEscape
  import Float64
  import LI = LazyIndex
  import J = LegacyJson
  import W = JsonWriter

  /** `Display for f64`: the text `write!("{}", f)` produces. */
  type FloatDisplay = Float64.F64 -> string

  /** The types with a `JsonSerialize` impl. */
  datatype Serializable =
    | ValueS(v: J.JsonValue)              // jiter's `JsonValue`
    | StrS(s: string)                     // `&str` and `Cow<str>`
    | IntS(kind: IntKind, n: int)         // `u8` to `isize`
    | BoolS(b: bool)                      // `bool`
    | PairsS(pairs: seq<Pair>)            // `HashMap<K, V>` in iteration order, and `&[(&str, V)]`
    | ItemsS(items: seq<Serializable>)    // `Vec<T>` and `&[T]`
    | OptionS(o: Option<Serializable>)    // `Option<T>`

  datatype Pair = Pair(key: string, val: Serializable)

  // ----- the reference printer -----

  /** The decimal text `to_string` gives an integer. */
  function DecimalText(n: int): (t: string)
    ensures |t| == |Decimal.Format(n)|
    ensures forall i :: 0 <= i < |t| ==> t[i] as int == Decimal.Format(n)[i]
  {
    var f := Decimal.Format(n);
    seq(|f|, i requires 0 <= i < |f| => f[i] as char)
  }

  /** JSON text for a jiter value: a `BigInt` becomes a string of its digits. */
  function ValueText(v: J.JsonValue, display: FloatDisplay): seq<byte>
    decreases v, 1
  {
    match v
    case Null => W.NULL
    case Bool(b) => if b then W.TRUE else W.FALSE
    case Int(i) => Decimal.Format(i)
    case BigInt(b) => JsonEscape.Quoted(DecimalText(b))
    case Float(f) => Utf8.Encode(display(f))
    case Str(s) => JsonEscape.Quoted(s.val)
    case Array(items) => [W.OPEN_BRACKET] + ValueItems(items, display) + [W.CLOSE_BRACKET]
    case Object(members) => [W.OPEN_BRACE] + ValueMembers(members, display) + [W.CLOSE_BRACE]
  }

  function ValueItems(items: seq<J.JsonValue>, display: FloatDisplay): seq<byte>
    decreases items, 0
  {
    if items == [] then []
    else
      var n := |items| - 1;
      ValueItems(items[..n], display) + (if n == 0 then [] else [W.COMMA]) + ValueText(items[n], display)
  }

  function ValueMembers(members: seq<LI.Slot<string, J.JsonValue>>, display: FloatDisplay): seq<byte>
    decreases members, 0
  {
    if members == [] then []
    else
      var n := |members| - 1;
      ValueMembers(members[..n], display) + (if n == 0 then [] else [W.COMMA]) + ValueMember(members[n], display)
  }

  /** One member of a jiter object. */
  function ValueMember(m: LI.Slot<string, J.JsonValue>, display: FloatDisplay): seq<byte>
    decreases m, 0
  {
    Member(m.key, ValueText(m.val, display))
  }

  /** A member written by `pair`: the quoted key, `:`, the value's text. */
  function Member(key: string, val: seq<byte>): seq<byte>
  {
    JsonEscape.Quoted(key) + [W.COLON] + val
  }

  /**
   * JSON text for a serializable value. An integer is cast to `i64` and
   * written in decimal (`IntAsWritten`), `None` is `null`, and an empty map
   * or list is `{}` or `[]`.
   */
  function Text(x: Serializable, display: FloatDisplay): seq<byte>
    decreases x, 1
  {
    match x
    case ValueS(v) => ValueText(v, display)
    case StrS(s) => JsonEscape.Quoted(s)
    case IntS(k, n) => IntAsWritten(k, n)
    case BoolS(b) => if b then W.TRUE else W.FALSE
    case PairsS(pairs) => [W.OPEN_BRACE] + PairsText(pairs, display) + [W.CLOSE_BRACE]
    case ItemsS(items) => [W.OPEN_BRACKET] + ItemsText(items, display) + [W.CLOSE_BRACKET]
    case OptionS(o) => if o.Some? then Text(o.value, display) else W.NULL
  }

  function ItemsText(items: seq<Serializable>, display: FloatDisplay): seq<byte>
    decreases items, 0
  {
    if items == [] then []
    else
      var n := |items| - 1;
      ItemsText(items[..n], display) + (if n == 0 then [] else [W.COMMA]) + Text(items[n], display)
  }

  function PairsText(pairs: seq<Pair>, display: FloatDisplay): seq<byte>
    decreases pairs, 0
  {
    if pairs == [] then []
    else
      var n := |pairs| - 1;
      PairsText(pairs[..n], display) + (if n == 0 then [] else [W.COMMA]) + Member(pairs[n].key, Text(pairs[n].val, display))
  }

  // ----- a size that bounds the recursion of the writer -----

  function ValueSize(v: J.JsonValue): (r: nat)
    ensures r >= 1
    decreases v, 1
  {
    match v
    case Array(items) => 1 + ItemsSize(items)
    case Object(members) => 1 + MembersSize(members)
    case _ => 1
  }

  function ItemsSize(items: seq<J.JsonValue>): (r: nat)
    ensures forall i :: 0 <= i < |items| ==> ValueSize(items[i]) <= r
    decreases items, 0
  {
    if items == [] then 0
    else
      var r := ValueSize(items[0]) + ItemsSize(items[1..]);
      assert forall i :: 1 <= i < |items| ==> items[i] == items[1..][i - 1];
      r
  }

  function MembersSize(members: seq<LI.Slot<string, J.JsonValue>>): (r: nat)
    ensures forall i :: 0 <= i < |members| ==> MemberSize(members[i]) <= r
    decreases members, 0
  {
    if members == [] then 0
    else
      var r := MemberSize(members[0]) + MembersSize(members[1..]);
      assert forall i :: 1 <= i < |members| ==> members[i] == members[1..][i - 1];
      r
  }

  function MemberSize(m: LI.Slot<string, J.JsonValue>): (r: nat)
    ensures r == ValueSize(m.val)
    decreases m, 0
  {
    ValueSize(m.val)
  }

  function Size(x: Serializable): (r: nat)
    ensures r >= 1
    decreases x, 1
  {
    match x
    case ValueS(v) => ValueSize(v)
    case PairsS(pairs) => 1 + PairsSize(pairs)
    case ItemsS(items) => 1 + SizeAll(items)
    case OptionS(o) => if o.Some? then 1 + Size(o.value) else 1
    case _ => 1
  }

  function SizeAll(items: seq<Serializable>): (r: nat)
    ensures forall i :: 0 <= i < |items| ==> Size(items[i]) <= r
    decreases items, 0
  {
    if items == [] then 0
    else
      var r := Size(items[0]) + SizeAll(items[1..]);
      assert forall i :: 1 <= i < |items| ==> items[i] == items[1..][i - 1];
      r
  }

  function PairsSize(pairs: seq<Pair>): (r: nat)
    ensures forall i :: 0 <= i < |pairs| ==> Size(pairs[i].val) <= r
    decreases pairs, 0
  {
    if pairs == [] then 0
    else
      var r := Size(pairs[0].val) + PairsSize(pairs[1..]);
      assert forall i :: 1 <= i < |pairs| ==> pairs[i] == pairs[1..][i - 1];
      r
  }

  // ----- the writer -----

  class JsonSerializer {
    var buffer: seq<byte>

    /** `JsonSerializer::new`: an empty buffer. */
    constructor ()
      ensures buffer == []
    {
      buffer := [];
    }

    /** `JsonSerializer::from_vec`: writes after what `vec` already holds. */
    constructor FromVec(vec: seq<byte>)
      ensures buffer == vec
    {
      buffer := vec;
    }

    method WriteNull()
      modifies this
      ensures buffer == old(buffer) + W.NULL
    {
      buffer := buffer + W.NULL;
    }

    method WriteBool(value: bool)
      modifies this
      ensures buffer == old(buffer) + (if value then W.TRUE else W.FALSE)
    {
      buffer := buffer + (if value then W.TRUE else W.FALSE);
    }

    /** `write!("{}", value)`: the decimal form, `-` first for a negative. */
    method WriteI64(value: i64)
      modifies this
      ensures buffer == old(buffer) + Decimal.Format(value)
    {
      buffer := buffer + Decimal.Format(value);
    }

    /** `write!("{}", value)` for an `f64`: the UTF-8 of its `Display` text. */
    method WriteF64(value: Float64.F64, display: FloatDisplay)
      modifies this
      ensures buffer == old(buffer) + Utf8.Encode(display(value))
    {
      buffer := buffer + Utf8.Encode(display(value));
    }

    /** `write_str`: a quote, each character's escape in turn, a quote. */
    method WriteStr(value: string)
      modifies this
      ensures buffer == old(buffer) + JsonEscape.Quoted(value)
    {
      buffer := buffer + [JsonEscape.QUOTE];
      WriteEscaped(value);
      buffer := buffer + [JsonEscape.QUOTE];
      Regroup(old(buffer), [JsonEscape.QUOTE], JsonEscape.Escape(value), [JsonEscape.QUOTE]);
    }

    /** The loop over `value.chars()`: each character's escape, in order. */
    method WriteEscaped(value: string)
      modifies this
      ensures buffer == old(buffer) + JsonEscape.Escape(value)
    {
      var i := 0;
      while i < |value|
        invariant 0 <= i <= |value|
        invariant buffer == old(buffer) + JsonEscape.Escape(value[..i])
      {
        W.EscapeMore(old(buffer), value, i);
        buffer := buffer + JsonEscape.EscapeChar(value[i]);
        i := i + 1;
      }
      assert value[..|value|] == value;
    }

    /** `write_obj`: `{`, and a guard expecting the first pair. */
    method WriteObj() returns (guard: ObjectGuard)
      modifies this
      ensures buffer == old(buffer) + [W.OPEN_BRACE]
      ensures fresh(guard) && guard.serializer == this && guard.first
    {
      buffer := buffer + [W.OPEN_BRACE];
      guard := new ObjectGuard(this);
    }

    /** `write_arr`: `[`, and a guard expecting the first element. */
    method WriteArr() returns (guard: ArrayGuard)
      modifies this
      ensures buffer == old(buffer) + [W.OPEN_BRACKET]
      ensures fresh(guard) && guard.serializer == this && guard.first
    {
      buffer := buffer + [W.OPEN_BRACKET];
      guard := new ArrayGuard(this);
    }

    /** `into_inner`: the buffer written so far. */
    method IntoInner() returns (vec: seq<byte>)
      ensures vec == buffer
    {
      vec := buffer;
    }
  }

  class ObjectGuard {
    const serializer: JsonSerializer
    var first: bool

    constructor (serializer: JsonSerializer)
      ensures this.serializer == serializer && first
    {
      this.serializer := serializer;
      first := true;
    }

    /** `pair`: `,` unless this is the first pair, then `"key":` and the value. */
    method Pair(key: string, value: Serializable, display: FloatDisplay)
      modifies this, serializer
      ensures !first
      ensures serializer.buffer == old(serializer.buffer) + (if old(first) then [] else [W.COMMA]) + Member(key, Text(value, display))
      decreases Size(value), 3
    {
      if !first {
        serializer.buffer := serializer.buffer + [W.COMMA];
      }
      first := false;
      ghost var front := serializer.buffer;
      serializer.WriteStr(key);
      serializer.buffer := serializer.buffer + [W.COLON];
      Serialize(value, serializer, display);
      Regroup(front, JsonEscape.Quoted(key), [W.COLON], Text(value, display));
    }

    /** Dropping the guard: `}`. */
    method Drop()
      modifies serializer
      ensures serializer.buffer == old(serializer.buffer) + [W.CLOSE_BRACE]
    {
      serializer.buffer := serializer.buffer + [W.CLOSE_BRACE];
    }
  }

  class ArrayGuard {
    const serializer: JsonSerializer
    var first: bool

    constructor (serializer: JsonSerializer)
      ensures this.serializer == serializer && first
    {
      this.serializer := serializer;
      first := true;
    }

    /** `elem`: `,` unless this is the first element, then the value. */
    method Elem(value: Serializable, display: FloatDisplay)
      modifies this, serializer
      ensures !first
      ensures serializer.buffer == old(serializer.buffer) + (if old(first) then [] else [W.COMMA]) + Text(value, display)
      decreases Size(value), 3
    {
      if !first {
        serializer.buffer := serializer.buffer + [W.COMMA];
      }
      first := false;
      Serialize(value, serializer, display);
    }

    /** Dropping the guard: `]`. */
    method Drop()
      modifies serializer
      ensures serializer.buffer == old(serializer.buffer) + [W.CLOSE_BRACKET]
    {
      serializer.buffer := serializer.buffer + [W.CLOSE_BRACKET];
    }
  }

  /** `json_serialize` of each impl: it appends the value's text and nothing else. */
  method Serialize(x: Serializable, s: JsonSerializer, display: FloatDisplay)
    modifies s
    ensures s.buffer == old(s.buffer) + Text(x, display)
    decreases Size(x), 2
  {
    match x
    case ValueS(v) =>
      match v {
        case Null => s.WriteNull();
        case Bool(b) => s.WriteBool(b);
        case Int(i) => s.WriteI64(i);
        case BigInt(b) => s.WriteStr(DecimalText(b));
        case Float(f) => s.WriteF64(f, display);
        case Str(c) => s.WriteStr(c.val);
        case Array(items) => SerializeArray(items, s, display);
        case Object(members) => SerializeObject(members, s, display);
      }
    case StrS(t) => s.WriteStr(t);
    case IntS(k, n) => WriteInteger(k, n, s);
    case BoolS(b) => s.WriteBool(b);
    case PairsS(pairs) => SerializePairs(pairs, s, display);
    case ItemsS(items) => SerializeItems(items, s, display);
    case OptionS(o) =>
      if o.Some? {
        Serialize(o.value, s, display);
      } else {
        s.WriteNull();
      }
  }

  /** A jiter array: `write_arr`, an `elem` per item, the guard dropped. */
  method SerializeArray(items: seq<J.JsonValue>, s: JsonSerializer, display: FloatDisplay)
    modifies s
    ensures s.buffer == old(s.buffer) + ValueText(J.Array(items), display)
    decreases 1 + ItemsSize(items), 1
  {
    var guard := s.WriteArr();
    FeedArray(guard, items, display);
    guard.Drop();
    Regroup(old(s.buffer), [W.OPEN_BRACKET], ValueItems(items, display), [W.CLOSE_BRACKET]);
  }

  /** The `for` loop over a jiter array's items. */
  method FeedArray(guard: ArrayGuard, items: seq<J.JsonValue>, display: FloatDisplay)
    requires guard.first
    modifies guard, guard.serializer
    ensures guard.serializer.buffer == old(guard.serializer.buffer) + ValueItems(items, display)
    decreases 1 + ItemsSize(items), 0
  {
    var i := 0;
    while i < |items|
      invariant 0 <= i <= |items|
      invariant guard.first <==> i == 0
      invariant guard.serializer.buffer == old(guard.serializer.buffer) + ValueItems(items[..i], display)
    {
      ValueItemsSnoc(items, i, display);
      Regroup(old(guard.serializer.buffer), ValueItems(items[..i], display), if i == 0 then [] else [W.COMMA], Text(ValueS(items[i]), display));
      guard.Elem(ValueS(items[i]), display);
      i := i + 1;
    }
    assert items[..|items|] == items;
  }

  /** A jiter object: `write_obj`, a `pair` per member in iteration order, the guard dropped. */
  method SerializeObject(members: seq<LI.Slot<string, J.JsonValue>>, s: JsonSerializer, display: FloatDisplay)
    modifies s
    ensures s.buffer == old(s.buffer) + ValueText(J.Object(members), display)
    decreases 1 + MembersSize(members), 1
  {
    var guard := s.WriteObj();
    FeedObject(guard, members, display);
    guard.Drop();
    Regroup(old(s.buffer), [W.OPEN_BRACE], ValueMembers(members, display), [W.CLOSE_BRACE]);
  }

  /** The `for` loop over a jiter object's members. */
  method FeedObject(guard: ObjectGuard, members: seq<LI.Slot<string, J.JsonValue>>, display: FloatDisplay)
    requires guard.first
    modifies guard, guard.serializer
    ensures guard.serializer.buffer == old(guard.serializer.buffer) + ValueMembers(members, display)
    decreases 1 + MembersSize(members), 0
  {
    var i := 0;
    while i < |members|
      invariant 0 <= i <= |members|
      invariant guard.first <==> i == 0
      invariant guard.serializer.buffer == old(guard.serializer.buffer) + ValueMembers(members[..i], display)
    {
      ValueMembersSnoc(members, i, display);
      Regroup(old(guard.serializer.buffer), ValueMembers(members[..i], display), if i == 0 then [] else [W.COMMA], Member(members[i].key, Text(ValueS(members[i].val), display)));
      guard.Pair(members[i].key, ValueS(members[i].val), display);
      i := i + 1;
    }
    assert members[..|members|] == members;
  }

  /** `HashMap<K, V>` and `&[(&str, V)]`: `write_obj`, a `pair` per entry, the guard dropped. */
  method SerializePairs(pairs: seq<Pair>, s: JsonSerializer, display: FloatDisplay)
    modifies s
    ensures s.buffer == old(s.buffer) + Text(PairsS(pairs), display)
    decreases 1 + PairsSize(pairs), 1
  {
    var guard := s.WriteObj();
    FeedPairs(guard, pairs, display);
    guard.Drop();
    Regroup(old(s.buffer), [W.OPEN_BRACE], PairsText(pairs, display), [W.CLOSE_BRACE]);
  }

  /** The `for` loop over the entries. */
  method FeedPairs(guard: ObjectGuard, pairs: seq<Pair>, display: FloatDisplay)
    requires guard.first
    modifies guard, guard.serializer
    ensures guard.serializer.buffer == old(guard.serializer.buffer) + PairsText(pairs, display)
    decreases 1 + PairsSize(pairs), 0
  {
    var i := 0;
    while i < |pairs|
      invariant 0 <= i <= |pairs|
      invariant guard.first <==> i == 0
      invariant guard.serializer.buffer == old(guard.serializer.buffer) + PairsText(pairs[..i], display)
    {
      PairsTextSnoc(pairs, i, display);
      Regroup(old(guard.serializer.buffer), PairsText(pairs[..i], display), if i == 0 then [] else [W.COMMA], Member(pairs[i].key, Text(pairs[i].val, display)));
      guard.Pair(pairs[i].key, pairs[i].val, display);
      i := i + 1;
    }
    assert pairs[..|pairs|] == pairs;
  }

  /** `Vec<T>` and `&[T]`: `write_arr`, an `elem` per item, the guard dropped. */
  method SerializeItems(items: seq<Serializable>, s: JsonSerializer, display: FloatDisplay)
    modifies s
    ensures s.buffer == old(s.buffer) + Text(ItemsS(items), display)
    decreases 1 + SizeAll(items), 1
  {
    var guard := s.WriteArr();
    FeedItems(guard, items, display);
    guard.Drop();
    Regroup(old(s.buffer), [W.OPEN_BRACKET], ItemsText(items, display), [W.CLOSE_BRACKET]);
  }

  /** The `for` loop over the items. */
  method FeedItems(guard: ArrayGuard, items: seq<Serializable>, display: FloatDisplay)
    requires guard.first
    modifies guard, guard.serializer
    ensures guard.serializer.buffer == old(guard.serializer.buffer) + ItemsText(items, display)
    decreases 1 + SizeAll(items), 0
  {
    var i := 0;
    while i < |items|
      invariant 0 <= i <= |items|
      invariant guard.first <==> i == 0
      invariant guard.serializer.buffer == old(guard.serializer.buffer) + ItemsText(items[..i], display)
    {
      ItemsTextSnoc(items, i, display);
      Regroup(old(guard.serializer.buffer), ItemsText(items[..i], display), if i == 0 then [] else [W.COMMA], Text(items[i], display));
      guard.Elem(items[i], display);
      i := i + 1;
    }
    assert items[..|items|] == items;
  }

  /** Appending a separator and a piece after what is already written. */
  lemma Regroup(start: seq<byte>, done: seq<byte>, sep: seq<byte>, piece: seq<byte>)
    ensures start + done + sep + piece == start + (done + sep + piece)
  {
  }

  lemma ValueItemsSnoc(items: seq<J.JsonValue>, i: nat, display: FloatDisplay)
    requires i < |items|
    ensures ValueItems(items[..i + 1], display) ==
      ValueItems(items[..i], display) + (if i == 0 then [] else [W.COMMA]) + Text(ValueS(items[i]), display)
  {
    assert items[..i + 1][..i] == items[..i];
  }

  lemma ValueMembersSnoc(members: seq<LI.Slot<string, J.JsonValue>>, i: nat, display: FloatDisplay)
    requires i < |members|
    ensures ValueMembers(members[..i + 1], display) ==
      ValueMembers(members[..i], display) + (if i == 0 then [] else [W.COMMA]) + Member(members[i].key, Text(ValueS(members[i].val), display))
  {
    assert members[..i + 1][..i] == members[..i];
  }

  lemma PairsTextSnoc(pairs: seq<Pair>, i: nat, display: FloatDisplay)
    requires i < |pairs|
    ensures PairsText(pairs[..i + 1], display) ==
      PairsText(pairs[..i], display) + (if i == 0 then [] else [W.COMMA]) + Member(pairs[i].key, Text(pairs[i].val, display))
  {
    assert pairs[..i + 1][..i] == pairs[..i];
  }

  lemma ItemsTextSnoc(items: seq<Serializable>, i: nat, display: FloatDisplay)
    requires i < |items|
    ensures ItemsText(items[..i + 1], display) ==
      ItemsText(items[..i], display) + (if i == 0 then [] else [W.COMMA]) + Text(items[i], display)
  {
    assert items[..i + 1][..i] == items[..i];
  }

  /** The integer impls: `write_i64(*self as i64)`, and `write_i64(*self)` for `i64` itself. */
  method WriteInteger(k: IntKind, n: int, s: JsonSerializer)
    modifies s
    ensures s.buffer == old(s.buffer) + IntAsWritten(k, n)
  {
    s.WriteI64(AsI64(n));
  }

  /** `to_json_bytes`: a fresh serializer, the value, the buffer. */
  method ToJsonBytes(x: Serializable, display: FloatDisplay) returns (bytes: seq<byte>)
    ensures bytes == Text(x, display)
  {
    var s := new JsonSerializer();
    Serialize(x, s, display);
    bytes := s.IntoInner();
  }

  /**
   * `to_json_string`: the bytes taken as a `String` without a UTF-8 check;
   * they are valid UTF-8, so the text is well defined and encodes to them.
   */
  method ToJsonString(x: Serializable, display: FloatDisplay) returns (text: string)
    ensures Utf8.Encode(text) == Text(x, display)
  {
    var bytes := ToJsonBytes(x, display);
    TextIsUtf8(x, display);
    Utf8.EncodeDecode(bytes);
    text := Utf8.Decode(bytes).value;
  }

  // ----- properties of the printer -----

  lemma FormatIsAscii(n: int)
    ensures forall i :: 0 <= i < |Decimal.Format(n)| ==> Decimal.Format(n)[i] < 0x80
  {
    var d := Decimal.Digits(if n < 0 then -n else n);
    assert forall i :: 0 <= i < |d| ==> d[i] < 0x80;
    if n < 0 {
      assert forall i :: 1 <= i < |Decimal.Format(n)| ==> Decimal.Format(n)[i] == d[i - 1];
    }
  }

  lemma QuotedIsUtf8(s: string)
    ensures Utf8.Valid(JsonEscape.Quoted(s))
  {
    JsonEscape.EscapeIsUtf8(s);
    Utf8.EncodeIsValid(JsonEscape.EscapeText(s));
    Utf8.AsciiValid([JsonEscape.QUOTE]);
    Utf8.ValidAppend([JsonEscape.QUOTE], JsonEscape.Escape(s));
    Utf8.ValidAppend([JsonEscape.QUOTE] + JsonEscape.Escape(s), [JsonEscape.QUOTE]);
  }

  /** Valid text between two ASCII bytes is valid. */
  lemma Enclosed(open: byte, inner: seq<byte>, close: byte)
    requires open < 0x80 && close < 0x80 && Utf8.Valid(inner)
    ensures Utf8.Valid([open] + inner + [close])
  {
    Utf8.AsciiValid([open]);
    Utf8.AsciiValid([close]);
    Utf8.ValidAppend([open], inner);
    Utf8.ValidAppend([open] + inner, [close]);
  }

  /** Appending a separator (possibly none) and valid text to valid text. */
  lemma Joined(front: seq<byte>, sep: seq<byte>, item: seq<byte>)
    requires Utf8.Valid(front) && Utf8.Valid(item)
    requires sep == [] || sep == [W.COMMA]
    ensures Utf8.Valid(front + sep + item)
  {
    Utf8.AsciiValid(sep);
    Utf8.ValidAppend(front, sep);
    Utf8.ValidAppend(front + sep, item);
  }

  /** A member's `"key":value` is valid when its value is. */
  lemma MemberIsUtf8(key: string, val: seq<byte>)
    requires Utf8.Valid(val)
    ensures Utf8.Valid(Member(key, val))
  {
    QuotedIsUtf8(key);
    Utf8.AsciiValid([W.COLON]);
    Utf8.ValidAppend(JsonEscape.Quoted(key), [W.COLON]);
    Utf8.ValidAppend(JsonEscape.Quoted(key) + [W.COLON], val);
  }

  lemma {:induction false} ValueTextIsUtf8(v: J.JsonValue, display: FloatDisplay)
    ensures Utf8.Valid(ValueText(v, display))
    decreases v, 1
  {
    match v
    case Null => Utf8.AsciiValid(W.NULL);
    case Bool(b) => Utf8.AsciiValid(W.TRUE); Utf8.AsciiValid(W.FALSE);
    case Int(i) => FormatIsAscii(i); Utf8.AsciiValid(Decimal.Format(i));
    case BigInt(b) => QuotedIsUtf8(DecimalText(b));
    case Float(f) => Utf8.EncodeIsValid(display(f));
    case Str(s) => QuotedIsUtf8(s.val);
    case Array(items) =>
      ValueItemsIsUtf8(items, display);
      Enclosed(W.OPEN_BRACKET, ValueItems(items, display), W.CLOSE_BRACKET);
    case Object(members) =>
      ValueMembersIsUtf8(members, display);
      Enclosed(W.OPEN_BRACE, ValueMembers(members, display), W.CLOSE_BRACE);
  }

  lemma {:induction false} ValueItemsIsUtf8(items: seq<J.JsonValue>, display: FloatDisplay)
    ensures Utf8.Valid(ValueItems(items, display))
    decreases items, 0
  {
    if items == [] {
      Utf8.AsciiValid([]);
    } else {
      var n := |items| - 1;
      ValueItemsIsUtf8(items[..n], display);
      ValueTextIsUtf8(items[n], display);
      Joined(ValueItems(items[..n], display), if n == 0 then [] else [W.COMMA], ValueText(items[n], display));
    }
  }

  lemma {:induction false} ValueMembersIsUtf8(members: seq<LI.Slot<string, J.JsonValue>>, display: FloatDisplay)
    ensures Utf8.Valid(ValueMembers(members, display))
    decreases members, 0
  {
    if members == [] {
      Utf8.AsciiValid([]);
    } else {
      var n := |members| - 1;
      ValueMembersIsUtf8(members[..n], display);
      ValueMemberIsUtf8(members[n], display);
      Joined(ValueMembers(members[..n], display), if n == 0 then [] else [W.COMMA], ValueMember(members[n], display));
    }
  }

  lemma {:induction false} ValueMemberIsUtf8(m: LI.Slot<string, J.JsonValue>, display: FloatDisplay)
    ensures Utf8.Valid(ValueMember(m, display))
    decreases m, 0
  {
    ValueTextIsUtf8(m.val, display);
    MemberIsUtf8(m.key, ValueText(m.val, display));
  }

  /** Whatever is serialized, the bytes are valid UTF-8 (the premise of `to_json_string`). */
  lemma {:induction false} TextIsUtf8(x: Serializable, display: FloatDisplay)
    ensures Utf8.Valid(Text(x, display))
    decreases x, 1
  {
    match x
    case ValueS(v) => ValueTextIsUtf8(v, display);
    case StrS(s) => QuotedIsUtf8(s);
    case IntS(k, n) => FormatIsAscii(AsI64(n)); Utf8.AsciiValid(IntAsWritten(k, n));
    case BoolS(b) => Utf8.AsciiValid(W.TRUE); Utf8.AsciiValid(W.FALSE);
    case PairsS(pairs) =>
      PairsTextIsUtf8(pairs, display);
      Enclosed(W.OPEN_BRACE, PairsText(pairs, display), W.CLOSE_BRACE);
    case ItemsS(items) =>
      ItemsTextIsUtf8(items, display);
      Enclosed(W.OPEN_BRACKET, ItemsText(items, display), W.CLOSE_BRACKET);
    case OptionS(o) =>
      if o.Some? {
        TextIsUtf8(o.value, display);
      } else {
        Utf8.AsciiValid(W.NULL);
      }
  }

  lemma {:induction false} ItemsTextIsUtf8(items: seq<Serializable>, display: FloatDisplay)
    ensures Utf8.Valid(ItemsText(items, display))
    decreases items, 0
  {
    if items == [] {
      Utf8.AsciiValid([]);
    } else {
      var n := |items| - 1;
      ItemsTextIsUtf8(items[..n], display);
      TextIsUtf8(items[n], display);
      Joined(ItemsText(items[..n], display), if n == 0 then [] else [W.COMMA], Text(items[n], display));
    }
  }

  lemma {:induction false} PairsTextIsUtf8(pairs: seq<Pair>, display: FloatDisplay)
    ensures Utf8.Valid(PairsText(pairs, display))
    decreases pairs, 0
  {
    if pairs == [] {
      Utf8.AsciiValid([]);
    } else {
      var n := |pairs| - 1;
      PairsTextIsUtf8(pairs[..n], display);
      TextIsUtf8(pairs[n].val, display);
      MemberIsUtf8(pairs[n].key, Text(pairs[n].val, display));
      Joined(PairsText(pairs[..n], display), if n == 0 then [] else [W.COMMA], Member(pairs[n].key, Text(pairs[n].val, display)));
    }
  }

  /** Digits and `-` need no escape, so a `BigInt` is written as its decimal form between quotes. */
  lemma BigIntQuoted(b: int, display: FloatDisplay)
    ensures ValueText(J.BigInt(b), display) == [JsonEscape.QUOTE] + Decimal.Format(b) + [JsonEscape.QUOTE]
  {
    FormatIsAscii(b);
    var t := DecimalText(b);
    var f := Decimal.Format(b);
    assert forall i :: 0 <= i < |t| ==> t[i] == '-' || '0' <= t[i] <= '9' by {
      var d := Decimal.Digits(if b < 0 then -b else b);
      if b < 0 {
        assert forall i :: 1 <= i < |f| ==> f[i] == d[i - 1];
      }
    }
    PlainEscape(t);
    assert f == seq(|t|, i requires 0 <= i < |t| => t[i] as int);
  }

  /** Escaping digits and `-` writes their ASCII bytes. */
  lemma {:induction false} PlainEscape(t: string)
    requires forall i :: 0 <= i < |t| ==> t[i] == '-' || '0' <= t[i] <= '9'
    ensures JsonEscape.Escape(t) == seq(|t|, i requires 0 <= i < |t| => t[i] as int)
  {
    if t != [] {
      PlainEscape(t[1..]);
      assert Utf8.EncodeChar(t[0]) == [t[0] as int];
    }
  }

  // ----- integers are cast to i64 before writing -----

  /** `n as i64`: the low 64 bits read as two's complement. */
  function AsI64(n: int): (r: i64)
    ensures I64_MIN <= n <= I64_MAX ==> r == n
    ensures I64_MAX < n <= U64_MAX ==> r == n - 0x1_0000_0000_0000_0000
  {
    var m := (n - I64_MIN) % 0x1_0000_0000_0000_0000;
    m + I64_MIN
  }

  /** What the integer impls write: `write_i64(*self as i64)`. */
  function IntAsWritten(k: IntKind, n: int): seq<byte>
  {
    Decimal.Format(AsI64(n))
  }

  /** The text an integer evidently should get, as `to_string` gives it: its own decimal form. */
  function IntendedIntText(n: int): seq<byte>
  {
    Decimal.Format(n)
  }

  /**
   * The cast changes nothing for every type but `u64` and `usize`, and for
   * those only above `i64::MAX`: there `u64::MAX` comes out as `-1` and
   * every larger value with a leading `-`, where the intended text has none.
   */
  lemma U64WrapsNegative(k: IntKind, n: int, display: FloatDisplay)
    requires Fits(k, n)
    ensures n <= I64_MAX ==> Text(IntS(k, n), display) == IntendedIntText(n)
    ensures k == U64 && n == U64_MAX ==> Text(IntS(k, n), display) == Decimal.Format(-1)
    ensures n > I64_MAX ==>
      (k == U64 || k == Usize) && Text(IntS(k, n), display)[0] == Decimal.MINUS && IntendedIntText(n)[0] != Decimal.MINUS
  {
  }

  /**
   * What the written text of an integer denotes: the value itself up to
   * `i64::MAX`, the value less 2^64 above it.
   */
  lemma WrittenIntDenotes(k: IntKind, n: int, display: FloatDisplay)
    requires Fits(k, n)
    ensures var t := Text(IntS(k, n), display);
      var w := if n <= I64_MAX then n else n - 0x1_0000_0000_0000_0000;
      (w >= 0 ==> Decimal.AllDigits(t) && Decimal.Value(t) == w) &&
      (w < 0 ==> t[0] == Decimal.MINUS && Decimal.AllDigits(t[1..]) && Decimal.Value(t[1..]) == -w)
  {
    IntTextDenotes(AsI64(n));
  }

  /** The intended text of every integer denotes it. */
  lemma IntTextDenotes(n: int)
    ensures var t := IntendedIntText(n);
      (n >= 0 ==> Decimal.AllDigits(t) && Decimal.Value(t) == n) &&
      (n < 0 ==> t[0] == Decimal.MINUS && Decimal.AllDigits(t[1..]) && Decimal.Value(t[1..]) == -n)
  {
    if n >= 0 {
      Decimal.ValueOfDigits(n);
    } else {
      Decimal.ValueOfDigits(-n);
      assert IntendedIntText(n)[1..] == Decimal.Digits(-n);
    }
  }

  /** `Option`: `Some` writes the inner value alone and `None` writes `null`; empty containers are `{}` and `[]`. */
  lemma OptionAndEmpty(x: Serializable, display: FloatDisplay)
    ensures Text(OptionS(Some(x)), display) == Text(x, display)
    ensures Text(OptionS(None), display) == W.NULL
    ensures Text(PairsS([]), display) == [W.OPEN_BRACE, W.CLOSE_BRACE]
    ensures Text(ItemsS([]), display) == [W.OPEN_BRACKET, W.CLOSE_BRACKET]
  {
  }
}
