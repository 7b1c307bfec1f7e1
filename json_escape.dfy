/**
 * The string escaping shared by the JSON writers: a `"`, a backslash, a
 * line feed, a carriage return and a tab get their two-character escapes,
 * every other control character becomes `\u` and four lowercase hex
 * digits, and everything else is written as its UTF-8 bytes.
 *
 * `EscapeText` is the same escaping at the level of characters, and
 * `ReadString` reads the body of a JSON string back as section 7 of
 * RFC 8259 defines it. The round-trip lemma says that a reader finds the
 * escaped text, and nothing more, inside the quotes the writers put around it.
 */
module JsonEscape {
  import opened Wrappers
  import opened MachineInts
  import Utf8

  const QUOTE: byte := 0x22
  const BACKSLASH: byte := 0x5C

  /** `char::is_control`: the general category Cc, U+0000 to U+001F and U+007F to U+009F. */
  predicate IsControl(c: char)
  {
    c as int < 0x20 || 0x7F <= c as int <= 0x9F
  }

  /** One lowercase hexadecimal digit, as `{:x}` writes it. */
  function HexDigit(n: nat): (c: char)
    requires n < 16
    ensures '0' <= c <= '9' || 'a' <= c <= 'f'
  {
    if n < 10 then (0x30 + n) as char else (0x61 + n - 10) as char
  }

  /** `\u{:04x}`: a backslash, `u`, and the code point as four lowercase hex digits. */
  function UnicodeEscape(cp: nat): (t: string)
    requires cp < 0x10000
    ensures |t| == 6
  {
    ['\\', 'u', HexDigit(cp / 0x1000), HexDigit(cp / 0x100 % 16), HexDigit(cp / 0x10 % 16), HexDigit(cp % 16)]
  }

  /** The characters one character of a string is written as. */
  function EscapeCharText(c: char): (t: string)
    ensures 1 <= |t| <= 6
  {
    if c == '"' then ['\\', '"']
    else if c == '\\' then ['\\', '\\']
    else if c == '\n' then ['\\', 'n']
    else if c == '\r' then ['\\', 'r']
    else if c == '\t' then ['\\', 't']
    else if IsControl(c) then UnicodeEscape(c as int)
    else [c]
  }

  function EscapeText(s: string): string
  {
    if s == [] then [] else EscapeCharText(s[0]) + EscapeText(s[1..])
  }

  /** ASCII text as the bytes that spell it. */
  function Ascii(t: string): (b: seq<byte>)
    requires forall i :: 0 <= i < |t| ==> t[i] as int < 0x80
    ensures |b| == |t|
  {
    seq(|t|, i requires 0 <= i < |t| => t[i] as int)
  }

  /** The bytes one character of a string is written as. */
  function EscapeChar(c: char): seq<byte>
  {
    if c == '"' then [BACKSLASH, QUOTE]
    else if c == '\\' then [BACKSLASH, BACKSLASH]
    else if c == '\n' then [BACKSLASH, 'n' as byte]
    else if c == '\r' then [BACKSLASH, 'r' as byte]
    else if c == '\t' then [BACKSLASH, 't' as byte]
    else if IsControl(c) then Ascii(UnicodeEscape(c as int))
    else Utf8.EncodeChar(c)
  }

  /** The bytes between the quotes. */
  function Escape(s: string): seq<byte>
  {
    if s == [] then [] else EscapeChar(s[0]) + Escape(s[1..])
  }

  /** A string as a JSON string token: the escaped bytes between two quotes. */
  function Quoted(s: string): seq<byte>
  {
    [QUOTE] + Escape(s) + [QUOTE]
  }

  lemma {:induction false} EscapeAppend(a: string, b: string)
    ensures Escape(a + b) == Escape(a) + Escape(b)
  {
    if a != [] {
      assert (a + b)[0] == a[0] && (a + b)[1..] == a[1..] + b;
      EscapeAppend(a[1..], b);
    } else {
      assert a + b == b;
    }
  }

  /** Escaping one more character appends that character's bytes. */
  lemma EscapeSnoc(s: string, i: nat)
    requires i < |s|
    ensures Escape(s[..i + 1]) == Escape(s[..i]) + EscapeChar(s[i])
  {
    assert s[..i + 1] == s[..i] + [s[i]];
    EscapeAppend(s[..i], [s[i]]);
    assert Escape([s[i]]) == EscapeChar(s[i]) + Escape([]);
  }

  /** The escapes are ASCII, so a character's bytes are the UTF-8 of its escaped text. */
  lemma EscapeCharIsUtf8(c: char)
    ensures EscapeChar(c) == Utf8.Encode(EscapeCharText(c))
  {
    var t := EscapeCharText(c);
    if c == '"' || c == '\\' || c == '\n' || c == '\r' || c == '\t' || IsControl(c) {
      AsciiEncodes(t);
    } else {
      assert Utf8.Encode([c]) == Utf8.EncodeChar(c) + Utf8.Encode([]);
    }
  }

  lemma {:induction false} AsciiEncodes(t: string)
    requires forall i :: 0 <= i < |t| ==> t[i] as int < 0x80
    ensures Utf8.Encode(t) == Ascii(t)
  {
    if t != [] {
      AsciiEncodes(t[1..]);
      assert Ascii(t) == [t[0] as int] + Ascii(t[1..]);
    }
  }

  /** The written bytes are the UTF-8 encoding of the escaped text. */
  lemma {:induction false} EscapeIsUtf8(s: string)
    ensures Escape(s) == Utf8.Encode(EscapeText(s))
  {
    if s != [] {
      EscapeCharIsUtf8(s[0]);
      EscapeIsUtf8(s[1..]);
      Utf8.EncodeAppend(EscapeCharText(s[0]), EscapeText(s[1..]));
    }
  }

  // ----- reading a string body back -----

  predicate IsHex(c: char)
  {
    '0' <= c <= '9' || 'a' <= c <= 'f' || 'A' <= c <= 'F'
  }

  function HexValue(c: char): (n: nat)
    requires IsHex(c)
    ensures n < 16
  {
    if c <= '9' then c as int - 0x30 else if c <= 'F' then c as int - 0x41 + 10 else c as int - 0x61 + 10
  }

  /** The four hex digits after `\u`, most significant first. */
  function Hex4(t: string): (n: nat)
    requires |t| == 4 && IsHex(t[0]) && IsHex(t[1]) && IsHex(t[2]) && IsHex(t[3])
    ensures n < 0x10000
  {
    ((HexValue(t[0]) * 16 + HexValue(t[1])) * 16 + HexValue(t[2])) * 16 + HexValue(t[3])
  }

  /** The character a two-character escape stands for. */
  function Unescaped(e: char): Option<char>
  {
    if e == '"' then Some('"')
    else if e == '\\' then Some('\\')
    else if e == '/' then Some('/')
    else if e == 'b' then Some(0x08 as char)
    else if e == 'f' then Some(0x0C as char)
    else if e == 'n' then Some('\n')
    else if e == 'r' then Some('\r')
    else if e == 't' then Some('\t')
    else None
  }

  /** The text of a string token and the number of characters it took, closing quote included. */
  datatype Read = Read(text: string, used: nat)

  function Prepend(c: char, k: nat, r: Option<Read>): Option<Read>
  {
    match r
    case None => None
    case Some(Read(s, n)) => Some(Read([c] + s, n + k))
  }

  /**
   * The body of a JSON string, read up to its closing quote: unescaped
   * characters may not be a quote, a backslash or below U+0020, and the
   * escapes are the eight two-character ones and `\u` with four hex digits.
   * A `\u` escape of a surrogate is rejected.
   */
  function ReadString(t: string): Option<Read>
    decreases |t|
  {
    if t == [] then None
    else if t[0] == '"' then Some(Read([], 1))
    else if t[0] as int < 0x20 then None
    else if t[0] != '\\' then Prepend(t[0], 1, ReadString(t[1..]))
    else if |t| < 2 then None
    else if t[1] == 'u' then
      if |t| < 6 || !(IsHex(t[2]) && IsHex(t[3]) && IsHex(t[4]) && IsHex(t[5])) then None
      else
        var cp := Hex4(t[2..6]);
        if 0xD800 <= cp <= 0xDFFF then None else Prepend(cp as char, 6, ReadString(t[6..]))
    else
      match Unescaped(t[1])
      case None => None
      case Some(c) => Prepend(c, 2, ReadString(t[2..]))
  }

  /** The four digits of `\u{:04x}` read back as the code point. */
  lemma HexRoundTrip(cp: nat)
    requires cp < 0x10000
    ensures var t := UnicodeEscape(cp);
      IsHex(t[2]) && IsHex(t[3]) && IsHex(t[4]) && IsHex(t[5]) && Hex4(t[2..6]) == cp
  {
    var t := UnicodeEscape(cp);
    var a, b, c, d := cp / 0x1000, cp / 0x100 % 16, cp / 0x10 % 16, cp % 16;
    HexDigitValue(a);
    HexDigitValue(b);
    HexDigitValue(c);
    HexDigitValue(d);
    assert t[2..6] == [HexDigit(a), HexDigit(b), HexDigit(c), HexDigit(d)];
    FourDigits(cp);
  }

  lemma FourDigits(cp: nat)
    requires cp < 0x10000
    ensures ((cp / 0x1000 * 16 + cp / 0x100 % 16) * 16 + cp / 0x10 % 16) * 16 + cp % 16 == cp
  {
    var q := cp / 16;
    assert cp == q * 16 + cp % 16;
    assert cp / 0x10 % 16 == q % 16;
    var r := q / 16;
    assert q == r * 16 + q % 16;
    assert cp / 0x100 == r;
    assert r == r / 16 * 16 + r % 16;
    assert cp / 0x1000 == r / 16;
  }

  lemma HexDigitValue(n: nat)
    requires n < 16
    ensures IsHex(HexDigit(n)) && HexValue(HexDigit(n)) == n
  {
  }

  /** Reading the text one character is escaped to gives that character back. */
  lemma ReadsEscapedChar(c: char, u: string)
    ensures ReadString(EscapeCharText(c) + u) == Prepend(c, |EscapeCharText(c)|, ReadString(u))
  {
    var e := EscapeCharText(c);
    var t := e + u;
    if c == '"' || c == '\\' || c == '\n' || c == '\r' || c == '\t' {
      assert t[0] == '\\' && t[2..] == u;
    } else if IsControl(c) {
      HexRoundTrip(c as int);
      assert t[0] == '\\' && t[1] == 'u' && t[2..6] == e[2..6] && t[6..] == u;
    } else {
      assert t[0] == c && t[1..] == u;
    }
  }

  /**
   * The bytes a writer puts between the quotes, decoded as UTF-8 and read as
   * a JSON string body, give back the original string, and the token ends
   * at the writer's closing quote whatever follows it.
   */
  lemma {:induction false} ReadsEscaped(s: string, rest: string)
    ensures ReadString(EscapeText(s) + ['"'] + rest) == Some(Read(s, |EscapeText(s)| + 1))
  {
    if s == [] {
      assert EscapeText(s) + ['"'] + rest == ['"'] + rest;
    } else {
      var e := EscapeCharText(s[0]);
      var t := EscapeText(s[1..]);
      var u := t + ['"'] + rest;
      assert EscapeText(s) == e + t;
      assert EscapeText(s) + ['"'] + rest == e + u by {
        assert (e + t) + ['"'] + rest == e + (t + ['"'] + rest);
      }
      ReadsEscapedChar(s[0], u);
      ReadsEscaped(s[1..], rest);
      assert [s[0]] + s[1..] == s;
      assert |EscapeText(s)| + 1 == |t| + 1 + |e|;
    }
  }

  /** The same, starting from the bytes: the quoted token decodes and reads back as `s`. */
  lemma QuotedReadsBack(s: string)
    ensures Utf8.Decode(Quoted(s)).Some?
    ensures var t := Utf8.Decode(Quoted(s)).value;
      |t| >= 1 && t[0] == '"' && ReadString(t[1..]) == Some(Read(s, |t| - 1))
  {
    var body := EscapeText(s);
    EscapeIsUtf8(s);
    var full := ['"'] + body + ['"'];
    Utf8.EncodeAppend(['"'], body);
    Utf8.EncodeAppend(['"'] + body, ['"']);
    assert Utf8.Encode(['"']) == [QUOTE] by {
      assert Utf8.Encode(['"']) == Utf8.EncodeChar('"') + Utf8.Encode([]);
    }
    assert Quoted(s) == Utf8.Encode(full);
    Utf8.DecodeEncode(full);
    ReadsEscaped(s, []);
    assert full[1..] == body + ['"'] + [];
  }
}
