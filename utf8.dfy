/**
 * UTF-8 as Rust's `str` uses it: a `char` is a Unicode scalar value and a
 * string is valid exactly when it decodes under the well-formed byte
 * sequences of RFC 3629, section 4 (no overlongs, no surrogates, nothing
 * above U+10FFFF).
 */
module Utf8 {
  import opened Wrappers
  import opened MachineInts

  const REPLACEMENT: char := '�'

  predicate IsCont(b: byte)
  {
    0x80 <= b <= 0xBF
  }

  /** The bytes `c.to_string().as_bytes()` produces for one scalar value. */
  function EncodeChar(c: char): (r: seq<byte>)
    ensures 1 <= |r| <= 4
  {
    var cp := c as int;
    if cp < 0x80 then [cp]
    else if cp < 0x800 then [0xC0 + cp / 64, 0x80 + cp % 64]
    else if cp < 0x10000 then [0xE0 + cp / 4096, 0x80 + (cp / 64) % 64, 0x80 + cp % 64]
    else [0xF0 + cp / 262144, 0x80 + (cp / 4096) % 64, 0x80 + (cp / 64) % 64, 0x80 + cp % 64]
  }

  function Encode(s: string): (r: seq<byte>)
    ensures |s| <= |r| <= 4 * |s|
  {
    if s == [] then [] else EncodeChar(s[0]) + Encode(s[1..])
  }

  /** Length of the well-formed sequence a lead byte announces; 0 when it cannot lead. */
  function SeqLen(b0: byte): nat
  {
    if b0 < 0x80 then 1
    else if 0xC2 <= b0 <= 0xDF then 2
    else if 0xE0 <= b0 <= 0xEF then 3
    else if 0xF0 <= b0 <= 0xF4 then 4
    else 0
  }

  /** Bounds of the second byte after a multi-byte lead (they exclude overlongs and surrogates). */
  function SecondLo(b0: byte): byte
  {
    if b0 == 0xE0 then 0xA0 else if b0 == 0xF0 then 0x90 else 0x80
  }

  function SecondHi(b0: byte): byte
  {
    if b0 == 0xED then 0x9F else if b0 == 0xF4 then 0x8F else 0xBF
  }

  /**
   * Length of the longest prefix of `b` that begins some well-formed
   * sequence: the whole first scalar when it is well formed, otherwise the
   * maximal subpart that a lossy decoder replaces by one U+FFFD.
   */
  function ValidPrefix(b: seq<byte>): (n: nat)
    ensures n <= |b| && n <= 4
    ensures |b| > 0 && SeqLen(b[0]) > 0 ==> 1 <= n <= SeqLen(b[0])
  {
    if |b| == 0 || SeqLen(b[0]) == 0 then 0
    else if SeqLen(b[0]) == 1 then 1
    else if |b| < 2 || !(SecondLo(b[0]) <= b[1] <= SecondHi(b[0])) then 1
    else if SeqLen(b[0]) == 2 then 2
    else if |b| < 3 || !IsCont(b[2]) then 2
    else if SeqLen(b[0]) == 3 then 3
    else if |b| < 4 || !IsCont(b[3]) then 3
    else 4
  }

  /** `b` begins with a complete well-formed scalar. */
  predicate StartsWell(b: seq<byte>)
  {
    |b| > 0 && SeqLen(b[0]) > 0 && ValidPrefix(b) == SeqLen(b[0])
  }

  /** The scalar value a well-formed first sequence encodes. */
  function CodePoint(b: seq<byte>): (cp: int)
    requires StartsWell(b)
    ensures 0 <= cp < 0xD800 || 0xE000 <= cp < 0x11_0000
  {
    var n := SeqLen(b[0]);
    var b0: int := b[0];
    if n == 1 then b0
    else
      var b1: int := b[1] - 0x80;
      if n == 2 then (b0 - 0xC0) * 64 + b1
      else
        var b2: int := b[2] - 0x80;
        if n == 3 then (b0 - 0xE0) * 4096 + b1 * 64 + b2
        else (b0 - 0xF0) * 262144 + b1 * 4096 + b2 * 64 + (b[3] - 0x80)
  }

  lemma Split64(hi: int, lo: int)
    requires 0 <= lo < 64
    ensures (hi * 64 + lo) / 64 == hi && (hi * 64 + lo) % 64 == lo
  {
  }

  lemma Split4096(hi: int, lo: int)
    requires 0 <= lo < 4096
    ensures (hi * 4096 + lo) / 4096 == hi
  {
  }

  lemma Split262144(hi: int, lo: int)
    requires 0 <= lo < 262144
    ensures (hi * 262144 + lo) / 262144 == hi
  {
  }

  /** `std::str::from_utf8`: `Some` of the text exactly when `b` is valid UTF-8. */
  function Decode(b: seq<byte>): (r: Option<string>)
    decreases |b|
  {
    if |b| == 0 then Some([])
    else if !StartsWell(b) then None
    else
      match Decode(b[SeqLen(b[0])..])
      case None => None
      case Some(rest) => Some([CodePoint(b) as char] + rest)
  }

  predicate Valid(b: seq<byte>)
  {
    Decode(b).Some?
  }

  /**
   * `String::from_utf8_lossy`: every maximal ill-formed subpart becomes one
   * U+FFFD and everything else decodes as `from_utf8` would.
   */
  function DecodeLossy(b: seq<byte>): string
    decreases |b|
  {
    if |b| == 0 then []
    else if StartsWell(b) then [CodePoint(b) as char] + DecodeLossy(b[SeqLen(b[0])..])
    else
      var skip := if ValidPrefix(b) == 0 then 1 else ValidPrefix(b);
      [REPLACEMENT] + DecodeLossy(b[skip..])
  }

  /** `std::str::Utf8Error`: how many leading bytes are valid, and the length of the bad sequence (`None` when the input ends inside a sequence). */
  datatype Utf8Error = Utf8Error(validUpTo: nat, errorLen: Option<nat>)

  /** Length of the longest prefix of `b` made of whole well-formed scalars. */
  function ValidUpTo(b: seq<byte>): (n: nat)
    ensures n <= |b|
    decreases |b|
  {
    if |b| == 0 || !StartsWell(b) then 0 else SeqLen(b[0]) + ValidUpTo(b[SeqLen(b[0])..])
  }

  /** The error `std::str::from_utf8` reports for invalid input. */
  function ErrorOf(b: seq<byte>): Utf8Error
  {
    var n := ValidUpTo(b);
    var bad := ValidPrefix(b[n..]);
    Utf8Error(n, if bad == |b| - n then None else Some(if bad == 0 then 1 else bad))
  }

  /** A well-formed first sequence stays well formed in any prefix that keeps it whole. */
  lemma StartsWellPrefix(b: seq<byte>, n: nat)
    requires StartsWell(b) && SeqLen(b[0]) <= n <= |b|
    ensures StartsWell(b[..n]) && b[..n][0] == b[0]
  {
    var p := b[..n];
    assert p[0] == b[0];
    assert forall i | 0 <= i < SeqLen(b[0]) :: p[i] == b[i];
  }

  /** A well-formed first sequence followed by valid bytes is valid. */
  lemma ValidCons(b: seq<byte>, n: nat)
    requires StartsWell(b) && SeqLen(b[0]) <= n <= |b|
    requires Valid(b[SeqLen(b[0])..n])
    ensures Valid(b[..n])
  {
    StartsWellPrefix(b, n);
    assert b[..n][SeqLen(b[0])..] == b[SeqLen(b[0])..n];
  }

  /** Checking UTF-8 agrees with scanning for the longest valid prefix. */
  lemma {:induction false} ValidUpToSpec(b: seq<byte>)
    ensures Valid(b[..ValidUpTo(b)])
    ensures Valid(b) <==> ValidUpTo(b) == |b|
    ensures ValidUpTo(b) < |b| ==> !StartsWell(b[ValidUpTo(b)..])
    decreases |b|
  {
    var n := ValidUpTo(b);
    if |b| == 0 {
    } else if !StartsWell(b) {
      assert b[..n] == [];
    } else {
      var k := SeqLen(b[0]);
      var rest := b[k..];
      ValidUpToSpec(rest);
      var m := ValidUpTo(rest);
      assert b[k..n] == rest[..m];
      ValidCons(b, n);
      assert b[..|b|] == b;
      assert b[n..] == rest[m..];
    }
  }

  /** Encoding one scalar gives a well-formed sequence that decodes back to it. */
  lemma EncodeCharDecodes(c: char, rest: seq<byte>)
    ensures var e := EncodeChar(c);
      StartsWell(e + rest) && SeqLen(e[0]) == |e| && CodePoint(e + rest) == c as int
  {
    var cp := c as int;
    if cp >= 0x10000 {
      EncodeFourDecodes(c, rest);
    } else if cp >= 0x800 {
      EncodeThreeDecodes(c, rest);
    } else if cp >= 0x80 {
      EncodeTwoDecodes(c, rest);
    }
  }

  lemma EncodeTwoDecodes(c: char, rest: seq<byte>)
    requires 0x80 <= c as int < 0x800
    ensures var e := EncodeChar(c);
      StartsWell(e + rest) && SeqLen(e[0]) == |e| && CodePoint(e + rest) == c as int
  {
  }

  lemma EncodeThreeDecodes(c: char, rest: seq<byte>)
    requires 0x800 <= c as int < 0x10000
    ensures var e := EncodeChar(c);
      StartsWell(e + rest) && SeqLen(e[0]) == |e| && CodePoint(e + rest) == c as int
  {
    var cp := c as int;
    assert cp == (cp / 4096) * 4096 + ((cp / 64) % 64) * 64 + cp % 64;
  }

  lemma EncodeFourDecodes(c: char, rest: seq<byte>)
    requires 0x10000 <= c as int
    ensures var e := EncodeChar(c);
      StartsWell(e + rest) && SeqLen(e[0]) == |e| && CodePoint(e + rest) == c as int
  {
    var cp := c as int;
    Radix64(cp);
    var b := EncodeChar(c) + rest;
    assert b[0] as int == 0xF0 + cp / 262144 && b[1] as int == 0x80 + (cp / 4096) % 64;
    assert b[2] as int == 0x80 + (cp / 64) % 64 && b[3] as int == 0x80 + cp % 64;
  }

  /** A scalar above U+FFFF as four base-64 digits, the first at most 4. */
  lemma Radix64(cp: int)
    requires 0x10000 <= cp < 0x11_0000
    ensures cp == (cp / 262144) * 262144 + ((cp / 4096) % 64) * 4096 + ((cp / 64) % 64) * 64 + cp % 64
    ensures cp / 262144 <= 4 && (cp / 262144 == 0 ==> (cp / 4096) % 64 >= 0x10)
    ensures cp / 262144 == 4 ==> (cp / 4096) % 64 < 0x10
  {
    var a, s := cp / 64, cp % 64;
    var b, r := a / 64, a % 64;
    var p, q := b / 64, b % 64;
    assert cp == 4096 * b + 64 * r + s;
    assert cp / 4096 == b;
    assert cp == 262144 * p + 4096 * q + 64 * r + s;
    assert cp / 262144 == p;
  }

  /** A well-formed first sequence is exactly the encoding of the scalar it decodes to. */
  lemma DecodedCharEncodes(b: seq<byte>)
    requires StartsWell(b)
    ensures EncodeChar(CodePoint(b) as char) == b[..SeqLen(b[0])]
  {
    var n := SeqLen(b[0]);
    if n == 2 {
      Split64(b[0] as int - 0xC0, b[1] as int - 0x80);
    } else if n == 3 {
      ThreeByteEncodes(b);
    } else if n == 4 {
      FourByteEncodes(b);
    }
  }

  lemma ThreeByteEncodes(b: seq<byte>)
    requires StartsWell(b) && SeqLen(b[0]) == 3
    ensures EncodeChar(CodePoint(b) as char) == b[..3]
  {
    var cp := CodePoint(b);
    var x: int, y: int, z: int := b[0] as int - 0xE0, b[1] as int - 0x80, b[2] as int - 0x80;
    assert cp == (x * 64 + y) * 64 + z;
    Split64(x * 64 + y, z);
    Split64(x, y);
    Split4096(x, y * 64 + z);
  }

  lemma FourByteEncodes(b: seq<byte>)
    requires StartsWell(b) && SeqLen(b[0]) == 4
    ensures EncodeChar(CodePoint(b) as char) == b[..4]
  {
    var cp := CodePoint(b);
    var w: int, x: int, y: int, z: int := b[0] as int - 0xF0, b[1] as int - 0x80, b[2] as int - 0x80, b[3] as int - 0x80;
    assert cp == ((w * 64 + x) * 64 + y) * 64 + z;
    Split64((w * 64 + x) * 64 + y, z);
    Split64(w * 64 + x, y);
    assert cp == (w * 64 + x) * 4096 + (y * 64 + z);
    Split4096(w * 64 + x, y * 64 + z);
    Split64(w, x);
    Split262144(w, x * 4096 + y * 64 + z);
  }

  /** Round trip text -> bytes -> text. */
  lemma {:induction false} DecodeEncode(s: string)
    ensures Decode(Encode(s)) == Some(s)
  {
    if s != [] {
      var e := EncodeChar(s[0]);
      EncodeCharDecodes(s[0], Encode(s[1..]));
      assert Encode(s) == e + Encode(s[1..]);
      assert Encode(s)[|e|..] == Encode(s[1..]);
      DecodeEncode(s[1..]);
      assert [CodePoint(Encode(s)) as char] + s[1..] == s;
    }
  }

  /** Round trip bytes -> text -> bytes: decoding loses nothing. */
  lemma {:induction false} EncodeDecode(b: seq<byte>)
    requires Valid(b)
    ensures Encode(Decode(b).value) == b
    decreases |b|
  {
    if |b| > 0 {
      var n := SeqLen(b[0]);
      var c := CodePoint(b) as char;
      var tail := Decode(b[n..]).value;
      assert Decode(b).value == [c] + tail;
      DecodedCharEncodes(b);
      EncodeDecode(b[n..]);
      EncodeCons(c, tail);
      SplitJoin(b, n);
    }
  }

  lemma SplitJoin(b: seq<byte>, n: nat)
    requires n <= |b|
    ensures b[..n] + b[n..] == b
  {
  }

  lemma EncodeCons(c: char, t: string)
    ensures Encode([c] + t) == EncodeChar(c) + Encode(t)
  {
    assert ([c] + t)[0] == c && ([c] + t)[1..] == t;
  }

  /** On valid input the lossy decoder agrees with the strict one. */
  lemma {:induction false} LossyAgreesOnValid(b: seq<byte>)
    requires Valid(b)
    ensures DecodeLossy(b) == Decode(b).value
    decreases |b|
  {
    if |b| > 0 {
      LossyAgreesOnValid(b[SeqLen(b[0])..]);
    }
  }

  lemma {:induction false} EncodeAppend(s: string, t: string)
    ensures Encode(s + t) == Encode(s) + Encode(t)
  {
    if s != [] {
      assert (s + t)[0] == s[0] && (s + t)[1..] == s[1..] + t;
      EncodeAppend(s[1..], t);
    } else {
      assert s + t == t;
    }
  }

  /** Every encoding is valid, so the lossy decoder never has to substitute on it. */
  lemma EncodeIsValid(s: string)
    ensures Valid(Encode(s))
  {
    DecodeEncode(s);
  }
  /** Concatenating two valid byte strings gives a valid one. */
  lemma ValidAppend(a: seq<byte>, b: seq<byte>)
    requires Valid(a) && Valid(b)
    ensures Valid(a + b)
  {
    EncodeDecode(a);
    EncodeDecode(b);
    var s := Decode(a).value;
    var t := Decode(b).value;
    EncodeAppend(s, t);
    EncodeIsValid(s + t);
  }

  /** Bytes below 0x80 are valid UTF-8, one character each. */
  lemma {:induction false} AsciiValid(b: seq<byte>)
    requires forall i :: 0 <= i < |b| ==> b[i] < 0x80
    ensures Valid(b)
    decreases |b|
  {
    if |b| > 0 {
      AsciiValid(b[1..]);
    }
  }
}
