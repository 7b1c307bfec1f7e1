/**
 * `CowStr` of merde_core: a string that is either borrowed from the input
 * or owned. Only the text is observable through `Deref`, equality and
 * hashing; the variant says whether the text still borrows its input.
 * The `compact_str` cargo feature changes which variant a few constructors
 * pick, so those take the feature as a parameter.
 */
module CowStr {
  import opened Wrappers
  import opened MachineInts
  import Utf8
  import StdCow

  datatype CowStr = Borrowed(text: string) | Owned(text: string)

  /** `copy_from_str`: always an owned copy. */
  function CopyFromStr(s: string): (r: CowStr)
    ensures r.Owned? && Deref(r) == s
  {
    Owned(s)
  }

  /** `from_utf8`: borrows the input when it is valid UTF-8. */
  function FromUtf8(b: seq<byte>): (r: Result<CowStr, Utf8.Utf8Error>)
    ensures r.Ok? <==> Utf8.Valid(b)
    ensures r.Ok? ==> r.value.Borrowed? && Utf8.Encode(Deref(r.value)) == b
    ensures r.Err? ==> r.error.validUpTo < |b| && Utf8.Valid(b[..r.error.validUpTo])
  {
    Utf8.ValidUpToSpec(b);
    match Utf8.Decode(b)
    case Some(s) => Utf8.EncodeDecode(b); Ok(Borrowed(s))
    case None => Err(Utf8.ErrorOf(b))
  }

  /** `from_utf8_owned`: the same check, keeping an owned string (both feature settings). */
  function FromUtf8Owned(b: seq<byte>): (r: Result<CowStr, Utf8.Utf8Error>)
    ensures r.Ok? <==> Utf8.Valid(b)
    ensures r.Ok? ==> r.value.Owned? && Utf8.Encode(Deref(r.value)) == b
  {
    match Utf8.Decode(b)
    case Some(s) => Utf8.EncodeDecode(b); Ok(Owned(s))
    case None => Err(Utf8.ErrorOf(b))
  }

  /**
   * `from_utf8_lossy`: with `compact_str` always owned; without it,
   * `String::from_utf8_lossy` borrows valid input and owns the repaired copy.
   */
  function FromUtf8Lossy(b: seq<byte>, compactStr: bool): (r: CowStr)
    ensures Utf8.Valid(b) ==> Utf8.Encode(Deref(r)) == b
    ensures r.Borrowed? <==> !compactStr && Utf8.Valid(b)
  {
    if !compactStr && Utf8.Valid(b) then
      Utf8.LossyAgreesOnValid(b);
      Utf8.EncodeDecode(b);
      Borrowed(Utf8.DecodeLossy(b))
    else
      if Utf8.Valid(b) then Utf8.LossyAgreesOnValid(b); Utf8.EncodeDecode(b); Owned(Utf8.DecodeLossy(b))
      else Owned(Utf8.DecodeLossy(b))
  }

  /** `from_utf8_unchecked`: the caller promises valid UTF-8. */
  function FromUtf8Unchecked(b: seq<byte>, compactStr: bool): (r: CowStr)
    requires Utf8.Valid(b)
    ensures Utf8.Encode(Deref(r)) == b
    ensures r.Borrowed? <==> !compactStr
  {
    Utf8.EncodeDecode(b);
    var s := Utf8.Decode(b).value;
    if compactStr then Owned(s) else Borrowed(s)
  }

  /** `as_ref` and `deref`: the text, whichever the variant. */
  function Deref(c: CowStr): string
  {
    match c
    case Borrowed(s) => s
    case Owned(s) => s
  }

  /** `From<Cow<str>>` keeps the variant. */
  function FromCow(c: StdCow.Cow<string>): (r: CowStr)
    ensures r.Borrowed? <==> c.Borrowed?
    ensures Deref(r) == c.val
  {
    match c
    case Borrowed(s) => Borrowed(s)
    case Owned(s) => Owned(s)
  }

  /** `From<&str>` and `From<&String>` borrow. */
  function FromStr(s: string): (r: CowStr)
    ensures r.Borrowed? && Deref(r) == s
  {
    Borrowed(s)
  }

  /** `From<String>` and `From<Box<str>>` take ownership. */
  function FromString(s: string): (r: CowStr)
    ensures r.Owned? && Deref(r) == s
  {
    Owned(s)
  }

  /** `From<CowStr> for String` and `for Box<str>`. */
  function IntoString(c: CowStr): string
  {
    Deref(c)
  }

  /** `PartialEq` between two `CowStr`s, and with `&str`/`String` on either side: the texts are compared. */
  predicate Eq(a: CowStr, b: CowStr)
  {
    Deref(a) == Deref(b)
  }

  predicate EqStr(a: CowStr, s: string)
  {
    Deref(a) == s
  }

  /** What `Hash` feeds to the hasher: the text only. */
  function HashInput(c: CowStr): string
  {
    Deref(c)
  }

  /** `into_static`: borrowed text is copied into an owned string. */
  function IntoStatic(c: CowStr): (r: CowStr)
    ensures r.Owned? && Eq(r, c)
  {
    match c
    case Borrowed(s) => Owned(s)
    case Owned(s) => Owned(s)
  }

  /** Equality ignores the variant and is an equivalence, and hashing agrees with it. */
  lemma EqIsContentEquality(a: CowStr, b: CowStr, c: CowStr)
    ensures Eq(a, b) <==> IntoString(a) == IntoString(b)
    ensures Eq(Borrowed(a.text), Owned(a.text))
    ensures Eq(a, a) && (Eq(a, b) ==> Eq(b, a)) && (Eq(a, b) && Eq(b, c) ==> Eq(a, c))
    ensures Eq(a, b) ==> HashInput(a) == HashInput(b)
  {
  }

  /** Every constructor gives back its text through `Deref` and `String::from`. */
  lemma ConstructorsKeepText(s: string, b: seq<byte>)
    ensures IntoString(FromStr(s)) == s && IntoString(FromString(s)) == s
    ensures IntoString(CopyFromStr(s)) == s
    ensures FromUtf8(b).Ok? ==> IntoString(FromUtf8(b).value) == Utf8.Decode(b).value
    ensures Eq(FromStr(s), FromString(s))
  {
  }

  /** `into_static` is idempotent and leaves owned strings untouched. */
  lemma IntoStaticIdempotent(c: CowStr)
    ensures IntoStatic(IntoStatic(c)) == IntoStatic(c)
    ensures c.Owned? ==> IntoStatic(c) == c
  {
  }

  /** The equality test of the crate: equal and unequal texts, compared both ways. */
  lemma PartialEqWithStr()
    ensures EqStr(Borrowed("hello"), "hello")
    ensures Eq(Borrowed("hello"), Borrowed("hello"))
    ensures !EqStr(Borrowed("hello"), "world")
    ensures !Eq(Borrowed("hello"), Borrowed("world"))
  {
  }

  /** `from_utf8` then `into_static` is what `from_utf8_owned` gives. */
  lemma FromUtf8ThenIntoStatic(b: seq<byte>)
    ensures FromUtf8(b).Ok? ==> FromUtf8Owned(b) == Ok(IntoStatic(FromUtf8(b).value))
    ensures FromUtf8(b).Err? ==> FromUtf8Owned(b) == FromUtf8(b)
  {
  }
}
