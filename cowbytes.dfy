/** `CowBytes` of merde_core: a byte string that is either borrowed or owned (a `CompactBytes`). */
module CowBytes {
  import opened MachineInts
  import StdCow

  datatype CowBytes = Borrowed(bytes: seq<byte>) | Owned(bytes: seq<byte>)

  /** `as_ref` and `deref`: the bytes, whichever the variant. */
  function Deref(c: CowBytes): seq<byte>
  {
    match c
    case Borrowed(b) => b
    case Owned(b) => b
  }

  /** `new` borrows. */
  function New(b: seq<byte>): (r: CowBytes)
    ensures r.Borrowed? && Deref(r) == b
  {
    Borrowed(b)
  }

  /** `into_owned`: a `Vec<u8>` copy of the content. */
  function IntoOwned(c: CowBytes): (r: seq<byte>)
    ensures r == Deref(c)
  {
    match c
    case Borrowed(b) => b
    case Owned(b) => b
  }

  /** `From<&[u8]>`. */
  function FromSlice(b: seq<byte>): (r: CowBytes)
    ensures r.Borrowed? && Deref(r) == b
  {
    Borrowed(b)
  }

  /** `From<Vec<u8>>`. */
  function FromVec(b: seq<byte>): (r: CowBytes)
    ensures r.Owned? && Deref(r) == b
  {
    Owned(b)
  }

  /** `From<Cow<[u8]>>` keeps the variant (the owned case goes through `From<Vec<u8>>`). */
  function FromCow(c: StdCow.Cow<seq<byte>>): (r: CowBytes)
    ensures r.Borrowed? <==> c.Borrowed?
    ensures Deref(r) == c.val
  {
    match c
    case Borrowed(b) => FromSlice(b)
    case Owned(v) => FromVec(v)
  }

  /** `PartialEq` with another `CowBytes` or a `[u8]`: the contents are compared. */
  predicate Eq(a: CowBytes, b: CowBytes)
  {
    Deref(a) == Deref(b)
  }

  predicate EqSlice(a: CowBytes, s: seq<byte>)
  {
    Deref(a) == s
  }

  /** What `Hash` feeds to the hasher. */
  function HashInput(c: CowBytes): seq<byte>
  {
    Deref(c)
  }

  /** `into_static`: always owned, same content. */
  function IntoStatic(c: CowBytes): (r: CowBytes)
    ensures r.Owned? && Eq(r, c)
  {
    match c
    case Borrowed(b) => Owned(b)
    case Owned(b) => Owned(b)
  }

  /** Equality ignores the variant, is an equivalence, and hashing agrees with it. */
  lemma EqIsContentEquality(a: CowBytes, b: CowBytes, c: CowBytes)
    ensures Eq(a, b) <==> IntoOwned(a) == IntoOwned(b)
    ensures Eq(New(a.bytes), FromVec(a.bytes))
    ensures Eq(a, a) && (Eq(a, b) ==> Eq(b, a)) && (Eq(a, b) && Eq(b, c) ==> Eq(a, c))
    ensures Eq(a, b) ==> HashInput(a) == HashInput(b)
  {
  }

  /** `into_static` keeps the bytes `into_owned` would give, and is idempotent. */
  lemma IntoStaticKeepsBytes(c: CowBytes)
    ensures IntoOwned(IntoStatic(c)) == IntoOwned(c)
    ensures IntoStatic(IntoStatic(c)) == IntoStatic(c)
  {
  }
}
