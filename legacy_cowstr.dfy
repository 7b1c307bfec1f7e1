/**
 * The earlier `CowStr` of the `merde` crate (owned side a `CompactString`):
 * only `Deref`, the `From` conversions and content-based equality and
 * hashing.
 */
module LegacyCowStr {
  import StdCow

  datatype CowStr = Borrowed(text: string) | Owned(text: string)

  function Deref(c: CowStr): string
  {
    match c
    case Borrowed(s) => s
    case Owned(s) => s
  }

  /** `From<Cow<str>>`: borrowed stays borrowed, owned becomes a `CompactString`. */
  function FromCow(c: StdCow.Cow<string>): (r: CowStr)
    ensures r.Borrowed? <==> c.Borrowed?
    ensures Deref(r) == c.val
  {
    match c
    case Borrowed(s) => Borrowed(s)
    case Owned(s) => Owned(s)
  }

  /** `From<&str>` and `From<&String>`. */
  function FromStr(s: string): (r: CowStr)
    ensures r.Borrowed? && Deref(r) == s
  {
    Borrowed(s)
  }

  /** `From<String>` and `From<Box<str>>`. */
  function FromString(s: string): (r: CowStr)
    ensures r.Owned? && Deref(r) == s
  {
    Owned(s)
  }

  predicate Eq(a: CowStr, b: CowStr)
  {
    Deref(a) == Deref(b)
  }

  function HashInput(c: CowStr): string
  {
    Deref(c)
  }

  /** Equality and hashing see the text and never the variant. */
  lemma EqIgnoresVariant(a: CowStr, b: CowStr)
    ensures Eq(FromStr(Deref(a)), FromString(Deref(a)))
    ensures Eq(a, b) <==> Deref(a) == Deref(b)
    ensures Eq(a, b) ==> HashInput(a) == HashInput(b)
    ensures Eq(a, FromCow(StdCow.Borrowed(Deref(a)))) && Eq(a, FromCow(StdCow.Owned(Deref(a))))
  {
  }
}
