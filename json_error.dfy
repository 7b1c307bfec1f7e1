/**
 * `MerdeJsonError` of merde_json: the crate's error type, which may keep
 * the JSON text it failed on. `without_source` drops that text and
 * `to_static` makes it owned; either way no borrowed text remains.
 *
 * The jiter error and the I/O error are opaque payloads here. The
 * `MerdeError` of this crate's version of merde_core borrows strings; its
 * `into_static` is not part of this model, and it is modelled as the error
 * of the error module with every string payload made owned.
 */
module JsonError {
  import opened Wrappers
  import CowStr
  import Utf8
  import V = Value

  /** `JiterError`: what went wrong and at which byte. */
  datatype JiterError = JiterError(kind: nat, index: nat)

  datatype MerdeJsonError =
    | MerdeError(e: V.MerdeError)
    | Utf8Error(u: Utf8.Utf8Error)
    | JiterErr(err: JiterError, source: Option<CowStr.CowStr>)
    | Io(code: int)
    | JsonDoesNotSupportBytes

  /** `MerdeError::into_static`: string payloads made owned, everything else kept. */
  function ErrorIntoStatic(e: V.MerdeError): (r: V.MerdeError)
    ensures ErrorIsStatic(r)
  {
    match e
    case MissingProperty(p) => V.MissingProperty(CowStr.IntoStatic(p))
    case InvalidKeyWith(k, t) => V.InvalidKeyWith(CowStr.IntoStatic(k), t)
    case _ => e
  }

  /** No string payload of the error borrows. */
  predicate ErrorIsStatic(e: V.MerdeError)
  {
    match e
    case MissingProperty(p) => p.Owned?
    case InvalidKeyWith(k, _) => k.Owned?
    case _ => true
  }

  /** The error is `'static`: it holds no borrowed text. */
  predicate IsStatic(e: MerdeJsonError)
  {
    match e
    case MerdeError(m) => ErrorIsStatic(m)
    case JiterErr(_, source) => source.Some? ==> source.value.Owned?
    case _ => true
  }

  /** Two errors that differ at most in whether their strings are borrowed. */
  predicate SameContent(a: MerdeJsonError, b: MerdeJsonError)
  {
    match a
    case MerdeError(m) => b.MerdeError? && ErrorSameContent(m, b.e)
    case JiterErr(err, source) =>
      b.JiterErr? && b.err == err && b.source.Some? == source.Some? &&
      (source.Some? ==> CowStr.Eq(source.value, b.source.value))
    case _ => a == b
  }

  predicate ErrorSameContent(a: V.MerdeError, b: V.MerdeError)
  {
    match a
    case MissingProperty(p) => b.MissingProperty? && CowStr.Eq(p, b.prop)
    case InvalidKeyWith(k, t) => b.InvalidKeyWith? && CowStr.Eq(k, b.key) && b.typeName == t
    case _ => a == b
  }

  /** `without_source`. */
  function WithoutSource(e: MerdeJsonError): (r: MerdeJsonError)
    ensures IsStatic(r)
  {
    match e
    case MerdeError(m) => MerdeError(ErrorIntoStatic(m))
    case JiterErr(err, _) => JiterErr(err, None)
    case _ => e
  }

  /** `to_static`. */
  function ToStatic(e: MerdeJsonError): (r: MerdeJsonError)
    ensures IsStatic(r)
  {
    match e
    case MerdeError(m) => MerdeError(ErrorIntoStatic(m))
    case JiterErr(err, source) =>
      JiterErr(err, if source.Some? then Some(CowStr.IntoStatic(source.value)) else None)
    case _ => e
  }

  /**
   * `without_source` forgets the source of a jiter error and keeps its
   * error; every other variant keeps its payload's content, and the
   * payload-free and opaque ones are returned as they are.
   */
  lemma WithoutSourceKeeps(e: MerdeJsonError)
    ensures e.JiterErr? ==> WithoutSource(e) == JiterErr(e.err, None)
    ensures !e.JiterErr? ==> SameContent(e, WithoutSource(e))
    ensures e.Utf8Error? || e.Io? || e.JsonDoesNotSupportBytes? ==> WithoutSource(e) == e
  {
  }

  /** `to_static` changes only whether strings are borrowed: the content, the source included, is kept. */
  lemma ToStaticKeeps(e: MerdeJsonError)
    ensures SameContent(e, ToStatic(e))
    ensures e.Utf8Error? || e.Io? || e.JsonDoesNotSupportBytes? ==> ToStatic(e) == e
  {
  }

  /** A static error is its own `to_static`, so `to_static` is idempotent. */
  lemma ToStaticOfStatic(e: MerdeJsonError)
    requires IsStatic(e)
    ensures ToStatic(e) == e
  {
  }

  /** Dropping the source after `to_static` is dropping it straight away. */
  lemma WithoutSourceAfterToStatic(e: MerdeJsonError)
    ensures WithoutSource(ToStatic(e)) == WithoutSource(e)
    ensures ToStatic(WithoutSource(e)) == WithoutSource(e)
  {
  }
}
