/**
 * Lifetime erasure: `IntoStatic` (by value) and `ToStatic` (by reference).
 * A Rust conversion from `X<'a>` to `X<'static>` has no run-time effect other
 * than turning every borrowed buffer into an owned copy, so in the model both
 * traits are the same functions on values: the generic impls are combinators
 * taking the component conversion as a function parameter, and the leaves are
 * `Cow` (here), `CowStr` and `CowBytes` (in their own modules).
 * `ToStatic` leaves its receiver untouched, which a function on values does
 * by construction.
 */
module IntoStatic {
  import opened Wrappers
  import StdCow
  import CowStr
  import CowBytes
  import Event

  /** `Cow::into_static` / `Cow::to_static`: always owned, same content. */
  function CowIntoStatic<T>(c: StdCow.Cow<T>): (r: StdCow.Cow<T>)
    ensures r.Owned? && r.val == c.val
  {
    match c
    case Borrowed(b) => StdCow.Owned(b)
    case Owned(o) => StdCow.Owned(o)
  }

  /** The pass-through impls (`String`, integers, `bool`, `char`, floats). */
  function Passthru<T>(x: T): T
  {
    x
  }

  /** `Event::into_static`: the variant survives, only string and byte payloads change. */
  function EventIntoStatic(e: Event.Event): (r: Event.Event)
    ensures Event.TypeOf(r) == Event.TypeOf(e)
    ensures e.Str? ==> r.s.Owned? && CowStr.Eq(r.s, e.s)
    ensures e.Bytes? ==> r.bytes.Owned? && CowBytes.Eq(r.bytes, e.bytes)
    ensures !e.Str? && !e.Bytes? ==> r == e
  {
    match e
    case Str(s) => Event.Str(CowStr.IntoStatic(s))
    case Bytes(b) => Event.Bytes(CowBytes.IntoStatic(b))
    case _ => e
  }

  /** No borrowed buffer is left in an event. */
  predicate EventIsStatic(e: Event.Event)
  {
    (e.Str? ==> e.s.Owned?) && (e.Bytes? ==> e.bytes.Owned?)
  }

  lemma EventIntoStaticIdempotent(e: Event.Event)
    ensures EventIsStatic(EventIntoStatic(e))
    ensures EventIsStatic(e) <==> EventIntoStatic(e) == e
    ensures EventIntoStatic(EventIntoStatic(e)) == EventIntoStatic(e)
  {
  }

  function OptionIntoStatic<T, U>(o: Option<T>, f: T -> U): Option<U>
  {
    match o
    case None => None
    case Some(v) => Some(f(v))
  }

  function ResultIntoStatic<T, E, T2, E2>(r: Result<T, E>, f: T -> T2, g: E -> E2): Result<T2, E2>
  {
    match r
    case Ok(v) => Ok(f(v))
    case Err(e) => Err(g(e))
  }

  /** `Vec` and `VecDeque`: `into_iter().map(..).collect()` keeps length and order. */
  function SeqIntoStatic<T, U>(xs: seq<T>, f: T -> U): (r: seq<U>)
    ensures |r| == |xs|
    ensures forall i :: 0 <= i < |xs| ==> r[i] == f(xs[i])
  {
    if xs == [] then [] else [f(xs[0])] + SeqIntoStatic(xs[1..], f)
  }

  /**
   * `HashMap`: each (key, value) pair is converted. The map is an association
   * list in iteration order; `collect` keeps every pair because the
   * conversion keeps keys apart (see HashMapKeysStayDistinct).
   */
  function HashMapIntoStatic<K, V, K2, V2>(es: seq<(K, V)>, fk: K -> K2, fv: V -> V2): (r: seq<(K2, V2)>)
    ensures |r| == |es|
    ensures forall i :: 0 <= i < |es| ==> r[i] == (fk(es[i].0), fv(es[i].1))
  {
    if es == [] then [] else [(fk(es[0].0), fv(es[0].1))] + HashMapIntoStatic(es[1..], fk, fv)
  }

  /** `HashSet`: the set of converted members. */
  function SetIntoStatic<T, U(==)>(s: set<T>, f: T -> U): (r: set<U>)
    ensures forall x :: x in s ==> f(x) in r
    ensures forall y :: y in r ==> exists x :: x in s && f(x) == y
  {
    set x | x in s :: f(x)
  }

  /** Dafny has no one-element tuple type; `(T1,)` is this wrapper. */
  datatype Tuple1<A> = Tuple1(first: A)

  function Tuple1IntoStatic<A>(t: Tuple1<A>, fa: A -> A): Tuple1<A>
  {
    Tuple1(fa(t.first))
  }

  function Tuple2IntoStatic<A, B>(t: (A, B), fa: A -> A, fb: B -> B): (A, B)
  {
    (fa(t.0), fb(t.1))
  }

  function Tuple3IntoStatic<A, B, C>(t: (A, B, C), fa: A -> A, fb: B -> B, fc: C -> C): (A, B, C)
  {
    (fa(t.0), fb(t.1), fc(t.2))
  }

  function Tuple4IntoStatic<A, B, C, D>(t: (A, B, C, D), fa: A -> A, fb: B -> B, fc: C -> C, fd: D -> D): (A, B, C, D)
  {
    (fa(t.0), fb(t.1), fc(t.2), fd(t.3))
  }

  function Tuple5IntoStatic<A, B, C, D, E>(t: (A, B, C, D, E), fa: A -> A, fb: B -> B, fc: C -> C, fd: D -> D, fe: E -> E): (A, B, C, D, E)
  {
    (fa(t.0), fb(t.1), fc(t.2), fd(t.3), fe(t.4))
  }

  function Tuple6IntoStatic<A, B, C, D, E, F>(t: (A, B, C, D, E, F), fa: A -> A, fb: B -> B, fc: C -> C, fd: D -> D, fe: E -> E, ff: F -> F): (A, B, C, D, E, F)
  {
    (fa(t.0), fb(t.1), fc(t.2), fd(t.3), fe(t.4), ff(t.5))
  }

  function Tuple7IntoStatic<A, B, C, D, E, F, G>(t: (A, B, C, D, E, F, G), fa: A -> A, fb: B -> B, fc: C -> C, fd: D -> D, fe: E -> E, ff: F -> F, fg: G -> G): (A, B, C, D, E, F, G)
  {
    (fa(t.0), fb(t.1), fc(t.2), fd(t.3), fe(t.4), ff(t.5), fg(t.6))
  }

  function Tuple8IntoStatic<A, B, C, D, E, F, G, H>(t: (A, B, C, D, E, F, G, H), fa: A -> A, fb: B -> B, fc: C -> C, fd: D -> D, fe: E -> E, ff: F -> F, fg: G -> G, fh: H -> H): (A, B, C, D, E, F, G, H)
  {
    (fa(t.0), fb(t.1), fc(t.2), fd(t.3), fe(t.4), ff(t.5), fg(t.6), fh(t.7))
  }

  ghost predicate Idempotent<T(!new)>(f: T -> T)
  {
    forall x :: f(f(x)) == f(x)
  }

  /** `Cow::into_static` is idempotent and never changes the content. */
  lemma CowIntoStaticIdempotent<T(!new)>()
    ensures Idempotent((c: StdCow.Cow<T>) => CowIntoStatic(c))
    ensures forall c: StdCow.Cow<T> :: CowIntoStatic(c).val == c.val
  {
  }

  /** Containers of pass-through values come back unchanged. */
  lemma {:induction false} PassthruContainers<T, E>(o: Option<T>, r: Result<T, E>, xs: seq<T>, es: seq<(T, E)>)
    ensures OptionIntoStatic(o, Passthru) == o
    ensures ResultIntoStatic(r, Passthru, Passthru) == r
    ensures SeqIntoStatic(xs, Passthru) == xs
    ensures HashMapIntoStatic(es, Passthru, Passthru) == es
  {
    assert SeqIntoStatic(xs, Passthru) == xs by {
      assert forall i :: 0 <= i < |xs| ==> SeqIntoStatic(xs, Passthru)[i] == xs[i];
    }
    assert HashMapIntoStatic(es, Passthru, Passthru) == es by {
      var r := HashMapIntoStatic(es, Passthru, Passthru);
      forall i | 0 <= i < |es|
        ensures r[i] == es[i]
      {
        assert r[i] == (es[i].0, es[i].1);
      }
    }
  }

  lemma PassthruSetsAndTuples<A, B>(s: set<A>, t: (A, B))
    ensures SetIntoStatic(s, Passthru) == s
    ensures Tuple2IntoStatic(t, Passthru, Passthru) == t
  {
    var r := SetIntoStatic(s, Passthru);
    assert forall x :: x in s ==> Passthru(x) in r;
  }

  /** Converting twice is converting once, for every container, whenever the components' conversion is idempotent. */
  lemma {:induction false} ContainersIdempotent<T(!new), E(!new)>(f: T -> T, g: E -> E, o: Option<T>, r: Result<T, E>, xs: seq<T>, es: seq<(T, E)>, s: set<T>)
    requires Idempotent(f) && Idempotent(g)
    ensures OptionIntoStatic(OptionIntoStatic(o, f), f) == OptionIntoStatic(o, f)
    ensures ResultIntoStatic(ResultIntoStatic(r, f, g), f, g) == ResultIntoStatic(r, f, g)
    ensures SeqIntoStatic(SeqIntoStatic(xs, f), f) == SeqIntoStatic(xs, f)
    ensures HashMapIntoStatic(HashMapIntoStatic(es, f, g), f, g) == HashMapIntoStatic(es, f, g)
    ensures SetIntoStatic(SetIntoStatic(s, f), f) == SetIntoStatic(s, f)
  {
    var once := SeqIntoStatic(xs, f);
    var twice := SeqIntoStatic(once, f);
    assert forall i :: 0 <= i < |xs| ==> twice[i] == f(f(xs[i])) == once[i];
    var monce := HashMapIntoStatic(es, f, g);
    var mtwice := HashMapIntoStatic(monce, f, g);
    forall i | 0 <= i < |es|
      ensures mtwice[i] == monce[i]
    {
      assert monce[i] == (f(es[i].0), g(es[i].1));
      assert mtwice[i] == (f(f(es[i].0)), g(g(es[i].1)));
    }
    var sonce := SetIntoStatic(s, f);
    var stwice := SetIntoStatic(sonce, f);
    forall y | y in sonce
      ensures y in stwice
    {
      var x :| x in s && f(x) == y;
      assert f(y) == y;
    }
    forall y | y in stwice
      ensures y in sonce
    {
      var z :| z in sonce && f(z) == y;
      var x :| x in s && f(x) == z;
      assert y == f(x);
    }
  }

  /** The tuple impls of every arity are idempotent under idempotent component conversions. */
  lemma TuplesIdempotent<A(!new), B(!new), C(!new), D(!new), E(!new), F(!new), G(!new), H(!new)>(
    t1: Tuple1<A>, t2: (A, B), t3: (A, B, C), t4: (A, B, C, D), t5: (A, B, C, D, E), t6: (A, B, C, D, E, F),
    t7: (A, B, C, D, E, F, G), t8: (A, B, C, D, E, F, G, H),
    fa: A -> A, fb: B -> B, fc: C -> C, fd: D -> D, fe: E -> E, ff: F -> F, fg: G -> G, fh: H -> H)
    requires Idempotent(fa) && Idempotent(fb) && Idempotent(fc) && Idempotent(fd)
    requires Idempotent(fe) && Idempotent(ff) && Idempotent(fg) && Idempotent(fh)
    ensures Tuple1IntoStatic(Tuple1IntoStatic(t1, fa), fa) == Tuple1IntoStatic(t1, fa)
    ensures Tuple2IntoStatic(Tuple2IntoStatic(t2, fa, fb), fa, fb) == Tuple2IntoStatic(t2, fa, fb)
    ensures Tuple3IntoStatic(Tuple3IntoStatic(t3, fa, fb, fc), fa, fb, fc) == Tuple3IntoStatic(t3, fa, fb, fc)
    ensures Tuple4IntoStatic(Tuple4IntoStatic(t4, fa, fb, fc, fd), fa, fb, fc, fd) == Tuple4IntoStatic(t4, fa, fb, fc, fd)
    ensures Tuple5IntoStatic(Tuple5IntoStatic(t5, fa, fb, fc, fd, fe), fa, fb, fc, fd, fe) == Tuple5IntoStatic(t5, fa, fb, fc, fd, fe)
    ensures Tuple6IntoStatic(Tuple6IntoStatic(t6, fa, fb, fc, fd, fe, ff), fa, fb, fc, fd, fe, ff)
         == Tuple6IntoStatic(t6, fa, fb, fc, fd, fe, ff)
    ensures Tuple7IntoStatic(Tuple7IntoStatic(t7, fa, fb, fc, fd, fe, ff, fg), fa, fb, fc, fd, fe, ff, fg)
         == Tuple7IntoStatic(t7, fa, fb, fc, fd, fe, ff, fg)
    ensures Tuple8IntoStatic(Tuple8IntoStatic(t8, fa, fb, fc, fd, fe, ff, fg, fh), fa, fb, fc, fd, fe, ff, fg, fh)
         == Tuple8IntoStatic(t8, fa, fb, fc, fd, fe, ff, fg, fh)
  {
  }

  /** The tuple impls with `Cow` components: every component becomes owned with the same content. */
  lemma TupleOfCows<A, B, C>(t: (StdCow.Cow<A>, StdCow.Cow<B>, StdCow.Cow<C>))
    ensures var r := Tuple3IntoStatic(t, CowIntoStatic, CowIntoStatic, CowIntoStatic);
      r.0.Owned? && r.1.Owned? && r.2.Owned? && r.0.val == t.0.val && r.1.val == t.1.val && r.2.val == t.2.val
  {
  }

  /**
   * A `HashMap` with `CowStr` keys holds keys of distinct content; the
   * converted keys are owned and still distinct, so `collect` into a new
   * `HashMap` keeps every entry.
   */
  lemma HashMapKeysStayDistinct<V>(es: seq<(CowStr.CowStr, V)>, fv: V -> V)
    requires forall i, j :: 0 <= i < j < |es| ==> !CowStr.Eq(es[i].0, es[j].0)
    ensures var r := HashMapIntoStatic(es, CowStr.IntoStatic, fv);
      (forall i, j :: 0 <= i < j < |r| ==> r[i].0 != r[j].0 && !CowStr.Eq(r[i].0, r[j].0)) &&
      (forall i :: 0 <= i < |r| ==> r[i].0.Owned? && CowStr.Eq(r[i].0, es[i].0))
  {
    var r := HashMapIntoStatic(es, CowStr.IntoStatic, fv);
    forall i, j | 0 <= i < j < |r|
      ensures r[i].0 != r[j].0 && !CowStr.Eq(r[i].0, r[j].0)
    {
      CowStr.EqIsContentEquality(r[i].0, es[i].0, es[j].0);
      CowStr.EqIsContentEquality(r[j].0, es[j].0, es[i].0);
      CowStr.EqIsContentEquality(r[i].0, r[j].0, es[j].0);
      CowStr.EqIsContentEquality(es[i].0, r[i].0, r[j].0);
    }
  }
}
