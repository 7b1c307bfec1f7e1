/**
 * `Array`, the growable list of values, with the operations that change it
 * in place (`with` pushes, `must_pop` pops) and the lookups that read it.
 * The deserializer a `must_*` call is instantiated with is the function
 * `conv`, standing for `T::from_value_ref` (or `T::from_value`).
 */
module ValueArray {
  import opened Wrappers
  import V = Value
  import D = Deserialize

  class ArrayBuf {
    var items: seq<V.Value>

    /** `Array::new`. */
    constructor New()
      ensures items == []
    {
      items := [];
    }

    /** `Vec::get`. */
    function Get(index: nat): (r: Option<V.Value>)
      reads this
      ensures r.Some? <==> index < |items|
      ensures r.Some? ==> r.value == items[index]
    {
      if index < |items| then Some(items[index]) else None
    }

    /** The array as the value it wraps. */
    function Snapshot(): (a: V.Array)
      reads this
      ensures a.items == items
    {
      V.ArrayOf(items)
    }

    /**
     * `must_get`: deserialize the element at `index`, reporting a
     * `MissingValue` from the deserializer as an out-of-bounds index
     * together with the current length. The array is only read.
     */
    function MustGet<T>(index: nat, conv: Option<V.Value> -> Result<T, V.MerdeError>): (r: Result<T, V.MerdeError>)
      reads this
      ensures r.Ok? <==> conv(Get(index)).Ok?
      ensures conv(Get(index)) == Err(V.MissingValue) ==> r == Err(V.IndexOutOfBounds(index, |items|))
      ensures conv(Get(index)) != Err(V.MissingValue) ==> r == conv(Get(index))
    {
      V.RewriteMissing(conv(Get(index)), V.IndexOutOfBounds(index, |items|))
    }

    /** `with`: the value goes at the end, the earlier elements stay. */
    method With(v: V.Value)
      modifies this
      ensures items == old(items) + [v]
    {
      items := items + [v];
    }

    /**
     * `must_pop`: the last element is removed before it is deserialized, so
     * it is gone even when deserializing it fails; a `MissingValue` is
     * reported as an out-of-bounds index equal to the length after the pop.
     */
    method MustPop<T>(conv: Option<V.Value> -> Result<T, V.MerdeError>) returns (r: Result<T, V.MerdeError>)
      modifies this
      ensures old(items) == [] ==> items == [] && r == V.RewriteMissing(conv(None), V.IndexOutOfBounds(0, 0))
      ensures old(items) != [] ==>
        items == old(items)[..|old(items)| - 1] &&
        r == V.RewriteMissing(conv(Some(old(items)[|old(items)| - 1])), V.IndexOutOfBounds(|items|, |items|))
    {
      var popped: Option<V.Value> := None;
      if items != [] {
        popped := Some(items[|items| - 1]);
        items := items[..|items| - 1];
      }
      r := V.RewriteMissing(conv(popped), V.IndexOutOfBounds(|items|, |items|));
    }
  }

  /** `into_inner` and `into_iter`: the elements, in order; `From<Vec>` is its inverse. */
  function IntoInner(a: V.Array): (r: seq<V.Value>)
    ensures V.ArrayOf(r) == a
  {
    a.items
  }

  /**
   * With merde_core's deserializers, `must_get` past the end is an
   * out-of-bounds error for a required target and `None` for an `Option`;
   * inside the bounds it never reports an index error of its own.
   */
  lemma MustGetBounds(b: ArrayBuf, index: nat, t: D.Target)
    ensures index >= |b.items| && !D.AcceptsAbsent(t) ==>
      b.MustGet(index, v => D.FromValue(t, v)) == Err(V.IndexOutOfBounds(index, |b.items|))
    ensures index >= |b.items| && D.AcceptsAbsent(t) ==> b.MustGet(index, v => D.FromValue(t, v)).Ok?
    ensures index < |b.items| ==> b.MustGet(index, v => D.FromValue(t, v)) == D.FromValue(t, Some(b.items[index]))
  {
    D.MissingValueOnlyWhenAbsent(t, b.Get(index));
  }

  /** `must_pop` on an empty array reports index 0 of length 0 for a required target. */
  lemma MustPopEmpty(t: D.Target)
    ensures !D.AcceptsAbsent(t) ==> V.RewriteMissing(D.FromValue(t, None), V.IndexOutOfBounds(0, 0)) == Err(V.IndexOutOfBounds(0, 0))
    ensures D.AcceptsAbsent(t) ==> V.RewriteMissing(D.FromValue(t, None), V.IndexOutOfBounds(0, 0)).Ok?
  {
    D.MissingValueOnlyWhenAbsent(t, None);
  }

  /** `into_static` keeps the length and converts each element, which stays equal to the original. */
  lemma IntoStaticElementwise(a: V.Array, w: V.Array)
    ensures |V.ArrayIntoStatic(a).items| == |a.items|
    ensures V.ArrayEq(V.ArrayIntoStatic(a), w) <==> V.ArrayEq(a, w)
  {
    V.IntoStaticPreservesEq(V.Array(a), V.Array(w));
  }
}
