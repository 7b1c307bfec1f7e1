/**
 * `Map`, the string-keyed object of values, with `with` and `must_remove`
 * changing it in place and `must_get` reading it. As in `ValueArray`, the
 * deserializer behind a `must_*` call is the function `conv`.
 */
module ValueMap {
  import opened Wrappers
  import CowStr
  import V = Value
  import D = Deserialize

  class MapBuf {
    var m: V.Map

    /** Keys are distinct by text, as in a `HashMap<CowStr, Value>`. */
    ghost predicate Valid()
      reads this
    {
      V.DistinctKeys(m.entries)
    }

    /** `Map::new`. */
    constructor New()
      ensures Valid() && m.entries == []
    {
      m := V.MapOf([]);
    }

    /** `with`: `key` now maps to `value`, replacing any earlier value; other keys are unchanged. */
    method With(key: CowStr.CowStr, value: V.Value)
      requires Valid()
      modifies this
      ensures Valid()
      ensures m == V.Insert(old(m), key, value)
    {
      m := V.Insert(m, key, value);
    }

    /**
     * `must_get`: deserialize the value under `key`, reporting a
     * `MissingValue` from the deserializer as the missing property `key`.
     * The map is only read.
     */
    function MustGet<T>(key: CowStr.CowStr, conv: Option<V.Value> -> Result<T, V.MerdeError>): (r: Result<T, V.MerdeError>)
      reads this
      ensures r.Ok? <==> conv(V.Get(m, CowStr.Deref(key))).Ok?
      ensures conv(V.Get(m, CowStr.Deref(key))) == Err(V.MissingValue) ==> r == Err(V.MissingProperty(key))
      ensures conv(V.Get(m, CowStr.Deref(key))) != Err(V.MissingValue) ==> r == conv(V.Get(m, CowStr.Deref(key)))
    {
      V.RewriteMissing(conv(V.Get(m, CowStr.Deref(key))), V.MissingProperty(key))
    }

    /**
     * `must_remove`: the entry is taken out of the map first, so it is gone
     * whether or not deserializing it succeeds; a `MissingValue` becomes
     * the missing property `key`.
     */
    method MustRemove<T>(key: CowStr.CowStr, conv: Option<V.Value> -> Result<T, V.MerdeError>) returns (r: Result<T, V.MerdeError>)
      requires Valid()
      modifies this
      ensures Valid()
      ensures m == V.Remove(old(m), CowStr.Deref(key))
      ensures V.Get(m, CowStr.Deref(key)) == None
      ensures r == V.RewriteMissing(conv(V.Get(old(m), CowStr.Deref(key))), V.MissingProperty(key))
    {
      var removed := V.Get(m, CowStr.Deref(key));
      m := V.Remove(m, CowStr.Deref(key));
      r := V.RewriteMissing(conv(removed), V.MissingProperty(key));
    }
  }

  /** `into_inner`: the underlying entries, unchanged; `From<HashMap>` is its inverse. */
  function IntoInner(m: V.Map): (r: seq<V.Entry>)
    ensures V.MapOf(r) == m
  {
    m.entries
  }

  /**
   * With merde_core's deserializers, `must_get` on an absent key is the
   * missing property for a required target and succeeds for an `Option`;
   * on a present key it is exactly the deserializer's result.
   */
  lemma MustGetAbsent(b: MapBuf, key: CowStr.CowStr, t: D.Target)
    ensures V.Get(b.m, CowStr.Deref(key)).None? && !D.AcceptsAbsent(t) ==>
      b.MustGet(key, v => D.FromValue(t, v)) == Err(V.MissingProperty(key))
    ensures V.Get(b.m, CowStr.Deref(key)).None? && D.AcceptsAbsent(t) ==> b.MustGet(key, v => D.FromValue(t, v)).Ok?
    ensures V.Get(b.m, CowStr.Deref(key)).Some? ==>
      b.MustGet(key, v => D.FromValue(t, v)) == D.FromValue(t, V.Get(b.m, CowStr.Deref(key)))
  {
    D.MissingValueOnlyWhenAbsent(t, V.Get(b.m, CowStr.Deref(key)));
  }

  /**
   * `HashMap` equality looks only at lookups: two maps with the same
   * length and the same value under every key compare the same against
   * any third map, on either side.
   */
  lemma {:induction false} EqualityByLookup(a: V.Map, b: V.Map, c: V.Map)
    requires V.DistinctKeys(a.entries) && V.DistinctKeys(b.entries)
    requires |a.entries| == |b.entries|
    requires forall t :: V.Get(a, t) == V.Get(b, t)
    ensures V.MapEq(a, c) <==> V.MapEq(b, c)
    ensures V.MapEq(c, a) <==> V.MapEq(c, b)
  {
    OwnLookup(a);
    OwnLookup(b);
    if V.MapEq(a, c) {
      forall j | 0 <= j < |b.entries|
        ensures var other := V.Get(c, CowStr.Deref(b.entries[j].key));
          other.Some? && V.ValueEq(b.entries[j].val, other.value)
      {
        var t := CowStr.Deref(b.entries[j].key);
        var i := V.Find(a.entries, t).value;
        assert V.Get(a, t) == Some(a.entries[i].val);
      }
    }
    if V.MapEq(b, c) {
      forall i | 0 <= i < |a.entries|
        ensures var other := V.Get(c, CowStr.Deref(a.entries[i].key));
          other.Some? && V.ValueEq(a.entries[i].val, other.value)
      {
        var t := CowStr.Deref(a.entries[i].key);
        var j := V.Find(b.entries, t).value;
        assert V.Get(b, t) == Some(b.entries[j].val);
      }
    }
  }

  /** With distinct keys, each entry is what a lookup of its own key finds. */
  lemma OwnLookup(a: V.Map)
    requires V.DistinctKeys(a.entries)
    ensures forall i :: 0 <= i < |a.entries| ==> V.Get(a, CowStr.Deref(a.entries[i].key)) == Some(a.entries[i].val)
  {
    forall i | 0 <= i < |a.entries|
      ensures V.Get(a, CowStr.Deref(a.entries[i].key)) == Some(a.entries[i].val)
    {
      var t := CowStr.Deref(a.entries[i].key);
      assert t in V.KeyTexts(a.entries);
    }
  }

  /**
   * Insertion order does not matter to `Map`'s equality: building a map
   * with two different keys in either order gives maps that compare the
   * same against every map.
   */
  lemma WithCommutes(m: V.Map, k1: CowStr.CowStr, v1: V.Value, k2: CowStr.CowStr, v2: V.Value, c: V.Map)
    requires V.DistinctKeys(m.entries)
    requires CowStr.Deref(k1) != CowStr.Deref(k2)
    ensures var a := V.Insert(V.Insert(m, k1, v1), k2, v2);
      var b := V.Insert(V.Insert(m, k2, v2), k1, v1);
      (V.MapEq(a, c) <==> V.MapEq(b, c)) && (V.MapEq(c, a) <==> V.MapEq(c, b))
  {
    var a := V.Insert(V.Insert(m, k1, v1), k2, v2);
    var b := V.Insert(V.Insert(m, k2, v2), k1, v1);
    EqualityByLookup(a, b, c);
  }

  /** `new` is empty, and equal to exactly the empty maps. */
  lemma NewIsEmpty(c: V.Map)
    ensures forall t :: V.Get(V.MapOf([]), t) == None
    ensures V.MapEq(V.MapOf([]), c) <==> c.entries == []
  {
  }
}
