/**
 * `LazyIndexMap` of merde: an insertion-ordered vector of key/value pairs
 * that answers small lookups by a circular linear scan and builds a
 * key -> index map only once it is asked for (by `len`, `iter_unique`, or
 * a lookup in a vector of more than 16 entries).
 *
 * The `OnceLock` holding the lookup map is the field `cache` (`None` until
 * it is built); the `AtomicUsize` holding the last found index is the field
 * `lastFind`. Both change behind a shared reference in the source, which
 * is why the methods that only read the vector still name `this` in their
 * `modifies` clause.
 */
module LazyIndex {
  import opened Wrappers

  /** Vectors longer than this are looked up through the map. */
  const THRESHOLD: nat := 16

  datatype Slot<K, V> = Slot(key: K, val: V)

  /** The keys present in `vec`, duplicates merged. */
  ghost function KeySet<K, V>(vec: seq<Slot<K, V>>): set<K>
  {
    set j | 0 <= j < |vec| :: vec[j].key
  }

  /**
   * The lookup map `get_map` builds: every key to an index, later indices
   * overwriting earlier ones.
   */
  function BuildMap<K, V>(vec: seq<Slot<K, V>>): (m: map<K, nat>)
    ensures forall k :: k in m ==> m[k] < |vec| && vec[m[k]].key == k
  {
    if vec == [] then map[]
    else
      var n := |vec| - 1;
      BuildMap(vec[..n])[vec[n].key := n]
  }

  /** The map holds exactly the keys of the vector, each at its last occurrence. */
  lemma {:induction false} BuildMapLast<K, V>(vec: seq<Slot<K, V>>)
    ensures BuildMap(vec).Keys == KeySet(vec)
    ensures forall k, j :: k in BuildMap(vec) && BuildMap(vec)[k] < j < |vec| ==> vec[j].key != k
  {
    if vec != [] {
      var n := |vec| - 1;
      BuildMapLast(vec[..n]);
      KeySetLast(vec);
      forall k, j | k in BuildMap(vec) && BuildMap(vec)[k] < j < |vec| ensures vec[j].key != k {
        if j < n {
          assert vec[..n][j] == vec[j];
        }
      }
    }
  }

  lemma KeySetLast<K, V>(vec: seq<Slot<K, V>>)
    requires vec != []
    ensures KeySet(vec) == KeySet(vec[..|vec| - 1]) + {vec[|vec| - 1].key}
  {
    var n := |vec| - 1;
    forall k | k in KeySet(vec) ensures k in KeySet(vec[..n]) + {vec[n].key} {
      var j :| 0 <= j < |vec| && vec[j].key == k;
      if j < n { assert vec[..n][j] == vec[j]; }
    }
    forall k | k in KeySet(vec[..n]) ensures k in KeySet(vec) {
      var j :| 0 <= j < n && vec[..n][j].key == k;
      assert vec[j].key == k;
    }
  }

  /** `len` of a map whose lookup map is current: the number of distinct keys. */
  lemma LenCountsKeys<K, V>(vec: seq<Slot<K, V>>)
    ensures |BuildMap(vec)| == |KeySet(vec)|
    ensures |BuildMap(vec)| == 0 <==> vec == []
  {
    BuildMapLast(vec);
    assert |BuildMap(vec)| == |BuildMap(vec).Keys|;
    if vec != [] {
      assert vec[0].key in KeySet(vec);
    }
  }

  /** `insert` re-pointing a built map gives the map of the longer vector. */
  lemma BuildMapPush<K, V>(vec: seq<Slot<K, V>>, s: Slot<K, V>)
    ensures BuildMap(vec + [s]) == BuildMap(vec)[s.key := |vec|]
  {
    assert (vec + [s])[..|vec|] == vec;
  }

  /** The index looked at `u` steps into a circular scan that starts at `first`. */
  function Probe(n: nat, first: nat, u: nat): (j: nat)
    requires n > 0
    ensures j < n
  {
    (first + u) % n
  }

  /**
   * The `get` scan: the index of the first entry with `key` at offsets
   * `t`, `t + 1`, ... of the circular order that starts at `first`.
   */
  function FirstFrom<K(==), V>(vec: seq<Slot<K, V>>, key: K, first: nat, t: nat): (r: Option<nat>)
    requires t <= |vec|
    ensures r.Some? ==> r.value < |vec| && vec[r.value].key == key
    decreases |vec| - t
  {
    if t == |vec| then None
    else
      var j := Probe(|vec|, first, t);
      if vec[j].key == key then Some(j) else FirstFrom(vec, key, first, t + 1)
  }

  /**
   * The `remove` scan: the index of the last entry with `key` among the
   * first `t` offsets of the circular order that starts at `first`.
   */
  function LastBefore<K(==), V>(vec: seq<Slot<K, V>>, key: K, first: nat, t: nat): (r: Option<nat>)
    requires t <= |vec|
    ensures r.Some? ==> r.value < |vec| && vec[r.value].key == key
  {
    if t == 0 then None
    else
      var j := Probe(|vec|, first, t - 1);
      if vec[j].key == key then Some(j) else LastBefore(vec, key, first, t - 1)
  }

  lemma MulBounds(n: int, d: int)
    requires n > 0
    ensures d >= 1 ==> n * d >= n
    ensures d <= -1 ==> n * d <= -n
  {
    if d >= 1 {
      assert n * d == n * (d - 1) + n;
      assert n * (d - 1) >= 0;
    } else if d <= -1 {
      assert n * d == n * (d + 1) - n;
      assert n * (-(d + 1)) >= 0;
    }
  }

  lemma ModUnique(x: int, n: int, q: int, r: int)
    requires n > 0 && 0 <= r < n && x == q * n + r
    ensures x % n == r
  {
    var q2, r2 := x / n, x % n;
    assert x == n * q2 + r2;
    assert n * (q - q2) == r2 - r;
    MulBounds(n, q - q2);
  }

  /** Every index of the vector is reached within one turn of the circular scan. */
  lemma Reached(n: nat, first: nat, j: nat) returns (u: nat)
    requires j < n
    ensures u < n && Probe(n, first, u) == j
  {
    var q, r := first / n, first % n;
    assert first == q * n + r;
    if j >= r {
      u := j - r;
      ModUnique(first + u, n, q, j);
    } else {
      u := j + n - r;
      assert first + u == (q + 1) * n + j;
      ModUnique(first + u, n, q + 1, j);
    }
  }

  /** What the scan from offset `t` finds depends only on the offsets still ahead. */
  lemma {:induction false} FirstFromNone<K, V>(vec: seq<Slot<K, V>>, key: K, first: nat, t: nat)
    requires t <= |vec|
    ensures FirstFrom(vec, key, first, t).None? <==>
      forall u :: t <= u < |vec| ==> vec[Probe(|vec|, first, u)].key != key
    decreases |vec| - t
  {
    if t < |vec| {
      FirstFromNone(vec, key, first, t + 1);
    }
  }

  lemma {:induction false} LastBeforeNone<K, V>(vec: seq<Slot<K, V>>, key: K, first: nat, t: nat)
    requires t <= |vec|
    ensures LastBefore(vec, key, first, t).None? <==>
      forall u :: 0 <= u < t ==> vec[Probe(|vec|, first, u)].key != key
  {
    if t > 0 {
      LastBeforeNone(vec, key, first, t - 1);
    }
  }

  /** No offset of the circular order sees `key` exactly when the vector lacks it. */
  lemma AllOffsets<K, V>(vec: seq<Slot<K, V>>, key: K, first: nat)
    ensures (forall u :: 0 <= u < |vec| ==> vec[Probe(|vec|, first, u)].key != key) <==> key !in KeySet(vec)
  {
    if key in KeySet(vec) {
      var j :| 0 <= j < |vec| && vec[j].key == key;
      var u := Reached(|vec|, first, j);
      assert vec[Probe(|vec|, first, u)].key == key;
    }
  }

  /** The `get` scan over the whole circle finds the key iff it is present. */
  lemma FirstFromFinds<K, V>(vec: seq<Slot<K, V>>, key: K, first: nat)
    ensures FirstFrom(vec, key, first, 0).None? <==> key !in KeySet(vec)
  {
    FirstFromNone(vec, key, first, 0);
    AllOffsets(vec, key, first);
  }

  /** The `remove` scan over the whole circle finds the key iff it is present. */
  lemma LastBeforeFinds<K, V>(vec: seq<Slot<K, V>>, key: K, first: nat)
    ensures LastBefore(vec, key, first, |vec|).None? <==> key !in KeySet(vec)
  {
    LastBeforeNone(vec, key, first, |vec|);
    AllOffsets(vec, key, first);
  }

  /**
   * The `get` scan stops at the first match: it was found at some offset,
   * and no earlier offset from `t` on holds the key.
   */
  lemma {:induction false} FirstFromIsFirst<K, V>(vec: seq<Slot<K, V>>, key: K, first: nat, t: nat) returns (u: nat)
    requires t <= |vec|
    requires FirstFrom(vec, key, first, t).Some?
    ensures t <= u < |vec| && FirstFrom(vec, key, first, t).value == Probe(|vec|, first, u)
    ensures forall w :: t <= w < u ==> vec[Probe(|vec|, first, w)].key != key
    decreases |vec| - t
  {
    if vec[Probe(|vec|, first, t)].key == key {
      u := t;
    } else {
      u := FirstFromIsFirst(vec, key, first, t + 1);
    }
  }

  /**
   * The `remove` scan keeps the last match: it was found at some offset,
   * and no later offset of the circle holds the key.
   */
  lemma {:induction false} LastBeforeIsLast<K, V>(vec: seq<Slot<K, V>>, key: K, first: nat, t: nat) returns (u: nat)
    requires t <= |vec|
    requires LastBefore(vec, key, first, t).Some?
    ensures u < t && LastBefore(vec, key, first, t).value == Probe(|vec|, first, u)
    ensures forall w :: u < w < t ==> vec[Probe(|vec|, first, w)].key != key
  {
    if vec[Probe(|vec|, first, t - 1)].key == key {
      u := t - 1;
    } else {
      u := LastBeforeIsLast(vec, key, first, t - 1);
    }
  }

  /** `swap(k, last)` followed by `pop`. */
  function SwapRemove<K, V>(vec: seq<Slot<K, V>>, k: nat): (r: seq<Slot<K, V>>)
    requires k < |vec|
  {
    vec[k := vec[|vec| - 1]][..|vec| - 1]
  }

  /** Swap-removal takes out exactly the chosen entry: one fewer, the rest kept. */
  lemma SwapRemoveTakesOne<K, V>(vec: seq<Slot<K, V>>, k: nat)
    requires k < |vec|
    ensures |SwapRemove(vec, k)| == |vec| - 1
    ensures multiset(SwapRemove(vec, k)) + multiset{vec[k]} == multiset(vec)
    ensures forall i :: 0 <= i < |vec| - 1 && i != k ==> SwapRemove(vec, k)[i] == vec[i]
  {
    var n := |vec| - 1;
    if k == n {
      assert vec == vec[..n] + [vec[n]];
    } else {
      SwapRemoveMiddle(vec, k);
    }
  }

  lemma SwapRemoveMiddle<K, V>(vec: seq<Slot<K, V>>, k: nat)
    requires k < |vec| - 1
    ensures multiset(SwapRemove(vec, k)) + multiset{vec[k]} == multiset(vec)
  {
    var n := |vec| - 1;
    var a, b := vec[..k], vec[k + 1..n];
    assert vec == a + [vec[k]] + b + [vec[n]];
    assert SwapRemove(vec, k) == a + [vec[n]] + b;
  }

  /**
   * The entries `iter_unique` yields from the first `t` of the vector: those
   * whose index is the one `m` holds for their key.
   */
  function Kept<K, V>(vec: seq<Slot<K, V>>, m: map<K, nat>, t: nat): seq<Slot<K, V>>
    requires t <= |vec|
  {
    if t == 0 then []
    else
      var s := vec[t - 1];
      Kept(vec, m, t - 1) + (if s.key in m && m[s.key] == t - 1 then [s] else [])
  }

  /** Every key of `m` sits, in `vec`, at the index `m` gives it. */
  ghost predicate Points<K, V>(vec: seq<Slot<K, V>>, m: map<K, nat>)
  {
    forall k :: k in m ==> m[k] < |vec| && vec[m[k]].key == k
  }

  /** Each yielded entry sits at its key's index, and those indices increase. */
  ghost predicate Indexed<K, V>(vec: seq<Slot<K, V>>, m: map<K, nat>, u: seq<Slot<K, V>>, t: nat)
  {
    (forall i :: 0 <= i < |u| ==> u[i].key in m && m[u[i].key] < t && m[u[i].key] < |vec| && vec[m[u[i].key]] == u[i]) &&
    (forall i, j :: 0 <= i < j < |u| ==> u[i].key in m && u[j].key in m && m[u[i].key] < m[u[j].key])
  }

  lemma {:induction false} KeptIndexed<K, V>(vec: seq<Slot<K, V>>, m: map<K, nat>, t: nat)
    requires t <= |vec| && Points(vec, m)
    ensures Indexed(vec, m, Kept(vec, m, t), t)
  {
    if t > 0 {
      KeptIndexed(vec, m, t - 1);
      var p := Kept(vec, m, t - 1);
      var s := vec[t - 1];
      if s.key in m && m[s.key] == t - 1 {
        var u := p + [s];
        assert Kept(vec, m, t) == u;
        forall i | 0 <= i < |u|
          ensures u[i].key in m && m[u[i].key] < t && vec[m[u[i].key]] == u[i]
        {
          if i < |p| { assert u[i] == p[i]; }
        }
        forall i, j | 0 <= i < j < |u| ensures m[u[i].key] < m[u[j].key] {
          assert u[i] == p[i];
          if j < |p| { assert u[j] == p[j]; }
        }
      } else {
        assert Kept(vec, m, t) == p;
      }
    }
  }

  ghost predicate Covers<K, V>(m: map<K, nat>, u: seq<Slot<K, V>>, t: nat)
  {
    forall k :: k in m && m[k] < t ==> exists i :: 0 <= i < |u| && u[i].key == k
  }

  /** Every key whose index lies below `t` is yielded. */
  lemma {:induction false} KeptComplete<K, V>(vec: seq<Slot<K, V>>, m: map<K, nat>, t: nat)
    requires t <= |vec| && Points(vec, m)
    ensures Covers(m, Kept(vec, m, t), t)
  {
    if t > 0 {
      KeptComplete(vec, m, t - 1);
      var p := Kept(vec, m, t - 1);
      var u := Kept(vec, m, t);
      var s := vec[t - 1];
      assert u == p + (if s.key in m && m[s.key] == t - 1 then [s] else []);
      forall k | k in m && m[k] < t ensures exists i :: 0 <= i < |u| && u[i].key == k {
        if m[k] < t - 1 {
          var i :| 0 <= i < |p| && p[i].key == k;
          assert u[i] == p[i];
        } else {
          assert s.key == k;
          assert u[|p|].key == k;
        }
      }
    }
  }

  /** What `iter_unique` yields when the lookup map is current. */
  function Unique<K(==), V>(vec: seq<Slot<K, V>>): seq<Slot<K, V>>
  {
    Kept(vec, BuildMap(vec), |vec|)
  }

  /** `iter_unique` yields no key twice. */
  lemma UniqueDistinct<K, V>(vec: seq<Slot<K, V>>)
    ensures forall i, j :: 0 <= i < j < |Unique(vec)| ==> Unique(vec)[i].key != Unique(vec)[j].key
  {
    KeptIndexed(vec, BuildMap(vec), |vec|);
  }

  /** `iter_unique` yields each entry at the last occurrence of its key. */
  lemma UniqueLast<K, V>(vec: seq<Slot<K, V>>)
    ensures forall i :: 0 <= i < |Unique(vec)| ==>
      exists j :: (0 <= j < |vec| && vec[j] == Unique(vec)[i] &&
                   forall j' :: j < j' < |vec| ==> vec[j'].key != Unique(vec)[i].key)
  {
    var m := BuildMap(vec);
    var u := Unique(vec);
    KeptIndexed(vec, m, |vec|);
    BuildMapLast(vec);
    forall i | 0 <= i < |u|
      ensures exists j :: 0 <= j < |vec| && vec[j] == u[i] && forall j' :: j < j' < |vec| ==> vec[j'].key != u[i].key
    {
      assert u[i].key in m;
      var j := m[u[i].key];
      assert vec[j] == u[i];
    }
  }

  /** `iter_unique` yields every key of the vector, so as many entries as `len` counts. */
  lemma UniqueKeys<K, V>(vec: seq<Slot<K, V>>)
    ensures (set i | 0 <= i < |Unique(vec)| :: Unique(vec)[i].key) == KeySet(vec)
    ensures |Unique(vec)| == |KeySet(vec)| == |BuildMap(vec)|
  {
    var m := BuildMap(vec);
    var u := Unique(vec);
    KeptIndexed(vec, m, |vec|);
    KeptComplete(vec, m, |vec|);
    BuildMapLast(vec);
    var keys := set i | 0 <= i < |u| :: u[i].key;
    forall k | k in m ensures k in keys {
      var i :| 0 <= i < |u| && u[i].key == k;
    }
    assert keys == m.Keys;
    UniqueDistinct(vec);
    DistinctCount(u);
    LenCountsKeys(vec);
  }

  /** A sequence whose keys are pairwise distinct has as many keys as entries. */
  lemma {:induction false} DistinctCount<K, V>(u: seq<Slot<K, V>>)
    requires forall i, j :: 0 <= i < j < |u| ==> u[i].key != u[j].key
    ensures |set i | 0 <= i < |u| :: u[i].key| == |u|
  {
    if u != [] {
      var n := |u| - 1;
      DistinctCount(u[..n]);
      var front := set i | 0 <= i < n :: u[..n][i].key;
      var all := set i | 0 <= i < |u| :: u[i].key;
      assert all == front + {u[n].key} by {
        forall k | k in all ensures k in front + {u[n].key} {
          var i :| 0 <= i < |u| && u[i].key == k;
          if i < n { assert u[..n][i] == u[i]; }
        }
      }
    }
  }

  /** The keys of a vector, in order, duplicates included (`keys`). */
  function KeysOf<K, V>(vec: seq<Slot<K, V>>): (r: seq<K>)
    ensures |r| == |vec| && forall i :: 0 <= i < |vec| ==> r[i] == vec[i].key
  {
    if vec == [] then [] else KeysOf(vec[..|vec| - 1]) + [vec[|vec| - 1].key]
  }

  class LazyIndexMap<K(==), V(==)> {
    var vec: seq<Slot<K, V>>
    var cache: Option<map<K, nat>>
    var lastFind: nat

    /** A built lookup map agrees with the vector. */
    ghost predicate Valid()
      reads this
    {
      cache.Some? ==> cache.value == BuildMap(vec)
    }

    /**
     * What every operation keeps even when `remove` leaves the map stale:
     * each index the map holds is inside the vector or below 16. Beyond 16
     * entries, then, every index the map holds can be read from the vector.
     */
    ghost predicate Bounded()
      reads this
    {
      cache.Some? ==> forall k :: k in cache.value ==> cache.value[k] < |vec| || cache.value[k] < THRESHOLD
    }

    /** `new`. */
    constructor()
      ensures vec == [] && cache == None && lastFind == 0
      ensures Valid() && Bounded()
    {
      vec := [];
      cache := None;
      lastFind := 0;
    }

    /** `insert`: append, and re-point the key in the map if the map is built. */
    method Insert(key: K, value: V)
      modifies this
      ensures vec == old(vec) + [Slot(key, value)] && lastFind == old(lastFind)
      ensures cache == if old(cache).Some? then Some(old(cache).value[key := |old(vec)|]) else None
      ensures old(Valid()) ==> Valid()
      ensures old(Bounded()) ==> Bounded()
    {
      if cache.Some? {
        cache := Some(cache.value[key := |vec|]);
      }
      BuildMapPush(vec, Slot(key, value));
      vec := vec + [Slot(key, value)];
    }

    /** `get_map`: the map, built from the vector on first use. */
    method GetMap() returns (m: map<K, nat>)
      modifies this
      ensures vec == old(vec) && lastFind == old(lastFind) && cache == Some(m)
      ensures m == if old(cache).Some? then old(cache).value else BuildMap(vec)
      ensures old(Valid()) ==> Valid()
      ensures old(Bounded()) ==> Bounded()
    {
      if cache.None? {
        cache := Some(BuildMap(vec));
      }
      m := cache.value;
    }

    /** `len`: the size of the map; over a current map, the number of distinct keys. */
    method Len() returns (n: nat)
      modifies this
      ensures vec == old(vec) && lastFind == old(lastFind) && cache.Some?
      ensures cache == if old(cache).Some? then old(cache) else Some(BuildMap(vec))
      ensures n == |cache.value|
      ensures old(Valid()) ==> Valid() && n == |KeySet(vec)|
      ensures old(Bounded()) ==> Bounded()
    {
      var m := GetMap();
      n := |m|;
      LenCountsKeys(vec);
    }

    /** `is_empty`: looks at the vector, not at the map. */
    function IsEmpty(): (r: bool)
      reads this
      ensures r <==> KeySet(vec) == {}
    {
      if |vec| == 0 then true
      else
        assert vec[0].key in KeySet(vec);
        false
    }

    /** `keys`: every key in insertion order, duplicates included. */
    function Keys(): (r: seq<K>)
      reads this
      ensures |r| == |vec| && forall i :: 0 <= i < |vec| ==> r[i] == vec[i].key
    {
      KeysOf(vec)
    }

    /** `PartialEq`: the vectors are compared; the map and `lastFind` play no part. */
    function Equals(other: LazyIndexMap<K, V>): (r: bool)
      reads this, other
      ensures r <==> |vec| == |other.vec| && forall i :: 0 <= i < |vec| ==> vec[i] == other.vec[i]
    {
      vec == other.vec
    }

    /**
     * `get`. Up to 16 entries: the circular scan from `lastFind + 1` returns
     * the first match and remembers its index, whatever state the lookup
     * map is in. Beyond: the entry at the map's index for the key. Over a
     * current map that is the last entry with the key; over a map `remove`
     * left stale it is whatever entry now sits at that index.
     */
    method Get(key: K) returns (r: Option<V>)
      requires |vec| <= THRESHOLD || Bounded()
      modifies this
      ensures vec == old(vec) && (old(Valid()) ==> Valid()) && (old(Bounded()) ==> Bounded())
      ensures |vec| <= THRESHOLD || old(Valid()) ==> (r.None? <==> key !in KeySet(vec))
      ensures |vec| <= THRESHOLD || old(Valid()) ==> (r.Some? ==> Slot(key, r.value) in vec)
      ensures |vec| > THRESHOLD ==>
                lastFind == old(lastFind) && cache == if old(cache).Some? then old(cache) else Some(BuildMap(vec))
      ensures |vec| > THRESHOLD ==>
                cache.Some? && Bounded() &&
                r == if key in cache.value then Some(vec[cache.value[key]].val) else None
      ensures |vec| > THRESHOLD && old(Valid()) && key in BuildMap(vec) ==> r == Some(vec[BuildMap(vec)[key]].val)
      ensures |vec| <= THRESHOLD ==> cache == old(cache)
      ensures |vec| <= THRESHOLD && FirstFrom(vec, key, old(lastFind) + 1, 0).Some? ==>
                var j := FirstFrom(vec, key, old(lastFind) + 1, 0).value;
                r == Some(vec[j].val) && lastFind == j
      ensures |vec| <= THRESHOLD && FirstFrom(vec, key, old(lastFind) + 1, 0).None? ==>
                r == None && lastFind == old(lastFind)
    {
      var n := |vec|;
      BuildMapLast(vec);
      if n > THRESHOLD {
        var m := GetMap();
        if key in m {
          r := Some(vec[m[key]].val);
          if old(Valid()) {
            assert vec[m[key]] == Slot(key, r.value);
          }
        } else {
          r := None;
        }
        return;
      }
      var first := lastFind + 1;
      FirstFromFinds(vec, key, first);
      var i := first;
      while i < first + n
        invariant first <= i <= first + n
        invariant FirstFrom(vec, key, first, i - first) == FirstFrom(vec, key, first, 0)
        invariant vec == old(vec) && cache == old(cache) && lastFind == old(lastFind)
      {
        var index := i % n;
        assert index == Probe(n, first, i - first);
        if vec[index].key == key {
          lastFind := index;
          r := Some(vec[index].val);
          assert vec[index] == Slot(key, r.value);
          return;
        }
        i := i + 1;
      }
      r := None;
    }

    /**
     * `iter_unique`, its iterator driven to the end: the entries, in vector
     * order, whose index the map holds for their key. Over a current map
     * that is one entry per key, the last; over a stale one it is whatever
     * the stale indices select.
     */
    method IterUnique() returns (items: seq<Slot<K, V>>)
      modifies this
      ensures vec == old(vec) && lastFind == old(lastFind) && cache.Some?
      ensures cache == if old(cache).Some? then old(cache) else Some(BuildMap(vec))
      ensures items == Kept(vec, cache.value, |vec|)
      ensures old(Valid()) ==> Valid() && items == Unique(vec)
      ensures old(Bounded()) ==> Bounded()
    {
      var m := GetMap();
      items := [];
      var index := 0;
      while index < |vec|
        invariant index <= |vec|
        invariant items == Kept(vec, m, index)
      {
        var s := vec[index];
        if s.key in m && m[s.key] == index {
          items := items + [s];
        }
        index := index + 1;
      }
    }

    /**
     * `remove` with at most 16 entries, as written: the circular scan runs
     * to the end, so the LAST match in scan order is removed, by swapping
     * it with the final entry and popping. The lookup map is left as it was.
     */
    method Remove(key: K) returns (r: Option<V>)
      requires |vec| <= THRESHOLD
      modifies this
      ensures cache == old(cache) && (old(Bounded()) ==> Bounded())
      ensures var k := LastBefore(old(vec), key, old(lastFind) + 1, |old(vec)|);
        (k.None? ==> r == None && vec == old(vec) && lastFind == old(lastFind)) &&
        (k.Some? ==>
           r == Some(old(vec)[k.value].val) && vec == SwapRemove(old(vec), k.value) && lastFind == k.value)
      ensures r.None? <==> key !in KeySet(old(vec))
    {
      LastBeforeFinds(vec, key, lastFind + 1);
      r := None;
      var n := |vec|;
      var first := lastFind + 1;
      var kIndex: Option<nat> := None;
      var i := first;
      while i < first + n
        invariant vec == old(vec) && cache == old(cache)
        invariant first <= i <= first + n
        invariant kIndex == LastBefore(vec, key, first, i - first)
        invariant lastFind == if kIndex.Some? then kIndex.value else old(lastFind)
      {
        var index := i % n;
        assert index == Probe(n, first, i - first);
        if vec[index].key == key {
          lastFind := index;
          kIndex := Some(index);
        }
        i := i + 1;
      }
      if kIndex.None? {
        return;
      }
      var k := kIndex.value;
      var last := n - 1;
      if n == 1 {
        r := Some(vec[last].val);
        vec := vec[..last];
      } else {
        vec := vec[k := vec[last]][last := vec[k]];
        r := Some(vec[last].val);
        vec := vec[..last];
      }
    }

    /**
     * `remove` as evidently intended: the same removal, after which the
     * lookup map is dropped so that it is rebuilt from the new vector.
     */
    method RemoveRefreshed(key: K) returns (r: Option<V>)
      requires |vec| <= THRESHOLD
      modifies this
      ensures cache == None && Valid() && Bounded()
      ensures var k := LastBefore(old(vec), key, old(lastFind) + 1, |old(vec)|);
        (k.None? ==> r == None && vec == old(vec) && lastFind == old(lastFind)) &&
        (k.Some? ==>
           r == Some(old(vec)[k.value].val) && vec == SwapRemove(old(vec), k.value) && lastFind == k.value)
      ensures r.None? <==> key !in KeySet(old(vec))
    {
      r := Remove(key);
      cache := None;
    }
  }

  /**
   * The stale map left by `remove` as written: after `len` has built the
   * map, removing one of two keys leaves `len` at 2 though one key remains,
   * and `iter_unique` yields nothing, since the map still puts the remaining
   * key at its old index; `get`, which scans the vector, still finds it.
   */
  method RemoveLeavesLenStale() returns (before: nat, after: nat, unique: seq<Slot<string, int>>, found: Option<int>, m: LazyIndexMap<string, int>)
    ensures before == 2 && after == 2 && m.vec == [Slot("b", 2)]
    ensures unique == [] && found == Some(2)
  {
    m := new LazyIndexMap<string, int>();
    m.Insert("a", 1);
    m.Insert("b", 2);
    before := m.Len();
    assert BuildMap(m.vec) == map["a" := 0, "b" := 1];
    var removed := m.Remove("a");
    assert m.vec == [Slot("b", 2)];
    after := m.Len();
    assert m.cache.value == map["a" := 0, "b" := 1];
    unique := m.IterUnique();
    assert Kept(m.vec, m.cache.value, 1) == [];
    found := m.Get("b");
    assert FirstFrom(m.vec, "b", m.lastFind + 1, 0).Some?;
  }

  /**
   * Insert keys 0 and 1, build the map with `len`, remove key 0: one entry
   * is left, and the map still holds both keys at their old indices.
   */
  method RemoveAfterLen() returns (m: LazyIndexMap<int, int>)
    ensures fresh(m) && m.vec == [Slot(1, 1)] && m.cache == Some(map[0 := 0, 1 := 1]) && m.Bounded()
  {
    m := new LazyIndexMap<int, int>();
    m.Insert(0, 0);
    m.Insert(1, 1);
    var before := m.Len();
    assert BuildMap(m.vec) == map[0 := 0, 1 := 1];
    var removed := m.Remove(0);
  }

  /**
   * The stale map beyond 16 entries: after `len` has built the map, key 0
   * is removed and 16 new keys are inserted. `get(1)` then reads index 1,
   * where key 101 now sits, and `get(0)` reads index 0, finding key 1's
   * value for a key no longer present.
   */
  method StaleGetReadsOtherKey() returns (other: Option<int>, revived: Option<int>, m: LazyIndexMap<int, int>)
    ensures |m.vec| == 17 && Slot(1, 1) in m.vec && 0 !in KeySet(m.vec)
    ensures other == Some(101) && revived == Some(1)
  {
    m := RemoveAfterLen();
    var i := 1;
    while i <= 16
      invariant 1 <= i <= 17 && |m.vec| == i && m.vec[0] == Slot(1, 1)
      invariant i > 1 ==> m.vec[1] == Slot(101, 101)
      invariant forall j :: 0 <= j < |m.vec| ==> m.vec[j].key != 0
      invariant m.cache.Some? && 0 in m.cache.value && 1 in m.cache.value
      invariant m.cache.value[0] == 0 && m.cache.value[1] == 1
      invariant m.Bounded()
    {
      m.Insert(100 + i, 100 + i);
      i := i + 1;
    }
    other := m.Get(1);
    revived := m.Get(0);
  }

  /** With the corrected `remove`, the same sequence of calls counts one key. */
  method RefreshedLenCounts() returns (before: nat, after: nat)
    ensures before == 2 && after == 1
  {
    var m := new LazyIndexMap<string, int>();
    m.Insert("a", 1);
    m.Insert("b", 2);
    before := m.Len();
    assert KeySet(m.vec) == {"a", "b"};
    var removed := m.RemoveRefreshed("a");
    assert m.vec == [Slot("b", 2)];
    after := m.Len();
    assert KeySet(m.vec) == {"b"};
  }
}
