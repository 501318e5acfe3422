/**
 The variant of the cache in govault/cache.go. Its operations are those of
 govault.go; only calculateEntrySize differs: it adds unsafe.Sizeof of the key and
 of the value, which depends on their static types alone. Every entry of such a
 cache is therefore recorded with the same width, and the byte bound becomes a bound
 on the number of entries.
 */
module FixedSizeCache {
  import opened Wrappers
  import opened Recency
  import GoVault

  /**
   New for govault/cache.go: keyWidth and valueWidth are unsafe.Sizeof of the key
   and value types, and every entry is recorded with their sum. A non-positive maxMB
   yields no cache.
   */
  method New<K(==), V(0)>(maxMB: int, keyWidth: nat, valueWidth: nat)
    returns (r: Option<GoVault.Cache<K, V>>)
    ensures r.None? <==> maxMB <= 0
    ensures r.Some? ==> fresh(r.value) && r.value.Valid()
    ensures r.Some? ==> r.value.maxSize == maxMB * GoVault.MiB
    ensures r.Some? ==> r.value.order == [] && r.value.store == map[] && r.value.currSize == 0
    ensures r.Some? ==> forall k, v :: r.value.entrySize(k, v) == keyWidth + valueWidth
  {
    var capacity := GoVault.CapacityBytes(maxMB);
    if capacity.None? {
      return None;
    }
    var c := new GoVault.Cache(capacity.value, (k: K, v: V) => keyWidth + valueWidth);
    return Some(c);
  }

  /** Every entry of the state is recorded with the width w. */
  ghost predicate Uniform<K, V>(st: State<K, V>, w: nat)
  {
    forall k :: k in st.store ==> st.store[k].size == w
  }

  /** With entries of one width, the total is the number of keys times that width. */
  lemma {:induction false} TotalIsCountTimesWidth<K, V>(s: seq<K>, m: map<K, Entry<V>>, w: nat)
    requires forall k :: k in s ==> k in m && m[k].size == w
    ensures Total(s, m) == |s| * w
  {
    if s != [] {
      TotalIsCountTimesWidth(s[1..], m, w);
    }
  }

  /** The byte bound of a fixed-width cache bounds how many keys it holds. */
  lemma CountBound<K, V>(st: State<K, V>, w: nat, max: int)
    requires Valid(st) && Uniform(st, w) && 0 < w && st.total <= max
    ensures |st.order| <= max / w
  {
    TotalIsCountTimesWidth(st.order, st.store, w);
    QuotientBound(|st.order|, w, max);
  }

  lemma QuotientBound(q: nat, w: nat, max: int)
    requires 0 < w && q * w <= max
    ensures q <= max / w
  {
    var d := max / w;
    assert max < (d + 1) * w;
    FactorCancels(q, d + 1, w);
  }

  /** A positive factor can be cancelled from a strict inequality between products. */
  lemma FactorCancels(a: int, b: int, w: nat)
    requires 0 < w && a * w < b * w
    ensures a < b
  {
    if b <= a {
      MultiplyMonotone(b, a, w);
    }
  }

  lemma MultiplyMonotone(a: int, b: int, w: nat)
    requires a <= b
    ensures a * w <= b * w
  {
  }

  lemma QuotientExact(q: nat, w: nat, max: int)
    requires 0 < w && q * w <= max < (q + 1) * w
    ensures q == max / w
  {
    var d := max / w;
    QuotientBound(q, w, max);
    assert d * w <= max;
    FactorCancels(d, q + 1, w);
  }

  /** Set keeps every recorded width equal to w: its update and its eviction loop. */
  lemma UniformAfterSet<K, V>(st: State<K, V>, w: nat, k: K, v: V, max: int)
    requires Valid(st) && Uniform(st, w) && 0 <= max
    ensures Uniform(Put(st, k, v, w), w)
    ensures Uniform(Shrink(Put(st, k, v, w), max), w)
  {
    var p := Put(st, k, v, w);
    PutEffect(st, k, v, w);
    forall x | x in p.store ensures p.store[x].size == w {
      assert x == k || x in st.store;
    }
    ShrinkKeepsPrefix(p, max);
    var r := Shrink(p, max);
    forall x | x in r.store ensures r.store[x].size == w {
      assert x in p.store && r.store[x] == p.store[x];
    }
  }

  /** Get, evict and Delete keep every recorded width equal to w. */
  lemma UniformAfterOthers<K, V>(st: State<K, V>, w: nat, k: K)
    requires Valid(st) && Uniform(st, w)
    ensures Uniform(Touched(st, k), w)
    ensures Uniform(EvictBack(st), w)
    ensures Uniform(Remove(st, k), w)
  {
  }

  /**
   Setting a key that is already present replaces an entry by one of the same width:
   the total does not change, so a cache within its bound evicts nothing and only
   the key's position and value change.
   */
  lemma ResetEvictsNothing<K, V>(st: State<K, V>, w: nat, k: K, v: V, max: int)
    requires Valid(st) && Uniform(st, w) && k in st.store && 0 <= st.total <= max
    ensures var r := Shrink(Put(st, k, v, w), max);
      && r.total == st.total
      && r.order == Touch(st.order, k)
      && r.store == st.store[k := Entry(v, w)]
  {
    PutEffect(st, k, v, w);
  }

  /**
   With entries of one width, Set leaves exactly as many keys as the bound allows:
   all of them when they fit, otherwise max / w of the most recently used.
   */
  lemma ShrinkCount<K, V>(p: State<K, V>, w: nat, max: int)
    requires Valid(p) && Uniform(p, w) && 0 < w && 0 <= max
    ensures |Shrink(p, max).order| == if p.total <= max then |p.order| else max / w
  {
    var r := Shrink(p, max);
    if p.total > max {
      ShrinkKeepsPrefix(p, max);
      ShrinkIsMinimal(p, max);
      TotalIsCountTimesWidth(p.order, p.store, w);
      var n := |r.order|;
      TotalIsCountTimesWidth(r.order, r.store, w);
      FactorCancels(n, |p.order|, w);
      TotalIsCountTimesWidth(p.order[..n + 1], p.store, w);
      QuotientExact(n, w, max);
    }
  }

  /**
   The class-level bound: a valid cache whose entry-size function is constant at a
   positive w never holds more than maxSize / w keys.
   */
  lemma CacheCountBound<K, V(0)>(c: GoVault.Cache<K, V>, w: nat)
    requires c.Valid() && 0 < w
    requires forall k, v :: c.entrySize(k, v) == w
    ensures |c.order| <= c.maxSize / w
  {
    CountBound(c.Model(), w, c.maxSize);
  }
}
