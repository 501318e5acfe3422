/**
 The ordering rules of the cache on small concrete runs: entries of size 1 under a
 bound of 2 bytes, so that the cache holds two keys. Each run is the composition of
 the state functions of Recency that the class methods are proved to follow.
 */
module Scenarios {
  import opened Recency
  import SizeEstimator
  import GoVault

  /** The cache New returns: no keys and a zero total. */
  const Empty: State<int, int> := State([], map[], 0)

  /** One Set of a key with a size-1 entry under the bound 2. */
  ghost function SetOne(st: State<int, int>, k: int, v: int): (r: State<int, int>)
    requires Valid(st)
    ensures Valid(r) && r.total <= 2
  {
    Shrink(Put(st, k, v, 1), 2)
  }

  /** The first Set into the empty cache. */
  lemma SetFirst(a: int, va: int)
    ensures Valid(Empty)
    ensures SetOne(Empty, a, va) == State([a], map[a := Entry(va, 1)], 1)
  {
    assert Put(Empty, a, va, 1) == State([a], map[a := Entry(va, 1)], 1);
  }

  /** A second key fits beside the first and goes in front of it. */
  lemma SetSecond(a: int, va: int, b: int, vb: int)
    requires a != b
    ensures Valid(State([a], map[a := Entry(va, 1)], 1))
    ensures SetOne(State([a], map[a := Entry(va, 1)], 1), b, vb)
      == State([b, a], map[a := Entry(va, 1), b := Entry(vb, 1)], 2)
  {
    var st := State([a], map[a := Entry(va, 1)], 1);
    assert Without([a], b) == [a];
    assert Put(st, b, vb, 1) == State([b, a], map[a := Entry(va, 1), b := Entry(vb, 1)], 2);
  }

  /** A third key into a full cache evicts exactly the back key. */
  lemma SetThird(st: State<int, int>, c: int, vc: int)
    requires Valid(st) && |st.order| == 2 && st.total == 2
    requires c !in st.store && st.store[st.order[1]].size == 1
    ensures SetOne(st, c, vc)
      == State([c, st.order[0]], st.store[c := Entry(vc, 1)] - {st.order[1]}, 2)
  {
    var x, y := st.order[0], st.order[1];
    assert y in st.store && c != y;
    PutNew(st, c, vc);
    var p := Put(st, c, vc, 1);
    assert p.order == [c, x, y];
    assert p.order[..2] == [c, x] && p.order[2] == y;
    assert p.store[y] == st.store[y];
    EvictThird(p);
  }

  /** Set's update for a key not yet present: it goes in front and its size is added. */
  lemma PutNew<K, V>(st: State<K, V>, k: K, v: V)
    requires Valid(st) && k !in st.store
    ensures Put(st, k, v, 1) == State([k] + st.order, st.store[k := Entry(v, 1)], st.total + 1)
  {
    TouchOrder(st.order, k);
  }

  /** With three unit entries under the bound 2, the loop evicts the back one only. */
  lemma EvictThird(p: State<int, int>)
    requires Valid(p) && |p.order| == 3 && p.total == 3 && p.store[p.order[2]].size == 1
    ensures Shrink(p, 2) == State(p.order[..2], p.store - {p.order[2]}, 2)
  {
    var kept := State(p.order[..2], p.store - {p.order[2]}, 2);
    assert EvictBack(p) == kept;
    assert Shrink(p, 2) == Shrink(kept, 2);
  }

  /** Reading the back key of a two-key cache swaps the two keys. */
  lemma GetBack(st: State<int, int>)
    requires Valid(st) && |st.order| == 2
    ensures Touched(st, st.order[1]) == State([st.order[1], st.order[0]], st.store, st.total)
  {
    var t := Touched(st, st.order[1]);
    assert t.order == [st.order[1]] + st.order[..1] + st.order[2..];
  }

  /**
   Inserting a, b and c into a cache that holds two keys evicts a, the least
   recently used, and leaves c in front of b. s1, s2 and s3 are the states after
   each Set.
   */
  lemma LeastRecentlyUsedGoesFirst(a: int, b: int, c: int, va: int, vb: int, vc: int,
                                   s1: State<int, int>, s2: State<int, int>, s3: State<int, int>)
    requires a != b && b != c && a != c
    requires Valid(Empty) && s1 == SetOne(Empty, a, va)
    requires s2 == SetOne(s1, b, vb) && s3 == SetOne(s2, c, vc)
    ensures s3.order == [c, b]
    ensures a !in s3.store && s3.store[b].value == vb && s3.store[c].value == vc
  {
    SetFirst(a, va);
    SetSecond(a, va, b, vb);
    SetThird(s2, c, vc);
  }

  /**
   A Get refreshes recency: inserting a and b, reading a and then inserting c
   evicts b, not a, since the read made a the most recently used. s1, s2, t and s3
   are the states after each step.
   */
  lemma GetRefreshesRecency(a: int, b: int, c: int, va: int, vb: int, vc: int,
                            s1: State<int, int>, s2: State<int, int>, t: State<int, int>,
                            s3: State<int, int>)
    requires a != b && b != c && a != c
    requires Valid(Empty) && s1 == SetOne(Empty, a, va) && s2 == SetOne(s1, b, vb)
    requires t == Touched(s2, a) && s3 == SetOne(t, c, vc)
    ensures s3.order == [c, a]
    ensures b !in s3.store && s3.store[a].value == va && s3.store[c].value == vc
  {
    SetFirst(a, va);
    SetSecond(a, va, b, vb);
    GetBack(s2);
    SetThird(t, c, vc);
  }

  /**
   Set, then Delete: the key is gone afterwards and the cache is back to empty, as
   the example for Delete shows with a Get that no longer finds the key.
   */
  lemma SetThenDelete()
    ensures Valid(Empty)
    ensures var s := Remove(SetOne(Empty, 1, 10), 1);
      && 1 !in s.store && s == Empty
  {
    SetFirst(1, 10);
    assert Without([1], 1) == [];
    assert map[1 := Entry(10, 1)] - {1} == map[];
  }

  /**
   The entry of the examples for Set, Get and Delete: the key "key-1" and the value
   []int{1, 2, 3, 4, 5} (capacity 5) are estimated at 189 bytes, well within the
   10485760 bytes of New(10), so SetThenGet applies and the Get finds the value.
   */
  lemma ExampleEntryFits()
    ensures var five := SizeEstimator.Slice(5, [SizeEstimator.Basic, SizeEstimator.Basic,
      SizeEstimator.Basic, SizeEstimator.Basic, SizeEstimator.Basic]);
      && SizeEstimator.EntrySize(SizeEstimator.Str(5), five) == 189
      && 189 <= GoVault.CapacityBytes(10).value
  {
    var b := SizeEstimator.Basic;
    assert SizeEstimator.SumSizes([b]) == 16;
    assert [b, b][1..] == [b] && SizeEstimator.SumSizes([b, b]) == 32;
    assert [b, b, b][1..] == [b, b] && SizeEstimator.SumSizes([b, b, b]) == 48;
    assert [b, b, b, b][1..] == [b, b, b] && SizeEstimator.SumSizes([b, b, b, b]) == 64;
    assert [b, b, b, b, b][1..] == [b, b, b, b] && SizeEstimator.SumSizes([b, b, b, b, b]) == 80;
  }
}
