/**
 The state that every operation of the cache keeps in step, and the effect of each
 operation on it, as values.

 The recency list (EvictList in govault.go, evictList in govault/cache.go) is the
 sequence `order` of keys, front (index 0) = most recently used, back = least
 recently used. The index (Store / store) maps each key to its entry: the value and
 the size recorded for it when it was set. `total` is the running size
 (CurrentSize / currSize).
 */
module Recency {

  /** An entry: the stored value and its estimated size in bytes. */
  datatype Entry<V> = Entry(value: V, size: nat)

  datatype State<K, V> = State(order: seq<K>, store: map<K, Entry<V>>, total: int)

  ghost predicate NoDup<K>(s: seq<K>)
  {
    forall i, j :: 0 <= i < j < |s| ==> s[i] != s[j]
  }

  /** The size recorded for k, 0 when k has no entry. */
  ghost function SizeOf<K, V>(m: map<K, Entry<V>>, k: K): nat
  {
    if k in m then m[k].size else 0
  }

  /** The sum of the recorded sizes of the keys in s. */
  ghost function Total<K, V>(s: seq<K>, m: map<K, Entry<V>>): nat
  {
    if s == [] then 0 else SizeOf(m, s[0]) + Total(s[1..], m)
  }

  /**
   The invariant of the cache: the index holds exactly the keys of the recency list,
   each key is listed once, and the running total is the sum of the recorded sizes.
   */
  ghost predicate Valid<K, V>(st: State<K, V>)
  {
    && (forall k :: k in st.store ==> k in st.order)
    && (forall k :: k in st.order ==> k in st.store)
    && NoDup(st.order)
    && st.total == Total(st.order, st.store)
  }

  /** list.Remove on the element of key k (a no-op when k is not listed). */
  function Without<K(==)>(s: seq<K>, k: K): (r: seq<K>)
    ensures forall x :: x in r ==> x in s && x != k
    ensures forall x :: x in s && x != k ==> x in r
    ensures NoDup(s) ==> NoDup(r)
    ensures k !in s ==> r == s
  {
    if s == [] then []
    else if s[0] == k then Without(s[1..], k)
    else
      assert NoDup(s) ==> s[0] !in s[1..];
      [s[0]] + Without(s[1..], k)
  }

  /** list.MoveToFront for a listed key, list.PushFront for a new one. */
  function Touch<K(==)>(s: seq<K>, k: K): (r: seq<K>)
    ensures |r| > 0 && r[0] == k
    ensures forall x :: x in r ==> x in s || x == k
    ensures forall x :: x in s ==> x in r
    ensures NoDup(s) ==> NoDup(r)
  {
    [k] + Without(s, k)
  }

  /** The key at index i of s occurs nowhere else in s. */
  ghost predicate OnlyAt<K>(s: seq<K>, i: nat)
    requires i < |s|
  {
    forall j :: 0 <= j < |s| && j != i ==> s[j] != s[i]
  }

  /** Removing the one occurrence of a listed key leaves the others in their order. */
  lemma {:induction false} WithoutAt<K>(s: seq<K>, i: nat)
    requires i < |s| && OnlyAt(s, i)
    ensures Without(s, s[i]) == s[..i] + s[i + 1..]
  {
    var k := s[i];
    if i == 0 {
      assert forall j :: 0 <= j < |s[1..]| ==> s[1..][j] == s[j + 1];
      assert k !in s[1..];
    } else {
      var tail := s[1..];
      assert s[0] != k;
      assert tail[i - 1] == k;
      assert forall j :: 0 <= j < |tail| ==> tail[j] == s[j + 1];
      assert OnlyAt(tail, i - 1);
      WithoutAt(tail, i - 1);
      assert tail[..i - 1] == s[1..i] && tail[i..] == s[i + 1..];
      assert [s[0]] + (s[1..i] + s[i + 1..]) == s[..i] + s[i + 1..];
    }
  }

  /**
   Moving a key to the front puts it first and keeps the relative order of every
   other key; a key that was not listed is pushed in front of all of them.
   */
  lemma TouchOrder<K>(s: seq<K>, k: K)
    requires NoDup(s)
    ensures k !in s ==> Touch(s, k) == [k] + s
    ensures forall i :: 0 <= i < |s| && s[i] == k ==> Touch(s, k) == [k] + s[..i] + s[i + 1..]
  {
    forall i | 0 <= i < |s| && s[i] == k
      ensures Touch(s, k) == [k] + s[..i] + s[i + 1..]
    {
      assert OnlyAt(s, i);
    WithoutAt(s, i);
    }
  }

  lemma {:induction false} TotalAppend<K, V>(a: seq<K>, b: seq<K>, m: map<K, Entry<V>>)
    ensures Total(a + b, m) == Total(a, m) + Total(b, m)
  {
    if a == [] {
      assert a + b == b;
    } else {
      assert (a + b)[1..] == a[1..] + b;
      TotalAppend(a[1..], b, m);
    }
  }

  /** The total of s depends only on the sizes recorded for the keys of s. */
  lemma {:induction false} TotalFrame<K, V>(s: seq<K>, m: map<K, Entry<V>>, m': map<K, Entry<V>>)
    requires forall k :: k in s ==> SizeOf(m, k) == SizeOf(m', k)
    ensures Total(s, m) == Total(s, m')
  {
    if s != [] {
      TotalFrame(s[1..], m, m');
    }
  }

  /** The i-th listed key contributes its own size to the total. */
  lemma TotalSplit<K, V>(s: seq<K>, i: nat, m: map<K, Entry<V>>)
    requires i < |s|
    ensures Total(s, m) == Total(s[..i], m) + SizeOf(m, s[i]) + Total(s[i + 1..], m)
  {
    assert s == s[..i] + [s[i]] + s[i + 1..];
    TotalAppend(s[..i] + [s[i]], s[i + 1..], m);
    TotalAppend(s[..i], [s[i]], m);
    assert [s[i]][1..] == [];
  }

  /**
   Set before its eviction loop: store the value and its size under k, move k to the
   front, and adjust the total by the new size minus the old one (or add the new
   size for a new key). The invariant is kept.
   */
  ghost function Put<K, V>(st: State<K, V>, k: K, v: V, size: nat): (r: State<K, V>)
    requires Valid(st)
    ensures Valid(r)
  {
    var total := if k in st.store then st.total - st.store[k].size + size else st.total + size;
    var r := State(Touch(st.order, k), st.store[k := Entry(v, size)], total);
    PutValid(st, k, v, size, r);
    r
  }

  lemma PutValid<K, V>(st: State<K, V>, k: K, v: V, size: nat, r: State<K, V>)
    requires Valid(st)
    requires r == State(Touch(st.order, k), st.store[k := Entry(v, size)],
      if k in st.store then st.total - st.store[k].size + size else st.total + size)
    ensures Valid(r)
  {
    if k in st.store {
      PutListed(st, k, v, size, r);
    } else {
      PutUnlisted(st, k, v, size, r);
    }
  }

  /** Put's result, field by field. */
  lemma PutFields<K, V>(st: State<K, V>, k: K, v: V, size: nat)
    requires Valid(st)
    ensures Put(st, k, v, size) == State(Touch(st.order, k), st.store[k := Entry(v, size)],
      if k in st.store then st.total - st.store[k].size + size else st.total + size)
  {
  }

  /**
   After Set's update, k is the most recently used key and holds exactly one entry,
   the new value with its new size; every other key keeps its entry; the list grows
   by one only for a new key; and the total moves by the new size minus the old.
   */
  lemma PutEffect<K, V>(st: State<K, V>, k: K, v: V, size: nat)
    requires Valid(st)
    ensures var r := Put(st, k, v, size);
      && |r.order| > 0 && r.order[0] == k && r.store[k] == Entry(v, size)
      && |r.order| == |st.order| + (if k in st.store then 0 else 1)
      && (forall x :: x != k && x in st.store ==> x in r.store && r.store[x] == st.store[x])
      && (forall x :: x in r.store ==> x == k || x in st.store)
      && r.total - st.total == size - (if k in st.store then st.store[k].size else 0)
  {
    var r := Put(st, k, v, size);
    var m := st.store[k := Entry(v, size)];
    assert r.store == m && r.order == Touch(st.order, k);
    forall x | x != k && x in st.store ensures x in r.store && r.store[x] == st.store[x] {
      assert m[x] == st.store[x];
    }
    if k in st.store {
      PutListed(st, k, v, size, r);
    } else {
      PutUnlisted(st, k, v, size, r);
    }
  }

  lemma PutListed<K, V>(st: State<K, V>, k: K, v: V, size: nat, r: State<K, V>)
    requires Valid(st) && k in st.store
    requires r == State(Touch(st.order, k), st.store[k := Entry(v, size)], st.total - st.store[k].size + size)
    ensures Valid(r) && |r.order| == |st.order|
  {
    var s, m := st.order, st.store;
    var i :| 0 <= i < |s| && s[i] == k;
    var rest := s[..i] + s[i + 1..];
    assert OnlyAt(s, i);
    WithoutAt(s, i);
    assert r.order == [k] + rest;
    assert r.order[1..] == rest;
    TotalWithoutAt(s, i, m);
    TotalFrame(rest, m, r.store);
    assert Total(r.order, r.store) == size + Total(rest, r.store);
    forall x | x in r.store ensures x in r.order {
      assert x == k || x in s;
    }
    forall x | x in r.order ensures x in r.store {
      assert x == k || x in s;
    }
  }

  /** Taking the i-th key out of a list without duplicates takes its size out of the total. */
  lemma TotalWithoutAt<K, V>(s: seq<K>, i: nat, m: map<K, Entry<V>>)
    requires NoDup(s) && i < |s|
    ensures s[i] !in s[..i] + s[i + 1..]
    ensures Total(s[..i] + s[i + 1..], m) == Total(s, m) - SizeOf(m, s[i])
  {
    var rest := s[..i] + s[i + 1..];
    forall j | 0 <= j < |rest| ensures rest[j] != s[i] {
      if j < i { assert rest[j] == s[j]; } else { assert rest[j] == s[j + 1]; }
    }
    TotalSplit(s, i, m);
    TotalAppend(s[..i], s[i + 1..], m);
  }

  lemma PutUnlisted<K, V>(st: State<K, V>, k: K, v: V, size: nat, r: State<K, V>)
    requires Valid(st) && k !in st.store
    requires r == State(Touch(st.order, k), st.store[k := Entry(v, size)], st.total + size)
    ensures Valid(r) && r.order == [k] + st.order
  {
    TouchOrder(st.order, k);
    assert r.order[1..] == st.order;
    TotalFrame(st.order, st.store, r.store);
    forall x | x in r.store ensures x in r.order {
      assert x == k || x in st.order;
    }
    forall x | x in r.order ensures x in r.store {
      assert x == k || x in st.order;
    }
  }

  /**
   evict: the least recently used key (the back of the list) leaves both the list and
   the index and its size leaves the total; on an empty cache nothing happens.
   */
  ghost function EvictBack<K, V>(st: State<K, V>): (r: State<K, V>)
    requires Valid(st)
    ensures Valid(r)
    ensures st.order == [] ==> r == st
    ensures st.order != [] ==> var back := st.order[|st.order| - 1];
      && r.order + [back] == st.order
      && back !in r.store
      && r.total == st.total - st.store[back].size
    ensures forall k :: k in r.store ==> k in st.store && r.store[k] == st.store[k]
  {
    if st.order == [] then st
    else
      var n := |st.order| - 1;
      var back := st.order[n];
      var r := State(st.order[..n], st.store - {back}, st.total - st.store[back].size);
      EvictListed(st, r);
      r
  }

  lemma EvictListed<K, V>(st: State<K, V>, r: State<K, V>)
    requires Valid(st) && st.order != []
    requires var back := st.order[|st.order| - 1];
      r == State(st.order[..|st.order| - 1], st.store - {back}, st.total - st.store[back].size)
    ensures Valid(r) && r.order + [st.order[|st.order| - 1]] == st.order
  {
    var n := |st.order| - 1;
    var back := st.order[n];
    assert st.order == r.order + [back];
    EvictedUnlisted(st.order, back);
    forall k | k in r.store ensures k in r.order {
      assert k in st.order && k != back;
    }
    forall k | k in r.order ensures k in r.store {
      assert k in st.order && k != back;
    }
    EvictedTotal(st.order, st.store, r.store, back);
  }

  /** The back key of a list without duplicates occurs nowhere before it. */
  lemma EvictedUnlisted<K>(s: seq<K>, back: K)
    requires NoDup(s) && s != [] && back == s[|s| - 1]
    ensures back !in s[..|s| - 1] && NoDup(s[..|s| - 1])
  {
  }

  /** Dropping the back key drops its size, and only its size, from the total. */
  lemma EvictedTotal<K, V>(s: seq<K>, m: map<K, Entry<V>>, m': map<K, Entry<V>>, back: K)
    requires s != [] && back == s[|s| - 1] && back !in s[..|s| - 1] && back in m
    requires m' == m - {back}
    ensures Total(s[..|s| - 1], m') == Total(s, m) - m[back].size
  {
    var n := |s| - 1;
    TotalSplit(s, n, m);
    assert s[n + 1..] == [];
    TotalFrame(s[..n], m, m');
  }

  /**
   The eviction loop of Set: evict from the back while the total exceeds max. It
   ends within the limit; ShrinkKeepsPrefix says which keys it removes.
   */
  ghost function Shrink<K, V>(st: State<K, V>, max: int): (r: State<K, V>)
    requires Valid(st) && 0 <= max
    ensures Valid(r) && r.total <= max
    decreases |st.order|
  {
    if st.total <= max then st else Shrink(EvictBack(st), max)
  }

  /**
   The eviction loop only removes the least recently used keys: what remains is a
   prefix of the list, each remaining key keeping its entry.
   */
  lemma {:induction false} ShrinkKeepsPrefix<K, V>(st: State<K, V>, max: int)
    requires Valid(st) && 0 <= max
    ensures var r := Shrink(st, max);
      && |r.order| <= |st.order| && r.order == st.order[..|r.order|]
      && (forall k :: k in r.store ==> k in st.store && r.store[k] == st.store[k])
    decreases |st.order|
  {
    if st.total > max {
      var e := EvictBack(st);
      ShrinkKeepsPrefix(e, max);
      assert e.order == st.order[..|st.order| - 1];
      var r := Shrink(st, max);
      assert r == Shrink(e, max);
      assert r.order == e.order[..|r.order|] == st.order[..|r.order|];
      forall k | k in r.store ensures k in st.store && r.store[k] == st.store[k] {
        assert k in e.store && r.store[k] == e.store[k];
      }
    }
  }

  /**
   The eviction loop removes no more keys than it must: when it evicted anything,
   putting back the last key it evicted would exceed max again.
   */
  lemma {:induction false} ShrinkIsMinimal<K, V>(st: State<K, V>, max: int)
    requires Valid(st) && 0 <= max
    ensures var r := Shrink(st, max);
      |r.order| < |st.order| ==> Total(st.order[..|r.order| + 1], st.store) > max
    decreases |st.order|
  {
    if st.total > max {
      var e := EvictBack(st);
      ShrinkUnfold(st, max);
      ShrinkIsMinimal(e, max);
      ShrinkKeepsPrefix(e, max);
      MinimalStep(st, e, |Shrink(e, max).order|, max);
    }
  }

  /** The step of ShrinkIsMinimal: a bound on a prefix of e carries over to st. */
  lemma MinimalStep<K, V>(st: State<K, V>, e: State<K, V>, n: nat, max: int)
    requires Valid(st) && Valid(e) && st.total > max
    requires st.order != [] && e.order == st.order[..|st.order| - 1]
    requires forall k :: k in e.store ==> k in st.store && e.store[k] == st.store[k]
    requires n <= |e.order|
    requires n < |e.order| ==> Total(e.order[..n + 1], e.store) > max
    ensures Total(st.order[..n + 1], st.store) > max
  {
    var s := st.order[..n + 1];
    if n < |e.order| {
      assert e.order[..n + 1] == s;
      assert forall k :: k in s ==> k in e.order;
      TotalFrame(s, e.store, st.store);
    } else {
      assert s == st.order;
    }
  }

  /** While the total exceeds max, the loop's outcome is that of evicting once more. */
  lemma ShrinkUnfold<K, V>(st: State<K, V>, max: int)
    requires Valid(st) && 0 <= max < st.total
    ensures Shrink(st, max) == Shrink(EvictBack(st), max)
  {
  }

  /**
   Get: a present key moves to the front while the others keep their relative order
   and neither the index nor the total changes; an absent key changes nothing.
   */
  ghost function Touched<K, V>(st: State<K, V>, k: K): (r: State<K, V>)
    requires Valid(st)
    ensures Valid(r) && r.store == st.store && r.total == st.total
    ensures k in st.store ==> r.order[0] == k
    ensures forall i :: 0 <= i < |st.order| && st.order[i] == k ==>
      r.order == [k] + st.order[..i] + st.order[i + 1..]
    ensures k !in st.store ==> r == st
  {
    TouchOrder(st.order, k);
    if k in st.store then
      var e := st.store[k];
      assert st.store[k := e] == st.store;
      Put(st, k, e.value, e.size)
    else st
  }

  /**
   Delete: a present key leaves both the list and the index and the total drops by
   exactly its recorded size, the other keys keeping their order and entries; an
   absent key changes nothing.
   */
  ghost function Remove<K, V>(st: State<K, V>, k: K): (r: State<K, V>)
    requires Valid(st)
    ensures Valid(r) && k !in r.store
    ensures k in st.store ==> r.total == st.total - st.store[k].size
    ensures forall i :: 0 <= i < |st.order| && st.order[i] == k ==>
      r.order == st.order[..i] + st.order[i + 1..]
    ensures forall x :: x != k && x in st.store ==> x in r.store && r.store[x] == st.store[x]
    ensures forall x :: x in r.store ==> x in st.store
    ensures k !in st.store ==> r == st
  {
    if k in st.store then
      var r := State(Without(st.order, k), st.store - {k}, st.total - st.store[k].size);
      RemoveListed(st, k, r);
      r
    else st
  }

  lemma RemoveListed<K, V>(st: State<K, V>, k: K, r: State<K, V>)
    requires Valid(st) && k in st.store
    requires r == State(Without(st.order, k), st.store - {k}, st.total - st.store[k].size)
    ensures Valid(r)
    ensures forall i :: 0 <= i < |st.order| && st.order[i] == k ==>
      r.order == st.order[..i] + st.order[i + 1..]
  {
    RemovedOrder(st.order, k);
    RemovedTotal(st.order, k, st.store, r.store);
    forall x | x in r.store ensures x in r.order {
      assert x in st.order && x != k;
    }
    forall x | x in r.order ensures x in r.store {
      assert x in st.order && x != k;
    }
  }

  /** In a list without duplicates, list.Remove closes the gap the key leaves. */
  lemma RemovedOrder<K>(s: seq<K>, k: K)
    requires NoDup(s)
    ensures forall i :: 0 <= i < |s| && s[i] == k ==> Without(s, k) == s[..i] + s[i + 1..]
  {
    forall i | 0 <= i < |s| && s[i] == k
      ensures Without(s, k) == s[..i] + s[i + 1..]
    {
      assert OnlyAt(s, i);
      WithoutAt(s, i);
    }
  }

  /** Taking a listed key out of the list and the index subtracts its size from the total. */
  lemma RemovedTotal<K, V>(s: seq<K>, k: K, m: map<K, Entry<V>>, m': map<K, Entry<V>>)
    requires NoDup(s) && k in s && k in m && m' == m - {k}
    ensures Total(Without(s, k), m') == Total(s, m) - m[k].size
  {
    var i :| 0 <= i < |s| && s[i] == k;
    RemovedOrder(s, k);
    TotalWithoutAt(s, i, m);
    TotalFrame(s[..i] + s[i + 1..], m, m');
  }

  /** The most recently used key survives the eviction loop exactly when its own size fits. */
  lemma ShrinkFront<K, V>(p: State<K, V>, max: int)
    requires Valid(p) && 0 <= max && p.order != []
    ensures p.store[p.order[0]].size <= max ==> Shrink(p, max).order != []
    ensures p.store[p.order[0]].size > max ==> Shrink(p, max).order == []
  {
    EmptiedOnlyByOversizedFront(p, max);
    KeptFrontFits(p, max);
  }

  /** If the loop empties the list, the front entry alone exceeds max. */
  lemma EmptiedOnlyByOversizedFront<K, V>(p: State<K, V>, max: int)
    requires Valid(p) && 0 <= max && p.order != []
    ensures Shrink(p, max).order == [] ==> p.store[p.order[0]].size > max
  {
    ShrinkIsMinimal(p, max);
    var f := p.order[0];
    assert p.order[..1] == [f] && [f][1..] == [];
    assert Total([f], p.store) == p.store[f].size;
  }

  /** If the loop keeps a key, it keeps the front one, whose size is within max. */
  lemma KeptFrontFits<K, V>(p: State<K, V>, max: int)
    requires Valid(p) && 0 <= max && p.order != []
    ensures Shrink(p, max).order != [] ==> p.store[p.order[0]].size <= max
  {
    var r := Shrink(p, max);
    ShrinkKeepsPrefix(p, max);
    if r.order != [] {
      var f := p.order[0];
      assert r.order[0] == f && r.store[f] == p.store[f];
      assert Total(r.order, r.store) >= r.store[f].size;
    }
  }

  /**
   Round trip: when the new entry fits within max on its own, the eviction that
   follows Set never removes it, so a Get right after finds the value just set.
   */
  lemma SetThenGet<K, V>(st: State<K, V>, k: K, v: V, size: nat, max: int)
    requires Valid(st) && size <= max
    ensures var r := Shrink(Put(st, k, v, size), max);
      && |r.order| > 0 && r.order[0] == k
      && k in r.store && r.store[k] == Entry(v, size)
      && Touched(r, k).store[k].value == v
  {
    var p := Put(st, k, v, size);
    PutEffect(st, k, v, size);
    ShrinkFront(p, max);
    ShrinkKeepsPrefix(p, max);
    var r := Shrink(p, max);
    assert r.order[0] == p.order[0] == k;
    assert k in r.store;
    assert r.store[k] == p.store[k] == Entry(v, size);
  }

  /**
   An entry larger than max on its own makes the eviction loop empty the cache,
   evicting the new entry as well.
   */
  lemma SetOversized<K, V>(st: State<K, V>, k: K, v: V, size: nat, max: int)
    requires Valid(st) && 0 <= max < size
    ensures var r := Shrink(Put(st, k, v, size), max);
      r.order == [] && r.store == map[] && r.total == 0
  {
    var p := Put(st, k, v, size);
    PutEffect(st, k, v, size);
    ShrinkFront(p, max);
    EmptyOrder(Shrink(p, max));
  }

  /** A valid state with an empty list has an empty index and a zero total. */
  lemma EmptyOrder<K, V>(st: State<K, V>)
    requires Valid(st) && st.order == []
    ensures st.store == map[] && st.total == 0
  {
    assert forall x :: x !in st.store;
  }

  /** What a Set leaves behind, according to whether the new entry fits on its own. */
  lemma SetOutcome<K, V>(st: State<K, V>, k: K, v: V, size: nat, max: int)
    requires Valid(st) && 0 <= max
    ensures var r := Shrink(Put(st, k, v, size), max);
      && (size <= max ==> |r.order| > 0 && r.order[0] == k && k in r.store && r.store[k] == Entry(v, size))
      && (max < size ==> r.order == [] && r.store == map[] && r.total == 0)
  {
    if size <= max {
      SetThenGet(st, k, v, size, max);
    } else {
      SetOversized(st, k, v, size, max);
    }
  }
}
