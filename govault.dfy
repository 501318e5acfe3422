/**
 The cache of govault.go: a key/value store bounded by the estimated number of bytes
 of its entries, evicting the least recently used entries when a Set goes over the
 bound. Each public operation is one sequential method (the mutex that makes them
 atomic is not modelled). The recency list and the index are the fields `order` and
 `store`; Model() reads them, with the running total, as a Recency.State.

 The same class serves the variant in govault/cache.go, which differs only in the
 entry-size function it is given (see module FixedSizeCache).
 */
module GoVault {
  import opened Wrappers
  import opened Recency
  import SizeEstimator

  /** Bytes in a megabyte: the factor 1024 * 1024 applied by New. */
  const MiB: int := 1024 * 1024

  class Cache<K(==), V(0)> {
    /** EvictList: the keys from most recently used (index 0) to least recently used. */
    var order: seq<K>
    /** Store: the entry of each key. */
    var store: map<K, Entry<V>>
    /** MaxSize: the bound in bytes, fixed by New. */
    const maxSize: int
    /** CurrentSize: the running total of the recorded entry sizes. */
    var currSize: int
    /** calculateEntrySize: the size recorded for a key and its value. */
    const entrySize: (K, V) -> nat

    ghost function Model(): State<K, V>
      reads this
    {
      State(order, store, currSize)
    }

    /**
     The object invariant: the bound is positive, index, list and total agree, the
     total is within the bound, and each recorded size is the estimate Set computed
     for its key and value (values are immutable here, so that estimate stays the
     estimate of the stored value).
     */
    ghost predicate Valid()
      reads this
    {
      && 0 < maxSize
      && Recency.Valid(Model())
      && currSize <= maxSize
      && Estimated(store)
    }

    /** Every recorded size is the estimate made by the Set that stored its key and value. */
    ghost predicate Estimated(m: map<K, Entry<V>>)
    {
      forall k :: k in m ==> m[k].size == entrySize(k, m[k].value)
    }

    /** The struct literal of New: an empty index and list and a zero total. */
    constructor (maxSize: int, entrySize: (K, V) -> nat)
      requires 0 < maxSize
      ensures Valid()
      ensures this.maxSize == maxSize && this.entrySize == entrySize
      ensures order == [] && store == map[] && currSize == 0
    {
      this.maxSize := maxSize;
      this.entrySize := entrySize;
      order := [];
      store := map[];
      currSize := 0;
    }

    /**
     Set: record the value with its estimated size, make the key the most recently
     used, then evict from the back until the total is within the bound. A value
     that fits on its own is then present; one that does not empties the cache.
     */
    method Set(key: K, value: V)
      requires Valid()
      modifies this
      ensures Valid()
      ensures Model() == Shrink(Put(old(Model()), key, value, entrySize(key, value)), maxSize)
      ensures entrySize(key, value) <= maxSize ==>
        && |order| > 0 && order[0] == key
        && key in store && store[key] == Entry(value, entrySize(key, value))
      ensures maxSize < entrySize(key, value) ==> order == [] && store == map[] && currSize == 0
    {
      var size := entrySize(key, value);
      if key in store {
        Update(key, value, size);
      } else {
        Insert(key, value, size);
      }
      EvictUntilWithin();
      SetOutcome(old(Model()), key, value, size, maxSize);
    }

    /**
     Set on a key already present: the total moves by the new size minus the old,
     the entry takes the new value and size, and the key moves to the front.
     */
    method Update(key: K, value: V, size: nat)
      requires Recency.Valid(Model()) && Estimated(store) && size == entrySize(key, value)
      requires key in store
      modifies this
      ensures Model() == Put(old(Model()), key, value, size) && Estimated(store)
    {
      PutFields(Model(), key, value, size);
      var oldSize := store[key].size;
      currSize := currSize - oldSize;
      currSize := currSize + size;
      store := store[key := Entry(value, size)];
      order := Touch(order, key);
    }

    /**
     Set on a new key: it is pushed in front of the list, indexed with its entry,
     and its size is added to the total.
     */
    method Insert(key: K, value: V, size: nat)
      requires Recency.Valid(Model()) && Estimated(store) && size == entrySize(key, value)
      requires key !in store
      modifies this
      ensures Model() == Put(old(Model()), key, value, size) && Estimated(store)
    {
      PutFields(Model(), key, value, size);
      assert Touch(order, key) == [key] + order;
      order := [key] + order;
      store := store[key := Entry(value, size)];
      currSize := currSize + size;
    }

    /**
     The loop that ends Set: evict the least recently used key while the total
     exceeds the bound. It stops because an empty cache has total 0 and the bound
     is positive.
     */
    method EvictUntilWithin()
      requires 0 < maxSize && Recency.Valid(Model()) && Estimated(store)
      modifies this
      ensures Valid()
      ensures Model() == Shrink(old(Model()), maxSize)
    {
      ghost var final := Shrink(Model(), maxSize);
      while currSize > maxSize
        invariant Recency.Valid(Model())
        invariant Shrink(Model(), maxSize) == final
        invariant Estimated(store)
        decreases |order|
      {
        ShrinkUnfold(Model(), maxSize);
        Evict();
      }
    }

    /**
     Get: a present key yields its value and becomes the most recently used; an
     absent key yields the zero value and changes nothing.
     */
    method Get(key: K) returns (value: V, found: bool)
      requires Valid()
      modifies this
      ensures Valid()
      ensures found == (key in old(store))
      ensures found ==> value == old(store)[key].value
      ensures Model() == Touched(old(Model()), key)
    {
      ghost var target := Touched(Model(), key);
      if key in store {
        assert store[key := store[key]] == store;
        order := Touch(order, key);
        assert Model() == target;
        return store[key].value, true;
      }
      var zero: V := *;
      return zero, false;
    }

    /**
     evict: drop the least recently used key from list and index and its size from
     the total; nothing happens on an empty cache.
     */
    method Evict()
      requires Recency.Valid(Model())
      modifies this
      ensures Model() == EvictBack(old(Model()))
      ensures forall k :: k in store ==> k in old(store) && store[k] == old(store)[k]
    {
      if order == [] {
        return;
      }
      var back := order[|order| - 1];
      var ent := store[back];
      order := order[..|order| - 1];
      store := store - {back};
      currSize := currSize - ent.size;
    }

    /**
     Delete: a present key leaves list and index and its recorded size leaves the
     total; an absent key changes nothing.
     */
    method Delete(key: K)
      requires Valid()
      modifies this
      ensures Valid()
      ensures Model() == Remove(old(Model()), key)
    {
      ghost var target := Remove(Model(), key);
      if key in store {
        var ent := store[key];
        order := Without(order, key);
        store := store - {key};
        currSize := currSize - ent.size;
      }
      assert Model() == target;
    }
  }

  /**
   The capacity New computes from maxMB: none (New panics) unless maxMB is positive,
   otherwise maxMB megabytes in bytes, computed without overflow.
   */
  function CapacityBytes(maxMB: int): (r: Option<int>)
    ensures r.Some? <==> 0 < maxMB
    ensures r.Some? ==> 0 < r.value && r.value % MiB == 0 && r.value / MiB == maxMB
  {
    if maxMB <= 0 then None else Some(maxMB * MiB)
  }

  /** The value the tests print for New(10): 10485760 bytes. */
  lemma CapacityOfTenMegabytes()
    ensures CapacityBytes(10) == Some(10485760)
  {
  }

  /**
   New for govault.go: the entry size is the reflective estimate of the key plus
   that of the value. keyShape and valueShape stand for reflect.ValueOf: they give
   the shape the estimator walks. A non-positive maxMB yields no cache.
   */
  method New<K(==), V(0)>(maxMB: int, keyShape: K -> SizeEstimator.Shape, valueShape: V -> SizeEstimator.Shape)
    returns (r: Option<Cache<K, V>>)
    ensures r.None? <==> maxMB <= 0
    ensures r.Some? ==> fresh(r.value) && r.value.Valid()
    ensures r.Some? ==> r.value.maxSize == maxMB * MiB
    ensures r.Some? ==> r.value.order == [] && r.value.store == map[] && r.value.currSize == 0
    ensures r.Some? ==> forall k, v :: r.value.entrySize(k, v) == SizeEstimator.EntrySize(keyShape(k), valueShape(v))
  {
    var capacity := CapacityBytes(maxMB);
    if capacity.None? {
      return None;
    }
    var c := new Cache(capacity.value, (k, v) => SizeEstimator.EntrySize(keyShape(k), valueShape(v)));
    return Some(c);
  }
}
