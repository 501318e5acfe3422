# govault: a byte-bounded LRU cache, modelled in Dafny

govault is an in-memory key/value cache for Go. It is bounded by the estimated number of bytes its entries take:

- a `Cache` keeps an index from keys to entries (`Store`);
- it keeps a recency list (`EvictList`, front = most recently used);
- it keeps the bound in bytes (`MaxSize`) and a running total (`CurrentSize`).

The operations are:

- `Set` records a value together with the estimated size of the key and the value. It makes the key the most recently used, then evicts from the back of the list until the total is within the bound.
- `Get` returns a value and refreshes its recency.
- `Delete` removes a key.

There are two variants of the cache:

- `govault.go` estimates sizes with a recursive walk over the value's structure (`calculateSize`).
- `govault/cache.go` charges `unsafe.Sizeof(key) + unsafe.Sizeof(value)`, which is the same for every entry of one cache.

The project has these modules:

- `Recency` (recency.dfy): the cache as a value.
  - `State` holds the list, the index and the total.
  - The invariant `Valid`: index keys and list keys coincide, no key is listed twice, and the total is the sum of the recorded sizes.
  - One state function per step of the source: `Put` (Set before eviction), `EvictBack` (evict), `Shrink` (Set's eviction loop), `Touched` (Get), `Remove` (Delete).
  - Lemmas about these functions: LRU order, the round trip, eviction minimality.
- `GoVault` (govault.dfy): the class `Cache`, whose fields are the list (`order`), the index (`store`), `maxSize`, `currSize` and the entry-size function.
  - Its methods change the fields in place. Each is proved to leave `Model()` equal to the matching `Recency` function of the old state.
  - `New` builds a cache whose entry size is the estimator's.
- `SizeEstimator` (size_estimator.dfy): `calculateSize` and `calculateEntrySize` over a closed `Shape` datatype, one variant per case of the source's switch.
  - `Size` is the estimate as a recursive function.
  - `CalculateSize` is the source's loop-based walk, proved to compute `Size`.
- `FixedSizeCache` (fixed_size_cache.dfy): `New` for govault/cache.go, which gives the same class a constant entry size. It also holds the lemmas that follow from all entries having one width.
- `Overflow` (overflow.dfy): the int64 arithmetic of `New`, and what happens when it wraps (see Findings).
- `Scenarios` (scenarios.dfy): short runs of the state functions with concrete outcomes, and the entry size used in the source's examples.
- `Wrappers` (wrappers.dfy): `Option`.

Fixed sizes are those of a 64-bit platform:

- `unsafe.Sizeof` of a `uintptr` is 8;
- a string header is 16;
- an interface value is 16.

`unsafe.Sizeof` does not evaluate its operand. So `v.Index(0)` inside it (govault.go:142) is never executed, and an empty slice is estimated like any other slice, without a panic. The model follows the code here.

## Model

| member | source | states |
|---|---|---|
| GoVault.Cache.constructor | govault.go:33-37 | The new cache has an empty list and index, a zero total and the given bound and entry-size function, and satisfies the invariant. |
| GoVault.Cache.Set | govault.go:42-71 | The invariant is kept and the new state is Put followed by Shrink of the old one. If the entry fits within the bound, the key is at the front holding the new value and size; otherwise the cache ends empty with total 0. The same code is at govault/cache.go:40-69. |
| GoVault.Cache.Update | govault.go:50-58 | For a key already present, the new state is Put of the old one: the total changes by the new size minus the old, the entry takes the new value and size, and the key moves to the front. Every recorded size stays the estimate of its key and value. |
| GoVault.Cache.Insert | govault.go:59-65 | For a new key, the new state is Put of the old one: the key is pushed at the front, indexed, and its size added. Every recorded size stays the estimate of its key and value. |
| GoVault.Cache.EvictUntilWithin | govault.go:67-70 | The loop ends with the invariant, including total <= bound. Its outcome is Shrink of the state before the loop. |
| GoVault.Cache.Get | govault.go:74-86 | found holds exactly when the key was present, and then the value is the stored one. The new state is Touched of the old one, and the invariant is kept. The same code is at govault/cache.go:72-84. |
| GoVault.Cache.Evict | govault.go:89-103 | The new state is EvictBack of the old one. Every remaining key keeps its entry. The same code is at govault/cache.go:87-101. |
| GoVault.Cache.Delete | govault.go:106-116 | The new state is Remove of the old one, and the invariant is kept. The same code is at govault/cache.go:104-114. |
| GoVault.CapacityBytes | govault.go:28-37 | There is a capacity exactly when maxMB > 0. It is then positive, a whole number of megabytes, and maxMB megabytes exactly. |
| GoVault.CapacityOfTenMegabytes | govault_test.go:9-15 | New(10) has the bound 10485760 bytes. |
| GoVault.New | govault.go:28-38 | There is no cache exactly when maxMB <= 0. Otherwise the result is fresh and valid, empty, has bound maxMB * 1048576, and charges each entry the estimate of its key plus that of its value. |
| SizeEstimator.Size | govault.go:127-176 | calculateSize as a recursive function over the shape: a pointer, slice or map costs at least its 8-byte handle, a string at least its 16-byte header, and only a struct or an array can cost nothing. |
| SizeEstimator.CalculateSize | govault.go:127-176 | The switch with its summing loops returns exactly the estimate Size: a handle plus the pointee for a pointer or interface, header plus length for a string, handle plus cap * 16 plus the elements for a slice, handle plus keys and values for a map, the sum of the parts for a struct or array, and 16 for any other kind. |
| SizeEstimator.EntrySize | govault.go:120-124 | The entry size, the key's estimate plus the value's, is what a two-field struct holding both is estimated at. |
| SizeEstimator.MapOrderIrrelevant | govault.go:148-154 | Two listings of the same key/value pairs in any order give the same map estimate, so MapKeys' order does not matter. |
| SizeEstimator.SumEntriesSplit | govault.go:151-153 | The map loop's total is the sum over its keys plus the sum over its values. |
| SizeEstimator.StructFlattening | govault.go:156-162 | A nested struct adds no overhead: it costs exactly what its fields cost written out in its place. |
| SizeEstimator.GrowsWithContent | govault.go:136-170 | One more struct field, array element or slice element adds exactly its own estimate. One more unit of slice capacity adds one interface header. A longer string costs more. |
| SizeEstimator.PartsBounded | govault.go:127-176 | A value's estimate is at least that of every part the estimator recurses into. |
| Recency.Without | govault.go:111 | list.Remove: the result holds exactly the other keys, has no duplicates if the input had none, and equals the input for an unlisted key. |
| Recency.Touch | govault.go:58-62 | MoveToFront or PushFront: the key is at the front, no other key is added or lost, and no duplicates appear. |
| Recency.RemovedOrder | govault.go:111 | In a list without duplicates, removing a key closes its gap: the result is the list before its position followed by the list after it. |
| Recency.Put | govault.go:50-65 | Set's update keeps the invariant (index equals list, no duplicates, total = sum of sizes). |
| Recency.PutEffect | govault.go:50-65 | After Set's update, the key is at the front with exactly the new entry. Every other key keeps its entry and no other key appears. The list grows by one only for a new key. The total moves by the new size minus the old (plus the new size for a new key). |
| Recency.EvictBack | govault.go:89-103 | evict removes the back key from list and index and subtracts its recorded size. On an empty list nothing changes. The invariant is kept. |
| Recency.Shrink | govault.go:67-70 | The eviction loop ends valid with total <= bound. |
| Recency.ShrinkKeepsPrefix | govault.go:67-70 | The loop only evicts least recently used keys: what remains is a prefix of the list, each key keeping its entry. |
| Recency.ShrinkIsMinimal | govault.go:67-70 | The loop evicts no more than it must: if it evicted anything, putting back the last evicted key would exceed the bound. |
| Recency.ShrinkFront | govault.go:67-70 | The front entry survives the loop exactly when its own size is within the bound. |
| Recency.Touched | govault.go:78-85 | Get on a present key moves it to the front. The other keys keep their relative order, and index and total are unchanged. An absent key changes nothing. |
| Recency.Remove | govault.go:110-115 | Delete on a present key removes it from list and index, lowers the total by exactly its recorded size, and leaves the other keys, their order and entries alone. An absent key changes nothing. |
| Recency.RemovedTotal | govault.go:110-114 | Taking a listed key out of list and index lowers the sum of recorded sizes by exactly its size. |
| Recency.SetThenGet | govault.go:60-81 | Round trip: if the entry fits within the bound on its own, the Set leaves it at the front, so a following Get returns the value just set. |
| Recency.SetOversized | govault.go:67-70 | An entry larger than the bound makes the loop evict everything, itself included: empty list and index, total 0. |
| Recency.SetOutcome | govault.go:42-71 | Set's outcome, according to whether the new entry fits on its own. |
| FixedSizeCache.New | govault/cache.go:26-36 | There is no cache exactly when maxMB <= 0. Otherwise it is empty and valid, has bound maxMB * 1048576, and charges every entry keyWidth + valueWidth. |
| FixedSizeCache.TotalIsCountTimesWidth | govault/cache.go:117-122 | With entries of one width, the total is the number of keys times that width. |
| FixedSizeCache.CountBound | govault/cache.go:66-68 | A valid state within the bound, with entries of one positive width w, holds at most bound / w keys. |
| FixedSizeCache.CacheCountBound | govault/cache.go:66-68 | A valid cache whose entry size is constant at a positive w never holds more than maxSize / w keys. |
| FixedSizeCache.UniformAfterSet | govault/cache.go:40-69 | Set's update and its eviction loop keep every recorded width equal to the constant one. |
| FixedSizeCache.UniformAfterOthers | govault/cache.go:72-114 | Get, evict and Delete keep every recorded width equal to the constant one. |
| FixedSizeCache.ResetEvictsNothing | govault/cache.go:48-56 | Setting a present key again leaves the total unchanged. It evicts nothing: only the key's position and value change. |
| FixedSizeCache.ShrinkCount | govault/cache.go:66-68 | With one width w, Set keeps all keys when they fit and otherwise exactly bound / w keys (which keys they are, a prefix of the list, is Recency.ShrinkKeepsPrefix). |
| Scenarios.LeastRecentlyUsedGoesFirst | govault.go:42-71 | With room for two entries, setting a, b, c evicts a (the least recently used) and leaves c in front of b with their values. |
| Scenarios.GetRefreshesRecency | govault.go:74-86 | Setting a and b, reading a, then setting c evicts b and not a. |
| Scenarios.SetThenDelete | govault_test.go:48-63 | After Set and Delete of one key the key is gone and the cache is empty again. |
| Scenarios.ExampleEntryFits | govault_test.go:17-31 | The examples' entry ("key-1" and a five-element []int) is estimated at 189 bytes, within the bound of New(10). |
| Overflow.Wrap64 | govault.go:36 | int64 arithmetic: the result is in range, congruent to the exact value modulo 2^64, and equal to it when it is in range. |
| Overflow.AsWrittenMaxSize | govault.go:36 | The bound as written, `maxMB * 1024 * 1024` with each product wrapped to int64: the result lies in the int64 range and agrees with the exact product modulo 2^64. The same expression is at govault/cache.go:34. |
| Overflow.AsWrittenAgreesBelowOverflow | govault.go:36 | For 0 < maxMB < 2^43 the wrapped bound equals the intended one. |
| Overflow.AsWrittenOverflows | govault.go:36 | For maxMB = 2^43 the wrapped bound is the most negative int64, while the intended bound is 2^63. |
| Overflow.EvictTimes | govault.go:68-69 | Any number of evictions keeps the invariant. |
| Overflow.AsWrittenSetNeverStops | govault.go:68-70 | With the wrapped bound, the total exceeds the bound after any number of evictions, and the list is empty once the evictions number at least its length, so the loop never ends. |

## Left out

- The `sync.Mutex` of both files: each public operation is one sequential, atomic method.
- The pointer structure of `container/list`: the list is a sequence of keys (front at index 0). `MoveToFront`, `PushFront`, `Remove` and `Back` are modelled by their effect on that sequence.
- The `list.Element` pointers in the index are not modelled. The index maps each key to its entry (value and recorded size). Updating the entry through the shared element becomes a map update.
- Runtime reflection: `reflect.ValueOf` becomes the `keyShape`/`valueShape` parameters of `GoVault.New`, which give the shape the estimator walks. `unsafe.Sizeof` of a static type becomes the `keyWidth`/`valueWidth` parameters of `FixedSizeCache.New`.
- Cyclic values: a `Shape` is finite. The source follows pointers without a cycle check and would not terminate on a cycle.
- GoVault.Cache: `currSize` and `maxSize` are unbounded integers. A running total above 2^63 - 1 bytes (int64 overflow of `CurrentSize`) is not modelled. The wrap-around of `New`'s product is modelled separately in `Overflow`.
- GoVault.New: takes the unbounded product as the bound. The int64 wrap for maxMB >= 2^43 is the finding below.
- GoVault.New: the panic for `maxMB <= 0` is the `None` result.
- SizeEstimator.CalculateSize: the estimate is an unbounded natural number. In Go, the product `int64(v.Cap())*16` (govault.go:142) and the `size +=` sums (govault.go:144, 152, 160, 168) wrap in int64. A slice capacity of 2^59 or more, reachable with a zero-size element type such as `make([]struct{}, 0, 1<<59)`, gives a negative or tiny estimate. Set would then lower `CurrentSize` and could let later entries exceed the byte bound. The model, and its non-negativity and growth lemmas (SizeEstimator.Size, SizeEstimator.GrowsWithContent, SizeEstimator.PartsBounded), hold only for estimates that stay within int64.
- FixedSizeCache.New: takes the unbounded product as the bound as well. govault/cache.go:34 wraps in int64 exactly as govault.go:36 does (the finding below applies to both).
- GoVault.Cache: stored values are treated as immutable. In Go the size is computed once, at Set (govault.go:47, 57, 61). A caller that later changes a stored pointer, slice or map leaves its recorded size stale, which the model does not capture.
- GoVault.Cache: key equality is assumed to be value equality, with every key equal to itself (Dafny's `==` on `K`). Go's `comparable` also admits float and interface keys. A NaN key never matches itself in `Store`: every Set adds a new map entry, Get never finds it, Delete does nothing, and evict's `delete` leaves its index entry behind, so the index and the list drift apart. An interface key whose dynamic value cannot be hashed makes the map lookup panic. Neither case is modelled.
- GoVault.Cache.Get: on a miss it returns an unconstrained value of type V. The zero value of a Go type has no counterpart for a generic Dafny type.
- GoVault.Cache.Set: is split into `Update`, `Insert` and `EvictUntilWithin`, one per part of the source's body. The composition is `Set` itself.
- The demo program examples/main.go is not part of this model.

## Findings

| source | as written | input that shows it | evidently intended | confidence | as-written member | corrected member |
|---|---|---|---|---|---|---|
| govault.go:36 (also govault/cache.go:34) | `MaxSize: maxMB * 1024 * 1024` in int64, after checking only `maxMB <= 0` | maxMB = 8796093022208 (2^43): the product wraps to -9223372036854775808, and Set's loop `for CurrentSize > MaxSize` then never ends, since evict on an empty list changes nothing | a positive bound of maxMB megabytes, or a rejected maxMB | not executed | Overflow.AsWrittenMaxSize, Overflow.AsWrittenOverflows, Overflow.AsWrittenSetNeverStops | GoVault.CapacityBytes |
