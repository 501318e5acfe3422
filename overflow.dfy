/**
 The int64 arithmetic of New in both govault.go and govault/cache.go: the bound is
 maxMB * 1024 * 1024 computed in Go's wrapping 64-bit integers. The class model uses
 the unbounded product (GoVault.CapacityBytes); this module shows where the two part
 ways and what the wrapped bound does to Set.
 */
module Overflow {
  import opened Wrappers
  import opened Recency
  import opened GoVault

  /** The range of Go's int64 and the modulus of its wrap-around. */
  const Int64Min: int := -0x8000_0000_0000_0000
  const Int64Span: int := 0x1_0000_0000_0000_0000

  /** Go's int64 arithmetic: the result is taken modulo 2^64 into the signed range. */
  function Wrap64(x: int): (r: int)
    ensures Int64Min <= r < Int64Min + Int64Span
    ensures (r - x) % Int64Span == 0
    ensures Int64Min <= x < Int64Min + Int64Span ==> r == x
  {
    (x - Int64Min) % Int64Span + Int64Min
  }

  /**
   MaxSize as New writes it: maxMB * 1024 * 1024, each product wrapped to int64. The
   result is in the int64 range and agrees with the exact product modulo 2^64.
   */
  function AsWrittenMaxSize(maxMB: int): (r: int)
    ensures Int64Min <= r < Int64Min + Int64Span
    ensures (r - maxMB * MiB) % Int64Span == 0
  {
    var once := Wrap64(maxMB * 1024);
    var r := Wrap64(once * 1024);
    WrapTwice(maxMB * 1024, once, r);
    r
  }

  /** Wrapping after each of two products still agrees with the exact product modulo 2^64. */
  lemma WrapTwice(x: int, once: int, r: int)
    requires once == Wrap64(x) && r == Wrap64(once * 1024)
    ensures (r - x * 1024) % Int64Span == 0
  {
    ScaledCongruence(once, x, 1024);
    CongruenceTransitive(r, once * 1024, x * 1024);
  }

  /** Scaling both sides of a congruence modulo 2^64 keeps them congruent. */
  lemma ScaledCongruence(a: int, b: int, c: int)
    requires (a - b) % Int64Span == 0
    ensures (a * c - b * c) % Int64Span == 0
  {
    var q := (a - b) / Int64Span;
    assert a - b == q * Int64Span;
    assert a * c - b * c == (q * c) * Int64Span;
  }

  lemma CongruenceTransitive(a: int, b: int, c: int)
    requires (a - b) % Int64Span == 0 && (b - c) % Int64Span == 0
    ensures (a - c) % Int64Span == 0
  {
    var p, q := (a - b) / Int64Span, (b - c) / Int64Span;
    assert a - c == (p + q) * Int64Span;
  }

  /** Below 2^43 megabytes the products stay in range and New's bound is the intended one. */
  lemma AsWrittenAgreesBelowOverflow(maxMB: int)
    requires 0 < maxMB < 0x800_0000_0000
    ensures AsWrittenMaxSize(maxMB) == CapacityBytes(maxMB).value
  {
    assert maxMB * 1024 < 0x20_0000_0000_0000;
    assert maxMB * 1024 * 1024 < 0x8000_0000_0000_0000;
  }

  /**
   The overflow: a positive maxMB of 2^43 passes New's check but makes the bound
   the most negative int64, while the intended bound is positive.
   */
  lemma AsWrittenOverflows()
    ensures AsWrittenMaxSize(0x800_0000_0000) == Int64Min < 0
    ensures CapacityBytes(0x800_0000_0000) == Some(0x8000_0000_0000_0000)
  {
  }

  /** The state after n turns of Set's eviction loop. */
  ghost function EvictTimes<K, V>(st: State<K, V>, n: nat): (r: State<K, V>)
    requires Recency.Valid(st)
    ensures Recency.Valid(r)
    decreases n
  {
    if n == 0 then st else EvictTimes(EvictBack(st), n - 1)
  }

  /**
   With the overflowed bound, Set's loop `for CurrentSize > MaxSize` never stops:
   however many evictions run, the total (never negative) still exceeds the bound,
   and once the list is empty evict changes nothing.
   */
  lemma {:induction false} AsWrittenSetNeverStops<K, V>(st: State<K, V>, n: nat)
    requires Recency.Valid(st)
    ensures EvictTimes(st, n).total > AsWrittenMaxSize(0x800_0000_0000)
    ensures n >= |st.order| ==> EvictTimes(st, n).order == []
    decreases n
  {
    AsWrittenOverflows();
    if n > 0 {
      AsWrittenSetNeverStops(EvictBack(st), n - 1);
    }
  }
}
