/**
 The recursive size estimator of govault.go (calculateSize and calculateEntrySize).

 The source walks a value with runtime reflection. Here the value is given by its
 shape, a closed datatype with one variant per case of the estimator's switch. The
 byte counts that the source obtains from unsafe.Sizeof are the constants of a
 64-bit platform. unsafe.Sizeof never evaluates its argument, so the calls written
 inside it (v.Pointer(), v.Index(0), v.Interface()) contribute their static type's
 size only: a pointer handle is a uintptr and every element or opaque value counts
 as one interface header.
 */
module SizeEstimator {
  import opened Wrappers

  /** unsafe.Sizeof of a uintptr (the result of v.Pointer()). */
  const PointerSize: nat := 8
  /** unsafe.Sizeof of a string header. */
  const StringHeader: nat := 16
  /** unsafe.Sizeof of an interface value (the result of v.Interface()). */
  const InterfaceSize: nat := 16

  /**
   The shape of a Go value as the estimator's switch on v.Kind() sees it. A Go slice
   always has at most cap live elements; the datatype does not require this, so the
   estimate and its lemmas are stated over a wider domain that includes every slice
   Go can produce.
   */
  datatype Shape =
    | Ptr(target: Option<Shape>)           // reflect.Ptr or reflect.Interface; None is nil
    | Str(byteLen: nat)                    // reflect.String with its length in bytes
    | Slice(cap: nat, elems: seq<Shape>)   // reflect.Slice: capacity and the live elements
    | Map(entries: seq<(Shape, Shape)>)    // reflect.Map: its key/value pairs, in any order
    | Struct(fields: seq<Shape>)           // reflect.Struct
    | Array(elems: seq<Shape>)             // reflect.Array
    | Basic                                // every other kind (numbers, bools, channels, ...)

  /**
   calculateSize: the estimated footprint of a value in bytes. Every kind with a
   handle or header costs at least that handle or header; only a struct or an array
   (which add no header of their own) can cost nothing.
   */
  function Size(v: Shape): (r: nat)
    ensures v.Ptr? || v.Slice? || v.Map? ==> r >= PointerSize
    ensures v.Str? ==> r >= StringHeader
    ensures r == 0 ==> v.Struct? || v.Array?
    decreases v
  {
    match v
    case Ptr(None) => PointerSize
    case Ptr(Some(w)) => PointerSize + Size(w)
    case Str(n) => StringHeader + n
    case Slice(cap, elems) => PointerSize + cap * InterfaceSize + SumSizes(elems)
    case Map(entries) => PointerSize + SumEntries(entries)
    case Struct(fields) => SumSizes(fields)
    case Array(elems) => SumSizes(elems)
    case Basic => InterfaceSize
  }

  /** The `size +=` loop over slice elements, struct fields and array elements. */
  function SumSizes(vs: seq<Shape>): nat
    decreases vs
  {
    if vs == [] then 0 else Size(vs[0]) + SumSizes(vs[1..])
  }

  /** The `size +=` loop over the keys of a map, adding each key's and value's size. */
  function SumEntries(es: seq<(Shape, Shape)>): nat
    decreases es
  {
    if es == [] then 0 else PairSize(es[0]) + SumEntries(es[1..])
  }

  /** One iteration of the map loop: the size of a key plus the size of its value. */
  function PairSize(e: (Shape, Shape)): nat
    decreases e
  {
    Size(e.0) + Size(e.1)
  }

  /**
   calculateSize as the source runs it: a switch on the kind, where a slice, a map,
   a struct and an array each add up their parts in a loop that recurses into every
   part. It computes exactly the estimate Size.
   */
  method CalculateSize(v: Shape) returns (size: nat)
    ensures size == Size(v)
    decreases v
  {
    match v
    case Ptr(None) =>
      size := PointerSize;
    case Ptr(Some(w)) =>
      var inner := CalculateSize(w);
      size := PointerSize + inner;
    case Str(n) =>
      size := StringHeader + n;
    case Slice(cap, elems) =>
      size := PointerSize + cap * InterfaceSize;
      for i := 0 to |elems|
        invariant size == PointerSize + cap * InterfaceSize + SumSizes(elems[..i])
      {
        var part := CalculateSize(elems[i]);
        SumSizesSnoc(elems, i);
        size := size + part;
      }
      assert elems[..|elems|] == elems;
    case Map(entries) =>
      size := PointerSize;
      for i := 0 to |entries|
        invariant size == PointerSize + SumEntries(entries[..i])
      {
        var e := entries[i];
        var keySize := CalculateSize(e.0);
        var valueSize := CalculateSize(e.1);
        SumEntriesSnoc(entries, i);
        size := size + keySize + valueSize;
      }
      assert entries[..|entries|] == entries;
    case Struct(fields) =>
      size := 0;
      for i := 0 to |fields|
        invariant size == SumSizes(fields[..i])
      {
        var part := CalculateSize(fields[i]);
        SumSizesSnoc(fields, i);
        size := size + part;
      }
      assert fields[..|fields|] == fields;
    case Array(elems) =>
      size := 0;
      for i := 0 to |elems|
        invariant size == SumSizes(elems[..i])
      {
        var part := CalculateSize(elems[i]);
        SumSizesSnoc(elems, i);
        size := size + part;
      }
      assert elems[..|elems|] == elems;
    case Basic =>
      size := InterfaceSize;
  }

  /** One more turn of a summing loop adds the next part's estimate. */
  lemma SumSizesSnoc(vs: seq<Shape>, i: nat)
    requires i < |vs|
    ensures SumSizes(vs[..i + 1]) == SumSizes(vs[..i]) + Size(vs[i])
  {
    assert vs[..i + 1] == vs[..i] + [vs[i]];
    assert [vs[i]][1..] == [];
    SumSizesAppend(vs[..i], [vs[i]]);
  }

  lemma SumEntriesSnoc(es: seq<(Shape, Shape)>, i: nat)
    requires i < |es|
    ensures SumEntries(es[..i + 1]) == SumEntries(es[..i]) + Size(es[i].0) + Size(es[i].1)
  {
    assert es[..i + 1] == es[..i] + [es[i]];
    assert [es[i]][1..] == [];
    SumEntriesAppend(es[..i], [es[i]]);
  }

  /**
   calculateEntrySize: a key and its value are estimated separately and added, which
   is what a two-field record holding both would cost.
   */
  function EntrySize(key: Shape, value: Shape): (r: nat)
    ensures r == Size(Struct([key, value]))
  {
    assert [key, value][1..] == [value] && SumSizes([value]) == Size(value);
    Size(key) + Size(value)
  }

  /** The values one level below v that the estimator recurses into. */
  function Parts(v: Shape): seq<Shape>
  {
    match v
    case Ptr(None) => []
    case Ptr(Some(w)) => [w]
    case Str(_) => []
    case Slice(_, elems) => elems
    case Map(entries) => Keys(entries) + Values(entries)
    case Struct(fields) => fields
    case Array(elems) => elems
    case Basic => []
  }

  function Keys(es: seq<(Shape, Shape)>): (r: seq<Shape>)
    ensures |r| == |es| && forall i :: 0 <= i < |es| ==> r[i] == es[i].0
  {
    if es == [] then [] else [es[0].0] + Keys(es[1..])
  }

  function Values(es: seq<(Shape, Shape)>): (r: seq<Shape>)
    ensures |r| == |es| && forall i :: 0 <= i < |es| ==> r[i] == es[i].1
  {
    if es == [] then [] else [es[0].1] + Values(es[1..])
  }

  lemma {:induction false} SumSizesAppend(a: seq<Shape>, b: seq<Shape>)
    ensures SumSizes(a + b) == SumSizes(a) + SumSizes(b)
  {
    if a != [] {
      assert (a + b)[1..] == a[1..] + b;
      SumSizesAppend(a[1..], b);
    } else {
      assert a + b == b;
    }
  }

  lemma {:induction false} SumEntriesAppend(a: seq<(Shape, Shape)>, b: seq<(Shape, Shape)>)
    ensures SumEntries(a + b) == SumEntries(a) + SumEntries(b)
  {
    if a != [] {
      assert (a + b)[1..] == a[1..] + b;
      SumEntriesAppend(a[1..], b);
    } else {
      assert a + b == b;
    }
  }

  /** The map loop's total is the sum over the keys plus the sum over the values. */
  lemma {:induction false} SumEntriesSplit(es: seq<(Shape, Shape)>)
    ensures SumEntries(es) == SumSizes(Keys(es)) + SumSizes(Values(es))
  {
    if es != [] {
      SumEntriesSplit(es[1..]);
    }
  }

  /**
   The estimate of a map does not depend on the order in which MapKeys returns its
   keys: any two listings of the same key/value pairs give the same size.
   */
  lemma {:induction false} MapOrderIrrelevant(p: seq<(Shape, Shape)>, q: seq<(Shape, Shape)>)
    requires multiset(p) == multiset(q)
    ensures Size(Map(p)) == Size(Map(q))
  {
    SumEntriesPermutation(p, q);
  }

  lemma {:induction false} SumEntriesPermutation(p: seq<(Shape, Shape)>, q: seq<(Shape, Shape)>)
    requires multiset(p) == multiset(q)
    ensures SumEntries(p) == SumEntries(q)
    decreases |p|
  {
    if p == [] {
      assert |q| == |multiset(q)| == 0;
    } else {
      assert p[0] in multiset(q);
      var i :| 0 <= i < |q| && q[i] == p[0];
      var rest := q[..i] + q[i + 1..];
      MultisetRemoveAt(p, q, i);
      SumEntriesPermutation(p[1..], rest);
      SumEntriesRemoveAt(q, i);
    }
  }

  lemma MultisetRemoveAt<T>(p: seq<T>, q: seq<T>, i: nat)
    requires p != [] && i < |q| && q[i] == p[0] && multiset(p) == multiset(q)
    ensures multiset(p[1..]) == multiset(q[..i] + q[i + 1..])
  {
    var a, b := q[..i], q[i + 1..];
    assert q == a + [q[i]] + b;
    assert p == [p[0]] + p[1..];
    calc {
      multiset(p[1..]);
      multiset(p) - multiset{p[0]};
      multiset(a + [q[i]] + b) - multiset{q[i]};
      multiset(a) + multiset(b);
      multiset(a + b);
    }
  }

  lemma {:induction false} SumEntriesRemoveAt(q: seq<(Shape, Shape)>, i: nat)
    requires i < |q|
    ensures SumEntries(q) == PairSize(q[i]) + SumEntries(q[..i] + q[i + 1..])
  {
    if i == 0 {
      assert q[..0] + q[1..] == q[1..];
    } else {
      var tail := q[1..];
      SumEntriesRemoveAt(tail, i - 1);
      var rest := q[..i] + q[i + 1..];
      assert rest[0] == q[0];
      assert rest[1..] == tail[..i - 1] + tail[i..];
    }
  }

  /**
   A struct contributes no header of its own: a struct field that is itself a struct
   costs exactly what its fields would cost if they were written out in its place.
   */
  lemma StructFlattening(before: seq<Shape>, inner: seq<Shape>, after: seq<Shape>)
    ensures Size(Struct(before + [Struct(inner)] + after)) == Size(Struct(before + inner + after))
  {
    SumSizesAppend(before + [Struct(inner)], after);
    SumSizesAppend(before, [Struct(inner)]);
    SumSizesAppend(before + inner, after);
    SumSizesAppend(before, inner);
  }

  /**
   Growth: appending an element to a struct, an array or the live part of a slice
   adds exactly that element's estimate; a slice's spare capacity costs one
   interface header per slot; a longer string costs more.
   */
  lemma GrowsWithContent(vs: seq<Shape>, e: Shape, cap: nat, n: nat)
    ensures Size(Struct(vs + [e])) == Size(Struct(vs)) + Size(e)
    ensures Size(Array(vs + [e])) == Size(Array(vs)) + Size(e)
    ensures Size(Slice(cap, vs + [e])) == Size(Slice(cap, vs)) + Size(e)
    ensures Size(Slice(cap + 1, vs)) == Size(Slice(cap, vs)) + InterfaceSize
    ensures Size(Str(n)) < Size(Str(n + 1))
  {
    SumSizesAppend(vs, [e]);
  }

  lemma {:induction false} SumSizesBoundsElement(vs: seq<Shape>, i: nat)
    requires i < |vs|
    ensures Size(vs[i]) <= SumSizes(vs)
  {
    if i > 0 {
      SumSizesBoundsElement(vs[1..], i - 1);
    }
  }

  /** The estimate of a value is at least the estimate of every part it recurses into. */
  lemma PartsBounded(v: Shape, w: Shape)
    requires w in Parts(v)
    ensures Size(w) <= Size(v)
  {
    var i :| 0 <= i < |Parts(v)| && Parts(v)[i] == w;
    match v
    case Ptr(_) =>
    case Slice(_, elems) => SumSizesBoundsElement(elems, i);
    case Map(entries) =>
      SumEntriesSplit(entries);
      SumSizesAppend(Keys(entries), Values(entries));
      SumSizesBoundsElement(Keys(entries) + Values(entries), i);
    case Struct(fields) => SumSizesBoundsElement(fields, i);
    case Array(elems) => SumSizesBoundsElement(elems, i);
  }
}
