/**
 Heapsort in place, external/irrxml/heapsort.hpp:15-65. Nodes are counted from 1, as the shifted array pointer of the
 source does: node p is element p - 1. The order is any strict weak order, given by `less`.
 */
module Heapsort {
  // ----- Order -----

  /** What operator< of the element type has to be. */
  ghost predicate StrictWeak<T(!new)>(less: (T, T) -> bool) {
    && (forall x, y :: less(x, y) ==> !less(y, x))
    && forall x, y, z :: !less(x, y) && !less(y, z) ==> !less(x, z)
  }

  predicate AtMost<T>(less: (T, T) -> bool, x: T, y: T) {
    !less(y, x)
  }

  ghost predicate Sorted<T>(less: (T, T) -> bool, s: seq<T>) {
    forall i, j :: 0 <= i <= j < |s| ==> AtMost(less, s[i], s[j])
  }

  ghost predicate Below<T>(less: (T, T) -> bool, s: seq<T>, t: seq<T>) {
    forall x, y :: x in s && y in t ==> AtMost(less, x, y)
  }

  // ----- Swapping -----

  function Swapped<T>(v: seq<T>, i: nat, j: nat): (r: seq<T>)
    requires i < |v| && j < |v|
    ensures |r| == |v|
  {
    v[i := v[j]][j := v[i]]
  }

  ghost predicate Permutation<T>(s: seq<T>, t: seq<T>) {
    multiset(s) == multiset(t)
  }

  lemma SwappedPermutes<T>(v: seq<T>, i: nat, j: nat)
    requires i < |v| && j < |v|
    ensures Permutation(Swapped(v, i, j), v)
  {
  }

  /** Exchanging elements before place n. */
  method Swap<T>(a: array<T>, i: nat, j: nat, ghost n: nat)
    requires i < n <= a.Length && j < n
    modifies a
    ensures a[..] == Swapped(old(a[..]), i, j)
    ensures Permutation(a[..], old(a[..])) && a[n..] == old(a[n..])
  {
    SwappedPermutes(a[..], i, j);
    a[i], a[j] := a[j], a[i];
    assert a[..] == Swapped(old(a[..]), i, j);
  }

  lemma PermutationTail<T>(s: seq<T>, t: seq<T>, n: nat)
    requires Permutation(s, t) && n <= |s| == |t| && s[n..] == t[n..]
    ensures Permutation(s[..n], t[..n])
  {
    assert s == s[..n] + s[n..] && t == t[..n] + t[n..];
    assert multiset(s[..n]) == multiset(s) - multiset(s[n..]);
    assert multiset(t[..n]) == multiset(t) - multiset(t[n..]);
  }

  lemma SameMembers<T>(s: seq<T>, t: seq<T>)
    requires Permutation(s, t)
    ensures forall x :: x in s <==> x in t
  {
    forall x
      ensures x in s <==> x in t
    {
      assert x in s <==> x in multiset(s);
      assert x in t <==> x in multiset(t);
    }
  }

  // ----- Heaps -----

  /** Node p is not below its children, among the nodes less than max. */
  ghost predicate NodeOk<T>(less: (T, T) -> bool, v: seq<T>, p: nat, max: nat)
    requires 1 <= p && max <= |v| + 1
  {
    && (2 * p < max ==> AtMost(less, v[2 * p - 1], v[p - 1]))
    && (2 * p + 1 < max ==> AtMost(less, v[2 * p], v[p - 1]))
  }

  /** All nodes from lo on are in order, but perhaps node e. */
  ghost predicate HeapBut<T>(less: (T, T) -> bool, v: seq<T>, lo: nat, e: nat, max: nat)
    requires 1 <= lo && max <= |v| + 1
  {
    forall p :: lo <= p < max && p != e ==> NodeOk(less, v, p, max)
  }

  ghost predicate Heap<T>(less: (T, T) -> bool, v: seq<T>, lo: nat, max: nat)
    requires 1 <= lo && max <= |v| + 1
  {
    forall p :: lo <= p < max ==> NodeOk(less, v, p, max)
  }

  /** The children of e are not above q, the parent of e. */
  ghost predicate ParentOk<T>(less: (T, T) -> bool, v: seq<T>, q: nat, e: nat, max: nat)
    requires 1 <= q < e && max <= |v| + 1
  {
    && (2 * e < max ==> AtMost(less, v[2 * e - 1], v[q - 1]))
    && (2 * e + 1 < max ==> AtMost(less, v[2 * e], v[q - 1]))
  }

  /** The state of the loop: order is disturbed at e at most, and what hangs below e fits its parent q. */
  ghost predicate Sinking<T>(less: (T, T) -> bool, v: seq<T>, lo: nat, q: nat, e: nat, max: nat)
    requires 1 <= lo && max <= |v| + 1
  {
    && HeapBut(less, v, lo, e, max)
    && (e == lo || (lo <= q < e && 2 * q <= e <= 2 * q + 1 && ParentOk(less, v, q, e, max)))
  }

  /** The larger child of e. */
  predicate LargerChild<T>(less: (T, T) -> bool, v: seq<T>, e: nat, j: nat, max: nat)
    requires 1 <= e && 2 * e < max <= |v| + 1
  {
    && 2 * e <= j <= 2 * e + 1 && j < max
    && AtMost(less, v[2 * e - 1], v[j - 1])
    && (2 * e + 1 < max ==> AtMost(less, v[2 * e], v[j - 1]))
  }

  lemma SinkStep<T(!new)>(less: (T, T) -> bool, v: seq<T>, lo: nat, q: nat, e: nat, j: nat, max: nat)
    requires StrictWeak(less) && 1 <= lo <= e && 2 * e < max <= |v| + 1
    requires Sinking(less, v, lo, q, e, max) && LargerChild(less, v, e, j, max) && less(v[e - 1], v[j - 1])
    ensures Sinking(less, Swapped(v, e - 1, j - 1), lo, e, j, max)
  {
    var w := Swapped(v, e - 1, j - 1);
    forall p | lo <= p < max && p != j
      ensures NodeOk(less, w, p, max)
    {
      if p == e {
      } else if e != lo && p == q {
        assert NodeOk(less, v, p, max);
      } else {
        assert NodeOk(less, v, p, max);
      }
    }
    assert NodeOk(less, v, j, max);
  }

  lemma SinkEnd<T(!new)>(less: (T, T) -> bool, v: seq<T>, lo: nat, q: nat, e: nat, j: nat, max: nat)
    requires StrictWeak(less) && 1 <= lo <= e && max <= |v| + 1 && Sinking(less, v, lo, q, e, max)
    requires 2 * e < max ==> LargerChild(less, v, e, j, max) && !less(v[e - 1], v[j - 1])
    ensures Heap(less, v, lo, max)
  {
  }

  /** The exchange in the loop of heapsink. */
  method SinkOne<T(!new)>(less: (T, T) -> bool, a: array<T>, ghost lo: nat, ghost q: nat, e: nat, j: nat,
                          ghost max: nat)
    requires StrictWeak(less) && 1 <= lo <= e && 2 * e < max <= a.Length + 1
    requires Sinking(less, a[..], lo, q, e, max) && LargerChild(less, a[..], e, j, max) && less(a[e - 1], a[j - 1])
    modifies a
    ensures Sinking(less, a[..], lo, e, j, max)
    ensures Permutation(a[..], old(a[..])) && a[max - 1..] == old(a[max - 1..])
  {
    SinkStep(less, a[..], lo, q, e, j, max);
    Swap(a, e - 1, j - 1, max - 1);
  }

  method ChooseChild<T>(less: (T, T) -> bool, a: array<T>, e: nat, max: nat) returns (j: nat)
    requires 1 <= e && 2 * e < max <= a.Length + 1
    requires forall x, y | x in a[..] && y in a[..] :: less(x, y) ==> !less(y, x)
    ensures LargerChild(less, a[..], e, j, max)
  {
    j := 2 * e;
    if j + 1 < max && less(a[j - 1], a[j]) {
      j := j + 1;
    }
  }

  /** heapsink. */
  method HeapSink<T(!new)>(less: (T, T) -> bool, a: array<T>, element: nat, max: nat)
    requires StrictWeak(less) && 1 <= element && 1 <= max <= a.Length + 1
    requires HeapBut(less, a[..], element, element, max)
    modifies a
    ensures Heap(less, a[..], element, max)
    ensures Permutation(a[..], old(a[..])) && a[max - 1..] == old(a[max - 1..])
  {
    var e: nat := element;
    ghost var q: nat := 0;
    while 2 * e < max
      invariant element <= e && Sinking(less, a[..], element, q, e, max)
      invariant Permutation(a[..], old(a[..])) && a[max - 1..] == old(a[max - 1..])
      decreases max - e
    {
      var j := ChooseChild(less, a, e, max);
      if !less(a[e - 1], a[j - 1]) {
        SinkEnd(less, a[..], element, q, e, j, max);
        return;
      }
      SinkOne(less, a, element, q, e, j, max);
      q, e := e, j;
    }
    SinkEnd(less, a[..], element, q, e, e, max);
  }

  // ----- Sorting -----

  /** The root of a heap is not below any of its nodes. */
  lemma {:induction false} RootIsLargest<T(!new)>(less: (T, T) -> bool, v: seq<T>, p: nat, max: nat)
    requires StrictWeak(less) && 1 <= p < max <= |v| + 1 && Heap(less, v, 1, max)
    ensures AtMost(less, v[p - 1], v[0])
  {
    if p > 1 {
      var q := p / 2;
      RootIsLargest(less, v, q, max);
      assert NodeOk(less, v, q, max);
    }
  }

  /** The first n elements form a heap, the others are sorted and not below the first. */
  ghost predicate Sorting<T>(less: (T, T) -> bool, v: seq<T>, n: nat) {
    && n <= |v| && Heap(less, v, 1, n + 1)
    && Sorted(less, v[n..]) && Below(less, v[..n], v[n..])
  }

  /** The root goes to the end of the heap. */
  lemma RootToEnd<T(!new)>(less: (T, T) -> bool, v: seq<T>, n: nat)
    requires StrictWeak(less) && 1 <= n && Sorting(less, v, n)
    ensures var w := Swapped(v, 0, n - 1);
            HeapBut(less, w, 1, 1, n) && Sorted(less, w[n - 1..]) && Below(less, w[..n - 1], w[n - 1..])
  {
    var w := Swapped(v, 0, n - 1);
    forall p | 1 <= p < n && p != 1
      ensures NodeOk(less, w, p, n)
    {
      assert NodeOk(less, v, p, n + 1);
    }
    forall i | 0 <= i < n
      ensures AtMost(less, v[i], v[0])
    {
      RootIsLargest(less, v, i + 1, n + 1);
    }
    assert w[n - 1..] == [v[0]] + v[n..];
    assert v[0] in v[..n];
    forall x | x in w[..n - 1]
      ensures x in v[..n] && AtMost(less, x, v[0])
    {
      var i :| 0 <= i < n - 1 && w[i] == x;
      assert x == v[if i == 0 then n - 1 else i];
      assert x == v[..n][if i == 0 then n - 1 else i];
    }
  }

  /** Sinking the new root leaves the rest of the invariant alone. */
  lemma SunkRoot<T(!new)>(less: (T, T) -> bool, w: seq<T>, x: seq<T>, n: nat)
    requires n <= |w| == |x| && Permutation(x, w) && x[n..] == w[n..] && Heap(less, x, 1, n + 1)
    requires Sorted(less, w[n..]) && Below(less, w[..n], w[n..])
    ensures Sorting(less, x, n)
  {
    PermutationTail(x, w, n);
    SameMembers(x[..n], w[..n]);
  }

  /** The order among the first nodes does not depend on what lies behind them. */
  lemma HeapOfPrefix<T>(less: (T, T) -> bool, v: seq<T>, lo: nat, e: nat, max: nat, size: nat)
    requires 1 <= lo && max <= size + 1 && size <= |v|
    ensures HeapBut(less, v, lo, e, max) <==> HeapBut(less, v[..size], lo, e, max)
  {
    forall p | lo <= p < max
      ensures NodeOk(less, v, p, max) <==> NodeOk(less, v[..size], p, max)
    {
    }
  }

  lemma HeapIsHeapBut<T>(less: (T, T) -> bool, v: seq<T>, lo: nat, e: nat, max: nat)
    requires 1 <= lo && max <= |v| + 1 && (e < lo || max <= e)
    ensures Heap(less, v, lo, max) <==> HeapBut(less, v, lo, e, max)
  {
  }

  /** The first loop. It starts at (size - 1) / 2, which in C is 0 for an empty array. */
  method BuildHeap<T(!new)>(less: (T, T) -> bool, a: array<T>, size: nat)
    requires StrictWeak(less) && size <= a.Length
    modifies a
    ensures Heap(less, a[..], 1, size + 1)
    ensures Permutation(a[..], old(a[..])) && a[size..] == old(a[size..])
  {
    var i: int := if size == 0 then 0 else (size - 1) / 2;
    while i >= 0
      invariant -1 <= i && Heap(less, a[..], i + 2, size + 1)
      invariant Permutation(a[..], old(a[..])) && a[size..] == old(a[size..])
    {
      HeapIsHeapBut(less, a[..], i + 2, i + 1, size + 1);
      HeapSink(less, a, i + 1, size + 1);
      i := i - 1;
    }
  }

  /** What changed only before place n - 1 changed only before place size. */
  lemma TailOfTail<T>(y: seq<T>, w: seq<T>, k: nat, size: nat)
    requires Permutation(y, w) && k <= size <= |y| == |w| && y[k..] == w[k..]
    ensures Permutation(y[..size], w[..size]) && y[..size][k..] == w[..size][k..] && y[size..] == w[size..]
  {
    assert y[size..] == y[k..][size - k..] && w[size..] == w[k..][size - k..];
    PermutationTail(y, w, size);
    assert y[..size][k..] == y[k..][..size - k] && w[..size][k..] == w[k..][..size - k];
  }

  lemma SunkInPlace<T(!new)>(less: (T, T) -> bool, w: seq<T>, y: seq<T>, k: nat, size: nat)
    requires k <= size <= |w| == |y| && Permutation(y, w) && y[k..] == w[k..] && Heap(less, y, 1, k + 1)
    requires Sorted(less, w[..size][k..]) && Below(less, w[..size][..k], w[..size][k..])
    ensures Sorting(less, y[..size], k) && y[size..] == w[size..]
  {
    TailOfTail(y, w, k, size);
    HeapIsHeapBut(less, y, 1, 0, k + 1);
    HeapOfPrefix(less, y, 1, 0, k + 1, size);
    HeapIsHeapBut(less, y[..size], 1, 0, k + 1);
    SunkRoot(less, w[..size], y[..size], k);
  }

  method RootSwapped<T(!new)>(ghost less: (T, T) -> bool, a: array<T>, ghost size: nat, n: nat)
    requires 1 <= n <= size <= a.Length
    requires var w := Swapped(a[..size], 0, n - 1);
             HeapBut(less, w, 1, 1, n) && Sorted(less, w[n - 1..]) && Below(less, w[..n - 1], w[n - 1..])
    modifies a
    ensures HeapBut(less, a[..], 1, 1, n)
    ensures Sorted(less, a[..size][n - 1..]) && Below(less, a[..size][..n - 1], a[..size][n - 1..])
    ensures Permutation(a[..], old(a[..])) && a[size..] == old(a[size..])
  {
    ghost var v := a[..size];
    Swap(a, 0, n - 1, size);
    assert a[..size] == Swapped(v, 0, n - 1);
    HeapOfPrefix(less, a[..], 1, 1, n, size);
  }

  /** The second loop so far: `v` is a permutation of `before` up to place `size`, and sorted from place n on. */
  ghost predicate SortedDownTo<T>(less: (T, T) -> bool, before: seq<T>, v: seq<T>, size: nat, n: nat) {
    && n <= size <= |v| == |before| && Sorting(less, v[..size], n)
    && Permutation(v, before) && v[size..] == before[size..]
  }

  lemma HeapBegins<T>(less: (T, T) -> bool, before: seq<T>, v: seq<T>, size: nat)
    requires size <= |v| == |before| && Heap(less, v, 1, size + 1)
    requires Permutation(v, before) && v[size..] == before[size..]
    ensures SortedDownTo(less, before, v, size, size)
  {
    HeapIsHeapBut(less, v, 1, 0, size + 1);
    HeapOfPrefix(less, v, 1, 0, size + 1, size);
    HeapIsHeapBut(less, v[..size], 1, 0, size + 1);
  }

  lemma SortedAtEnd<T>(less: (T, T) -> bool, before: seq<T>, v: seq<T>, size: nat)
    requires SortedDownTo(less, before, v, size, 0)
    ensures Sorted(less, v[..size]) && Permutation(v[..size], before[..size])
  {
    assert v[..size][0..] == v[..size];
    PermutationTail(v, before, size);
  }

  lemma SortedFurther<T>(less: (T, T) -> bool, before: seq<T>, v: seq<T>, w: seq<T>, size: nat, n: nat)
    requires 1 <= n && SortedDownTo(less, before, v, size, n) && |w| == |v| && Sorting(less, w[..size], n - 1)
    requires Permutation(w, v) && w[size..] == v[size..]
    ensures SortedDownTo(less, before, w, size, n - 1)
  {
  }

  /** One turn of the second loop. */
  method SortOne<T(!new)>(less: (T, T) -> bool, a: array<T>, size: nat, n: nat, ghost before: seq<T>)
    requires StrictWeak(less) && 1 <= n && SortedDownTo(less, before, a[..], size, n)
    modifies a
    ensures SortedDownTo(less, before, a[..], size, n - 1)
  {
    ghost var v := a[..];
    RootToEnd(less, v[..size], n);
    RootSwapped(less, a, size, n);
    ghost var w := a[..];
    HeapSink(less, a, 1, n);
    SunkInPlace(less, w, a[..], n - 1, size);
    SortedFurther(less, before, v, a[..], size, n);
  }

  /** heapsort. */
  method HeapSort<T(!new)>(less: (T, T) -> bool, a: array<T>, size: nat)
    requires StrictWeak(less) && size <= a.Length
    modifies a
    ensures Sorted(less, a[..size]) && Permutation(a[..size], old(a[..size])) && a[size..] == old(a[size..])
  {
    ghost var before := a[..];
    BuildHeap(less, a, size);
    HeapBegins(less, before, a[..], size);
    var i: int := size - 1;
    while i >= 0
      invariant -1 <= i < size && SortedDownTo(less, before, a[..], size, i + 1)
    {
      SortOne(less, a, size, i + 1, before);
      i := i - 1;
    }
    SortedAtEnd(less, before, a[..], size);
    assert a[..][..size] == a[..size] && before[..size] == old(a[..size]);
    assert a[..][size..] == a[size..] && before[size..] == old(a[size..]);
  }
}
