/**
 The growing array of external/irrxml/irrArray.hpp:20-419, which remembers whether it is sorted. Its sizes are taken
 to stay far from the limits of 32-bit numbers.
 */
module IrrArray {
  import opened Heapsort

  predicate Equivalent<T>(less: (T, T) -> bool, x: T, y: T) {
    !less(x, y) && !less(y, x)
  }

  ghost predicate Has<T>(less: (T, T) -> bool, s: seq<T>, x: T) {
    exists y :: y in s && Equivalent(less, x, y)
  }

  /** A part of a sorted sequence is sorted. */
  lemma PartSorted<T>(less: (T, T) -> bool, s: seq<T>, t: seq<T>, cut: nat, gap: nat)
    requires Sorted(less, s) && cut + gap <= |s| && t == s[..cut] + s[cut + gap..]
    ensures Sorted(less, t)
  {
    forall i, j | 0 <= i <= j < |t|
      ensures AtMost(less, t[i], t[j])
    {
      var i', j' := if i < cut then i else i + gap, if j < cut then j else j + gap;
      assert AtMost(less, s[i'], s[j']);
    }
  }

  lemma PrefixSorted<T>(less: (T, T) -> bool, s: seq<T>, n: nat)
    requires Sorted(less, s) && n <= |s|
    ensures Sorted(less, s[..n])
  {
    assert s[..n] == s[..n] + s[|s|..];
    PartSorted(less, s, s[..n], n, |s| - n);
  }

  lemma HasPermuted<T>(less: (T, T) -> bool, s: seq<T>, t: seq<T>, x: T)
    requires Permutation(s, t)
    ensures Has(less, s, x) <==> Has(less, t, x)
  {
    SameMembers(s, t);
  }

  /** The loop of erase: the elements from a place on move down over `count` others. */
  method ShiftDown<T>(a: array<T>, index: nat, count: nat, used: nat)
    requires 1 <= count && index + count <= used <= a.Length
    modifies a
    ensures a[..index] == old(a[..index]) && a[index..used - count] == old(a[index + count..used])
  {
    var i := index + count;
    while i < used
      invariant index + count <= i <= used
      invariant a[..index] == old(a[..index]) && a[i..used] == old(a[i..used])
      invariant a[index..i - count] == old(a[index + count..i])
    {
      ghost var rest := a[i..used];
      assert a[i] == rest[0] == old(a[i]);
      a[i - count] := a[i];
      i := i + 1;
      assert a[i..used] == rest[1..] && old(a[i..used]) == old(a[i - 1..used])[1..];
    }
  }

  class GrowingArray<T(0, !new)> {
    const less: (T, T) -> bool
    var data: array?<T>
    var capacity: nat
    var used: nat
    var isSorted: bool

    ghost function Footprint(): set<object>
      reads this
    {
      if data == null then {this} else {this, data}
    }

    ghost predicate Shaped()
      reads this
    {
      && StrictWeak(less)
      && used <= capacity == (if data == null then 0 else data.Length)
    }

    ghost function Contents(): (s: seq<T>)
      requires Shaped()
      reads this, data
      ensures |s| == used
    {
      if data == null then [] else data[..used]
    }

    /** The flag is never set on an array that is not sorted. */
    ghost predicate Valid()
      reads this, data
    {
      Shaped() && (isSorted ==> Sorted(less, Contents()))
    }

    constructor (less: (T, T) -> bool)
      requires StrictWeak(less)
      ensures Valid() && fresh(Footprint()) && Contents() == [] && isSorted && this.less == less
    {
      this.less := less;
      data, capacity, used, isSorted := null, 0, 0, true;
    }

    method Reallocate(newSize: nat)
      requires Valid()
      modifies Footprint()
      ensures Valid() && fresh(Footprint() - old(Footprint())) && capacity == newSize && isSorted == old(isSorted)
      ensures Contents() == old(Contents())[..if newSize < old(used) then newSize else old(used)]
    {
      ghost var before := Contents();
      var oldData := data;
      data := new T[newSize];
      capacity := newSize;
      var end := if used < newSize then used else newSize;
      if oldData != null {
        for i := 0 to end
          modifies data
          invariant data[..i] == before[..i]
        {
          data[i] := oldData[i];
        }
      }
      if capacity < used {
        used := capacity;
      }
      PrefixContents(before, end);
    }

    lemma PrefixContents(before: seq<T>, end: nat)
      requires Shaped() && end <= |before| && Contents() == before[..end]
      requires isSorted ==> Sorted(less, before)
      ensures Valid()
    {
      if isSorted {
        PrefixSorted(less, before, end);
      }
    }

    /** Makes room for one more element, as all insertions do. */
    method Grow()
      requires Valid()
      modifies Footprint()
      ensures Valid() && fresh(Footprint() - old(Footprint())) && data != null && used < capacity
      ensures Contents() == old(Contents()) && used == old(used)
    {
      if used + 1 > capacity {
        Reallocate(used * 2 + 1);
      }
    }

    method PushBack(element: T)
      requires Valid()
      modifies Footprint()
      ensures Valid() && fresh(Footprint() - old(Footprint())) && !isSorted
      ensures Contents() == old(Contents()) + [element]
    {
      Grow();
      data[used] := element;
      used := used + 1;
      isSorted := false;
    }

    /** Shifts the elements from a place on up by one; the next element up is free. */
    method ShiftUp(index: nat)
      requires Shaped() && data != null && index <= used < capacity
      modifies data
      ensures data[..index] == old(data[..index]) && data[index + 1..used + 1] == old(data[index..used])
    {
      var i := used;
      while i > index
        invariant index <= i <= used
        invariant data[..i] == old(data[..i]) && data[i + 1..used + 1] == old(data[i..used])
      {
        data[i] := data[i - 1];
        i := i - 1;
      }
    }

    /** Shifts, and fills the place that has become free. */
    method OpenAt(element: T, index: nat)
      requires Shaped() && data != null && index <= used < capacity
      modifies data
      ensures data[..used + 1] == old(data[..index]) + [element] + old(data[index..used])
    {
      ghost var front, back := data[..index], data[index..used];
      ShiftUp(index);
      data[index] := element;
      assert data[..index] == front && data[index + 1..used + 1] == back;
      assert data[..used + 1] == data[..index] + [data[index]] + data[index + 1..used + 1];
    }

    method PushFront(element: T)
      requires Valid()
      modifies Footprint()
      ensures Valid() && fresh(Footprint() - old(Footprint())) && !isSorted
      ensures Contents() == [element] + old(Contents())
    {
      Insert(element, 0);
    }

    method Insert(element: T, index: nat)
      requires Valid() && index <= used
      modifies Footprint()
      ensures Valid() && fresh(Footprint() - old(Footprint())) && !isSorted
      ensures Contents() == old(Contents())[..index] + [element] + old(Contents())[index..]
    {
      ghost var before := Contents();
      Grow();
      assert data[..index] == before[..index] && data[index..used] == before[index..];
      OpenAt(element, index);
      used := used + 1;
      isSorted := false;
    }

    method Clear()
      requires Valid()
      modifies this
      ensures Valid() && Contents() == [] && isSorted && fresh(Footprint() - old(Footprint()))
    {
      data, used, capacity, isSorted := null, 0, 0, true;
    }

    method Erase(index: nat, count: nat)
      requires Valid() && 1 <= count && index + count <= used
      modifies Footprint()
      ensures Valid() && Footprint() == old(Footprint()) && isSorted == old(isSorted)
      ensures Contents() == old(Contents())[..index] + old(Contents())[index + count..]
    {
      ghost var before := Contents();
      ShiftDown(data, index, count, used);
      used := used - count;
      assert Contents() == data[..index] + data[index..used];
      if isSorted {
        PartSorted(less, before, Contents(), index, count);
      }
    }

    method Sort()
      requires Valid()
      modifies Footprint()
      ensures Valid() && Footprint() == old(Footprint())
      ensures Sorted(less, Contents()) && Permutation(Contents(), old(Contents()))
      ensures used == old(used) && (isSorted || used < 2)
    {
      if isSorted || used < 2 {
        return;
      }
      HeapSort(less, data, used);
      isSorted := true;
    }

    method LinearSearch(element: T) returns (r: int)
      requires Valid()
      ensures -1 <= r < used && (r >= 0 ==> Equivalent(less, element, Contents()[r]))
      ensures r >= 0 <==> Has(less, Contents(), element)
    {
      for i := 0 to used
        invariant forall k :: 0 <= k < i ==> !Equivalent(less, element, Contents()[k])
      {
        if !less(element, data[i]) && !less(data[i], element) {
          assert Contents()[i] in Contents();
          return i;
        }
      }
      return -1;
    }

    /** Outside of left..right there is no equivalent of the element. */
    ghost predicate Excluded(element: T, lo: int, left: int, right: int, hi: int)
      requires Shaped()
      reads this, data
    {
      && (forall k :: lo <= k < left && 0 <= k < used ==> less(Contents()[k], element))
      && (forall k :: right < k <= hi && 0 <= k < used ==> less(element, Contents()[k]))
    }

    /** One turn of the loop: the middle of left..right, and the half that remains if it is not equivalent. */
    method Halve(element: T, ghost lo: int, left: int, right: int, ghost hi: int)
      returns (m: int, left': int, right': int)
      requires Shaped() && data != null && Sorted(less, Contents()) && Excluded(element, lo, left, right, hi)
      requires 0 <= lo <= left <= right <= hi < used
      ensures m == (left + right) / 2 && left <= m <= right
      ensures less(element, data[m]) ==> left' == left && right' == m - 1
      ensures !less(element, data[m]) ==> left' == m + 1 && right' == right
      ensures !Equivalent(less, element, data[m]) ==> Excluded(element, lo, left', right', hi)
    {
      m, left', right' := (left + right) / 2, left, right;
      if less(element, data[m]) {
        right' := m - 1;
        forall k | right' < k <= hi && 0 <= k < used
          ensures less(element, Contents()[k])
        {
          assert AtMost(less, Contents()[m], Contents()[k]) || k > right;
        }
      } else {
        left' := m + 1;
        forall k | lo <= k < left' && 0 <= k < used && less(data[m], element)
          ensures less(Contents()[k], element)
        {
          assert k < left || AtMost(less, Contents()[k], Contents()[m]);
        }
      }
    }

    /** binary_search over a part of the array, which it sorts first. */
    method BinarySearchIn(element: T, left: int, right: int) returns (r: int)
      requires Valid() && (used > 0 ==> 0 <= left <= right < used)
      modifies Footprint()
      ensures Valid() && Footprint() == old(Footprint()) && used == old(used)
              && Permutation(Contents(), old(Contents()))
      ensures used > 0 ==> Sorted(less, Contents())
      ensures r >= 0 ==> left <= r <= right < used && Equivalent(less, element, Contents()[r])
      ensures r < 0 ==> r == -1 && forall k :: left <= k <= right && 0 <= k < used ==>
                !Equivalent(less, element, Contents()[k])
    {
      if used == 0 {
        return -1;
      }
      Sort();
      r := Search(element, left, right);
    }

    /** The loop of binary_search. */
    method Search(element: T, left: int, right: int) returns (r: int)
      requires Shaped() && Sorted(less, Contents()) && 0 <= left <= right < used
      ensures r >= 0 ==> left <= r <= right && Equivalent(less, element, Contents()[r])
      ensures r < 0 ==> r == -1 && forall k :: left <= k <= right ==> !Equivalent(less, element, Contents()[k])
    {
      var m, l, h := Halve(element, left, left, right, right);
      while (less(element, data[m]) || less(data[m], element)) && l <= h
        invariant left <= m <= right && left <= l && h <= right
        invariant !Equivalent(less, element, data[m]) ==> Excluded(element, left, l, h, right)
        decreases h - l
      {
        m, l, h := Halve(element, left, l, h, right);
      }
      if !less(element, data[m]) && !less(data[m], element) {
        return m;
      }
      return -1;
    }

    /** binary_search over the whole array finds something exactly if linear_search does. */
    method BinarySearch(element: T) returns (r: int)
      requires Valid()
      modifies Footprint()
      ensures Valid() && Footprint() == old(Footprint()) && used == old(used)
              && Permutation(Contents(), old(Contents()))
      ensures -1 <= r < used && (r >= 0 ==> Equivalent(less, element, Contents()[r]))
      ensures r >= 0 <==> Has(less, old(Contents()), element)
    {
      ghost var before := Contents();
      r := BinarySearchIn(element, 0, used - 1);
      HasPermuted(less, Contents(), before, element);
      if r >= 0 {
        assert Contents()[r] in Contents();
      }
    }
  }
}
