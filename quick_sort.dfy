/**
 * QuickSort of include/sorts_algs.hpp: a linear "already sorted?" pre-pass,
 * then an in-place Lomuto-partition quicksort over the index range
 * [low, high] of the buffer.  The comparator is a function parameter (the
 * ISorter base class only served to dispatch to this one algorithm), and the
 * sequence is the buffer `a` of which the first `n` cells are in use.
 */
module Sorting {
  import opened Comparators

  /** No adjacent pair is out of order: exactly what the pre-pass checks. */
  ghost predicate NoAdjacentInversion<T>(s: seq<T>, less: (T, T) -> bool) {
    forall i :: 0 < i < |s| ==> !less(s[i], s[i - 1])
  }

  /** No later element goes before an earlier one. */
  ghost predicate Sorted<T>(s: seq<T>, less: (T, T) -> bool) {
    forall i, j :: 0 <= i < j < |s| ==> !less(s[j], s[i])
  }

  ghost predicate AllBelow<T>(s: seq<T>, pivot: T, less: (T, T) -> bool) {
    forall k :: 0 <= k < |s| ==> less(s[k], pivot)
  }

  ghost predicate NoneBelow<T>(s: seq<T>, pivot: T, less: (T, T) -> bool) {
    forall k :: 0 <= k < |s| ==> !less(s[k], pivot)
  }

  /** Sorted implies the pre-pass succeeds, so sorting a sorted sequence takes the early exit. */
  lemma SortedHasNoAdjacentInversion<T>(s: seq<T>, less: (T, T) -> bool)
    requires Sorted(s, less)
    ensures NoAdjacentInversion(s, less)
  {
  }

  /**
   * Under a strict weak order the pre-pass is a complete test: no adjacent
   * inversion means no inversion at all.
   */
  lemma {:induction false} NoAdjacentInversionIsSorted<T(!new)>(s: seq<T>, less: (T, T) -> bool)
    requires StrictWeakOrder(less)
    requires NoAdjacentInversion(s, less)
    ensures Sorted(s, less)
  {
    if |s| > 1 {
      NoAdjacentInversionIsSorted(s[1..], less);
      forall j | 0 < j < |s| ensures !less(s[j], s[0]) {
        if j > 1 {
          assert !less(s[1..][j - 1], s[1..][0]);
          assert !less(s[1], s[0]);
        }
      }
      forall i, j | 0 <= i < j < |s| ensures !less(s[j], s[i]) {
        if i > 0 {
          assert !less(s[1..][j - 1], s[1..][i - 1]);
        }
      }
    }
  }

  /** A multiset-equal sequence keeps every element below the pivot. */
  lemma AllBelowPermuted<T>(u: seq<T>, v: seq<T>, pivot: T, less: (T, T) -> bool)
    requires multiset(u) == multiset(v) && AllBelow(u, pivot, less)
    ensures AllBelow(v, pivot, less)
  {
    forall k | 0 <= k < |v| ensures less(v[k], pivot) {
      assert v[k] in multiset(u);
    }
  }

  lemma NoneBelowPermuted<T>(u: seq<T>, v: seq<T>, pivot: T, less: (T, T) -> bool)
    requires multiset(u) == multiset(v) && NoneBelow(u, pivot, less)
    ensures NoneBelow(v, pivot, less)
  {
    forall k | 0 <= k < |v| ensures !less(v[k], pivot) {
      assert v[k] in multiset(u);
    }
  }

  /** The two sorted sides of a partition around a pivot make a sorted whole. */
  lemma {:induction false} JoinSorted<T(!new)>(left: seq<T>, pivot: T, right: seq<T>, less: (T, T) -> bool)
    requires StrictOrder(less)
    requires Sorted(left, less) && Sorted(right, less)
    requires AllBelow(left, pivot, less) && NoneBelow(right, pivot, less)
    ensures Sorted(left + [pivot] + right, less)
  {
    var s := left + [pivot] + right;
    forall i, j | 0 <= i < j < |s| ensures !less(s[j], s[i]) {
      if j < |left| {
        assert !less(left[j], left[i]);
      } else if i < |left| && j == |left| {
        StrictOrderAsymmetric(less, left[i], pivot);
      } else if i < |left| {
        assert less(left[i], pivot) && !less(right[j - |left| - 1], pivot);
      } else if i == |left| {
        assert !less(right[j - |left| - 1], pivot);
      } else {
        assert !less(right[j - |left| - 1], right[i - |left| - 1]);
      }
    }
  }

  /** Equal multisets and equal ends give equal multisets of the middle slice. */
  lemma SliceMultiset<T>(s: seq<T>, t: seq<T>, lo: int, hi: int)
    requires |s| == |t| && 0 <= lo <= hi <= |s|
    requires multiset(s) == multiset(t)
    requires s[..lo] == t[..lo] && s[hi..] == t[hi..]
    ensures multiset(s[lo..hi]) == multiset(t[lo..hi])
  {
    assert s == s[..lo] + s[lo..hi] + s[hi..];
    assert t == t[..lo] + t[lo..hi] + t[hi..];
    forall x ensures multiset(s[lo..hi])[x] == multiset(t[lo..hi])[x] {
      assert multiset(s)[x] == multiset(s[..lo])[x] + multiset(s[lo..hi])[x] + multiset(s[hi..])[x];
      assert multiset(t)[x] == multiset(t[..lo])[x] + multiset(t[lo..hi])[x] + multiset(t[hi..])[x];
    }
  }

  /** std::swap of two cells of the buffer. */
  method Swap<T>(a: array<T>, i: int, j: int)
    requires 0 <= i < a.Length && 0 <= j < a.Length
    modifies a
    ensures a[i] == old(a[j]) && a[j] == old(a[i])
    ensures forall k :: 0 <= k < a.Length && k != i && k != j ==> a[k] == old(a[k])
    ensures multiset(a[..]) == old(multiset(a[..]))
  {
    var t := a[i];
    a[i] := a[j];
    a[j] := t;
  }

  /**
   * The pre-pass of QuickSort::sort: compares every adjacent pair and
   * clears the flag on each inversion (it does not stop at the first).
   */
  method CheckSorted<T>(a: array<T>, n: nat, less: (T, T) -> bool) returns (flag: bool)
    requires 0 < n <= a.Length
    ensures flag <==> NoAdjacentInversion(a[..n], less)
  {
    flag := true;
    var i := 0;
    while i < n - 1
      invariant 0 <= i <= n - 1
      invariant flag <==> forall k :: 0 < k <= i ==> !less(a[k], a[k - 1])
    {
      if less(a[i + 1], a[i]) {
        flag := false;
      }
      i := i + 1;
    }
  }

  /**
   * The Lomuto partition (the body of quickSortInside before its two
   * recursive calls): the pivot is a[high]; [low, i] collects the elements
   * that go before it, and the pivot is finally swapped to i + 1.
   */
  method Partition<T>(a: array<T>, low: int, high: int, less: (T, T) -> bool) returns (i: int)
    requires 0 <= low < high < a.Length
    modifies a
    ensures low - 1 <= i < high
    ensures multiset(a[..]) == old(multiset(a[..]))
    ensures a[..low] == old(a[..low]) && a[high + 1..] == old(a[high + 1..])
    ensures a[i + 1] == old(a[high])
    ensures forall k :: low <= k <= i ==> less(a[k], a[i + 1])
    ensures forall k :: i + 2 <= k <= high ==> !less(a[k], a[i + 1])
  {
    var pivot := a[high];
    i := low - 1;
    var j := low;
    while j <= high - 1
      invariant low <= j <= high
      invariant low - 1 <= i < j
      invariant a[high] == pivot
      invariant forall k :: low <= k <= i ==> less(a[k], pivot)
      invariant forall k :: i < k < j ==> !less(a[k], pivot)
      invariant multiset(a[..]) == old(multiset(a[..]))
      invariant forall k :: 0 <= k < low || high < k < a.Length ==> a[k] == old(a[k])
    {
      if less(a[j], pivot) {
        i := i + 1;
        Swap(a, i, j);
      }
      j := j + 1;
    }
    Swap(a, i + 1, high);
    assert a[..low] == old(a[..low]);
    assert a[high + 1..] == old(a[high + 1..]);
  }

  /**
   * quickSortInside(low, high): sorts [low, high] in place and leaves every
   * cell outside it unchanged.  Its callers pass ranges with
   * low <= high + 1 (an empty range is low == high + 1).
   */
  method QuickSortInside<T(!new)>(a: array<T>, low: int, high: int, less: (T, T) -> bool)
    requires 0 <= low <= high + 1 <= a.Length
    modifies a
    ensures multiset(a[..]) == old(multiset(a[..]))
    ensures a[..low] == old(a[..low]) && a[high + 1..] == old(a[high + 1..])
    ensures StrictOrder(less) ==> Sorted(a[low..high + 1], less)
    decreases high - low
  {
    if low < high {
      ghost var a0 := a[..];
      var i := Partition(a, low, high, less);
      ghost var a1 := a[..];
      ghost var pivot := a1[i + 1];
      QuickSortInside(a, low, i, less);
      ghost var a2 := a[..];
      QuickSortInside(a, i + 2, high, less);
      ghost var a3 := a[..];

      assert a3[..low] == a0[..low] by {
        assert a3[..low] == a2[..low][..low];
        assert a2[..low] == a1[..low];
      }
      assert a3[high + 1..] == a0[high + 1..] by {
        assert a2[i + 1..][high - i..] == a1[i + 1..][high - i..];
      }
      assert AllBelow(a1[low..i + 1], pivot, less);
      assert NoneBelow(a1[i + 2..high + 1], pivot, less);
      QuickSortStep(a1, a2, a3, low, i, high, less);
    }
  }

  /**
   * The proof step after quickSortInside's two recursive calls: a1 is the
   * partitioned buffer, a2 the buffer after sorting [low, i], a3 after
   * sorting [i + 2, high].
   */
  lemma QuickSortStep<T(!new)>(a1: seq<T>, a2: seq<T>, a3: seq<T>, low: int, i: int, high: int, less: (T, T) -> bool)
    requires 0 <= low <= i + 1 <= high < |a1| && |a2| == |a1| && |a3| == |a1|
    requires AllBelow(a1[low..i + 1], a1[i + 1], less) && NoneBelow(a1[i + 2..high + 1], a1[i + 1], less)
    requires multiset(a2) == multiset(a1) && a2[..low] == a1[..low] && a2[i + 1..] == a1[i + 1..]
    requires multiset(a3) == multiset(a2) && a3[..i + 2] == a2[..i + 2] && a3[high + 1..] == a2[high + 1..]
    requires StrictOrder(less) ==> Sorted(a2[low..i + 1], less) && Sorted(a3[i + 2..high + 1], less)
    ensures StrictOrder(less) ==> Sorted(a3[low..high + 1], less)
  {
    var pivot := a1[i + 1];
    if StrictOrder(less) {
      // the left side: sorted by the first call, untouched by the second
      SliceMultiset(a2, a1, low, i + 1);
      assert a3[low..i + 1] == a2[low..i + 1] by {
        assert a3[low..i + 1] == a3[..i + 2][low..i + 1];
        assert a2[low..i + 1] == a2[..i + 2][low..i + 1];
      }
      AllBelowPermuted(a1[low..i + 1], a3[low..i + 1], pivot, less);
      // the right side: untouched by the first call, sorted by the second
      assert a2[i + 2..high + 1] == a1[i + 2..high + 1] by {
        assert a2[i + 2..high + 1] == a2[i + 1..][1..high - i];
        assert a1[i + 2..high + 1] == a1[i + 1..][1..high - i];
      }
      assert a3[..i + 2] + a3[i + 2..] == a3;
      assert a2[..i + 2] + a2[i + 2..] == a2;
      SliceMultiset(a3, a2, i + 2, high + 1);
      NoneBelowPermuted(a2[i + 2..high + 1], a3[i + 2..high + 1], pivot, less);
      // the pivot stays in place
      assert a3[i + 1] == pivot by {
        assert a2[i + 1] == a2[i + 1..][0] == a1[i + 1..][0];
        assert a3[i + 1] == a3[..i + 2][i + 1] == a2[..i + 2][i + 1];
      }
      JoinSorted(a3[low..i + 1], pivot, a3[i + 2..high + 1], less);
      assert a3[low..high + 1] == a3[low..i + 1] + [pivot] + a3[i + 2..high + 1];
    }
  }

  /**
   * QuickSort::sort on the first n cells: returns at once on an empty
   * sequence or when the pre-pass finds no adjacent inversion, and
   * otherwise runs quickSortInside(0, n - 1).
   */
  method Sort<T(!new)>(a: array<T>, n: nat, less: (T, T) -> bool)
    requires n <= a.Length
    modifies a
    ensures multiset(a[..n]) == old(multiset(a[..n]))
    ensures a[n..] == old(a[n..])
    ensures NoAdjacentInversion(old(a[..n]), less) ==> a[..] == old(a[..])
    ensures StrictOrder(less) ==> NoAdjacentInversion(a[..n], less)
    ensures StrictWeakOrder(less) ==> Sorted(a[..n], less)
  {
    if n == 0 {
      return;
    }
    var flag := CheckSorted(a, n, less);
    if flag {
      if StrictWeakOrder(less) {
        NoAdjacentInversionIsSorted(a[..n], less);
      }
      return;
    }
    ghost var before := a[..];
    QuickSortInside(a, 0, n - 1, less);
    SliceMultiset(a[..], before, 0, n);
    assert a[..n] == a[0..n];
    assert before[..n] == before[0..n];
    if StrictOrder(less) {
      SortedHasNoAdjacentInversion(a[..n], less);
    }
  }
}
