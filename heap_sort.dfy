/**
 * The heap sort of `sorting/heapSort.js`: build a max-heap under the
 * comparator in the array, then repeatedly move the root to the end of the
 * shrinking heap and sift the new root down.  It runs on a copy of the
 * caller's sequence.
 */
module HeapSorting {
  import opened Common
  import opened Ordering
  import opened Comparators
  import opened InPlace

  function Parent(k: int): int {
    (k - 1) / 2
  }

  /**
   * Max-heap order on the cells `[0, size)`, for every child whose parent
   * is at `lo` or beyond: no child compares greater than its parent.
   */
  ghost predicate HeapFrom<T>(s: seq<T>, lo: int, size: int, cmp: (T, T) -> real) {
    0 <= size <= |s| && forall k :: 0 < k < size && lo <= Parent(k) ==> cmp(s[k], s[Parent(k)]) <= 0.0
  }

  /**
   * Heap order as `HeapFrom`, except possibly between `i` and its children;
   * the children of `i` are still not greater than the parent of `i`.
   */
  ghost predicate HeapExcept<T>(s: seq<T>, lo: int, size: int, i: int, cmp: (T, T) -> real) {
    0 <= lo <= i < size <= |s| &&
    (forall k :: 0 < k < size && lo <= Parent(k) && Parent(k) != i ==> cmp(s[k], s[Parent(k)]) <= 0.0) &&
    (i > lo ==> forall k :: 0 < k < size && Parent(k) == i ==> cmp(s[k], s[Parent(i)]) <= 0.0)
  }

  /** The cell `heapify` picks: `i`, or a child that compares greater than every other candidate. */
  function Largest<T>(s: seq<T>, size: int, i: int, cmp: (T, T) -> real): (largest: int)
    requires 0 <= i < size <= |s|
    ensures largest == i || (Parent(largest) == i && largest < size)
  {
    var left, right := 2 * i + 1, 2 * i + 2;
    var l1 := if left < size && cmp(s[left], s[i]) > 0.0 then left else i;
    if right < size && cmp(s[right], s[l1]) > 0.0 then right else l1
  }

  /** The picked cell is not less than `i` or either child. */
  lemma LargestIsMax<T(!new)>(s: seq<T>, size: int, i: int, cmp: (T, T) -> real)
    requires IsComparator(cmp)
    requires 0 <= i < size <= |s|
    ensures var m := Largest(s, size, i, cmp);
      cmp(s[i], s[m]) <= 0.0 &&
      forall k :: 0 < k < size && Parent(k) == i ==> cmp(s[k], s[m]) <= 0.0
  {
    var left, right := 2 * i + 1, 2 * i + 2;
    var l1 := if left < size && cmp(s[left], s[i]) > 0.0 then left else i;
    var m := Largest(s, size, i, cmp);
    Reflexive(cmp, s[i]);
    Reflexive(cmp, s[m]);
    if left < size {
      Flip(cmp, s[left], s[i]);
    }
    if right < size {
      Flip(cmp, s[right], s[l1]);
    }
    forall k | 0 < k < size && Parent(k) == i ensures cmp(s[k], s[m]) <= 0.0 {
      assert k == left || k == right;
    }
  }

  /** The state after `heapify(arr, size, i)`: only cells `[i, size)` moved, and the heap is whole again. */
  ghost predicate Heapified<T(!new)>(s: seq<T>, before: seq<T>, lo: int, size: int, i: int, cmp: (T, T) -> real) {
    0 <= i < size && PermutedWithin(s, before, i, size - 1) &&
    (IsComparator(cmp) && HeapExcept(before, lo, size, i, cmp) ==> HeapFrom(s, lo, size, cmp))
  }

  /** Swapping `i` with a greater child moves the possible defect down to that child. */
  lemma SiftStep<T(!new)>(s: seq<T>, lo: int, size: int, i: int, cmp: (T, T) -> real)
    requires IsComparator(cmp)
    requires HeapExcept(s, lo, size, i, cmp)
    requires Largest(s, size, i, cmp) != i
    ensures HeapExcept(Swapped(s, i, Largest(s, size, i, cmp)), lo, size, Largest(s, size, i, cmp), cmp)
  {
    var m := Largest(s, size, i, cmp);
    var t := Swapped(s, i, m);
    LargestIsMax(s, size, i, cmp);
    forall k | 0 < k < size && lo <= Parent(k) && Parent(k) != m ensures cmp(t[k], t[Parent(k)]) <= 0.0 {
      if Parent(k) == i {
        if k != m {
          assert t[k] == s[k] && t[i] == s[m];
        }
      } else if k == i {
        assert t[i] == s[m] && t[Parent(i)] == s[Parent(i)];
      }
    }
    forall k | 0 < k < size && Parent(k) == m ensures cmp(t[k], t[Parent(m)]) <= 0.0 {
      assert t[k] == s[k] && t[i] == s[m];
    }
  }

  lemma Heapify0<T(!new)>(s: seq<T>, lo: int, size: int, i: int, cmp: (T, T) -> real)
    requires 0 <= i < size <= |s| && 0 <= lo
    requires Largest(s, size, i, cmp) == i
    ensures Heapified(s, s, lo, size, i, cmp)
  {
    if IsComparator(cmp) && HeapExcept(s, lo, size, i, cmp) {
      LargestIsMax(s, size, i, cmp);
    }
  }

  lemma HeapifyStep<T(!new)>(s0: seq<T>, s1: seq<T>, s2: seq<T>, lo: int, size: int, i: int, cmp: (T, T) -> real)
    requires 0 <= i < size <= |s0| && 0 <= lo
    requires Largest(s0, size, i, cmp) != i
    requires s1 == Swapped(s0, i, Largest(s0, size, i, cmp))
    requires Heapified(s2, s1, lo, size, Largest(s0, size, i, cmp), cmp)
    ensures Heapified(s2, s0, lo, size, i, cmp)
  {
    var m := Largest(s0, size, i, cmp);
    SwapWithin(s0, i, m, i, size - 1);
    PermutedWithinTrans(s2, s1, s0, i, size - 1, m, size - 1);
    if IsComparator(cmp) && HeapExcept(s0, lo, size, i, cmp) {
      SiftStep(s0, lo, size, i, cmp);
    }
  }

  /**
   * `heapify(arr, heapSize, i)`: sift the value at `i` down below the
   * greater of its children until neither child is greater.  `lo` is
   * the first index whose children the heap order covers (the build loop
   * index; 0 during extraction).
   */
  method Heapify<T(!new)>(a: array<T>, size: int, i: int, ghost lo: int, cmp: (T, T) -> real)
    requires 0 <= lo && 0 <= i < size <= a.Length
    modifies a
    ensures Heapified(a[..], old(a[..]), lo, size, i, cmp)
    decreases size - i
  {
    var largest := i;
    var left := 2 * i + 1;
    var right := 2 * i + 2;
    if left < size && cmp(a[left], a[largest]) > 0.0 {
      largest := left;
    }
    if right < size && cmp(a[right], a[largest]) > 0.0 {
      largest := right;
    }
    assert largest == Largest(a[..], size, i, cmp);
    if largest != i {
      ghost var s0 := a[..];
      Swap(a, i, largest);
      ghost var s1 := a[..];
      Heapify(a, size, largest, lo, cmp);
      HeapifyStep(s0, s1, a[..], lo, size, i, cmp);
    } else {
      Heapify0(a[..], lo, size, i, cmp);
    }
  }

  /** The cells past the last parent have no children, so the heap order from there holds. */
  lemma LeavesAreHeaps<T>(s: seq<T>, n: int, cmp: (T, T) -> real)
    requires 0 <= n <= |s|
    ensures HeapFrom(s, n / 2, n, cmp)
  {
    forall k | 0 < k < n && n / 2 <= Parent(k) ensures false {
    }
  }

  /** The build loop's step: heapify at `i` extends the heap order to `i`. */
  lemma BuildStep<T(!new)>(s: seq<T>, s1: seq<T>, before: seq<T>, n: int, i: int, cmp: (T, T) -> real)
    requires 0 <= i < n == |s|
    requires PermutedWithin(s, before, 0, n - 1) && (IsComparator(cmp) ==> HeapFrom(s, i + 1, n, cmp))
    requires Heapified(s1, s, i, n, i, cmp)
    ensures PermutedWithin(s1, before, 0, n - 1) && (IsComparator(cmp) ==> HeapFrom(s1, i, n, cmp))
  {
    PermutedWithinTrans(s1, s, before, 0, n - 1, i, n - 1);
  }

  /** The build loop of `heapSort`: heapify every parent, last first. */
  method BuildHeap<T(!new)>(a: array<T>, cmp: (T, T) -> real)
    modifies a
    ensures PermutedWithin(a[..], old(a[..]), 0, a.Length - 1)
    ensures IsComparator(cmp) ==> HeapFrom(a[..], 0, a.Length, cmp)
  {
    var n := a.Length;
    var i := n / 2 - 1;
    LeavesAreHeaps(a[..], n, cmp);
    PermutedWithinRefl(a[..], 0, n - 1);
    while i >= 0
      invariant -1 <= i <= n / 2 - 1
      invariant PermutedWithin(a[..], old(a[..]), 0, n - 1)
      invariant IsComparator(cmp) ==> HeapFrom(a[..], i + 1, n, cmp)
    {
      ghost var s := a[..];
      Heapify(a, n, i, i, cmp);
      BuildStep(s, a[..], old(a[..]), n, i, cmp);
      i := i - 1;
    }
  }

  /** In a heap, the root is not less than any cell. */
  lemma HeapRootMax<T(!new)>(s: seq<T>, size: int, k: int, cmp: (T, T) -> real)
    requires IsComparator(cmp)
    requires HeapFrom(s, 0, size, cmp)
    requires 0 <= k < size
    ensures cmp(s[k], s[0]) <= 0.0
    decreases k
  {
    if k == 0 {
      Reflexive(cmp, s[0]);
    } else {
      HeapRootMax(s, size, Parent(k), cmp);
    }
  }

  /**
   * The extraction loop's state at index `i`: a heap on `[0, i]`, and the
   * cells after `i` hold the greatest elements, sorted.
   */
  ghost predicate Extracting<T(!new)>(s: seq<T>, before: seq<T>, i: int, cmp: (T, T) -> real) {
    -1 <= i < |s| && PermutedWithin(s, before, 0, |s| - 1) &&
    (IsComparator(cmp) ==>
      HeapFrom(s, 0, i + 1, cmp) && Sorted(s[i + 1..], cmp) &&
      forall p, q :: 0 <= p <= i < q < |s| ==> cmp(s[p], s[q]) <= 0.0)
  }

  /** Moving the root behind the heap and sifting down keeps the extraction state. */
  lemma ExtractStep<T(!new)>(s: seq<T>, s1: seq<T>, s2: seq<T>, before: seq<T>, i: int, cmp: (T, T) -> real)
    requires 0 < i < |s|
    requires Extracting(s, before, i, cmp)
    requires s1 == Swapped(s, 0, i)
    requires Heapified(s2, s1, 0, i, 0, cmp)
    ensures Extracting(s2, before, i - 1, cmp)
  {
    SwapWithin(s, 0, i, 0, |s| - 1);
    PermutedWithinTrans(s2, s1, before, 0, |s| - 1, 0, i - 1);
    PermutedWithinTrans(s2, s, before, 0, |s| - 1, 0, |s| - 1);
    if IsComparator(cmp) {
      ExtractStepOrder(s, s1, s2, i, cmp);
    }
  }

  /** After the swap and the sift, every heap cell is not after the extracted root nor after the sorted tail. */
  lemma ExtractPrefix<T(!new)>(s: seq<T>, s1: seq<T>, s2: seq<T>, i: int, cmp: (T, T) -> real)
    requires IsComparator(cmp)
    requires 0 < i < |s|
    requires HeapFrom(s, 0, i + 1, cmp)
    requires forall p, q :: 0 <= p <= i < q < |s| ==> cmp(s[p], s[q]) <= 0.0
    requires s1 == Swapped(s, 0, i)
    requires PermutedWithin(s2, s1, 0, i - 1)
    ensures forall p :: 0 <= p < i ==> cmp(s2[p], s[0]) <= 0.0 && forall q :: i < q < |s| ==> cmp(s2[p], s[q]) <= 0.0
  {
    var top := s[0];
    forall p | 0 <= p < i ensures cmp(s1[p], top) <= 0.0 {
      if p == 0 { HeapRootMax(s, i + 1, i, cmp); } else { HeapRootMax(s, i + 1, p, cmp); }
    }
    RangeKeeps(s2, s1, 0, i - 1, x => cmp(x, top) <= 0.0 && forall q :: i < q < |s| ==> cmp(x, s[q]) <= 0.0);
  }

  lemma ExtractStepOrder<T(!new)>(s: seq<T>, s1: seq<T>, s2: seq<T>, i: int, cmp: (T, T) -> real)
    requires IsComparator(cmp)
    requires 0 < i < |s|
    requires HeapFrom(s, 0, i + 1, cmp) && Sorted(s[i + 1..], cmp)
    requires forall p, q :: 0 <= p <= i < q < |s| ==> cmp(s[p], s[q]) <= 0.0
    requires s1 == Swapped(s, 0, i)
    requires Heapified(s2, s1, 0, i, 0, cmp)
    ensures HeapFrom(s2, 0, i, cmp) && Sorted(s2[i..], cmp)
    ensures forall p, q :: 0 <= p <= i - 1 < q < |s2| ==> cmp(s2[p], s2[q]) <= 0.0
  {
    assert HeapExcept(s1, 0, i, 0, cmp);
    ExtractPrefix(s, s1, s2, i, cmp);
    ExtractTail(s, s2, i, cmp);
    ExtractCross(s, s2, i, cmp);
  }

  /** The extracted root in front of the sorted tail keeps it sorted. */
  lemma ExtractTail<T(!new)>(s: seq<T>, s2: seq<T>, i: int, cmp: (T, T) -> real)
    requires 0 < i < |s| && |s2| == |s|
    requires Sorted(s[i + 1..], cmp)
    requires forall q :: i < q < |s| ==> cmp(s[0], s[q]) <= 0.0
    requires s2[i] == s[0] && forall q :: i < q < |s| ==> s2[q] == s[q]
    ensures Sorted(s2[i..], cmp)
  {
    var top := s[0];
    var tail := s[i + 1..];
    assert s2[i..] == [top] + tail;
    assert AllAfter(top, tail, cmp) by {
      forall q | 0 <= q < |tail| ensures cmp(top, tail[q]) <= 0.0 {
        assert tail[q] == s[i + 1 + q];
      }
    }
    SortedCons(top, tail, cmp);
  }

  /** Every heap cell is not after any tail cell, the extracted root included. */
  lemma ExtractCross<T(!new)>(s: seq<T>, s2: seq<T>, i: int, cmp: (T, T) -> real)
    requires 0 < i < |s| && |s2| == |s|
    requires s2[i] == s[0] && forall q :: i < q < |s| ==> s2[q] == s[q]
    requires forall p :: 0 <= p < i ==> cmp(s2[p], s[0]) <= 0.0 && forall q :: i < q < |s| ==> cmp(s2[p], s[q]) <= 0.0
    ensures forall p, q :: 0 <= p <= i - 1 < q < |s2| ==> cmp(s2[p], s2[q]) <= 0.0
  {
    forall p, q | 0 <= p <= i - 1 < q < |s2| ensures cmp(s2[p], s2[q]) <= 0.0 {
      if q > i {
        assert s2[q] == s[q];
      }
    }
  }

  /** `s` is a rearrangement of `before`, sorted when `cmp` is a comparator. */
  ghost predicate SortedPermutation<T(!new)>(s: seq<T>, before: seq<T>, cmp: (T, T) -> real) {
    PermutedWithin(s, before, 0, |s| - 1) && (IsComparator(cmp) ==> Sorted(s, cmp))
  }

  lemma ExtractStart<T(!new)>(s: seq<T>, cmp: (T, T) -> real)
    requires IsComparator(cmp) ==> HeapFrom(s, 0, |s|, cmp)
    ensures Extracting(s, s, |s| - 1, cmp)
  {
    PermutedWithinRefl(s, 0, |s| - 1);
    assert s[|s|..] == [];
  }

  /** The extraction loop of `heapSort`. */
  method ExtractAll<T(!new)>(a: array<T>, cmp: (T, T) -> real)
    modifies a
    requires IsComparator(cmp) ==> HeapFrom(a[..], 0, a.Length, cmp)
    ensures SortedPermutation(a[..], old(a[..]), cmp)
  {
    var i := a.Length - 1;
    ExtractStart(a[..], cmp);
    while i > 0
      invariant Extracting(a[..], old(a[..]), i, cmp)
    {
      ghost var s := a[..];
      Swap(a, 0, i);
      ghost var s1 := a[..];
      Heapify(a, i, 0, 0, cmp);
      ExtractStep(s, s1, a[..], old(a[..]), i, cmp);
      i := i - 1;
    }
    ExtractDone(a[..], old(a[..]), i, cmp);
  }

  /** With no heap left, the extracted tail is the whole sequence. */
  lemma ExtractDone<T(!new)>(s: seq<T>, before: seq<T>, i: int, cmp: (T, T) -> real)
    requires i <= 0 && Extracting(s, before, i, cmp)
    ensures SortedPermutation(s, before, cmp)
  {
    if IsComparator(cmp) {
      if i == 0 {
        forall p, q | 0 <= p < q < |s| ensures cmp(s[p], s[q]) <= 0.0 {
          if p > 0 {
            assert s[p] == s[1..][p - 1] && s[q] == s[1..][q - 1];
          }
        }
      } else {
        assert s[0..] == s;
      }
    }
  }

  /** `heapSort(arr)`: build the heap, then extract. */
  method HeapSortInPlace<T(!new)>(a: array<T>, cmp: (T, T) -> real)
    modifies a
    ensures SortedPermutation(a[..], old(a[..]), cmp)
  {
    BuildHeap(a, cmp);
    ghost var s := a[..];
    ExtractAll(a, cmp);
    PermutedWithinTrans(a[..], s, old(a[..]), 0, a.Length - 1, 0, a.Length - 1);
  }

  /**
   * `sort`: a sequence of at most one element comes back as it is;
   * anything else is copied into a fresh array, heap sorted there, and
   * the copy returned.
   */
  method Sort<T(!new)>(arr: seq<T>, compareFn: Option<(T, T) -> real> := None, sortBy: Option<T -> real> := None,
                       order: string := "asc", natural: T -> real) returns (r: seq<T>)
    ensures multiset(r) == multiset(arr)
    ensures |arr| <= 1 ==> r == arr
    ensures IsComparator(SortComparator(compareFn, sortBy, order, natural)) ==>
      Sorted(r, SortComparator(compareFn, sortBy, order, natural))
  {
    if |arr| <= 1 {
      return arr;
    }
    var a := new T[|arr|](i requires 0 <= i < |arr| => arr[i]);
    assert a[..] == arr;
    HeapSortInPlace(a, SortComparator(compareFn, sortBy, order, natural));
    r := a[..];
  }
}
