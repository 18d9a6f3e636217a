/**
 * The quick sort of `sorting/quickSort.js`: Lomuto partition on the last
 * cell, recursion on index ranges of one array, run on a copy of the
 * caller's sequence; the median-of-three partition; and the
 * multi-criteria comparator.
 */
module QuickSorting {
  import opened Common
  import opened Ordering
  import opened Comparators
  import opened InPlace

  /**
   * The state of the Lomuto loop: the pivot still at `high`, the cells
   * `[low, i]` not after it, the cells `(i, j)` strictly after it.
   */
  ghost predicate Partitioning<T>(s: seq<T>, before: seq<T>, low: int, high: int, i: int, j: int, pivot: T,
                                  cmp: (T, T) -> real) {
    0 <= low && low - 1 <= i < j <= high < |s| && s[high] == pivot &&
    (forall k :: low <= k <= i ==> cmp(s[k], pivot) <= 0.0) &&
    (forall k :: i < k < j ==> cmp(s[k], pivot) > 0.0) &&
    PermutedWithin(s, before, low, high)
  }

  lemma PartitionStart<T>(s: seq<T>, low: int, high: int, cmp: (T, T) -> real)
    requires 0 <= low <= high < |s|
    ensures Partitioning(s, s, low, high, low - 1, low, s[high], cmp)
  {
  }

  /** One iteration of the Lomuto loop keeps its state. */
  lemma PartitionStep<T>(s: seq<T>, before: seq<T>, low: int, high: int, i: int, j: int, pivot: T,
                         cmp: (T, T) -> real)
    requires Partitioning(s, before, low, high, i, j, pivot, cmp) && j < high
    ensures cmp(s[j], pivot) <= 0.0 ==>
      Partitioning(Swapped(s, i + 1, j), before, low, high, i + 1, j + 1, pivot, cmp)
    ensures cmp(s[j], pivot) > 0.0 ==> Partitioning(s, before, low, high, i, j + 1, pivot, cmp)
  {
    SwapWithin(s, i + 1, j, low, high);
  }

  /**
   * The outcome of a partition of `[low, high]` around `before[high]`: it
   * ends at `p`, the cells before it in the range are not after it, the
   * cells after it in the range are strictly after it, and only the range
   * was rearranged.
   */
  ghost predicate PartitionedAt<T>(s: seq<T>, before: seq<T>, low: int, high: int, p: int, cmp: (T, T) -> real) {
    0 <= low <= p <= high < |s| && |before| == |s| && s[p] == before[high] &&
    (forall k :: low <= k < p ==> cmp(s[k], s[p]) <= 0.0) &&
    (forall k :: p < k <= high ==> cmp(s[k], s[p]) > 0.0) &&
    PermutedWithin(s, before, low, high)
  }

  /** The final swap puts the pivot between the two parts. */
  lemma PartitionEnd<T>(s: seq<T>, before: seq<T>, low: int, high: int, i: int, cmp: (T, T) -> real)
    requires 0 <= high < |before|
    requires Partitioning(s, before, low, high, i, high, before[high], cmp)
    ensures PartitionedAt(Swapped(s, i + 1, high), before, low, high, i + 1, cmp)
  {
    SwapWithin(s, i + 1, high, low, high);
  }

  /** `partition(arr, low, high)`: Lomuto's scheme with the last cell of the range as pivot. */
  method Partition<T>(a: array<T>, low: int, high: int, cmp: (T, T) -> real) returns (p: int)
    requires 0 <= low <= high < a.Length
    modifies a
    ensures PartitionedAt(a[..], old(a[..]), low, high, p, cmp)
  {
    var pivot := a[high];
    var i := low - 1;
    PartitionStart(a[..], low, high, cmp);
    for j := low to high
      invariant Partitioning(a[..], old(a[..]), low, high, i, j, pivot, cmp)
    {
      i := PartitionVisit(a, low, high, i, j, pivot, cmp, old(a[..]));
    }
    PartitionEnd(a[..], old(a[..]), low, high, i, cmp);
    Swap(a, i + 1, high);
    p := i + 1;
  }

  /** One pass of the Lomuto loop: a cell not after the pivot is swapped to the end of the low part. */
  method PartitionVisit<T>(a: array<T>, low: int, high: int, i: int, j: int, pivot: T, cmp: (T, T) -> real,
                           ghost before: seq<T>)
    returns (i': int)
    requires Partitioning(a[..], before, low, high, i, j, pivot, cmp) && j < high
    modifies a
    ensures Partitioning(a[..], before, low, high, i', j + 1, pivot, cmp)
    ensures i' == if cmp(old(a[j]), pivot) <= 0.0 then i + 1 else i
  {
    PartitionStep(a[..], before, low, high, i, j, pivot, cmp);
    i' := i;
    if cmp(a[j], pivot) <= 0.0 {
      i' := i + 1;
      Swap(a, i', j);
    }
  }

  /**
   * A range made of a sorted part, the pivot, and a sorted part whose
   * elements are all after the pivot, is sorted.
   */
  lemma SortedAroundPivot<T(!new)>(s: seq<T>, low: int, p: int, high: int, cmp: (T, T) -> real)
    requires IsComparator(cmp)
    requires 0 <= low <= p <= high < |s|
    requires Sorted(s[low..p], cmp) && Sorted(s[p + 1..high + 1], cmp)
    requires forall k :: low <= k < p ==> cmp(s[k], s[p]) <= 0.0
    requires forall k :: p < k <= high ==> cmp(s[k], s[p]) > 0.0
    ensures Sorted(s[low..high + 1], cmp)
  {
    forall x, y | low <= x < y < high + 1 ensures cmp(s[x], s[y]) <= 0.0 {
      PairAroundPivot(s, low, p, high, x, y, cmp);
    }
    SortedSlice(s, low, high + 1, cmp);
  }

  /** Any two cells of the range, in order: both on one side, or one on each side of the pivot. */
  lemma PairAroundPivot<T(!new)>(s: seq<T>, low: int, p: int, high: int, x: int, y: int, cmp: (T, T) -> real)
    requires IsComparator(cmp)
    requires 0 <= low <= x < y <= high < |s| && low <= p <= high
    requires Sorted(s[low..p], cmp) && Sorted(s[p + 1..high + 1], cmp)
    requires forall k :: low <= k < p ==> cmp(s[k], s[p]) <= 0.0
    requires forall k :: p < k <= high ==> cmp(s[k], s[p]) > 0.0
    ensures cmp(s[x], s[y]) <= 0.0
  {
    if y < p {
      assert s[x] == s[low..p][x - low] && s[y] == s[low..p][y - low];
    } else if x > p {
      assert s[x] == s[p + 1..high + 1][x - p - 1] && s[y] == s[p + 1..high + 1][y - p - 1];
    } else {
      ThroughPivot(s, low, p, high, x, y, cmp);
    }
  }

  /** An element up to the pivot is not after one from the pivot on. */
  lemma ThroughPivot<T(!new)>(s: seq<T>, low: int, p: int, high: int, x: int, y: int, cmp: (T, T) -> real)
    requires IsComparator(cmp)
    requires 0 <= low <= x <= p <= y <= high < |s| && x < y
    requires forall k :: low <= k < p ==> cmp(s[k], s[p]) <= 0.0
    requires forall k :: p < k <= high ==> cmp(s[k], s[p]) > 0.0
    ensures cmp(s[x], s[y]) <= 0.0
  {
    Reflexive(cmp, s[p]);
    assert cmp(s[x], s[p]) <= 0.0;
    if y > p {
      Flip(cmp, s[y], s[p]);
    }
    assert cmp(s[p], s[y]) <= 0.0;
  }

  /** `s` is `before` with the cells `[low, high]` rearranged, and sorted there when `cmp` is a comparator. */
  ghost predicate SortedWithin<T(!new)>(s: seq<T>, before: seq<T>, low: int, high: int, cmp: (T, T) -> real) {
    0 <= low <= high + 1 <= |s| && PermutedWithin(s, before, low, high) &&
    (IsComparator(cmp) ==> Sorted(s[low..high + 1], cmp))
  }

  /** Sorting both sides of a partition sorts the whole range. */
  lemma QuickSortStep<T(!new)>(s0: seq<T>, s1: seq<T>, s2: seq<T>, s3: seq<T>, low: int, p: int, high: int,
                               cmp: (T, T) -> real)
    requires PartitionedAt(s1, s0, low, high, p, cmp)
    requires SortedWithin(s2, s1, low, p - 1, cmp)
    requires SortedWithin(s3, s2, p + 1, high, cmp)
    ensures SortedWithin(s3, s0, low, high, cmp)
  {
    PermutedWithinTrans(s2, s1, s0, low, high, low, p - 1);
    PermutedWithinTrans(s3, s2, s0, low, high, p + 1, high);
    if IsComparator(cmp) {
      var pivot := s1[p];
      RangeKeeps(s2, s1, low, p - 1, x => cmp(x, pivot) <= 0.0);
      RangeKeeps(s3, s2, p + 1, high, x => cmp(x, pivot) > 0.0);
      assert s3[low..p] == s2[low..p];
      SortedAroundPivot(s3, low, p, high, cmp);
    }
  }

  lemma SortedWithinTrivial<T(!new)>(s: seq<T>, low: int, high: int, cmp: (T, T) -> real)
    requires 0 <= low <= high + 1 <= |s| && high <= low
    ensures SortedWithin(s, s, low, high, cmp)
  {
  }

  /**
   * `quickSort(arr, low, high)`: sorts the cells `[low, high]` in place,
   * rearranging only them.
   */
  method QuickSortRange<T(!new)>(a: array<T>, low: int, high: int, cmp: (T, T) -> real)
    requires 0 <= low <= high + 1 <= a.Length
    modifies a
    ensures SortedWithin(a[..], old(a[..]), low, high, cmp)
    decreases high - low
  {
    if low < high {
      ghost var s0 := a[..];
      var p := Partition(a, low, high, cmp);
      ghost var s1 := a[..];
      QuickSortRange(a, low, p - 1, cmp);
      ghost var s2 := a[..];
      QuickSortRange(a, p + 1, high, cmp);
      QuickSortStep(s0, s1, s2, a[..], low, p, high, cmp);
    } else {
      SortedWithinTrivial(a[..], low, high, cmp);
    }
  }

  /**
   * `sort`: a sequence of at most one element comes back as it is;
   * anything else is copied into a fresh array, quick sorted there, and
   * the copy returned.
   */
  method Sort<T(!new)>(arr: seq<T>, compareFn: Option<(T, T) -> real> := None, sortBy: Option<T -> real> := None,
                       order: string := "asc", natural: T -> real) returns (r: seq<T>)
    ensures multiset(r) == multiset(arr)
    ensures |arr| <= 1 ==> r == arr
    ensures IsComparator(SortComparator(compareFn, sortBy, order, natural)) ==>
      Sorted(r, SortComparator(compareFn, sortBy, order, natural))
  {
    if |arr| <= 1 {
      return arr;
    }
    var a := new T[|arr|](i requires 0 <= i < |arr| => arr[i]);
    assert a[..] == arr;
    var cmp := SortComparator(compareFn, sortBy, order, natural);
    QuickSortRange(a, 0, a.Length - 1, cmp);
    assert a[0..a.Length] == a[..];
    r := a[..];
  }

  /** `m` is one of `x`, `y`, `z`, with one of the other two not after it and the other not before it. */
  ghost predicate MedianOf3<T>(m: T, x: T, y: T, z: T, cmp: (T, T) -> real) {
    (m == x && Between(y, m, z, cmp)) || (m == y && Between(x, m, z, cmp)) || (m == z && Between(x, m, y, cmp))
  }

  ghost predicate Between<T>(u: T, m: T, v: T, cmp: (T, T) -> real) {
    (cmp(u, m) <= 0.0 && cmp(m, v) <= 0.0) || (cmp(v, m) <= 0.0 && cmp(m, u) <= 0.0)
  }

  /** The three conditional swaps and the move of the middle cell to `high`, on a sequence. */
  function MedianSwapped<T>(s: seq<T>, low: int, high: int, cmp: (T, T) -> real): seq<T>
    requires 0 <= low <= high < |s|
  {
    var mid := (low + high) / 2;
    var s1 := if cmp(s[mid], s[low]) < 0.0 then Swapped(s, mid, low) else s;
    var s2 := if cmp(s1[high], s1[low]) < 0.0 then Swapped(s1, high, low) else s1;
    var s3 := if cmp(s2[high], s2[mid]) < 0.0 then Swapped(s2, high, mid) else s2;
    Swapped(s3, mid, high)
  }

  /** The median step only rearranges the range. */
  lemma MedianSwappedPermutes<T>(s: seq<T>, low: int, high: int, cmp: (T, T) -> real)
    requires 0 <= low <= high < |s|
    ensures PermutedWithin(MedianSwapped(s, low, high, cmp), s, low, high)
  {
    var mid := (low + high) / 2;
    var s1 := if cmp(s[mid], s[low]) < 0.0 then Swapped(s, mid, low) else s;
    var s2 := if cmp(s1[high], s1[low]) < 0.0 then Swapped(s1, high, low) else s1;
    var s3 := if cmp(s2[high], s2[mid]) < 0.0 then Swapped(s2, high, mid) else s2;
    SwapWithin(s, mid, low, low, high);
    PermutedWithinRefl(s, low, high);
    SwapWithin(s1, high, low, low, high);
    PermutedWithinTrans(s2, s1, s, low, high, low, high);
    SwapWithin(s2, high, mid, low, high);
    PermutedWithinTrans(s3, s2, s, low, high, low, high);
    SwapWithin(s3, mid, high, low, high);
    PermutedWithinTrans(Swapped(s3, mid, high), s3, s, low, high, low, high);
  }

  /** On three distinct cells, the median step leaves the middle of the three at `high`. */
  lemma MedianSwappedMiddle<T>(s: seq<T>, low: int, high: int, cmp: (T, T) -> real)
    requires 0 <= low && low + 2 <= high < |s|
    ensures MedianSwapped(s, low, high, cmp)[high] == Ordered3(s[low], s[(low + high) / 2], s[high], cmp).1
  {
  }

  /**
   * The outcome of `partitionWithMedianPivot`: a partition of `[low, high]`
   * whose pivot, on a range of at least three cells, is the median of the
   * original first, middle and last cells.
   */
  ghost predicate MedianPartitioned<T(!new)>(s: seq<T>, before: seq<T>, low: int, high: int, p: int,
                                             cmp: (T, T) -> real) {
    0 <= low <= p <= high < |s| && |before| == |s| &&
    (forall k :: low <= k < p ==> cmp(s[k], s[p]) <= 0.0) &&
    (forall k :: p < k <= high ==> cmp(s[k], s[p]) > 0.0) &&
    PermutedWithin(s, before, low, high) &&
    (IsComparator(cmp) && high - low >= 2 ==>
      MedianOf3(s[p], before[low], before[(low + high) / 2], before[high], cmp))
  }

  lemma MedianPartition<T(!new)>(s0: seq<T>, s1: seq<T>, s: seq<T>, low: int, high: int, p: int, cmp: (T, T) -> real)
    requires 0 <= low <= high < |s0|
    requires s1 == MedianSwapped(s0, low, high, cmp)
    requires PartitionedAt(s, s1, low, high, p, cmp)
    ensures MedianPartitioned(s, s0, low, high, p, cmp)
  {
    MedianSwappedPermutes(s0, low, high, cmp);
    PermutedWithinTrans(s, s1, s0, low, high, low, high);
    if IsComparator(cmp) && high - low >= 2 {
      MedianSwappedMiddle(s0, low, high, cmp);
      MedianSwaps(s0[low], s0[(low + high) / 2], s0[high], cmp);
    }
  }

  /**
   * `partitionWithMedianPivot`: order the cells `low`, `mid`, `high` with
   * three conditional swaps, move the middle one to `high`, and partition.
   */
  method PartitionWithMedianPivot<T(!new)>(a: array<T>, low: int, high: int, cmp: (T, T) -> real) returns (p: int)
    requires 0 <= low <= high < a.Length
    modifies a
    ensures MedianPartitioned(a[..], old(a[..]), low, high, p, cmp)
  {
    var mid := (low + high) / 2;
    ghost var s0 := a[..];
    if cmp(a[mid], a[low]) < 0.0 {
      Swap(a, mid, low);
    }
    if cmp(a[high], a[low]) < 0.0 {
      Swap(a, high, low);
    }
    if cmp(a[high], a[mid]) < 0.0 {
      Swap(a, high, mid);
    }
    Swap(a, mid, high);
    ghost var s1 := a[..];
    assert s1 == MedianSwapped(s0, low, high, cmp);
    p := Partition(a, low, high, cmp);
    MedianPartition(s0, s1, a[..], low, high, p, cmp);
  }

  /** The three conditional swaps of the median-of-three step, on values. */
  function Ordered3<T>(x: T, y: T, z: T, cmp: (T, T) -> real): (T, T, T) {
    var (l1, m1) := if cmp(y, x) < 0.0 then (y, x) else (x, y);
    var (l2, h2) := if cmp(z, l1) < 0.0 then (z, l1) else (l1, z);
    var (m3, h3) := if cmp(h2, m1) < 0.0 then (h2, m1) else (m1, h2);
    (l2, m3, h3)
  }

  /** The middle value after the swaps is the median of the three. */
  lemma MedianSwaps<T(!new)>(x: T, y: T, z: T, cmp: (T, T) -> real)
    requires IsComparator(cmp)
    ensures MedianOf3(Ordered3(x, y, z, cmp).1, x, y, z, cmp)
  {
    Flip(cmp, x, y);
    Flip(cmp, y, z);
    Flip(cmp, x, z);
  }

  /** One sort criterion: a numeric field and an order. */
  datatype Criterion<!T> = Criterion(field: T -> real, order: string)

  /** One criterion's comparison: the difference of the fields, negated for 'desc'. */
  function CriterionCompare<T>(c: Criterion<T>, a: T, b: T): (d: real)
    ensures c.order != "desc" ==> (d < 0.0 <==> c.field(a) < c.field(b))
    ensures c.order == "desc" ==> (d < 0.0 <==> c.field(a) > c.field(b))
    ensures d == 0.0 <==> c.field(a) == c.field(b)
  {
    var comparison := c.field(a) - c.field(b);
    if c.order == "desc" then -comparison else comparison
  }

  /** The `multiCriteriaSort` comparator: the first criterion that tells the two apart decides. */
  function Compare<T>(criteria: seq<Criterion<T>>, a: T, b: T): real {
    if criteria == [] then 0.0
    else
      var d := CriterionCompare(criteria[0], a, b);
      if d != 0.0 then d else Compare(criteria[1..], a, b)
  }

  function MultiCriteria<T>(criteria: seq<Criterion<T>>): (T, T) -> real {
    (a: T, b: T) => Compare(criteria, a, b)
  }

  /** Two elements tie exactly when every criterion's field is equal. */
  lemma {:induction false} CompareZero<T>(criteria: seq<Criterion<T>>, a: T, b: T)
    ensures Compare(criteria, a, b) == 0.0 <==>
      forall k :: 0 <= k < |criteria| ==> criteria[k].field(a) == criteria[k].field(b)
  {
    if criteria != [] {
      CompareZero(criteria[1..], a, b);
      if Compare(criteria, a, b) == 0.0 {
        forall k | 0 <= k < |criteria| ensures criteria[k].field(a) == criteria[k].field(b) {
          if k > 0 { assert criteria[k] == criteria[1..][k - 1]; }
        }
      } else if CriterionCompare(criteria[0], a, b) == 0.0 {
        var k :| 0 <= k < |criteria[1..]| && criteria[1..][k].field(a) != criteria[1..][k].field(b);
        assert criteria[k + 1] == criteria[1..][k];
      }
    }
  }

  /** The comparison is that of the first criterion on which the two differ. */
  lemma {:induction false} CompareFirst<T>(criteria: seq<Criterion<T>>, a: T, b: T, k: nat)
    requires k < |criteria|
    requires forall i :: 0 <= i < k ==> criteria[i].field(a) == criteria[i].field(b)
    requires criteria[k].field(a) != criteria[k].field(b)
    ensures Compare(criteria, a, b) == CriterionCompare(criteria[k], a, b)
  {
    if k > 0 {
      assert criteria[0].field(a) == criteria[0].field(b);
      forall i | 0 <= i < k - 1 ensures criteria[1..][i].field(a) == criteria[1..][i].field(b) {
        assert criteria[1..][i] == criteria[i + 1];
      }
      CompareFirst(criteria[1..], a, b, k - 1);
    }
  }

  lemma {:induction false} CompareAntisymmetric<T>(criteria: seq<Criterion<T>>, a: T, b: T)
    ensures Compare(criteria, a, b) == -Compare(criteria, b, a)
  {
    if criteria != [] {
      CompareAntisymmetric(criteria[1..], a, b);
    }
  }

  lemma {:induction false} CompareTransitive<T>(criteria: seq<Criterion<T>>, a: T, b: T, c: T)
    requires Compare(criteria, a, b) <= 0.0 && Compare(criteria, b, c) <= 0.0
    ensures Compare(criteria, a, c) <= 0.0
  {
    if criteria != [] {
      var d1 := CriterionCompare(criteria[0], a, b);
      var d2 := CriterionCompare(criteria[0], b, c);
      assert CriterionCompare(criteria[0], a, c) == d1 + d2;
      if d1 == 0.0 && d2 == 0.0 {
        CompareTransitive(criteria[1..], a, b, c);
      }
    }
  }

  /** The multi-criteria comparator is always a valid comparator. */
  lemma MultiCriteriaValid<T(!new)>(criteria: seq<Criterion<T>>)
    ensures IsComparator(MultiCriteria(criteria))
  {
    var cmp := MultiCriteria(criteria);
    forall a, b ensures cmp(a, b) < 0.0 <==> cmp(b, a) > 0.0 {
      CompareAntisymmetric(criteria, a, b);
    }
    forall a, b, c | cmp(a, b) <= 0.0 && cmp(b, c) <= 0.0 ensures cmp(a, c) <= 0.0 {
      CompareTransitive(criteria, a, b, c);
    }
  }

  /** `multiCriteriaSort`: quick sort under the multi-criteria comparator. */
  method MultiCriteriaSort<T(!new)>(equipment: seq<T>, criteria: seq<Criterion<T>>) returns (r: seq<T>)
    ensures multiset(r) == multiset(equipment)
    ensures Sorted(r, MultiCriteria(criteria))
  {
    MultiCriteriaValid(criteria);
    r := Sort(equipment, Some(MultiCriteria(criteria)), None, "asc", (x: T) => 0.0);
  }
}
