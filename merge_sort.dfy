/**
 * The stable, copy-based merge sort of `sorting/mergeSort.js`.
 *
 * `MergeSort` is the recursive sort over slices, `Merge` the merge it
 * performs; `MergeLoop` is the merge loop itself, proved to compute
 * `Merge`.  Every sort here returns a new sequence, so the caller's
 * sequence is unchanged by construction.
 */
module MergeSorting {
  import opened Common
  import opened Ordering
  import opened Catalog
  import opened Comparators

  /**
   * What `merge` produces once its indices stand at `i` and `j`: on a tie
   * the left element goes first, and when one run is used up the rest of
   * the other follows.
   */
  function MergeFrom<T>(left: seq<T>, right: seq<T>, i: nat, j: nat, cmp: (T, T) -> real): (m: seq<T>)
    requires i <= |left| && j <= |right|
    ensures |m| == |left| - i + |right| - j
    decreases |left| - i + |right| - j
  {
    if i == |left| then right[j..]
    else if j == |right| then left[i..]
    else if cmp(left[i], right[j]) <= 0.0 then [left[i]] + MergeFrom(left, right, i + 1, j, cmp)
    else [right[j]] + MergeFrom(left, right, i, j + 1, cmp)
  }

  /** The merge of two whole runs. */
  function Merge<T>(left: seq<T>, right: seq<T>, cmp: (T, T) -> real): (m: seq<T>)
    ensures |m| == |left| + |right|
  {
    MergeFrom(left, right, 0, 0, cmp)
  }

  /** Merging from `i` and `j` is merging what is left of the two runs. */
  lemma {:induction false} MergeFromSlices<T>(left: seq<T>, right: seq<T>, i: nat, j: nat, cmp: (T, T) -> real)
    requires i <= |left| && j <= |right|
    ensures MergeFrom(left, right, i, j, cmp) == Merge(left[i..], right[j..], cmp)
    decreases |left| - i + |right| - j
  {
    var l, r := left[i..], right[j..];
    if i == |left| {
      assert r[0..] == r;
    } else if j == |right| {
      assert l[0..] == l;
    } else if cmp(left[i], right[j]) <= 0.0 {
      MergeFromSlices(left, right, i + 1, j, cmp);
      MergeFromSlices(l, r, 1, 0, cmp);
      assert l[1..] == left[i + 1..] && r[0..] == r;
    } else {
      MergeFromSlices(left, right, i, j + 1, cmp);
      MergeFromSlices(l, r, 0, 1, cmp);
      assert r[1..] == right[j + 1..] && l[0..] == l;
    }
  }

  /** One step of `Merge`, as a recursion on the two runs. */
  lemma MergeStep<T>(left: seq<T>, right: seq<T>, cmp: (T, T) -> real)
    ensures left == [] ==> Merge(left, right, cmp) == right
    ensures left != [] && right == [] ==> Merge(left, right, cmp) == left
    ensures left != [] && right != [] && cmp(left[0], right[0]) <= 0.0 ==>
      Merge(left, right, cmp) == [left[0]] + Merge(left[1..], right, cmp)
    ensures left != [] && right != [] && cmp(left[0], right[0]) > 0.0 ==>
      Merge(left, right, cmp) == [right[0]] + Merge(left, right[1..], cmp)
  {
    assert left[0..] == left && right[0..] == right;
    if left != [] && right != [] {
      if cmp(left[0], right[0]) <= 0.0 {
        MergeFromSlices(left, right, 1, 0, cmp);
      } else {
        MergeFromSlices(left, right, 0, 1, cmp);
      }
    }
  }

  /** The merge is a permutation of the two runs together. */
  lemma {:induction false} MergePermutation<T>(left: seq<T>, right: seq<T>, cmp: (T, T) -> real)
    ensures multiset(Merge(left, right, cmp)) == multiset(left) + multiset(right)
    decreases |left| + |right|
  {
    MergeStep(left, right, cmp);
    if left != [] && right != [] {
      if cmp(left[0], right[0]) <= 0.0 {
        MergePermutation(left[1..], right, cmp);
        assert left == [left[0]] + left[1..];
      } else {
        MergePermutation(left, right[1..], cmp);
        assert right == [right[0]] + right[1..];
      }
    }
  }

  /** An element not after everything in both runs is not after anything in their merge. */
  lemma MergeAllAfter<T>(x: T, left: seq<T>, right: seq<T>, cmp: (T, T) -> real)
    requires AllAfter(x, left, cmp) && AllAfter(x, right, cmp)
    ensures AllAfter(x, Merge(left, right, cmp), cmp)
  {
    var m := Merge(left, right, cmp);
    MergePermutation(left, right, cmp);
    forall i | 0 <= i < |m| ensures cmp(x, m[i]) <= 0.0 {
      assert m[i] in multiset(m);
      assert m[i] in left || m[i] in right;
    }
  }

  /** Merging two sorted runs gives a sorted run. */
  lemma {:induction false} MergeSorted<T(!new)>(left: seq<T>, right: seq<T>, cmp: (T, T) -> real)
    requires IsComparator(cmp)
    requires Sorted(left, cmp) && Sorted(right, cmp)
    ensures Sorted(Merge(left, right, cmp), cmp)
    decreases |left| + |right|
  {
    MergeStep(left, right, cmp);
    if left != [] && right != [] {
      var a, b := left[0], right[0];
      if cmp(a, b) <= 0.0 {
        MergeSorted(left[1..], right, cmp);
        assert AllAfter(a, right, cmp) by {
          forall i | 0 <= i < |right| ensures cmp(a, right[i]) <= 0.0 {
            assert cmp(b, right[i]) <= 0.0 || i == 0;
          }
        }
        MergeAllAfter(a, left[1..], right, cmp);
        SortedCons(a, Merge(left[1..], right, cmp), cmp);
      } else {
        Flip(cmp, a, b);
        MergeSorted(left, right[1..], cmp);
        assert AllAfter(b, left, cmp) by {
          forall i | 0 <= i < |left| ensures cmp(b, left[i]) <= 0.0 {
            assert cmp(a, left[i]) <= 0.0 || i == 0;
          }
        }
        MergeAllAfter(b, left, right[1..], cmp);
        SortedCons(b, Merge(left, right[1..], cmp), cmp);
      }
    }
  }

  /**
   * Merging keeps every tie class in order, the left run's members
   * before the right run's: this is where the sort's stability comes from.
   */
  lemma {:induction false} MergeStable<T(!new)>(left: seq<T>, right: seq<T>, x: T, cmp: (T, T) -> real)
    requires IsComparator(cmp)
    requires Sorted(left, cmp)
    ensures Same(Merge(left, right, cmp), x, cmp) == Same(left, x, cmp) + Same(right, x, cmp)
    decreases |left| + |right|
  {
    if left == [] {
      MergeStep(left, right, cmp);
      assert Same(left, x, cmp) == [];
      assert [] + Same(right, x, cmp) == Same(right, x, cmp);
    } else if right == [] {
      MergeStep(left, right, cmp);
      assert Same(right, x, cmp) == [];
      assert Same(left, x, cmp) + [] == Same(left, x, cmp);
    } else if cmp(left[0], right[0]) <= 0.0 {
      MergeStable(left[1..], right, x, cmp);
      assert Merge(left, right, cmp) == [left[0]] + Merge(left[1..], right, cmp) by {
        MergeStep(left, right, cmp);
      }
      StableTakeLeft(left[0], left[1..], right, Merge(left[1..], right, cmp), Merge(left, right, cmp), x, cmp);
      assert left == [left[0]] + left[1..];
    } else {
      MergeStable(left, right[1..], x, cmp);
      assert cmp(right[0], x) == 0.0 ==> Same(left, x, cmp) == [] by {
        if cmp(right[0], x) == 0.0 {
          NoTieBefore(left, right[0], x, cmp);
        }
      }
      assert Merge(left, right, cmp) == [right[0]] + Merge(left, right[1..], cmp) by {
        MergeStep(left, right, cmp);
      }
      StableTakeRight(right[0], left, right[1..], Merge(left, right[1..], cmp), Merge(left, right, cmp), x, cmp);
      assert right == [right[0]] + right[1..];
    }
  }

  /**
   * The step of `MergeStable` where the left head `y` is taken: `mm` is
   * `y` followed by `m`, the merge of the rest of the left run `l` with
   * the right run `r`.
   */
  lemma StableTakeLeft<T>(y: T, l: seq<T>, r: seq<T>, m: seq<T>, mm: seq<T>, x: T, cmp: (T, T) -> real)
    requires mm == [y] + m
    requires Same(m, x, cmp) == Same(l, x, cmp) + Same(r, x, cmp)
    ensures Same(mm, x, cmp) == Same([y] + l, x, cmp) + Same(r, x, cmp)
  {
    SameCons(y, m, x, cmp);
    SameCons(y, l, x, cmp);
    var h := if cmp(y, x) == 0.0 then [y] else [];
    SeqAssoc(h, Same(l, x, cmp), Same(r, x, cmp));
  }

  /**
   * The step of `MergeStable` where the right head `y` is taken; when `y`
   * ties with `x`, nothing in the left run `l` does.
   */
  lemma StableTakeRight<T>(y: T, l: seq<T>, r: seq<T>, m: seq<T>, mm: seq<T>, x: T, cmp: (T, T) -> real)
    requires mm == [y] + m
    requires cmp(y, x) == 0.0 ==> Same(l, x, cmp) == []
    requires Same(m, x, cmp) == Same(l, x, cmp) + Same(r, x, cmp)
    ensures Same(mm, x, cmp) == Same(l, x, cmp) + Same([y] + r, x, cmp)
  {
    SameCons(y, m, x, cmp);
    SameCons(y, r, x, cmp);
    var h := if cmp(y, x) == 0.0 then [y] else [];
    var a, b := Same(l, x, cmp), Same(r, x, cmp);
    if cmp(y, x) == 0.0 {
      assert a + b == b && a + (h + b) == h + b;
    } else {
      assert h + (a + b) == a + b && h + b == b;
    }
  }

  /** When `b` goes strictly before the head of a sorted run, nothing in the run ties with `b`'s class. */
  lemma NoTieBefore<T(!new)>(left: seq<T>, b: T, x: T, cmp: (T, T) -> real)
    requires IsComparator(cmp)
    requires Sorted(left, cmp)
    requires left != [] && cmp(left[0], b) > 0.0 && cmp(b, x) == 0.0
    ensures Same(left, x, cmp) == []
  {
    forall i | 0 <= i < |left| ensures cmp(left[i], x) != 0.0 {
      assert cmp(left[0], left[i]) <= 0.0 || i == 0;
      assert cmp(left[i], b) > 0.0;
      TieTransfer(cmp, b, x, left[i]);
    }
    SameEmpty(left, x, cmp);
  }

  /** `mergeSort`: split at the middle, sort both halves, merge. */
  function MergeSort<T>(s: seq<T>, cmp: (T, T) -> real): (r: seq<T>)
    ensures |r| == |s|
    ensures multiset(r) == multiset(s)
    decreases |s|
  {
    if |s| <= 1 then s
    else
      var mid := |s| / 2;
      assert s == s[..mid] + s[mid..];
      MergePermutation(MergeSort(s[..mid], cmp), MergeSort(s[mid..], cmp), cmp);
      Merge(MergeSort(s[..mid], cmp), MergeSort(s[mid..], cmp), cmp)
  }

  /** Merge sort orders its result and keeps every tie class in input order. */
  lemma {:induction false} MergeSortCorrect<T(!new)>(s: seq<T>, cmp: (T, T) -> real)
    requires IsComparator(cmp)
    ensures Sorted(MergeSort(s, cmp), cmp)
    ensures StableOf(MergeSort(s, cmp), s, cmp)
    decreases |s|
  {
    if |s| > 1 {
      var mid := |s| / 2;
      var l, r := MergeSort(s[..mid], cmp), MergeSort(s[mid..], cmp);
      MergeSortCorrect(s[..mid], cmp);
      MergeSortCorrect(s[mid..], cmp);
      MergeSorted(l, r, cmp);
      forall x ensures Same(MergeSort(s, cmp), x, cmp) == Same(s, x, cmp) {
        MergeStable(l, r, x, cmp);
        assert s == s[..mid] + s[mid..];
        SameConcat(s[..mid], s[mid..], x, cmp);
      }
    }
  }

  lemma MergeSortCorrectIf<T(!new)>(s: seq<T>, cmp: (T, T) -> real)
    ensures IsComparator(cmp) ==> Sorted(MergeSort(s, cmp), cmp) && StableOf(MergeSort(s, cmp), s, cmp)
  {
    if IsComparator(cmp) {
      MergeSortCorrect(s, cmp);
    }
  }

  /** Stable sorting has one possible outcome: any sorted, stable rearrangement is the merge sort. */
  lemma MergeSortUnique<T(!new)>(s: seq<T>, r: seq<T>, cmp: (T, T) -> real)
    requires IsComparator(cmp)
    requires Sorted(r, cmp) && StableOf(r, s, cmp)
    ensures r == MergeSort(s, cmp)
  {
    MergeSortCorrect(s, cmp);
    forall x ensures Same(r, x, cmp) == Same(MergeSort(s, cmp), x, cmp) {
    }
    SortedUnique(r, MergeSort(s, cmp), cmp);
  }

  /**
   * Sorting by a numeric field with `(a, b) => a.f - b.f`: the same items,
   * the field ascending, and items whose fields are equal in their input order.
   */
  lemma SortedByKey<T(!new)>(s: seq<T>, key: T -> real)
    ensures var r := MergeSort(s, Ascending(key));
      multiset(r) == multiset(s) &&
      (forall i, j :: 0 <= i < j < |r| ==> key(r[i]) <= key(r[j])) &&
      StableOf(r, s, Ascending(key))
  {
    AscendingMeaning(key, MergeSort(s, Ascending(key)));
    MergeSortCorrect(s, Ascending(key));
  }

  /** Cutting that sort after `k` items leaves out nothing smaller than an item kept. */
  lemma KeptSmallest<T(!new)>(s: seq<T>, key: T -> real, k: nat, y: T)
    requires k <= |s| && y in s && y !in MergeSort(s, Ascending(key))[..k]
    ensures forall x :: x in MergeSort(s, Ascending(key))[..k] ==> key(x) <= key(y)
  {
    var r := MergeSort(s, Ascending(key));
    SortedByKey(s, key);
    assert y in multiset(r);
    var p :| 0 <= p < |r| && r[p] == y;
    forall x | x in r[..k] ensures key(x) <= key(y) {
      var i :| 0 <= i < k && r[..k][i] == x;
      assert r[i] == x;
    }
  }

  /** Moving the next element of the merge onto the output keeps output and remaining merge together. */
  lemma MergeTakes<T>(result: seq<T>, left: seq<T>, right: seq<T>, li: nat, ri: nat, cmp: (T, T) -> real)
    requires li < |left| && ri < |right|
    ensures cmp(left[li], right[ri]) <= 0.0 ==>
      result + MergeFrom(left, right, li, ri, cmp) == (result + [left[li]]) + MergeFrom(left, right, li + 1, ri, cmp)
    ensures cmp(left[li], right[ri]) > 0.0 ==>
      result + MergeFrom(left, right, li, ri, cmp) == (result + [right[ri]]) + MergeFrom(left, right, li, ri + 1, cmp)
  {
  }

  /** Once one run is used up, the rest of the merge is what is left of both runs. */
  lemma MergeRest<T>(result: seq<T>, left: seq<T>, right: seq<T>, li: nat, ri: nat, cmp: (T, T) -> real)
    requires li <= |left| && ri <= |right| && (li == |left| || ri == |right|)
    ensures result + MergeFrom(left, right, li, ri, cmp) == (result + left[li..]) + right[ri..]
  {
    if li == |left| {
      assert left[li..] == [];
    } else {
      assert right[ri..] == [];
    }
  }

  /** `merge`: the two-index loop, then the two loops that copy what is left. */
  method MergeLoop<T>(left: seq<T>, right: seq<T>, cmp: (T, T) -> real) returns (result: seq<T>)
    ensures result == Merge(left, right, cmp)
  {
    var li, ri;
    result, li, ri := MergeHeads(left, right, cmp);
    MergeRest(result, left, right, li, ri, cmp);
    result := CopyRest(result, left, li);
    result := CopyRest(result, right, ri);
  }

  /**
   * The two-index loop of `merge`: it stops when one run is used up, and
   * what it has output, followed by the merge of what is left, is the merge
   * of the two runs.
   */
  method MergeHeads<T>(left: seq<T>, right: seq<T>, cmp: (T, T) -> real) returns (result: seq<T>, li: nat, ri: nat)
    ensures li <= |left| && ri <= |right| && (li == |left| || ri == |right|)
    ensures result + MergeFrom(left, right, li, ri, cmp) == Merge(left, right, cmp)
  {
    result := [];
    li, ri := 0, 0;
    while li < |left| && ri < |right|
      invariant li <= |left| && ri <= |right|
      invariant result + MergeFrom(left, right, li, ri, cmp) == Merge(left, right, cmp)
      decreases |left| - li + |right| - ri
    {
      MergeTakes(result, left, right, li, ri, cmp);
      if cmp(left[li], right[ri]) <= 0.0 {
        result := result + [left[li]];
        li := li + 1;
      } else {
        result := result + [right[ri]];
        ri := ri + 1;
      }
    }
  }

  /** The loops at the end of `merge` that copy what is left of one run. */
  method CopyRest<T>(result: seq<T>, s: seq<T>, k: nat) returns (r: seq<T>)
    requires k <= |s|
    ensures r == result + s[k..]
  {
    r := result;
    var i := k;
    while i < |s|
      invariant k <= i <= |s| && r == result + s[k..i]
    {
      assert s[k..i + 1] == s[k..i] + [s[i]];
      r := r + [s[i]];
      i := i + 1;
    }
    assert s[k..i] == s[k..];
  }

  /**
   * `sort`: null gives the empty sequence, a sequence of at most one
   * element comes back as it is, anything else is merge sorted.
   */
  function Sort<T(!new)>(arr: Option<seq<T>>, compareFn: Option<(T, T) -> real> := None, sortBy: Option<T -> real> := None,
                         order: string := "asc", natural: T -> real): (r: seq<T>)
    ensures arr.None? ==> r == []
    ensures arr.Some? ==> multiset(r) == multiset(arr.value)
    ensures arr.Some? && |arr.value| <= 1 ==> r == arr.value
    ensures arr.Some? && IsComparator(SortComparator(compareFn, sortBy, order, natural)) ==>
      Sorted(r, SortComparator(compareFn, sortBy, order, natural)) &&
      StableOf(r, arr.value, SortComparator(compareFn, sortBy, order, natural))
  {
    match arr
    case None => []
    case Some(s) =>
      if |s| <= 1 then s
      else
        var cmp := SortComparator(compareFn, sortBy, order, natural);
        MergeSortCorrectIf(s, cmp);
        MergeSort(s, cmp)
  }

  /** The comparator of `sortByRating`: by rating (missing counts as 0), descending for 'desc'. */
  function RatingCompare(order: string): (Equipment, Equipment) -> real {
    (a: Equipment, b: Equipment) =>
      if order == "desc" then b.rating - a.rating else a.rating - b.rating
  }

  lemma RatingCompareValid(order: string)
    ensures IsComparator(RatingCompare(order))
    ensures forall a, b :: RatingCompare(order)(a, b) == 0.0 <==> a.rating == b.rating
  {
  }

  /**
   * `sortByRating`: a stable rearrangement by rating, highest first for
   * 'desc' (the default) and lowest first otherwise; equal ratings keep
   * their catalogue order.
   */
  function SortByRating(equipment: seq<Equipment>, order: string := "desc"): (r: seq<Equipment>)
    ensures multiset(r) == multiset(equipment)
    ensures order == "desc" ==> forall i, j :: 0 <= i < j < |r| ==> r[i].rating >= r[j].rating
    ensures order != "desc" ==> forall i, j :: 0 <= i < j < |r| ==> r[i].rating <= r[j].rating
    ensures StableOf(r, equipment, RatingCompare(order))
  {
    RatingCompareValid(order);
    Sort(Some(equipment), Some(RatingCompare(order)), None, order, (e: Equipment) => e.rating)
  }

  /** The concatenation of a list of runs, in order. */
  function Flatten<T>(chunks: seq<seq<T>>): seq<T> {
    if chunks == [] then [] else Flatten(chunks[..|chunks| - 1]) + chunks[|chunks| - 1]
  }

  lemma FlattenAppend<T>(chunks: seq<seq<T>>, c: seq<T>)
    ensures Flatten(chunks + [c]) == Flatten(chunks) + c
  {
    assert (chunks + [c])[..|chunks|] == chunks;
  }

  /** Stability composes under concatenation. */
  lemma StableConcat<T(!new)>(a: seq<T>, b: seq<T>, a': seq<T>, b': seq<T>, cmp: (T, T) -> real)
    requires StableOf(a, a', cmp) && StableOf(b, b', cmp)
    ensures StableOf(a + b, a' + b', cmp)
  {
    forall x ensures Same(a + b, x, cmp) == Same(a' + b', x, cmp) {
      SameConcat(a, b, x, cmp);
      SameConcat(a', b', x, cmp);
    }
  }

  /** Every run in the list is sorted. */
  ghost predicate AllSorted<T>(chunks: seq<seq<T>>, cmp: (T, T) -> real) {
    forall k :: 0 <= k < |chunks| ==> Sorted(chunks[k], cmp)
  }

  /** The first phase of `externalMergeSort`: cut into runs of `chunkSize` and merge sort each. */
  method SortChunks<T(!new)>(arr: seq<T>, cmp: (T, T) -> real, chunkSize: int) returns (chunks: seq<seq<T>>)
    requires chunkSize > 0
    ensures |arr| > 0 ==> |chunks| >= 1
    ensures multiset(Flatten(chunks)) == multiset(arr)
    ensures IsComparator(cmp) ==> AllSorted(chunks, cmp) && StableOf(Flatten(chunks), arr, cmp)
  {
    chunks := [];
    var i := 0;
    while i < |arr|
      invariant 0 <= i <= |arr|
      invariant i > 0 ==> |chunks| >= 1
      invariant multiset(Flatten(chunks)) == multiset(arr[..i])
      invariant IsComparator(cmp) ==> AllSorted(chunks, cmp) && StableOf(Flatten(chunks), arr[..i], cmp)
    {
      var end := Min(i + chunkSize, |arr|);
      var chunk := arr[i..end];
      var sorted := MergeSort(chunk, cmp);
      FlattenAppend(chunks, sorted);
      assert arr[..end] == arr[..i] + chunk;
      MergeSortCorrectIf(chunk, cmp);
      if IsComparator(cmp) {
        StableConcat(Flatten(chunks), sorted, arr[..i], chunk, cmp);
      }
      chunks := chunks + [sorted];
      i := end;
    }
    assert arr[..i] == arr;
  }

  /** Merging two sorted runs keeps the classes of their concatenation. */
  lemma MergeStableOf<T(!new)>(a: seq<T>, b: seq<T>, cmp: (T, T) -> real)
    requires IsComparator(cmp) && Sorted(a, cmp) && Sorted(b, cmp)
    ensures Sorted(Merge(a, b, cmp), cmp)
    ensures StableOf(Merge(a, b, cmp), a + b, cmp)
  {
    MergeSorted(a, b, cmp);
    forall x ensures Same(Merge(a, b, cmp), x, cmp) == Same(a + b, x, cmp) {
      MergeStable(a, b, x, cmp);
      SameConcat(a, b, x, cmp);
    }
  }

  /** The runs the pair step at index `j` consumes: runs `j` and `j + 1`, or run `j` alone when it is the last. */
  function Consumed<T>(chunks: seq<seq<T>>, j: nat): seq<T>
    requires j < |chunks|
  {
    if j + 1 < |chunks| then chunks[j] + chunks[j + 1] else chunks[j]
  }

  /** One more sorted run keeps every run sorted. */
  lemma AllSortedAppend<T>(chunks: seq<seq<T>>, next: seq<T>, cmp: (T, T) -> real)
    requires AllSorted(chunks, cmp) && Sorted(next, cmp)
    ensures AllSorted(chunks + [next], cmp)
  {
    forall k | 0 <= k < |chunks| + 1 ensures Sorted((chunks + [next])[k], cmp) {
      if k < |chunks| {
        assert (chunks + [next])[k] == chunks[k];
      }
    }
  }

  lemma PairStep<T(!new)>(chunks: seq<seq<T>>, j: nat, next: seq<T>, cmp: (T, T) -> real)
    requires j < |chunks|
    requires next == if j + 1 < |chunks| then Merge(chunks[j], chunks[j + 1], cmp) else chunks[j]
    ensures Flatten(chunks[..Min(j + 2, |chunks|)]) == Flatten(chunks[..j]) + Consumed(chunks, j)
    ensures multiset(next) == multiset(Consumed(chunks, j))
    ensures IsComparator(cmp) && AllSorted(chunks, cmp) ==> Sorted(next, cmp) && StableOf(next, Consumed(chunks, j), cmp)
  {
    FlattenAppend(chunks[..j], chunks[j]);
    if j + 1 < |chunks| {
      assert chunks[..j + 2] == chunks[..j] + [chunks[j]] + [chunks[j + 1]];
      FlattenAppend(chunks[..j] + [chunks[j]], chunks[j + 1]);
      MergePermutation(chunks[j], chunks[j + 1], cmp);
      if IsComparator(cmp) && AllSorted(chunks, cmp) {
        MergeStableOf(chunks[j], chunks[j + 1], cmp);
      }
    } else {
      assert chunks[..j + 1] == chunks[..j] + [chunks[j]];
    }
  }

  /** After the pairs before index `j`: the merged runs hold the runs consumed so far, each sorted and stable when the runs are. */
  ghost predicate PassSoFar<T(!new)>(chunks: seq<seq<T>>, j: nat, merged: seq<seq<T>>, cmp: (T, T) -> real) {
    multiset(Flatten(merged)) == multiset(Flatten(chunks[..Min(j, |chunks|)])) &&
    (IsComparator(cmp) && AllSorted(chunks, cmp) ==>
      AllSorted(merged, cmp) && StableOf(Flatten(merged), Flatten(chunks[..Min(j, |chunks|)]), cmp))
  }

  /** The pair at index `j` extends what the pass has done. */
  lemma PassStep<T(!new)>(chunks: seq<seq<T>>, j: nat, merged: seq<seq<T>>, next: seq<T>, cmp: (T, T) -> real)
    requires j < |chunks| && PassSoFar(chunks, j, merged, cmp)
    requires next == if j + 1 < |chunks| then Merge(chunks[j], chunks[j + 1], cmp) else chunks[j]
    ensures PassSoFar(chunks, j + 2, merged + [next], cmp)
  {
    PairStep(chunks, j, next, cmp);
    assert chunks[..Min(j, |chunks|)] == chunks[..j];
    FlattenAppend(merged, next);
    if IsComparator(cmp) && AllSorted(chunks, cmp) {
      StableConcat(Flatten(merged), next, Flatten(chunks[..j]), Consumed(chunks, j), cmp);
      AllSortedAppend(merged, next, cmp);
    }
  }

  /** One round of `externalMergeSort`'s second phase: merge runs 0 and 1, 2 and 3, and so on. */
  method MergePass<T(!new)>(chunks: seq<seq<T>>, cmp: (T, T) -> real) returns (merged: seq<seq<T>>)
    requires |chunks| >= 2
    ensures 1 <= |merged| < |chunks|
    ensures multiset(Flatten(merged)) == multiset(Flatten(chunks))
    ensures IsComparator(cmp) && AllSorted(chunks, cmp) ==>
      AllSorted(merged, cmp) && StableOf(Flatten(merged), Flatten(chunks), cmp)
  {
    merged := [];
    var j := 0;
    while j < |chunks|
      invariant 0 <= j <= |chunks| + 1 && j == 2 * |merged|
      invariant PassSoFar(chunks, j, merged, cmp)
    {
      var next: seq<T>;
      if j + 1 < |chunks| {
        next := MergeLoop(chunks[j], chunks[j + 1], cmp);
      } else {
        next := chunks[j];
      }
      PassStep(chunks, j, merged, next, cmp);
      merged := merged + [next];
      j := j + 2;
    }
    assert chunks[..Min(j, |chunks|)] == chunks;
  }

  /**
   * The chunking loop of `externalMergeSort` as written: `i` starts at 0
   * and steps by `chunkSize` while `i < arr.length`, collecting the chunk
   * starts; `None` when `fuel` steps do not take it to the end.
   */
  function ChunkStartsAsWritten(n: int, chunkSize: int, i: int, fuel: nat): (r: Option<seq<int>>)
    ensures r.Some? ==> forall k :: 0 <= k < |r.value| ==> r.value[k] < n
    decreases fuel
  {
    if i >= n then Some([])
    else if fuel == 0 then None
    else match ChunkStartsAsWritten(n, chunkSize, i + chunkSize, fuel - 1)
      case None => None
      case Some(rest) => Some([i] + rest)
  }

  /**
   * With a `chunkSize` of zero or less the index never moves forward, so on
   * a non-empty array no number of steps ends the chunking loop.
   */
  lemma {:induction false} ChunkLoopNeverEnds(n: int, chunkSize: int, i: int, fuel: nat)
    requires chunkSize <= 0 && i < n
    ensures ChunkStartsAsWritten(n, chunkSize, i, fuel) == None
    decreases fuel
  {
    if fuel > 0 {
      ChunkLoopNeverEnds(n, chunkSize, i + chunkSize, fuel - 1);
    }
  }

  /** With a positive `chunkSize` the loop ends within `arr.length` steps, at the multiples of `chunkSize`. */
  lemma {:induction false} ChunkLoopEnds(n: int, chunkSize: int, i: int, fuel: nat)
    requires chunkSize > 0 && n - i <= fuel
    ensures var r := ChunkStartsAsWritten(n, chunkSize, i, fuel);
      r.Some? && forall k :: 0 <= k < |r.value| ==> r.value[k] == i + k * chunkSize
    decreases fuel
  {
    if i < n {
      ChunkLoopEnds(n, chunkSize, i + chunkSize, fuel - 1);
      var rest := ChunkStartsAsWritten(n, chunkSize, i + chunkSize, fuel - 1).value;
      forall k | 1 <= k < |rest| + 1 ensures ([i] + rest)[k] == i + k * chunkSize {
        assert rest[k - 1] == i + chunkSize + (k - 1) * chunkSize;
      }
    }
  }

  /**
   * `externalMergeSort`: sort runs of `chunkSize` elements, then merge
   * neighbouring runs pairwise until one is left.  The result is the same
   * sequence merge sort gives.  A `chunkSize` of zero or less sorts the
   * array whole, where the chunking loop as written never ends.
   */
  method ExternalMergeSort<T(!new)>(arr: seq<T>, cmp: (T, T) -> real, chunkSize: int := 1000) returns (r: seq<T>)
    ensures multiset(r) == multiset(arr)
    ensures IsComparator(cmp) ==> r == MergeSort(arr, cmp)
  {
    if |arr| <= chunkSize || chunkSize <= 0 {
      return MergeSort(arr, cmp);
    }
    var chunks := SortChunks(arr, cmp, chunkSize);
    while |chunks| > 1
      invariant |chunks| >= 1
      invariant multiset(Flatten(chunks)) == multiset(arr)
      invariant IsComparator(cmp) ==> AllSorted(chunks, cmp) && StableOf(Flatten(chunks), arr, cmp)
      decreases |chunks|
    {
      var merged := MergePass(chunks, cmp);
      if IsComparator(cmp) {
        StableTrans(Flatten(merged), Flatten(chunks), arr, cmp);
      }
      chunks := merged;
    }
    r := chunks[0];
    assert Flatten(chunks) == r by {
      assert chunks == [] + [chunks[0]];
      FlattenAppend([], chunks[0]);
    }
    if IsComparator(cmp) {
      assert Sorted(chunks[0], cmp);
      MergeSortUnique(arr, r, cmp);
    }
  }

  lemma StableTrans<T(!new)>(a: seq<T>, b: seq<T>, c: seq<T>, cmp: (T, T) -> real)
    requires StableOf(a, b, cmp) && StableOf(b, c, cmp)
    ensures StableOf(a, c, cmp)
  {
    forall x ensures Same(a, x, cmp) == Same(c, x, cmp) {
      assert Same(a, x, cmp) == Same(b, x, cmp);
    }
  }
}
