/**
 * The searches of `algorithms/search/binarySearch.js` over a sorted
 * list: the probe with a comparator (iterative and recursive), first and
 * last occurrence, the insertion point, and the price-range lookup built
 * from the lower and upper bound on a price.
 */
module BinarySearching {
  import opened Catalog

  /** The comparator `search` falls back to: 0 when equal, otherwise 1 or -1. */
  function DefaultCompare(a: real, b: real): (c: real)
    ensures c == 0.0 <==> a == b
    ensures c < 0.0 <==> a < b
  {
    if a == b then 0.0 else if a > b then 1.0 else -1.0
  }

  /**
   * The list is sorted as the probe sees it: everything comparing below
   * the target comes before everything else, and everything comparing
   * above it comes after everything else.
   */
  ghost predicate Arranged<T, U>(arr: seq<T>, target: U, cmp: (T, U) -> real) {
    forall i, j :: 0 <= i < j < |arr| ==>
      (cmp(arr[j], target) < 0.0 ==> cmp(arr[i], target) < 0.0) &&
      (cmp(arr[i], target) > 0.0 ==> cmp(arr[j], target) > 0.0)
  }

  /** Numbers never decrease along the list. */
  ghost predicate Ascending(arr: seq<real>) {
    forall i, j :: 0 <= i < j < |arr| ==> arr[i] <= arr[j]
  }

  /** A list of numbers in ascending order is arranged for the default comparator, whatever the target. */
  lemma AscendingArranged(arr: seq<real>, target: real)
    requires Ascending(arr)
    ensures Arranged(arr, target, DefaultCompare)
  {
  }

  /**
   * `searchRecursive(arr, target, compareFn, left, right)`: probe the
   * middle of `[left, right]` and recurse into the half the comparison
   * points to.
   */
  function SearchRecursive<T, U>(arr: seq<T>, target: U, cmp: (T, U) -> real, left: int, right: int): (r: int)
    requires 0 <= left && right < |arr|
    ensures r == -1 || (left <= r <= right && cmp(arr[r], target) == 0.0)
    decreases right - left
  {
    if left > right then -1
    else
      var mid := (left + right) / 2;
      var comparison := cmp(arr[mid], target);
      if comparison == 0.0 then mid
      else if comparison < 0.0 then SearchRecursive(arr, target, cmp, mid + 1, right)
      else SearchRecursive(arr, target, cmp, left, mid - 1)
  }

  /** On an arranged list the probe misses only when nothing in `[left, right]` compares equal. */
  lemma {:induction false} SearchRecursiveComplete<T, U>(arr: seq<T>, target: U, cmp: (T, U) -> real, left: int, right: int)
    requires 0 <= left && right < |arr| && Arranged(arr, target, cmp)
    ensures SearchRecursive(arr, target, cmp, left, right) == -1 ==>
      forall k :: left <= k <= right ==> cmp(arr[k], target) != 0.0
    decreases right - left
  {
    if left <= right {
      var mid := (left + right) / 2;
      var comparison := cmp(arr[mid], target);
      if comparison < 0.0 {
        SearchRecursiveComplete(arr, target, cmp, mid + 1, right);
        forall k | left <= k <= mid ensures cmp(arr[k], target) < 0.0 {
          if k < mid {
            assert cmp(arr[mid], target) < 0.0 ==> cmp(arr[k], target) < 0.0;
          }
        }
      } else if comparison > 0.0 {
        SearchRecursiveComplete(arr, target, cmp, left, mid - 1);
        forall k | mid <= k <= right ensures cmp(arr[k], target) > 0.0 {
          if mid < k {
            assert cmp(arr[mid], target) > 0.0 ==> cmp(arr[k], target) > 0.0;
          }
        }
      }
    }
  }

  /**
   * `search(arr, target, compareFn)`: the same probes as the recursive
   * search over the whole list, in a loop; an empty list gives -1.
   */
  method Search<T, U>(arr: seq<T>, target: U, cmp: (T, U) -> real) returns (index: int)
    ensures index == SearchRecursive(arr, target, cmp, 0, |arr| - 1)
  {
    if |arr| == 0 {
      return -1;
    }
    var left, right := 0, |arr| - 1;
    while left <= right
      invariant 0 <= left && right < |arr|
      invariant SearchRecursive(arr, target, cmp, left, right) == SearchRecursive(arr, target, cmp, 0, |arr| - 1)
      decreases right - left
    {
      var mid := (left + right) / 2;
      var comparison := cmp(arr[mid], target);
      if comparison == 0.0 {
        return mid;
      } else if comparison < 0.0 {
        left := mid + 1;
      } else {
        right := mid - 1;
      }
    }
    return -1;
  }

  /**
   * What `search` promises: -1 or an index comparing equal to the target;
   * on an arranged list, -1 only when no index compares equal.
   */
  lemma SearchCorrect<T, U>(arr: seq<T>, target: U, cmp: (T, U) -> real)
    ensures var r := SearchRecursive(arr, target, cmp, 0, |arr| - 1);
      (r == -1 || (0 <= r < |arr| && cmp(arr[r], target) == 0.0)) &&
      (Arranged(arr, target, cmp) ==> (r == -1 <==> forall k :: 0 <= k < |arr| ==> cmp(arr[k], target) != 0.0))
  {
    if Arranged(arr, target, cmp) {
      SearchRecursiveComplete(arr, target, cmp, 0, |arr| - 1);
    }
  }

  /**
   * `findFirstOccurrence(arr, target)`: on a hit, record it and keep
   * searching to the left.  The result is -1 or an index holding the
   * target; on an ascending list it is the least such index, and -1
   * exactly when the target is absent.
   */
  method FindFirstOccurrence(arr: seq<real>, target: real) returns (result: int)
    ensures result == -1 || (0 <= result < |arr| && arr[result] == target)
    ensures Ascending(arr) ==> (result == -1 <==> target !in arr)
    ensures Ascending(arr) && result >= 0 ==> forall k :: 0 <= k < result ==> arr[k] != target
  {
    var left, right := 0, |arr| - 1;
    result := -1;
    while left <= right
      invariant 0 <= left <= right + 1 <= |arr|
      invariant result == -1 || (right < result < |arr| && arr[result] == target)
      invariant Ascending(arr) ==> forall k :: 0 <= k < left ==> arr[k] < target
      invariant Ascending(arr) ==> forall k :: right < k < |arr| ==> arr[k] >= target
      invariant Ascending(arr) ==> forall k :: right < k < |arr| && arr[k] == target ==> 0 <= result <= k
      decreases right - left
    {
      var mid := (left + right) / 2;
      if arr[mid] == target {
        result := mid;
        right := mid - 1;
      } else if arr[mid] < target {
        left := mid + 1;
      } else {
        right := mid - 1;
      }
    }
  }

  /**
   * `findLastOccurrence(arr, target)`: on a hit, record it and keep
   * searching to the right.  The result is -1 or an index holding the
   * target; on an ascending list it is the greatest such index, and -1
   * exactly when the target is absent.
   */
  method FindLastOccurrence(arr: seq<real>, target: real) returns (result: int)
    ensures result == -1 || (0 <= result < |arr| && arr[result] == target)
    ensures Ascending(arr) ==> (result == -1 <==> target !in arr)
    ensures Ascending(arr) && result >= 0 ==> forall k :: result < k < |arr| ==> arr[k] != target
  {
    var left, right := 0, |arr| - 1;
    result := -1;
    while left <= right
      invariant 0 <= left <= right + 1 <= |arr|
      invariant result == -1 || (result < left && arr[result] == target)
      invariant Ascending(arr) ==> forall k :: right < k < |arr| ==> arr[k] > target
      invariant Ascending(arr) ==> forall k :: 0 <= k < left ==> arr[k] <= target
      invariant Ascending(arr) ==> forall k :: 0 <= k < left && arr[k] == target ==> k <= result
      decreases right - left
    {
      var mid := (left + right) / 2;
      if arr[mid] == target {
        result := mid;
        left := mid + 1;
      } else if arr[mid] < target {
        left := mid + 1;
      } else {
        right := mid - 1;
      }
    }
  }

  /**
   * `findInsertionPoint(arr, target)`: the lower bound.  On an ascending
   * list everything before the result is below the target and everything
   * from it on is not.
   */
  method FindInsertionPoint(arr: seq<real>, target: real) returns (index: int)
    ensures 0 <= index <= |arr|
    ensures Ascending(arr) ==> forall k :: 0 <= k < index ==> arr[k] < target
    ensures Ascending(arr) ==> forall k :: index <= k < |arr| ==> arr[k] >= target
  {
    var left, right := 0, |arr|;
    while left < right
      invariant 0 <= left <= right <= |arr|
      invariant Ascending(arr) ==> forall k :: 0 <= k < left ==> arr[k] < target
      invariant Ascending(arr) ==> forall k :: right <= k < |arr| ==> arr[k] >= target
    {
      var mid := (left + right) / 2;
      if arr[mid] < target {
        left := mid + 1;
      } else {
        right := mid;
      }
    }
    return left;
  }

  /** `price_per_day || price || 0` */
  function Price(e: Equipment): (p: real)
    ensures e.pricePerDay != 0.0 ==> p == e.pricePerDay
    ensures e.pricePerDay == 0.0 ==> p == e.price
  {
    OrElse(OrElse(e.pricePerDay, e.price), 0.0)
  }

  /** Prices never decrease along the list. */
  ghost predicate PriceSorted(arr: seq<Equipment>) {
    forall i, j :: 0 <= i < j < |arr| ==> Price(arr[i]) <= Price(arr[j])
  }

  /**
   * `findFirstPrice(arr, targetPrice)`: the first index priced at least
   * `targetPrice`, or -1.
   */
  method FindFirstPrice(arr: seq<Equipment>, targetPrice: real) returns (result: int)
    ensures -1 <= result < |arr|
    ensures result >= 0 ==> Price(arr[result]) >= targetPrice
    ensures PriceSorted(arr) ==> forall k :: 0 <= k < |arr| && (result == -1 || k < result) ==> Price(arr[k]) < targetPrice
  {
    var left, right := 0, |arr| - 1;
    result := -1;
    while left <= right
      invariant 0 <= left <= right + 1 <= |arr|
      invariant result == -1 || (right < result < |arr| && Price(arr[result]) >= targetPrice)
      invariant result == -1 ==> right == |arr| - 1
      invariant result != -1 ==> result == right + 1
      invariant PriceSorted(arr) ==> forall k :: 0 <= k < left ==> Price(arr[k]) < targetPrice
      decreases right - left
    {
      var mid := (left + right) / 2;
      var price := Price(arr[mid]);
      if price >= targetPrice {
        result := mid;
        right := mid - 1;
      } else {
        left := mid + 1;
      }
    }
  }

  /**
   * `findLastPrice(arr, targetPrice)`: the last index priced at most
   * `targetPrice`, or -1.
   */
  method FindLastPrice(arr: seq<Equipment>, targetPrice: real) returns (result: int)
    ensures -1 <= result < |arr|
    ensures result >= 0 ==> Price(arr[result]) <= targetPrice
    ensures PriceSorted(arr) ==> forall k :: 0 <= k < |arr| && k > result ==> Price(arr[k]) > targetPrice
  {
    var left, right := 0, |arr| - 1;
    result := -1;
    while left <= right
      invariant 0 <= left <= right + 1 <= |arr|
      invariant result == left - 1
      invariant result >= 0 ==> Price(arr[result]) <= targetPrice
      invariant PriceSorted(arr) ==> forall k :: right < k < |arr| ==> Price(arr[k]) > targetPrice
      decreases right - left
    {
      var mid := (left + right) / 2;
      var price := Price(arr[mid]);
      if price <= targetPrice {
        result := mid;
        left := mid + 1;
      } else {
        right := mid - 1;
      }
    }
  }

  /** The items priced within `[minPrice, maxPrice]`, in list order. */
  function InPriceRange(s: seq<Equipment>, minPrice: real, maxPrice: real): seq<Equipment> {
    if s == [] then []
    else (if minPrice <= Price(s[0]) <= maxPrice then [s[0]] else []) + InPriceRange(s[1..], minPrice, maxPrice)
  }

  /** The range filter keeps exactly the items priced within the range. */
  lemma {:induction false} InPriceRangeMembers(s: seq<Equipment>, minPrice: real, maxPrice: real)
    ensures forall x :: x in InPriceRange(s, minPrice, maxPrice) <==> x in s && minPrice <= Price(x) <= maxPrice
  {
    if s != [] {
      InPriceRangeMembers(s[1..], minPrice, maxPrice);
      assert s == [s[0]] + s[1..];
    }
  }

  lemma {:induction false} InPriceRangeAppend(a: seq<Equipment>, b: seq<Equipment>, minPrice: real, maxPrice: real)
    ensures InPriceRange(a + b, minPrice, maxPrice) == InPriceRange(a, minPrice, maxPrice) + InPriceRange(b, minPrice, maxPrice)
  {
    if a == [] {
      assert a + b == b;
    } else {
      var ab := a + b;
      assert ab[0] == a[0] && ab[1..] == a[1..] + b;
      InPriceRangeAppend(a[1..], b, minPrice, maxPrice);
      var head := if minPrice <= Price(a[0]) <= maxPrice then [a[0]] else [];
      calc {
        InPriceRange(ab, minPrice, maxPrice);
        head + InPriceRange(a[1..] + b, minPrice, maxPrice);
        head + (InPriceRange(a[1..], minPrice, maxPrice) + InPriceRange(b, minPrice, maxPrice));
        (head + InPriceRange(a[1..], minPrice, maxPrice)) + InPriceRange(b, minPrice, maxPrice);
      }
    }
  }

  /** A stretch whose prices are all within the range is kept whole. */
  lemma {:induction false} InPriceRangeAll(s: seq<Equipment>, minPrice: real, maxPrice: real)
    requires forall k :: 0 <= k < |s| ==> minPrice <= Price(s[k]) <= maxPrice
    ensures InPriceRange(s, minPrice, maxPrice) == s
  {
    if s != [] {
      InPriceRangeAll(s[1..], minPrice, maxPrice);
      assert s == [s[0]] + s[1..];
    }
  }

  /** A stretch with no price within the range is dropped. */
  lemma {:induction false} InPriceRangeNone(s: seq<Equipment>, minPrice: real, maxPrice: real)
    requires forall k :: 0 <= k < |s| ==> !(minPrice <= Price(s[k]) <= maxPrice)
    ensures InPriceRange(s, minPrice, maxPrice) == []
  {
    if s != [] {
      InPriceRangeNone(s[1..], minPrice, maxPrice);
    }
  }

  /**
   * A list that is below the range up to `first`, within it up to `last`
   * and above it after that keeps exactly the slice between.
   */
  lemma PriceRangeSlice(s: seq<Equipment>, minPrice: real, maxPrice: real, first: int, last: int)
    requires 0 <= first <= last + 1 <= |s|
    requires forall k :: 0 <= k < first ==> Price(s[k]) < minPrice
    requires forall k :: first <= k <= last ==> minPrice <= Price(s[k]) <= maxPrice
    requires forall k :: last < k < |s| ==> Price(s[k]) > maxPrice
    ensures s[first..last + 1] == InPriceRange(s, minPrice, maxPrice)
  {
    var below, within, above := s[..first], s[first..last + 1], s[last + 1..];
    assert s == below + within + above;
    InPriceRangeNone(below, minPrice, maxPrice);
    InPriceRangeAll(within, minPrice, maxPrice);
    InPriceRangeNone(above, minPrice, maxPrice);
    InPriceRangeAppend(below + within, above, minPrice, maxPrice);
    InPriceRangeAppend(below, within, minPrice, maxPrice);
    assert InPriceRange(s, minPrice, maxPrice) == [] + within + [];
  }

  /** On a price-sorted list, everything between an item at or above the minimum and one at or below the maximum is within the range. */
  lemma SortedWithin(s: seq<Equipment>, minPrice: real, maxPrice: real, first: int, last: int)
    requires PriceSorted(s) && 0 <= first && last < |s|
    requires first <= last ==> Price(s[first]) >= minPrice && Price(s[last]) <= maxPrice
    ensures forall k :: first <= k <= last ==> minPrice <= Price(s[k]) <= maxPrice
  {
    forall k | first <= k <= last ensures minPrice <= Price(s[k]) <= maxPrice {
      assert Price(s[first]) <= Price(s[k]) <= Price(s[last]);
    }
  }

  /** With no item at or above the minimum, or none at or below the maximum, or the bounds crossed, nothing is in range. */
  lemma PriceRangeEmpty(s: seq<Equipment>, minPrice: real, maxPrice: real, first: int, last: int)
    requires forall k :: 0 <= k < |s| && (first == -1 || k < first) ==> Price(s[k]) < minPrice
    requires forall k :: 0 <= k < |s| && k > last ==> Price(s[k]) > maxPrice
    requires first == -1 || last == -1 || first > last + 1
    ensures InPriceRange(s, minPrice, maxPrice) == []
  {
    InPriceRangeNone(s, minPrice, maxPrice);
  }

  /**
   * `searchByPriceRange(equipment, minPrice, maxPrice)`: slice from the
   * lower bound on `minPrice` to the upper bound on `maxPrice`, or `[]`
   * when either is missing.  On a price-sorted list that is exactly the
   * items priced within the range.
   */
  method SearchByPriceRange(equipment: seq<Equipment>, minPrice: real, maxPrice: real) returns (inRange: seq<Equipment>)
    ensures forall x :: x in inRange ==> x in equipment
    ensures PriceSorted(equipment) ==> inRange == InPriceRange(equipment, minPrice, maxPrice)
  {
    var startIndex := FindFirstPrice(equipment, minPrice);
    if startIndex == -1 {
      if PriceSorted(equipment) {
        PriceRangeEmpty(equipment, minPrice, maxPrice, startIndex, |equipment| - 1);
      }
      return [];
    }
    var endIndex := FindLastPrice(equipment, maxPrice);
    if endIndex == -1 {
      if PriceSorted(equipment) {
        PriceRangeEmpty(equipment, minPrice, maxPrice, startIndex, endIndex);
      }
      return [];
    }
    inRange := if startIndex <= endIndex + 1 then equipment[startIndex..endIndex + 1] else [];
    if PriceSorted(equipment) {
      if startIndex <= endIndex + 1 {
        SortedWithin(equipment, minPrice, maxPrice, startIndex, endIndex);
        PriceRangeSlice(equipment, minPrice, maxPrice, startIndex, endIndex);
      } else {
        PriceRangeEmpty(equipment, minPrice, maxPrice, startIndex, endIndex);
      }
    }
  }
}
