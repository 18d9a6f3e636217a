/**
 * Swapping array cells, as the in-place sorts do with
 * `[arr[i], arr[j]] = [arr[j], arr[i]]`, and what a run of swaps inside a
 * range of cells preserves.
 */
module InPlace {

  /** The sequence `s` with cells `i` and `j` exchanged. */
  function Swapped<T>(s: seq<T>, i: int, j: int): (r: seq<T>)
    requires 0 <= i < |s| && 0 <= j < |s|
    ensures |r| == |s| && r[i] == s[j] && r[j] == s[i]
    ensures forall k :: 0 <= k < |s| && k != i && k != j ==> r[k] == s[k]
  {
    s[i := s[j]][j := s[i]]
  }

  /** `[arr[i], arr[j]] = [arr[j], arr[i]]` */
  method Swap<T>(a: array<T>, i: int, j: int)
    requires 0 <= i < a.Length && 0 <= j < a.Length
    modifies a
    ensures a[..] == Swapped(old(a[..]), i, j)
  {
    a[i], a[j] := a[j], a[i];
  }

  /** `s` is `before` with only the cells `[low, high]` rearranged among themselves. */
  ghost predicate PermutedWithin<T>(s: seq<T>, before: seq<T>, low: int, high: int) {
    0 <= low && |s| == |before| && multiset(s) == multiset(before) &&
    forall k :: 0 <= k < |s| && !(low <= k <= high) ==> s[k] == before[k]
  }

  /** A swap of two cells of the range rearranges the range. */
  lemma SwapWithin<T>(s: seq<T>, i: int, j: int, low: int, high: int)
    requires 0 <= low <= i <= high < |s| && low <= j <= high
    ensures PermutedWithin(Swapped(s, i, j), s, low, high)
  {
  }

  lemma PermutedWithinRefl<T>(s: seq<T>, low: int, high: int)
    requires 0 <= low
    ensures PermutedWithin(s, s, low, high)
  {
  }

  /** Rearrangements of a range compose, and a smaller range is part of a larger one. */
  lemma PermutedWithinTrans<T>(s: seq<T>, mid: seq<T>, before: seq<T>, low: int, high: int, low': int, high': int)
    requires PermutedWithin(s, mid, low', high') && PermutedWithin(mid, before, low, high)
    requires low <= low' && high' <= high
    ensures PermutedWithin(s, before, low, high)
  {
  }

  /** A rearrangement of a range keeps the multiset of that range. */
  lemma RangePermutation<T>(a: seq<T>, before: seq<T>, low: int, high: int)
    requires 0 <= low <= high + 1 <= |a|
    requires PermutedWithin(a, before, low, high)
    ensures multiset(a[low..high + 1]) == multiset(before[low..high + 1])
  {
    assert a == a[..low] + a[low..high + 1] + a[high + 1..];
    assert before == before[..low] + before[low..high + 1] + before[high + 1..];
    assert a[..low] == before[..low];
    assert a[high + 1..] == before[high + 1..];
    assert multiset(a) == multiset(a[..low]) + multiset(a[low..high + 1]) + multiset(a[high + 1..]);
    assert multiset(before) == multiset(before[..low]) + multiset(before[low..high + 1]) + multiset(before[high + 1..]);
    assert multiset(a[low..high + 1]) == multiset(a) - multiset(a[..low]) - multiset(a[high + 1..]);
    assert multiset(before[low..high + 1]) == multiset(before) - multiset(before[..low]) - multiset(before[high + 1..]);
  }

  /** A property of every cell of a range survives a rearrangement of that range. */
  lemma RangeKeeps<T>(a: seq<T>, before: seq<T>, low: int, high: int, P: T -> bool)
    requires 0 <= low <= high + 1 <= |a|
    requires PermutedWithin(a, before, low, high)
    requires forall k :: low <= k <= high ==> P(before[k])
    ensures forall k :: low <= k <= high ==> P(a[k])
  {
    RangePermutation(a, before, low, high);
    forall k | low <= k <= high ensures P(a[k]) {
      assert a[k] == a[low..high + 1][k - low];
      assert a[k] in multiset(before[low..high + 1]);
      assert a[k] in before[low..high + 1];
      var t :| 0 <= t < high + 1 - low && before[low..high + 1][t] == a[k];
      assert P(before[low + t]);
    }
  }
}
