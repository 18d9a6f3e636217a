/**
 * JavaScript comparators and what it means for a sequence to be sorted by
 * one.  A comparator returns a negative number when its first argument
 * goes first, a positive one when its second does, and zero for a tie.
 */
module Ordering {

  /**
   * The conditions `Array.prototype.sort` expects of a comparator: swapping
   * the arguments swaps the sign, and "not after" is transitive.
   */
  ghost predicate IsComparator<T(!new)>(cmp: (T, T) -> real) {
    (forall a, b :: cmp(a, b) < 0.0 <==> cmp(b, a) > 0.0) &&
    (forall a, b, c :: cmp(a, b) <= 0.0 && cmp(b, c) <= 0.0 ==> cmp(a, c) <= 0.0)
  }

  /** Every element is not after any element to its right. */
  ghost predicate Sorted<T>(s: seq<T>, cmp: (T, T) -> real) {
    forall i, j :: 0 <= i < j < |s| ==> cmp(s[i], s[j]) <= 0.0
  }

  /** Every element of `s` is not after `x`. */
  ghost predicate AllBefore<T>(s: seq<T>, x: T, cmp: (T, T) -> real) {
    forall i :: 0 <= i < |s| ==> cmp(s[i], x) <= 0.0
  }

  /** `x` is not after any element of `s`. */
  ghost predicate AllAfter<T>(x: T, s: seq<T>, cmp: (T, T) -> real) {
    forall i :: 0 <= i < |s| ==> cmp(x, s[i]) <= 0.0
  }

  /** An element not after anything in a sorted run can go in front of it. */
  lemma SortedCons<T>(x: T, s: seq<T>, cmp: (T, T) -> real)
    requires AllAfter(x, s, cmp) && Sorted(s, cmp)
    ensures Sorted([x] + s, cmp)
  {
    forall i, j | 0 <= i < j < |s| + 1 ensures cmp(([x] + s)[i], ([x] + s)[j]) <= 0.0 {
      if i > 0 {
        assert ([x] + s)[i] == s[i - 1];
      }
      assert ([x] + s)[j] == s[j - 1];
    }
  }

  /** A slice is sorted when every two of its cells, read in `s`, are in order. */
  lemma SortedSlice<T>(s: seq<T>, lo: int, hi: int, cmp: (T, T) -> real)
    requires 0 <= lo <= hi <= |s|
    requires forall x, y :: lo <= x < y < hi ==> cmp(s[x], s[y]) <= 0.0
    ensures Sorted(s[lo..hi], cmp)
  {
    var r := s[lo..hi];
    forall i, j | 0 <= i < j < |r| ensures cmp(r[i], r[j]) <= 0.0 {
      assert r[i] == s[lo + i] && r[j] == s[lo + j];
    }
  }

  /** A comparator ties every element with itself. */
  lemma Reflexive<T(!new)>(cmp: (T, T) -> real, a: T)
    requires IsComparator(cmp)
    ensures cmp(a, a) == 0.0
  {
    assert cmp(a, a) < 0.0 <==> cmp(a, a) > 0.0;
  }

  /** Swapping the arguments of a comparator negates its sign, ties included. */
  lemma Flip<T(!new)>(cmp: (T, T) -> real, a: T, b: T)
    requires IsComparator(cmp)
    ensures cmp(a, b) == 0.0 <==> cmp(b, a) == 0.0
    ensures cmp(a, b) > 0.0 <==> cmp(b, a) < 0.0
    ensures cmp(a, b) <= 0.0 || cmp(b, a) <= 0.0
  {
    assert cmp(a, b) < 0.0 <==> cmp(b, a) > 0.0;
    assert cmp(b, a) < 0.0 <==> cmp(a, b) > 0.0;
  }

  /** An element tied with `b` compares with any `c` as `b` does. */
  lemma TieTransfer<T(!new)>(cmp: (T, T) -> real, a: T, b: T, c: T)
    requires IsComparator(cmp)
    requires cmp(a, b) == 0.0
    ensures cmp(a, c) <= 0.0 <==> cmp(b, c) <= 0.0
    ensures cmp(c, a) <= 0.0 <==> cmp(c, b) <= 0.0
    ensures cmp(a, c) == 0.0 <==> cmp(b, c) == 0.0
  {
    Flip(cmp, a, b);
    Flip(cmp, a, c);
    Flip(cmp, b, c);
  }

  /** The elements of `s` tied with `x`, in their order in `s`. */
  function Same<T>(s: seq<T>, x: T, cmp: (T, T) -> real): (r: seq<T>)
    ensures |r| <= |s|
  {
    if s == [] then []
    else (if cmp(s[0], x) == 0.0 then [s[0]] else []) + Same(s[1..], x, cmp)
  }

  /** `r` is a stable rearrangement of `s`: every class of tied elements keeps its order. */
  ghost predicate StableOf<T(!new)>(r: seq<T>, s: seq<T>, cmp: (T, T) -> real) {
    forall x :: Same(r, x, cmp) == Same(s, x, cmp)
  }

  lemma {:induction false} SameConcat<T>(a: seq<T>, b: seq<T>, x: T, cmp: (T, T) -> real)
    ensures Same(a + b, x, cmp) == Same(a, x, cmp) + Same(b, x, cmp)
  {
    if a != [] {
      assert (a + b)[0] == a[0];
      assert (a + b)[1..] == a[1..] + b;
      SameConcat(a[1..], b, x, cmp);
    } else {
      assert a + b == b;
    }
  }

  /** The class of `x` in a sequence with a known first element. */
  lemma SameCons<T>(h: T, t: seq<T>, x: T, cmp: (T, T) -> real)
    ensures Same([h] + t, x, cmp) == (if cmp(h, x) == 0.0 then [h] else []) + Same(t, x, cmp)
  {
    assert ([h] + t)[1..] == t;
  }

  /** The class of `x` in `s` is empty exactly when no element of `s` ties with `x`. */
  lemma {:induction false} SameEmpty<T>(s: seq<T>, x: T, cmp: (T, T) -> real)
    ensures Same(s, x, cmp) == [] <==> forall i :: 0 <= i < |s| ==> cmp(s[i], x) != 0.0
  {
    if s != [] {
      SameEmpty(s[1..], x, cmp);
      if Same(s, x, cmp) == [] {
        forall i | 0 <= i < |s| ensures cmp(s[i], x) != 0.0 {
          if i > 0 { assert s[i] == s[1..][i - 1]; }
        }
      } else if cmp(s[0], x) != 0.0 {
        var j :| 0 <= j < |s[1..]| && cmp(s[1..][j], x) == 0.0;
        assert s[j + 1] == s[1..][j];
      }
    }
  }

  /** The class of `x` starts with the first element tied with `x`. */
  lemma SameFirst<T>(s: seq<T>, x: T, cmp: (T, T) -> real, k: nat)
    requires k < |s| && cmp(s[k], x) == 0.0
    requires forall i :: 0 <= i < k ==> cmp(s[i], x) != 0.0
    ensures Same(s, x, cmp) != [] && Same(s, x, cmp)[0] == s[k]
  {
    assert s == s[..k] + s[k..];
    SameConcat(s[..k], s[k..], x, cmp);
    SameEmpty(s[..k], x, cmp);
  }

  /**
   * Two sequences sorted by the same comparator whose tie classes agree
   * are equal: a stable sort has exactly one possible result.
   */
  lemma {:induction false} SortedUnique<T(!new)>(r1: seq<T>, r2: seq<T>, cmp: (T, T) -> real)
    requires IsComparator(cmp)
    requires Sorted(r1, cmp) && Sorted(r2, cmp)
    requires StableOf(r1, r2, cmp)
    ensures r1 == r2
    decreases |r1|
  {
    if r1 == [] {
      if r2 != [] {
        HeadInOwnClass(r2, cmp);
      }
    } else if r2 == [] {
      HeadInOwnClass(r1, cmp);
    } else {
      SortedHeads(r1, r2, cmp);
      StableTails(r1, r2, cmp);
      SortedUnique(r1[1..], r2[1..], cmp);
      assert r1 == [r1[0]] + r1[1..] && r2 == [r2[0]] + r2[1..];
    }
  }

  /** The first element of a sequence belongs to its own tie class. */
  lemma HeadInOwnClass<T(!new)>(s: seq<T>, cmp: (T, T) -> real)
    requires IsComparator(cmp)
    requires s != []
    ensures Same(s, s[0], cmp) != []
  {
    Reflexive(cmp, s[0]);
  }

  /** Sorted sequences with the same tie classes start with the same element. */
  lemma SortedHeads<T(!new)>(r1: seq<T>, r2: seq<T>, cmp: (T, T) -> real)
    requires IsComparator(cmp)
    requires Sorted(r1, cmp) && Sorted(r2, cmp)
    requires StableOf(r1, r2, cmp)
    requires r1 != [] && r2 != []
    ensures r1[0] == r2[0]
  {
    var a, b := r1[0], r2[0];
    Reflexive(cmp, a);
    Reflexive(cmp, b);
    assert Same(r1, a, cmp) != [];
    SameEmpty(r2, a, cmp);
    var j :| 0 <= j < |r2| && cmp(r2[j], a) == 0.0;
    assert cmp(b, r2[j]) <= 0.0;
    TieTransfer(cmp, r2[j], a, b);
    assert Same(r2, b, cmp) != [];
    SameEmpty(r1, b, cmp);
    var i :| 0 <= i < |r1| && cmp(r1[i], b) == 0.0;
    assert cmp(a, r1[i]) <= 0.0;
    TieTransfer(cmp, r1[i], b, a);
    Flip(cmp, a, b);
    assert Same(r2, a, cmp)[0] == b;
  }

  /** Removing the same first element from both keeps the tie classes equal. */
  lemma StableTails<T(!new)>(r1: seq<T>, r2: seq<T>, cmp: (T, T) -> real)
    requires StableOf(r1, r2, cmp)
    requires r1 != [] && r2 != [] && r1[0] == r2[0]
    ensures StableOf(r1[1..], r2[1..], cmp)
  {
    var a := r1[0];
    forall x ensures Same(r1[1..], x, cmp) == Same(r2[1..], x, cmp) {
      var h := if cmp(a, x) == 0.0 then [a] else [];
      assert Same(r1, x, cmp) == h + Same(r1[1..], x, cmp);
      assert Same(r2, x, cmp) == h + Same(r2[1..], x, cmp);
      assert Same(r1[1..], x, cmp) == Same(r1, x, cmp)[|h|..];
      assert Same(r2[1..], x, cmp) == Same(r2, x, cmp)[|h|..];
    }
  }
}
