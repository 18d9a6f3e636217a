/**
 * The comparators the sorting classes build when the caller gives none:
 * one from a named field and an order, or the elements' own order.
 */
module Comparators {
  import opened Common
  import opened Ordering

  /** The comparison of two numbers with `>` and `<`: 1, -1 or 0. */
  function Sign(a: real, b: real): (c: real)
    ensures c == 1.0 || c == -1.0 || c == 0.0
    ensures c < 0.0 <==> a < b
    ensures c == 0.0 <==> a == b
  {
    if a > b then 1.0 else if a < b then -1.0 else 0.0
  }

  /** The comparator `sort` builds from a field: ascending for 'asc', negated otherwise. */
  function CompareBy<T>(key: T -> real, order: string): (T, T) -> real {
    (a: T, b: T) => if order == "asc" then Sign(key(a), key(b)) else -Sign(key(a), key(b))
  }

  /** A field comparator is a comparator, and sorting by it orders the field. */
  lemma CompareByMeaning<T(!new)>(key: T -> real, order: string, s: seq<T>)
    ensures IsComparator(CompareBy(key, order))
    ensures order == "asc" ==>
      (Sorted(s, CompareBy(key, order)) <==> forall i, j :: 0 <= i < j < |s| ==> key(s[i]) <= key(s[j]))
    ensures order != "asc" ==>
      (Sorted(s, CompareBy(key, order)) <==> forall i, j :: 0 <= i < j < |s| ==> key(s[i]) >= key(s[j]))
    ensures forall a, b :: CompareBy(key, order)(a, b) == 0.0 <==> key(a) == key(b)
  {
  }

  /** The comparator `(a, b) => a.f - b.f`: ascending by a numeric field. */
  function Ascending<T>(key: T -> real): (T, T) -> real {
    (a: T, b: T) => key(a) - key(b)
  }

  /** A difference comparator is a comparator, and sorting by it orders the field upwards. */
  lemma AscendingMeaning<T(!new)>(key: T -> real, s: seq<T>)
    ensures IsComparator(Ascending(key))
    ensures Sorted(s, Ascending(key)) <==> forall i, j :: 0 <= i < j < |s| ==> key(s[i]) <= key(s[j])
    ensures forall a, b :: Ascending(key)(a, b) == 0.0 <==> key(a) == key(b)
  {
  }

  /**
   * The comparator `sort` uses: the caller's, else the field comparator
   * when a field is named, else the elements' own `>`/`<` order, given as
   * `natural` (that default ignores `order`).
   */
  function SortComparator<T>(compareFn: Option<(T, T) -> real>, sortBy: Option<T -> real>,
                             order: string, natural: T -> real): (T, T) -> real
  {
    match compareFn
    case Some(f) => f
    case None =>
      match sortBy
      case Some(key) => CompareBy(key, order)
      case None => CompareBy(natural, "asc")
  }

  /** Without a caller comparator, `sort` always uses a valid comparator. */
  lemma DefaultComparatorValid<T(!new)>(sortBy: Option<T -> real>, order: string, natural: T -> real)
    ensures IsComparator(SortComparator(None, sortBy, order, natural))
  {
    match sortBy
    case Some(key) => CompareByMeaning(key, order, []);
    case None => CompareByMeaning(natural, "asc", []);
  }

}
