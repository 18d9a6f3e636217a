/**
 * The `/recommend` handler of `handlers/recommendHandler.js`: it picks a
 * ranking from the criteria word, ranks the whole catalogue with one of
 * the sorting classes or the priority queue, and shows the first five.
 * Only the choice of ranking and the five shown are modelled; the
 * message text is not.
 */
module Recommending {
  import opened Common
  import opened Ordering
  import opened Text
  import opened Catalog
  import opened Comparators
  import QuickSorting
  import MergeSorting
  import opened PriorityQueues

  /** The four rankings the handler offers. */
  datatype Criteria = ByPrice | ByRating | ByPopularity | BestValue

  /**
   * `criteria.toLowerCase().trim()` and the `switch`: three words pick the
   * price ranking, three the rating ranking, two the popularity ranking,
   * and anything else the best-value ranking.
   */
  function Classify(criteria: string): Criteria {
    var key := Trim(Lower(criteria));
    if key == "price" || key == "cheap" || key == "low" then ByPrice
    else if key == "rating" || key == "best" || key == "top" then ByRating
    else if key == "popular" || key == "popularity" then ByPopularity
    else BestValue
  }

  /** The criteria word is read without regard to case. */
  lemma ClassifyIgnoresCase(criteria: string)
    ensures Classify(Lower(criteria)) == Classify(criteria)
  {
    LowerIdempotent(criteria);
  }

  /** The `price_per_day` column. */
  function PricePerDay(e: Equipment): real { e.pricePerDay }

  /** The `rating` column. */
  function Rating(e: Equipment): real { e.rating }

  /** The popularity score `(rating || 3) * (rental_count || 1)`. */
  function Score(e: Equipment): real {
    OrElse(e.rating, 3.0) * OrElse(e.rentalCount, 1.0)
  }

  /** The comparator the handler gives its queue: `scoreA - scoreB`. */
  function PopularityCompare(a: Equipment, b: Equipment): real {
    Score(a) - Score(b)
  }

  /** The comparator that puts the higher score first: `scoreB - scoreA`. */
  function PopularityFirst(a: Equipment, b: Equipment): real {
    Score(b) - Score(a)
  }

  /** Both score comparators are comparators, and each orders by the score one way round. */
  lemma PopularityComparators()
    ensures IsComparator(PopularityCompare) && IsComparator(PopularityFirst)
    ensures forall a, b :: PopularityCompare(a, b) <= 0.0 <==> Score(a) <= Score(b)
    ensures forall a, b :: PopularityFirst(a, b) <= 0.0 <==> Score(a) >= Score(b)
  {
  }

  /**
   * `equipment.forEach(eq => pq.enqueue(eq))` then `pq.topK(k)` on a fresh
   * `MaxPriorityQueue(cmp)`: the first `k` items in the comparator's order,
   * and none of them after any item not taken.
   */
  method QueueTop(equipment: seq<Equipment>, cmp: (Equipment, Equipment) -> real, k: int)
    returns (top: seq<Equipment>, ghost others: seq<Equipment>)
    ensures |top| == if k <= 0 then 0 else Min(k, |equipment|)
    ensures multiset(top) + multiset(others) == multiset(equipment)
    ensures IsComparator(cmp) ==> forall i, j :: 0 <= i < j < |top| ==> cmp(top[i], top[j]) <= 0.0
    ensures IsComparator(cmp) ==>
      forall i, j :: 0 <= i < |top| && 0 <= j < |others| ==> cmp(top[i], others[j]) <= 0.0
  {
    var pq := new PriorityQueue.Max(Some(cmp), Score);
    var n := 0;
    while n < |equipment|
      invariant 0 <= n <= |equipment| && pq.Valid() && pq.compareFn == cmp && |pq.heap| == n
      invariant multiset(pq.heap) == multiset(Restored(equipment[..n]))
      modifies pq
    {
      RestoredSnoc(equipment, n);
      pq.Enqueue(equipment[n]);
      n := n + 1;
    }
    assert equipment[..n] == equipment;
    ghost var h0 := pq.heap;
    ghost var taken, rest;
    top, taken, rest := pq.TopK(k);
    others := Items(rest);
    DrainedItems(taken, rest, h0, equipment, cmp);
  }

  /**
   * The popularity branch as written: the queue's root is the element its
   * comparator puts first, so `scoreA - scoreB` yields the ten LOWEST
   * scores, lowest first.
   */
  method PopularAsWritten(equipment: seq<Equipment>) returns (top: seq<Equipment>, ghost others: seq<Equipment>)
    ensures |top| == Min(10, |equipment|)
    ensures multiset(top) + multiset(others) == multiset(equipment)
    ensures forall i, j :: 0 <= i < j < |top| ==> Score(top[i]) <= Score(top[j])
    ensures forall i, j :: 0 <= i < |top| && 0 <= j < |others| ==> Score(top[i]) <= Score(others[j])
  {
    PopularityComparators();
    top, others := QueueTop(equipment, PopularityCompare, 10);
  }

  /** Two catalogue rows with scores 3 and 8: the "most popular" list starts with the less popular. */
  method PopularCounterexample() returns (top: seq<Equipment>)
    ensures |top| == 2 && Score(top[0]) == 3.0 && Score(top[1]) == 8.0
  {
    var quiet := Equipment(1, "Quiet", "", 100.0, 0.0, 3.0, 1.0, true, None, None);
    var busy := Equipment(2, "Busy", "", 100.0, 0.0, 4.0, 2.0, true, None, None);
    ghost var others;
    top, others := PopularAsWritten([busy, quiet]);
    assert |others| == 0 by {
      assert |multiset(top) + multiset(others)| == 2;
    }
    assert multiset(top) == multiset{busy, quiet};
    assert top[0] in multiset(top) && top[1] in multiset(top);
  }

  /**
   * The popularity branch as evidently intended: the ten HIGHEST scores,
   * highest first.
   */
  method MostPopular(equipment: seq<Equipment>) returns (top: seq<Equipment>, ghost others: seq<Equipment>)
    ensures |top| == Min(10, |equipment|)
    ensures multiset(top) + multiset(others) == multiset(equipment)
    ensures forall i, j :: 0 <= i < j < |top| ==> Score(top[i]) >= Score(top[j])
    ensures forall i, j :: 0 <= i < |top| && 0 <= j < |others| ==> Score(top[i]) >= Score(others[j])
  {
    PopularityComparators();
    top, others := QueueTop(equipment, PopularityFirst, 10);
  }

  /** The default ranking: rating high to low, then price low to high. */
  function BestValueCriteria(): seq<QuickSorting.Criterion<Equipment>> {
    [QuickSorting.Criterion(Rating, "desc"), QuickSorting.Criterion(PricePerDay, "asc")]
  }

  /** Under the best-value ranking one row goes no later than another exactly when its rating is higher, or equal with a price no higher. */
  lemma BestValueMeaning(a: Equipment, b: Equipment)
    ensures QuickSorting.MultiCriteria(BestValueCriteria())(a, b) <= 0.0 <==>
      a.rating > b.rating || (a.rating == b.rating && a.pricePerDay <= b.pricePerDay)
  {
    var cs := BestValueCriteria();
    if a.rating != b.rating {
      QuickSorting.CompareFirst(cs, a, b, 0);
    } else if a.pricePerDay != b.pricePerDay {
      QuickSorting.CompareFirst(cs, a, b, 1);
    } else {
      QuickSorting.CompareZero(cs, a, b);
    }
  }

  /** The price branch: `quickSort.sort(equipment, null, 'price_per_day', 'asc')`. */
  method RankByPrice(catalogue: seq<Equipment>) returns (ranked: seq<Equipment>)
    ensures multiset(ranked) == multiset(catalogue)
    ensures forall i, j :: 0 <= i < j < |ranked| ==> ranked[i].pricePerDay <= ranked[j].pricePerDay
  {
    DefaultComparatorValid(Some(PricePerDay), "asc", Score);
    ranked := QuickSorting.Sort(catalogue, None, Some(PricePerDay), "asc", Score);
    CompareByMeaning(PricePerDay, "asc", ranked);
  }

  /** The rating branch: `mergeSort.sort(equipment, null, 'rating', 'desc')`. */
  function RankByRating(catalogue: seq<Equipment>): (ranked: seq<Equipment>)
    ensures multiset(ranked) == multiset(catalogue)
    ensures forall i, j :: 0 <= i < j < |ranked| ==> ranked[i].rating >= ranked[j].rating
    ensures StableOf(ranked, catalogue, CompareBy(Rating, "desc"))
  {
    DefaultComparatorValid(Some(Rating), "desc", Score);
    var ranked := MergeSorting.Sort(Some(catalogue), None, Some(Rating), "desc", Score);
    CompareByMeaning(Rating, "desc", ranked);
    ranked
  }

  /** The default branch: `multiCriteriaSort` by rating, high to low, then price, low to high. */
  method RankBestValue(catalogue: seq<Equipment>) returns (ranked: seq<Equipment>)
    ensures multiset(ranked) == multiset(catalogue)
    ensures forall i, j :: 0 <= i < j < |ranked| ==>
      ranked[i].rating > ranked[j].rating ||
      (ranked[i].rating == ranked[j].rating && ranked[i].pricePerDay <= ranked[j].pricePerDay)
  {
    ranked := QuickSorting.MultiCriteriaSort(catalogue, BestValueCriteria());
    forall i, j | 0 <= i < j < |ranked|
      ensures ranked[i].rating > ranked[j].rating ||
        (ranked[i].rating == ranked[j].rating && ranked[i].pricePerDay <= ranked[j].pricePerDay)
    {
      BestValueMeaning(ranked[i], ranked[j]);
    }
  }

  /**
   * The popularity branch as the code stands: the ten LOWEST scores,
   * lowest first, none above an item left out.
   */
  method RankByPopularity(catalogue: seq<Equipment>) returns (ranked: seq<Equipment>)
    ensures |ranked| == Min(10, |catalogue|) && multiset(ranked) <= multiset(catalogue)
    ensures forall i, j :: 0 <= i < j < |ranked| ==> Score(ranked[i]) <= Score(ranked[j])
    ensures forall i, e :: 0 <= i < |ranked| && e in multiset(catalogue) - multiset(ranked) ==>
      Score(ranked[i]) <= Score(e)
  {
    ghost var others;
    ranked, others := PopularAsWritten(catalogue);
    forall i, e | 0 <= i < |ranked| && e in multiset(catalogue) - multiset(ranked)
      ensures Score(ranked[i]) <= Score(e)
    {
      assert e in multiset(others);
      var j :| 0 <= j < |others| && others[j] == e;
    }
  }

  /** What each branch promises of its ranking of the catalogue. */
  ghost predicate RankedBy(c: Criteria, ranked: seq<Equipment>, catalogue: seq<Equipment>) {
    match c
    case ByPrice =>
      multiset(ranked) == multiset(catalogue) &&
      forall i, j :: 0 <= i < j < |ranked| ==> ranked[i].pricePerDay <= ranked[j].pricePerDay
    case ByRating =>
      multiset(ranked) == multiset(catalogue) &&
      (forall i, j :: 0 <= i < j < |ranked| ==> ranked[i].rating >= ranked[j].rating) &&
      StableOf(ranked, catalogue, CompareBy(Rating, "desc"))
    case ByPopularity =>
      |ranked| == Min(10, |catalogue|) && multiset(ranked) <= multiset(catalogue) &&
      (forall i, j :: 0 <= i < j < |ranked| ==> Score(ranked[i]) <= Score(ranked[j])) &&
      (forall i, e :: 0 <= i < |ranked| && e in multiset(catalogue) - multiset(ranked) ==>
        Score(ranked[i]) <= Score(e))
    case BestValue =>
      multiset(ranked) == multiset(catalogue) &&
      forall i, j :: 0 <= i < j < |ranked| ==>
        ranked[i].rating > ranked[j].rating ||
        (ranked[i].rating == ranked[j].rating && ranked[i].pricePerDay <= ranked[j].pricePerDay)
  }

  /**
   * `handle(msg, criteria)`: no recommendations when the catalogue is
   * missing or empty; otherwise the first five of the ranking the criteria
   * word selects.  The popularity ranking is the one the code computes,
   * least popular first (see README).
   */
  method Recommend(equipment: Option<seq<Equipment>>, criteria: string)
    returns (r: Option<seq<Equipment>>, ranked: seq<Equipment>)
    ensures r.None? <==> equipment.None? || equipment.value == []
    ensures r.Some? ==> r.value == ranked[..Min(5, |ranked|)] && |r.value| == Min(5, |equipment.value|)
    ensures r.Some? ==> RankedBy(Classify(criteria), ranked, equipment.value)
  {
    if equipment.None? || equipment.value == [] {
      return None, [];
    }
    ranked := Rank(Classify(criteria), equipment.value);
    r := Some(ranked[..Min(5, |ranked|)]);
  }

  /** The ranking of the branch `c` selects: every branch but popularity keeps the whole catalogue. */
  method Rank(c: Criteria, catalogue: seq<Equipment>) returns (ranked: seq<Equipment>)
    ensures RankedBy(c, ranked, catalogue)
    ensures |ranked| == if c == ByPopularity then Min(10, |catalogue|) else |catalogue|
  {
    match c {
      case ByPrice =>
        ranked := RankByPrice(catalogue);
        assert |ranked| == |multiset(ranked)| == |catalogue|;
      case ByRating =>
        ranked := RankByRating(catalogue);
        assert |ranked| == |multiset(ranked)| == |catalogue|;
      case ByPopularity =>
        ranked := RankByPopularity(catalogue);
      case BestValue =>
        ranked := RankBestValue(catalogue);
        assert |ranked| == |multiset(ranked)| == |catalogue|;
    }
  }
}
