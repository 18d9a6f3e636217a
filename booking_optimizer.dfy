/**
 * The booking optimiser of `algorithms/greedy/bookingOptimizer.js`, over
 * numeric timestamps: greedy activity selection, the weighted-interval
 * table with its binary search for the last compatible booking, conflict
 * grouping and resolution, and the per-equipment schedule.
 *
 * `Array.prototype.sort` is stable, and a stable sort's output is
 * determined by its input and comparator, so each built-in sort of a copy
 * is modelled by the stable `MergeSorting.MergeSort`.
 */
module Bookings {
  import opened Common
  import opened Ordering
  import opened Catalog
  import opened MergeSorting

  datatype Booking = Booking(start: int, end: int, value: real, priority: real, id: int)

  /** `a.end - b.end`, then `a.start - b.start` on a tie. */
  function EndThenStart(a: Booking, b: Booking): real {
    if a.end != b.end then (a.end - b.end) as real else (a.start - b.start) as real
  }

  /** `a.end - b.end` */
  function ByEnd(a: Booking, b: Booking): real {
    (a.end - b.end) as real
  }

  /** `a.start - b.start` */
  function ByStart(a: Booking, b: Booking): real {
    (a.start - b.start) as real
  }

  /** `value || priority || 1` */
  function Worth(b: Booking): (w: real)
    ensures w != 0.0
    ensures b.value != 0.0 ==> w == b.value
    ensures b.value == 0.0 && b.priority != 0.0 ==> w == b.priority
  {
    OrElse(OrElse(b.value, b.priority), 1.0)
  }

  /** `valueB - valueA`: highest worth first. */
  function ByWorthDesc(a: Booking, b: Booking): real {
    Worth(b) - Worth(a)
  }

  /** Every comparator the optimiser sorts with is one `Array.prototype.sort` accepts. */
  lemma BookingComparators()
    ensures IsComparator(EndThenStart) && IsComparator(ByEnd) && IsComparator(ByStart) && IsComparator(ByWorthDesc)
  {
  }

  /** End times never decrease along `s`. */
  ghost predicate EndsSorted(s: seq<Booking>) {
    forall j, k :: 0 <= j < k < |s| ==> s[j].end <= s[k].end
  }

  /** Start times never decrease along `s`. */
  ghost predicate StartsSorted(s: seq<Booking>) {
    forall j, k :: 0 <= j < k < |s| ==> s[j].start <= s[k].start
  }

  /** Sorting by end, with or without the start tie-break, leaves the end times in order. */
  lemma SortedEnds(s: seq<Booking>)
    ensures Sorted(s, EndThenStart) ==> EndsSorted(s)
    ensures Sorted(s, ByEnd) ==> EndsSorted(s)
    ensures Sorted(s, ByStart) <==> StartsSorted(s)
  {
    if Sorted(s, EndThenStart) {
      forall j, k | 0 <= j < k < |s| ensures s[j].end <= s[k].end {
        assert EndThenStart(s[j], s[k]) <= 0.0;
      }
    }
    if Sorted(s, ByEnd) {
      forall j, k | 0 <= j < k < |s| ensures s[j].end <= s[k].end {
        assert ByEnd(s[j], s[k]) <= 0.0;
      }
    }
    if StartsSorted(s) {
      forall j, k | 0 <= j < k < |s| ensures ByStart(s[j], s[k]) <= 0.0 {
      }
    }
    if Sorted(s, ByStart) {
      forall j, k | 0 <= j < k < |s| ensures s[j].start <= s[k].start {
        assert ByStart(s[j], s[k]) <= 0.0;
      }
    }
  }

  /** Each booking starts at or after the end of the one before it. */
  ghost predicate Compatible(s: seq<Booking>) {
    forall k :: 0 < k < |s| ==> s[k - 1].end <= s[k].start
  }

  // ---------------------------------------------------------------------
  // selectOptimalBookings
  // ---------------------------------------------------------------------

  /**
   * The greedy scan over `s[i..]`: keep each booking that starts at or
   * after the end of the last one kept.
   */
  function GreedyFrom(s: seq<Booking>, i: nat, lastEnd: int): (kept: seq<Booking>)
    requires i <= |s|
    ensures |kept| <= |s| - i
    decreases |s| - i
  {
    if i == |s| then []
    else if s[i].start >= lastEnd then [s[i]] + GreedyFrom(s, i + 1, s[i].end)
    else GreedyFrom(s, i + 1, lastEnd)
  }

  /** What `selectOptimalBookings` returns for `bookings`. */
  function OptimalSchedule(bookings: seq<Booking>): (schedule: seq<Booking>)
    ensures schedule == [] <==> bookings == []
  {
    if bookings == [] then []
    else
      var sorted := MergeSort(bookings, EndThenStart);
      [sorted[0]] + GreedyFrom(sorted, 1, sorted[0].end)
  }

  /** The greedy scan keeps compatible bookings, the first starting at or after `lastEnd`. */
  lemma {:induction false} GreedyCompatible(s: seq<Booking>, i: nat, lastEnd: int)
    requires i <= |s|
    ensures Compatible(GreedyFrom(s, i, lastEnd))
    ensures GreedyFrom(s, i, lastEnd) != [] ==> GreedyFrom(s, i, lastEnd)[0].start >= lastEnd
    decreases |s| - i
  {
    if i < |s| {
      if s[i].start >= lastEnd {
        GreedyCompatible(s, i + 1, s[i].end);
      } else {
        GreedyCompatible(s, i + 1, lastEnd);
      }
    }
  }

  /** The greedy scan keeps only bookings of `s[i..]`. */
  lemma {:induction false} GreedyDrawn(s: seq<Booking>, i: nat, lastEnd: int)
    requires i <= |s|
    ensures multiset(GreedyFrom(s, i, lastEnd)) <= multiset(s[i..])
    decreases |s| - i
  {
    if i < |s| {
      assert s[i..] == [s[i]] + s[i + 1..];
      if s[i].start >= lastEnd {
        GreedyDrawn(s, i + 1, s[i].end);
      } else {
        GreedyDrawn(s, i + 1, lastEnd);
      }
    }
  }

  /** Whatever the scan keeps from `s[i..]` of a sorted `s` comes after `s[i - 1]`. */
  lemma AfterPrevious(s: seq<Booking>, i: nat, lastEnd: int)
    requires 0 < i <= |s| && Sorted(s, EndThenStart)
    ensures AllAfter(s[i - 1], GreedyFrom(s, i, lastEnd), EndThenStart)
  {
    var g := GreedyFrom(s, i, lastEnd);
    GreedyDrawn(s, i, lastEnd);
    forall k | 0 <= k < |g| ensures EndThenStart(s[i - 1], g[k]) <= 0.0 {
      assert g[k] in multiset(s[i..]);
      var j :| i <= j < |s| && s[j] == g[k];
    }
  }

  /** On sorted bookings the scan keeps them in order. */
  lemma {:induction false} GreedySorted(s: seq<Booking>, i: nat, lastEnd: int)
    requires i <= |s| && Sorted(s, EndThenStart)
    ensures Sorted(GreedyFrom(s, i, lastEnd), EndThenStart)
    decreases |s| - i
  {
    if i < |s| {
      if s[i].start >= lastEnd {
        GreedySorted(s, i + 1, s[i].end);
        AfterPrevious(s, i + 1, s[i].end);
        SortedCons(s[i], GreedyFrom(s, i + 1, s[i].end), EndThenStart);
      } else {
        GreedySorted(s, i + 1, lastEnd);
      }
    }
  }

  /**
   * A chain in `s`: positions in increasing order, each booking starting
   * at or after the end of the one before it.
   */
  ghost predicate Chain(s: seq<Booking>, idx: seq<int>) {
    (forall r :: 0 <= r < |idx| ==> 0 <= idx[r] < |s|) &&
    (forall r, q :: 0 <= r < q < |idx| ==> idx[r] < idx[q]) &&
    (forall r :: 0 < r < |idx| ==> s[idx[r - 1]].end <= s[idx[r]].start)
  }

  /**
   * Greedy stays ahead: on bookings in end order, no chain within
   * `s[i..]` that starts at or after `lastEnd` is longer than the greedy scan.
   */
  lemma {:induction false} GreedyAhead(s: seq<Booking>, i: nat, lastEnd: int, idx: seq<int>)
    requires i <= |s| && EndsSorted(s)
    requires Chain(s, idx) && forall r :: 0 <= r < |idx| ==> idx[r] >= i
    requires idx != [] ==> s[idx[0]].start >= lastEnd
    ensures |idx| <= |GreedyFrom(s, i, lastEnd)|
    decreases |s| - i
  {
    if i < |s| && idx != [] {
      if s[i].start >= lastEnd {
        var tail := idx[1..];
        assert s[i].end <= s[idx[0]].end;
        assert Chain(s, tail);
        assert tail != [] ==> s[tail[0]].start >= s[idx[0]].end;
        GreedyAhead(s, i + 1, s[i].end, tail);
      } else {
        assert idx[0] != i;
        GreedyAhead(s, i + 1, lastEnd, idx);
      }
    }
  }

  /** A chain's first position lies within `s`. */
  lemma ChainFirst(s: seq<Booking>, idx: seq<int>)
    requires Chain(s, idx)
    ensures idx != [] ==> 0 <= idx[0] < |s|
  {
  }

  /** On bookings in end order, no chain is longer than the greedy schedule. */
  lemma GreedyLongest(s: seq<Booking>, idx: seq<int>)
    requires s != [] && EndsSorted(s) && Chain(s, idx)
    ensures |idx| <= |[s[0]] + GreedyFrom(s, 1, s[0].end)|
  {
    if idx != [] {
      var tail := idx[1..];
      assert Chain(s, tail);
      assert s[0].end <= s[idx[0]].end;
      GreedyAhead(s, 1, s[0].end, tail);
    }
  }

  /** Keeping the first booking of a sorted run and then scanning gives a compatible sorted selection. */
  lemma GreedyShape(s: seq<Booking>)
    requires s != []
    ensures Compatible([s[0]] + GreedyFrom(s, 1, s[0].end))
    ensures multiset([s[0]] + GreedyFrom(s, 1, s[0].end)) <= multiset(s)
  {
    GreedyCompatible(s, 1, s[0].end);
    GreedyDrawn(s, 1, s[0].end);
    assert s == [s[0]] + s[1..];
  }

  /** On a sorted run that selection is itself sorted. */
  lemma GreedyInOrder(s: seq<Booking>)
    requires s != [] && Sorted(s, EndThenStart)
    ensures Sorted([s[0]] + GreedyFrom(s, 1, s[0].end), EndThenStart)
  {
    GreedySorted(s, 1, s[0].end);
    AfterPrevious(s, 1, s[0].end);
    SortedCons(s[0], GreedyFrom(s, 1, s[0].end), EndThenStart);
  }

  /** The schedule is compatible, in end order, and drawn from the input. */
  lemma OptimalScheduleShape(bookings: seq<Booking>)
    ensures Compatible(OptimalSchedule(bookings))
    ensures Sorted(OptimalSchedule(bookings), EndThenStart)
    ensures multiset(OptimalSchedule(bookings)) <= multiset(bookings)
  {
    if bookings != [] {
      var sorted := MergeSort(bookings, EndThenStart);
      BookingComparators();
      MergeSortCorrect(bookings, EndThenStart);
      GreedyShape(sorted);
      GreedyInOrder(sorted);
    }
  }

  /** No chain of the sorted bookings is longer than the schedule. */
  lemma OptimalScheduleLongest(bookings: seq<Booking>, idx: seq<int>)
    requires Chain(MergeSort(bookings, EndThenStart), idx)
    ensures |idx| <= |OptimalSchedule(bookings)|
  {
    var sorted := MergeSort(bookings, EndThenStart);
    ChainFirst(sorted, idx);
    if bookings != [] {
      BookingComparators();
      MergeSortCorrect(bookings, EndThenStart);
      SortedEnds(sorted);
      GreedyLongest(sorted, idx);
    }
  }

  /** `selectOptimalBookings(bookings)`: sort a copy by end then start, then keep greedily. */
  method SelectOptimal(bookings: seq<Booking>) returns (selected: seq<Booking>)
    ensures selected == OptimalSchedule(bookings)
  {
    if |bookings| == 0 {
      return [];
    }
    var sorted := MergeSort(bookings, EndThenStart);
    ghost var target := [sorted[0]] + GreedyFrom(sorted, 1, sorted[0].end);
    assert target == OptimalSchedule(bookings);
    selected := [sorted[0]];
    var lastEnd := sorted[0].end;
    for i := 1 to |sorted|
      invariant selected + GreedyFrom(sorted, i, lastEnd) == target
    {
      var current := sorted[i];
      if current.start >= lastEnd {
        selected := selected + [current];
        lastEnd := current.end;
      }
    }
  }

  // ---------------------------------------------------------------------
  // selectWeightedBookings and _findLastCompatible
  // ---------------------------------------------------------------------

  /** The last position `k <= j` whose booking ends by the time booking `i` starts, or -1. */
  function LastCompatibleUpTo(s: seq<Booking>, i: nat, j: int): (r: int)
    requires i < |s| && -1 <= j < i
    ensures -1 <= r <= j
    ensures r >= 0 ==> s[r].end <= s[i].start
    ensures forall k :: r < k <= j ==> s[k].end > s[i].start
    decreases j + 1
  {
    if j < 0 then -1
    else if s[j].end <= s[i].start then j
    else LastCompatibleUpTo(s, i, j - 1)
  }

  /** The last booking before `i` that ends by the time booking `i` starts, or -1. */
  function LastCompatible(s: seq<Booking>, i: nat): (r: int)
    requires i < |s|
    ensures -1 <= r < i
  {
    LastCompatibleUpTo(s, i, i - 1)
  }

  /**
   * `_findLastCompatible(bookings, i)`: a binary search over `[0, i - 1]`
   * that moves right past every booking ending by the start of booking
   * `i`.  On bookings in end order it finds the last such one.
   */
  method FindLastCompatible(s: seq<Booking>, i: nat) returns (result: int)
    requires i < |s| && EndsSorted(s)
    ensures result == LastCompatible(s, i)
  {
    var current := s[i];
    var left := 0;
    var right := i - 1;
    result := -1;
    while left <= right
      invariant 0 <= left <= right + 1 <= i
      invariant result == left - 1
      invariant forall k :: 0 <= k < left ==> s[k].end <= current.start
      invariant forall k :: right < k < i ==> s[k].end > current.start
      decreases right - left
    {
      var mid := (left + right) / 2;
      if s[mid].end <= current.start {
        result := mid;
        left := mid + 1;
      } else {
        right := mid - 1;
      }
    }
    LastCompatibleUnique(s, i, result);
  }

  /** The booking before `i` that the greatest-compatible conditions describe is `LastCompatible`. */
  lemma LastCompatibleUnique(s: seq<Booking>, i: nat, r: int)
    requires i < |s| && -1 <= r < i
    requires r >= 0 ==> s[r].end <= s[i].start
    requires forall k :: r < k < i ==> s[k].end > s[i].start
    ensures r == LastCompatible(s, i)
  {
    var e := LastCompatible(s, i);
    assert e >= 0 ==> s[e].end <= s[i].start;
    assert r >= 0 ==> s[r].end <= s[i].start;
  }

  /**
   * `dp[i]` of `selectWeightedBookings` on bookings in end order: the
   * first entry is `value || 1`; each later one is the one before it or,
   * if larger, the booking's value plus the entry of its last compatible
   * booking.
   */
  function WeightedBest(s: seq<Booking>, i: nat): real
    requires i < |s|
  {
    if i == 0 then OrElse(s[0].value, 1.0)
    else
      var c := LastCompatible(s, i);
      var withCurrent := s[i].value + (if c >= 0 then WeightedBest(s, c) else 0.0);
      if withCurrent > WeightedBest(s, i - 1) then withCurrent else WeightedBest(s, i - 1)
  }

  /** The table never decreases along the sorted bookings. */
  lemma {:induction false} WeightedBestGrows(s: seq<Booking>, i: nat, j: nat)
    requires i <= j < |s|
    ensures WeightedBest(s, i) <= WeightedBest(s, j)
    decreases j
  {
    if i < j {
      WeightedBestGrows(s, i, j - 1);
    }
  }

  /** `parent[i]` of `selectWeightedBookings`. */
  function Parent(s: seq<Booking>, i: nat): (p: int)
    requires i < |s|
    ensures -1 <= p < i
    ensures p != i - 1 ==> p == LastCompatible(s, i)
  {
    if i == 0 then -1
    else
      var c := LastCompatible(s, i);
      var withCurrent := s[i].value + (if c >= 0 then WeightedBest(s, c) else 0.0);
      if withCurrent > WeightedBest(s, i - 1) then c else i - 1
  }

  /** One entry of the tables, from the values the loop reads. */
  lemma WeightedStep(s: seq<Booking>, i: nat, c: int, prev: real, atC: real, best: real, from: int)
    requires 0 < i < |s| && c == LastCompatible(s, i) && prev == WeightedBest(s, i - 1)
    requires atC == (if c >= 0 then WeightedBest(s, c) else 0.0)
    requires best == (if s[i].value + atC > prev then s[i].value + atC else prev)
    requires from == (if s[i].value + atC > prev then c else i - 1)
    ensures best == WeightedBest(s, i) && from == Parent(s, i)
  {
  }

  /** Sorting a copy by end puts the end times in order and keeps the bookings. */
  lemma SortedByEnd(bookings: seq<Booking>)
    ensures EndsSorted(MergeSort(bookings, ByEnd))
  {
    BookingComparators();
    MergeSortCorrect(bookings, ByEnd);
    SortedEnds(MergeSort(bookings, ByEnd));
  }

  /**
   * One step of the walk back: a listed booking ends by the start of the
   * one listed after it, because its position is at most the last
   * compatible one of that booking, and ends are in order.
   */
  lemma WalkStep(s: seq<Booking>, i: nat, p: int, selected: seq<Booking>)
    requires EndsSorted(s) && i < |s| && -1 <= p < i && (p != i - 1 ==> p == LastCompatible(s, i))
    requires Compatible(selected)
    requires selected != [] ==> forall k :: 0 <= k <= i ==> s[k].end <= selected[0].start
    ensures var next := if p != i - 1 then [s[i]] + selected else selected;
      Compatible(next) && (next != [] ==> forall k :: 0 <= k <= p ==> s[k].end <= next[0].start)
  {
    if p != i - 1 {
      var next := [s[i]] + selected;
      forall k | 0 < k < |next| ensures next[k - 1].end <= next[k].start {
        if k > 1 {
          assert next[k - 1] == selected[k - 2] && next[k] == selected[k - 1];
        }
      }
    }
  }

  /** The first `i` entries of both tables. */
  ghost predicate TablesUpTo(sorted: seq<Booking>, dp: array<real>, parent: array<int>, i: int)
    requires dp.Length == parent.Length == |sorted|
    reads dp, parent
  {
    (forall k {:trigger dp[k]} :: 0 <= k < i && k < |sorted| ==> dp[k] == WeightedBest(sorted, k)) &&
    (forall k {:trigger parent[k]} :: 0 <= k < i && k < |sorted| ==> parent[k] == Parent(sorted, k))
  }

  /** The two tables of `selectWeightedBookings`. */
  method WeightedTable(sorted: seq<Booking>) returns (dp: array<real>, parent: array<int>)
    requires sorted != [] && EndsSorted(sorted)
    ensures fresh(dp) && fresh(parent) && dp.Length == parent.Length == |sorted|
    ensures TablesUpTo(sorted, dp, parent, |sorted|)
  {
    var n := |sorted|;
    dp := new real[n](i => 0.0);
    parent := new int[n](i => -1);
    dp[0] := OrElse(sorted[0].value, 1.0);
    for i := 1 to n
      invariant TablesUpTo(sorted, dp, parent, i)
    {
      FillEntry(sorted, dp, parent, i);
    }
  }

  /** Entry `i` of both tables, from the entries before it. */
  method FillEntry(sorted: seq<Booking>, dp: array<real>, parent: array<int>, i: nat)
    requires 0 < i < |sorted| == dp.Length == parent.Length && EndsSorted(sorted)
    requires TablesUpTo(sorted, dp, parent, i)
    modifies dp, parent
    ensures TablesUpTo(sorted, dp, parent, i + 1)
  {
    var current := sorted[i];
    var compatibleIndex := FindLastCompatible(sorted, i);
    var atCompatible := if compatibleIndex >= 0 then dp[compatibleIndex] else 0.0;
    var best, from := dp[i - 1], i - 1;
    var valueWithCurrent := current.value + atCompatible;
    if valueWithCurrent > best {
      best, from := valueWithCurrent, compatibleIndex;
    }
    WeightedStep(sorted, i, compatibleIndex, dp[i - 1], atCompatible, best, from);
    ghost var before, parents := dp[..], parent[..];
    assert forall k :: 0 <= k < i ==> before[k] == WeightedBest(sorted, k) && parents[k] == Parent(sorted, k);
    dp[i] := best;
    parent[i] := from;
    assert dp[..] == before[i := best] && parent[..] == parents[i := from];
  }

  /** The whole `parent` table. */
  function Parents(s: seq<Booking>): (r: seq<int>)
    ensures |r| == |s| && forall k :: 0 <= k < |s| ==> r[k] == Parent(s, k)
  {
    seq(|s|, k requires 0 <= k < |s| => Parent(s, k))
  }

  /** Every entry of a `parent` table points before its own position. */
  ghost predicate PointsBack(parent: seq<int>) {
    forall k :: 0 <= k < |parent| ==> -1 <= parent[k] < k
  }

  /**
   * The walk back of `selectWeightedBookings` from position `i`: follow
   * `parent` down to -1, listing (in front) every booking whose parent is
   * not the booking just before it.
   */
  function Walk(s: seq<Booking>, parent: seq<int>, i: int): (r: seq<Booking>)
    requires |parent| == |s| && PointsBack(parent) && -1 <= i < |s|
    ensures forall x :: x in r ==> x in s
    decreases i + 1
  {
    if i < 0 then []
    else
      var p := parent[i];
      Walk(s, parent, p) + (if p != i - 1 then [s[i]] else [])
  }

  /** One step of the walk back, with what is listed already behind it. */
  lemma WalkBack(s: seq<Booking>, parent: seq<int>, i: nat, selected: seq<Booking>)
    requires |parent| == |s| && PointsBack(parent) && i < |s|
    ensures var p := parent[i];
      Walk(s, parent, i) + selected == Walk(s, parent, p) + (if p != i - 1 then [s[i]] + selected else selected)
  {
    var p := parent[i];
    if p != i - 1 {
      SeqAssoc(Walk(s, parent, p), [s[i]], selected);
    }
  }

  /**
   * `selectWeightedBookings(bookings)`: sort a copy by end, fill the
   * tables, then follow `parent` back from the last booking, listing each
   * booking whose parent is not the booking just before it.  The listed
   * bookings are exactly that walk's, come from the input and are
   * compatible.
   */
  method SelectWeighted(bookings: seq<Booking>) returns (selected: seq<Booking>)
    ensures bookings == [] ==> selected == []
    ensures bookings != [] ==> var sorted := MergeSort(bookings, ByEnd);
      PointsBack(Parents(sorted)) && selected == Walk(sorted, Parents(sorted), |sorted| - 1)
    ensures Compatible(selected)
    ensures forall x :: x in selected ==> x in bookings
  {
    if |bookings| == 0 {
      return [];
    }
    var sorted := MergeSort(bookings, ByEnd);
    SortedByEnd(bookings);
    var dp, parent := WeightedTable(sorted);
    selected := WalkBackLoop(sorted, dp, parent);
    forall x | x in selected ensures x in bookings {
      assert x in multiset(sorted);
    }
  }

  /** The reconstruction loop of `selectWeightedBookings`, over the filled tables. */
  method WalkBackLoop(sorted: seq<Booking>, dp: array<real>, parent: array<int>) returns (selected: seq<Booking>)
    requires sorted != [] && EndsSorted(sorted) && dp.Length == parent.Length == |sorted|
    requires TablesUpTo(sorted, dp, parent, |sorted|)
    ensures PointsBack(Parents(sorted)) && selected == Walk(sorted, Parents(sorted), |sorted| - 1)
    ensures Compatible(selected)
  {
    ghost var table := Parents(sorted);
    assert PointsBack(table);
    selected := [];
    var i := |sorted| - 1;
    while i >= 0
      invariant -1 <= i < |sorted|
      invariant Compatible(selected)
      invariant selected != [] ==> forall k :: 0 <= k <= i ==> sorted[k].end <= selected[0].start
      invariant Walk(sorted, table, |sorted| - 1) == Walk(sorted, table, i) + selected
      decreases i
    {
      assert parent[i] == table[i] == Parent(sorted, i);
      WalkStep(sorted, i, parent[i], selected);
      WalkBack(sorted, table, i, selected);
      if parent[i] != i - 1 {
        selected := [sorted[i]] + selected;
      }
      i := if parent[i] == -1 then -1 else parent[i];
    }
  }

  /**
   * As written, the walk never lists the first booking of the end order:
   * its parent is -1, which is `0 - 1`.  A single booking gives an empty
   * selection although `dp[0]` counts it.
   */
  lemma WalkSkipsFirst(b: Booking)
    ensures PointsBack(Parents([b]))
    ensures Walk([b], Parents([b]), 0) == [] && WeightedBest([b], 0) == OrElse(b.value, 1.0)
  {
    assert Parents([b])[0] == -1;
  }

  /**
   * As written, a booking taken with its last compatible booking just
   * before it is dropped too: two back-to-back bookings worth 5 each give
   * `dp[1] == 10` and an empty selection.
   */
  lemma WalkDropsAdjacent()
    ensures var s := [Booking(0, 1, 5.0, 0.0, 1), Booking(1, 2, 5.0, 0.0, 2)];
      PointsBack(Parents(s)) && WeightedBest(s, 1) == 10.0 && Parent(s, 1) == 0 && Walk(s, Parents(s), 1) == []
  {
    var s := [Booking(0, 1, 5.0, 0.0, 1), Booking(1, 2, 5.0, 0.0, 2)];
    assert LastCompatible(s, 1) == 0;
    assert WeightedBest(s, 0) == 5.0;
    var t := Parents(s);
    assert t[0] == -1 && t[1] == 0;
    assert Walk(s, t, 0) == [];
  }

  /**
   * Whether `dp[i]` takes booking `i`: the first entry always does; a
   * later one does when adding the booking beat the entry before it.
   */
  predicate Taken(s: seq<Booking>, i: nat)
    requires i < |s|
  {
    i == 0 ||
    var c := LastCompatible(s, i);
    s[i].value + (if c >= 0 then WeightedBest(s, c) else 0.0) > WeightedBest(s, i - 1)
  }

  /** What booking `i` adds to `dp` when taken: `value || 1` for the first, `value` for the others. */
  function Credit(s: seq<Booking>, i: nat): real
    requires i < |s|
  {
    if i == 0 then OrElse(s[0].value, 1.0) else s[i].value
  }

  /**
   * The walk back as evidently intended: a taken flag per entry, so that
   * a taken booking is listed and the walk moves to its last compatible
   * booking, and a skipped one moves to the booking before it.  It returns
   * the positions listed, in end order.
   */
  function WalkTaken(s: seq<Booking>, i: int): (r: seq<int>)
    requires -1 <= i < |s|
    ensures forall k :: 0 <= k < |r| ==> 0 <= r[k] <= i
    decreases i + 1
  {
    if i < 0 then []
    else if Taken(s, i) then WalkTaken(s, LastCompatible(s, i)) + [i]
    else WalkTaken(s, i - 1)
  }

  /** The bookings at a list of positions. */
  function At(s: seq<Booking>, ks: seq<int>): (r: seq<Booking>)
    requires forall k :: 0 <= k < |ks| ==> 0 <= ks[k] < |s|
    ensures |r| == |ks| && forall k :: 0 <= k < |ks| ==> r[k] == s[ks[k]]
  {
    if ks == [] then [] else [s[ks[0]]] + At(s, ks[1..])
  }

  /** What the listed positions add up to. */
  function CreditSum(s: seq<Booking>, ks: seq<int>): real
    requires forall k :: 0 <= k < |ks| ==> 0 <= ks[k] < |s|
  {
    if ks == [] then 0.0 else CreditSum(s, ks[..|ks| - 1]) + Credit(s, ks[|ks| - 1])
  }

  /** `dp[i]` in terms of the taken flag: the credit plus the entry of the last compatible booking, or the entry before. */
  lemma WeightedBestTaken(s: seq<Booking>, i: nat)
    requires i < |s|
    ensures var c := LastCompatible(s, i);
      WeightedBest(s, i) == if Taken(s, i) then Credit(s, i) + (if c >= 0 then WeightedBest(s, c) else 0.0)
                            else WeightedBest(s, i - 1)
  {
    if i == 0 {
      assert LastCompatible(s, 0) == -1;
    }
  }

  /** The corrected walk is worth exactly `dp[i]`. */
  lemma {:induction false} WalkTakenWorth(s: seq<Booking>, i: int)
    requires -1 <= i < |s|
    ensures CreditSum(s, WalkTaken(s, i)) == if i < 0 then 0.0 else WeightedBest(s, i)
    decreases i + 1
  {
    if i >= 0 {
      var r := WalkTaken(s, i);
      WeightedBestTaken(s, i);
      if Taken(s, i) {
        var c := LastCompatible(s, i);
        WalkTakenWorth(s, c);
        assert r[..|r| - 1] == WalkTaken(s, c) && r[|r| - 1] == i;
      } else {
        WalkTakenWorth(s, i - 1);
      }
    }
  }

  /** Positions in increasing order whose bookings do not overlap, each ending by the start of the next. */
  ghost predicate Chained(s: seq<Booking>, r: seq<int>)
    requires forall k :: 0 <= k < |r| ==> 0 <= r[k] < |s|
  {
    forall k :: 0 < k < |r| ==> r[k - 1] < r[k] && s[r[k - 1]].end <= s[r[k]].start
  }

  /** A chain stays one when a later booking that starts after its last end is added. */
  lemma ChainedSnoc(s: seq<Booking>, front: seq<int>, i: nat)
    requires i < |s| && forall k :: 0 <= k < |front| ==> 0 <= front[k] < |s|
    requires Chained(s, front)
    requires front != [] ==> front[|front| - 1] < i && s[front[|front| - 1]].end <= s[i].start
    ensures Chained(s, front + [i])
  {
    var r := front + [i];
    forall k | 0 < k < |r| ensures r[k - 1] < r[k] && s[r[k - 1]].end <= s[r[k]].start {
      if k < |r| - 1 {
        assert r[k - 1] == front[k - 1] && r[k] == front[k];
      }
    }
  }

  /** The bookings at chained positions are compatible. */
  lemma ChainedCompatible(s: seq<Booking>, r: seq<int>)
    requires forall k :: 0 <= k < |r| ==> 0 <= r[k] < |s|
    requires Chained(s, r)
    ensures Compatible(At(s, r))
  {
    var b := At(s, r);
    forall k | 0 < k < |b| ensures b[k - 1].end <= b[k].start {
      assert b[k - 1] == s[r[k - 1]] && b[k] == s[r[k]];
    }
  }

  /**
   * On bookings in end order the corrected walk lists positions in
   * increasing order whose bookings do not overlap.
   */
  lemma {:induction false} WalkTakenChained(s: seq<Booking>, i: int)
    requires -1 <= i < |s| && EndsSorted(s)
    ensures Chained(s, WalkTaken(s, i))
    decreases i + 1
  {
    if i >= 0 {
      if Taken(s, i) {
        var c := LastCompatible(s, i);
        WalkTakenChained(s, c);
        var front := WalkTaken(s, c);
        if front != [] {
          var last := front[|front| - 1];
          assert last <= c && s[c].end <= s[i].start;
          assert s[last].end <= s[c].end;
        }
        ChainedSnoc(s, front, i);
      } else {
        WalkTakenChained(s, i - 1);
      }
    }
  }

  /** The corrected walk's bookings, on bookings in end order, do not overlap. */
  lemma WalkTakenCompatible(s: seq<Booking>, i: int)
    requires -1 <= i < |s| && EndsSorted(s)
    ensures Compatible(At(s, WalkTaken(s, i)))
  {
    WalkTakenChained(s, i);
    ChainedCompatible(s, WalkTaken(s, i));
  }

  // ---------------------------------------------------------------------
  // detectConflicts
  // ---------------------------------------------------------------------

  /** The booking added last to a non-empty group. */
  function LastOf(g: seq<Booking>): Booking
    requires g != []
  {
    g[|g| - 1]
  }

  /** Every group holds at least one booking. */
  ghost predicate NonEmptyGroups(gs: seq<seq<Booking>>) {
    forall j :: 0 <= j < |gs| ==> gs[j] != []
  }

  /**
   * Where the inner loop of `detectConflicts` puts booking `x`: at the end
   * of the first group whose last booking ends after `x` starts, or, when
   * there is none, in a new group of its own after all the others.
   */
  function AddTo(gs: seq<seq<Booking>>, x: Booking): (r: seq<seq<Booking>>)
    requires NonEmptyGroups(gs)
    ensures NonEmptyGroups(r)
    ensures |r| == |gs| || |r| == |gs| + 1
  {
    if gs == [] then [[x]]
    else if x.start < LastOf(gs[0]).end then [gs[0] + [x]] + gs[1..]
    else [gs[0]] + AddTo(gs[1..], x)
  }

  /** The groups after the outer loop has placed `s[..i]`. */
  function Groups(s: seq<Booking>, i: nat): (gs: seq<seq<Booking>>)
    requires i <= |s|
    ensures NonEmptyGroups(gs)
  {
    if i == 0 then [] else AddTo(Groups(s, i - 1), s[i - 1])
  }

  /** `conflictGroups.filter(group => group.length > 1)` */
  function Crowded(gs: seq<seq<Booking>>): (r: seq<seq<Booking>>)
    ensures forall g :: g in r <==> g in gs && |g| > 1
  {
    if gs == [] then []
    else
      assert gs == [gs[0]] + gs[1..];
      (if |gs[0]| > 1 then [gs[0]] else []) + Crowded(gs[1..])
  }

  /** What `detectConflicts` returns: group the bookings in start order, keep the groups of two or more. */
  function Conflicts(bookings: seq<Booking>): seq<seq<Booking>> {
    Crowded(Groups(MergeSort(bookings, ByStart), |bookings|))
  }

  /** Every booking held by some group, counted once per group it is in. */
  function Members(gs: seq<seq<Booking>>): multiset<Booking> {
    if gs == [] then multiset{} else multiset(gs[0]) + Members(gs[1..])
  }

  /** Each booking of the group starts before the one added before it ends. */
  ghost predicate Overlapping(g: seq<Booking>) {
    forall k :: 0 < k < |g| ==> g[k].start < g[k - 1].end
  }

  /** A group in start order whose members each overlap the one added before them. */
  ghost predicate GroupShape(g: seq<Booking>) {
    StartsSorted(g) && Overlapping(g)
  }

  /** Every group has the group shape. */
  ghost predicate Shaped(gs: seq<seq<Booking>>) {
    gs == [] || (GroupShape(gs[0]) && Shaped(gs[1..]))
  }

  /** A group of a shaped list has the group shape. */
  lemma {:induction false} ShapedIn(gs: seq<seq<Booking>>, g: seq<Booking>)
    requires Shaped(gs) && g in gs
    ensures GroupShape(g)
  {
    if gs[0] != g {
      ShapedIn(gs[1..], g);
    }
  }

  /** Appending a booking that overlaps the last one and starts no earlier than any member keeps the shape. */
  lemma AppendShape(g: seq<Booking>, x: Booking)
    requires g != [] && GroupShape(g) && x.start < LastOf(g).end
    requires forall y :: y in multiset(g) ==> y.start <= x.start
    ensures GroupShape(g + [x])
  {
    var r := g + [x];
    forall j, k | 0 <= j < k < |r| ensures r[j].start <= r[k].start {
      if k == |g| {
        assert r[j] in multiset(g);
      }
    }
  }

  /**
   * Placing a booking that starts no earlier than anything placed so far
   * keeps every group in start order and overlapping, and adds exactly
   * that booking to the groups' members.
   */
  lemma {:induction false} AddToShape(gs: seq<seq<Booking>>, x: Booking)
    requires NonEmptyGroups(gs) && Shaped(gs)
    requires forall y :: y in Members(gs) ==> y.start <= x.start
    ensures Shaped(AddTo(gs, x))
    ensures Members(AddTo(gs, x)) == Members(gs) + multiset{x}
  {
    var r := AddTo(gs, x);
    if gs == [] {
      assert r[1..] == [];
    } else {
      assert Members(gs) == multiset(gs[0]) + Members(gs[1..]);
      if x.start < LastOf(gs[0]).end {
        JoinFirst(gs, x);
      } else {
        AddToShape(gs[1..], x);
        SkipFirst(gs, x);
      }
    }
  }

  /** `x` joins the first group, which keeps its shape. */
  lemma JoinFirst(gs: seq<seq<Booking>>, x: Booking)
    requires gs != [] && NonEmptyGroups(gs) && Shaped(gs) && x.start < LastOf(gs[0]).end
    requires forall y :: y in multiset(gs[0]) ==> y.start <= x.start
    ensures Shaped(AddTo(gs, x))
    ensures Members(AddTo(gs, x)) == Members(gs) + multiset{x}
  {
    AppendShape(gs[0], x);
    assert AddTo(gs, x) == [gs[0] + [x]] + gs[1..];
    GroupsCons(gs[0] + [x], gs[1..]);
  }

  /** `x` passes the first group, which stays as it was in front of the rest. */
  lemma SkipFirst(gs: seq<seq<Booking>>, x: Booking)
    requires gs != [] && NonEmptyGroups(gs) && Shaped(gs) && !(x.start < LastOf(gs[0]).end)
    requires Shaped(AddTo(gs[1..], x)) && Members(AddTo(gs[1..], x)) == Members(gs[1..]) + multiset{x}
    ensures Shaped(AddTo(gs, x))
    ensures Members(AddTo(gs, x)) == Members(gs) + multiset{x}
  {
    var rest := AddTo(gs[1..], x);
    assert AddTo(gs, x) == [gs[0]] + rest;
    GroupsCons(gs[0], rest);
  }

  /** A group in front of others: the members add up, and the shape is that of each part. */
  lemma GroupsCons(g: seq<Booking>, rest: seq<seq<Booking>>)
    ensures Members([g] + rest) == multiset(g) + Members(rest)
    ensures Shaped([g] + rest) <==> GroupShape(g) && Shaped(rest)
  {
    assert ([g] + rest)[0] == g && ([g] + rest)[1..] == rest;
  }

  /** Placing booking `i - 1` after the bookings before it, which start no later. */
  lemma PlaceStep(s: seq<Booking>, i: nat)
    requires 0 < i <= |s| && StartsSorted(s)
    requires Shaped(Groups(s, i - 1)) && Members(Groups(s, i - 1)) == multiset(s[..i - 1])
    ensures Shaped(Groups(s, i)) && Members(Groups(s, i)) == multiset(s[..i])
  {
    var gs, x := Groups(s, i - 1), s[i - 1];
    assert Groups(s, i) == AddTo(gs, x);
    TakeNext(s, i - 1);
    assert multiset(s[..i]) == multiset(s[..i - 1]) + multiset{x};
    EarlierStartNoLater(s, i - 1);
    AddToShape(gs, x);
  }

  /** In start order, every booking before position `i` starts no later than the one at `i`. */
  lemma EarlierStartNoLater(s: seq<Booking>, i: nat)
    requires i < |s| && StartsSorted(s)
    ensures forall y :: y in multiset(s[..i]) ==> y.start <= s[i].start
  {
    forall y | y in multiset(s[..i]) ensures y.start <= s[i].start {
      var k :| 0 <= k < i && s[..i][k] == y;
    }
  }

  /** The groups after `i` bookings hold exactly those bookings, in overlapping start-ordered runs. */
  lemma {:induction false} GroupsShape(s: seq<Booking>, i: nat)
    requires i <= |s| && StartsSorted(s)
    ensures Shaped(Groups(s, i))
    ensures Members(Groups(s, i)) == multiset(s[..i])
  {
    if i > 0 {
      GroupsShape(s, i - 1);
      PlaceStep(s, i);
    }
  }

  /** Filtering drops whole groups, so no booking gains a group. */
  lemma {:induction false} CrowdedMembers(gs: seq<seq<Booking>>)
    ensures Members(Crowded(gs)) <= Members(gs)
  {
    if gs != [] {
      var head: seq<seq<Booking>> := if |gs[0]| > 1 then [gs[0]] else [];
      var rest := Crowded(gs[1..]);
      assert Crowded(gs) == head + rest;
      CrowdedMembers(gs[1..]);
      MembersAppend(head, rest);
      assert Members(head) <= multiset(gs[0]) by {
        if head != [] {
          assert head[1..] == [];
        }
      }
    }
  }

  /** The groups filtering keeps have the shape they had. */
  lemma {:induction false} CrowdedShaped(gs: seq<seq<Booking>>)
    requires Shaped(gs)
    ensures Shaped(Crowded(gs))
  {
    if gs != [] {
      var rest := Crowded(gs[1..]);
      CrowdedShaped(gs[1..]);
      if |gs[0]| > 1 {
        var r := [gs[0]] + rest;
        assert Crowded(gs) == r;
        assert r[0] == gs[0] && r[1..] == rest;
      } else {
        assert Crowded(gs) == rest;
      }
    }
  }

  /** Members of two lists of groups put together. */
  lemma {:induction false} MembersAppend(a: seq<seq<Booking>>, b: seq<seq<Booking>>)
    ensures Members(a + b) == Members(a) + Members(b)
  {
    if a == [] {
      assert a + b == b;
    } else {
      var ab := a + b;
      assert ab[0] == a[0] && ab[1..] == a[1..] + b;
      MembersAppend(a[1..], b);
      calc {
        Members(ab);
        multiset(a[0]) + Members(a[1..] + b);
        multiset(a[0]) + (Members(a[1..]) + Members(b));
      }
    }
  }

  /**
   * `detectConflicts` returns groups of two or more bookings; each group
   * is in start order, each member starts before the member added just
   * before it ends, and no input booking appears in more groups than it
   * occurs in the input.
   */
  lemma ConflictsShape(bookings: seq<Booking>)
    ensures forall g :: g in Conflicts(bookings) ==> |g| >= 2 && StartsSorted(g) && Overlapping(g)
    ensures Members(Conflicts(bookings)) <= multiset(bookings)
  {
    var sorted := MergeSort(bookings, ByStart);
    var gs := Groups(sorted, |sorted|);
    SortedByStart(bookings);
    GroupsShape(sorted, |sorted|);
    assert sorted[..|sorted|] == sorted;
    CrowdedMembers(gs);
    CrowdedShaped(gs);
    forall g | g in Conflicts(bookings) ensures GroupShape(g) {
      ShapedIn(Crowded(gs), g);
    }
  }

  /** Sorting a copy by start puts the start times in order. */
  lemma SortedByStart(bookings: seq<Booking>)
    ensures StartsSorted(MergeSort(bookings, ByStart))
  {
    BookingComparators();
    MergeSortCorrect(bookings, ByStart);
    SortedEnds(MergeSort(bookings, ByStart));
  }

  /** The inner loop of `detectConflicts`: scan the groups for the first that `current` overlaps. */
  method Place(groups: seq<seq<Booking>>, current: Booking) returns (next: seq<seq<Booking>>)
    requires NonEmptyGroups(groups)
    ensures next == AddTo(groups, current)
  {
    var j := 0;
    while j < |groups|
      invariant 0 <= j <= |groups|
      invariant AddTo(groups, current) == groups[..j] + AddTo(groups[j..], current)
    {
      var group := groups[j];
      AddToAt(groups, j, current);
      if current.start < LastOf(group).end {
        UpdateAt(groups, j, group + [current]);
        return groups[j := group + [current]];
      }
      PrefixGrows(groups, j, AddTo(groups[j + 1..], current));
      j := j + 1;
    }
    assert groups[..j] == groups;
    return groups + [[current]];
  }

  /** `AddTo` on the groups from `j` on looks at group `j` first. */
  lemma AddToAt(groups: seq<seq<Booking>>, j: nat, current: Booking)
    requires NonEmptyGroups(groups) && j < |groups|
    ensures AddTo(groups[j..], current) ==
      if current.start < LastOf(groups[j]).end then [groups[j] + [current]] + groups[j + 1..]
      else [groups[j]] + AddTo(groups[j + 1..], current)
  {
    assert groups[j..][0] == groups[j] && groups[j..][1..] == groups[j + 1..];
  }

  /** `detectConflicts(bookings)`: sort a copy by start, place each booking, keep the groups of two or more. */
  method DetectConflicts(bookings: seq<Booking>) returns (conflicts: seq<seq<Booking>>)
    ensures conflicts == Conflicts(bookings)
  {
    if |bookings| == 0 {
      return [];
    }
    var sorted := MergeSort(bookings, ByStart);
    var groups: seq<seq<Booking>> := [];
    for i := 0 to |sorted|
      invariant groups == Groups(sorted, i)
    {
      groups := Place(groups, sorted[i]);
    }
    conflicts := Crowded(groups);
  }

  // ---------------------------------------------------------------------
  // resolveConflicts
  // ---------------------------------------------------------------------

  /** `{ kept, removed }`; a kept entry is `None` where the source keeps `undefined`. */
  datatype Resolution = Resolution(kept: seq<Option<Booking>>, removed: seq<Booking>)

  /**
   * `resolveConflicts(group)`: sort a copy by worth, highest first; keep
   * the first booking and remove the rest.  Exactly one entry is kept; for
   * a non-empty group it is a booking no booking of the group is worth
   * more than, and kept and removed together are the group rearranged.
   * An empty group keeps the `undefined` of `sorted[0]` and removes nothing.
   */
  function Resolve(group: seq<Booking>): (r: Resolution)
    ensures |r.kept| == 1
    ensures group == [] ==> r.kept == [None] && r.removed == []
    ensures group != [] ==> r.kept[0].Some? && r.kept[0].value in group
    ensures group != [] ==> forall y :: y in group ==> Worth(y) <= Worth(r.kept[0].value)
    ensures group != [] ==> multiset([r.kept[0].value] + r.removed) == multiset(group)
  {
    if group == [] then Resolution([None], [])
    else
      var sorted := MergeSort(group, ByWorthDesc);
      ResolveBest(group);
      assert sorted == [sorted[0]] + sorted[1..];
      assert sorted[0] in multiset(group);
      Resolution([Some(sorted[0])], sorted[1..])
  }

  /** The first booking of the sort by worth is worth at least as much as any booking of the group. */
  lemma ResolveBest(group: seq<Booking>)
    requires group != []
    ensures forall y :: y in group ==> Worth(y) <= Worth(MergeSort(group, ByWorthDesc)[0])
  {
    var sorted := MergeSort(group, ByWorthDesc);
    BookingComparators();
    MergeSortCorrect(group, ByWorthDesc);
    forall y | y in group ensures Worth(y) <= Worth(sorted[0]) {
      assert y in multiset(sorted);
      var k :| 0 <= k < |sorted| && sorted[k] == y;
      if k > 0 {
        assert ByWorthDesc(sorted[0], sorted[k]) <= 0.0;
      }
    }
  }

  // ---------------------------------------------------------------------
  // optimizeRentalSchedule
  // ---------------------------------------------------------------------

  /** A rental request, its dates already turned into timestamps. */
  datatype Request = Request(equipmentId: string, start: int, end: int, totalPrice: real, id: int)

  /** `{start, end, value: total_price || 0, data: req}`: no priority, and the request's id stands for `data`. */
  function AsBooking(q: Request): (b: Booking)
    ensures b.start == q.start && b.end == q.end && b.value == q.totalPrice && b.priority == 0.0 && b.id == q.id
  {
    Booking(q.start, q.end, OrElse(q.totalPrice, 0.0), 0.0, q.id)
  }

  /** The requests for one piece of equipment, as bookings, in request order. */
  function RequestsFor(requests: seq<Request>, equipmentId: string): (r: seq<Booking>)
    ensures |r| <= |requests|
    ensures forall b :: b in r <==> exists q :: q in requests && q.equipmentId == equipmentId && b == AsBooking(q)
  {
    if requests == [] then []
    else
      assert requests == [requests[0]] + requests[1..];
      (if requests[0].equipmentId == equipmentId then [AsBooking(requests[0])] else []) + RequestsFor(requests[1..], equipmentId)
  }

  /** `reduce((sum, b) => sum + (b.end - b.start), 0)` */
  function Utilization(s: seq<Booking>): int {
    if s == [] then 0 else (s[0].end - s[0].start) + Utilization(s[1..])
  }

  /** `reduce((sum, b) => sum + b.value, 0)` */
  function Revenue(s: seq<Booking>): real {
    if s == [] then 0.0 else s[0].value + Revenue(s[1..])
  }

  /**
   * Bookings that follow one another and do not run backwards occupy at
   * most the span from the first start to the last end.
   */
  lemma {:induction false} UtilizationBound(s: seq<Booking>)
    requires s != [] && Compatible(s)
    requires forall k :: 0 <= k < |s| ==> s[k].start <= s[k].end
    ensures 0 <= Utilization(s) <= s[|s| - 1].end - s[0].start
  {
    if |s| > 1 {
      UtilizationBound(s[1..]);
      assert s[0].end <= s[1].start;
    }
  }

  datatype RentalSchedule = RentalSchedule(optimalSchedule: seq<Booking>, conflicts: seq<seq<Booking>>,
                                           utilization: int, totalRevenue: real)

  /**
   * `optimizeRentalSchedule(rentalRequests, equipmentId)`: the greedy
   * schedule and the conflict groups of the requests for that equipment,
   * with the schedule's booked time and revenue.
   */
  method OptimizeRentalSchedule(requests: seq<Request>, equipmentId: string) returns (schedule: RentalSchedule)
    ensures schedule.optimalSchedule == OptimalSchedule(RequestsFor(requests, equipmentId))
    ensures schedule.conflicts == Conflicts(RequestsFor(requests, equipmentId))
    ensures schedule.utilization == Utilization(schedule.optimalSchedule)
    ensures schedule.totalRevenue == Revenue(schedule.optimalSchedule)
  {
    var equipmentRequests := RequestsFor(requests, equipmentId);
    var optimal := SelectOptimal(equipmentRequests);
    var conflicts := DetectConflicts(equipmentRequests);
    schedule := RentalSchedule(optimal, conflicts, Utilization(optimal), Revenue(optimal));
  }

  /**
   * Everything the rental schedule lists comes from a request for the
   * given equipment; the schedule is compatible, and with no request
   * running backwards its booked time is at most its span.
   */
  lemma RentalScheduleShape(requests: seq<Request>, equipmentId: string)
    ensures var optimal := OptimalSchedule(RequestsFor(requests, equipmentId));
      Compatible(optimal) &&
      (forall b :: b in optimal ==> exists q :: q in requests && q.equipmentId == equipmentId && b == AsBooking(q)) &&
      ((forall q :: q in requests ==> q.start <= q.end) && optimal != [] ==>
         Utilization(optimal) <= optimal[|optimal| - 1].end - optimal[0].start)
  {
    var bookings := RequestsFor(requests, equipmentId);
    var optimal := OptimalSchedule(bookings);
    OptimalScheduleShape(bookings);
    forall b | b in optimal ensures b in bookings {
      assert b in multiset(optimal);
    }
    if (forall q :: q in requests ==> q.start <= q.end) && optimal != [] {
      forall k | 0 <= k < |optimal| ensures optimal[k].start <= optimal[k].end {
        assert optimal[k] in multiset(optimal);
        assert optimal[k] in bookings;
      }
      UtilizationBound(optimal);
    }
  }
}
