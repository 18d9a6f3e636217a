/**
 * The 0/1 knapsack of `algorithms/dynamic/knapsack.js`: the table
 * `dp[i][w]`, the best value using the first `i` items within capacity
 * `w`, and the walk back through it that lists the chosen items.
 *
 * A selection is a mask over a prefix of the items: `sel[k]` says
 * whether item `k` is taken.
 */
module Knapsack {
  import opened Common
  import opened Catalog

  datatype Item<D> = Item(value: real, weight: int, data: D)

  /** Every weight is a non-negative whole number, as the table's indices need. */
  ghost predicate Weighted<D>(items: seq<Item<D>>) {
    forall k :: 0 <= k < |items| ==> items[k].weight >= 0
  }

  /** `dp[i][w]`: skip item `i - 1`, or take it when it fits, whichever is worth more. */
  function Best<D>(items: seq<Item<D>>, i: nat, w: int): real
    requires i <= |items|
  {
    if i == 0 then 0.0
    else
      var item := items[i - 1];
      var skip := Best(items, i - 1, w);
      if item.weight <= w then MaxR(skip, Best(items, i - 1, w - item.weight) + item.value) else skip
  }

  /** The total weight of a selection. */
  function Weight<D>(items: seq<Item<D>>, sel: seq<bool>): int
    requires |sel| <= |items|
  {
    if sel == [] then 0
    else Weight(items, sel[..|sel| - 1]) + (if sel[|sel| - 1] then items[|sel| - 1].weight else 0)
  }

  /** The total value of a selection. */
  function Value<D>(items: seq<Item<D>>, sel: seq<bool>): real
    requires |sel| <= |items|
  {
    if sel == [] then 0.0
    else Value(items, sel[..|sel| - 1]) + (if sel[|sel| - 1] then items[|sel| - 1].value else 0.0)
  }

  /** The selected items, in input order. */
  function Pick<D>(items: seq<Item<D>>, sel: seq<bool>): seq<Item<D>>
    requires |sel| <= |items|
  {
    if sel == [] then []
    else Pick(items, sel[..|sel| - 1]) + (if sel[|sel| - 1] then [items[|sel| - 1]] else [])
  }

  /** `selectedItems.reduce((sum, item) => sum + item.weight, 0)` */
  function TotalWeight<D>(picked: seq<Item<D>>): int {
    if picked == [] then 0 else TotalWeight(picked[..|picked| - 1]) + picked[|picked| - 1].weight
  }

  lemma PickSnoc<D>(items: seq<Item<D>>, sel: seq<bool>, b: bool)
    requires |sel| < |items|
    ensures Pick(items, sel + [b]) == Pick(items, sel) + (if b then [items[|sel|]] else [])
  {
    assert (sel + [b])[..|sel|] == sel;
  }

  lemma WeightSnoc<D>(items: seq<Item<D>>, sel: seq<bool>, b: bool)
    requires |sel| < |items|
    ensures Weight(items, sel + [b]) == Weight(items, sel) + (if b then items[|sel|].weight else 0)
  {
    assert (sel + [b])[..|sel|] == sel;
  }

  lemma ValueSnoc<D>(items: seq<Item<D>>, sel: seq<bool>, b: bool)
    requires |sel| < |items|
    ensures Value(items, sel + [b]) == Value(items, sel) + (if b then items[|sel|].value else 0.0)
  {
    assert (sel + [b])[..|sel|] == sel;
  }

  /** The weight the code sums over the selected items is the selection's weight. */
  lemma {:induction false} TotalWeightPick<D>(items: seq<Item<D>>, sel: seq<bool>)
    requires |sel| <= |items|
    ensures TotalWeight(Pick(items, sel)) == Weight(items, sel)
  {
    if sel != [] {
      var s := sel[..|sel| - 1];
      assert sel == s + [sel[|sel| - 1]];
      PickSnoc(items, s, sel[|sel| - 1]);
      WeightSnoc(items, s, sel[|sel| - 1]);
      TotalWeightPick(items, s);
      var p := Pick(items, sel);
      if sel[|sel| - 1] {
        assert p == Pick(items, s) + [items[|s|]];
        assert p[..|p| - 1] == Pick(items, s) && p[|p| - 1] == items[|s|];
      } else {
        assert p == Pick(items, s);
      }
    }
  }

  /** With non-negative weights every selection weighs at least nothing. */
  lemma {:induction false} WeightNonNegative<D>(items: seq<Item<D>>, sel: seq<bool>)
    requires |sel| <= |items| && Weighted(items)
    ensures Weight(items, sel) >= 0
  {
    if sel != [] {
      WeightNonNegative(items, sel[..|sel| - 1]);
    }
  }

  /** No selection of the first `|sel|` items that fits in `w` is worth more than `dp[|sel|][w]`. */
  lemma {:induction false} BestBound<D>(items: seq<Item<D>>, sel: seq<bool>, w: int)
    requires |sel| <= |items| && Weighted(items)
    requires Weight(items, sel) <= w
    ensures Value(items, sel) <= Best(items, |sel|, w)
  {
    if sel != [] {
      var i := |sel|;
      var s := sel[..i - 1];
      var item := items[i - 1];
      WeightNonNegative(items, s);
      if sel[i - 1] {
        BestBound(items, s, w - item.weight);
      } else {
        BestBound(items, s, w);
      }
    }
  }

  /** `dp[i][w] !== dp[i - 1][w]`: item `i - 1` made the entry change. */
  predicate Takes<D>(items: seq<Item<D>>, i: nat, w: int)
    requires 0 < i <= |items|
  {
    Best(items, i, w) != Best(items, i - 1, w)
  }

  /**
   * The walk back through the table, corrected: from the last item down,
   * take an item exactly when taking it made the table entry change.
   */
  function Trace<D>(items: seq<Item<D>>, i: nat, w: int): (sel: seq<bool>)
    requires i <= |items|
    ensures |sel| == i
  {
    if i == 0 then []
    else if Takes(items, i, w) then Trace(items, i - 1, w - items[i - 1].weight) + [true]
    else Trace(items, i - 1, w) + [false]
  }

  /** One step of the corrected walk. */
  lemma TraceSnoc<D>(items: seq<Item<D>>, i: nat, w: int)
    requires 0 < i <= |items|
    ensures Takes(items, i, w) ==> Trace(items, i, w) == Trace(items, i - 1, w - items[i - 1].weight) + [true]
    ensures !Takes(items, i, w) ==> Trace(items, i, w) == Trace(items, i - 1, w) + [false]
  {
  }

  /** Item `i - 1` changes the table entry only if it fits. */
  lemma TakenFits<D>(items: seq<Item<D>>, i: nat, w: int)
    requires 0 < i <= |items| && Takes(items, i, w)
    ensures items[i - 1].weight <= w
  {
  }

  /** An entry that changed took item `i - 1`, which fits; one that did not is the entry above. */
  lemma BestStep<D>(items: seq<Item<D>>, i: nat, w: int)
    requires 0 < i <= |items|
    ensures Takes(items, i, w) ==>
      items[i - 1].weight <= w && Best(items, i, w) == Best(items, i - 1, w - items[i - 1].weight) + items[i - 1].value
    ensures !Takes(items, i, w) ==> Best(items, i, w) == Best(items, i - 1, w)
  {
  }

  /** One step of the corrected walk keeps it within the capacity. */
  lemma TraceFitsStep<D>(items: seq<Item<D>>, i: nat, w: int)
    requires 0 < i <= |items|
    requires Takes(items, i, w) ==>
      Weight(items, Trace(items, i - 1, w - items[i - 1].weight)) <= w - items[i - 1].weight
    requires !Takes(items, i, w) ==> Weight(items, Trace(items, i - 1, w)) <= w
    ensures Weight(items, Trace(items, i, w)) <= w
  {
    TraceSnoc(items, i, w);
    var item := items[i - 1];
    if Takes(items, i, w) {
      WeightSnoc(items, Trace(items, i - 1, w - item.weight), true);
    } else {
      WeightSnoc(items, Trace(items, i - 1, w), false);
    }
  }

  /** The corrected walk fits the capacity. */
  lemma {:induction false} TraceFits<D>(items: seq<Item<D>>, i: nat, w: int)
    requires i <= |items| && w >= 0
    ensures Weight(items, Trace(items, i, w)) <= w
  {
    if i > 0 {
      if Takes(items, i, w) {
        TakenFits(items, i, w);
        TraceFits(items, i - 1, w - items[i - 1].weight);
      } else {
        TraceFits(items, i - 1, w);
      }
      TraceFitsStep(items, i, w);
    }
  }

  /** One step of the corrected walk keeps its value equal to the table entry. */
  lemma TraceOptimalStep<D>(items: seq<Item<D>>, i: nat, w: int)
    requires 0 < i <= |items|
    requires Takes(items, i, w) ==>
      Value(items, Trace(items, i - 1, w - items[i - 1].weight)) == Best(items, i - 1, w - items[i - 1].weight)
    requires !Takes(items, i, w) ==> Value(items, Trace(items, i - 1, w)) == Best(items, i - 1, w)
    ensures Value(items, Trace(items, i, w)) == Best(items, i, w)
  {
    BestStep(items, i, w);
    TraceSnoc(items, i, w);
    var item := items[i - 1];
    if Takes(items, i, w) {
      ValueSnoc(items, Trace(items, i - 1, w - item.weight), true);
    } else {
      ValueSnoc(items, Trace(items, i - 1, w), false);
    }
  }

  /** The corrected walk is worth exactly `dp[i][w]`: the table's value is attained. */
  lemma {:induction false} TraceOptimal<D>(items: seq<Item<D>>, i: nat, w: int)
    requires i <= |items|
    ensures Value(items, Trace(items, i, w)) == Best(items, i, w)
  {
    if i > 0 {
      if Takes(items, i, w) {
        TraceOptimal(items, i - 1, w - items[i - 1].weight);
      } else {
        TraceOptimal(items, i - 1, w);
      }
      TraceOptimalStep(items, i, w);
    }
  }

  /**
   * The walk back as written: `for (i = n; i > 0 && w > 0; i--)`, so once
   * the remaining capacity reaches 0 no further item is taken.
   */
  function TraceAsWritten<D>(items: seq<Item<D>>, i: nat, w: int): (sel: seq<bool>)
    requires i <= |items|
    ensures |sel| == i
  {
    if i == 0 then []
    else if w > 0 && Takes(items, i, w) then
      TraceAsWritten(items, i - 1, w - items[i - 1].weight) + [true]
    else TraceAsWritten(items, i - 1, w)  + [false]
  }

  /** One step of the written walk. */
  lemma TraceAsWrittenSnoc<D>(items: seq<Item<D>>, i: nat, w: int)
    requires 0 < i <= |items|
    ensures w > 0 && Takes(items, i, w) ==>
      TraceAsWritten(items, i, w) == TraceAsWritten(items, i - 1, w - items[i - 1].weight) + [true]
    ensures !(w > 0 && Takes(items, i, w)) ==> TraceAsWritten(items, i, w) == TraceAsWritten(items, i - 1, w) + [false]
  {
  }

  /** The written walk also fits the capacity. */
  lemma {:induction false} TraceAsWrittenFits<D>(items: seq<Item<D>>, i: nat, w: int)
    requires i <= |items| && w >= 0
    ensures Weight(items, TraceAsWritten(items, i, w)) <= w
  {
    if i > 0 {
      var item := items[i - 1];
      TraceAsWrittenSnoc(items, i, w);
      if w > 0 && Takes(items, i, w) {
        TakenFits(items, i, w);
        TraceAsWrittenFits(items, i - 1, w - item.weight);
        WeightSnoc(items, TraceAsWritten(items, i - 1, w - item.weight), true);
      } else {
        TraceAsWrittenFits(items, i - 1, w);
        WeightSnoc(items, TraceAsWritten(items, i - 1, w), false);
      }
    }
  }

  /** With every weight at least 1, nothing fits in capacity 0. */
  lemma {:induction false} BestAtZero<D>(items: seq<Item<D>>, i: nat)
    requires i <= |items|
    requires forall k :: 0 <= k < |items| ==> items[k].weight >= 1
    ensures Best(items, i, 0) == 0.0
  {
    if i > 0 {
      BestAtZero(items, i - 1);
    }
  }

  /** With every weight at least 1 the written walk is the corrected one. */
  lemma {:induction false} TraceAsWrittenIsTrace<D>(items: seq<Item<D>>, i: nat, w: int)
    requires i <= |items| && w >= 0
    requires forall k :: 0 <= k < |items| ==> items[k].weight >= 1
    ensures TraceAsWritten(items, i, w) == Trace(items, i, w)
  {
    if i > 0 {
      var item := items[i - 1];
      if w == 0 {
        BestAtZero(items, i);
        BestAtZero(items, i - 1);
        assert !Takes(items, i, w);
        TraceAsWrittenIsTrace(items, i - 1, w);
      } else if Takes(items, i, w) {
        TakenFits(items, i, w);
        TraceAsWrittenIsTrace(items, i - 1, w - item.weight);
      } else {
        TraceAsWrittenIsTrace(items, i - 1, w);
      }
    }
  }

  /** With every weight at least 1 the written walk's items are worth `dp[i][w]`. */
  lemma TraceAsWrittenOptimal<D>(items: seq<Item<D>>, i: nat, w: int)
    requires i <= |items| && w >= 0
    requires forall k :: 0 <= k < |items| ==> items[k].weight >= 1
    ensures Value(items, TraceAsWritten(items, i, w)) == Best(items, i, w)
  {
    TraceAsWrittenIsTrace(items, i, w);
    TraceOptimal(items, i, w);
  }

  /**
   * A free item first and a 5-weight item second, both worth 300, with
   * capacity 5: the table says 600, but the written walk stops at
   * capacity 0 after taking the second item and lists only 300 worth.
   */
  lemma TraceAsWrittenDropsFreeItems()
    ensures var items := [Item(300.0, 0, 0), Item(300.0, 5, 1)];
      Best(items, 2, 5) == 600.0 &&
      TraceAsWritten(items, 2, 5) == [false, true] &&
      Value(items, TraceAsWritten(items, 2, 5)) == 300.0 &&
      Trace(items, 2, 5) == [true, true]
  {
    var items := [Item(300.0, 0, 0), Item(300.0, 5, 1)];
    assert Best(items, 1, 0) == 300.0;
    assert Best(items, 1, 5) == 300.0;
    assert Best(items, 2, 5) == 600.0;
    assert TraceAsWritten(items, 1, 0) == [false];
    assert Trace(items, 1, 0) == [true];
    ValueSnoc(items, [], false);
    ValueSnoc(items, [false], true);
    assert [false] + [true] == [false, true];
  }

  /** The written walk lists nothing once the capacity is used up. */
  lemma {:induction false} PickExhausted<D>(items: seq<Item<D>>, i: nat, w: int)
    requires i <= |items| && (i == 0 || w <= 0)
    ensures Pick(items, TraceAsWritten(items, i, w)) == []
  {
    if i > 0 {
      PickExhausted(items, i - 1, w);
      PickSnoc(items, TraceAsWritten(items, i - 1, w), false);
    }
  }

  /** One step of the walk back: the table entry changed exactly when the walk takes item `i - 1`. */
  lemma TraceStep<D>(items: seq<Item<D>>, i: nat, w: int, picked: seq<Item<D>>, total: seq<Item<D>>)
    requires 0 < i <= |items| && w > 0
    requires total == Pick(items, TraceAsWritten(items, i, w)) + picked
    ensures Takes(items, i, w) ==>
      total == Pick(items, TraceAsWritten(items, i - 1, w - items[i - 1].weight)) + ([items[i - 1]] + picked)
    ensures !Takes(items, i, w) ==>
      total == Pick(items, TraceAsWritten(items, i - 1, w)) + picked
  {
    var item := items[i - 1];
    TraceAsWrittenSnoc(items, i, w);
    if Takes(items, i, w) {
      var s := TraceAsWritten(items, i - 1, w - item.weight);
      PickSnoc(items, s, true);
      assert total == Pick(items, s) + [item] + picked;
    } else {
      var s := TraceAsWritten(items, i - 1, w);
      PickSnoc(items, s, false);
      assert total == Pick(items, s) + [] + picked;
    }
  }

  /** The table of `solve`: row 0 all zeros, then each row from the one above. */
  method FillTable<D>(items: seq<Item<D>>, capacity: int) returns (dp: array2<real>)
    requires capacity >= 0 && Weighted(items)
    ensures fresh(dp) && dp.Length0 == |items| + 1 && dp.Length1 == capacity + 1
    ensures forall r, c :: 0 <= r <= |items| && 0 <= c <= capacity ==> dp[r, c] == Best(items, r, c)
  {
    var n := |items|;
    dp := new real[n + 1, capacity + 1]((r, c) => 0.0);
    for i := 1 to n + 1
      invariant forall r, c :: 0 <= r < i && 0 <= c <= capacity ==> dp[r, c] == Best(items, r, c)
    {
      for w := 0 to capacity + 1
        invariant forall r, c :: 0 <= r < i && 0 <= c <= capacity ==> dp[r, c] == Best(items, r, c)
        invariant forall c :: 0 <= c < w ==> dp[i, c] == Best(items, i, c)
      {
        var item := items[i - 1];
        dp[i, w] := dp[i - 1, w];
        if item.weight <= w {
          dp[i, w] := MaxR(dp[i, w], dp[i - 1, w - item.weight] + item.value);
        }
      }
    }
  }

  /**
   * The walk back of `solve`: from the last item down while capacity
   * remains, take an item when its table entry differs from the one
   * above, and list the taken items in input order.
   */
  method WalkBack<D>(items: seq<Item<D>>, capacity: int, dp: array2<real>)
    returns (selectedItems: seq<Item<D>>)
    requires capacity >= 0 && Weighted(items)
    requires dp.Length0 == |items| + 1 && dp.Length1 == capacity + 1
    requires forall r, c :: 0 <= r <= |items| && 0 <= c <= capacity ==> dp[r, c] == Best(items, r, c)
    ensures selectedItems == Pick(items, TraceAsWritten(items, |items|, capacity))
  {
    ghost var all := Pick(items, TraceAsWritten(items, |items|, capacity));
    selectedItems := [];
    var w := capacity;
    var i := |items|;
    while i > 0 && w > 0
      invariant 0 <= i <= |items| && 0 <= w <= capacity
      invariant all == Pick(items, TraceAsWritten(items, i, w)) + selectedItems
    {
      TraceStep(items, i, w, selectedItems, all);
      assert dp[i, w] == Best(items, i, w) && dp[i - 1, w] == Best(items, i - 1, w);
      if dp[i, w] != dp[i - 1, w] {
        TakenFits(items, i, w);
        var item := items[i - 1];
        selectedItems := [item] + selectedItems;
        w := w - item.weight;
      }
      i := i - 1;
    }
    PickExhausted(items, i, w);
  }

  /**
   * `solve(items, capacity)`: fill the whole table row by row, then walk
   * back from `dp[n][capacity]`.  The result is the table's last entry and
   * the written walk's items, in input order, with their total weight.
   */
  method Solve<D>(items: seq<Item<D>>, capacity: int)
    returns (maxValue: real, selectedItems: seq<Item<D>>, totalWeight: int)
    requires capacity >= 0 && Weighted(items)
    ensures maxValue == Best(items, |items|, capacity)
    ensures selectedItems == Pick(items, TraceAsWritten(items, |items|, capacity))
    ensures totalWeight == Weight(items, TraceAsWritten(items, |items|, capacity)) <= capacity
  {
    var n := |items|;
    var dp := FillTable(items, capacity);
    maxValue := dp[n, capacity];
    selectedItems := WalkBack(items, capacity, dp);
    TotalWeightPick(items, TraceAsWritten(items, n, capacity));
    TraceAsWrittenFits(items, n, capacity);
    totalWeight := TotalWeight(selectedItems);
  }

  /**
   * Where item `i` fits, `solveOptimized`'s test `dp[w] < dp[w - wt] + v`
   * on the previous row decides both the new entry and whether the item
   * made it change.
   */
  lemma KeepStep<D>(items: seq<Item<D>>, i: nat, c: int)
    requires i < |items| && items[i].weight <= c
    ensures var take := Best(items, i, c - items[i].weight) + items[i].value;
      (Takes(items, i + 1, c) <==> Best(items, i, c) < take) &&
      Best(items, i + 1, c) == (if Best(items, i, c) < take then take else Best(items, i, c))
  {
  }

  /** Where item `i` does not fit, the entry and the kept flag stay as they were. */
  lemma SkipStep<D>(items: seq<Item<D>>, i: nat, c: int)
    requires i < |items| && c < items[i].weight
    ensures !Takes(items, i + 1, c) && Best(items, i + 1, c) == Best(items, i, c)
  {
  }

  /** The kept-item table after rows `1..i`: row `r` flags the entries item `r - 1` changed. */
  ghost predicate KeptUpTo<D>(items: seq<Item<D>>, capacity: int, selected: array2<bool>, i: nat)
    requires i <= |items| && selected.Length0 == |items| + 1 && selected.Length1 == capacity + 1
    reads selected
  {
    forall r, c :: 0 <= r <= |items| && 0 <= c <= capacity ==>
      selected[r, c] == (0 < r <= i && Takes(items, r, c))
  }

  /**
   * One pass of `solveOptimized`'s outer loop: `w` runs from `capacity`
   * down to the item's weight, so each `dp[w - wt]` it reads still holds
   * row `i`, and row `i + 1` of `selected` marks where the item was taken.
   */
  method KeepRow<D>(items: seq<Item<D>>, capacity: int, i: nat, dp: array<real>, selected: array2<bool>)
    requires i < |items| && capacity >= 0 && Weighted(items)
    requires dp.Length == capacity + 1
    requires selected.Length0 == |items| + 1 && selected.Length1 == capacity + 1
    requires forall c :: 0 <= c <= capacity ==> dp[c] == Best(items, i, c)
    requires KeptUpTo(items, capacity, selected, i)
    modifies dp, selected
    ensures forall c :: 0 <= c <= capacity ==> dp[c] == Best(items, i + 1, c)
    ensures KeptUpTo(items, capacity, selected, i + 1)
  {
    var item := items[i];
    var w := capacity;
    while w >= item.weight
      invariant -1 <= w <= capacity
      invariant forall c :: 0 <= c <= w ==> dp[c] == Best(items, i, c)
      invariant forall c :: w < c <= capacity ==> dp[c] == Best(items, i + 1, c)
      invariant forall r, c :: 0 <= r <= |items| && 0 <= c <= capacity ==>
        selected[r, c] == ((0 < r <= i || (r == i + 1 && w < c)) && Takes(items, r, c))
    {
      KeepStep(items, i, w);
      if dp[w] < dp[w - item.weight] + item.value {
        dp[w] := dp[w - item.weight] + item.value;
        selected[i + 1, w] := true;
      }
      w := w - 1;
    }
    forall c | 0 <= c <= w
      ensures dp[c] == Best(items, i + 1, c) && !Takes(items, i + 1, c)
    {
      SkipStep(items, i, c);
    }
  }

  /** The tables of `solveOptimized`: one row of values, and the kept-item flags. */
  method FillKept<D>(items: seq<Item<D>>, capacity: int) returns (dp: array<real>, selected: array2<bool>)
    requires capacity >= 0 && Weighted(items)
    ensures fresh(dp) && fresh(selected)
    ensures dp.Length == capacity + 1 && selected.Length0 == |items| + 1 && selected.Length1 == capacity + 1
    ensures forall c :: 0 <= c <= capacity ==> dp[c] == Best(items, |items|, c)
    ensures KeptUpTo(items, capacity, selected, |items|)
  {
    dp := new real[capacity + 1](c => 0.0);
    selected := new bool[|items| + 1, capacity + 1]((r, c) => false);
    for i := 0 to |items|
      invariant forall c :: 0 <= c <= capacity ==> dp[c] == Best(items, i, c)
      invariant KeptUpTo(items, capacity, selected, i)
    {
      KeepRow(items, capacity, i, dp, selected);
    }
  }

  /** The walk back of `solveOptimized`, reading the kept-item flags. */
  method WalkBackKept<D>(items: seq<Item<D>>, capacity: int, selected: array2<bool>)
    returns (selectedItems: seq<Item<D>>)
    requires capacity >= 0 && Weighted(items)
    requires selected.Length0 == |items| + 1 && selected.Length1 == capacity + 1
    requires KeptUpTo(items, capacity, selected, |items|)
    ensures selectedItems == Pick(items, TraceAsWritten(items, |items|, capacity))
  {
    ghost var all := Pick(items, TraceAsWritten(items, |items|, capacity));
    selectedItems := [];
    var w := capacity;
    var i := |items|;
    while i > 0 && w > 0
      invariant 0 <= i <= |items| && 0 <= w <= capacity
      invariant all == Pick(items, TraceAsWritten(items, i, w)) + selectedItems
    {
      TraceStep(items, i, w, selectedItems, all);
      if selected[i, w] {
        TakenFits(items, i, w);
        var item := items[i - 1];
        selectedItems := [item] + selectedItems;
        w := w - item.weight;
      }
      i := i - 1;
    }
    PickExhausted(items, i, w);
  }

  /**
   * `solveOptimized(items, capacity)`: the same value as `solve`, and,
   * since an item is flagged exactly where it changed the entry, the same
   * walk back and so the same selection.
   */
  method SolveOptimized<D>(items: seq<Item<D>>, capacity: int)
    returns (maxValue: real, selectedItems: seq<Item<D>>, totalWeight: int)
    requires capacity >= 0 && Weighted(items)
    ensures maxValue == Best(items, |items|, capacity)
    ensures selectedItems == Pick(items, TraceAsWritten(items, |items|, capacity))
    ensures totalWeight == Weight(items, TraceAsWritten(items, |items|, capacity)) <= capacity
  {
    var dp, selected := FillKept(items, capacity);
    maxValue := dp[capacity];
    selectedItems := WalkBackKept(items, capacity, selected);
    TotalWeightPick(items, TraceAsWritten(items, |items|, capacity));
    TraceAsWrittenFits(items, |items|, capacity);
    totalWeight := TotalWeight(selectedItems);
  }

  /** `optimizeEquipment`'s default value: `(rating || 3) * (available ? 1 : 0.5) * 100`. */
  function DefaultValue(eq: Equipment): (v: real)
    ensures eq.available ==> v == OrElse(eq.rating, 3.0) * 100.0
    ensures !eq.available ==> v == OrElse(eq.rating, 3.0) * 50.0
  {
    OrElse(eq.rating, 3.0) * (if eq.available then 1.0 else 0.5) * 100.0
  }

  /** `optimizeEquipment`'s default weight: the daily price rounded up to a whole number. */
  function DefaultWeight(eq: Equipment): (wt: int)
    ensures wt as real >= OrElse(eq.pricePerDay, 0.0) > wt as real - 1.0
    ensures eq.pricePerDay >= 0.0 ==> wt >= 0
  {
    Ceil(OrElse(eq.pricePerDay, 0.0))
  }

  function ValueOf(valueFn: Option<Equipment -> real>): Equipment -> real {
    if valueFn.Some? then valueFn.value else DefaultValue
  }

  function WeightOf(weightFn: Option<Equipment -> int>): Equipment -> int {
    if weightFn.Some? then weightFn.value else DefaultWeight
  }

  /** `equipment.map(eq => ({value, weight, data: eq}))` */
  function EquipmentItems(equipment: seq<Equipment>, value: Equipment -> real, weight: Equipment -> int)
    : (items: seq<Item<Equipment>>)
    ensures |items| == |equipment|
    ensures forall k :: 0 <= k < |items| ==>
      items[k].data == equipment[k] && items[k].value == value(equipment[k]) && items[k].weight == weight(equipment[k])
  {
    seq(|equipment|, k requires 0 <= k < |equipment| => Item(value(equipment[k]), weight(equipment[k]), equipment[k]))
  }

  /**
   * `optimizeEquipment(equipment, budget, valueFn, weightFn)`: build one
   * item per piece of equipment, with the defaults when no function is
   * given, and solve the 1-D knapsack with capacity `floor(budget)`.
   */
  method OptimizeEquipment(equipment: seq<Equipment>, budget: real,
                           valueFn: Option<Equipment -> real> := None, weightFn: Option<Equipment -> int> := None)
    returns (maxValue: real, selectedItems: seq<Item<Equipment>>, totalWeight: int)
    requires budget >= 0.0
    requires forall k :: 0 <= k < |equipment| ==> WeightOf(weightFn)(equipment[k]) >= 0
    ensures var items := EquipmentItems(equipment, ValueOf(valueFn), WeightOf(weightFn));
      maxValue == Best(items, |items|, Floor(budget)) &&
      selectedItems == Pick(items, TraceAsWritten(items, |items|, Floor(budget))) &&
      totalWeight == TotalWeight(selectedItems) <= Floor(budget)
  {
    var items := EquipmentItems(equipment, ValueOf(valueFn), WeightOf(weightFn));
    maxValue, selectedItems, totalWeight := SolveOptimized(items, Floor(budget));
    TotalWeightPick(items, TraceAsWritten(items, |items|, Floor(budget)));
  }

  /**
   * `unboundedKnapsack`'s `dp[w]` after its inner loop has seen the first
   * `j` items: each item that fits may improve it from `dp[w - wt]`, which
   * is final when `wt > 0` and is `dp[w]` itself when `wt == 0`.
   */
  function UnboundedCell<D>(items: seq<Item<D>>, w: int, j: nat): real
    requires j <= |items| && w >= 0 && Weighted(items)
    decreases w, j
  {
    if j == 0 then 0.0
    else
      var cur := UnboundedCell(items, w, j - 1);
      var item := items[j - 1];
      if item.weight <= w then
        var from := if item.weight == 0 then cur else UnboundedCell(items, w - item.weight, |items|);
        MaxR(cur, from + item.value)
      else cur
  }

  /** Later items only raise an unbounded cell. */
  lemma {:induction false} UnboundedCellGrows<D>(items: seq<Item<D>>, w: int, j: nat, k: nat)
    requires j <= k <= |items| && w >= 0 && Weighted(items)
    ensures UnboundedCell(items, w, j) <= UnboundedCell(items, w, k)
    decreases k
  {
    if j < k {
      UnboundedCellGrows(items, w, j, k - 1);
    }
  }

  /**
   * With items reusable the value is never below the 0/1 value: after the
   * first `j` items each cell is at least `dp[j][w]` of `solve`.
   */
  lemma {:induction false} UnboundedDominates<D>(items: seq<Item<D>>, w: int, j: nat)
    requires j <= |items| && w >= 0 && Weighted(items)
    ensures UnboundedCell(items, w, j) >= Best(items, j, w)
  {
    if j > 0 {
      var item := items[j - 1];
      UnboundedDominates(items, w, j - 1);
      if item.weight <= w {
        UnboundedDominates(items, w - item.weight, j - 1);
        UnboundedCellGrows(items, w - item.weight, j - 1, |items|);
      }
    }
  }

  /**
   * `unboundedKnapsack(items, capacity)`: capacities in increasing order,
   * every item tried at each.  Its value is at least the 0/1 knapsack's,
   * and it reconstructs nothing.
   */
  method Unbounded<D>(items: seq<Item<D>>, capacity: int) returns (maxValue: real, selectedItems: seq<Item<D>>)
    requires capacity >= 0 && Weighted(items)
    ensures maxValue == UnboundedCell(items, capacity, |items|)
    ensures maxValue >= Best(items, |items|, capacity)
    ensures selectedItems == []
  {
    var dp := new real[capacity + 1](c => 0.0);
    for w := 0 to capacity + 1
      invariant forall c :: 0 <= c < w ==> dp[c] == UnboundedCell(items, c, |items|)
      invariant forall c :: w <= c <= capacity ==> dp[c] == 0.0
    {
      for j := 0 to |items|
        invariant forall c :: 0 <= c < w ==> dp[c] == UnboundedCell(items, c, |items|)
        invariant forall c :: w < c <= capacity ==> dp[c] == 0.0
        invariant dp[w] == UnboundedCell(items, w, j)
      {
        var item := items[j];
        if item.weight <= w {
          dp[w] := MaxR(dp[w], dp[w - item.weight] + item.value);
        }
      }
    }
    maxValue := dp[capacity];
    UnboundedDominates(items, capacity, |items|);
    selectedItems := [];
  }
}
