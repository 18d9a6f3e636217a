/**
 * `optimizeCombination` of `algorithms/dynamic/priceOptimizer.js`: a 0/1
 * knapsack over rental options, weighted by duration, that keeps beside
 * each `dp[days]` the list of options that reaches it.
 *
 * Each option is the knapsack item with value `value`, weight `duration`
 * and the option itself as data, so the table is the one `Knapsack.Best`
 * describes and the kept lists are the corrected walk `Knapsack.Trace`.
 */
module PriceOptimizing {
  import opened Common
  import opened Knapsack

  datatype PriceOption = PriceOption(duration: int, price: real, value: real)

  /** The knapsack item of each option. */
  function AsItems(options: seq<PriceOption>): (items: seq<Item<PriceOption>>)
    ensures |items| == |options|
    ensures forall k :: 0 <= k < |items| ==>
      items[k].data == options[k] && items[k].value == options[k].value && items[k].weight == options[k].duration
  {
    seq(|options|, k requires 0 <= k < |options| => Item(options[k].value, options[k].duration, options[k]))
  }

  /** The options behind some picked items, in the same order. */
  function Options(picked: seq<Item<PriceOption>>): (os: seq<PriceOption>)
    ensures |os| == |picked| && forall k :: 0 <= k < |os| ==> os[k] == picked[k].data
  {
    seq(|picked|, k requires 0 <= k < |picked| => picked[k].data)
  }

  function SumValues(os: seq<PriceOption>): real {
    if os == [] then 0.0 else SumValues(os[..|os| - 1]) + os[|os| - 1].value
  }

  function SumPrices(os: seq<PriceOption>): real {
    if os == [] then 0.0 else SumPrices(os[..|os| - 1]) + os[|os| - 1].price
  }

  function SumDurations(os: seq<PriceOption>): int {
    if os == [] then 0 else SumDurations(os[..|os| - 1]) + os[|os| - 1].duration
  }

  /** Every duration is a whole number of days, at least 0. */
  ghost predicate Durations(options: seq<PriceOption>) {
    forall k :: 0 <= k < |options| ==> options[k].duration >= 0
  }

  lemma OptionsSnoc(picked: seq<Item<PriceOption>>, x: Item<PriceOption>)
    ensures Options(picked + [x]) == Options(picked) + [x.data]
  {
  }

  /** The options a selection picks are worth the selection's value and last its weight. */
  lemma {:induction false} PickedSums(options: seq<PriceOption>, sel: seq<bool>)
    requires |sel| <= |options|
    ensures SumValues(Options(Pick(AsItems(options), sel))) == Value(AsItems(options), sel)
    ensures SumDurations(Options(Pick(AsItems(options), sel))) == Weight(AsItems(options), sel)
  {
    var items := AsItems(options);
    if sel != [] {
      var s := sel[..|sel| - 1];
      var b := sel[|sel| - 1];
      assert sel == s + [b];
      PickedSums(options, s);
      PickSnoc(items, s, b);
      ValueSnoc(items, s, b);
      WeightSnoc(items, s, b);
      var os := Options(Pick(items, sel));
      if b {
        OptionsSnoc(Pick(items, s), items[|s|]);
        assert os[..|os| - 1] == Options(Pick(items, s)) && os[|os| - 1] == options[|s|];
      } else {
        assert os == Options(Pick(items, s));
      }
    }
  }

  /** How the kept list of entry `c` follows from row `i` to row `i + 1`. */
  lemma KeptStep(items: seq<Item<PriceOption>>, i: nat, c: int)
    requires i < |items|
    ensures Takes(items, i + 1, c) ==>
      Options(Pick(items, Trace(items, i + 1, c))) ==
      Options(Pick(items, Trace(items, i, c - items[i].weight))) + [items[i].data]
    ensures !Takes(items, i + 1, c) ==>
      Options(Pick(items, Trace(items, i + 1, c))) == Options(Pick(items, Trace(items, i, c)))
  {
    TraceSnoc(items, i + 1, c);
    if Takes(items, i + 1, c) {
      var s := Trace(items, i, c - items[i].weight);
      PickSnoc(items, s, true);
      OptionsSnoc(Pick(items, s), items[i]);
    } else {
      var s := Trace(items, i, c);
      PickSnoc(items, s, false);
      assert Pick(items, s + [false]) == Pick(items, s);
    }
  }

  /**
   * One step of the `days` loop on the values it reads from row `i`: the
   * test `valueWithOption > dp[days]` decides both the new entry and the
   * new kept list.
   */
  lemma DayStep(items: seq<Item<PriceOption>>, i: nat, days: int, atFrom: real, atDays: real,
                keptFrom: seq<PriceOption>, keptDays: seq<PriceOption>)
    requires i < |items| && items[i].weight <= days
    requires atFrom == Best(items, i, days - items[i].weight) && atDays == Best(items, i, days)
    requires keptFrom == Options(Pick(items, Trace(items, i, days - items[i].weight)))
    requires keptDays == Options(Pick(items, Trace(items, i, days)))
    ensures atFrom + items[i].value > atDays ==>
      atFrom + items[i].value == Best(items, i + 1, days) &&
      keptFrom + [items[i].data] == Options(Pick(items, Trace(items, i + 1, days)))
    ensures !(atFrom + items[i].value > atDays) ==>
      atDays == Best(items, i + 1, days) && keptDays == Options(Pick(items, Trace(items, i + 1, days)))
  {
    KeepStep(items, i, days);
    KeptStep(items, i, days);
  }

  /** Where option `i` does not fit, neither the entry nor its kept list changes. */
  lemma ShortStep(items: seq<Item<PriceOption>>, i: nat, c: int)
    requires i < |items| && c < items[i].weight
    ensures Best(items, i + 1, c) == Best(items, i, c)
    ensures Options(Pick(items, Trace(items, i + 1, c))) == Options(Pick(items, Trace(items, i, c)))
  {
    SkipStep(items, i, c);
    KeptStep(items, i, c);
  }

  /** After the first `i` items, the entries from `lo` up to `hi`. */
  ghost predicate ValuesHold(items: seq<Item<PriceOption>>, i: nat, dp: array<real>, lo: int, hi: int)
    requires i <= |items|
    reads dp
  {
    forall c :: lo <= c < hi && 0 <= c < dp.Length ==> dp[c] == Best(items, i, c)
  }

  /** After the first `i` items, the kept lists from `lo` up to `hi`. */
  ghost predicate KeptHold(items: seq<Item<PriceOption>>, i: nat, selected: array<seq<PriceOption>>, lo: int, hi: int)
    requires i <= |items|
    reads selected
  {
    forall c :: lo <= c < hi && 0 <= c < selected.Length ==> selected[c] == Options(Pick(items, Trace(items, i, c)))
  }

  /**
   * One pass of the outer loop: `days` runs backward from `maxDays` to the
   * option's duration, so every `dp[days - duration]` read still belongs
   * to the previous row, and each option enters a kept list at most once.
   */
  method OptionRow(options: seq<PriceOption>, ghost items: seq<Item<PriceOption>>, maxDays: int, i: nat,
                   dp: array<real>, selected: array<seq<PriceOption>>)
    requires i < |options| == |items| && maxDays >= 0 && options[i].duration >= 0
    requires items[i] == Item(options[i].value, options[i].duration, options[i])
    requires dp.Length == maxDays + 1 && selected.Length == maxDays + 1
    requires ValuesHold(items, i, dp, 0, maxDays + 1) && KeptHold(items, i, selected, 0, maxDays + 1)
    modifies dp, selected
    ensures ValuesHold(items, i + 1, dp, 0, maxDays + 1) && KeptHold(items, i + 1, selected, 0, maxDays + 1)
  {
    var option := options[i];
    var days := maxDays;
    while days >= option.duration
      invariant -1 <= days <= maxDays
      invariant ValuesHold(items, i, dp, 0, days + 1) && KeptHold(items, i, selected, 0, days + 1)
      invariant ValuesHold(items, i + 1, dp, days + 1, maxDays + 1)
      invariant KeptHold(items, i + 1, selected, days + 1, maxDays + 1)
    {
      SettleDay(options, items, maxDays, i, days, dp, selected);
      days := days - 1;
    }
    forall c | 0 <= c <= days
      ensures dp[c] == Best(items, i + 1, c) && selected[c] == Options(Pick(items, Trace(items, i + 1, c)))
    {
      ShortStep(items, i, c);
    }
  }

  /** One pass of the `days` loop: the entry at `days` and its kept list move to row `i + 1`, and nothing else changes. */
  method SettleDay(options: seq<PriceOption>, ghost items: seq<Item<PriceOption>>, maxDays: int, i: nat, days: int,
                   dp: array<real>, selected: array<seq<PriceOption>>)
    requires i < |options| == |items| && 0 <= options[i].duration <= days <= maxDays
    requires items[i] == Item(options[i].value, options[i].duration, options[i])
    requires dp.Length == maxDays + 1 && selected.Length == maxDays + 1
    requires ValuesHold(items, i, dp, 0, days + 1) && KeptHold(items, i, selected, 0, days + 1)
    modifies dp, selected
    ensures dp[days] == Best(items, i + 1, days) && selected[days] == Options(Pick(items, Trace(items, i + 1, days)))
    ensures forall c :: 0 <= c < dp.Length && c != days ==> dp[c] == old(dp[c])
    ensures forall c :: 0 <= c < selected.Length && c != days ==> selected[c] == old(selected[c])
  {
    var option := options[i];
    var from := days - option.duration;
    DayStep(items, i, days, dp[from], dp[days], selected[from], selected[days]);
    var valueWithOption := dp[from] + option.value;
    if valueWithOption > dp[days] {
      dp[days] := valueWithOption;
      selected[days] := selected[from] + [option];
    }
  }

  /** `dp.indexOf(Math.max(...dp))`: the first position of the largest entry. */
  method FirstMaxIndex(dp: array<real>) returns (best: int)
    requires dp.Length > 0
    ensures 0 <= best < dp.Length
    ensures forall c :: 0 <= c < dp.Length ==> dp[c] <= dp[best]
    ensures forall c :: 0 <= c < best ==> dp[c] < dp[best]
  {
    best := 0;
    for c := 1 to dp.Length
      invariant 0 <= best < c
      invariant forall d :: 0 <= d < c ==> dp[d] <= dp[best]
      invariant forall d :: 0 <= d < best ==> dp[d] < dp[best]
    {
      if dp[c] > dp[best] {
        best := c;
      }
    }
  }

  /** Nothing that fits in `maxDays` is worth more than `dp[maxDays]`, nor than any value above it. */
  lemma BestBoundsAll(options: seq<PriceOption>, maxDays: int, bound: real)
    requires maxDays >= 0 && Durations(options)
    requires Best(AsItems(options), |options|, maxDays) <= bound
    ensures forall sel :: |sel| == |options| && Weight(AsItems(options), sel) <= maxDays ==>
      Value(AsItems(options), sel) <= bound
  {
    var items := AsItems(options);
    assert Weighted(items);
    forall sel | |sel| == |options| && Weight(items, sel) <= maxDays
      ensures Value(items, sel) <= bound
    {
      BestBound(items, sel, maxDays);
    }
  }

  /**
   * `optimizeCombination(options, maxDays)`.  The result is the first
   * day count whose entry is largest, the options kept for it (worth
   * `maxValue` and lasting at most that many days), and their total price.
   * No set of options that fits in `maxDays` is worth more.
   */
  method OptimizeCombination(options: seq<PriceOption>, maxDays: int)
    returns (maxValue: real, selectedOptions: seq<PriceOption>, totalDays: int, totalPrice: real)
    requires maxDays >= 0 && Durations(options)
    ensures 0 <= totalDays <= maxDays
    ensures forall c :: 0 <= c <= maxDays ==> Best(AsItems(options), |options|, c) <= maxValue
    ensures forall c :: 0 <= c < totalDays ==> Best(AsItems(options), |options|, c) < maxValue
    ensures maxValue == Best(AsItems(options), |options|, totalDays)
    ensures selectedOptions == Options(Pick(AsItems(options), Trace(AsItems(options), |options|, totalDays)))
    ensures SumValues(selectedOptions) == maxValue
    ensures SumDurations(selectedOptions) <= totalDays
    ensures totalPrice == SumPrices(selectedOptions)
    ensures forall sel :: |sel| == |options| && Weight(AsItems(options), sel) <= maxDays ==>
      Value(AsItems(options), sel) <= maxValue
    ensures options == [] ==> maxValue == 0.0 && selectedOptions == [] && totalDays == 0
  {
    ghost var items := AsItems(options);
    var dp := new real[maxDays + 1](c => 0.0);
    var selected := new seq<PriceOption>[maxDays + 1](c => []);
    for i := 0 to |options|
      invariant ValuesHold(items, i, dp, 0, maxDays + 1) && KeptHold(items, i, selected, 0, maxDays + 1)
    {
      OptionRow(options, items, maxDays, i, dp, selected);
    }
    var bestDays := FirstMaxIndex(dp);
    maxValue := dp[bestDays];
    selectedOptions := selected[bestDays];
    totalDays := bestDays;
    totalPrice := SumPrices(selectedOptions);
    TraceOptimal(items, |items|, totalDays);
    TraceFits(items, |items|, totalDays);
    PickedSums(options, Trace(items, |items|, totalDays));
    BestBoundsAll(options, maxDays, maxValue);
    if options == [] {
      assert Best(items, 0, 0) == 0.0 && Best(items, 0, totalDays) == 0.0;
    }
  }
}
