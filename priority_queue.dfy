/**
 * The binary-heap priority queue of
 * `algorithms/dataStructures/priorityQueue.js`.  The queue keeps its
 * elements in a `heap` list ordered so that no parent compares after its
 * children: the root is always the comparator's minimum.
 *
 * Every element is an (item, priority) pair.  An element enqueued without
 * a priority is its own priority, so `_compare`, which compares priorities
 * when both elements carry one and the elements themselves otherwise,
 * always compares priorities here.
 */
module PriorityQueues {
  import opened Common
  import opened Ordering
  import opened InPlace
  import opened HeapSorting

  datatype Entry<T> = Entry(item: T, priority: T)

  /** `enqueue(item, priority)`'s element: the pair, or the item as its own priority. */
  function MakeEntry<T>(item: T, priority: Option<T>): (e: Entry<T>)
    ensures e.item == item
    ensures e.priority == if priority.Some? then priority.value else item
  {
    match priority
    case Some(p) => Entry(item, p)
    case None => Entry(item, item)
  }

  /** The items of a list of elements. */
  function Items<T>(es: seq<Entry<T>>): (r: seq<T>)
    ensures |r| == |es|
  {
    if es == [] then [] else [es[0].item] + Items(es[1..])
  }
  lemma {:induction false} ItemsAppend<T>(a: seq<Entry<T>>, b: seq<Entry<T>>)
    ensures Items(a + b) == Items(a) + Items(b)
  {
    if a == [] {
      assert a + b == b;
    } else {
      assert (a + b)[1..] == a[1..] + b;
      ItemsAppend(a[1..], b);
    }
  }

  /** Removing the same element from two rearrangements of each other leaves rearrangements. */
  lemma RemoveMatching<E>(a: seq<E>, b: seq<E>, k: int)
    requires |a| > 0 && 0 <= k < |b| && b[k] == a[0] && multiset(a) == multiset(b)
    ensures multiset(a[1..]) == multiset(b[..k] + b[k + 1..])
  {
    var x := a[0];
    assert b == b[..k] + [x] + b[k + 1..];
    assert a == [x] + a[1..];
    calc {
      multiset(a[1..]);
      multiset(a) - multiset{x};
      multiset(b[..k] + [x] + b[k + 1..]) - multiset{x};
      multiset(b[..k]) + multiset(b[k + 1..]);
      multiset(b[..k] + b[k + 1..]);
    }
  }

  lemma ItemsCons<T>(x: Entry<T>, s: seq<Entry<T>>)
    ensures Items([x] + s) == [x.item] + Items(s)
  {
    assert ([x] + s)[1..] == s;
  }

  lemma ItemsSnoc<T>(s: seq<Entry<T>>, x: Entry<T>)
    ensures Items(s + [x]) == Items(s) + [x.item]
  {
    ItemsAppend(s, [x]);
    ItemsCons(x, []);
    assert [x] + [] == [x];
  }

  /** The item at each position is that of the element there. */
  lemma {:induction false} ItemsAt<T>(es: seq<Entry<T>>)
    ensures forall k :: 0 <= k < |es| ==> Items(es)[k] == es[k].item
  {
    if es != [] {
      ItemsAt(es[1..]);
    }
  }

  /** The items of a sequence, read around position `k`. */
  lemma ItemsSplitAt<T>(b: seq<Entry<T>>, k: int)
    requires 0 <= k < |b|
    ensures Items(b) == Items(b[..k]) + ([b[k].item] + Items(b[k + 1..]))
  {
    assert b[..k] + b[k..] == b;
    ItemsAppend(b[..k], b[k..]);
    assert [b[k]] + b[k + 1..] == b[k..];
    ItemsCons(b[k], b[k + 1..]);
  }

  lemma ItemsAround<T>(b: seq<Entry<T>>, k: int)
    requires 0 <= k < |b|
    ensures multiset(Items(b)) == multiset(Items(b[..k])) + multiset{b[k].item} + multiset(Items(b[k + 1..]))
  {
    ItemsSplitAt(b, k);
    var i1, i3 := Items(b[..k]), Items(b[k + 1..]);
    assert multiset(i1 + ([b[k].item] + i3)) == multiset(i1) + multiset([b[k].item] + i3);
    assert multiset([b[k].item] + i3) == multiset{b[k].item} + multiset(i3);
  }

  lemma ItemsMultisetStep<T>(a: seq<Entry<T>>, b: seq<Entry<T>>, k: int)
    requires |a| > 0 && 0 <= k < |b| && b[k] == a[0]
    requires multiset(Items(a[1..])) == multiset(Items(b[..k] + b[k + 1..]))
    ensures multiset(Items(a)) == multiset(Items(b))
  {
    ItemsAround(a, 0);
    assert a[..0] == [];
    ItemsAround(b, k);
    ItemsAppend(b[..k], b[k + 1..]);
  }

  /** Rearranging elements rearranges their items. */
  lemma {:induction false} ItemsMultiset<T>(a: seq<Entry<T>>, b: seq<Entry<T>>)
    requires multiset(a) == multiset(b)
    ensures multiset(Items(a)) == multiset(Items(b))
    decreases |a|
  {
    if a == [] {
      assert |multiset(b)| == 0;
    } else {
      assert a[0] in multiset(b);
      var k :| 0 <= k < |b| && b[k] == a[0];
      RemoveMatching(a, b, k);
      ItemsMultiset(a[1..], b[..k] + b[k + 1..]);
      ItemsMultisetStep(a, b, k);
    }
  }

  /** The elements `topK` puts back: each item, its own priority. */
  function Restored<T>(items: seq<T>): (r: seq<Entry<T>>)
    ensures |r| == |items| && forall k :: 0 <= k < |items| ==> r[k] == Entry(items[k], items[k])
  {
    if items == [] then [] else [Entry(items[0], items[0])] + Restored(items[1..])
  }

  lemma RestoredSnoc<T>(items: seq<T>, j: int)
    requires 0 <= j < |items|
    ensures multiset(Restored(items[..j + 1])) == multiset(Restored(items[..j])) + multiset{Entry(items[j], items[j])}
  {
    assert Restored(items[..j + 1]) == Restored(items[..j]) + [Entry(items[j], items[j])];
  }

  /**
   * The comparator the queue uses: the caller's, else `a - b` for a
   * `'min'` queue and `b - a` otherwise, on the elements' numeric value
   * `natural`.
   */
  function QueueComparator<T>(compareFn: Option<(T, T) -> real>, order: string, natural: T -> real): (T, T) -> real {
    match compareFn
    case Some(f) => f
    case None =>
      if order == "min" then (a: T, b: T) => natural(a) - natural(b)
      else (a: T, b: T) => natural(b) - natural(a)
  }

  /** The default comparators are comparators: the queue's root is the least value, or the greatest one for `'max'`. */
  lemma DefaultQueueComparator<T(!new)>(order: string, natural: T -> real)
    ensures IsComparator(QueueComparator(None, order, natural))
    ensures forall a, b :: QueueComparator(None, order, natural)(a, b) <= 0.0 <==>
      if order == "min" then natural(a) <= natural(b) else natural(a) >= natural(b)
  {
  }

  /** No parent's priority compares after either child's. */
  ghost predicate MinHeap<T>(h: seq<Entry<T>>, cmp: (T, T) -> real) {
    forall k :: 0 < k < |h| ==> cmp(h[Parent(k)].priority, h[k].priority) <= 0.0
  }

  /** Heap order whenever `cmp` is a comparator. */
  ghost predicate HeapOf<T(!new)>(h: seq<Entry<T>>, cmp: (T, T) -> real) {
    IsComparator(cmp) ==> MinHeap(h, cmp)
  }

  /** Heap order, except possibly between `i` and its parent; the parent of `i` is still not after the children of `i`. */
  ghost predicate UpExcept<T>(h: seq<Entry<T>>, i: int, cmp: (T, T) -> real) {
    0 <= i < |h| &&
    (forall k :: 0 < k < |h| && k != i ==> cmp(h[Parent(k)].priority, h[k].priority) <= 0.0) &&
    (i > 0 ==> forall k :: 0 < k < |h| && Parent(k) == i ==> cmp(h[Parent(i)].priority, h[k].priority) <= 0.0)
  }

  /** Heap order, except possibly between `i` and its children; the parent of `i` is still not after them. */
  ghost predicate DownExcept<T>(h: seq<Entry<T>>, i: int, cmp: (T, T) -> real) {
    0 <= i < |h| &&
    (forall k :: 0 < k < |h| && Parent(k) != i ==> cmp(h[Parent(k)].priority, h[k].priority) <= 0.0) &&
    (i > 0 ==> forall k :: 0 < k < |h| && Parent(k) == i ==> cmp(h[Parent(i)].priority, h[k].priority) <= 0.0)
  }

  /** In a heap the root's priority is not after any element's. */
  lemma RootMin<T(!new)>(h: seq<Entry<T>>, k: int, cmp: (T, T) -> real)
    requires IsComparator(cmp) && MinHeap(h, cmp)
    requires 0 <= k < |h|
    ensures cmp(h[0].priority, h[k].priority) <= 0.0
    decreases k
  {
    if k == 0 {
      Reflexive(cmp, h[0].priority);
    } else {
      RootMin(h, Parent(k), cmp);
    }
  }

  lemma RootMinimal<T(!new)>(h: seq<Entry<T>>, cmp: (T, T) -> real)
    requires |h| > 0
    ensures HeapOf(h, cmp) && IsComparator(cmp) ==>
      forall k :: 0 <= k < |h| ==> cmp(h[0].priority, h[k].priority) <= 0.0
  {
    if IsComparator(cmp) && MinHeap(h, cmp) {
      forall k | 0 <= k < |h| ensures cmp(h[0].priority, h[k].priority) <= 0.0 {
        RootMin(h, k, cmp);
      }
    }
  }

  /** A new last element leaves the heap ordered except above it. */
  lemma PushStart<T>(h: seq<Entry<T>>, e: Entry<T>, cmp: (T, T) -> real)
    requires MinHeap(h, cmp)
    ensures UpExcept(h + [e], |h|, cmp)
  {
    var h' := h + [e];
    forall k | 0 < k < |h'| && k != |h| ensures cmp(h'[Parent(k)].priority, h'[k].priority) <= 0.0 {
      assert h'[k] == h[k] && h'[Parent(k)] == h[Parent(k)];
    }
  }

  /** `_bubbleUp`'s step: swapping an element that compares before its parent moves the possible defect up. */
  lemma UpStep<T(!new)>(h: seq<Entry<T>>, i: int, cmp: (T, T) -> real)
    requires IsComparator(cmp) && UpExcept(h, i, cmp)
    requires i > 0 && cmp(h[i].priority, h[Parent(i)].priority) < 0.0
    ensures UpExcept(Swapped(h, i, Parent(i)), Parent(i), cmp)
  {
    var p := Parent(i);
    var t := Swapped(h, i, p);
    UpStepPairs(h, i, cmp);
    if p > 0 {
      forall k | 0 < k < |t| && Parent(k) == p ensures cmp(t[Parent(p)].priority, t[k].priority) <= 0.0 {
        assert t[Parent(p)] == h[Parent(p)];
        if k != i {
          assert t[k] == h[k];
        }
      }
    }
  }

  lemma UpStepPairs<T(!new)>(h: seq<Entry<T>>, i: int, cmp: (T, T) -> real)
    requires IsComparator(cmp) && UpExcept(h, i, cmp)
    requires i > 0 && cmp(h[i].priority, h[Parent(i)].priority) < 0.0
    ensures var t := Swapped(h, i, Parent(i));
      forall k :: 0 < k < |t| && k != Parent(i) ==> cmp(t[Parent(k)].priority, t[k].priority) <= 0.0
  {
    var p := Parent(i);
    var t := Swapped(h, i, p);
    forall k | 0 < k < |t| && k != p ensures cmp(t[Parent(k)].priority, t[k].priority) <= 0.0 {
      if k == i {
      } else if Parent(k) == p || Parent(k) == i {
        assert t[k] == h[k];
      } else {
        assert t[k] == h[k] && t[Parent(k)] == h[Parent(k)];
      }
    }
  }

  /** The loop state of `_bubbleUp` from `h0`: a rearrangement, ordered except above `i`. */
  ghost predicate Rising<T(!new)>(h: seq<Entry<T>>, h0: seq<Entry<T>>, i: int, cmp: (T, T) -> real) {
    0 <= i < |h| && |h| == |h0| && multiset(h) == multiset(h0) && (IsComparator(cmp) ==> UpExcept(h, i, cmp))
  }

  /** A rearrangement of `h0` in heap order. */
  ghost predicate Rearranged<T(!new)>(h: seq<Entry<T>>, h0: seq<Entry<T>>, cmp: (T, T) -> real) {
    |h| == |h0| && multiset(h) == multiset(h0) && HeapOf(h, cmp)
  }

  lemma RisingStep<T(!new)>(h: seq<Entry<T>>, h0: seq<Entry<T>>, i: int, cmp: (T, T) -> real)
    requires Rising(h, h0, i, cmp)
    requires i > 0 && cmp(h[i].priority, h[Parent(i)].priority) < 0.0
    ensures Rising(Swapped(h, i, Parent(i)), h0, Parent(i), cmp)
  {
    SwapWithin(h, Parent(i), i, 0, |h| - 1);
    if IsComparator(cmp) {
      UpStep(h, i, cmp);
    }
  }

  /** `_bubbleUp` stops at the root or below a parent that is not after it; either way the heap is whole. */
  lemma RisingDone<T(!new)>(h: seq<Entry<T>>, h0: seq<Entry<T>>, i: int, cmp: (T, T) -> real)
    requires Rising(h, h0, i, cmp)
    requires i == 0 || cmp(h[i].priority, h[Parent(i)].priority) >= 0.0
    ensures Rearranged(h, h0, cmp)
  {
    if i > 0 && IsComparator(cmp) {
      Flip(cmp, h[i].priority, h[Parent(i)].priority);
    }
  }

  /** The cell `_bubbleDown` picks: `index`, or a child strictly before every other candidate. */
  function Smallest<T>(h: seq<Entry<T>>, i: int, cmp: (T, T) -> real): (m: int)
    requires 0 <= i < |h|
    ensures m == i || (Parent(m) == i && m < |h|)
  {
    var left, right := 2 * i + 1, 2 * i + 2;
    var l1 := if left < |h| && cmp(h[left].priority, h[i].priority) < 0.0 then left else i;
    if right < |h| && cmp(h[right].priority, h[l1].priority) < 0.0 then right else l1
  }

  /** The picked cell is not after `i` or either child. */
  lemma SmallestIsMin<T(!new)>(h: seq<Entry<T>>, i: int, cmp: (T, T) -> real)
    requires IsComparator(cmp) && 0 <= i < |h|
    ensures var m := Smallest(h, i, cmp);
      cmp(h[m].priority, h[i].priority) <= 0.0 &&
      forall k :: 0 < k < |h| && Parent(k) == i ==> cmp(h[m].priority, h[k].priority) <= 0.0
  {
    var left, right := 2 * i + 1, 2 * i + 2;
    var l1 := if left < |h| && cmp(h[left].priority, h[i].priority) < 0.0 then left else i;
    Reflexive(cmp, h[i].priority);
    if left < |h| {
      Flip(cmp, h[left].priority, h[i].priority);
      Reflexive(cmp, h[left].priority);
    }
    if right < |h| {
      Flip(cmp, h[right].priority, h[l1].priority);
      Reflexive(cmp, h[right].priority);
    }
    forall k | 0 < k < |h| && Parent(k) == i ensures cmp(h[Smallest(h, i, cmp)].priority, h[k].priority) <= 0.0 {
      assert k == left || k == right;
    }
  }

  /** `_bubbleDown`'s step: swapping with the smaller child moves the possible defect down to it. */
  lemma DownStep<T(!new)>(h: seq<Entry<T>>, i: int, cmp: (T, T) -> real)
    requires IsComparator(cmp) && DownExcept(h, i, cmp)
    requires Smallest(h, i, cmp) != i
    ensures DownExcept(Swapped(h, i, Smallest(h, i, cmp)), Smallest(h, i, cmp), cmp)
  {
    var m := Smallest(h, i, cmp);
    var t := Swapped(h, i, m);
    SmallestIsMin(h, i, cmp);
    forall k | 0 < k < |t| && Parent(k) != m ensures cmp(t[Parent(k)].priority, t[k].priority) <= 0.0 {
      if Parent(k) == i {
        if k != m {
          assert t[k] == h[k];
        }
      } else if k == i {
        assert t[Parent(i)] == h[Parent(i)];
      } else {
        assert t[k] == h[k] && t[Parent(k)] == h[Parent(k)];
      }
    }
    forall k | 0 < k < |t| && Parent(k) == m ensures cmp(t[Parent(m)].priority, t[k].priority) <= 0.0 {
      assert t[k] == h[k];
    }
  }

  /** The loop state of `_bubbleDown` from `h0`: a rearrangement, ordered except below `i`. */
  ghost predicate Sinking<T(!new)>(h: seq<Entry<T>>, h0: seq<Entry<T>>, i: int, cmp: (T, T) -> real) {
    0 <= i < |h| && |h| == |h0| && multiset(h) == multiset(h0) && (IsComparator(cmp) ==> DownExcept(h, i, cmp))
  }

  lemma SinkingStep<T(!new)>(h: seq<Entry<T>>, h0: seq<Entry<T>>, i: int, cmp: (T, T) -> real)
    requires Sinking(h, h0, i, cmp)
    requires Smallest(h, i, cmp) != i
    ensures Sinking(Swapped(h, i, Smallest(h, i, cmp)), h0, Smallest(h, i, cmp), cmp)
  {
    SwapWithin(h, i, Smallest(h, i, cmp), 0, |h| - 1);
    if IsComparator(cmp) {
      DownStep(h, i, cmp);
    }
  }

  lemma SinkingDone<T(!new)>(h: seq<Entry<T>>, h0: seq<Entry<T>>, i: int, cmp: (T, T) -> real)
    requires Sinking(h, h0, i, cmp)
    requires Smallest(h, i, cmp) == i
    ensures Rearranged(h, h0, cmp)
  {
    if IsComparator(cmp) {
      SmallestIsMin(h, i, cmp);
    }
  }

  /** Moving the last element to the root of a heap leaves it ordered except below the root. */
  lemma PopStart<T(!new)>(h: seq<Entry<T>>, cmp: (T, T) -> real)
    requires HeapOf(h, cmp) && |h| >= 2
    ensures var t := h[..|h| - 1][0 := h[|h| - 1]];
      Sinking(t, t, 0, cmp) && multiset(t) + multiset{h[0]} == multiset(h)
  {
    var t := h[..|h| - 1][0 := h[|h| - 1]];
    if IsComparator(cmp) {
      forall k | 0 < k < |t| && Parent(k) != 0 ensures cmp(t[Parent(k)].priority, t[k].priority) <= 0.0 {
        assert t[k] == h[k] && t[Parent(k)] == h[Parent(k)];
      }
    }
    assert h == [h[0]] + h[1..|h| - 1] + [h[|h| - 1]];
    assert t == [h[|h| - 1]] + h[1..|h| - 1];
  }

  /** Every element of `taken` has a priority not after any element of `h`. */
  ghost predicate Below<T>(taken: seq<Entry<T>>, h: seq<Entry<T>>, cmp: (T, T) -> real) {
    forall i, j :: 0 <= i < |taken| && 0 <= j < |h| ==> cmp(taken[i].priority, h[j].priority) <= 0.0
  }

  /** The elements in non-decreasing priority order. */
  ghost predicate InOrder<T>(es: seq<Entry<T>>, cmp: (T, T) -> real) {
    forall i, j :: 0 <= i < j < |es| ==> cmp(es[i].priority, es[j].priority) <= 0.0
  }

  /** A property of every element survives taking a sub-multiset. */
  lemma AllKeep<E>(s: seq<E>, t: seq<E>, P: E -> bool)
    requires multiset(t) <= multiset(s)
    requires forall k :: 0 <= k < |s| ==> P(s[k])
    ensures forall k :: 0 <= k < |t| ==> P(t[k])
  {
    forall k | 0 <= k < |t| ensures P(t[k]) {
      assert t[k] in multiset(t);
      assert t[k] in multiset(s);
      var j :| 0 <= j < |s| && s[j] == t[k];
    }
  }

  /**
   * The state of the dequeue loops of `toArray` and `topK`: the elements
   * taken so far and the heap make up the starting heap, and the taken
   * ones are in priority order, none after anything still queued.
   */
  ghost predicate Draining<T(!new)>(taken: seq<Entry<T>>, h: seq<Entry<T>>, h0: seq<Entry<T>>, cmp: (T, T) -> real) {
    multiset(taken) + multiset(h) == multiset(h0) && |taken| + |h| == |h0| && HeapOf(h, cmp) &&
    (IsComparator(cmp) ==> InOrder(taken, cmp) && Below(taken, h, cmp))
  }

  /** A root not after anything queued extends the taken run in order. */
  lemma InOrderSnoc<T(!new)>(taken: seq<Entry<T>>, h: seq<Entry<T>>, cmp: (T, T) -> real)
    requires |h| > 0 && InOrder(taken, cmp) && Below(taken, h, cmp)
    requires forall k :: 0 <= k < |h| ==> cmp(h[0].priority, h[k].priority) <= 0.0
    ensures InOrder(taken + [h[0]], cmp)
    ensures forall k :: 0 <= k < |h| ==> forall i :: 0 <= i < |taken + [h[0]]| ==> cmp((taken + [h[0]])[i].priority, h[k].priority) <= 0.0
  {
    var o := taken + [h[0]];
    forall i, j | 0 <= i < j < |o| ensures cmp(o[i].priority, o[j].priority) <= 0.0 {
      assert o[i] == taken[i];
      if j == |taken| {
        assert o[j] == h[0];
      } else {
        assert o[j] == taken[j];
      }
    }
    forall k, i | 0 <= k < |h| && 0 <= i < |o| ensures cmp(o[i].priority, h[k].priority) <= 0.0 {
      if i < |taken| {
        assert o[i] == taken[i];
      }
    }
  }

  /** Taking the root of the heap keeps the draining state. */
  lemma DrainStep<T(!new)>(taken: seq<Entry<T>>, h: seq<Entry<T>>, h': seq<Entry<T>>, h0: seq<Entry<T>>, cmp: (T, T) -> real)
    requires Draining(taken, h, h0, cmp) && |h| > 0
    requires multiset(h') + multiset{h[0]} == multiset(h) && |h'| + 1 == |h| && HeapOf(h', cmp)
    ensures Draining(taken + [h[0]], h', h0, cmp)
  {
    var o := taken + [h[0]];
    if IsComparator(cmp) {
      RootMinimal(h, cmp);
      InOrderSnoc(taken, h, cmp);
      AllKeep(h, h', (e: Entry<T>) => forall i :: 0 <= i < |o| ==> cmp(o[i].priority, e.priority) <= 0.0);
    }
  }

  /** Each element of `Restored(items)` carries the matching item. */
  lemma {:induction false} ItemsRestored<T>(items: seq<T>)
    ensures Items(Restored(items)) == items
  {
    if items != [] {
      ItemsCons(Entry(items[0], items[0]), Restored(items[1..]));
      ItemsRestored(items[1..]);
      assert items == [items[0]] + items[1..];
    }
  }

  /** The elements of a sub-multiset of `Restored(items)` are their own priorities. */
  lemma OwnPriorities<T>(es: seq<Entry<T>>, items: seq<T>)
    requires multiset(es) <= multiset(Restored(items))
    ensures forall k :: 0 <= k < |es| ==> Items(es)[k] == es[k].priority
  {
    var all := Restored(items);
    var own := (e: Entry<T>) => e.item == e.priority;
    assert forall k :: 0 <= k < |all| ==> own(all[k]);
    AllKeep(all, es, own);
    ItemsAt(es);
  }

  /**
   * When every queued element is its own priority, what `topK` takes out
   * and what it leaves behind split the queued items, the taken items
   * come in comparator order, and none is after an item left behind.
   */
  lemma DrainedItems<T(!new)>(taken: seq<Entry<T>>, rest: seq<Entry<T>>, h0: seq<Entry<T>>, items: seq<T>, cmp: (T, T) -> real)
    requires Draining(taken, rest, h0, cmp)
    requires multiset(h0) == multiset(Restored(items))
    ensures multiset(Items(taken)) + multiset(Items(rest)) == multiset(items)
    ensures IsComparator(cmp) ==> forall i, j :: 0 <= i < j < |taken| ==> cmp(Items(taken)[i], Items(taken)[j]) <= 0.0
    ensures IsComparator(cmp) ==>
      forall i, j :: 0 <= i < |taken| && 0 <= j < |rest| ==> cmp(Items(taken)[i], Items(rest)[j]) <= 0.0
  {
    OwnPriorities(taken, items);
    OwnPriorities(rest, items);
    ItemsAppend(taken, rest);
    ItemsMultiset(taken + rest, Restored(items));
    ItemsRestored(items);
  }

  class PriorityQueue<T(!new)> {
    var heap: seq<Entry<T>>
    const order: string
    const compareFn: (T, T) -> real

    /** Heap order on the priorities, whenever the comparator is one. */
    ghost predicate Valid()
      reads this
    {
      HeapOf(heap, compareFn)
    }

    /** `new PriorityQueue(compareFn, order)`: empty, with the caller's comparator or the default for `order`. */
    constructor(compareFn: Option<(T, T) -> real> := None, order: string := "min", natural: T -> real)
      ensures Valid() && heap == []
      ensures this.order == order && this.compareFn == QueueComparator(compareFn, order, natural)
    {
      heap := [];
      this.order := order;
      this.compareFn := QueueComparator(compareFn, order, natural);
    }

    /** `new MinPriorityQueue(compareFn)`: the caller's comparator, else `a - b`. */
    constructor Min(compareFn: Option<(T, T) -> real> := None, natural: T -> real)
      ensures Valid() && heap == [] && order == "min"
      ensures this.compareFn == QueueComparator(compareFn, "min", natural)
    {
      heap := [];
      order := "min";
      this.compareFn := QueueComparator(compareFn, "min", natural);
    }

    /**
     * `new MaxPriorityQueue(compareFn)`: the caller's comparator unchanged,
     * else `b - a`; the root is always the comparator's minimum.
     */
    constructor Max(compareFn: Option<(T, T) -> real> := None, natural: T -> real)
      ensures Valid() && heap == [] && order == "max"
      ensures this.compareFn == QueueComparator(compareFn, "max", natural)
    {
      heap := [];
      order := "max";
      this.compareFn := QueueComparator(compareFn, "max", natural);
    }

    /** `peek()`: the root's item, `None` when empty; the root's priority is not after any element's. */
    function Peek(): (r: Option<T>)
      reads this
      ensures r.None? <==> heap == []
      ensures r.Some? ==> r.value == heap[0].item
      ensures r.Some? && Valid() && IsComparator(compareFn) ==>
        forall k :: 0 <= k < |heap| ==> compareFn(heap[0].priority, heap[k].priority) <= 0.0
    {
      if heap == [] then None
      else
        RootMinimal(heap, compareFn);
        Some(heap[0].item)
    }

    /** `isEmpty()` */
    function IsEmpty(): (b: bool)
      reads this
      ensures b <==> Peek().None?
    {
      |heap| == 0
    }

    /** `size()` */
    function Size(): (n: nat)
      reads this
      ensures n == 0 <==> IsEmpty()
    {
      |heap|
    }

    /** `_bubbleUp(index)`: swap the element up while it compares before its parent. */
    method BubbleUp(index: int)
      requires Rising(heap, heap, index, compareFn)
      modifies this
      ensures Rearranged(heap, old(heap), compareFn)
    {
      var i := index;
      while i > 0 && compareFn(heap[i].priority, heap[Parent(i)].priority) < 0.0
        invariant Rising(heap, old(heap), i, compareFn)
        decreases i
      {
        RisingStep(heap, old(heap), i, compareFn);
        heap := Swapped(heap, i, Parent(i));
        i := Parent(i);
      }
      RisingDone(heap, old(heap), i, compareFn);
    }

    /** `_bubbleDown(index)`: swap the element down with its smaller child until neither child is smaller. */
    method BubbleDown(index: int)
      requires Sinking(heap, heap, index, compareFn)
      modifies this
      ensures Rearranged(heap, old(heap), compareFn)
    {
      var i := index;
      while true
        invariant Sinking(heap, old(heap), i, compareFn)
        decreases |heap| - i
      {
        var smallest := i;
        var left := 2 * i + 1;
        var right := 2 * i + 2;
        if left < |heap| && compareFn(heap[left].priority, heap[smallest].priority) < 0.0 {
          smallest := left;
        }
        if right < |heap| && compareFn(heap[right].priority, heap[smallest].priority) < 0.0 {
          smallest := right;
        }
        assert smallest == Smallest(heap, i, compareFn);
        if smallest == i {
          SinkingDone(heap, old(heap), i, compareFn);
          break;
        }
        SinkingStep(heap, old(heap), i, compareFn);
        heap := Swapped(heap, i, smallest);
        i := smallest;
      }
    }

    /** `enqueue(item, priority)`: append the element and bubble it up. */
    method Enqueue(item: T, priority: Option<T> := None)
      requires Valid()
      modifies this
      ensures Valid()
      ensures multiset(heap) == old(multiset(heap)) + multiset{MakeEntry(item, priority)}
      ensures |heap| == old(|heap|) + 1
    {
      var element := MakeEntry(item, priority);
      if IsComparator(compareFn) {
        PushStart(heap, element, compareFn);
      }
      heap := heap + [element];
      BubbleUp(|heap| - 1);
    }

    /**
     * `dequeue()`: `None` and no change on an empty queue; otherwise the
     * root's item, the root removed, the last element moved to the root
     * and bubbled down.
     */
    method Dequeue() returns (r: Option<T>)
      requires Valid()
      modifies this
      ensures Valid()
      ensures r == old(Peek())
      ensures old(heap) == [] ==> heap == []
      ensures old(heap) != [] ==>
        multiset(heap) + multiset{old(heap[0])} == old(multiset(heap)) && |heap| == old(|heap|) - 1
    {
      if heap == [] {
        return None;
      }
      var top := heap[0];
      var last := heap[|heap| - 1];
      if |heap| > 1 {
        PopStart(heap, compareFn);
      }
      heap := heap[..|heap| - 1];
      if |heap| > 0 {
        heap := heap[0 := last];
        BubbleDown(0);
      }
      r := Some(top.item);
    }

    /** `toArray()`: dequeue everything; the items come out in priority order. */
    method ToArray() returns (result: seq<T>, ghost taken: seq<Entry<T>>)
      requires Valid()
      modifies this
      ensures Valid() && heap == []
      ensures result == Items(taken) && multiset(taken) == old(multiset(heap))
      ensures IsComparator(compareFn) ==> InOrder(taken, compareFn)
    {
      result := [];
      taken := [];
      while heap != []
        invariant Draining(taken, heap, old(heap), compareFn) && result == Items(taken)
        decreases |heap|
      {
        ghost var h := heap;
        var x := Dequeue();
        DrainStep(taken, h, heap, old(heap), compareFn);
        ItemsSnoc(taken, h[0]);
        result := result + [x.value];
        taken := taken + [h[0]];
      }
    }

    /**
     * `topK(k)`: dequeue up to `k` elements, then enqueue each dequeued
     * item again with the item as its own priority.  The items come out in
     * priority order, and none of them is after an element left behind.
     */
    method TopK(k: int) returns (result: seq<T>, ghost taken: seq<Entry<T>>, ghost rest: seq<Entry<T>>)
      requires Valid()
      modifies this
      ensures Valid() && |heap| == old(|heap|)
      ensures |result| == if k <= 0 then 0 else Common.Min(k, old(|heap|))
      ensures result == Items(taken) && Draining(taken, rest, old(heap), compareFn)
      ensures multiset(heap) == multiset(rest) + multiset(Restored(result))
    {
      result := [];
      taken := [];
      var i := 0;
      while i < k && heap != []
        invariant Draining(taken, heap, old(heap), compareFn) && result == Items(taken) && i == |taken|
        invariant i <= k || i == 0
        decreases |heap|
      {
        ghost var h := heap;
        var x := Dequeue();
        DrainStep(taken, h, heap, old(heap), compareFn);
        ItemsSnoc(taken, h[0]);
        result := result + [x.value];
        taken := taken + [h[0]];
        i := i + 1;
      }
      rest := heap;
      RestoreAll(result);
    }

    /** `topK`'s restore: `temp.forEach(item => enqueue(item, _getPriority(item)))`. */
    method RestoreAll(items: seq<T>)
      requires Valid()
      modifies this
      ensures Valid() && |heap| == old(|heap|) + |items|
      ensures multiset(heap) == old(multiset(heap)) + multiset(Restored(items))
    {
      var j := 0;
      while j < |items|
        invariant 0 <= j <= |items| && Valid() && |heap| == old(|heap|) + j
        invariant multiset(heap) == old(multiset(heap)) + multiset(Restored(items[..j]))
      {
        RestoredSnoc(items, j);
        Enqueue(items[j], Some(items[j]));
        j := j + 1;
      }
      assert items[..j] == items;
    }
  }
}
