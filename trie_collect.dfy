/**
 * `Trie._collectWords`: a depth-first walk below one node that pushes every
 * word it meets onto a shared result list, and stops pushing once the list
 * holds `maxResults` entries.  The list is threaded through the recursion as
 * an accumulator.
 */
module TrieCollect {
  import opened Common
  import opened Text
  import opened TrieNodes

  /** The nodes at or below the node at `p`; it shrinks on every step down, so the walk ends. */
  ghost function Below<D>(nodes: Nodes<D>, p: string): set<string> {
    set q | q in nodes && IsPrefix(p, q)
  }

  /** A child's nodes are strictly fewer than its parent's. */
  lemma {:induction false} BelowShrinks<D>(nodes: Nodes<D>, p: string, c: char)
    requires p in nodes
    ensures Below(nodes, p + [c]) < Below(nodes, p)
  {
    forall q | q in Below(nodes, p + [c]) ensures q in Below(nodes, p) {
      assert q[..|p|] == (p + [c])[..|p|] == p;
    }
    assert p in Below(nodes, p) && p !in Below(nodes, p + [c]);
  }

  predicate IsDigit(c: char) {
    '0' <= c <= '9'
  }

  /** The characters of `order` that are keys, in the order of `order`. */
  function Select(order: seq<char>, keys: seq<char>): (r: seq<char>)
    ensures forall c :: c in r <==> c in order && c in keys
  {
    if order == [] then []
    else (if order[0] in keys then [order[0]] else []) + Select(order[1..], keys)
  }

  /** The keys that are not digits, in insertion order. */
  function NonDigits(keys: seq<char>): (r: seq<char>)
    ensures forall c :: c in r <==> c in keys && !IsDigit(c)
  {
    if keys == [] then []
    else (if IsDigit(keys[0]) then [] else [keys[0]]) + NonDigits(keys[1..])
  }

  /**
   * The order `Object.entries` visits a node's children in: a one-character
   * key that is a digit is an array index, and array indices come first, in
   * ascending order; the other keys follow in the order they were added.
   */
  function Enumeration(keys: seq<char>): (r: seq<char>)
    ensures forall c :: c in r <==> c in keys
  {
    assert forall c :: IsDigit(c) ==> c in "0123456789";
    Select("0123456789", keys) + NonDigits(keys)
  }

  /** `{ word, data }`, one result of a prefix search. */
  datatype Entry<D> = Entry(word: string, data: Option<Payload<D>>)

  /** `maxResults`: a number, or `Infinity` for `getAllWords`. */
  datatype Cap = Limit(max: int) | NoLimit

  /** `results.length >= maxResults` */
  predicate Full<D>(acc: seq<Entry<D>>, cap: Cap) {
    cap.Limit? && |acc| >= cap.max
  }

  /**
   * `_collectWords(node, prefix, results, maxResults)` for the node at `p`,
   * whose word so far is written `shown`: the results already in `acc` stay
   * in front, and nothing is pushed once the cap is reached.
   */
  function Collect<D>(nodes: Nodes<D>, p: string, shown: string, acc: seq<Entry<D>>, cap: Cap): (r: seq<Entry<D>>)
    requires p in nodes
    ensures acc <= r
    ensures cap.Limit? ==> |r| <= Max(|acc|, cap.max)
    decreases Below(nodes, p), 1
  {
    if Full(acc, cap) then acc
    else
      var here := if nodes[p].isEndOfWord then acc + [Entry(shown, nodes[p].data)] else acc;
      CollectChildren(nodes, p, shown, Enumeration(nodes[p].keys), here, cap)
  }

  /** The `for … of Object.entries(node.children)` loop over the characters `cs` still to visit. */
  function CollectChildren<D>(nodes: Nodes<D>, p: string, shown: string, cs: seq<char>, acc: seq<Entry<D>>, cap: Cap): (r: seq<Entry<D>>)
    requires p in nodes
    ensures acc <= r
    ensures cap.Limit? ==> |r| <= Max(|acc|, cap.max)
    decreases Below(nodes, p), 0, |cs|
  {
    if cs == [] then acc
    else if p + [cs[0]] in nodes then
      BelowShrinks(nodes, p, cs[0]);
      CollectChildren(nodes, p, shown, cs[1..], Collect(nodes, p + [cs[0]], shown + [cs[0]], acc, cap), cap)
    else CollectChildren(nodes, p, shown, cs[1..], acc, cap)
  }

  /**
   * `e` is a word stored below the node at `p`, shown as `shown` followed by
   * the rest of its path, together with that node's data.
   */
  ghost predicate Found<D>(nodes: Nodes<D>, p: string, shown: string, e: Entry<D>) {
    |shown| <= |e.word| && e.word[..|shown|] == shown &&
    p + e.word[|shown|..] in Words(nodes) && nodes[p + e.word[|shown|..]].data == e.data
  }

  /** A word found below a child is found below its parent. */
  lemma {:induction false} FoundParent<D>(nodes: Nodes<D>, p: string, shown: string, c: char, e: Entry<D>)
    requires Found(nodes, p + [c], shown + [c], e)
    ensures Found(nodes, p, shown, e)
  {
    var k := |shown|;
    assert e.word[..k] == (e.word[..k + 1])[..k] == shown;
    assert e.word[k..] == [c] + e.word[k + 1..];
    assert p + e.word[k..] == (p + [c]) + e.word[k + 1..];
  }

  /** Every entry `_collectWords` pushes is a word stored below the node it starts from, with its data. */
  lemma {:induction false} CollectSound<D>(nodes: Nodes<D>, p: string, shown: string, acc: seq<Entry<D>>, cap: Cap)
    requires p in nodes
    ensures forall i :: |acc| <= i < |Collect(nodes, p, shown, acc, cap)| ==>
      Found(nodes, p, shown, Collect(nodes, p, shown, acc, cap)[i])
    decreases Below(nodes, p), 1
  {
    if !Full(acc, cap) {
      var here := if nodes[p].isEndOfWord then acc + [Entry(shown, nodes[p].data)] else acc;
      assert shown[..|shown|] == shown && p + shown[|shown|..] == p;
      CollectChildrenSound(nodes, p, shown, Enumeration(nodes[p].keys), here, cap);
    }
  }

  lemma {:induction false} CollectChildrenSound<D>(nodes: Nodes<D>, p: string, shown: string, cs: seq<char>, acc: seq<Entry<D>>, cap: Cap)
    requires p in nodes
    ensures forall i :: |acc| <= i < |CollectChildren(nodes, p, shown, cs, acc, cap)| ==>
      Found(nodes, p, shown, CollectChildren(nodes, p, shown, cs, acc, cap)[i])
    decreases Below(nodes, p), 0, |cs|
  {
    if cs != [] {
      var c := cs[0];
      if p + [c] in nodes {
        BelowShrinks(nodes, p, c);
        var mid := Collect(nodes, p + [c], shown + [c], acc, cap);
        CollectSound(nodes, p + [c], shown + [c], acc, cap);
        CollectChildrenSound(nodes, p, shown, cs[1..], mid, cap);
        forall i | |acc| <= i < |mid| ensures Found(nodes, p, shown, mid[i]) {
          FoundParent(nodes, p, shown, c, mid[i]);
        }
      } else {
        CollectChildrenSound(nodes, p, shown, cs[1..], acc, cap);
      }
    }
  }

  /** The entry `_collectWords` makes for the stored word `q` when it starts from the node at `p`. */
  function EntryFor<D>(nodes: Nodes<D>, p: string, shown: string, q: string): Entry<D>
    requires q in nodes && |p| <= |q|
  {
    Entry(shown + q[|p|..], nodes[q].data)
  }

  /** Seen from a child, the entry for a word is the same. */
  lemma {:induction false} EntryForChild<D>(nodes: Nodes<D>, p: string, shown: string, q: string)
    requires q in nodes && |p| < |q|
    ensures EntryFor(nodes, p + [q[|p|]], shown + [q[|p|]], q) == EntryFor(nodes, p, shown, q)
  {
    assert q[|p|..] == [q[|p|]] + q[|p| + 1..];
  }

  /** A node strictly below `p` hangs off one of the children of `p`. */
  lemma {:induction false} ChildOnWay<D>(nodes: Nodes<D>, p: string, q: string)
    requires Linked(nodes) && q in nodes && IsPrefix(p, q) && |p| < |q|
    ensures p + [q[|p|]] in nodes && q[|p|] in nodes[p].keys && IsPrefix(p + [q[|p|]], q)
  {
    PrefixClosed(nodes, q, |p| + 1);
    TakeNext(q, |p|);
  }

  /** With no cap, `_collectWords` pushes every word stored below the node it starts from. */
  lemma {:induction false} CollectComplete<D>(nodes: Nodes<D>, p: string, shown: string, acc: seq<Entry<D>>)
    requires Linked(nodes) && p in nodes
    ensures forall q :: q in Words(nodes) && IsPrefix(p, q) ==>
      EntryFor(nodes, p, shown, q) in Collect(nodes, p, shown, acc, NoLimit)
    decreases Below(nodes, p), 1
  {
    var here := if nodes[p].isEndOfWord then acc + [Entry(shown, nodes[p].data)] else acc;
    var cs := Enumeration(nodes[p].keys);
    var r := CollectChildren(nodes, p, shown, cs, here, NoLimit);
    assert r == Collect(nodes, p, shown, acc, NoLimit);
    CollectChildrenComplete(nodes, p, shown, cs, here);
    forall q | q in Words(nodes) && IsPrefix(p, q) ensures EntryFor(nodes, p, shown, q) in r {
      if q == p {
        assert shown + q[|p|..] == shown;
        assert EntryFor(nodes, p, shown, q) in here;
      } else {
        ChildOnWay(nodes, p, q);
      }
    }
  }

  lemma {:induction false} CollectChildrenComplete<D>(nodes: Nodes<D>, p: string, shown: string, cs: seq<char>, acc: seq<Entry<D>>)
    requires Linked(nodes) && p in nodes
    ensures forall q :: q in Words(nodes) && IsPrefix(p, q) && |p| < |q| && q[|p|] in cs ==>
      EntryFor(nodes, p, shown, q) in CollectChildren(nodes, p, shown, cs, acc, NoLimit)
    decreases Below(nodes, p), 0, |cs|
  {
    if cs != [] {
      var c := cs[0];
      if p + [c] in nodes {
        BelowShrinks(nodes, p, c);
        var mid := Collect(nodes, p + [c], shown + [c], acc, NoLimit);
        CollectComplete(nodes, p + [c], shown + [c], acc);
        CollectChildrenComplete(nodes, p, shown, cs[1..], mid);
        forall q | q in Words(nodes) && IsPrefix(p, q) && |p| < |q| && q[|p|] == c
          ensures EntryFor(nodes, p, shown, q) in mid
        {
          ChildOnWay(nodes, p, q);
          EntryForChild(nodes, p, shown, q);
        }
      } else {
        CollectChildrenComplete(nodes, p, shown, cs[1..], acc);
        forall q | q in Words(nodes) && IsPrefix(p, q) && |p| < |q| ensures q[|p|] != c {
          ChildOnWay(nodes, p, q);
        }
      }
    }
  }

  /** The first `k` elements of `s`, or all of them when there are fewer. */
  function Trunc<T>(s: seq<T>, k: int): (r: seq<T>)
    ensures r <= s && |r| == Min(|s|, Max(k, 0))
  {
    if |s| <= k then s else s[..Max(k, 0)]
  }

  /** A capped walk gives the first `k` entries of the uncapped one: the cap only cuts the list short. */
  lemma {:induction false} CollectTruncates<D>(nodes: Nodes<D>, p: string, shown: string, acc: seq<Entry<D>>, k: int)
    requires p in nodes
    ensures Collect(nodes, p, shown, Trunc(acc, k), Limit(k)) == Trunc(Collect(nodes, p, shown, acc, NoLimit), k)
    decreases Below(nodes, p), 1
  {
    var full := Collect(nodes, p, shown, acc, NoLimit);
    if |acc| < k {
      var here := if nodes[p].isEndOfWord then acc + [Entry(shown, nodes[p].data)] else acc;
      CollectChildrenTruncates(nodes, p, shown, Enumeration(nodes[p].keys), here, k);
    } else {
      assert Trunc(full, k) == Trunc(acc, k);
    }
  }

  lemma {:induction false} CollectChildrenTruncates<D>(nodes: Nodes<D>, p: string, shown: string, cs: seq<char>, acc: seq<Entry<D>>, k: int)
    requires p in nodes
    ensures CollectChildren(nodes, p, shown, cs, Trunc(acc, k), Limit(k)) == Trunc(CollectChildren(nodes, p, shown, cs, acc, NoLimit), k)
    decreases Below(nodes, p), 0, |cs|
  {
    if cs != [] {
      var c := cs[0];
      if p + [c] in nodes {
        BelowShrinks(nodes, p, c);
        CollectTruncates(nodes, p + [c], shown + [c], acc, k);
        CollectChildrenTruncates(nodes, p, shown, cs[1..], Collect(nodes, p + [c], shown + [c], acc, NoLimit), k);
      } else {
        CollectChildrenTruncates(nodes, p, shown, cs[1..], acc, k);
      }
    }
  }

  /**
   * What a prefix search from the node at `p` returns with the cap `k`: at
   * most `k` entries, each a word stored below `p`; when the cap is not
   * reached, every such word.
   */
  lemma {:induction false} PrefixResults<D>(nodes: Nodes<D>, p: string, shown: string, k: int)
    requires Linked(nodes) && p in nodes
    ensures |Trunc(Collect(nodes, p, shown, [], NoLimit), k)| <= Max(k, 0)
    ensures forall e :: e in Trunc(Collect(nodes, p, shown, [], NoLimit), k) ==> Found(nodes, p, shown, e)
    ensures |Collect(nodes, p, shown, [], NoLimit)| <= k ==>
      forall q :: q in Words(nodes) && IsPrefix(p, q) ==> EntryFor(nodes, p, shown, q) in Trunc(Collect(nodes, p, shown, [], NoLimit), k)
  {
    var full := Collect(nodes, p, shown, [], NoLimit);
    CollectSound(nodes, p, shown, [], NoLimit);
    CollectComplete(nodes, p, shown, []);
    forall e | e in Trunc(full, k) ensures Found(nodes, p, shown, e) {
      var i :| 0 <= i < |Trunc(full, k)| && Trunc(full, k)[i] == e;
      assert full[i] == e;
    }
  }

  /** `getAllWords()`: the walk from the root, uncapped, yields exactly the stored words. */
  lemma {:induction false} AllWordsExact<D>(nodes: Nodes<D>)
    requires Linked(nodes)
    ensures forall w :: w in Words(nodes) ==> EntryFor(nodes, [], [], w) in Collect(nodes, [], [], [], NoLimit)
    ensures forall e :: e in Collect(nodes, [], [], [], NoLimit) ==> e.word in Words(nodes)
  {
    var full := Collect(nodes, [], [], [], NoLimit);
    CollectSound(nodes, [], [], [], NoLimit);
    CollectComplete(nodes, [], [], []);
    forall e | e in full ensures e.word in Words(nodes) {
      var i :| 0 <= i < |full| && full[i] == e;
      assert Found(nodes, [], [], e);
      assert [] + e.word[0..] == e.word;
    }
    forall w | w in Words(nodes) ensures EntryFor(nodes, [], [], w) in full {
      assert IsPrefix([], w);
    }
  }
}
