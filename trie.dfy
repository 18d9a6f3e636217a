/**
 * The `Trie` class: the node map and the `size` counter, with the operations
 * of `trie.js` as methods.
 */
module Tries {
  import opened Common
  import opened Text
  import opened TrieNodes
  import opened TrieCollect
  import opened TrieFuzzy
  import opened TrieDelete

  /**
   * The trie object: the nodes under `root` and the `size` counter.
   */
  class Trie<D> {
    var nodes: Nodes<D>
    var size: int

    ghost predicate Valid()
      reads this
    {
      Linked(nodes) && Pruned(nodes, []) && size == |Words(nodes)|
    }

    /** `new Trie()`: only the root, and no word. */
    constructor()
      ensures Valid() && Words(nodes) == {} && nodes.Keys == {[]}
    {
      nodes := map[[] := EmptyNode()];
      size := 0;
      new;
      assert Words(nodes) == {};
    }

    /**
     * `insert(word, data)`: the word, lower-cased, is stored with
     * `data || word`, that is with `data` when it is truthy (`truthy` says
     * which values JavaScript reads as true) and with the word as typed when
     * there is no data or it is falsy; the nodes on its path are made where
     * they are missing.  An empty word changes nothing.
     */
    method Insert(word: string, data: Option<D> := None, truthy: D -> bool)
      requires Valid()
      modifies this
      ensures Valid()
      ensures word == [] ==> nodes == old(nodes) && size == old(size)
      ensures word != [] ==> Words(nodes) == Words(old(nodes)) + {Lower(word)}
      ensures word != [] ==> size == old(size) + (if Lower(word) in Words(old(nodes)) then 0 else 1)
      ensures word != [] ==>
        nodes[Lower(word)].data == Some(if data.Some? && truthy(data.value) then Given(data.value) else TheWord(word))
      ensures word != [] ==> forall q :: q in nodes && q !in old(nodes) ==> IsPrefix(q, Lower(word))
      ensures forall q :: q in old(nodes) && q != Lower(word) ==> q in nodes && Grown(old(nodes)[q], nodes[q])
    {
      if word == [] {
        return;
      }
      nodes, size := WithWord(word, data, truthy);
    }

    /** The nodes and the size `insert` leaves for a non-empty word, computed from the current ones. */
    method WithWord(word: string, data: Option<D>, truthy: D -> bool) returns (n: Nodes<D>, count: int)
      requires Valid() && word != []
      ensures Linked(n) && Pruned(n, []) && count == |Words(n)|
      ensures Words(n) == Words(nodes) + {Lower(word)}
      ensures count == size + (if Lower(word) in Words(nodes) then 0 else 1)
      ensures n[Lower(word)].data == Some(if data.Some? && truthy(data.value) then Given(data.value) else TheWord(word))
      ensures forall q :: q in n && q !in nodes ==> IsPrefix(q, Lower(word))
      ensures forall q :: q in nodes && q != Lower(word) ==> q in n && Grown(nodes[q], n[q])
    {
      ghost var w := Lower(word);
      var path, walked := Walk(word);
      var stored := if data.Some? && truthy(data.value) then Given(data.value) else TheWord(word);
      InsertedWords(nodes, walked, w, stored);
      InsertedFrame(nodes, walked, w, stored);
      count := if walked[path].isEndOfWord then size else size + 1;
      n := Mark(walked, path, stored);
    }

    /** The loop of `insert`: down from the root along the lower-cased word, making missing children. */
    method Walk(word: string) returns (path: string, n: Nodes<D>)
      requires Valid() && word != []
      ensures path == Lower(word)
      ensures Walked(nodes, n, path, |path|)
    {
      ghost var before := nodes;
      ghost var w := Lower(word);
      n := nodes;
      path := [];
      var i := 0;
      assert w[..0] == [];
      while i < |word|
        invariant Walked(before, n, w, i) && path == w[..i]
      {
        var c := LowerChar(word[i]);
        assert c == w[i];
        LowerPrefix(word, i);
        if c in n[path].keys {
          WalkFollow(before, n, w, i);
        } else {
          WalkAdd(before, n, w, i);
          n := AddChild(n, path, c);
        }
        path := path + [c];
        i := i + 1;
      }
      assert path == w;
    }

    /** `findNode(word)`: the node at the lower-cased word, found by walking down from the root. */
    method FindNode(word: string) returns (r: Option<string>)
      requires Valid()
      ensures r == (if Lower(word) in nodes then Some(Lower(word)) else None)
    {
      if word == [] {
        return Some([]);
      }
      ghost var w := Lower(word);
      var path: string := [];
      var i := 0;
      while i < |word|
        invariant 0 <= i <= |word| && path == w[..i] && path in nodes
      {
        var c := LowerChar(word[i]);
        LowerPrefix(word, i);
        if c !in nodes[path].keys {
          Missing(w, i);
          return None;
        }
        path := path + [c];
        i := i + 1;
      }
      assert path == w;
      return Some(path);
    }

    /** A node missing on the walk means the whole path is missing. */
    lemma {:induction false} Missing(w: string, i: nat)
      requires Valid() && i < |w| && w[..i] in nodes && w[i] !in nodes[w[..i]].keys
      ensures w !in nodes
    {
      TakeNext(w, i);
      if w !in nodes {
      } else {
        PrefixClosed(nodes, w, i + 1);
      }
    }

    /** `search(word)`: the word, lower-cased, is stored. */
    method Search(word: string) returns (found: bool)
      requires Valid()
      ensures found <==> Lower(word) in Words(nodes)
    {
      var node := FindNode(word);
      found := node.Some? && nodes[node.value].isEndOfWord;
    }

    /** `startsWith(prefix)`: some node lies at the lower-cased prefix. */
    method StartsWith(prefix: string) returns (found: bool)
      requires Valid()
      ensures found <==> Lower(prefix) in nodes
    {
      var node := FindNode(prefix);
      found := node.Some?;
    }
  
    /**
     * `getWordsWithPrefix(prefix, maxResults)`: nothing when no node lies at
     * the lower-cased prefix; otherwise the first `maxResults` words below
     * it in the order `_collectWords` visits them, each written as the
     * prefix as typed followed by the rest of its path.
     */
    method GetWordsWithPrefix(prefix: string, maxResults: int := 10) returns (results: seq<Entry<D>>)
      requires Valid()
      ensures Lower(prefix) !in nodes ==> results == []
      ensures Lower(prefix) in nodes ==>
        results == Trunc(Collect(nodes, Lower(prefix), prefix, [], NoLimit), maxResults)
    {
      var node := FindNode(prefix);
      if node.None? {
        return [];
      }
      CollectTruncates(nodes, node.value, prefix, [], maxResults);
      results := Collect(nodes, node.value, prefix, [], Limit(maxResults));
    }

    /** `getAllWords()`: every stored word. */
    method GetAllWords() returns (words: seq<string>)
      requires Valid()
      ensures forall w :: w in words <==> w in Words(nodes)
    {
      var results := Collect(nodes, [], [], [], NoLimit);
      words := seq(|results|, i requires 0 <= i < |results| => results[i].word);
      AllWordsExact(nodes);
      forall w | w in Words(nodes) ensures w in words {
        var e := EntryFor(nodes, [], [], w);
        assert e.word == w;
        var i :| 0 <= i < |results| && results[i] == e;
        assert words[i] == w;
      }
    }
    /**
     * `_fuzzySearch(node, word, prefix, distance, maxDistance, results)` for
     * the node at `p`, which is also the `prefix` the source builds: it
     * pushes, after the results gathered so far, every stored word below `p`
     * within the bound and nothing else.
     */
    method FuzzyVisit(p: string, word: string, distance: int, maxDistance: int, results: seq<Match<D>>)
      returns (out: seq<Match<D>>)
      requires Linked(nodes) && p in nodes && distance == Mismatch(p, word)
      ensures results <= out
      ensures AllNear(nodes, word, maxDistance, p, out, |results|)
      ensures AllFound(nodes, word, maxDistance, p, out, |results|)
      decreases Below(nodes, p)
    {
      out := results;
      if distance > maxDistance {
        forall q | q in Words(nodes) && IsPrefix(p, q) ensures Mismatch(q, word) > maxDistance {
          MismatchGrows(q, |p|, word);
        }
        return;
      }
      var cs := Enumeration(nodes[p].keys);
      VisitStart(nodes, word, maxDistance, p, results);
      if nodes[p].isEndOfWord && distance <= maxDistance {
        out := out + [Match(p, nodes[p].data, distance)];
      }
      assert cs[..0] == [];
      var k := 0;
      while k < |cs|
        invariant k <= |cs|
        invariant results <= out
        invariant AllNear(nodes, word, maxDistance, p, out, |results|)
        invariant CoveredFound(nodes, word, maxDistance, p, cs[..k], out, |results|)
      {
        var c := cs[k];
        BelowShrinks(nodes, p, c);
        MismatchNext(p, c, word);
        ghost var before := out;
        out := FuzzyVisit(p + [c], word, distance + Step(|p|, c, word), maxDistance, out);
        AllNearJoin(nodes, word, maxDistance, p, c, before, out, |results|);
        CoveredFoundJoin(nodes, word, maxDistance, p, cs, k, before, out, |results|);
        k := k + 1;
      }
      assert cs[..k] == cs;
      forall q | Covered(p, cs, q) ensures Covered(p, nodes[p].keys, q) {
      }
      CoveredAll(nodes, word, maxDistance, p, out, |results|);
    }

    /**
     * `fuzzySearch(word, maxDistance)`: from the root at distance 0, exactly
     * the stored words whose distance from the query is at most
     * `maxDistance`, each with its data and that distance; with a bound of 0,
     * only stored words that are prefixes of the lower-cased query.
     */
    method FuzzySearch(word: string, maxDistance: int := 2) returns (results: seq<Match<D>>)
      requires Valid()
      ensures forall m :: m in results ==> Near(nodes, word, maxDistance, m)
      ensures forall q :: q in Words(nodes) && Mismatch(q, word) <= maxDistance ==> MatchFor(nodes, word, q) in results
      ensures maxDistance <= 0 ==> forall m :: m in results ==> IsPrefix(m.word, Lower(word)) && m.distance == 0
    {
      assert Mismatch([], word) == 0;
      results := FuzzyVisit([], word, 0, maxDistance, []);
      forall m | m in results ensures Near(nodes, word, maxDistance, m) {
        var i :| 0 <= i < |results| && results[i] == m;
      }
      forall q | q in Words(nodes) ensures IsPrefix([], q) {
      }
      assert results[0..] == results;
      if maxDistance <= 0 {
        forall m | m in results ensures IsPrefix(m.word, Lower(word)) && m.distance == 0 {
          MismatchZero(m.word, word);
        }
      }
    }
    /**
     * `delete(word)`: the word, lower-cased, is no longer stored, and the
     * nodes left with no child and no word are cut off.  What it returns is
     * not whether the word was found: it is true only when the root itself is
     * left with no child, that is, when the trie is now empty.
     */
    method Delete(word: string) returns (r: bool)
      requires Valid()
      modifies this
      ensures Valid()
      ensures Words(nodes) == Words(old(nodes)) - {Lower(word)}
      ensures size == old(size) - (if Lower(word) in Words(old(nodes)) then 1 else 0)
      ensures r <==> Lower(word) in Words(old(nodes)) && Words(nodes) == {}
      ensures nodes.Keys <= old(nodes).Keys
      ensures Untouched(old(nodes), nodes, [], Lower(word))
    {
      assert Lower(word)[..0] == [];
      var m, prunable, removed := DeleteFrom(nodes, word, 0, []);
      NoWordsBareRoot(m);
      nodes := m;
      if removed {
        size := size - 1;
      }
      r := prunable;
    }

    /** What `delete(word)` evidently means to report: whether the word was stored. */
    method Remove(word: string) returns (found: bool)
      requires Valid()
      modifies this
      ensures Valid()
      ensures Words(nodes) == Words(old(nodes)) - {Lower(word)}
      ensures size == old(size) - (if found then 1 else 0)
      ensures found <==> Lower(word) in Words(old(nodes))
    {
      found := Search(word);
      var _ := Delete(word);
    }
  }

  /**
   * `delete` reports failure for a word it did remove whenever another word
   * stays stored: with "ab" and "ac" stored, deleting "ab" returns false.
   */
  method DeleteReportsFailure(w: string, other: string) returns (stored: bool, reported: bool)
    requires w != [] && other != [] && Lower(w) != Lower(other)
    ensures stored && !reported
  {
    var t := new Trie<int>();
    t.Insert(w, None, n => n != 0);
    t.Insert(other, None, n => n != 0);
    stored := t.Search(w);
    reported := t.Delete(w);
    assert Lower(other) in Words(t.nodes);
  }
}
