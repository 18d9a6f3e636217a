/**
 * `Trie.delete` and `_delete`: the word's node is unmarked, and then, on the
 * way back up, every node left with no child and no word of its own is cut
 * from its parent.
 */
module TrieDelete {
  import opened Common
  import opened Text
  import opened TrieNodes
  import opened TrieCollect

  /** `keys` after `delete node.children[c]`: the other keys, in their order. */
  function Without(keys: seq<char>, c: char): (r: seq<char>)
    ensures forall d :: d in r <==> d in keys && d != c
    ensures |r| <= |keys|
  {
    if keys == [] then []
    else if keys[0] == c then Without(keys[1..], c)
    else [keys[0]] + Without(keys[1..], c)
  }

  /** Taking a key out lists no key twice if none was. */
  lemma {:induction false} WithoutNoRepeats(keys: seq<char>, c: char)
    requires NoRepeats(keys)
    ensures NoRepeats(Without(keys, c))
  {
    if keys != [] {
      NoRepeatsTail(keys);
      WithoutNoRepeats(keys[1..], c);
      if keys[0] != c {
        NoRepeatsCons(keys[0], Without(keys[1..], c));
      }
    }
  }

  /** Without its head, a list of distinct keys is still one, and does not hold the head. */
  lemma NoRepeatsTail(keys: seq<char>)
    requires keys != [] && NoRepeats(keys)
    ensures NoRepeats(keys[1..]) && keys[0] !in keys[1..]
  {
    forall i, j | 0 <= i < j < |keys[1..]| ensures keys[1..][i] != keys[1..][j] {
      assert keys[1..][i] == keys[i + 1] && keys[1..][j] == keys[j + 1];
    }
    forall j | 0 <= j < |keys[1..]| ensures keys[1..][j] != keys[0] {
      assert keys[1..][j] == keys[j + 1];
    }
  }

  /** A new key in front of distinct keys keeps them distinct. */
  lemma NoRepeatsCons(x: char, rest: seq<char>)
    requires NoRepeats(rest) && x !in rest
    ensures NoRepeats([x] + rest)
  {
    var r := [x] + rest;
    forall i, j | 0 <= i < j < |r| ensures r[i] != r[j] {
      assert r[j] == rest[j - 1];
      if i > 0 {
        assert r[i] == rest[i - 1];
      }
    }
  }

  /** `node.isEndOfWord = false; node.data = null` for the node at `p`. */
  function Unmark<D>(nodes: Nodes<D>, p: string): Nodes<D>
    requires p in nodes
  {
    nodes[p := nodes[p].(isEndOfWord := false, data := None)]
  }

  /** The child under `c` of the node at `p` is cut off. */
  function RemoveChild<D>(nodes: Nodes<D>, p: string, c: char): Nodes<D>
    requires p in nodes
  {
    (nodes - {p + [c]})[p := nodes[p].(keys := Without(nodes[p].keys, c))]
  }

  /** Unmarking a node keeps the shape, drops its word, and may leave it as the one dead leaf. */
  lemma {:induction false} UnmarkKeeps<D>(nodes: Nodes<D>, p: string)
    requires Linked(nodes) && Pruned(nodes, []) && p in nodes
    ensures Linked(Unmark(nodes, p)) && Pruned(Unmark(nodes, p), p)
    ensures Words(Unmark(nodes, p)) == Words(nodes) - {p}
  {
    var m := Unmark(nodes, p);
    assert m.Keys == nodes.Keys;
    assert forall q :: q in m ==> m[q].keys == nodes[q].keys;
  }

  /** The nodes after `RemoveChild`: all but the child, the parent with one key less. */
  lemma {:induction false} RemoveChildNodes<D>(nodes: Nodes<D>, p: string, c: char)
    requires p in nodes && p != p + [c]
    ensures RemoveChild(nodes, p, c).Keys == nodes.Keys - {p + [c]}
    ensures forall q :: q in nodes && q != p && q != p + [c] ==> RemoveChild(nodes, p, c)[q] == nodes[q]
    ensures RemoveChild(nodes, p, c)[p] == nodes[p].(keys := Without(nodes[p].keys, c))
  {
  }

  lemma {:induction false} RemoveChildListed<D>(nodes: Nodes<D>, p: string, c: char)
    requires ParentsListed(nodes) && p in nodes && p + [c] in nodes && nodes[p + [c]].keys == []
    ensures ParentsListed(RemoveChild(nodes, p, c))
  {
    var m := RemoveChild(nodes, p, c);
    RemoveChildNodes(nodes, p, c);
    forall r, d | r + [d] in m ensures r in m && d in m[r].keys {
      AppendOne(p, c, r, d);
      assert r + [d] in nodes;
      assert d in nodes[r].keys;
      assert r != p + [c];
    }
  }

  lemma {:induction false} RemoveChildPresent<D>(nodes: Nodes<D>, p: string, c: char)
    requires ChildrenPresent(nodes) && p in nodes
    ensures ChildrenPresent(RemoveChild(nodes, p, c))
  {
    var m := RemoveChild(nodes, p, c);
    RemoveChildNodes(nodes, p, c);
    forall r, d | r in m && d in m[r].keys ensures r + [d] in m {
      AppendOne(p, c, r, d);
      assert d in nodes[r].keys;
    }
  }

  lemma {:induction false} RemoveChildFormed<D>(nodes: Nodes<D>, p: string, c: char)
    requires NodesWellFormed(nodes) && p in nodes
    ensures NodesWellFormed(RemoveChild(nodes, p, c))
  {
    var m := RemoveChild(nodes, p, c);
    RemoveChildNodes(nodes, p, c);
    WithoutNoRepeats(nodes[p].keys, c);
    forall q | q in m ensures NoRepeats(m[q].keys) && (m[q].isEndOfWord <==> m[q].data.Some?) {
      assert q in nodes;
    }
  }

  lemma {:induction false} RemoveChildPruned<D>(nodes: Nodes<D>, p: string, c: char)
    requires Pruned(nodes, p + [c]) && p in nodes
    ensures Pruned(RemoveChild(nodes, p, c), p)
  {
    var m := RemoveChild(nodes, p, c);
    RemoveChildNodes(nodes, p, c);
    forall q | q in m && q != [] && q != p && m[q].keys == [] ensures m[q].isEndOfWord {
      assert m[q] == nodes[q];
    }
  }

  lemma {:induction false} RemoveChildWords<D>(nodes: Nodes<D>, p: string, c: char)
    requires p in nodes && p + [c] in nodes && !nodes[p + [c]].isEndOfWord
    ensures Words(RemoveChild(nodes, p, c)) == Words(nodes)
  {
    var m := RemoveChild(nodes, p, c);
    RemoveChildNodes(nodes, p, c);
    forall q | q in Words(nodes) ensures q in Words(m) {
      assert q != p + [c];
    }
  }

  /**
   * Cutting off a child that has no child and ends no word keeps the shape
   * and the words; if the child was the only dead leaf, the parent may now
   * be the only one.
   */
  lemma {:induction false} RemoveChildKeeps<D>(nodes: Nodes<D>, p: string, c: char)
    requires Linked(nodes) && Pruned(nodes, p + [c]) && p in nodes && p + [c] in nodes
    requires nodes[p + [c]].keys == [] && !nodes[p + [c]].isEndOfWord
    ensures Linked(RemoveChild(nodes, p, c)) && Pruned(RemoveChild(nodes, p, c), p)
    ensures Words(RemoveChild(nodes, p, c)) == Words(nodes)
  {
    RemoveChildNodes(nodes, p, c);
    RemoveChildListed(nodes, p, c);
    RemoveChildPresent(nodes, p, c);
    RemoveChildFormed(nodes, p, c);
    RemoveChildPruned(nodes, p, c);
    RemoveChildWords(nodes, p, c);
  }

  /** Below a node other than the root, a trie with no dead branch stores a word. */
  lemma {:induction false} WordBelow<D>(nodes: Nodes<D>, p: string) returns (q: string)
    requires Linked(nodes) && Pruned(nodes, []) && p in nodes && p != []
    ensures q in Words(nodes) && IsPrefix(p, q)
    decreases Below(nodes, p)
  {
    if nodes[p].isEndOfWord {
      q := p;
      assert IsPrefix(p, p);
    } else {
      var c := nodes[p].keys[0];
      BelowShrinks(nodes, p, c);
      q := WordBelow(nodes, p + [c]);
      assert q[..|p|] == q[..|p| + 1][..|p|];
    }
  }

  /** In a trie with no dead branch, no word is stored exactly when the root has no child. */
  lemma {:induction false} NoWordsBareRoot<D>(nodes: Nodes<D>)
    requires Linked(nodes) && Pruned(nodes, [])
    ensures Words(nodes) == {} <==> nodes[[]].keys == []
  {
    if nodes[[]].keys != [] {
      var c := nodes[[]].keys[0];
      assert [] + [c] == [c];
      var q := WordBelow(nodes, [c]);
    } else {
      forall q | q in nodes ensures q == [] {
        if q != [] {
          PrefixClosed(nodes, q, 1);
          ParentLast(q[..1]);
          assert false;
        }
      }
      assert forall q :: q in Words(nodes) ==> q == [];
    }
  }

  /** A missing key on the way down means the word is not stored. */
  lemma {:induction false} NotOnPath<D>(nodes: Nodes<D>, w: string, i: nat)
    requires Linked(nodes) && i < |w| && w[..i] in nodes && w[i] !in nodes[w[..i]].keys
    ensures w !in nodes
  {
    TakeNext(w, i);
    if w in nodes {
      PrefixClosed(nodes, w, i + 1);
    }
  }

  /** `q` lies on the path of `w` at or below `p`. */
  ghost predicate Between(p: string, q: string, w: string) {
    IsPrefix(p, q) && IsPrefix(q, w)
  }

  /** Every node off the path of `w` below `p` is left as it was. */
  ghost predicate Untouched<D>(before: Nodes<D>, after: Nodes<D>, p: string, w: string) {
    forall q :: q in before && !Between(p, q, w) ==> q in after && after[q] == before[q]
  }

  /** The path below a child on the way to `w` lies on the path below its parent. */
  lemma {:induction false} BetweenChild(p: string, c: char, w: string)
    requires IsPrefix(p + [c], w)
    ensures Between(p, p, w) && Between(p, p + [c], w)
    ensures forall q :: Between(p + [c], q, w) ==> Between(p, q, w)
  {
    assert (p + [c])[..|p|] == p;
    assert w[..|p|] == w[..|p| + 1][..|p|];
    forall q | Between(p + [c], q, w) ensures Between(p, q, w) {
      assert q[..|p|] == q[..|p| + 1][..|p|];
    }
  }

  /** Leaving the nodes off a child's path alone, or changing only that child and its parent, leaves the nodes off the parent's path alone. */
  lemma {:induction false} UntouchedUp<D>(before: Nodes<D>, after: Nodes<D>, p: string, c: char, w: string)
    requires IsPrefix(p + [c], w) && Untouched(before, after, p + [c], w) && p in after
    ensures Untouched(before, after, p, w)
    ensures Untouched(before, RemoveChild(after, p, c), p, w)
  {
    BetweenChild(p, c, w);
    RemoveChildNodes(after, p, c);
  }

  /**
   * What `_delete` leaves for the node at `p` on the way to `w`: the word
   * is gone, nothing off its path changed, and the node can be cut exactly
   * when the word was there and the node is left bare.
   */
  ghost predicate Deleted<D>(nodes: Nodes<D>, w: string, p: string, m: Nodes<D>, prunable: bool, removed: bool) {
    (removed <==> w in Words(nodes)) &&
    (!removed ==> m == nodes && !prunable) &&
    Linked(m) && Pruned(m, p) && p in m &&
    Words(m) == Words(nodes) - {w} &&
    (prunable <==> removed && m[p].keys == [] && !m[p].isEndOfWord) &&
    m.Keys <= nodes.Keys &&
    Untouched(nodes, m, p, w)
  }

  /**
   * `_delete(node, word, index)` for the node at `p`, the first `i`
   * characters of the word lower-cased, on the nodes `nodes`: the new nodes,
   * whether this node can be cut from its parent, and whether the word was
   * found and unmarked (the `this.size--` of the source).
   */
  method DeleteFrom<D>(nodes: Nodes<D>, word: string, i: nat, p: string) returns (m: Nodes<D>, prunable: bool, removed: bool)
    requires Linked(nodes) && Pruned(nodes, []) && i <= |word| && p == Lower(word)[..i] && p in nodes
    ensures removed <==> Lower(word) in Words(nodes)
    ensures !removed ==> m == nodes && !prunable
    ensures Linked(m) && Pruned(m, p) && p in m
    ensures Words(m) == Words(nodes) - {Lower(word)}
    ensures prunable <==> removed && m[p].keys == [] && !m[p].isEndOfWord
    ensures m.Keys <= nodes.Keys
    ensures Untouched(nodes, m, p, Lower(word))
    decreases |word| - i
  {
    ghost var w := Lower(word);
    if i == |word| {
      m, prunable, removed := DeleteHere(nodes, w, p);
      return;
    }
    var c := LowerChar(word[i]);
    LowerPrefix(word, i);
    if c !in nodes[p].keys {
      NotOnPath(nodes, w, i);
      return nodes, false, false;
    }
    var m1, shouldDeleteChild, found := DeleteFrom(nodes, word, i + 1, p + [c]);
    m, prunable, removed := Unwind(nodes, w, p, c, m1, shouldDeleteChild, found);
  }

  /** The end of the word: `if (!node.isEndOfWord) return false`, else unmark the node. */
  method DeleteHere<D>(nodes: Nodes<D>, ghost w: string, p: string) returns (m: Nodes<D>, prunable: bool, removed: bool)
    requires Linked(nodes) && Pruned(nodes, []) && p == w && p in nodes
    ensures Deleted(nodes, w, p, m, prunable, removed)
  {
    if !nodes[p].isEndOfWord {
      return nodes, false, false;
    }
    UnmarkKeeps(nodes, p);
    m := Unmark(nodes, p);
    return m, m[p].keys == [], true;
  }

  /** After the recursive call: `delete node.children[char]` when the child can be cut. */
  method Unwind<D>(nodes: Nodes<D>, ghost w: string, p: string, c: char, m1: Nodes<D>, shouldDeleteChild: bool, found: bool)
    returns (m: Nodes<D>, prunable: bool, removed: bool)
    requires Linked(nodes) && Pruned(nodes, []) && p in nodes && c in nodes[p].keys && IsPrefix(p + [c], w)
    requires Deleted(nodes, w, p + [c], m1, shouldDeleteChild, found)
    ensures Deleted(nodes, w, p, m, prunable, removed)
  {
    UntouchedUp(nodes, m1, p, c, w);
    removed := found;
    if shouldDeleteChild {
      RemoveChildKeeps(m1, p, c);
      RemoveChildNodes(m1, p, c);
      m := RemoveChild(m1, p, c);
      prunable := |m[p].keys| == 0 && !m[p].isEndOfWord;
    } else {
      m := m1;
      prunable := false;
      assert m[p] == nodes[p];
    }
  }
}
