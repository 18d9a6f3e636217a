/**
 * `Trie` and `TrieNode`: a prefix tree over lower-cased characters.
 *
 * Every node hangs off exactly one parent, so a node is named here by the
 * path of characters that leads to it from the root, and the tree is the map
 * `nodes` from paths to nodes.  A node's `children` object becomes the list
 * `keys` of the characters it has a child under, in the order they were
 * added; the child under `c` of the node at `p` is the node at `p + [c]`.
 */
module TrieNodes {
  import opened Common
  import opened Text

  /** What `node.data = data || word` stores: the caller's data, or the word itself when there is none. */
  datatype Payload<D> = Given(item: D) | TheWord(word: string)

  datatype TrieNode<D> = TrieNode(keys: seq<char>, isEndOfWord: bool, data: Option<Payload<D>>)

  /** `new TrieNode()` */
  function EmptyNode<D>(): TrieNode<D> {
    TrieNode([], false, None)
  }

  type Nodes<D> = map<string, TrieNode<D>>

  function Parent(p: string): string
    requires p != []
  {
    p[..|p| - 1]
  }

  function Last(p: string): char
    requires p != []
  {
    p[|p| - 1]
  }

  /** The words stored: the paths of the nodes marked as the end of a word. */
  ghost function Words<D>(nodes: Nodes<D>): set<string> {
    set p | p in nodes && nodes[p].isEndOfWord
  }

  ghost predicate NoRepeats(keys: seq<char>) {
    forall i, j :: 0 <= i < j < |keys| ==> keys[i] != keys[j]
  }

  /** Every node but the root is listed among its parent's keys. */
  ghost predicate ParentsListed<D>(nodes: Nodes<D>) {
    forall p, c :: p + [c] in nodes ==> p in nodes && c in nodes[p].keys
  }

  /** Every key leads to a node. */
  ghost predicate ChildrenPresent<D>(nodes: Nodes<D>) {
    forall p, c :: p in nodes && c in nodes[p].keys ==> p + [c] in nodes
  }

  /** No key is listed twice, and a node holds data exactly when it ends a word. */
  ghost predicate NodesWellFormed<D>(nodes: Nodes<D>) {
    forall p :: p in nodes ==> NoRepeats(nodes[p].keys) && (nodes[p].isEndOfWord <==> nodes[p].data.Some?)
  }

  /**
   * The shape every trie keeps: the root exists and ends no word (empty words
   * are never inserted); every other node is listed among its parent's keys;
   * every key leads to a node; no key is listed twice; and a node holds data
   * exactly when it ends a word.
   */
  ghost predicate Linked<D>(nodes: Nodes<D>) {
    [] in nodes && !nodes[[]].isEndOfWord &&
    ParentsListed(nodes) && ChildrenPresent(nodes) && NodesWellFormed(nodes)
  }

  /** No dead branch: every leaf other than the root, and other than `except`, ends a word. */
  ghost predicate Pruned<D>(nodes: Nodes<D>, except: string) {
    forall p :: p in nodes && p != [] && p != except && nodes[p].keys == [] ==> nodes[p].isEndOfWord
  }

  /** A new, empty child under `c` of the node at `p`. */
  function AddChild<D>(nodes: Nodes<D>, p: string, c: char): Nodes<D>
    requires p in nodes
  {
    nodes[p := nodes[p].(keys := nodes[p].keys + [c])][p + [c] := EmptyNode()]
  }

  /** A node left as it was, except that children may have been added after the old ones. */
  ghost predicate Grown<D>(before: TrieNode<D>, after: TrieNode<D>) {
    after.isEndOfWord == before.isEndOfWord && after.data == before.data && before.keys <= after.keys
  }

  /**
   * The state of `insert`'s walk after `i` characters of `w`, against the
   * state before the walk: every old node is still there, grown at most; the
   * new nodes are unmarked prefixes of `w` no longer than `i`.
   */
  ghost predicate Walked<D>(before: Nodes<D>, nodes: Nodes<D>, w: string, i: nat) {
    i <= |w| && Linked(nodes) && w[..i] in nodes && Pruned(nodes, w[..i]) &&
    (forall q :: q in before ==> q in nodes && Grown(before[q], nodes[q])) &&
    (forall q :: q in nodes && q !in before ==> !nodes[q].isEndOfWord && OnPath(q, w, i))
  }

  /** `q` is one of the first `i + 1` prefixes of `w`. */
  ghost predicate OnPath(q: string, w: string, i: nat) {
    |q| <= i && |q| <= |w| && q == w[..|q|]
  }

  /** A path is its parent with its last character appended. */
  lemma {:induction false} ParentLast(q: string)
    requires q != []
    ensures Parent(q) + [Last(q)] == q
  {
  }

  /** Appending one character is one-to-one. */
  lemma {:induction false} AppendOne(p: string, c: char, r: string, d: char)
    ensures r + [d] == p + [c] <==> r == p && d == c
  {
    if r + [d] == p + [c] {
      assert |r| == |p|;
      assert r == (r + [d])[..|r|];
      assert d == (r + [d])[|r|];
    }
  }

  /** The nodes of `AddChild`: the old ones and the new child. */
  lemma {:induction false} AddChildNodes<D>(nodes: Nodes<D>, p: string, c: char)
    requires p in nodes
    ensures AddChild(nodes, p, c).Keys == nodes.Keys + {p + [c]}
    ensures forall r :: r in nodes && r != p && r != p + [c] ==> AddChild(nodes, p, c)[r] == nodes[r]
  {
  }

  lemma {:induction false} AddChildListed<D>(nodes: Nodes<D>, p: string, c: char)
    requires ParentsListed(nodes) && p in nodes && p + [c] !in nodes
    ensures ParentsListed(AddChild(nodes, p, c))
  {
    var n := AddChild(nodes, p, c);
    AddChildNodes(nodes, p, c);
    forall r, d | r + [d] in n ensures r in n && d in n[r].keys {
      AppendOne(p, c, r, d);
      if r + [d] != p + [c] {
        assert r in nodes && d in nodes[r].keys;
        if r == p {
          assert n[p].keys == nodes[p].keys + [c];
        }
      }
    }
  }

  lemma {:induction false} AddChildPresent<D>(nodes: Nodes<D>, p: string, c: char)
    requires ChildrenPresent(nodes) && p in nodes && p + [c] !in nodes
    ensures ChildrenPresent(AddChild(nodes, p, c))
  {
    var n := AddChild(nodes, p, c);
    AddChildNodes(nodes, p, c);
    forall r, d | r in n && d in n[r].keys ensures r + [d] in n {
      if r == p && d != c {
        assert d in nodes[p].keys;
      }
    }
  }

  lemma {:induction false} AddChildFormed<D>(nodes: Nodes<D>, p: string, c: char)
    requires NodesWellFormed(nodes) && p in nodes && c !in nodes[p].keys
    ensures NodesWellFormed(AddChild(nodes, p, c))
  {
    AddChildNodes(nodes, p, c);
  }

  /** A new, unmarked child adds no word. */
  lemma {:induction false} AddChildWords<D>(nodes: Nodes<D>, p: string, c: char)
    requires p in nodes && p + [c] !in nodes
    ensures Words(AddChild(nodes, p, c)) == Words(nodes)
  {
    var n := AddChild(nodes, p, c);
    AddChildNodes(nodes, p, c);
    forall r | r in Words(n) ensures r in Words(nodes) {
      assert r != p + [c];
    }
  }

  /** Adding a missing child keeps the shape, the words, and every other node. */
  lemma {:induction false} AddChildLinked<D>(nodes: Nodes<D>, p: string, c: char)
    requires Linked(nodes) && p in nodes && c !in nodes[p].keys
    ensures p + [c] !in nodes
    ensures Linked(AddChild(nodes, p, c))
    ensures Words(AddChild(nodes, p, c)) == Words(nodes)
    ensures Pruned(nodes, p) ==> Pruned(AddChild(nodes, p, c), p + [c])
  {
    AddChildNodes(nodes, p, c);
    AddChildListed(nodes, p, c);
    AddChildPresent(nodes, p, c);
    AddChildFormed(nodes, p, c);
    AddChildWords(nodes, p, c);
  }


  /** One step of `insert`'s walk along an existing child. */
  lemma {:induction false} WalkFollow<D>(before: Nodes<D>, nodes: Nodes<D>, w: string, i: nat)
    requires Walked(before, nodes, w, i) && i < |w| && w[i] in nodes[w[..i]].keys
    ensures Walked(before, nodes, w, i + 1)
  {
    TakeNext(w, i);
  }

  /** Old nodes survive a new child, grown at most. */
  lemma {:induction false} AddChildGrows<D>(before: Nodes<D>, nodes: Nodes<D>, p: string, c: char)
    requires p in nodes && p + [c] !in nodes
    requires forall q :: q in before ==> q in nodes && Grown(before[q], nodes[q])
    ensures forall q :: q in before ==> q in AddChild(nodes, p, c) && Grown(before[q], AddChild(nodes, p, c)[q])
  {
    var n := AddChild(nodes, p, c);
    AddChildNodes(nodes, p, c);
    forall q | q in before ensures q in n && Grown(before[q], n[q]) {
      if q == p {
        assert nodes[p].keys <= n[p].keys;
      }
    }
  }

  /** The child made on the walk is an unmarked node on the word's path. */
  lemma {:induction false} AddChildNew<D>(before: Nodes<D>, nodes: Nodes<D>, w: string, i: nat)
    requires i < |w| && w[..i] in nodes
    requires forall q :: q in nodes && q !in before ==> !nodes[q].isEndOfWord && OnPath(q, w, i)
    ensures forall q :: q in AddChild(nodes, w[..i], w[i]) && q !in before ==>
      !AddChild(nodes, w[..i], w[i])[q].isEndOfWord && OnPath(q, w, i + 1)
  {
    var n := AddChild(nodes, w[..i], w[i]);
    TakeNext(w, i);
    AddChildNodes(nodes, w[..i], w[i]);
    forall q | q in n && q !in before ensures !n[q].isEndOfWord && OnPath(q, w, i + 1) {
      if q == w[..i + 1] {
        assert n[q] == EmptyNode();
      } else {
        assert q in nodes;
      }
    }
  }

  /** One step of `insert`'s walk that makes the missing child first. */
  lemma {:induction false} WalkAdd<D>(before: Nodes<D>, nodes: Nodes<D>, w: string, i: nat)
    requires Walked(before, nodes, w, i) && i < |w| && w[i] !in nodes[w[..i]].keys
    ensures Walked(before, AddChild(nodes, w[..i], w[i]), w, i + 1)
  {
    var p, c := w[..i], w[i];
    TakeNext(w, i);
    AddChildLinked(nodes, p, c);
    AddChildNodes(nodes, p, c);
    AddChildGrows(before, nodes, p, c);
    AddChildNew(before, nodes, w, i);
  }

  /** A walk that adds only unmarked nodes leaves the words as they were. */
  lemma {:induction false} WalkedWords<D>(before: Nodes<D>, nodes: Nodes<D>, w: string, i: nat)
    requires Walked(before, nodes, w, i)
    ensures Words(nodes) == Words(before)
  {
  }

  /** The end of `insert`: the node reached is marked as ending a word and given the data. */
  function Mark<D>(nodes: Nodes<D>, w: string, stored: Payload<D>): Nodes<D>
    requires w in nodes
  {
    nodes[w := nodes[w].(isEndOfWord := true, data := Some(stored))]
  }

  /** Marking the end of the walk stores the word, and only it. */
  lemma {:induction false} MarkWord<D>(nodes: Nodes<D>, w: string, stored: Payload<D>)
    requires Linked(nodes) && w != [] && w in nodes && Pruned(nodes, w)
    ensures Linked(Mark(nodes, w, stored)) && Pruned(Mark(nodes, w, stored), [])
    ensures Words(Mark(nodes, w, stored)) == Words(nodes) + {w}
    ensures Mark(nodes, w, stored).Keys == nodes.Keys
  {
    var n := Mark(nodes, w, stored);
    assert Words(n) == Words(nodes) + {w};
  }

  /** The walk reaches the word's node, which ends a word exactly when the word was stored already. */
  lemma {:induction false} WalkedEnd<D>(before: Nodes<D>, nodes: Nodes<D>, w: string)
    requires Walked(before, nodes, w, |w|)
    ensures w in nodes && (nodes[w].isEndOfWord <==> w in Words(before))
    ensures Words(nodes) == Words(before)
    ensures forall q :: q in nodes && q !in before ==> IsPrefix(q, w)
  {
    assert w[..|w|] == w;
    WalkedWords(before, nodes, w, |w|);
  }

  /** Adding an element grows a set by one exactly when the element is new. */
  lemma AddCount<T>(s: set<T>, x: T)
    ensures |s + {x}| == |s| + (if x in s then 0 else 1)
  {
    if x in s {
      assert s + {x} == s;
    } else {
      AddFresh(s, x);
    }
  }

  /** After `insert`, the trie keeps its shape and holds the word besides the old ones. */
  lemma {:induction false} InsertedWords<D>(before: Nodes<D>, nodes: Nodes<D>, w: string, stored: Payload<D>)
    requires Walked(before, nodes, w, |w|) && w != []
    ensures w in nodes && (nodes[w].isEndOfWord <==> w in Words(before))
    ensures Linked(Mark(nodes, w, stored)) && Pruned(Mark(nodes, w, stored), [])
    ensures Words(Mark(nodes, w, stored)) == Words(before) + {w}
    ensures |Words(Mark(nodes, w, stored))| == |Words(before)| + (if w in Words(before) then 0 else 1)
  {
    WalkedEnd(before, nodes, w);
    assert w[..|w|] == w;
    MarkWord(nodes, w, stored);
    AddCount(Words(before), w);
  }

  /** After `insert`, the word holds the data; old nodes are kept; new nodes lie on the word's path. */
  lemma {:induction false} InsertedFrame<D>(before: Nodes<D>, nodes: Nodes<D>, w: string, stored: Payload<D>)
    requires Walked(before, nodes, w, |w|) && w != []
    ensures w in nodes
    ensures Mark(nodes, w, stored)[w].data == Some(stored)
    ensures forall q :: q in Mark(nodes, w, stored) && q !in before ==> IsPrefix(q, w)
    ensures forall q :: q in before && q != w ==> q in Mark(nodes, w, stored) && Grown(before[q], Mark(nodes, w, stored)[q])
  {
    WalkedEnd(before, nodes, w);
  }

  /** Every prefix of a node's path is a node. */
  lemma {:induction false} PrefixClosed<D>(nodes: Nodes<D>, q: string, k: nat)
    requires Linked(nodes) && q in nodes && k <= |q|
    ensures q[..k] in nodes
    decreases |q|
  {
    if k < |q| {
      ParentLast(q);
      PrefixClosed(nodes, Parent(q), k);
      assert Parent(q)[..k] == q[..k];
    } else {
      assert q[..k] == q;
    }
  }

  /** `Lower` of a prefix is the prefix of `Lower`. */
  lemma {:induction false} LowerPrefix(s: string, i: nat)
    requires i < |s|
    ensures Lower(s)[..i + 1] == Lower(s)[..i] + [LowerChar(s[i])]
  {
    var a, b := Lower(s)[..i + 1], Lower(s)[..i] + [LowerChar(s[i])];
    assert |a| == |b|;
    forall k | 0 <= k < |a| ensures a[k] == b[k] {
    }
  }

  /** Every prefix of a stored word is a node, so `startsWith` holds for it. */
  lemma {:induction false} StoredPrefixes<D>(nodes: Nodes<D>, w: string, k: nat)
    requires Linked(nodes) && w in Words(nodes) && k <= |w|
    ensures w[..k] in nodes
  {
    PrefixClosed(nodes, w, k);
  }
}
