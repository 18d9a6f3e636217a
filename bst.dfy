/**
 * The binary search tree of `algorithms/search/binarySearchTree.js`.
 *
 * The tree compares elements by the sign of `key(a) - key(b)`, the form
 * of both comparators the bot uses (the default one on `id`, and the
 * price difference of the example).  Nodes are values: `_insert` and
 * `_delete` return the rebuilt subtree, which is what the source's
 * `node.left = this._insert(node.left, data)` amounts to, as no node is
 * ever shared.  The tree object itself is a class whose `root` and `size`
 * fields the methods update, with `size` adjusted inside the recursion as
 * the source does.
 */
module SearchTrees {
  import opened Common

  datatype Tree<T> = Leaf | Node(left: Tree<T>, data: T, right: Tree<T>)

  /** The elements stored in the tree. */
  ghost function Elems<T>(t: Tree<T>): set<T> {
    match t
    case Leaf => {}
    case Node(l, d, r) => Elems(l) + {d} + Elems(r)
  }

  /** The number of nodes. */
  function Size<T>(t: Tree<T>): (n: nat)
    ensures n == 0 <==> t == Leaf
  {
    match t
    case Leaf => 0
    case Node(l, _, r) => Size(l) + 1 + Size(r)
  }

  /** BST order: everything on the left is smaller than the node, everything on the right larger. */
  ghost predicate Ordered<T>(t: Tree<T>, key: T -> real) {
    match t
    case Leaf => true
    case Node(l, d, r) =>
      Ordered(l, key) && Ordered(r, key) &&
      (forall y :: y in Elems(l) ==> key(y) < key(d)) &&
      (forall y :: y in Elems(r) ==> key(y) > key(d))
  }

  /** The stored elements that compare equal to `x`. */
  ghost function Matching<T>(t: Tree<T>, x: T, key: T -> real): set<T> {
    set y | y in Elems(t) && key(y) == key(x)
  }

  /** In an ordered tree no two stored elements compare equal. */
  lemma {:induction false} OrderedUnique<T>(t: Tree<T>, key: T -> real, y: T, z: T)
    requires Ordered(t, key) && y in Elems(t) && z in Elems(t) && key(y) == key(z)
    ensures y == z
  {
    match t
    case Node(l, d, r) =>
      if y in Elems(l) && z in Elems(l) {
        OrderedUnique(l, key, y, z);
      } else if y in Elems(r) && z in Elems(r) {
        OrderedUnique(r, key, y, z);
      }
  }

  // ---------------------------------------------------------------------
  // search
  // ---------------------------------------------------------------------

  /** `_search(node, target)`: follow the comparisons down to an equal element, or to `null`. */
  function Find<T>(t: Tree<T>, target: T, key: T -> real): (r: Option<T>)
    ensures r.Some? ==> r.value in Elems(t) && key(r.value) == key(target)
  {
    match t
    case Leaf => None
    case Node(l, d, r) =>
      var comparison := key(target) - key(d);
      if comparison == 0.0 then Some(d)
      else if comparison < 0.0 then Find(l, target, key)
      else Find(r, target, key)
  }

  /** In an ordered tree the search misses only when no stored element compares equal. */
  lemma {:induction false} FindComplete<T>(t: Tree<T>, target: T, key: T -> real)
    requires Ordered(t, key)
    ensures Find(t, target, key).None? <==> Matching(t, target, key) == {}
  {
    match t
    case Leaf =>
    case Node(l, d, r) =>
      FindComplete(l, target, key);
      FindComplete(r, target, key);
      var comparison := key(target) - key(d);
      if comparison < 0.0 {
        assert Matching(t, target, key) == Matching(l, target, key);
      } else if comparison > 0.0 {
        assert Matching(t, target, key) == Matching(r, target, key);
      } else {
        assert d in Matching(t, target, key);
      }
  }

  // ---------------------------------------------------------------------
  // insert
  // ---------------------------------------------------------------------

  /** `_insert(node, data)`: a new leaf where the search ends, or the equal element replaced. */
  function InsertTree<T>(t: Tree<T>, data: T, key: T -> real): Tree<T> {
    match t
    case Leaf => Node(Leaf, data, Leaf)
    case Node(l, d, r) =>
      var comparison := key(data) - key(d);
      if comparison < 0.0 then Node(InsertTree(l, data, key), d, r)
      else if comparison > 0.0 then Node(l, d, InsertTree(r, data, key))
      else Node(l, data, r)
  }

  /** Inserting adds only `data`. */
  lemma {:induction false} InsertAddsOnly<T>(t: Tree<T>, data: T, key: T -> real)
    ensures Elems(InsertTree(t, data, key)) <= Elems(t) + {data}
  {
    match t
    case Leaf =>
    case Node(l, d, r) =>
      InsertAddsOnly(l, data, key);
      InsertAddsOnly(r, data, key);
  }

  /** Inserting keeps BST order. */
  lemma {:induction false} InsertOrdered<T>(t: Tree<T>, data: T, key: T -> real)
    requires Ordered(t, key)
    ensures Ordered(InsertTree(t, data, key), key)
  {
    match t
    case Leaf =>
    case Node(l, d, r) =>
      var comparison := key(data) - key(d);
      if comparison < 0.0 {
        InsertOrdered(l, data, key);
        InsertAddsOnly(l, data, key);
      } else if comparison > 0.0 {
        InsertOrdered(r, data, key);
        InsertAddsOnly(r, data, key);
      }
  }

  /** Inserting grows the tree by a node exactly when the search for `data` misses. */
  lemma {:induction false} InsertSize<T>(t: Tree<T>, data: T, key: T -> real)
    ensures Size(InsertTree(t, data, key)) == Size(t) + (if Find(t, data, key).None? then 1 else 0)
  {
    match t
    case Leaf =>
    case Node(l, d, r) =>
      InsertSize(l, data, key);
      InsertSize(r, data, key);
  }

  /** On an ordered tree, `data` takes the place of the element equal to it, if any. */
  lemma {:induction false} InsertElems<T>(t: Tree<T>, data: T, key: T -> real)
    requires Ordered(t, key)
    ensures Elems(InsertTree(t, data, key)) == Elems(t) - Matching(t, data, key) + {data}
  {
    match t
    case Leaf =>
    case Node(l, d, r) =>
      var comparison := key(data) - key(d);
      if comparison < 0.0 {
        InsertElems(l, data, key);
        assert Matching(t, data, key) == Matching(l, data, key);
      } else if comparison > 0.0 {
        InsertElems(r, data, key);
        assert Matching(t, data, key) == Matching(r, data, key);
      } else {
        assert Matching(t, data, key) == {d};
      }
  }

  // ---------------------------------------------------------------------
  // delete
  // ---------------------------------------------------------------------

  /** `_findMin(node)`: the leftmost element. */
  function MinOf<T>(t: Tree<T>): (m: T)
    requires t.Node?
    ensures m in Elems(t)
  {
    if t.left.Leaf? then t.data else MinOf(t.left)
  }

  /** The leftmost element of an ordered tree has the least key. */
  lemma {:induction false} MinOfLeast<T>(t: Tree<T>, key: T -> real)
    requires t.Node? && Ordered(t, key)
    ensures forall y :: y in Elems(t) ==> key(MinOf(t)) <= key(y)
  {
    if t.left.Node? {
      MinOfLeast(t.left, key);
    }
  }

  /**
   * `_delete(node, target)`: remove the node equal to `target`; a node
   * with two children takes the data of its in-order successor, which is
   * then deleted from the right subtree.
   */
  function DeleteTree<T>(t: Tree<T>, target: T, key: T -> real): Tree<T> {
    match t
    case Leaf => Leaf
    case Node(l, d, r) =>
      var comparison := key(target) - key(d);
      if comparison < 0.0 then Node(DeleteTree(l, target, key), d, r)
      else if comparison > 0.0 then Node(l, d, DeleteTree(r, target, key))
      else if l.Leaf? && r.Leaf? then Leaf
      else if l.Leaf? then r
      else if r.Leaf? then l
      else
        var successor := MinOf(r);
        Node(l, successor, DeleteTree(r, successor, key))
  }

  /** Deleting removes at most some elements. */
  lemma {:induction false} DeleteRemovesOnly<T>(t: Tree<T>, target: T, key: T -> real)
    ensures Elems(DeleteTree(t, target, key)) <= Elems(t)
  {
    match t
    case Leaf =>
    case Node(l, d, r) =>
      DeleteRemovesOnly(l, target, key);
      DeleteRemovesOnly(r, target, key);
      if l.Node? && r.Node? {
        DeleteRemovesOnly(r, MinOf(r), key);
      }
  }

  /**
   * Deleting from an ordered tree keeps it ordered, removes exactly the
   * element equal to `target`, and shrinks the tree by one node exactly
   * when the search for `target` hits.
   */
  lemma {:induction false} DeleteCorrect<T>(t: Tree<T>, target: T, key: T -> real)
    requires Ordered(t, key)
    ensures Ordered(DeleteTree(t, target, key), key)
    ensures Elems(DeleteTree(t, target, key)) == Elems(t) - Matching(t, target, key)
    ensures Size(DeleteTree(t, target, key)) == Size(t) - (if Find(t, target, key).Some? then 1 else 0)
    decreases t, 1
  {
    match t
    case Leaf =>
    case Node(l, d, r) =>
      var comparison := key(target) - key(d);
      if comparison < 0.0 {
        DeleteLeft(t, target, key);
      } else if comparison > 0.0 {
        DeleteRight(t, target, key);
      } else if l.Node? && r.Node? {
        DeleteSuccessor(t, key);
        DeleteHit(t, target, key);
      } else {
        DeleteHit(t, target, key);
      }
  }

  /** A target below the node is deleted from the left subtree. */
  lemma DeleteLeft<T>(t: Tree<T>, target: T, key: T -> real)
    requires t.Node? && Ordered(t, key) && key(target) - key(t.data) < 0.0
    ensures Ordered(DeleteTree(t, target, key), key)
    ensures Elems(DeleteTree(t, target, key)) == Elems(t) - Matching(t, target, key)
    ensures Size(DeleteTree(t, target, key)) == Size(t) - (if Find(t, target, key).Some? then 1 else 0)
    decreases t, 0
  {
    var l, d, r := t.left, t.data, t.right;
    var l' := DeleteTree(l, target, key);
    DeleteCorrect(l, target, key);
    MatchingBelow(t, target, key);
    assert DeleteTree(t, target, key) == Node(l', d, r);
    assert Elems(l') <= Elems(l);
    assert Find(t, target, key) == Find(l, target, key);
  }

  /** A target above the node is deleted from the right subtree. */
  lemma DeleteRight<T>(t: Tree<T>, target: T, key: T -> real)
    requires t.Node? && Ordered(t, key) && key(target) - key(t.data) > 0.0
    ensures Ordered(DeleteTree(t, target, key), key)
    ensures Elems(DeleteTree(t, target, key)) == Elems(t) - Matching(t, target, key)
    ensures Size(DeleteTree(t, target, key)) == Size(t) - (if Find(t, target, key).Some? then 1 else 0)
    decreases t, 0
  {
    var l, d, r := t.left, t.data, t.right;
    var r' := DeleteTree(r, target, key);
    DeleteCorrect(r, target, key);
    MatchingAbove(t, target, key);
    assert DeleteTree(t, target, key) == Node(l, d, r');
    assert Elems(r') <= Elems(r);
    assert Find(t, target, key) == Find(r, target, key);
  }

  /** A target below the node can only match on the left. */
  lemma MatchingBelow<T>(t: Tree<T>, target: T, key: T -> real)
    requires t.Node? && Ordered(t, key) && key(target) < key(t.data)
    ensures Matching(t, target, key) == Matching(t.left, target, key)
  {
    var l, d, r := t.left, t.data, t.right;
    assert Elems(t) == Elems(l) + {d} + Elems(r);
    forall y | y in Matching(t, target, key) ensures y in Elems(l) {
      assert key(y) == key(target);
    }
  }

  /** A target above the node can only match on the right. */
  lemma MatchingAbove<T>(t: Tree<T>, target: T, key: T -> real)
    requires t.Node? && Ordered(t, key) && key(target) > key(t.data)
    ensures Matching(t, target, key) == Matching(t.right, target, key)
  {
    var l, d, r := t.left, t.data, t.right;
    assert Elems(t) == Elems(l) + {d} + Elems(r);
    forall y | y in Matching(t, target, key) ensures y in Elems(r) {
      assert key(y) == key(target);
    }
  }

  /** A target equal to the node removes just the node. */
  lemma DeleteHit<T>(t: Tree<T>, target: T, key: T -> real)
    requires t.Node? && Ordered(t, key) && key(target) == key(t.data)
    requires t.left.Node? && t.right.Node? ==>
      var m := MinOf(t.right);
      var t' := Node(t.left, m, DeleteTree(t.right, m, key));
      Ordered(t', key) && Elems(t') == Elems(t) - {t.data} && Size(t') == Size(t) - 1
    ensures Ordered(DeleteTree(t, target, key), key)
    ensures Elems(DeleteTree(t, target, key)) == Elems(t) - Matching(t, target, key)
    ensures Size(DeleteTree(t, target, key)) == Size(t) - (if Find(t, target, key).Some? then 1 else 0)
  {
    forall y | y in Matching(t, target, key) ensures y == t.data {
      OrderedUnique(t, key, y, t.data);
    }
    assert Matching(t, target, key) == {t.data};
  }

  /** The two-child case: the successor moves up, and the rest of the right subtree stays to its right. */
  lemma DeleteSuccessor<T>(t: Tree<T>, key: T -> real)
    requires t.Node? && t.left.Node? && t.right.Node? && Ordered(t, key)
    ensures var m := MinOf(t.right);
      var t' := Node(t.left, m, DeleteTree(t.right, m, key));
      Ordered(t', key) && Elems(t') == Elems(t) - {t.data} && Size(t') == Size(t) - 1
    decreases t, 0
  {
    var l, d, r := t.left, t.data, t.right;
    var m := MinOf(r);
    var r' := DeleteTree(r, m, key);
    DeleteCorrect(r, m, key);
    MinRemoved(r, r', key);
    SuccessorOrdered(l, d, r, m, r', key);
    assert d !in Elems(l) && d !in Elems(r);
  }

  /** Deleting the least element of an ordered tree removes exactly that element, which no other element ties. */
  lemma MinRemoved<T>(r: Tree<T>, r': Tree<T>, key: T -> real)
    requires r.Node? && Ordered(r, key)
    requires Elems(r') == Elems(r) - Matching(r, MinOf(r), key)
    requires Size(r') == Size(r) - (if Find(r, MinOf(r), key).Some? then 1 else 0)
    ensures MinOf(r) in Elems(r) && Elems(r') == Elems(r) - {MinOf(r)} && Size(r') == Size(r) - 1
    ensures forall y :: y in Elems(r) ==> key(MinOf(r)) <= key(y)
    ensures forall y :: y in Elems(r) && key(y) == key(MinOf(r)) ==> y == MinOf(r)
  {
    var m := MinOf(r);
    MinOfLeast(r, key);
    FindComplete(r, m, key);
    forall y | y in Elems(r) && key(y) == key(m) ensures y == m {
      OrderedUnique(r, key, y, m);
    }
    assert m in Matching(r, m, key);
    assert Matching(r, m, key) == {m};
  }

  /** The successor sits between the left subtree and what is left of the right one. */
  lemma SuccessorOrdered<T>(l: Tree<T>, d: T, r: Tree<T>, m: T, r': Tree<T>, key: T -> real)
    requires Ordered(Node(l, d, r), key) && m in Elems(r) && Ordered(r', key)
    requires forall y :: y in Elems(r) ==> key(m) <= key(y)
    requires Elems(r') == Elems(r) - {m}
    requires forall y :: y in Elems(r) && key(y) == key(m) ==> y == m
    ensures Ordered(Node(l, m, r'), key)
  {
  }

  // ---------------------------------------------------------------------
  // traversals
  // ---------------------------------------------------------------------

  /** `_inOrder(node, result)`: left subtree, node, right subtree, appended to the result. */
  function InOrderOf<T>(t: Tree<T>): seq<T> {
    match t
    case Leaf => []
    case Node(l, d, r) => InOrderOf(l) + [d] + InOrderOf(r)
  }

  /** `_preOrder(node, result)`: node, left subtree, right subtree. */
  function PreOrderOf<T>(t: Tree<T>): seq<T> {
    match t
    case Leaf => []
    case Node(l, d, r) => [d] + PreOrderOf(l) + PreOrderOf(r)
  }

  /** `_postOrder(node, result)`: left subtree, right subtree, node. */
  function PostOrderOf<T>(t: Tree<T>): seq<T> {
    match t
    case Leaf => []
    case Node(l, d, r) => PostOrderOf(l) + PostOrderOf(r) + [d]
  }

  /** Keys strictly increase along the sequence. */
  ghost predicate Increasing<T>(s: seq<T>, key: T -> real) {
    forall i, j :: 0 <= i < j < |s| ==> key(s[i]) < key(s[j])
  }

  /** The in-order listing holds exactly the stored elements. */
  lemma {:induction false} InOrderElems<T>(t: Tree<T>)
    ensures forall y :: y in InOrderOf(t) <==> y in Elems(t)
  {
    match t
    case Leaf =>
    case Node(l, d, r) =>
      InOrderElems(l);
      InOrderElems(r);
  }

  /** An element listed in order is stored in the tree. */
  lemma {:induction false} InOrderMember<T>(t: Tree<T>, y: T)
    requires y in InOrderOf(t)
    ensures y in Elems(t)
  {
    match t
    case Node(l, d, r) =>
      if y in InOrderOf(l) {
        InOrderMember(l, y);
      } else if y in InOrderOf(r) {
        InOrderMember(r, y);
      }
  }

  /** The three traversals list the same nodes, one entry per node. */
  lemma {:induction false} TraversalsCorrect<T>(t: Tree<T>)
    ensures |InOrderOf(t)| == Size(t)
    ensures multiset(PreOrderOf(t)) == multiset(InOrderOf(t)) == multiset(PostOrderOf(t))
  {
    match t
    case Leaf =>
    case Node(l, d, r) =>
      TraversalsCorrect(l);
      TraversalsCorrect(r);
      calc {
        multiset(PreOrderOf(t));
        multiset{d} + multiset(PreOrderOf(l)) + multiset(PreOrderOf(r));
        multiset(InOrderOf(l)) + multiset{d} + multiset(InOrderOf(r));
        multiset(InOrderOf(t));
      }
      calc {
        multiset(PostOrderOf(t));
        multiset(PostOrderOf(l)) + multiset(PostOrderOf(r)) + multiset{d};
        multiset(InOrderOf(l)) + multiset{d} + multiset(InOrderOf(r));
      }
  }

  /** Every element listed on one side of a node compares on that side of it. */
  lemma SidesOfNode<T>(l: Tree<T>, d: T, r: Tree<T>, key: T -> real)
    requires Ordered(Node(l, d, r), key)
    ensures forall y :: y in InOrderOf(l) ==> key(y) < key(d)
    ensures forall y :: y in InOrderOf(r) ==> key(y) > key(d)
  {
    forall y | y in InOrderOf(l) ensures key(y) < key(d) {
      InOrderMember(l, y);
    }
    forall y | y in InOrderOf(r) ensures key(y) > key(d) {
      InOrderMember(r, y);
    }
  }

  /** On an ordered tree the in-order listing is in strictly increasing order. */
  lemma {:induction false} InOrderIncreasing<T>(t: Tree<T>, key: T -> real)
    requires Ordered(t, key)
    ensures Increasing(InOrderOf(t), key)
  {
    match t
    case Leaf =>
    case Node(l, d, r) =>
      InOrderIncreasing(l, key);
      InOrderIncreasing(r, key);
      SidesOfNode(l, d, r, key);
      IncreasingJoin(InOrderOf(l), d, InOrderOf(r), key);
  }

  /** Two increasing runs joined through a middle element above the first and below the second. */
  lemma IncreasingJoin<T>(a: seq<T>, d: T, b: seq<T>, key: T -> real)
    requires Increasing(a, key) && Increasing(b, key)
    requires forall y :: y in a ==> key(y) < key(d)
    requires forall y :: y in b ==> key(y) > key(d)
    ensures Increasing(a + [d] + b, key)
  {
    var s := a + [d] + b;
    forall i, j | 0 <= i < j < |s| ensures key(s[i]) < key(s[j]) {
      if j < |a| {
        assert s[i] == a[i] && s[j] == a[j];
      } else if i < |a| {
        assert s[i] == a[i] && a[i] in a;
        if j > |a| {
          assert s[j] == b[j - |a| - 1] && b[j - |a| - 1] in b;
        }
      } else if i == |a| {
        assert s[j] == b[j - |a| - 1] && b[j - |a| - 1] in b;
      } else {
        assert s[i] == b[i - |a| - 1] && s[j] == b[j - |a| - 1];
      }
    }
  }

  // ---------------------------------------------------------------------
  // rangeSearch
  // ---------------------------------------------------------------------

  /**
   * `_rangeSearch(node, min, max, result)`: visit the left subtree only
   * when the node is above `min`, the right one only when it is below
   * `max`, and list the node when it lies between them.
   */
  function RangeSearchOf<T>(t: Tree<T>, min: T, max: T, key: T -> real): seq<T> {
    match t
    case Leaf => []
    case Node(l, d, r) =>
      var comparisonMin := key(d) - key(min);
      var comparisonMax := key(d) - key(max);
      (if comparisonMin > 0.0 then RangeSearchOf(l, min, max, key) else []) +
      (if comparisonMin >= 0.0 && comparisonMax <= 0.0 then [d] else []) +
      (if comparisonMax < 0.0 then RangeSearchOf(r, min, max, key) else [])
  }

  /** The elements of `s` whose key lies between those of `min` and `max`, in order. */
  function Between<T>(s: seq<T>, min: T, max: T, key: T -> real): seq<T> {
    if s == [] then []
    else (if key(min) <= key(s[0]) <= key(max) then [s[0]] else []) + Between(s[1..], min, max, key)
  }

  lemma {:induction false} BetweenAppend<T>(a: seq<T>, b: seq<T>, min: T, max: T, key: T -> real)
    ensures Between(a + b, min, max, key) == Between(a, min, max, key) + Between(b, min, max, key)
  {
    if a == [] {
      assert a + b == b;
    } else {
      var ab := a + b;
      assert ab[0] == a[0] && ab[1..] == a[1..] + b;
      BetweenAppend(a[1..], b, min, max, key);
      var head := if key(min) <= key(a[0]) <= key(max) then [a[0]] else [];
      calc {
        Between(ab, min, max, key);
        head + Between(a[1..] + b, min, max, key);
        head + (Between(a[1..], min, max, key) + Between(b, min, max, key));
        (head + Between(a[1..], min, max, key)) + Between(b, min, max, key);
      }
    }
  }

  /** No element of `s` lies in the range, so none is listed. */
  lemma {:induction false} BetweenNone<T>(s: seq<T>, min: T, max: T, key: T -> real)
    requires forall y :: y in s ==> !(key(min) <= key(y) <= key(max))
    ensures Between(s, min, max, key) == []
  {
    if s != [] {
      assert s[0] in s;
      BetweenNone(s[1..], min, max, key);
    }
  }

  /**
   * On an ordered tree, `rangeSearch(min, max)` lists exactly the stored
   * elements whose key lies between those of `min` and `max`, in
   * increasing order: the in-order listing filtered to the range.
   */
  lemma {:induction false} RangeSearchCorrect<T>(t: Tree<T>, min: T, max: T, key: T -> real)
    requires Ordered(t, key)
    ensures RangeSearchOf(t, min, max, key) == Between(InOrderOf(t), min, max, key)
  {
    match t
    case Leaf =>
    case Node(l, d, r) =>
      RangeSearchCorrect(l, min, max, key);
      RangeSearchCorrect(r, min, max, key);
      RangeNode(l, d, r, min, max, key);
  }

  /** One node of the range search, given the two subtrees' results. */
  lemma RangeNode<T>(l: Tree<T>, d: T, r: Tree<T>, min: T, max: T, key: T -> real)
    requires Ordered(Node(l, d, r), key)
    requires RangeSearchOf(l, min, max, key) == Between(InOrderOf(l), min, max, key)
    requires RangeSearchOf(r, min, max, key) == Between(InOrderOf(r), min, max, key)
    ensures RangeSearchOf(Node(l, d, r), min, max, key) == Between(InOrderOf(Node(l, d, r)), min, max, key)
  {
    var a, b := InOrderOf(l), InOrderOf(r);
    SkippedSides(l, d, r, min, max, key);
    BetweenOne(d, min, max, key);
    var left := if key(d) - key(min) > 0.0 then RangeSearchOf(l, min, max, key) else [];
    var right := if key(d) - key(max) < 0.0 then RangeSearchOf(r, min, max, key) else [];
    assert left == Between(a, min, max, key);
    assert right == Between(b, min, max, key);
    assert RangeSearchOf(Node(l, d, r), min, max, key) == left + Between([d], min, max, key) + right;
    BetweenAround(a, d, b, min, max, key);
  }

  /** The sides the search skips hold nothing in range. */
  lemma SkippedSides<T>(l: Tree<T>, d: T, r: Tree<T>, min: T, max: T, key: T -> real)
    requires Ordered(Node(l, d, r), key)
    ensures key(d) - key(min) <= 0.0 ==> Between(InOrderOf(l), min, max, key) == []
    ensures key(d) - key(max) >= 0.0 ==> Between(InOrderOf(r), min, max, key) == []
  {
    SidesOfNode(l, d, r, key);
    RangeSide(InOrderOf(l), d, min, max, key, true);
    RangeSide(InOrderOf(r), d, min, max, key, false);
  }

  /** A single element is in range exactly when its key lies between those of `min` and `max`. */
  lemma BetweenOne<T>(d: T, min: T, max: T, key: T -> real)
    ensures Between([d], min, max, key) == if key(d) - key(min) >= 0.0 && key(d) - key(max) <= 0.0 then [d] else []
  {
    assert [d][1..] == [];
  }

  /** The in-range elements around a node are those of each side and of the node, in order. */
  lemma BetweenAround<T>(a: seq<T>, d: T, b: seq<T>, min: T, max: T, key: T -> real)
    ensures Between(a + [d] + b, min, max, key) ==
      Between(a, min, max, key) + Between([d], min, max, key) + Between(b, min, max, key)
  {
    BetweenAppend(a + [d], b, min, max, key);
    BetweenAppend(a, [d], min, max, key);
  }

  /**
   * The side of a node the search skips holds nothing in range: with the
   * node at or below `min`, nothing on its left is in range, and with it
   * at or above `max`, nothing on its right.
   */
  lemma RangeSide<T>(s: seq<T>, d: T, min: T, max: T, key: T -> real, below: bool)
    requires below ==> forall y :: y in s ==> key(y) < key(d)
    requires !below ==> forall y :: y in s ==> key(y) > key(d)
    ensures below && key(d) - key(min) <= 0.0 ==> Between(s, min, max, key) == []
    ensures !below && key(d) - key(max) >= 0.0 ==> Between(s, min, max, key) == []
  {
    if below && key(d) - key(min) <= 0.0 {
      BetweenNone(s, min, max, key);
    } else if !below && key(d) - key(max) >= 0.0 {
      BetweenNone(s, min, max, key);
    }
  }

  // ---------------------------------------------------------------------
  // height and balance
  // ---------------------------------------------------------------------

  /** `_height(node)`: -1 for the empty tree, else one more than the taller subtree. */
  function Height<T>(t: Tree<T>): (h: int)
    ensures h >= -1 && (h == -1 <==> t == Leaf)
  {
    match t
    case Leaf => -1
    case Node(l, _, r) => 1 + (if Height(l) >= Height(r) then Height(l) else Height(r))
  }

  /** Every node's two subtrees differ in height by at most one. */
  ghost predicate Balanced<T>(t: Tree<T>) {
    match t
    case Leaf => true
    case Node(l, _, r) => Balanced(l) && Balanced(r) && -1 <= Height(l) - Height(r) <= 1
  }

  /** `_isBalanced(node)`: -1 as soon as a subtree is unbalanced, else the height counted from 0 for the empty tree. */
  function BalancedHeight<T>(t: Tree<T>): int {
    match t
    case Leaf => 0
    case Node(l, _, r) =>
      var leftHeight := BalancedHeight(l);
      if leftHeight == -1 then -1
      else
        var rightHeight := BalancedHeight(r);
        if rightHeight == -1 then -1
        else if leftHeight - rightHeight > 1 || rightHeight - leftHeight > 1 then -1
        else 1 + (if leftHeight >= rightHeight then leftHeight else rightHeight)
  }

  /** A tree is never taller than it has nodes. */
  lemma {:induction false} HeightBelowSize<T>(t: Tree<T>)
    ensures Height(t) < Size(t)
  {
    match t
    case Leaf =>
    case Node(l, _, r) =>
      HeightBelowSize(l);
      HeightBelowSize(r);
  }

  /** `_isBalanced` reports -1 exactly for an unbalanced tree, and otherwise one more than `height`. */
  lemma {:induction false} BalancedHeightCorrect<T>(t: Tree<T>)
    ensures BalancedHeight(t) == if Balanced(t) then Height(t) + 1 else -1
  {
    match t
    case Leaf =>
    case Node(l, _, r) =>
      BalancedHeightCorrect(l);
      BalancedHeightCorrect(r);
  }

  // ---------------------------------------------------------------------
  // the tree object
  // ---------------------------------------------------------------------

  class BinarySearchTree<T(!new)> {
    const key: T -> real
    var root: Tree<T>
    var size: int

    /** The root is ordered and `size` counts its nodes. */
    ghost predicate Valid()
      reads this
    {
      Ordered(root, key) && size == Size(root)
    }

    constructor(key: T -> real)
      ensures Valid() && this.key == key && root == Leaf && size == 0
    {
      this.key := key;
      root := Leaf;
      size := 0;
    }

    /**
     * `insert(data)`: rebuild the root with `data` inserted, then count
     * one more node (the recursion took one back for a duplicate).
     */
    method Insert(data: T) returns (ok: bool)
      requires Valid()
      modifies this
      ensures Valid() && ok
      ensures root == InsertTree(old(root), data, key)
      ensures Elems(root) == Elems(old(root)) - Matching(old(root), data, key) + {data}
      ensures size == old(size) + (if Find(old(root), data, key).None? then 1 else 0)
    {
      InsertOrdered(root, data, key);
      InsertSize(root, data, key);
      InsertElems(root, data, key);
      root := InsertNode(root, data);
      size := size + 1;
      return true;
    }

    /** `_insert(node, data)`: takes one off `size` when it replaces an equal element. */
    method InsertNode(node: Tree<T>, data: T) returns (r: Tree<T>)
      modifies this
      ensures r == InsertTree(node, data, key)
      ensures size == old(size) - (if Find(node, data, key).Some? then 1 else 0)
      ensures root == old(root)
      decreases node
    {
      match node
      case Leaf =>
        return Node(Leaf, data, Leaf);
      case Node(l, d, rt) =>
        var comparison := key(data) - key(d);
        if comparison < 0.0 {
          var left := InsertNode(l, data);
          return Node(left, d, rt);
        } else if comparison > 0.0 {
          var right := InsertNode(rt, data);
          return Node(l, d, right);
        } else {
          size := size - 1;
          return Node(l, data, rt);
        }
    }

    /** `search(target)`: the stored element equal to `target`, or `null` when there is none. */
    function Search(target: T): (r: Option<T>)
      requires Valid()
      reads this
      ensures r.Some? ==> r.value in Elems(root) && key(r.value) == key(target)
      ensures r.None? <==> forall y :: y in Elems(root) ==> key(y) != key(target)
    {
      FindComplete(root, target, key);
      Find(root, target, key)
    }

    /**
     * `delete(target)`: rebuild the root with `target` deleted and report
     * whether `size` went down, which is whether an equal element was
     * stored.
     */
    method Delete(target: T) returns (deleted: bool)
      requires Valid()
      modifies this
      ensures Valid()
      ensures deleted <==> exists y :: y in Elems(old(root)) && key(y) == key(target)
      ensures root == DeleteTree(old(root), target, key)
      ensures Elems(root) == Elems(old(root)) - Matching(old(root), target, key)
      ensures size == old(size) - (if deleted then 1 else 0)
    {
      DeleteCorrect(root, target, key);
      FindComplete(root, target, key);
      var initialSize := size;
      root := DeleteNode(root, target);
      deleted := size < initialSize;
    }

    /**
     * `_delete(node, target)`: takes one off `size` where it finds the
     * element and gives it back before deleting a successor, so `size`
     * moves exactly as the node count does.
     */
    method DeleteNode(node: Tree<T>, target: T) returns (r: Tree<T>)
      modifies this
      ensures r == DeleteTree(node, target, key)
      ensures size - old(size) == Size(r) - Size(node)
      decreases node
    {
      match node
      case Leaf =>
        return Leaf;
      case Node(l, d, rt) =>
        var comparison := key(target) - key(d);
        if comparison < 0.0 {
          var left := DeleteNode(l, target);
          return Node(left, d, rt);
        } else if comparison > 0.0 {
          var right := DeleteNode(rt, target);
          return Node(l, d, right);
        } else {
          size := size - 1;
          if l.Leaf? && rt.Leaf? {
            return Leaf;
          } else if l.Leaf? {
            return rt;
          } else if rt.Leaf? {
            return l;
          } else {
            var successor := FindMin(rt);
            var right := DeleteNode(rt, successor);
            size := size + 1;
            return Node(l, successor, right);
          }
        }
    }

    /** `_findMin(node)`: walk left while there is a left child. */
    static method FindMin(node: Tree<T>) returns (m: T)
      requires node.Node?
      ensures m == MinOf(node)
    {
      var n := node;
      while n.left.Node?
        invariant n.Node? && MinOf(n) == MinOf(node)
        decreases n
      {
        n := n.left;
      }
      return n.data;
    }

    /** `inOrder()`: all `size` elements in strictly increasing order. */
    function InOrder(): (r: seq<T>)
      requires Valid()
      reads this
      ensures |r| == size && Increasing(r, key)
      ensures forall y :: y in r <==> y in Elems(root)
    {
      TraversalsCorrect(root);
      InOrderElems(root);
      InOrderIncreasing(root, key);
      InOrderOf(root)
    }

    /** `preOrder()`: the same elements as `inOrder()`, node before subtrees. */
    function PreOrder(): (r: seq<T>)
      requires Valid()
      reads this
      ensures |r| == size && multiset(r) == multiset(InOrder())
    {
      TraversalsCorrect(root);
      assert InOrder() == InOrderOf(root);
      assert |multiset(PreOrderOf(root))| == |InOrderOf(root)|;
      PreOrderOf(root)
    }

    /** `postOrder()`: the same elements as `inOrder()`, subtrees before node. */
    function PostOrder(): (r: seq<T>)
      requires Valid()
      reads this
      ensures |r| == size && multiset(r) == multiset(InOrder())
    {
      TraversalsCorrect(root);
      assert InOrder() == InOrderOf(root);
      assert |multiset(PostOrderOf(root))| == |InOrderOf(root)|;
      PostOrderOf(root)
    }

    /** `height()`: -1 exactly for the empty tree, and below the node count. */
    function TreeHeight(): (h: int)
      requires Valid()
      reads this
      ensures -1 <= h < size
      ensures h == -1 <==> size == 0
    {
      HeightBelowSize(root);
      Height(root)
    }

    /** `rangeSearch(min, max)`: the stored elements between `min` and `max`, in increasing order. */
    function RangeSearch(min: T, max: T): (r: seq<T>)
      requires Valid()
      reads this
      ensures r == Between(InOrder(), min, max, key)
    {
      RangeSearchCorrect(root, min, max, key);
      RangeSearchOf(root, min, max, key)
    }

    /** `isBalanced()` */
    function IsBalanced(): (b: bool)
      reads this
      ensures b <==> Balanced(root)
    {
      BalancedHeightCorrect(root);
      BalancedHeight(root) != -1
    }
  }
}
