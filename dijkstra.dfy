/**
 * `graph/dijkstra.js`: single-source shortest paths over an adjacency map,
 * the walk back along `previous`, and the nearest-k selection on top.
 *
 * The queue is the source's plain array: every round sorts it by distance
 * (a stable sort, modelled by `MergeSort`) and takes the front entry.
 * `FindShortestPath` is proved to leave tables whose `previous` links are
 * graph edges carrying the distances, so that walking them back from a
 * reached node gives a walk of exactly that length from the start, and,
 * when no weight is negative, a length no walk undercuts.
 */
module ShortestPaths {
  import opened Common
  import opened Ordering
  import opened Comparators
  import opened MergeSorting

  type Node = string

  /** The adjacency map: each node's list of `[neighbor, weight]` pairs. */
  type Graph = map<Node, seq<(Node, real)>>

  /** The `previous` table: a node, or `null`. */
  type Links = map<Node, Option<Node>>

  ghost predicate IsEdge(g: Graph, u: Node, v: Node, w: real) {
    u in g && (v, w) in g[u]
  }

  ghost predicate NonNegative(g: Graph) {
    forall u, e {:trigger e in g[u]} :: u in g && e in g[u] ==> e.1 >= 0.0
  }

  // ---------------------------------------------------------------------
  // Walks
  // ---------------------------------------------------------------------

  /** Where a walk from `start` ends; a walk is the list of its steps `(node, weight)`. */
  function End(start: Node, p: seq<(Node, real)>): Node {
    if p == [] then start else p[|p| - 1].0
  }

  /** Every step follows an edge out of the node reached so far. */
  ghost predicate IsWalk(g: Graph, start: Node, p: seq<(Node, real)>)
    decreases |p|
  {
    p == [] ||
    (IsWalk(g, start, p[..|p| - 1]) && IsEdge(g, End(start, p[..|p| - 1]), p[|p| - 1].0, p[|p| - 1].1))
  }

  function Weight(p: seq<(Node, real)>): real
    decreases |p|
  {
    if p == [] then 0.0 else Weight(p[..|p| - 1]) + p[|p| - 1].1
  }

  /** The nodes a walk passes through, the start included. */
  function Route(start: Node, p: seq<(Node, real)>): (r: seq<Node>)
    ensures |r| == |p| + 1 && r[0] == start && r[|r| - 1] == End(start, p)
    decreases |p|
  {
    if p == [] then [start] else Route(start, p[..|p| - 1]) + [p[|p| - 1].0]
  }

  lemma {:induction false} WeightNonNegative(g: Graph, start: Node, p: seq<(Node, real)>)
    requires NonNegative(g) && IsWalk(g, start, p)
    ensures Weight(p) >= 0.0
    decreases |p|
  {
    if p != [] {
      WeightNonNegative(g, start, p[..|p| - 1]);
      assert (p[|p| - 1].0, p[|p| - 1].1) in g[End(start, p[..|p| - 1])];
    }
  }

  lemma WalkSnoc(g: Graph, start: Node, p: seq<(Node, real)>, v: Node, w: real)
    requires IsWalk(g, start, p) && IsEdge(g, End(start, p), v, w)
    ensures IsWalk(g, start, p + [(v, w)])
    ensures Weight(p + [(v, w)]) == Weight(p) + w
    ensures Route(start, p + [(v, w)]) == Route(start, p) + [v]
  {
    assert (p + [(v, w)])[..|p|] == p;
  }

  /** A node's distance undercuts no walk to it (and is finite when a walk exists). */
  ghost predicate Shortest(g: Graph, start: Node, dist: map<Node, Ext>, v: Node)
    requires v in dist
  {
    forall p :: IsWalk(g, start, p) && End(start, p) == v ==> dist[v].Fin? && dist[v].r <= Weight(p)
  }

  // ---------------------------------------------------------------------
  // Following `previous`
  // ---------------------------------------------------------------------

  /** `c` is a chain of `previous` links: it starts at a `null` and each node points at the one before. */
  ghost predicate PrevLinked(prev: Links, c: seq<Node>) {
    |c| > 0 && c[0] in prev && prev[c[0]] == None &&
    forall i :: 0 < i < |c| ==> c[i] in prev && prev[c[i]] == Some(c[i - 1])
  }

  /**
   * The chain `reconstructPath` collects from `v`, when following
   * `previous` meets a `null` within `fuel` steps without leaving the table.
   */
  ghost function Back(prev: Links, v: Node, fuel: nat): (r: Option<seq<Node>>)
    ensures r.Some? ==> PrevLinked(prev, r.value) && r.value[|r.value| - 1] == v && |r.value| <= fuel
    decreases fuel
  {
    if fuel == 0 || v !in prev then None
    else match prev[v]
      case None => Some([v])
      case Some(u) =>
        match Back(prev, u, fuel - 1)
        case None => None
        case Some(c) => Some(c + [v])
  }

  /** More fuel changes nothing once the chain is complete. */
  lemma {:induction false} BackMore(prev: Links, v: Node, fuel: nat, more: nat)
    requires Back(prev, v, fuel).Some? && fuel <= more
    ensures Back(prev, v, more) == Back(prev, v, fuel)
    decreases fuel
  {
    match prev[v]
    case None =>
    case Some(u) => BackMore(prev, u, fuel - 1, more - 1);
  }

  /** A chain of links ending at `v` is the one `Back` finds. */
  lemma {:induction false} BackFinds(prev: Links, c: seq<Node>)
    requires PrevLinked(prev, c)
    ensures Back(prev, c[|c| - 1], |c|) == Some(c)
    decreases |c|
  {
    if |c| > 1 {
      var c' := c[..|c| - 1];
      assert PrevLinked(prev, c') by {
        forall i | 0 < i < |c'| ensures c'[i] in prev && prev[c'[i]] == Some(c'[i - 1]) {
          assert c'[i] == c[i] && c'[i - 1] == c[i - 1];
        }
      }
      BackFinds(prev, c');
      assert prev[c[|c| - 1]] == Some(c'[|c'| - 1]);
      assert c == c' + [c[|c| - 1]];
    } else {
      assert c == [c[0]];
    }
  }

  /** There is only one chain of links ending at a given node. */
  lemma BackUnique(prev: Links, c: seq<Node>, fuel: nat)
    requires PrevLinked(prev, c) && Back(prev, c[|c| - 1], fuel).Some?
    ensures Back(prev, c[|c| - 1], fuel) == Some(c)
  {
    BackFinds(prev, c);
    if fuel <= |c| {
      BackMore(prev, c[|c| - 1], fuel, |c|);
    } else {
      BackMore(prev, c[|c| - 1], |c|, fuel);
    }
  }

  /**
   * `reconstructPath`: prepend nodes while following `previous` until a
   * `null`, then keep the chain only if it begins at `startNode`.  The
   * chain must end: a node missing from the table reads `undefined`, which
   * is not `null`, and the source loop would not stop.
   */
  method ReconstructPath(startNode: Node, endNode: Node, previous: Links) returns (path: seq<Node>)
    requires exists fuel: nat :: Back(previous, endNode, fuel).Some?
    ensures path == [] || (path[0] == startNode && path[|path| - 1] == endNode && PrevLinked(previous, path))
    ensures forall c :: PrevLinked(previous, c) && c[|c| - 1] == endNode ==> (path == [] <==> c[0] != startNode)
  {
    ghost var fuel: nat :| Back(previous, endNode, fuel).Some?;
    ghost var chain := Back(previous, endNode, fuel).value;
    ghost var k := fuel;
    path := [];
    var currentNode := Some(endNode);
    while currentNode.Some?
      invariant currentNode.Some? ==>
        Back(previous, currentNode.value, k).Some? && chain == Back(previous, currentNode.value, k).value + path
      invariant currentNode.None? ==> chain == path
      decreases k
    {
      path := [currentNode.value] + path;
      currentNode := previous[currentNode.value];
      k := k - 1;
    }
    forall c | PrevLinked(previous, c) && c[|c| - 1] == endNode ensures c == chain {
      BackUnique(previous, c, fuel);
    }
    if path[0] != startNode {
      path := [];
    }
  }

  // ---------------------------------------------------------------------
  // The search
  // ---------------------------------------------------------------------

  /** A queue entry `[node, distance]`, ordered by `(a, b) => a[1] - b[1]`. */
  type Entry = (Node, real)

  function Distance(e: Entry): real { e.1 }

  /** The search stops at `endNode` only when it is given and truthy (not `''`). */
  predicate Sought(endNode: Option<Node>, v: Node) {
    endNode.None? || endNode.value == "" || v == endNode.value
  }

  /** The front of the stably sorted queue is a least entry of the queue. */
  lemma PopLeast(queue: seq<Entry>)
    requires |queue| > 0
    ensures var s := MergeSort(queue, Ascending(Distance));
      s[0] in queue && forall e :: e in queue ==> s[0].1 <= e.1
  {
    var s := MergeSort(queue, Ascending(Distance));
    AscendingMeaning(Distance, s);
    MergeSortCorrect(queue, Ascending(Distance));
    assert s[0] in multiset(queue);
    forall e | e in queue ensures s[0].1 <= e.1 {
      assert e in multiset(s);
      var j :| 0 <= j < |s| && s[j] == e;
      assert j == 0 || Distance(s[0]) <= Distance(s[j]);
    }
  }

  /** What follows the front of the sorted queue is the rest of the queue. */
  lemma PopRest(queue: seq<Entry>)
    requires |queue| > 0
    ensures var s := MergeSort(queue, Ascending(Distance));
      (forall e :: e in s[1..] ==> e in queue) &&
      (forall e :: e in queue && e != s[0] ==> e in s[1..])
  {
    var s := MergeSort(queue, Ascending(Distance));
    forall e | e in s[1..] ensures e in queue {
      assert e in multiset(s);
    }
    forall e | e in queue && e != s[0] ensures e in s[1..] {
      assert e in multiset(s);
      var j :| 0 <= j < |s| && s[j] == e;
      assert s[j] == s[1..][j - 1];
    }
  }

  lemma SortSingle(e: Entry)
    ensures MergeSort([e], Ascending(Distance)) == [e]
  {
  }

  /** `distances`, `previous` and `unvisited` as the first loop of `findShortestPath` leaves them. */
  method Initialize(graph: Graph, startNode: Node) returns (dist: map<Node, Ext>, prev: Links, unvisited: set<Node>)
    ensures dist.Keys == graph.Keys + {startNode} && prev.Keys == graph.Keys && unvisited == graph.Keys
    ensures dist[startNode] == Fin(0.0)
    ensures forall v :: v in graph && v != startNode ==> dist[v] == Inf
    ensures forall v :: v in graph ==> prev[v] == None
  {
    dist, prev, unvisited := map[], map[], {};
    var pending := graph.Keys;
    while pending != {}
      invariant pending <= graph.Keys && unvisited == graph.Keys - pending
      invariant dist.Keys == unvisited && prev.Keys == unvisited
      invariant forall v :: v in dist ==> dist[v] == Inf
      invariant forall v :: v in prev ==> prev[v] == None
      decreases pending
    {
      var node :| node in pending;
      dist := dist[node := Inf];
      prev := prev[node := None];
      unvisited := unvisited + {node};
      pending := pending - {node};
    }
    dist := dist[startNode := Fin(0.0)];
  }

  // The state of the main loop, in parts.

  /** The shape of the tables. */
  ghost predicate Tables(g: Graph, start: Node, dist: map<Node, Ext>, prev: Links, visited: set<Node>, unvisited: set<Node>) {
    dist.Keys == g.Keys + {start} && prev.Keys == g.Keys && unvisited == g.Keys - visited &&
    visited <= dist.Keys && dist[start] == Fin(0.0) && (start in g ==> prev[start] == None) &&
    (visited == {} || start in visited)
  }

  /** The queue holds an entry at the current distance of every reached, unvisited node. */
  ghost predicate Queued(start: Node, dist: map<Node, Ext>, visited: set<Node>, queue: seq<Entry>) {
    (forall e :: e in queue ==> e.0 in dist && dist[e.0].Fin? && dist[e.0].r <= e.1) &&
    (forall v :: v in dist && v !in visited && dist[v].Fin? ==> (v, dist[v].r) in queue) &&
    (forall v :: v in visited ==> v in dist && dist[v].Fin?) &&
    (visited == {} ==> queue == [(start, 0.0)])
  }

  /** One `previous` link: an edge out of an earlier visited node that gives the distance. */
  ghost predicate Link(g: Graph, dist: map<Node, Ext>, prev: Links, rank: map<Node, nat>, via: map<Node, real>, v: Node)
    requires v in prev && prev[v].Some?
  {
    var u := prev[v].value;
    u in rank && u in g && u in dist && dist[u].Fin? && v in dist && dist[v].Fin? && v in via &&
    IsEdge(g, u, v, via[v]) && dist[v].r == dist[u].r + via[v] &&
    (v in rank ==> rank[u] < rank[v])
  }

  /** `rank` numbers the visited nodes in visiting order; `via` is the weight each link used. */
  ghost predicate Linked(g: Graph, start: Node, dist: map<Node, Ext>, prev: Links, visited: set<Node>,
                         rank: map<Node, nat>, via: map<Node, real>) {
    rank.Keys == visited && (forall v :: v in rank ==> rank[v] < |visited|) &&
    (forall v :: v in dist && v != start && dist[v].Fin? ==> v in prev && prev[v].Some?) &&
    (forall v {:trigger Link(g, dist, prev, rank, via, v)} :: v in prev && prev[v].Some? ==> Link(g, dist, prev, rank, via, v))
  }

  /** Every visited node's distance is final (when no weight is negative). */
  ghost predicate Settled(g: Graph, start: Node, dist: map<Node, Ext>, visited: set<Node>) {
    NonNegative(g) ==> forall v {:trigger Shortest(g, start, dist, v)} :: v in visited && v in dist ==> Shortest(g, start, dist, v)
  }

  /** The edge `(x, e.0, e.1)`, when it leads to an unvisited node, cannot lower that node's distance. */
  ghost predicate EdgeRelaxed(g: Graph, dist: map<Node, Ext>, unvisited: set<Node>, x: Node, e: (Node, real)) {
    x in g && e in g[x] && e.0 in unvisited ==>
      x in dist && e.0 in dist && dist[x].Fin? && dist[e.0].Fin? && dist[e.0].r <= dist[x].r + e.1
  }

  /** Every edge out of a visited node, other than `except`, has been relaxed. */
  ghost predicate Relaxed(g: Graph, dist: map<Node, Ext>, visited: set<Node>, unvisited: set<Node>, except: Option<Node>) {
    forall x, e {:trigger EdgeRelaxed(g, dist, unvisited, x, e)} ::
      x in visited && except != Some(x) ==> EdgeRelaxed(g, dist, unvisited, x, e)
  }

  ghost predicate Searching(g: Graph, start: Node, dist: map<Node, Ext>, prev: Links, visited: set<Node>,
                            unvisited: set<Node>, queue: seq<Entry>, rank: map<Node, nat>, via: map<Node, real>) {
    Tables(g, start, dist, prev, visited, unvisited) && Queued(start, dist, visited, queue) &&
    Linked(g, start, dist, prev, visited, rank, via) && Settled(g, start, dist, visited)
  }

  lemma InitialState(g: Graph, start: Node, dist: map<Node, Ext>, prev: Links, unvisited: set<Node>)
    requires dist.Keys == g.Keys + {start} && prev.Keys == g.Keys && unvisited == g.Keys
    requires dist[start] == Fin(0.0)
    requires forall v :: v in g && v != start ==> dist[v] == Inf
    requires forall v :: v in g ==> prev[v] == None
    ensures Searching(g, start, dist, prev, {}, unvisited, [(start, 0.0)], map[], map[])
    ensures Relaxed(g, dist, {}, unvisited, None)
  {
  }

  /**
   * When a node is not yet visited, some unvisited node at the edge of the
   * visited region is reached no later than any walk to it.
   */
  lemma {:induction false} Frontier(g: Graph, start: Node, dist: map<Node, Ext>, visited: set<Node>,
                                    unvisited: set<Node>, p: seq<(Node, real)>)
    requires NonNegative(g)
    requires dist.Keys == g.Keys + {start} && dist[start] == Fin(0.0) && unvisited == g.Keys - visited
    requires forall v :: v in visited ==> v in dist && dist[v].Fin?
    requires Settled(g, start, dist, visited) && Relaxed(g, dist, visited, unvisited, None)
    requires IsWalk(g, start, p) && End(start, p) in dist && End(start, p) !in visited
    ensures exists y :: y in dist && y !in visited && dist[y].Fin? && dist[y].r <= Weight(p)
    decreases |p|
  {
    if p == [] {
      assert dist[start].r <= Weight(p);
    } else {
      var p', v, w := p[..|p| - 1], p[|p| - 1].0, p[|p| - 1].1;
      var x := End(start, p');
      assert IsWalk(g, start, p') && IsEdge(g, x, v, w);
      assert (v, w) in g[x];
      assert w >= 0.0;
      if x !in visited {
        Frontier(g, start, dist, visited, unvisited, p');
      } else if v in g {
        assert Shortest(g, start, dist, x);
        assert EdgeRelaxed(g, dist, unvisited, x, (v, w));
        assert dist[v].r <= dist[x].r + w;
      } else {
        WeightNonNegative(g, start, p);
        assert dist[start].r <= Weight(p);
      }
    }
  }

  /** The entry taken from the queue for a node not yet visited carries its current distance, which is final. */
  lemma VisitDistance(g: Graph, start: Node, dist: map<Node, Ext>, prev: Links, visited: set<Node>,
                      unvisited: set<Node>, queue: seq<Entry>, rank: map<Node, nat>, via: map<Node, real>)
    requires Searching(g, start, dist, prev, visited, unvisited, queue, rank, via)
    requires Relaxed(g, dist, visited, unvisited, None)
    requires |queue| > 0 && MergeSort(queue, Ascending(Distance))[0].0 !in visited
    ensures var (u, d) := MergeSort(queue, Ascending(Distance))[0];
      u in dist && dist[u] == Fin(d) && Settled(g, start, dist, visited + {u})
  {
    PopLeast(queue);
    var (u, d) := MergeSort(queue, Ascending(Distance))[0];
    assert (u, dist[u].r) in queue;
    if NonNegative(g) {
      forall p | IsWalk(g, start, p) && End(start, p) == u ensures dist[u].Fin? && dist[u].r <= Weight(p) {
        Frontier(g, start, dist, visited, unvisited, p);
        var y :| y in dist && y !in visited && dist[y].Fin? && dist[y].r <= Weight(p);
        assert (y, dist[y].r) in queue;
      }
    }
  }

  lemma VisitTables(g: Graph, start: Node, dist: map<Node, Ext>, prev: Links, visited: set<Node>,
                    unvisited: set<Node>, u: Node)
    requires Tables(g, start, dist, prev, visited, unvisited)
    requires u in dist && (visited == {} ==> u == start)
    ensures Tables(g, start, dist, prev, visited + {u}, unvisited - {u})
  {
  }

  lemma VisitQueued(start: Node, dist: map<Node, Ext>, visited: set<Node>, queue: seq<Entry>, s: seq<Entry>)
    requires Queued(start, dist, visited, queue)
    requires |s| > 0 && s[0].0 in dist && dist[s[0].0].Fin?
    requires forall e :: e in s[1..] ==> e in queue
    requires forall e :: e in queue && e != s[0] ==> e in s[1..]
    ensures Queued(start, dist, visited + {s[0].0}, s[1..])
  {
    forall v | v in dist && v !in visited + {s[0].0} && dist[v].Fin? ensures (v, dist[v].r) in s[1..] {
      assert (v, dist[v].r) in queue;
    }
  }

  lemma VisitLinked(g: Graph, start: Node, dist: map<Node, Ext>, prev: Links, visited: set<Node>,
                    rank: map<Node, nat>, via: map<Node, real>, u: Node)
    requires Linked(g, start, dist, prev, visited, rank, via) && u !in visited
    ensures Linked(g, start, dist, prev, visited + {u}, rank[u := |visited|], via)
  {
    AddFresh(visited, u);
    forall v | v in prev && prev[v].Some? ensures Link(g, dist, prev, rank[u := |visited|], via, v) {
      assert Link(g, dist, prev, rank, via, v);
    }
  }

  lemma VisitRelaxed(g: Graph, dist: map<Node, Ext>, visited: set<Node>, unvisited: set<Node>, u: Node)
    requires Relaxed(g, dist, visited, unvisited, None)
    ensures Relaxed(g, dist, visited + {u}, unvisited - {u}, Some(u))
  {
    forall x, e | x in visited + {u} && Some(u) != Some(x) ensures EdgeRelaxed(g, dist, unvisited - {u}, x, e) {
      assert EdgeRelaxed(g, dist, unvisited, x, e);
    }
  }

  /** Taking the least entry of a node not yet visited and marking it visited keeps the state. */
  lemma VisitState(g: Graph, start: Node, dist: map<Node, Ext>, prev: Links, visited: set<Node>,
                   unvisited: set<Node>, queue: seq<Entry>, rank: map<Node, nat>, via: map<Node, real>,
                   s: seq<Entry>)
    requires Searching(g, start, dist, prev, visited, unvisited, queue, rank, via)
    requires Relaxed(g, dist, visited, unvisited, None)
    requires |queue| > 0 && s == MergeSort(queue, Ascending(Distance)) && s[0].0 !in visited
    ensures s[0].0 in dist && dist[s[0].0] == Fin(s[0].1)
    ensures Searching(g, start, dist, prev, visited + {s[0].0}, unvisited - {s[0].0}, s[1..], rank[s[0].0 := |visited|], via)
    ensures Relaxed(g, dist, visited + {s[0].0}, unvisited - {s[0].0}, Some(s[0].0))
  {
    var u := s[0].0;
    PopLeast(queue);
    PopRest(queue);
    VisitDistance(g, start, dist, prev, visited, unvisited, queue, rank, via);
    if visited == {} {
      SortSingle((start, 0.0));
    }
    VisitTables(g, start, dist, prev, visited, unvisited, u);
    VisitQueued(start, dist, visited, queue, s);
    VisitLinked(g, start, dist, prev, visited, rank, via, u);
    VisitRelaxed(g, dist, visited, unvisited, u);
  }

  /** Taking an entry of a node already visited drops a stale entry and keeps the state. */
  lemma SkipState(g: Graph, start: Node, dist: map<Node, Ext>, prev: Links, visited: set<Node>,
                  unvisited: set<Node>, queue: seq<Entry>, rank: map<Node, nat>, via: map<Node, real>,
                  s: seq<Entry>)
    requires Searching(g, start, dist, prev, visited, unvisited, queue, rank, via)
    requires |queue| > 0 && s == MergeSort(queue, Ascending(Distance)) && s[0].0 in visited
    ensures Searching(g, start, dist, prev, visited, unvisited, s[1..], rank, via)
  {
    PopRest(queue);
    assert Queued(start, dist, visited, s[1..]) by {
      forall v | v in dist && v !in visited && dist[v].Fin? ensures (v, dist[v].r) in s[1..] {
        assert (v, dist[v].r) in queue;
      }
    }
  }

  // Relaxing the edges out of the node just visited.

  /**
   * Node `v` was lowered while relaxing the edges out of `cur` (reached at
   * `d`): it is unvisited, its distance went down to `d` plus the weight of
   * an edge from `cur`, `previous` points at `cur`, and the queue holds it
   * at that distance.
   */
  ghost predicate LoweredAt(g: Graph, cur: Node, d: real, unvisited: set<Node>, dist0: map<Node, Ext>,
                            dist: map<Node, Ext>, prev: Links, queue: seq<Entry>, via: map<Node, real>, v: Node)
    requires v in dist0 && v in dist
  {
    v in unvisited && dist[v].Fin? && dist[v].Less(dist0[v]) &&
    v in prev && prev[v] == Some(cur) && v in via && cur in g && (v, via[v]) in g[cur] &&
    dist[v].r == d + via[v] && (v, dist[v].r) in queue
  }

  /**
   * What relaxing the edges out of `cur` leaves behind compared with the
   * tables it started from: the same keys; a distance either kept or
   * lowered through an edge from `cur`; `previous` (and the weight behind
   * it) changed only where the distance did; the queue only grew, and
   * every added entry belongs to a lowered node and is no shorter than its
   * distance.
   */
  ghost predicate Lowered(g: Graph, cur: Node, d: real, unvisited: set<Node>,
                          dist0: map<Node, Ext>, prev0: Links, queue0: seq<Entry>, via0: map<Node, real>,
                          dist: map<Node, Ext>, prev: Links, queue: seq<Entry>, via: map<Node, real>) {
    (forall v :: v in dist ==> v in dist0) && (forall v :: v in prev ==> v in prev0) &&
    (forall v :: v in dist0 ==>
       v in dist && (dist[v] == dist0[v] || LoweredAt(g, cur, d, unvisited, dist0, dist, prev, queue, via, v))) &&
    (forall v :: v in prev0 ==>
       v in prev && (prev[v] == prev0[v] || (v in dist0 && v in dist && dist[v] != dist0[v]))) &&
    (forall v :: v in via0 ==>
       v in via && (via[v] == via0[v] || (v in dist0 && v in dist && dist[v] != dist0[v]))) &&
    (forall e :: e in queue0 ==> e in queue) &&
    (forall e :: e in queue ==>
       e in queue0 || (e.0 in dist0 && e.0 in dist && dist[e.0] != dist0[e.0] && dist[e.0].Fin? && dist[e.0].r <= e.1))
  }

  /** The first `j` neighbors, when unvisited, are within `d` plus the edge weight. */
  ghost predicate Prefix(d: real, neighbors: seq<(Node, real)>, j: nat, unvisited: set<Node>, dist: map<Node, Ext>)
    requires j <= |neighbors|
  {
    forall k :: 0 <= k < j && neighbors[k].0 in unvisited ==>
      neighbors[k].0 in dist && dist[neighbors[k].0].Fin? && dist[neighbors[k].0].r <= d + neighbors[k].1
  }

  lemma LoweredNone(g: Graph, cur: Node, d: real, unvisited: set<Node>,
                    dist: map<Node, Ext>, prev: Links, queue: seq<Entry>, via: map<Node, real>)
    ensures Lowered(g, cur, d, unvisited, dist, prev, queue, via, dist, prev, queue, via)
  {
  }

  /** Lowering neighbor `n` through the edge `(cur, n, w)` extends the relation. */
  lemma LoweredStep(g: Graph, cur: Node, d: real, unvisited: set<Node>,
                    dist0: map<Node, Ext>, prev0: Links, queue0: seq<Entry>, via0: map<Node, real>,
                    dist: map<Node, Ext>, prev: Links, queue: seq<Entry>, via: map<Node, real>, n: Node, w: real)
    requires Lowered(g, cur, d, unvisited, dist0, prev0, queue0, via0, dist, prev, queue, via)
    requires cur in g && (n, w) in g[cur] && n in dist0 && n in prev0 && n in unvisited && Fin(d + w).Less(dist[n])
    ensures Lowered(g, cur, d, unvisited, dist0, prev0, queue0, via0,
                    dist[n := Fin(d + w)], prev[n := Some(cur)], queue + [(n, d + w)], via[n := w])
  {
    var dist', prev', queue', via' := dist[n := Fin(d + w)], prev[n := Some(cur)], queue + [(n, d + w)], via[n := w];
    assert Fin(d + w).Less(dist0[n]);
    forall v | v in dist0
      ensures v in dist' && (dist'[v] == dist0[v] || LoweredAt(g, cur, d, unvisited, dist0, dist', prev', queue', via', v))
    {
      if v != n && dist[v] != dist0[v] {
        assert LoweredAt(g, cur, d, unvisited, dist0, dist, prev, queue, via, v);
        assert (v, dist[v].r) in queue';
      }
    }
  }

  lemma PrefixLower(d: real, neighbors: seq<(Node, real)>, j: nat, unvisited: set<Node>, dist: map<Node, Ext>, n: Node, w: real)
    requires j < |neighbors| && neighbors[j] == (n, w)
    requires Prefix(d, neighbors, j, unvisited, dist) && n in dist && Fin(d + w).Less(dist[n])
    ensures Prefix(d, neighbors, j + 1, unvisited, dist[n := Fin(d + w)])
  {
  }

  lemma PrefixKeep(d: real, neighbors: seq<(Node, real)>, j: nat, unvisited: set<Node>, dist: map<Node, Ext>)
    requires j < |neighbors| && Prefix(d, neighbors, j, unvisited, dist)
    requires neighbors[j].0 in unvisited ==> neighbors[j].0 in dist && !Fin(d + neighbors[j].1).Less(dist[neighbors[j].0])
    ensures Prefix(d, neighbors, j + 1, unvisited, dist)
  {
  }

  // What the relation keeps of the search state, part by part.

  lemma LoweredTables(g: Graph, start: Node, cur: Node, d: real, visited: set<Node>, unvisited: set<Node>,
                      dist0: map<Node, Ext>, prev0: Links, queue0: seq<Entry>, via0: map<Node, real>,
                      dist: map<Node, Ext>, prev: Links, queue: seq<Entry>, via: map<Node, real>)
    requires Tables(g, start, dist0, prev0, visited, unvisited) && cur in visited
    requires Lowered(g, cur, d, unvisited, dist0, prev0, queue0, via0, dist, prev, queue, via)
    ensures Tables(g, start, dist, prev, visited, unvisited)
  {
    assert dist.Keys == dist0.Keys;
    assert prev.Keys == prev0.Keys;
  }

  lemma LoweredQueued(g: Graph, start: Node, cur: Node, d: real, visited: set<Node>, unvisited: set<Node>,
                      dist0: map<Node, Ext>, prev0: Links, queue0: seq<Entry>, via0: map<Node, real>,
                      dist: map<Node, Ext>, prev: Links, queue: seq<Entry>, via: map<Node, real>)
    requires Queued(start, dist0, visited, queue0) && cur in visited && unvisited !! visited
    requires Lowered(g, cur, d, unvisited, dist0, prev0, queue0, via0, dist, prev, queue, via)
    ensures Queued(start, dist, visited, queue)
  {
    forall e | e in queue ensures e.0 in dist && dist[e.0].Fin? && dist[e.0].r <= e.1 {
      if e in queue0 && dist[e.0] != dist0[e.0] {
        assert LoweredAt(g, cur, d, unvisited, dist0, dist, prev, queue, via, e.0);
      }
    }
    forall v | v in dist && v !in visited && dist[v].Fin? ensures (v, dist[v].r) in queue {
      if dist[v] == dist0[v] {
        assert (v, dist0[v].r) in queue0;
      } else {
        assert LoweredAt(g, cur, d, unvisited, dist0, dist, prev, queue, via, v);
      }
    }
    forall v | v in visited ensures v in dist && dist[v].Fin? {
      if dist[v] != dist0[v] {
        assert LoweredAt(g, cur, d, unvisited, dist0, dist, prev, queue, via, v);
      }
    }
  }

  lemma LoweredLinked(g: Graph, start: Node, cur: Node, d: real, visited: set<Node>, unvisited: set<Node>,
                      rank: map<Node, nat>, dist0: map<Node, Ext>, prev0: Links, queue0: seq<Entry>, via0: map<Node, real>,
                      dist: map<Node, Ext>, prev: Links, queue: seq<Entry>, via: map<Node, real>)
    requires Linked(g, start, dist0, prev0, visited, rank, via0) && unvisited !! visited
    requires cur in visited && cur in dist0 && dist0[cur] == Fin(d) && prev0.Keys <= dist0.Keys
    requires Lowered(g, cur, d, unvisited, dist0, prev0, queue0, via0, dist, prev, queue, via)
    ensures Linked(g, start, dist, prev, visited, rank, via)
  {
    assert dist[cur] == dist0[cur];
    forall v | v in dist && v != start && dist[v].Fin? ensures v in prev && prev[v].Some? {
      if dist[v] != dist0[v] {
        assert LoweredAt(g, cur, d, unvisited, dist0, dist, prev, queue, via, v);
      }
    }
    forall v | v in prev && prev[v].Some? ensures Link(g, dist, prev, rank, via, v) {
      if dist[v] != dist0[v] {
        assert LoweredAt(g, cur, d, unvisited, dist0, dist, prev, queue, via, v);
      } else {
        assert Link(g, dist0, prev0, rank, via0, v);
        var u := prev[v].value;
        assert dist[u] == dist0[u];
      }
    }
  }

  lemma LoweredSettled(g: Graph, start: Node, cur: Node, d: real, visited: set<Node>, unvisited: set<Node>,
                       dist0: map<Node, Ext>, prev0: Links, queue0: seq<Entry>, via0: map<Node, real>,
                       dist: map<Node, Ext>, prev: Links, queue: seq<Entry>, via: map<Node, real>)
    requires Settled(g, start, dist0, visited) && unvisited !! visited
    requires Lowered(g, cur, d, unvisited, dist0, prev0, queue0, via0, dist, prev, queue, via)
    ensures Settled(g, start, dist, visited)
  {
    if NonNegative(g) {
      forall v | v in visited && v in dist ensures Shortest(g, start, dist, v) {
        assert Shortest(g, start, dist0, v);
      }
    }
  }

  lemma LoweredRelaxed(g: Graph, cur: Node, d: real, neighbors: seq<(Node, real)>, visited: set<Node>, unvisited: set<Node>,
                       dist0: map<Node, Ext>, prev0: Links, queue0: seq<Entry>, via0: map<Node, real>,
                       dist: map<Node, Ext>, prev: Links, queue: seq<Entry>, via: map<Node, real>)
    requires Relaxed(g, dist0, visited, unvisited, Some(cur)) && unvisited !! visited
    requires cur in visited && cur in dist0 && dist0[cur] == Fin(d)
    requires neighbors == (if cur in g then g[cur] else []) && Prefix(d, neighbors, |neighbors|, unvisited, dist)
    requires Lowered(g, cur, d, unvisited, dist0, prev0, queue0, via0, dist, prev, queue, via)
    ensures Relaxed(g, dist, visited, unvisited, None)
  {
    forall x, e | x in visited && None != Some(x) ensures EdgeRelaxed(g, dist, unvisited, x, e) {
      if x == cur && x in g && e in g[x] && e.0 in unvisited {
        var k :| 0 <= k < |neighbors| && neighbors[k] == e;
      } else if x in g && e in g[x] && e.0 in unvisited {
        assert EdgeRelaxed(g, dist0, unvisited, x, e);
        if dist[e.0] != dist0[e.0] {
          assert LoweredAt(g, cur, d, unvisited, dist0, dist, prev, queue, via, e.0);
        }
      }
    }
  }

  /** `graph[currentNode] || []`: the adjacency list, empty for a node without one. */
  function Neighbors(g: Graph, u: Node): (r: seq<(Node, real)>)
    ensures u in g ==> r == g[u]
    ensures u !in g ==> r == []
  {
    if u in g then g[u] else []
  }

  /**
   * Relaxing the edges out of the node just visited keeps the search state
   * and leaves every edge out of a visited node relaxed.
   */
  lemma RelaxKeeps(g: Graph, start: Node, cur: Node, d: real, visited: set<Node>, unvisited: set<Node>,
                   rank: map<Node, nat>, dist0: map<Node, Ext>, prev0: Links, queue0: seq<Entry>, via0: map<Node, real>,
                   dist: map<Node, Ext>, prev: Links, queue: seq<Entry>, via: map<Node, real>)
    requires Searching(g, start, dist0, prev0, visited, unvisited, queue0, rank, via0)
    requires Relaxed(g, dist0, visited, unvisited, Some(cur))
    requires cur in visited && cur in dist0 && dist0[cur] == Fin(d)
    requires Lowered(g, cur, d, unvisited, dist0, prev0, queue0, via0, dist, prev, queue, via)
    requires Prefix(d, Neighbors(g, cur), |Neighbors(g, cur)|, unvisited, dist)
    ensures Searching(g, start, dist, prev, visited, unvisited, queue, rank, via)
    ensures Relaxed(g, dist, visited, unvisited, None)
  {
    LoweredTables(g, start, cur, d, visited, unvisited, dist0, prev0, queue0, via0, dist, prev, queue, via);
    LoweredQueued(g, start, cur, d, visited, unvisited, dist0, prev0, queue0, via0, dist, prev, queue, via);
    LoweredLinked(g, start, cur, d, visited, unvisited, rank, dist0, prev0, queue0, via0, dist, prev, queue, via);
    LoweredSettled(g, start, cur, d, visited, unvisited, dist0, prev0, queue0, via0, dist, prev, queue, via);
    LoweredRelaxed(g, cur, d, Neighbors(g, cur), visited, unvisited, dist0, prev0, queue0, via0, dist, prev, queue, via);
  }

  /**
   * The inner loop of `findShortestPath`: for each `[neighbor, weight]`
   * of `currentNode` still unvisited, lower its distance when going
   * through `currentNode` is shorter, point `previous` at `currentNode`
   * and queue the neighbor at the new distance.  Afterwards no unvisited
   * neighbor is farther than `currentDistance` plus the edge weight.
   */
  method Relax(g: Graph, currentNode: Node, currentDistance: real, dist: map<Node, Ext>, prev: Links,
               unvisited: set<Node>, queue: seq<Entry>, ghost via: map<Node, real>)
    returns (dist': map<Node, Ext>, prev': Links, queue': seq<Entry>, ghost via': map<Node, real>)
    requires forall v :: v in unvisited ==> v in dist && v in prev
    ensures Lowered(g, currentNode, currentDistance, unvisited, dist, prev, queue, via, dist', prev', queue', via')
    ensures Prefix(currentDistance, Neighbors(g, currentNode), |Neighbors(g, currentNode)|, unvisited, dist')
    ensures currentNode !in g ==> queue' == queue
  {
    var neighbors := Neighbors(g, currentNode);
    dist', prev', queue', via' := dist, prev, queue, via;
    LoweredNone(g, currentNode, currentDistance, unvisited, dist, prev, queue, via);
    for j := 0 to |neighbors|
      invariant Lowered(g, currentNode, currentDistance, unvisited, dist, prev, queue, via, dist', prev', queue', via')
      invariant Prefix(currentDistance, neighbors, j, unvisited, dist')
      invariant currentNode !in g ==> queue' == queue
    {
      var (neighbor, edgeWeight) := neighbors[j];
      if neighbor in unvisited && Fin(currentDistance + edgeWeight).Less(dist'[neighbor]) {
        var newDistance := currentDistance + edgeWeight;
        assert neighbors[j] in g[currentNode];
        LoweredStep(g, currentNode, currentDistance, unvisited, dist, prev, queue, via,
                    dist', prev', queue', via', neighbor, edgeWeight);
        PrefixLower(currentDistance, neighbors, j, unvisited, dist', neighbor, edgeWeight);
        dist' := dist'[neighbor := Fin(newDistance)];
        prev' := prev'[neighbor := Some(currentNode)];
        queue' := queue' + [(neighbor, newDistance)];
        via' := via'[neighbor := edgeWeight];
      } else {
        PrefixKeep(currentDistance, neighbors, j, unvisited, dist');
      }
    }
  }

  // ---------------------------------------------------------------------
  // What the search leaves behind
  // ---------------------------------------------------------------------

  /** Every `previous` link is an edge between reached nodes whose weight is the difference of their distances. */
  ghost predicate Tight(g: Graph, dist: map<Node, Ext>, prev: Links) {
    forall v :: v in prev && prev[v].Some? ==>
      v in dist && prev[v].value in dist && dist[v].Fin? && dist[prev[v].value].Fin? &&
      exists w :: IsEdge(g, prev[v].value, v, w) && dist[v].r == dist[prev[v].value].r + w
  }

  /** Following `previous` back from any reached node of the graph ends, at `start`. */
  ghost predicate Rooted(start: Node, dist: map<Node, Ext>, prev: Links) {
    forall v :: v in prev && v in dist && dist[v].Fin? ==>
      exists fuel: nat :: Back(prev, v, fuel).Some? && Back(prev, v, fuel).value[0] == start
  }

  lemma SearchTight(g: Graph, start: Node, dist: map<Node, Ext>, prev: Links, visited: set<Node>,
                    rank: map<Node, nat>, via: map<Node, real>)
    requires Linked(g, start, dist, prev, visited, rank, via)
    ensures Tight(g, dist, prev)
  {
    forall v | v in prev && prev[v].Some?
      ensures v in dist && prev[v].value in dist && dist[v].Fin? && dist[prev[v].value].Fin? &&
              exists w :: IsEdge(g, prev[v].value, v, w) && dist[v].r == dist[prev[v].value].r + w
    {
      assert Link(g, dist, prev, rank, via, v);
    }
  }

  /** From a visited node, the chain back has at most `rank + 1` nodes and starts at `start`. */
  lemma {:induction false} BackRank(g: Graph, start: Node, dist: map<Node, Ext>, prev: Links, visited: set<Node>,
                                    unvisited: set<Node>, queue: seq<Entry>, rank: map<Node, nat>, via: map<Node, real>, v: Node)
    requires Searching(g, start, dist, prev, visited, unvisited, queue, rank, via)
    requires v in rank && v in prev
    ensures Back(prev, v, rank[v] + 1).Some? && Back(prev, v, rank[v] + 1).value[0] == start
    decreases rank[v]
  {
    match prev[v]
    case None =>
      assert v in dist && dist[v].Fin?;
    case Some(u) =>
      assert Link(g, dist, prev, rank, via, v);
      BackRank(g, start, dist, prev, visited, unvisited, queue, rank, via, u);
      BackMore(prev, u, rank[u] + 1, rank[v]);
  }

  lemma SearchRooted(g: Graph, start: Node, dist: map<Node, Ext>, prev: Links, visited: set<Node>,
                     unvisited: set<Node>, queue: seq<Entry>, rank: map<Node, nat>, via: map<Node, real>)
    requires Searching(g, start, dist, prev, visited, unvisited, queue, rank, via)
    ensures Rooted(start, dist, prev)
  {
    forall v | v in prev && v in dist && dist[v].Fin?
      ensures exists fuel: nat :: Back(prev, v, fuel).Some? && Back(prev, v, fuel).value[0] == start
    {
      if v in rank {
        BackRank(g, start, dist, prev, visited, unvisited, queue, rank, via, v);
      } else if v == start {
        assert Back(prev, v, 1) == Some([v]);
      } else {
        var u := prev[v].value;
        assert Link(g, dist, prev, rank, via, v);
        BackRank(g, start, dist, prev, visited, unvisited, queue, rank, via, u);
        assert Back(prev, v, rank[u] + 2) == Some(Back(prev, u, rank[u] + 1).value + [v]);
      }
    }
  }

  /**
   * When the queue or the unvisited set runs out, every distance is final
   * (when no weight is negative).
   */
  lemma Exhausted(g: Graph, start: Node, dist: map<Node, Ext>, prev: Links, visited: set<Node>,
                  unvisited: set<Node>, queue: seq<Entry>, rank: map<Node, nat>, via: map<Node, real>)
    requires Searching(g, start, dist, prev, visited, unvisited, queue, rank, via)
    requires Relaxed(g, dist, visited, unvisited, None)
    requires |queue| == 0 || |unvisited| == 0
    ensures NonNegative(g) ==> forall v :: v in dist ==> Shortest(g, start, dist, v)
  {
    if NonNegative(g) {
      forall v | v in dist ensures Shortest(g, start, dist, v) {
        if v in visited {
          assert Shortest(g, start, dist, v);
        } else {
          forall p: seq<(Node, real)> | IsWalk(g, start, p) && End(start, p) == v
            ensures dist[v].Fin? && dist[v].r <= Weight(p)
          {
            if p == [] {
              assert dist[start].r <= Weight(p);
            } else {
              assert IsEdge(g, End(start, p[..|p| - 1]), p[|p| - 1].0, p[|p| - 1].1);
              Frontier(g, start, dist, visited, unvisited, p);
              assert false;
            }
          }
        }
      }
    }
  }

  /** What `findShortestPath` returns, whether its loop ran out or stopped at `endNode`. */
  lemma Concluded(g: Graph, start: Node, endNode: Option<Node>, dist: map<Node, Ext>, prev: Links, visited: set<Node>,
                  unvisited: set<Node>, queue: seq<Entry>, rank: map<Node, nat>, via: map<Node, real>)
    requires Searching(g, start, dist, prev, visited, unvisited, queue, rank, via)
    requires ((|queue| == 0 || |unvisited| == 0) && Relaxed(g, dist, visited, unvisited, None)) ||
             (endNode.Some? && endNode.value != "" && endNode.value in visited)
    ensures dist.Keys == g.Keys + {start} && prev.Keys == g.Keys
    ensures dist[start] == Fin(0.0)
    ensures Tight(g, dist, prev) && Rooted(start, dist, prev)
    ensures NonNegative(g) ==>
      forall v :: v in dist && Sought(endNode, v) ==> Shortest(g, start, dist, v)
  {
    if (|queue| == 0 || |unvisited| == 0) && Relaxed(g, dist, visited, unvisited, None) {
      Exhausted(g, start, dist, prev, visited, unvisited, queue, rank, via);
    }
    SearchTight(g, start, dist, prev, visited, rank, via);
    SearchRooted(g, start, dist, prev, visited, unvisited, queue, rank, via);
  }

  /**
   * `findShortestPath`: the distance table, every node of the graph at
   * `Infinity` but `startNode` at 0; then, until the queue or the
   * unvisited set runs out, sort the queue, take its front entry, skip it
   * if its node is already visited, visit it, stop if it is the (truthy)
   * `endNode`, and relax its edges.
   */
  method FindShortestPath(graph: Graph, startNode: Node, endNode: Option<Node> := None)
    returns (distances: map<Node, Ext>, previous: Links)
    ensures distances.Keys == graph.Keys + {startNode} && previous.Keys == graph.Keys
    ensures distances[startNode] == Fin(0.0)
    ensures Tight(graph, distances, previous) && Rooted(startNode, distances, previous)
    ensures NonNegative(graph) ==>
      forall v :: v in distances && Sought(endNode, v) ==> Shortest(graph, startNode, distances, v)
  {
    var unvisited;
    distances, previous, unvisited := Initialize(graph, startNode);
    var visited: set<Node> := {};
    var priorityQueue: seq<Entry> := [(startNode, 0.0)];
    ghost var rank: map<Node, nat> := map[];
    ghost var via: map<Node, real> := map[];
    InitialState(graph, startNode, distances, previous, unvisited);
    while |priorityQueue| > 0 && |unvisited| > 0
      invariant Searching(graph, startNode, distances, previous, visited, unvisited, priorityQueue, rank, via)
      invariant Relaxed(graph, distances, visited, unvisited, None)
      decreases |unvisited|, |priorityQueue|
    {
      var sorted := MergeSort(priorityQueue, Ascending(Distance));
      var (currentNode, currentDistance) := sorted[0];
      if currentNode in visited {
        SkipState(graph, startNode, distances, previous, visited, unvisited, priorityQueue, rank, via, sorted);
        priorityQueue := sorted[1..];
        continue;
      }
      VisitState(graph, startNode, distances, previous, visited, unvisited, priorityQueue, rank, via, sorted);
      priorityQueue := sorted[1..];
      rank := rank[currentNode := |visited|];
      visited := visited + {currentNode};
      if currentNode in unvisited {
        RemoveMember(unvisited, currentNode);
      }
      unvisited := unvisited - {currentNode};
      if endNode.Some? && endNode.value != "" && currentNode == endNode.value {
        break;
      }
      var dist', prev', queue';
      ghost var via';
      dist', prev', queue', via' := Relax(graph, currentNode, currentDistance, distances, previous, unvisited, priorityQueue, via);
      RelaxKeeps(graph, startNode, currentNode, currentDistance, visited, unvisited, rank,
                 distances, previous, priorityQueue, via, dist', prev', queue', via');
      distances, previous, priorityQueue, via := dist', prev', queue', via';
    }
    Concluded(graph, startNode, endNode, distances, previous, visited, unvisited, priorityQueue, rank, via);
  }

  // ---------------------------------------------------------------------
  // Walking `previous` back
  // ---------------------------------------------------------------------

  /**
   * Under tight links, the chain back from `v` that starts at `start` is
   * the route of a walk from `start` whose weight is `v`'s distance.
   */
  lemma {:induction false} BackWalk(g: Graph, start: Node, dist: map<Node, Ext>, prev: Links, v: Node, fuel: nat)
    requires Tight(g, dist, prev) && start in dist && dist[start] == Fin(0.0)
    requires Back(prev, v, fuel).Some? && Back(prev, v, fuel).value[0] == start
    ensures v in dist && dist[v].Fin?
    ensures exists p :: IsWalk(g, start, p) && Route(start, p) == Back(prev, v, fuel).value && Weight(p) == dist[v].r
    decreases fuel
  {
    match prev[v]
    case None =>
      assert Back(prev, v, fuel).value == [v];
      assert IsWalk(g, start, []) && Route(start, []) == [v] && Weight([]) == dist[v].r;
    case Some(u) =>
      var c := Back(prev, u, fuel - 1).value;
      assert Back(prev, v, fuel).value == c + [v];
      BackWalk(g, start, dist, prev, u, fuel - 1);
      var p :| IsWalk(g, start, p) && Route(start, p) == c && Weight(p) == dist[u].r;
      var w :| IsEdge(g, u, v, w) && dist[v].r == dist[u].r + w;
      WalkSnoc(g, start, p, v, w);
  }

  /**
   * The chain `reconstructPath` returns is the route of a walk from
   * `startNode` whose weight is the distance `findShortestPath` gave its
   * last node.
   */
  lemma ChainWalk(g: Graph, start: Node, dist: map<Node, Ext>, prev: Links, path: seq<Node>)
    requires Tight(g, dist, prev) && start in dist && dist[start] == Fin(0.0)
    requires PrevLinked(prev, path) && path[0] == start
    ensures path[|path| - 1] in dist && dist[path[|path| - 1]].Fin?
    ensures exists p :: IsWalk(g, start, p) && Route(start, p) == path && Weight(p) == dist[path[|path| - 1]].r
  {
    BackFinds(prev, path);
    BackWalk(g, start, dist, prev, path[|path| - 1], |path|);
  }

  /** A node of the graph that no walk from `start` reaches keeps `Infinity`. */
  lemma Unreachable(g: Graph, start: Node, dist: map<Node, Ext>, prev: Links, v: Node)
    requires Tight(g, dist, prev) && Rooted(start, dist, prev) && start in dist && dist[start] == Fin(0.0)
    requires v in prev && v in dist
    requires forall p :: IsWalk(g, start, p) ==> End(start, p) != v
    ensures dist[v] == Inf
  {
    if dist[v].Fin? {
      var fuel: nat :| Back(prev, v, fuel).Some? && Back(prev, v, fuel).value[0] == start;
      BackWalk(g, start, dist, prev, v, fuel);
      assert false;
    }
  }

  /** A reached node of the graph has a walk from `start` of exactly its distance. */
  lemma Reached(g: Graph, start: Node, dist: map<Node, Ext>, prev: Links, v: Node)
    requires Tight(g, dist, prev) && Rooted(start, dist, prev) && start in dist && dist[start] == Fin(0.0)
    requires v in prev && v in dist && dist[v].Fin?
    ensures exists p :: IsWalk(g, start, p) && End(start, p) == v && Weight(p) == dist[v].r
  {
    var fuel: nat :| Back(prev, v, fuel).Some? && Back(prev, v, fuel).value[0] == start;
    BackWalk(g, start, dist, prev, v, fuel);
  }

  // ---------------------------------------------------------------------
  // Nearest equipment
  // ---------------------------------------------------------------------

  /** An equipment location together with its distance from the user. */
  datatype Nearby<L> = Nearby(loc: L, distance: real)

  function Far<L>(x: Nearby<L>): real { x.distance }

  /**
   * `distances[loc.id] || Infinity`: a missing id and a distance of 0 both
   * read as `Infinity`.
   */
  function Reach(distances: map<Node, Ext>, id: Node): (r: Ext)
    ensures r.Fin? <==> id in distances && distances[id].Fin? && distances[id].r != 0.0
    ensures r.Fin? ==> r == distances[id]
  {
    if id in distances && distances[id] != Fin(0.0) then distances[id] else Inf
  }

  /** The `map` then the `filter(loc => loc.distance !== Infinity)`. */
  function Candidates<L>(distances: map<Node, Ext>, locs: seq<L>, id: L -> Node): (r: seq<Nearby<L>>)
    ensures forall x :: x in r ==> x.loc in locs && Reach(distances, id(x.loc)) == Fin(x.distance)
    ensures forall loc :: loc in locs && Reach(distances, id(loc)).Fin? ==>
      Nearby(loc, Reach(distances, id(loc)).r) in r
    decreases |locs|
  {
    if locs == [] then []
    else
      var rest := Candidates(distances, locs[1..], id);
      match Reach(distances, id(locs[0]))
      case Fin(d) => [Nearby(locs[0], d)] + rest
      case Inf => rest
  }

  /** `slice(0, end)`: a negative `end` counts back from the length. */
  function Slice<T>(s: seq<T>, end: int): (r: seq<T>)
    ensures |r| <= |s| && r == s[..|r|]
    ensures end >= 0 ==> |r| == Min(end, |s|)
    ensures end < 0 ==> |r| == if |s| + end < 0 then 0 else |s| + end
  {
    if end >= 0 then s[..Min(end, |s|)]
    else if |s| + end < 0 then []
    else s[..|s| + end]
  }

  /** The pipeline after the search: tag, drop the unreached, sort by distance, keep the first `maxResults`. */
  function Nearest<L>(distances: map<Node, Ext>, locs: seq<L>, id: L -> Node, maxResults: int): seq<Nearby<L>> {
    Slice(MergeSort(Candidates(distances, locs, id), Ascending(Far)), maxResults)
  }

  /** The map and the filter keep the order of `equipmentLocations`. */
  lemma {:induction false} CandidatesInOrder<L>(distances: map<Node, Ext>, a: seq<L>, b: seq<L>, id: L -> Node)
    ensures Candidates(distances, a + b, id) == Candidates(distances, a, id) + Candidates(distances, b, id)
    decreases |a|
  {
    if a != [] {
      assert (a + b)[0] == a[0] && (a + b)[1..] == a[1..] + b;
      CandidatesInOrder(distances, a[1..], b, id);
      var r := Reach(distances, id(a[0]));
      if r.Fin? {
        SeqAssoc([Nearby(a[0], r.r)], Candidates(distances, a[1..], id), Candidates(distances, b, id));
      }
    } else {
      assert a + b == b;
    }
  }

  /**
   * `maxResults` entries, or every reached location when there are fewer
   * (a negative `maxResults` drops that many from the end), each a reached
   * location at its distance, nearest first, and locations at the same
   * distance in their input order.
   */
  lemma NearestMeaning<L(!new)>(distances: map<Node, Ext>, locs: seq<L>, id: L -> Node, maxResults: int)
    ensures var c := Candidates(distances, locs, id);
      var r := Nearest(distances, locs, id, maxResults);
      (maxResults >= 0 ==> |r| == Min(maxResults, |c|)) &&
      (forall x :: x in r ==> x.loc in locs && Reach(distances, id(x.loc)) == Fin(x.distance)) &&
      (forall i, j :: 0 <= i < j < |r| ==> r[i].distance <= r[j].distance) &&
      r == MergeSort(c, Ascending(Far))[..|r|] &&
      StableOf(MergeSort(c, Ascending(Far)), c, Ascending(Far))
  {
    var c := Candidates(distances, locs, id);
    var s := MergeSort(c, Ascending(Far));
    var r := Nearest(distances, locs, id, maxResults);
    SortedByKey(c, Far);
    forall x | x in r ensures x in c {
      assert x in multiset(s);
    }
  }

  /** No reached location left out is nearer than one kept. */
  lemma NearestClosest<L(!new)>(distances: map<Node, Ext>, locs: seq<L>, id: L -> Node, maxResults: int, loc: L)
    requires loc in locs && Reach(distances, id(loc)).Fin?
    requires Nearby(loc, Reach(distances, id(loc)).r) !in Nearest(distances, locs, id, maxResults)
    ensures forall x :: x in Nearest(distances, locs, id, maxResults) ==> x.distance <= Reach(distances, id(loc)).r
  {
    var c := Candidates(distances, locs, id);
    var r := Nearest(distances, locs, id, maxResults);
    KeptSmallest(c, Far, |r|, Nearby(loc, Reach(distances, id(loc)).r));
  }

  /**
   * `findNearestEquipment(userLocation, equipmentLocations, maxResults)`:
   * the distances from `userLocation` with no `endNode`, then the nearest-k
   * pipeline over them.  Each entry's distance is the weight of a walk to
   * it, and, when no weight is negative, the least such weight; no reached
   * location left out is nearer than one kept.
   */
  method FindNearestEquipment<L(!new)>(graph: Graph, userLocation: Node, equipmentLocations: seq<L>, id: L -> Node,
                                 maxResults: int := 5)
    returns (results: seq<Nearby<L>>, ghost distances: map<Node, Ext>)
    ensures distances.Keys == graph.Keys + {userLocation} && distances[userLocation] == Fin(0.0)
    ensures forall v :: v in graph && distances[v].Fin? ==>
      exists p :: IsWalk(graph, userLocation, p) && End(userLocation, p) == v && Weight(p) == distances[v].r
    ensures NonNegative(graph) ==> forall v :: v in distances ==> Shortest(graph, userLocation, distances, v)
    ensures results == Nearest(distances, equipmentLocations, id, maxResults)
    ensures maxResults >= 0 ==> |results| == Min(maxResults, |Candidates(distances, equipmentLocations, id)|)
    ensures forall i, j :: 0 <= i < j < |results| ==> results[i].distance <= results[j].distance
    ensures forall x :: x in results ==>
      x.loc in equipmentLocations && x.distance != 0.0 &&
      exists p :: IsWalk(graph, userLocation, p) && End(userLocation, p) == id(x.loc) && Weight(p) == x.distance
    ensures NonNegative(graph) ==> forall x, p :: x in results && IsWalk(graph, userLocation, p) && End(userLocation, p) == id(x.loc) ==>
      x.distance <= Weight(p)
    ensures forall loc ::
      loc in equipmentLocations && Reach(distances, id(loc)).Fin? && Nearby(loc, Reach(distances, id(loc)).r) !in results ==>
        forall x :: x in results ==> x.distance <= Reach(distances, id(loc)).r
  {
    var found, previous := FindShortestPath(graph, userLocation, None);
    distances := found;
    results := Nearest(found, equipmentLocations, id, maxResults);
    NearestMeaning(distances, equipmentLocations, id, maxResults);
    forall v | v in graph && distances[v].Fin?
      ensures exists p :: IsWalk(graph, userLocation, p) && End(userLocation, p) == v && Weight(p) == distances[v].r
    {
      Reached(graph, userLocation, distances, previous, v);
    }
    forall x | x in results
      ensures exists p :: IsWalk(graph, userLocation, p) && End(userLocation, p) == id(x.loc) && Weight(p) == x.distance
    {
      Reached(graph, userLocation, distances, previous, id(x.loc));
    }
    if NonNegative(graph) {
      forall x, p | x in results && IsWalk(graph, userLocation, p) && End(userLocation, p) == id(x.loc)
        ensures x.distance <= Weight(p)
      {
        assert Sought(None, id(x.loc));
      }
    }
    forall loc | loc in equipmentLocations && Reach(distances, id(loc)).Fin? && Nearby(loc, Reach(distances, id(loc)).r) !in results
      ensures forall x :: x in results ==> x.distance <= Reach(distances, id(loc)).r
    {
      NearestClosest(distances, equipmentLocations, id, maxResults, loc);
    }
  }
}
