/**
 * `graph/graphBuilder.js`: the adjacency map `DijkstraAlgorithm` searches,
 * built from equipment rows by joining every two located items that lie
 * within 50 km of each other, in both directions.
 *
 * The great-circle distance is floating-point trigonometry; the builder is
 * given it as a function and nothing is assumed about it.
 */
module GraphBuilding {
  import opened Common
  import opened ShortestPaths

  /** The `metadata` `buildFromEquipment` attaches to a node. */
  datatype Meta = Meta(name: string, price: real, available: bool)

  /** A `locations` entry: `{ id, latitude, longitude, ...metadata }`. */
  datatype Place = Place(id: Node, latitude: real, longitude: real, meta: Option<Meta>)

  /** An equipment row as the builder reads it; a coordinate is `None` when missing. */
  datatype Site = Site(id: Node, latitude: Option<real>, longitude: Option<real>,
                       name: string, pricePerDay: real, available: bool)

  /** `calculateDistance(lat1, lon1, lat2, lon2)`. */
  type Haversine = (real, real, real, real) -> real

  /** Only pairs at most this many kilometres apart are joined. */
  const Threshold: real := 50.0

  /** `eq.latitude && eq.longitude`: both present and non-zero. */
  predicate HasCoordinates(s: Site) {
    s.latitude.Some? && s.latitude.value != 0.0 && s.longitude.Some? && s.longitude.value != 0.0
  }

  function PlaceOf(s: Site): Place
    requires HasCoordinates(s)
  {
    Place(s.id, s.latitude.value, s.longitude.value, Some(Meta(s.name, s.pricePerDay, s.available)))
  }

  /** The locations after `addNode` for every located row, in order. */
  function Registered(locs: map<Node, Place>, sites: seq<Site>): map<Node, Place>
    decreases |sites|
  {
    if sites == [] then locs
    else
      var before := Registered(locs, sites[..|sites| - 1]);
      var s := sites[|sites| - 1];
      if HasCoordinates(s) then before[s.id := PlaceOf(s)] else before
  }

  /** The last located row with id `v`. */
  function LastSite(sites: seq<Site>, v: Node): (r: Option<Site>)
    ensures r.Some? ==> r.value in sites && HasCoordinates(r.value) && r.value.id == v
    ensures r.None? ==> forall s :: s in sites && HasCoordinates(s) ==> s.id != v
    decreases |sites|
  {
    if sites == [] then None
    else if HasCoordinates(sites[|sites| - 1]) && sites[|sites| - 1].id == v then Some(sites[|sites| - 1])
    else LastSite(sites[..|sites| - 1], v)
  }

  /**
   * Registering rows adds a node exactly for each located row, holding the
   * last such row with that id, and leaves every other node as it was.
   */
  lemma {:induction false} RegisteredMeaning(locs: map<Node, Place>, sites: seq<Site>, v: Node)
    ensures v in Registered(locs, sites) <==> v in locs || LastSite(sites, v).Some?
    ensures LastSite(sites, v).Some? ==> Registered(locs, sites)[v] == PlaceOf(LastSite(sites, v).value)
    ensures LastSite(sites, v).None? && v in locs ==> Registered(locs, sites)[v] == locs[v]
    decreases |sites|
  {
    if sites != [] {
      RegisteredMeaning(locs, sites[..|sites| - 1], v);
    }
  }

  /** A directed edge `(from, to, weight)` added by `buildFromEquipment`. */
  type Arc = (Node, Node, real)

  /** The `[to, weight]` entries the arcs append to `v`'s list, in order. */
  function Outgoing(arcs: seq<Arc>, v: Node): seq<(Node, real)>
    decreases |arcs|
  {
    if arcs == [] then []
    else
      var a := arcs[|arcs| - 1];
      Outgoing(arcs[..|arcs| - 1], v) + if a.0 == v then [(a.1, a.2)] else []
  }

  /** `v`'s list holds `[w, x]` exactly when some arc runs from `v` to `w` at weight `x`. */
  lemma {:induction false} OutgoingMeaning(arcs: seq<Arc>, v: Node, w: Node, x: real)
    ensures (w, x) in Outgoing(arcs, v) <==> (v, w, x) in arcs
    decreases |arcs|
  {
    if arcs != [] {
      var init := arcs[..|arcs| - 1];
      OutgoingMeaning(init, v, w, x);
      assert arcs == init + [arcs[|arcs| - 1]];
    }
  }

  /** The ids of `nodeIds`, all registered. */
  ghost predicate Known(ids: seq<Node>, locations: map<Node, Place>) {
    forall k :: 0 <= k < |ids| ==> ids[k] in locations
  }

  /** `calculateDistance(loc1.latitude, loc1.longitude, loc2.latitude, loc2.longitude)`. */
  function Span(measure: Haversine, locations: map<Node, Place>, u: Node, v: Node): real
    requires u in locations && v in locations
  {
    measure(locations[u].latitude, locations[u].longitude, locations[v].latitude, locations[v].longitude)
  }

  /** The pair `(i, j)`, `i < j`: both arcs when within the threshold, else none. */
  function Join(ids: seq<Node>, locations: map<Node, Place>, measure: Haversine, i: nat, j: nat): seq<Arc>
    requires i < j < |ids| && Known(ids, locations)
  {
    var d := Span(measure, locations, ids[i], ids[j]);
    if d <= Threshold then [(ids[i], ids[j], d), (ids[j], ids[i], d)] else []
  }

  /** The arcs of the pairs `(i, k)`, `i < k < j`, in the inner loop's order. */
  function Row(ids: seq<Node>, locations: map<Node, Place>, measure: Haversine, i: nat, j: nat): seq<Arc>
    requires i < |ids| && j <= |ids| && Known(ids, locations)
    decreases j
  {
    if j <= i + 1 then [] else Row(ids, locations, measure, i, j - 1) + Join(ids, locations, measure, i, j - 1)
  }

  /** The arcs of the first `i` rounds of the outer loop. */
  function Rows(ids: seq<Node>, locations: map<Node, Place>, measure: Haversine, i: nat): seq<Arc>
    requires i <= |ids| && Known(ids, locations)
    decreases i
  {
    if i == 0 then [] else Rows(ids, locations, measure, i - 1) + Row(ids, locations, measure, i - 1, |ids|)
  }

  /** Every arc the nested loops add. */
  function Connections(ids: seq<Node>, locations: map<Node, Place>, measure: Haversine): seq<Arc>
    requires Known(ids, locations)
  {
    Rows(ids, locations, measure, |ids|)
  }

  /** The same arc run the other way. */
  function Flip(a: Arc): Arc { (a.1, a.0, a.2) }

  /** Every arc is listed the other way too. */
  ghost predicate Symmetric(arcs: seq<Arc>) {
    forall a {:trigger Flip(a)} :: a in arcs ==> Flip(a) in arcs
  }

  /** Every arc joins two different nodes at most `Threshold` apart. */
  ghost predicate Short(arcs: seq<Arc>) {
    forall a :: a in arcs ==> a.0 != a.1 && a.2 <= Threshold
  }

  ghost predicate Distinct(ids: seq<Node>) {
    forall i, j :: 0 <= i < j < |ids| ==> ids[i] != ids[j]
  }

  /** Both properties survive concatenation. */
  lemma AppendShape(s: seq<Arc>, t: seq<Arc>)
    requires Symmetric(s) && Short(s) && Symmetric(t) && Short(t)
    ensures Symmetric(s + t) && Short(s + t)
  {
    forall a | a in s + t
      ensures Flip(a) in s + t && a.0 != a.1 && a.2 <= Threshold
    {
      if a in s {
        assert Flip(a) in s;
      } else {
        assert Flip(a) in t;
      }
    }
  }

  lemma {:induction false} RowShape(ids: seq<Node>, locations: map<Node, Place>, measure: Haversine, i: nat, j: nat)
    requires i < |ids| && j <= |ids| && Known(ids, locations) && Distinct(ids)
    ensures Symmetric(Row(ids, locations, measure, i, j)) && Short(Row(ids, locations, measure, i, j))
    decreases j
  {
    if j > i + 1 {
      RowShape(ids, locations, measure, i, j - 1);
      assert ids[i] != ids[j - 1];
      AppendShape(Row(ids, locations, measure, i, j - 1), Join(ids, locations, measure, i, j - 1));
    }
  }

  /** `AppendShape` for a list known to be the concatenation. */
  lemma AppendShapeTo(s: seq<Arc>, t: seq<Arc>, u: seq<Arc>)
    requires Symmetric(s) && Short(s) && Symmetric(t) && Short(t) && u == s + t
    ensures Symmetric(u) && Short(u)
  {
    AppendShape(s, t);
  }

  lemma RowsCons(ids: seq<Node>, locations: map<Node, Place>, measure: Haversine, i: nat)
    requires 0 < i <= |ids| && Known(ids, locations)
    ensures Rows(ids, locations, measure, i) == Rows(ids, locations, measure, i - 1) + Row(ids, locations, measure, i - 1, |ids|)
  {
  }

  /** The arcs added are symmetric, never loops, and never longer than the threshold. */
  lemma {:induction false} RowsShape(ids: seq<Node>, locations: map<Node, Place>, measure: Haversine, i: nat)
    requires i <= |ids| && Known(ids, locations) && Distinct(ids)
    ensures Symmetric(Rows(ids, locations, measure, i)) && Short(Rows(ids, locations, measure, i))
    decreases i
  {
    if i > 0 {
      RowsShape(ids, locations, measure, i - 1);
      RowShape(ids, locations, measure, i - 1, |ids|);
      RowsCons(ids, locations, measure, i);
      AppendShapeTo(Rows(ids, locations, measure, i - 1), Row(ids, locations, measure, i - 1, |ids|),
                    Rows(ids, locations, measure, i));
    }
  }

  lemma {:induction false} RowHas(ids: seq<Node>, locations: map<Node, Place>, measure: Haversine, i: nat, j: nat, k: nat)
    requires i < k < j <= |ids| && Known(ids, locations)
    requires Span(measure, locations, ids[i], ids[k]) <= Threshold
    ensures (ids[i], ids[k], Span(measure, locations, ids[i], ids[k])) in Row(ids, locations, measure, i, j)
    decreases j
  {
    if k < j - 1 {
      RowHas(ids, locations, measure, i, j - 1, k);
    }
  }

  lemma {:induction false} RowsHave(ids: seq<Node>, locations: map<Node, Place>, measure: Haversine, n: nat, i: nat, k: nat)
    requires i < k < |ids| && i < n <= |ids| && Known(ids, locations)
    requires Span(measure, locations, ids[i], ids[k]) <= Threshold
    ensures (ids[i], ids[k], Span(measure, locations, ids[i], ids[k])) in Rows(ids, locations, measure, n)
    decreases n
  {
    if i < n - 1 {
      RowsHave(ids, locations, measure, n - 1, i, k);
    } else {
      RowHas(ids, locations, measure, i, |ids|, k);
    }
  }

  /**
   * Every two nodes, the earlier `i` and the later `k` in `nodeIds`, within
   * the threshold of each other are joined both ways at that distance; and
   * what is joined is only that.
   */
  lemma ConnectionsMeaning(ids: seq<Node>, locations: map<Node, Place>, measure: Haversine)
    requires Known(ids, locations) && Distinct(ids)
    ensures Symmetric(Connections(ids, locations, measure)) && Short(Connections(ids, locations, measure))
    ensures forall i, k :: 0 <= i < k < |ids| && Span(measure, locations, ids[i], ids[k]) <= Threshold ==>
      (ids[i], ids[k], Span(measure, locations, ids[i], ids[k])) in Connections(ids, locations, measure) &&
      (ids[k], ids[i], Span(measure, locations, ids[i], ids[k])) in Connections(ids, locations, measure)
  {
    RowsShape(ids, locations, measure, |ids|);
    forall i, k | 0 <= i < k < |ids| && Span(measure, locations, ids[i], ids[k]) <= Threshold
      ensures (ids[i], ids[k], Span(measure, locations, ids[i], ids[k])) in Connections(ids, locations, measure)
      ensures (ids[k], ids[i], Span(measure, locations, ids[i], ids[k])) in Connections(ids, locations, measure)
    {
      RowsHave(ids, locations, measure, |ids|, i, k);
      assert Flip((ids[i], ids[k], Span(measure, locations, ids[i], ids[k]))) ==
        (ids[k], ids[i], Span(measure, locations, ids[i], ids[k]));
    }
  }

  /** Adjacency lists built from symmetric arcs: `u` lists `v` at `w` exactly when `v` lists `u` at `w`. */
  lemma OutgoingSymmetric(arcs: seq<Arc>, u: Node, v: Node, w: real)
    requires Symmetric(arcs)
    ensures (v, w) in Outgoing(arcs, u) <==> (u, w) in Outgoing(arcs, v)
  {
    OutgoingMeaning(arcs, u, v, w);
    OutgoingMeaning(arcs, v, u, w);
    assert Flip((u, v, w)) == (v, u, w) && Flip((v, u, w)) == (u, v, w);
  }

  /**
   * The lists `buildFromEquipment` adds to nodes that had none: an entry
   * `[w, x]` under `v` has a twin `[v, x]` under `w`, never points back
   * at `v` itself and never exceeds the threshold; and every two listed
   * nodes within the threshold appear in each other's lists.
   */
  lemma {:induction false} BuiltGraph(base: Graph, g: Graph, ids: seq<Node>, locations: map<Node, Place>, measure: Haversine)
    requires Known(ids, locations) && Distinct(ids)
    requires forall v :: v in g ==> g[v] == Neighbors(base, v) + Outgoing(Connections(ids, locations, measure), v)
    ensures forall u, v, x :: u in g && v in g && Neighbors(base, u) == [] && Neighbors(base, v) == [] ==>
      ((v, x) in g[u] <==> (u, x) in g[v])
    ensures forall u, v, x :: u in g && Neighbors(base, u) == [] && (v, x) in g[u] ==> u != v && x <= Threshold
    ensures forall i, k ::
      (0 <= i < k < |ids| && ids[i] in g && ids[k] in g && Span(measure, locations, ids[i], ids[k]) <= Threshold) ==>
      (ids[k], Span(measure, locations, ids[i], ids[k])) in g[ids[i]] &&
      (ids[i], Span(measure, locations, ids[i], ids[k])) in g[ids[k]]
  {
    var arcs := Connections(ids, locations, measure);
    ConnectionsMeaning(ids, locations, measure);
    forall u, v, x | u in g && v in g && Neighbors(base, u) == [] && Neighbors(base, v) == []
      ensures (v, x) in g[u] <==> (u, x) in g[v]
    {
      assert g[u] == Outgoing(arcs, u) && g[v] == Outgoing(arcs, v);
      OutgoingSymmetric(arcs, u, v, x);
    }
    forall u, v, x | u in g && Neighbors(base, u) == [] && (v, x) in g[u]
      ensures u != v && x <= Threshold
    {
      assert g[u] == Outgoing(arcs, u);
      OutgoingMeaning(arcs, u, v, x);
    }
    forall i, k | 0 <= i < k < |ids| && ids[i] in g && ids[k] in g && Span(measure, locations, ids[i], ids[k]) <= Threshold
      ensures (ids[k], Span(measure, locations, ids[i], ids[k])) in g[ids[i]]
      ensures (ids[i], Span(measure, locations, ids[i], ids[k])) in g[ids[k]]
    {
      var d := Span(measure, locations, ids[i], ids[k]);
      OutgoingMeaning(arcs, ids[i], ids[k], d);
      OutgoingMeaning(arcs, ids[k], ids[i], d);
    }
  }

  /** Appending one arc's entry to its source's list extends every list by that arc's `Outgoing`. */
  lemma AppendArc(base: Graph, g: Graph, arcs: seq<Arc>, a: Arc)
    requires g.Keys == base.Keys && a.0 in g
    requires forall v :: v in g ==> g[v] == base[v] + Outgoing(arcs, v)
    ensures var g' := g[a.0 := Neighbors(g, a.0) + [(a.1, a.2)]];
      g'.Keys == base.Keys && forall v :: v in g' ==> g'[v] == base[v] + Outgoing(arcs + [a], v)
  {
    assert (arcs + [a])[..|arcs|] == arcs;
  }

  /** The arcs one pair adds: both directions when within the threshold, none otherwise. */
  ghost function Extend(arcs: seq<Arc>, u: Node, v: Node, d: real): seq<Arc>
  {
    if d <= Threshold then arcs + [(u, v, d)] + [(v, u, d)] else arcs
  }

  /** One more pair of the inner loop appends that pair's arcs, or nothing when it is too far. */
  lemma RowStep(ids: seq<Node>, locations: map<Node, Place>, measure: Haversine, i: nat, j: nat, arcs: seq<Arc>, d: real)
    requires i < j < |ids| && Known(ids, locations)
    requires arcs == Rows(ids, locations, measure, i) + Row(ids, locations, measure, i, j)
    requires d == Span(measure, locations, ids[i], ids[j])
    ensures Extend(arcs, ids[i], ids[j], d) == Rows(ids, locations, measure, i) + Row(ids, locations, measure, i, j + 1)
  {
    var rows, row := Rows(ids, locations, measure, i), Row(ids, locations, measure, i, j);
    if d <= Threshold {
      assert Row(ids, locations, measure, i, j + 1) == row + [(ids[i], ids[j], d), (ids[j], ids[i], d)];
      assert rows + (row + [(ids[i], ids[j], d), (ids[j], ids[i], d)]) == rows + row + [(ids[i], ids[j], d)] + [(ids[j], ids[i], d)];
    } else {
      assert Row(ids, locations, measure, i, j + 1) == row + [];
      assert row + [] == row;
    }
  }

  /** The inner loop starts with no arcs of its own. */
  lemma RowStart(ids: seq<Node>, locations: map<Node, Place>, measure: Haversine, i: nat)
    requires i < |ids| && Known(ids, locations)
    ensures Rows(ids, locations, measure, i) + Row(ids, locations, measure, i, i + 1) == Rows(ids, locations, measure, i)
  {
    assert Row(ids, locations, measure, i, i + 1) == [];
  }

  class GraphBuilder {
    var graph: Graph
    var locations: map<Node, Place>
    /** The keys of the `locations` Map in insertion order, as `locations.keys()` yields them. */
    var order: seq<Node>
    const calculateDistance: Haversine

    ghost predicate Valid()
      reads this
    {
      locations.Keys <= graph.Keys &&
      (forall v :: v in locations <==> v in order) &&
      Distinct(order)
    }

    constructor(calculateDistance: Haversine)
      ensures Valid()
      ensures graph == map[] && locations == map[] && order == []
      ensures this.calculateDistance == calculateDistance
    {
      graph := map[];
      locations := map[];
      order := [];
      this.calculateDistance := calculateDistance;
    }

    /**
     * `addNode(nodeId, latitude, longitude, metadata)`: record the location
     * (a known id keeps its place in the order) and give the node an empty
     * list only if it has none, so edges already there are kept.
     */
    method AddNode(nodeId: Node, latitude: real, longitude: real, metadata: Option<Meta> := None)
      requires Valid()
      modifies this
      ensures Valid()
      ensures locations == old(locations)[nodeId := Place(nodeId, latitude, longitude, metadata)]
      ensures nodeId in old(graph) ==> graph == old(graph)
      ensures nodeId !in old(graph) ==> graph == old(graph)[nodeId := []]
      ensures order == if nodeId in old(locations) then old(order) else old(order) + [nodeId]
    {
      if nodeId !in locations {
        order := order + [nodeId];
      }
      locations := locations[nodeId := Place(nodeId, latitude, longitude, metadata)];
      if nodeId !in graph {
        graph := graph[nodeId := []];
      }
    }

    /**
     * `addEdge(fromNode, toNode, weight)`: append one `[toNode, weight]` to
     * `fromNode`'s list, creating it if missing.  An omitted weight is the
     * distance between the two locations when both are known, else 1.
     */
    method AddEdge(fromNode: Node, toNode: Node, weight: Option<real> := None)
      modifies this
      ensures locations == old(locations) && order == old(order)
      ensures weight.Some? ==> graph == old(graph)[fromNode := Neighbors(old(graph), fromNode) + [(toNode, weight.value)]]
      ensures weight.None? && fromNode in locations && toNode in locations ==>
        graph == old(graph)[fromNode := Neighbors(old(graph), fromNode) + [(toNode, Span(calculateDistance, locations, fromNode, toNode))]]
      ensures weight.None? && (fromNode !in locations || toNode !in locations) ==>
        graph == old(graph)[fromNode := Neighbors(old(graph), fromNode) + [(toNode, 1.0)]]
    {
      if fromNode !in graph {
        graph := graph[fromNode := []];
      }
      var w: real;
      if weight.None? {
        if fromNode in locations && toNode in locations {
          var fromLoc, toLoc := locations[fromNode], locations[toNode];
          w := calculateDistance(fromLoc.latitude, fromLoc.longitude, toLoc.latitude, toLoc.longitude);
        } else {
          w := 1.0;
        }
      } else {
        w := weight.value;
      }
      graph := graph[fromNode := graph[fromNode] + [(toNode, w)]];
    }

    /** The first half of `buildFromEquipment`: `addNode` for every row with both coordinates. */
    method AddLocated(equipmentList: seq<Site>)
      requires Valid()
      modifies this
      ensures Valid()
      ensures locations == Registered(old(locations), equipmentList)
      ensures |old(order)| <= |order| && old(order) == order[..|old(order)|]
      ensures graph.Keys == old(graph).Keys + locations.Keys
      ensures forall v :: v in graph ==> graph[v] == Neighbors(old(graph), v)
    {
      ghost var g0 := graph;
      ghost var o0 := order;
      ghost var l0 := locations;
      for k := 0 to |equipmentList|
        invariant Valid()
        invariant locations == Registered(l0, equipmentList[..k])
        invariant |o0| <= |order| && o0 == order[..|o0|]
        invariant graph.Keys == g0.Keys + locations.Keys
        invariant forall v :: v in graph ==> graph[v] == Neighbors(g0, v)
      {
        var eq := equipmentList[k];
        assert equipmentList[..k + 1][..k] == equipmentList[..k];
        if HasCoordinates(eq) {
          AddNode(eq.id, eq.latitude.value, eq.longitude.value, Some(Meta(eq.name, eq.pricePerDay, eq.available)));
        }
      }
      assert equipmentList[..|equipmentList|] == equipmentList;
    }

    /** One round of the outer loop: pair node `i` with every later node. */
    method ConnectFrom(nodeIds: seq<Node>, i: nat, ghost g1: Graph)
      requires nodeIds == order && i < |nodeIds| && Known(nodeIds, locations) && locations.Keys <= graph.Keys
      requires graph.Keys == g1.Keys
      requires forall v :: v in graph ==> graph[v] == g1[v] + Outgoing(Rows(nodeIds, locations, calculateDistance, i), v)
      modifies this
      ensures locations == old(locations) && order == old(order)
      ensures graph.Keys == g1.Keys
      ensures forall v :: v in graph ==> graph[v] == g1[v] + Outgoing(Rows(nodeIds, locations, calculateDistance, i + 1), v)
    {
      ghost var locs := locations;
      RowStart(nodeIds, locs, calculateDistance, i);
      ghost var arcs := Rows(nodeIds, locs, calculateDistance, i);
      var j := i + 1;
      while j < |nodeIds|
        invariant i + 1 <= j <= |nodeIds|
        invariant arcs == Rows(nodeIds, locs, calculateDistance, i) + Row(nodeIds, locs, calculateDistance, i, j)
        invariant locations == locs && order == nodeIds
        invariant graph.Keys == g1.Keys
        invariant forall v :: v in graph ==> graph[v] == g1[v] + Outgoing(arcs, v)
      {
        var loc1, loc2 := locations[nodeIds[i]], locations[nodeIds[j]];
        var distance := calculateDistance(loc1.latitude, loc1.longitude, loc2.latitude, loc2.longitude);
        RowStep(nodeIds, locs, calculateDistance, i, j, arcs, distance);
        Connect(nodeIds[i], nodeIds[j], distance, g1, arcs);
        arcs := Rows(nodeIds, locs, calculateDistance, i) + Row(nodeIds, locs, calculateDistance, i, j + 1);
        j := j + 1;
      }
    }

    /** The test in the inner loop: the arc each way when the pair lies within the threshold. */
    method Connect(u: Node, v: Node, d: real, ghost g1: Graph, ghost arcs: seq<Arc>)
      requires u in graph && v in graph
      requires graph.Keys == g1.Keys
      requires forall w :: w in graph ==> graph[w] == g1[w] + Outgoing(arcs, w)
      modifies this
      ensures locations == old(locations) && order == old(order)
      ensures graph.Keys == g1.Keys
      ensures forall w :: w in graph ==> graph[w] == g1[w] + Outgoing(Extend(arcs, u, v, d), w)
    {
      if d <= Threshold {
        AppendArc(g1, graph, arcs, (u, v, d));
        AddEdge(u, v, Some(d));
        AppendArc(g1, graph, arcs + [(u, v, d)], (v, u, d));
        AddEdge(v, u, Some(d));
      }
    }

    /**
     * The second half of `buildFromEquipment`: for every two nodes in
     * insertion order, both arcs when they lie within the threshold.
     */
    method ConnectNearby()
      requires Valid()
      modifies this
      ensures Valid() && locations == old(locations) && order == old(order)
      ensures graph.Keys == old(graph).Keys
      ensures Known(order, locations) &&
        forall v :: v in graph ==> graph[v] == old(graph)[v] + Outgoing(Connections(order, locations, calculateDistance), v)
    {
      var nodeIds := order;
      ghost var g1 := graph;
      ghost var l1 := locations;
      assert Known(nodeIds, locations);
      for i := 0 to |nodeIds|
        invariant locations == l1 && order == nodeIds
        invariant graph.Keys == g1.Keys
        invariant forall v :: v in graph ==> graph[v] == g1[v] + Outgoing(Rows(nodeIds, locations, calculateDistance, i), v)
      {
        ConnectFrom(nodeIds, i, g1);
      }
    }

    /**
     * `buildFromEquipment(equipmentList)`: a node for every row with both
     * coordinates, then the arcs between nearby nodes.  Lists already
     * present keep their entries in front.
     */
    method BuildFromEquipment(equipmentList: seq<Site>) returns (g: Graph)
      requires Valid()
      modifies this
      ensures Valid() && g == graph
      ensures locations == Registered(old(locations), equipmentList)
      ensures |old(order)| <= |order| && old(order) == order[..|old(order)|]
      ensures graph.Keys == old(graph).Keys + locations.Keys
      ensures Known(order, locations) &&
        forall v :: v in graph ==> graph[v] == Neighbors(old(graph), v) + Outgoing(Connections(order, locations, calculateDistance), v)
    {
      AddLocated(equipmentList);
      ConnectNearby();
      g := graph;
    }
  }
}
