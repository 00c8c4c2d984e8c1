/**
 * The routing engine: it owns one graph, snaps a query point to its nearest node or edge,
 * answers cost queries with A*, and changes edge weights in place. Distances between
 * coordinates come in as functions: the great-circle distance to a node and the planar
 * distance from a point to an edge's segment.
 */
module Router {
  import opened Graphs
  import opened AStar
  import GraphFilter

  /** The largest finite double, 2^1024 - 2^971: the starting best distance of both scans. */
  const DblMax: real := 179769313486231570814527423731704356798070567525844996598917476803157260780028538760589558632766878171540458953514382464234321326889464182768467546703537516986049910576551282076245490090389328944075868508455133942304583236903222948165808559332123348274797826204144723168738177180919299881250404026184124858368.0

  /** The distance from the query point to each node, in node order. */
  function NodeDistances(nodes: seq<Node>, lat: real, lon: real, dist: (real, real, real, real) -> real)
    : (ds: seq<real>)
    ensures |ds| == |nodes|
  {
    seq(|nodes|, i requires 0 <= i < |nodes| => dist(lat, lon, nodes[i].lat, nodes[i].lon))
  }

  /** The distance from the query point to the segment of each edge, in edge order. */
  function EdgeDistances(nodes: seq<Node>, edges: seq<Edge>, lat: real, lon: real,
                         seg: (real, real, real, real, real, real) -> real): (ds: seq<real>)
    requires forall e :: 0 <= e < |edges| ==> 0 <= edges[e].from < |nodes| && 0 <= edges[e].to < |nodes|
    ensures |ds| == |edges|
  {
    seq(|edges|, i requires 0 <= i < |edges| =>
      seg(lat, lon, nodes[edges[i].from].lat, nodes[edges[i].from].lon,
          nodes[edges[i].to].lat, nodes[edges[i].to].lon))
  }

  /**
   * `r` is the nearest position: -1 exactly when no distance is below DblMax, and otherwise
   * a position whose distance is below DblMax, no larger than any other, and strictly smaller
   * than every distance before it (so the first of several equal minima).
   */
  ghost predicate IsNearest(ds: seq<real>, r: int)
  {
    && -1 <= r < |ds|
    && (r == -1 <==> forall i :: 0 <= i < |ds| ==> ds[i] >= DblMax)
    && (r >= 0 ==>
          && ds[r] < DblMax
          && (forall i :: 0 <= i < |ds| ==> ds[r] <= ds[i])
          && (forall i :: 0 <= i < r ==> ds[r] < ds[i]))
  }

  /** The nearest position is determined by the distances alone. */
  lemma NearestUnique(ds: seq<real>, r1: int, r2: int)
    requires IsNearest(ds, r1) && IsNearest(ds, r2)
    ensures r1 == r2
  {
  }

  /** Every edge's id is its position in the edge list, as in a graph the builder produces. */
  ghost predicate IdsArePositions(edges: seq<Edge>)
  {
    forall e :: 0 <= e < |edges| ==> edges[e].id == e
  }

  /** When ids are positions, reweighing by the id `e` changes the weight of edge `e` and nothing else. */
  lemma ReweighPosition(edges: seq<Edge>, e: int, w: real)
    requires IdsArePositions(edges) && 0 <= e < |edges|
    ensures Reweighed(edges, e, w) == edges[e := edges[e].(weight := w)]
  {
    var f := FirstWithId(edges, e);
    assert edges[e].id == e;
    assert f.Some?;
    assert edges[f.value].id == f.value;
  }

  /** The graph the builder keeps numbers its edges by position. */
  lemma KeptIdsArePositions(nodes: seq<Node>, edges: seq<Edge>, fnodes: seq<Node>, fedges: seq<Edge>,
                            comps: seq<seq<int>>, owner: seq<int>, mainIdx: int,
                            index: map<int, nat>, origin: seq<nat>)
    requires GraphFilter.KeepsLargest(nodes, edges, fnodes, fedges, comps, owner, mainIdx, index, origin)
    ensures IdsArePositions(fedges)
  {
  }

  /** The first position of an edge from `from` to `to`, if any. */
  function FirstBetween(edges: seq<Edge>, from: int, to: int): (r: Option<nat>)
    ensures r.Some? ==> r.value < |edges| && edges[r.value].from == from && edges[r.value].to == to
                        && forall j :: 0 <= j < r.value ==> !(edges[j].from == from && edges[j].to == to)
    ensures r.None? ==> forall j :: 0 <= j < |edges| ==> !(edges[j].from == from && edges[j].to == to)
  {
    if edges == [] then None
    else if edges[0].to == to && edges[0].from == from then Some(0)
    else match FirstBetween(edges[1..], from, to)
      case None => None
      case Some(k) => Some(k + 1)
  }

  class RoutingEngine {
    var graph: Graph

    ghost predicate Valid()
      reads this, graph
    {
      graph.Valid()
    }

    /** The engine takes over the graph it is given. */
    constructor (g: Graph)
      requires g.Valid()
      ensures graph == g && Valid()
    {
      graph := g;
    }

    /**
     * Scans the nodes in order, keeping the first one strictly nearer than the best so far,
     * starting from DblMax; -1 when no node is nearer than that.
     */
    method FindNearestNode(lat: real, lon: real, dist: (real, real, real, real) -> real) returns (r: int)
      ensures IsNearest(NodeDistances(graph.nodes, lat, lon, dist), r)
    {
      var nodes := graph.nodes;
      ghost var ds := NodeDistances(nodes, lat, lon, dist);
      var best := DblMax;
      r := -1;
      for i := 0 to |nodes|
        invariant -1 <= r < i
        invariant r == -1 ==> best == DblMax && forall j :: 0 <= j < i ==> ds[j] >= DblMax
        invariant r >= 0 ==> best == ds[r] < DblMax && (forall j :: 0 <= j < i ==> best <= ds[j])
                             && (forall j :: 0 <= j < r ==> best < ds[j])
      {
        var d := dist(lat, lon, nodes[i].lat, nodes[i].lon);
        if d < best {
          best := d;
          r := i;
        }
      }
    }

    /**
     * Scans the edges in order, keeping the first one whose segment is strictly nearer than
     * the best so far, starting from DblMax; -1 when no edge is nearer than that.
     */
    method FindNearestEdge(lat: real, lon: real, seg: (real, real, real, real, real, real) -> real)
      returns (r: int)
      requires Valid()
      ensures IsNearest(EdgeDistances(graph.nodes, graph.edges, lat, lon, seg), r)
    {
      var nodes := graph.nodes;
      var edges := graph.edges;
      ghost var ds := EdgeDistances(nodes, edges, lat, lon, seg);
      var best := DblMax;
      r := -1;
      for i := 0 to |edges|
        invariant -1 <= r < i
        invariant r == -1 ==> best == DblMax && forall j :: 0 <= j < i ==> ds[j] >= DblMax
        invariant r >= 0 ==> best == ds[r] < DblMax && (forall j :: 0 <= j < i ==> best <= ds[j])
                             && (forall j :: 0 <= j < r ==> best < ds[j])
      {
        var a := nodes[edges[i].from];
        var b := nodes[edges[i].to];
        var d := seg(lat, lon, a.lat, a.lon, b.lat, b.lon);
        if d < best {
          best := d;
          r := i;
        }
      }
    }

    /**
     * The cost of travelling between the nodes nearest the two points: -1 when either point
     * has no nearest node, otherwise what A* reports between them, which is infinite only when
     * the start's reachable set misses the goal and otherwise the cost of a walk between them.
     */
    method Route(lat1: real, lon1: real, lat2: real, lon2: real,
                 dist: (real, real, real, real) -> real, h: (Node, Node) -> real)
      returns (cost: Cost, ghost start: int, ghost goal: int, ghost path: seq<int>,
               ghost hops: seq<nat>, ghost reached: set<int>)
      requires Valid()
      ensures IsNearest(NodeDistances(graph.nodes, lat1, lon1, dist), start)
      ensures IsNearest(NodeDistances(graph.nodes, lat2, lon2, dist), goal)
      ensures start < 0 || goal < 0 ==> cost == Fin(-1.0)
      ensures start >= 0 && goal >= 0 && cost.Inf? ==>
                start in reached && goal !in reached && ClosedUnder(graph.edges, reached)
      ensures start >= 0 && goal >= 0 && cost.Fin? ==>
                && Walk(graph.edges, path, hops) && path[0] == start && Last(path) == goal
                && cost.value == PathCost(graph.edges, hops)
    {
      var s := FindNearestNode(lat1, lon1, dist);
      var t := FindNearestNode(lat2, lon2, dist);
      start, goal, path, hops, reached := s, t, [], [], {};
      if s < 0 || t < 0 {
        return Fin(-1.0), start, goal, path, hops, reached;
      }
      var result;
      result, hops, reached := ShortestPath(graph, s, t, h);
      cost, path := result.totalCost, result.path;
    }

    /**
     * Reweighs the edge nearest the point, passing its position where an id is expected;
     * when ids are positions that is exactly the nearest edge. Nothing changes when there is
     * no nearest edge.
     */
    method UpdateEdgeNear(lat: real, lon: real, weight: real,
                          seg: (real, real, real, real, real, real) -> real) returns (ghost e: int)
      requires Valid()
      modifies graph
      ensures Valid() && graph.nodes == old(graph.nodes)
      ensures IsNearest(EdgeDistances(old(graph.nodes), old(graph.edges), lat, lon, seg), e)
      ensures e < 0 ==> graph.edges == old(graph.edges)
      ensures e >= 0 ==> graph.edges == Reweighed(old(graph.edges), e, weight)
      ensures e >= 0 && IdsArePositions(old(graph.edges)) ==>
                graph.edges == old(graph.edges)[e := old(graph.edges)[e].(weight := weight)]
    {
      var edge := FindNearestEdge(lat, lon, seg);
      e := edge;
      if edge < 0 {
        return;
      }
      if IdsArePositions(graph.edges) {
        ReweighPosition(graph.edges, edge, weight);
      }
      graph.UpdateEdgeWeight(edge, weight);
    }

    /**
     * Reweighs the edge with this id, after checking the id against the number of edges as
     * if it were a position; an id outside that range changes nothing.
     */
    method UpdateEdgeById(id: int, weight: real)
      requires Valid()
      modifies graph
      ensures Valid() && graph.nodes == old(graph.nodes)
      ensures !(0 <= id < |old(graph.edges)|) ==> graph.edges == old(graph.edges)
      ensures 0 <= id < |old(graph.edges)| ==> graph.edges == Reweighed(old(graph.edges), id, weight)
      ensures 0 <= id < |old(graph.edges)| && IdsArePositions(old(graph.edges)) ==>
                graph.edges == old(graph.edges)[id := old(graph.edges)[id].(weight := weight)]
    {
      if id >= |graph.edges| || id < 0 {
        return;
      }
      if IdsArePositions(graph.edges) {
        ReweighPosition(graph.edges, id, weight);
      }
      graph.UpdateEdgeWeight(id, weight);
    }

    /**
     * Finds the first edge, in list order, from `from` to `to` and reweighs the edge carrying
     * its id; nothing changes when no edge joins the two.
     */
    method UpdateEdgeBetween(from: int, to: int, weight: real) returns (ghost k: Option<nat>)
      requires Valid()
      modifies graph
      ensures Valid() && graph.nodes == old(graph.nodes)
      ensures k == FirstBetween(old(graph.edges), from, to)
      ensures k.None? ==> graph.edges == old(graph.edges)
      ensures k.Some? ==> graph.edges == Reweighed(old(graph.edges), old(graph.edges)[k.value].id, weight)
      ensures k.Some? && IdsArePositions(old(graph.edges)) ==>
                graph.edges == old(graph.edges)[k.value := old(graph.edges)[k.value].(weight := weight)]
    {
      var edges := graph.edges;
      k := FirstBetween(edges, from, to);
      for i := 0 to |edges|
        invariant forall j :: 0 <= j < i ==> !(edges[j].from == from && edges[j].to == to)
        invariant graph.edges == edges && graph.nodes == old(graph.nodes)
      {
        if to == edges[i].to && from == edges[i].from {
          assert k == Some(i);
          if IdsArePositions(edges) {
            ReweighPosition(edges, i, weight);
          }
          graph.UpdateEdgeWeight(edges[i].id, weight);
          return;
        }
      }
    }
  }
}
