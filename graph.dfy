/**
 * The routing graph: a list of nodes and a list of directed edges. A node's adjacency list
 * holds positions in the edge list, so an edge is one record seen both from the global list
 * and from its source node, and a weight written through one is read through the other.
 */
module Graphs {

  datatype Option<T> = None | Some(value: T)

  function Last(s: seq<int>): int
    requires s != []
  {
    s[|s| - 1]
  }

  datatype Edge = Edge(id: int, from: int, to: int, weight: real)

  /** `adj` lists the positions in the edge list of the edges leaving this node. */
  datatype Node = Node(id: int, lat: real, lon: real, adj: seq<nat>)

  /** The positions below `n` of the edges leaving `v`, in ascending order. */
  function OutFrom(edges: seq<Edge>, v: int, n: nat): (r: seq<nat>)
    requires n <= |edges|
    ensures forall k :: 0 <= k < |r| ==> r[k] < n && edges[r[k]].from == v
  {
    if n == 0 then []
    else OutFrom(edges, v, n - 1) + (if edges[n - 1].from == v then [n - 1] else [])
  }

  /** The list is in ascending order of position. */
  lemma {:induction false} OutFromAscending(edges: seq<Edge>, v: int, n: nat)
    requires n <= |edges|
    ensures forall k, j :: 0 <= k < j < |OutFrom(edges, v, n)| ==> OutFrom(edges, v, n)[k] < OutFrom(edges, v, n)[j]
  {
    if n > 0 {
      OutFromAscending(edges, v, n - 1);
    }
  }

  /** The positions below `n` of the edges leaving `v`, as a set. */
  ghost function OutSet(edges: seq<Edge>, v: int, n: nat): set<nat>
    requires n <= |edges|
  {
    set e: nat | e < n && edges[e].from == v
  }

  /** Every edge below `n` that leaves `v` is listed, and the list has one entry per such edge. */
  lemma {:induction false} OutFromExact(edges: seq<Edge>, v: int, n: nat)
    requires n <= |edges|
    ensures forall e :: e in OutFrom(edges, v, n) <==> e in OutSet(edges, v, n)
    ensures |OutFrom(edges, v, n)| == |OutSet(edges, v, n)|
  {
    if n > 0 {
      OutFromExact(edges, v, n - 1);
      if edges[n - 1].from == v {
        assert OutSet(edges, v, n) == OutSet(edges, v, n - 1) + {n - 1};
        assert n - 1 !in OutSet(edges, v, n - 1);
      } else {
        assert OutSet(edges, v, n) == OutSet(edges, v, n - 1);
      }
    }
  }

  /** Edges appended after position `n` do not change the positions below `n`. */
  lemma {:induction false} OutFromPrefix(edges: seq<Edge>, more: seq<Edge>, v: int, n: nat)
    requires n <= |edges|
    ensures OutFrom(edges + more, v, n) == OutFrom(edges, v, n)
  {
    if n > 0 {
      OutFromPrefix(edges, more, v, n - 1);
      assert (edges + more)[n - 1] == edges[n - 1];
    }
  }

  /** Only the source of each edge decides the lists. */
  lemma {:induction false} OutFromSources(a: seq<Edge>, b: seq<Edge>, v: int, n: nat)
    requires n <= |a| == |b|
    requires forall e :: 0 <= e < |a| ==> a[e].from == b[e].from
    ensures OutFrom(a, v, n) == OutFrom(b, v, n)
  {
    if n > 0 {
      OutFromSources(a, b, v, n - 1);
    }
  }

  /** A node that no edge leaves has an empty list. */
  lemma {:induction false} OutFromNone(edges: seq<Edge>, v: int, n: nat)
    requires n <= |edges|
    requires forall e :: 0 <= e < |edges| ==> edges[e].from != v
    ensures OutFrom(edges, v, n) == []
  {
    if n > 0 {
      OutFromNone(edges, v, n - 1);
    }
  }

  /** The (target, weight) pair of each listed edge, in list order. */
  function Pairs(adj: seq<nat>, edges: seq<Edge>): (r: seq<(int, real)>)
    requires forall k :: 0 <= k < |adj| ==> adj[k] < |edges|
    ensures |r| == |adj|
    ensures forall k :: 0 <= k < |r| ==> r[k] == (edges[adj[k]].to, edges[adj[k]].weight)
  {
    seq(|adj|, k requires 0 <= k < |adj| => (edges[adj[k]].to, edges[adj[k]].weight))
  }

  /** What a node is apart from its edges: its id and its coordinates, node by node. */
  function Places(nodes: seq<Node>): (r: seq<(int, real, real)>)
    ensures |r| == |nodes|
  {
    seq(|nodes|, k requires 0 <= k < |nodes| => (nodes[k].id, nodes[k].lat, nodes[k].lon))
  }

  /** The first position of an edge with this id, if any. */
  function FirstWithId(edges: seq<Edge>, id: int): (r: Option<nat>)
    ensures r.Some? ==> r.value < |edges| && edges[r.value].id == id
                        && forall j :: 0 <= j < r.value ==> edges[j].id != id
    ensures r.None? ==> forall j :: 0 <= j < |edges| ==> edges[j].id != id
  {
    if edges == [] then None
    else if edges[0].id == id then Some(0)
    else match FirstWithId(edges[1..], id)
      case None => None
      case Some(k) => Some(k + 1)
  }

  /** The edge list after `update_edge_weight(id, w)`: the first edge with that id gets weight `w`. */
  function Reweighed(edges: seq<Edge>, id: int, w: real): seq<Edge>
  {
    match FirstWithId(edges, id)
    case None => edges
    case Some(k) => edges[k := edges[k].(weight := w)]
  }

  /**
   * Reweighing keeps every edge's id and endpoints, changes at most one weight, and the
   * change is seen through every adjacency list that holds the edge.
   */
  lemma ReweighedKeeps(edges: seq<Edge>, id: int, w: real, adj: seq<nat>)
    requires forall k :: 0 <= k < |adj| ==> adj[k] < |edges|
    ensures var r := Reweighed(edges, id, w);
      && |r| == |edges|
      && (forall e :: 0 <= e < |edges| ==> r[e].(weight := 0.0) == edges[e].(weight := 0.0))
      && (forall e :: 0 <= e < |edges| && r[e] != edges[e] ==>
            FirstWithId(edges, id) == Some(e) && r[e].weight == w)
      && (forall k :: 0 <= k < |adj| && FirstWithId(edges, id) == Some(adj[k]) ==>
            Pairs(adj, r)[k] == (edges[adj[k]].to, w))
  {
  }

  /** `path` is a walk along the edges at positions `hops`: hop i leads from path[i] to path[i + 1]. */
  ghost predicate Walk(edges: seq<Edge>, path: seq<int>, hops: seq<nat>)
  {
    && |path| == |hops| + 1
    && forall i :: 0 <= i < |hops| ==>
         hops[i] < |edges| && edges[hops[i]].from == path[i] && edges[hops[i]].to == path[i + 1]
  }

  /** Some walk leads from `s` to `v`. */
  ghost predicate Reaches(edges: seq<Edge>, s: int, v: int)
  {
    exists path, hops :: Walk(edges, path, hops) && path[0] == s && Last(path) == v
  }

  /** Every node reaches itself, by the walk without hops. */
  lemma ReachesSelf(edges: seq<Edge>, v: int)
    ensures Reaches(edges, v, v)
  {
    assert Walk(edges, [v], []);
  }

  /** A walk to `u` followed by the edge at position `e`, from `u` to `v`, is a walk to `v`. */
  lemma ReachesStep(edges: seq<Edge>, s: int, u: int, v: int, e: nat)
    requires Reaches(edges, s, u)
    requires e < |edges| && edges[e].from == u && edges[e].to == v
    ensures Reaches(edges, s, v)
  {
    var path, hops :| Walk(edges, path, hops) && path[0] == s && Last(path) == u;
    assert Walk(edges, path + [v], hops + [e]);
    assert (path + [v])[0] == s;
  }

  /** Every edge joins two existing nodes, and each node lists exactly the edges leaving it. */
  ghost predicate WellFormed(nodes: seq<Node>, edges: seq<Edge>)
  {
    && (forall e :: 0 <= e < |edges| ==> 0 <= edges[e].from < |nodes| && 0 <= edges[e].to < |nodes|)
    && (forall v :: 0 <= v < |nodes| ==> nodes[v].adj == OutFrom(edges, v, |edges|))
  }

  class Graph {
    var nodes: seq<Node>
    var edges: seq<Edge>

    ghost predicate Valid()
      reads this
    {
      WellFormed(nodes, edges)
    }

    constructor ()
      ensures Valid() && nodes == [] && edges == []
    {
      nodes, edges := [], [];
    }

    /** Appends one node with no edges; the index of the new node is the old node count. */
    method AddNode(id: int, lat: real, lon: real)
      requires Valid()
      modifies this
      ensures Valid()
      ensures nodes == old(nodes) + [Node(id, lat, lon, [])] && edges == old(edges)
    {
      forall e | 0 <= e < |edges|
        ensures edges[e].from != |nodes|
      {
      }
      OutFromNone(edges, |nodes|, |edges|);
      nodes := nodes + [Node(id, lat, lon, [])];
    }

    /** Appends one edge to the edge list and the same edge to the adjacency of its source. */
    method AddEdge(id: int, from: int, to: int, weight: real)
      requires Valid()
      requires 0 <= from < |nodes| && 0 <= to < |nodes|
      modifies this
      ensures Valid()
      ensures edges == old(edges) + [Edge(id, from, to, weight)]
      ensures |nodes| == |old(nodes)|
      ensures nodes[from] == old(nodes[from]).(adj := old(nodes[from].adj) + [|old(edges)|])
      ensures forall v :: 0 <= v < |nodes| && v != from ==> nodes[v] == old(nodes[v])
      ensures Places(nodes) == Places(old(nodes))
    {
      var e := Edge(id, from, to, weight);
      forall v | 0 <= v < |nodes|
        ensures OutFrom(edges + [e], v, |edges| + 1)
             == nodes[v].adj + (if v == from then [|edges|] else [])
      {
        OutFromPrefix(edges, [e], v, |edges|);
      }
      nodes := nodes[from := nodes[from].(adj := nodes[from].adj + [|edges|])];
      edges := edges + [e];
    }

    /** Sets the weight of the first edge whose id matches, and stops; nothing changes if none does. */
    method UpdateEdgeWeight(id: int, newWeight: real)
      requires Valid()
      modifies this
      ensures Valid()
      ensures nodes == old(nodes)
      ensures edges == Reweighed(old(edges), id, newWeight)
    {
      for i := 0 to |edges|
        invariant forall j :: 0 <= j < i ==> edges[j].id != id
        invariant edges == old(edges) && nodes == old(nodes)
      {
        if edges[i].id == id {
          assert FirstWithId(edges, id) == Some(i);
          var updated := edges[i := edges[i].(weight := newWeight)];
          forall v | 0 <= v < |nodes|
            ensures OutFrom(updated, v, |updated|) == OutFrom(edges, v, |edges|)
          {
            OutFromSources(updated, edges, v, |edges|);
          }
          edges := updated;
          return;
        }
      }
    }

    /** The number of nodes added so far. */
    function NumNodes(): int
      reads this
    {
      |nodes|
    }

    /**
     * One (target, weight) pair per edge leaving `idx`, in the order the edges were added:
     * the node's list holds each such edge once and nothing else.
     */
    method Neighbors(idx: int) returns (result: seq<(int, real)>)
      requires Valid() && 0 <= idx < |nodes|
      ensures |result| == |nodes[idx].adj| == |OutSet(edges, idx, |edges|)|
      ensures forall e :: e in nodes[idx].adj <==> 0 <= e < |edges| && edges[e].from == idx
      ensures forall k :: 0 <= k < |result| ==>
                result[k] == (edges[nodes[idx].adj[k]].to, edges[nodes[idx].adj[k]].weight)
    {
      OutFromExact(edges, idx, |edges|);
      var adj := nodes[idx].adj;
      result := [];
      for k := 0 to |adj|
        invariant |result| == k
        invariant forall j :: 0 <= j < k ==> result[j] == (edges[adj[j]].to, edges[adj[j]].weight)
      {
        result := result + [(edges[adj[k]].to, edges[adj[k]].weight)];
      }
    }

    function NodeLat(idx: int): real
      reads this
      requires 0 <= idx < |nodes|
    {
      nodes[idx].lat
    }

    function NodeLon(idx: int): real
      reads this
      requires 0 <= idx < |nodes|
    {
      nodes[idx].lon
    }
  }
}
