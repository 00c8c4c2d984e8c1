/**
 * Building the routing graph from map data: the nodes where ways meet or end become graph
 * nodes, and each stretch of a way between two of them becomes one edge per allowed direction,
 * weighted by its travel time.
 */
module GraphBuilder {
  import opened Graphs
  import opened GraphFilter

  datatype OneWay = No | Forward | Backward

  datatype OsmNode = OsmNode(id: int, lat: real, lon: real)

  /** A way: its node ids in order, its speed limit in km/h (0 or less when unknown), its direction. */
  datatype OsmWay = OsmWay(id: int, nodeIds: seq<int>, maxspeed: int, oneway: OneWay)

  /** The speed assumed on a way without a usable speed limit, in km/h. */
  const FALLBACK_SPEED_KMH: real := 30.0

  /** Travel speed on a way, in metres per second. */
  function SpeedMps(way: OsmWay): (r: real)
    ensures way.maxspeed > 0 ==> r == way.maxspeed as real * 1000.0 / 3600.0
    ensures way.maxspeed <= 0 ==> r == FALLBACK_SPEED_KMH * 1000.0 / 3600.0
    ensures r > 0.0
  {
    var kmh := if way.maxspeed > 0 then way.maxspeed as real else FALLBACK_SPEED_KMH;
    kmh * 1000.0 / 3600.0
  }

  // ---------------------------------------------------------------------------------------
  // Counting how often each node occurs

  /** How often `x` occurs in `ids`. */
  function Count(ids: seq<int>, x: int): nat
  {
    if ids == [] then 0 else Count(ids[..|ids| - 1], x) + (if Last(ids) == x then 1 else 0)
  }

  /** How often `x` occurs over the node lists of all ways, repeats included. */
  function Usage(ways: seq<OsmWay>, x: int): nat
  {
    if ways == [] then 0 else Usage(ways[..|ways| - 1], x) + Count(ways[|ways| - 1].nodeIds, x)
  }

  /** Every node id some way mentions. */
  function AllIds(ways: seq<OsmWay>): set<int>
  {
    if ways == [] then {}
    else AllIds(ways[..|ways| - 1]) + Members(ways[|ways| - 1].nodeIds)
  }

  function Members(ids: seq<int>): set<int>
  {
    set x | x in ids
  }

  lemma {:induction false} CountPositive(ids: seq<int>, x: int)
    ensures Count(ids, x) > 0 <==> exists k :: 0 <= k < |ids| && ids[k] == x
  {
    if ids != [] {
      var init := ids[..|ids| - 1];
      CountPositive(init, x);
      if Count(init, x) > 0 {
        var k :| 0 <= k < |init| && init[k] == x;
        assert ids[k] == x;
      }
      if exists k :: 0 <= k < |ids| && ids[k] == x {
        var k :| 0 <= k < |ids| && ids[k] == x;
        if k < |init| {
          assert init[k] == x;
        }
      }
    }
  }

  /** A node is used by some way exactly when some way mentions it. */
  lemma {:induction false} UsageMentioned(ways: seq<OsmWay>, x: int)
    ensures Usage(ways, x) > 0 <==> x in AllIds(ways)
  {
    if ways != [] {
      UsageMentioned(ways[..|ways| - 1], x);
      CountPositive(ways[|ways| - 1].nodeIds, x);
    }
  }

  /** `list` holds each member of `s` once, and nothing else. */
  ghost predicate Enumerates(list: seq<int>, s: set<int>)
  {
    && (forall x :: x in list <==> x in s)
    && (forall k, j :: 0 <= k < j < |list| ==> list[k] != list[j])
  }

  /**
   * The usage table: each node id mentioned by some way, with its number of occurrences.
   * `keys` is the order in which the table is later visited: each of its ids once.
   */
  method FindIntersections(ways: seq<OsmWay>) returns (table: map<int, nat>, keys: seq<int>)
    ensures forall x :: x in table <==> Usage(ways, x) > 0
    ensures forall x :: x in table ==> table[x] == Usage(ways, x)
    ensures Enumerates(keys, table.Keys)
  {
    table, keys := map[], [];
    for w := 0 to |ways|
      invariant forall x :: x in table <==> Usage(ways[..w], x) > 0
      invariant forall x :: x in table ==> table[x] == Usage(ways[..w], x)
      invariant Enumerates(keys, table.Keys)
    {
      var ids := ways[w].nodeIds;
      assert ways[..w + 1][..w] == ways[..w];
      for i := 0 to |ids|
        invariant forall x :: x in table <==> Usage(ways[..w], x) + Count(ids[..i], x) > 0
        invariant forall x :: x in table ==> table[x] == Usage(ways[..w], x) + Count(ids[..i], x)
        invariant Enumerates(keys, table.Keys)
      {
        assert ids[..i + 1][..i] == ids[..i];
        var n := 0;
        if ids[i] in table {
          n := table[ids[i]];
        } else {
          keys := keys + [ids[i]];
        }
        table := table[ids[i] := n + 1];
      }
      assert ids[..|ids|] == ids;
    }
    assert ways[..|ways|] == ways;
  }

  // ---------------------------------------------------------------------------------------
  // Choosing the routing nodes

  /** The first and the last node of a way, none for an empty way. */
  function WayEnds(way: OsmWay): set<int>
  {
    if way.nodeIds == [] then {} else {way.nodeIds[0], Last(way.nodeIds)}
  }

  /** The end nodes of all ways. */
  function Ends(ways: seq<OsmWay>): set<int>
  {
    if ways == [] then {} else Ends(ways[..|ways| - 1]) + WayEnds(ways[|ways| - 1])
  }

  /** The nodes that become graph nodes: every way's two ends, and every node used more than once. */
  function RoutingSet(ways: seq<OsmWay>): set<int>
  {
    Ends(ways) + set x | x in AllIds(ways) && Usage(ways, x) > 1
  }

  lemma {:induction false} EndsExact(ways: seq<OsmWay>, x: int)
    ensures x in Ends(ways) <==> exists k :: 0 <= k < |ways| && x in WayEnds(ways[k])
  {
    if ways != [] {
      var init := ways[..|ways| - 1];
      EndsExact(init, x);
      if x in Ends(init) {
        var k :| 0 <= k < |init| && x in WayEnds(init[k]);
        assert ways[k] == init[k];
      }
      if exists k :: 0 <= k < |ways| && x in WayEnds(ways[k]) {
        var k :| 0 <= k < |ways| && x in WayEnds(ways[k]);
        if k < |init| {
          assert init[k] == ways[k];
        }
      }
    }
  }

  /**
   * A node is a routing node exactly when it begins or ends some non-empty way, or occurs
   * more than once over all ways.
   */
  lemma RoutingExact(ways: seq<OsmWay>, x: int)
    ensures x in RoutingSet(ways) <==>
      (exists k :: 0 <= k < |ways| && |ways[k].nodeIds| > 0 &&
                   (x == ways[k].nodeIds[0] || x == Last(ways[k].nodeIds)))
      || Usage(ways, x) > 1
  {
    EndsExact(ways, x);
    UsageMentioned(ways, x);
  }

  /** Every end of a way is mentioned by that way. */
  lemma {:induction false} EndsMentioned(ways: seq<OsmWay>)
    ensures Ends(ways) <= AllIds(ways)
  {
    if ways != [] {
      EndsMentioned(ways[..|ways| - 1]);
      var ids := ways[|ways| - 1].nodeIds;
      if ids != [] {
        assert ids[0] == ids[0] && Last(ids) == ids[|ids| - 1];
      }
    }
  }

  /** An entry of a list that enumerates a set is a member of it. */
  lemma Listed(list: seq<int>, s: set<int>, k: nat)
    requires Enumerates(list, s) && k < |list|
    ensures list[k] in s
  {
    assert list[k] in list;
  }

  /**
   * Inserting into a hash set that also remembers the order of first insertion: a member
   * already present changes nothing, a new one goes last.
   */
  method Insert(s: set<int>, list: seq<int>, x: int) returns (s': set<int>, list': seq<int>)
    requires Enumerates(list, s)
    ensures s' == s + {x} && Enumerates(list', s')
    ensures list' == if x in s then list else list + [x]
  {
    if x in s {
      s', list' := s, list;
    } else {
      s', list' := s + {x}, list + [x];
    }
  }

  /**
   * The routing nodes: the two ends of every non-empty way, then every id the usage table
   * counts more than once, the table visited in the order `keys`. `members` lists the
   * routing nodes in the order they were first inserted.
   */
  method RoutingNodes(ways: seq<OsmWay>, usage: map<int, nat>, keys: seq<int>)
    returns (routing: set<int>, members: seq<int>)
    requires forall x :: x in usage <==> Usage(ways, x) > 0
    requires forall x :: x in usage ==> usage[x] == Usage(ways, x)
    requires Enumerates(keys, usage.Keys)
    ensures routing == RoutingSet(ways)
    ensures Enumerates(members, routing)
  {
    routing, members := {}, [];
    for k := 0 to |ways|
      invariant routing == Ends(ways[..k])
      invariant Enumerates(members, routing)
    {
      assert ways[..k + 1][..k] == ways[..k];
      var ids := ways[k].nodeIds;
      if ids != [] {
        routing, members := Insert(routing, members, ids[0]);
        routing, members := Insert(routing, members, ids[|ids| - 1]);
      }
    }
    assert ways[..|ways|] == ways;
    ghost var ends := routing;
    for k := 0 to |keys|
      invariant forall x :: x in routing <==> x in ends || (x in keys[..k] && x in usage && usage[x] > 1)
      invariant Enumerates(members, routing)
    {
      assert keys[..k + 1] == keys[..k] + [keys[k]];
      Listed(keys, usage.Keys, k);
      if usage[keys[k]] > 1 {
        routing, members := Insert(routing, members, keys[k]);
      }
    }
    assert keys[..|keys|] == keys;
    forall x
      ensures x in routing <==> x in RoutingSet(ways)
    {
      UsageMentioned(ways, x);
    }
  }

  // ---------------------------------------------------------------------------------------
  // Numbering the routing nodes

  /**
   * Adds one graph node per routing node, visiting them in the order `members`: the k-th
   * node visited becomes graph node k, at the coordinates of its map node.
   */
  method AssignIndices(members: seq<int>, osm: map<int, OsmNode>, graph: Graph)
    returns (index: map<int, nat>)
    requires forall k :: 0 <= k < |members| ==> members[k] in osm
    requires forall k, j :: 0 <= k < j < |members| ==> members[k] != members[j]
    requires graph.Valid() && graph.nodes == [] && graph.edges == []
    modifies graph
    ensures graph.Valid() && graph.edges == []
    ensures |graph.nodes| == |members|
    ensures forall x :: x in index <==> x in members
    ensures forall k :: 0 <= k < |members| ==> members[k] in index && index[members[k]] == k
    ensures forall k :: 0 <= k < |members| ==>
              graph.nodes[k] == Node(k, osm[members[k]].lat, osm[members[k]].lon, [])
  {
    index := map[];
    for idx := 0 to |members|
      invariant forall x :: x in index <==> x in members[..idx]
      invariant forall k :: 0 <= k < idx ==> members[k] in index && index[members[k]] == k
      invariant graph.Valid() && graph.edges == [] && |graph.nodes| == idx
      invariant forall k :: 0 <= k < idx ==>
                  graph.nodes[k] == Node(k, osm[members[k]].lat, osm[members[k]].lon, [])
    {
      var x := members[idx];
      var node := osm[x];
      assert members[..idx + 1] == members[..idx] + [x];
      index := index[x := idx];
      graph.AddNode(idx, node.lat, node.lon);
    }
    assert members[..|members|] == members;
  }

  // ---------------------------------------------------------------------------------------
  // Cutting a way into segments between routing nodes

  /** A stretch of a way between two routing nodes, and the distance travelled along it. */
  datatype Segment = Segment(a: int, b: int, length: real)

  /** Every node of the list is known to the map. */
  ghost predicate Known(ids: seq<int>, osm: map<int, OsmNode>)
  {
    forall k :: 0 <= k < |ids| ==> ids[k] in osm
  }

  /**
   * The segments found by walking the way from position `i` on: `prev` is the last routing
   * node passed (none before the first), and `acc` the distance travelled since. Reaching a
   * routing node ends a segment (if a routing node was passed before) and starts the next.
   */
  ghost function Scan(ids: seq<int>, i: nat, prev: Option<int>, acc: real, routing: set<int>,
                      osm: map<int, OsmNode>, dist: (OsmNode, OsmNode) -> real): (r: seq<Segment>)
    requires Known(ids, osm) && 1 <= i <= |ids|
    ensures forall k :: 0 <= k < |r| ==> r[k].b in routing && (r[k].a in routing || Some(r[k].a) == prev)
    decreases |ids| - i
  {
    if i == |ids| then []
    else
      var travelled := acc + dist(osm[ids[i - 1]], osm[ids[i]]);
      if ids[i] in routing then
        (if prev.Some? then [Segment(prev.value, ids[i], travelled)] else [])
        + Scan(ids, i + 1, Some(ids[i]), 0.0, routing, osm, dist)
      else Scan(ids, i + 1, prev, travelled, routing, osm, dist)
  }

  /**
   * The segments the builder emits for a way as written: the walk starts with no routing node
   * passed, and the first node of the way is never visited as a current node.
   */
  ghost function SegmentsAsWritten(ids: seq<int>, routing: set<int>, osm: map<int, OsmNode>,
                                   dist: (OsmNode, OsmNode) -> real): seq<Segment>
    requires Known(ids, osm) && |ids| >= 2
  {
    Scan(ids, 1, None, 0.0, routing, osm, dist)
  }

  /** The segments of a way when the walk starts at its first node. */
  ghost function Segments(ids: seq<int>, routing: set<int>, osm: map<int, OsmNode>,
                          dist: (OsmNode, OsmNode) -> real): seq<Segment>
    requires Known(ids, osm) && |ids| >= 2
  {
    Scan(ids, 1, Some(ids[0]), 0.0, routing, osm, dist)
  }

  /** Starting with no routing node passed loses exactly the first segment of a proper walk. */
  lemma {:induction false} ScanSkipsFirst(ids: seq<int>, i: nat, acc: real, p: int, acc2: real,
                                          routing: set<int>, osm: map<int, OsmNode>,
                                          dist: (OsmNode, OsmNode) -> real)
    requires Known(ids, osm) && 1 <= i < |ids| && Last(ids) in routing
    ensures var full := Scan(ids, i, Some(p), acc2, routing, osm, dist);
      |full| >= 1 && Scan(ids, i, None, acc, routing, osm, dist) == full[1..]
    decreases |ids| - i
  {
    if ids[i] !in routing {
      ScanSkipsFirst(ids, i + 1, acc + dist(osm[ids[i - 1]], osm[ids[i]]), p,
                     acc2 + dist(osm[ids[i - 1]], osm[ids[i]]), routing, osm, dist);
    }
  }

  /** The builder as written drops the first segment of every way of two or more nodes. */
  lemma AsWrittenDropsFirst(ids: seq<int>, routing: set<int>, osm: map<int, OsmNode>,
                            dist: (OsmNode, OsmNode) -> real)
    requires Known(ids, osm) && |ids| >= 2 && Last(ids) in routing
    ensures |Segments(ids, routing, osm, dist)| >= 1
    ensures SegmentsAsWritten(ids, routing, osm, dist) == Segments(ids, routing, osm, dist)[1..]
  {
    ScanSkipsFirst(ids, 1, 0.0, ids[0], 0.0, routing, osm, dist);
  }

  /** A two-node way, both ends routing nodes: as written no segment at all, corrected one. */
  lemma TwoNodeWay(a: int, b: int, routing: set<int>, osm: map<int, OsmNode>,
                   dist: (OsmNode, OsmNode) -> real)
    requires a in osm && b in osm && a in routing && b in routing
    ensures SegmentsAsWritten([a, b], routing, osm, dist) == []
    ensures Segments([a, b], routing, osm, dist) == [Segment(a, b, 0.0 + dist(osm[a], osm[b]))]
  {
    var ids := [a, b];
    assert Known(ids, osm);
    assert Scan(ids, 2, Some(b), 0.0, routing, osm, dist) == [];
  }

  /** The routing nodes among ids[i..], in order. */
  function RoutingAfter(ids: seq<int>, i: nat, routing: set<int>): (r: seq<int>)
    requires i <= |ids|
    ensures forall k :: 0 <= k < |r| ==> r[k] in routing
    decreases |ids| - i
  {
    if i == |ids| then []
    else (if ids[i] in routing then [ids[i]] else []) + RoutingAfter(ids, i + 1, routing)
  }

  /**
   * A walk that has passed the routing node `p` emits one segment per routing node still
   * ahead, ending there, each starting where the one before it ended (the first at `p`).
   */
  lemma {:induction false} ScanChain(ids: seq<int>, i: nat, p: int, acc: real, routing: set<int>,
                                     osm: map<int, OsmNode>, dist: (OsmNode, OsmNode) -> real)
    requires Known(ids, osm) && 1 <= i <= |ids|
    ensures var r := Scan(ids, i, Some(p), acc, routing, osm, dist);
      var ahead := RoutingAfter(ids, i, routing);
      && |r| == |ahead|
      && (forall k :: 0 <= k < |r| ==> r[k].b == ahead[k])
      && (forall k :: 0 <= k < |r| ==> r[k].a == if k == 0 then p else ahead[k - 1])
    decreases |ids| - i
  {
    if i < |ids| {
      var travelled := acc + dist(osm[ids[i - 1]], osm[ids[i]]);
      if ids[i] in routing {
        ScanChain(ids, i + 1, ids[i], 0.0, routing, osm, dist);
      } else {
        ScanChain(ids, i + 1, p, travelled, routing, osm, dist);
      }
    }
  }

  /** The distance along the way from node i - 1 to its end, hop by hop. */
  ghost function RestLength(ids: seq<int>, i: nat, osm: map<int, OsmNode>,
                            dist: (OsmNode, OsmNode) -> real): real
    requires Known(ids, osm) && 1 <= i <= |ids|
    decreases |ids| - i
  {
    if i == |ids| then 0.0 else dist(osm[ids[i - 1]], osm[ids[i]]) + RestLength(ids, i + 1, osm, dist)
  }

  function TotalLength(segs: seq<Segment>): real
  {
    if segs == [] then 0.0 else segs[0].length + TotalLength(segs[1..])
  }

  /**
   * On a way that ends at a routing node, a walk that has passed a routing node accounts for
   * every hop still ahead exactly once: its segments add up to the rest of the way.
   */
  lemma {:induction false} ScanCoversWay(ids: seq<int>, i: nat, p: int, acc: real, routing: set<int>,
                                         osm: map<int, OsmNode>, dist: (OsmNode, OsmNode) -> real)
    requires Known(ids, osm) && 1 <= i <= |ids| && Last(ids) in routing
    requires i == |ids| ==> acc == 0.0
    ensures TotalLength(Scan(ids, i, Some(p), acc, routing, osm, dist)) == acc + RestLength(ids, i, osm, dist)
    decreases |ids| - i
  {
    if i < |ids| {
      var travelled := acc + dist(osm[ids[i - 1]], osm[ids[i]]);
      if ids[i] in routing {
        ScanCoversWay(ids, i + 1, ids[i], 0.0, routing, osm, dist);
      } else {
        ScanCoversWay(ids, i + 1, p, travelled, routing, osm, dist);
      }
    }
  }

  /** The corrected segments of a way add up to its whole length. */
  lemma SegmentsCoverWay(ids: seq<int>, routing: set<int>, osm: map<int, OsmNode>,
                         dist: (OsmNode, OsmNode) -> real)
    requires Known(ids, osm) && |ids| >= 2 && Last(ids) in routing
    ensures TotalLength(Segments(ids, routing, osm, dist)) == RestLength(ids, 1, osm, dist)
  {
    ScanCoversWay(ids, 1, ids[0], 0.0, routing, osm, dist);
  }

  // ---------------------------------------------------------------------------------------
  // Turning segments into edges

  /** The edges of one segment: one per direction the way allows, weighted by travel time. */
  function SegmentEdges(way: OsmWay, s: Segment, index: map<int, nat>): (r: seq<Edge>)
    requires s.a in index && s.b in index
    ensures way.oneway == Forward ==> r == [Edge(way.id, index[s.a], index[s.b], s.length / SpeedMps(way))]
    ensures way.oneway == Backward ==> r == [Edge(way.id, index[s.b], index[s.a], s.length / SpeedMps(way))]
    ensures way.oneway == No ==> r == [Edge(way.id, index[s.a], index[s.b], s.length / SpeedMps(way)),
                                       Edge(way.id, index[s.b], index[s.a], s.length / SpeedMps(way))]
  {
    var eta := s.length / SpeedMps(way);
    var from := index[s.a];
    var to := index[s.b];
    if way.oneway == Forward then [Edge(way.id, from, to, eta)]
    else if way.oneway == Backward then [Edge(way.id, to, from, eta)]
    else [Edge(way.id, from, to, eta), Edge(way.id, to, from, eta)]
  }

  function EdgesOf(way: OsmWay, segs: seq<Segment>, index: map<int, nat>): seq<Edge>
    requires forall k :: 0 <= k < |segs| ==> segs[k].a in index && segs[k].b in index
  {
    if segs == [] then []
    else EdgesOf(way, segs[..|segs| - 1], index) + SegmentEdges(way, segs[|segs| - 1], index)
  }

  /** The edges a way contributes: none for fewer than two nodes. */
  ghost function WayEdges(way: OsmWay, routing: set<int>, index: map<int, nat>,
                          osm: map<int, OsmNode>, dist: (OsmNode, OsmNode) -> real): seq<Edge>
    requires Known(way.nodeIds, osm) && WayEnds(way) <= routing && routing <= index.Keys
  {
    if |way.nodeIds| < 2 then []
    else EdgesOf(way, Segments(way.nodeIds, routing, osm, dist), index)
  }

  /** Appending one more segment appends its edges. */
  lemma EdgesOfSnoc(way: OsmWay, segs: seq<Segment>, s: Segment, index: map<int, nat>)
    requires forall k :: 0 <= k < |segs| ==> segs[k].a in index && segs[k].b in index
    requires s.a in index && s.b in index
    ensures EdgesOf(way, segs + [s], index) == EdgesOf(way, segs, index) + SegmentEdges(way, s, index)
  {
    assert (segs + [s])[..|segs|] == segs;
  }

  /** Adds the edges of one segment to the graph, in the directions the way allows. */
  method EmitSegment(way: OsmWay, s: Segment, speedMps: real, index: map<int, nat>, graph: Graph)
    requires speedMps == SpeedMps(way)
    requires s.a in index && s.b in index
    requires graph.Valid() && index[s.a] < |graph.nodes| && index[s.b] < |graph.nodes|
    modifies graph
    ensures graph.Valid() && Places(graph.nodes) == Places(old(graph.nodes))
    ensures graph.edges == old(graph.edges) + SegmentEdges(way, s, index)
  {
    var eta := s.length / speedMps;
    var from := index[s.a];
    var to := index[s.b];
    if way.oneway == Forward {
      graph.AddEdge(way.id, from, to, eta);
    } else if way.oneway == Backward {
      graph.AddEdge(way.id, to, from, eta);
    } else {
      graph.AddEdge(way.id, from, to, eta);
      graph.AddEdge(way.id, to, from, eta);
    }
  }

  /**
   * Where the walk over a way stands before visiting position `i`: `prev` is the last routing
   * node passed, `acc` the distance since, and `done` the segments already emitted, which
   * together with what the rest of the walk emits make up the segments of the whole way.
   */
  ghost predicate Walked(ids: seq<int>, i: nat, prev: int, acc: real, done: seq<Segment>,
                         routing: set<int>, osm: map<int, OsmNode>, dist: (OsmNode, OsmNode) -> real)
  {
    var ok :=
      && Known(ids, osm) && 2 <= |ids| && 1 <= i <= |ids| && prev in routing
      && (forall k :: 0 <= k < |done| ==> done[k].a in routing && done[k].b in routing)
      && done + Scan(ids, i, Some(prev), acc, routing, osm, dist) == Segments(ids, routing, osm, dist);
    ok
  }

  /** One step of the walk keeps it on track, whether or not position `i` holds a routing node. */
  lemma WalkAdvance(ids: seq<int>, i: nat, prev: int, acc: real, done: seq<Segment>,
                    routing: set<int>, osm: map<int, OsmNode>, dist: (OsmNode, OsmNode) -> real)
    requires i < |ids| && Walked(ids, i, prev, acc, done, routing, osm, dist)
    ensures var travelled := acc + dist(osm[ids[i - 1]], osm[ids[i]]);
      if ids[i] in routing
      then Walked(ids, i + 1, ids[i], 0.0, done + [Segment(prev, ids[i], travelled)], routing, osm, dist)
      else Walked(ids, i + 1, prev, travelled, done, routing, osm, dist)
  {
  }

  /** Visits position `i` of the way: adds the hop to the distance, and at a routing node emits the segment. */
  method WalkStep(way: OsmWay, i: nat, prev: int, acc: real, speedMps: real, ghost done: seq<Segment>,
                  routing: set<int>, index: map<int, nat>, osm: map<int, OsmNode>,
                  dist: (OsmNode, OsmNode) -> real, graph: Graph, ghost before: seq<Edge>)
    returns (prev': int, acc': real, ghost done': seq<Segment>)
    requires i < |way.nodeIds| && Walked(way.nodeIds, i, prev, acc, done, routing, osm, dist)
    requires speedMps == SpeedMps(way) && index.Keys == routing
    requires graph.Valid() && forall x :: x in routing ==> index[x] < |graph.nodes|
    requires graph.edges == before + EdgesOf(way, done, index)
    modifies graph
    ensures Walked(way.nodeIds, i + 1, prev', acc', done', routing, osm, dist)
    ensures graph.Valid() && Places(graph.nodes) == Places(old(graph.nodes))
    ensures graph.edges == before + EdgesOf(way, done', index)
  {
    var ids := way.nodeIds;
    WalkAdvance(ids, i, prev, acc, done, routing, osm, dist);
    prev', acc', done' := prev, acc + dist(osm[ids[i - 1]], osm[ids[i]]), done;
    if ids[i] in routing {
      var s := Segment(prev, ids[i], acc');
      EmitSegment(way, s, speedMps, index, graph);
      EdgesOfSnoc(way, done, s, index);
      done' := done + [s];
      prev', acc' := ids[i], 0.0;
    }
  }

  /**
   * Adds the edges of one way: walks its nodes, accumulating the distance since the last
   * routing node, and at each routing node emits that segment in the allowed directions.
   */
  method AddWayEdges(way: OsmWay, routing: set<int>, index: map<int, nat>, osm: map<int, OsmNode>,
                     dist: (OsmNode, OsmNode) -> real, graph: Graph)
    requires Known(way.nodeIds, osm) && WayEnds(way) <= routing && index.Keys == routing
    requires graph.Valid() && forall x :: x in routing ==> index[x] < |graph.nodes|
    modifies graph
    ensures graph.Valid() && Places(graph.nodes) == Places(old(graph.nodes))
    ensures graph.edges == old(graph.edges) + WayEdges(way, routing, index, osm, dist)
  {
    var ids := way.nodeIds;
    if |ids| < 2 {
      assert old(graph.edges) + [] == old(graph.edges);
      return;
    }
    var speedKmh := if way.maxspeed > 0 then way.maxspeed as real else FALLBACK_SPEED_KMH;
    var speedMps := speedKmh * 1000.0 / 3600.0;
    var prev := ids[0];
    var acc := 0.0;
    ghost var done: seq<Segment> := [];
    ghost var before := old(graph.edges);
    for i := 1 to |ids|
      invariant Walked(ids, i, prev, acc, done, routing, osm, dist)
      invariant graph.Valid() && Places(graph.nodes) == Places(old(graph.nodes))
      invariant graph.edges == before + EdgesOf(way, done, index)
    {
      prev, acc, done := WalkStep(way, i, prev, acc, speedMps, done, routing, index, osm, dist, graph, before);
    }
    assert Scan(ids, |ids|, Some(prev), acc, routing, osm, dist) == [];
    assert done == Segments(ids, routing, osm, dist);
  }

  // ---------------------------------------------------------------------------------------
  // The whole build

  /** Every node of every way is known to the map. */
  ghost predicate AllKnown(ways: seq<OsmWay>, osm: map<int, OsmNode>)
  {
    forall w :: 0 <= w < |ways| ==> Known(ways[w].nodeIds, osm)
  }

  /** A map that knows every node of every way knows every id the ways mention. */
  lemma {:induction false} MentionedKnown(ways: seq<OsmWay>, osm: map<int, OsmNode>)
    requires AllKnown(ways, osm)
    ensures AllIds(ways) <= osm.Keys
  {
    if ways != [] {
      MentionedKnown(ways[..|ways| - 1], osm);
      var ids := ways[|ways| - 1].nodeIds;
      forall x | x in Members(ids) ensures x in osm {
        var k :| 0 <= k < |ids| && ids[k] == x;
      }
    }
  }

  /** Every routing node is known to the map, and the ends of every way are routing nodes. */
  lemma RoutingKnown(ways: seq<OsmWay>, osm: map<int, OsmNode>)
    requires AllKnown(ways, osm)
    ensures RoutingSet(ways) <= osm.Keys
    ensures forall w :: 0 <= w < |ways| ==> WayEnds(ways[w]) <= RoutingSet(ways)
  {
    MentionedKnown(ways, osm);
    EndsMentioned(ways);
    forall w, x | 0 <= w < |ways| && x in WayEnds(ways[w])
      ensures x in RoutingSet(ways)
    {
      EndsExact(ways, x);
    }
  }

  /** The edges of all ways, way after way. */
  ghost function AllWayEdges(ways: seq<OsmWay>, routing: set<int>, index: map<int, nat>,
                             osm: map<int, OsmNode>, dist: (OsmNode, OsmNode) -> real): seq<Edge>
    requires AllKnown(ways, osm) && routing <= index.Keys
    requires forall w :: 0 <= w < |ways| ==> WayEnds(ways[w]) <= routing
  {
    if ways == [] then []
    else AllWayEdges(ways[..|ways| - 1], routing, index, osm, dist)
         + WayEdges(ways[|ways| - 1], routing, index, osm, dist)
  }

  /**
   * `nodes` has one node per routing node: `index` numbers the routing nodes 0, 1, 2, ...
   * without repeats, and node `index[x]` has that number and the coordinates of map node `x`.
   */
  ghost predicate NumbersRouting(nodes: seq<Node>, index: map<int, nat>, routing: set<int>,
                                 osm: map<int, OsmNode>)
  {
    && index.Keys == routing && routing <= osm.Keys && |nodes| == |routing|
    && (forall x :: x in index ==> index[x] < |nodes|)
    && (forall x, y :: x in index && y in index && index[x] == index[y] ==> x == y)
    && (forall x :: x in index ==>
          nodes[index[x]].id == index[x] && nodes[index[x]].lat == osm[x].lat && nodes[index[x]].lon == osm[x].lon)
  }

  /** The numbering the builder assigns, read as a map from routing nodes to graph nodes. */
  lemma NumberedInOrder(nodes: seq<Node>, index: map<int, nat>, members: seq<int>, routing: set<int>,
                        osm: map<int, OsmNode>)
    requires Enumerates(members, routing) && routing <= osm.Keys && |nodes| == |members|
    requires forall x :: x in index <==> x in members
    requires forall k :: 0 <= k < |members| ==> members[k] in index && index[members[k]] == k
    requires forall k :: 0 <= k < |members| ==>
               members[k] in osm && nodes[k] == Node(k, osm[members[k]].lat, osm[members[k]].lon, [])
    ensures NumbersRouting(nodes, index, routing, osm)
  {
    forall x | x in index
      ensures index[x] < |nodes| && members[index[x]] == x
    {
      var k :| 0 <= k < |members| && members[k] == x;
    }
    assert index.Keys == routing by {
      forall x ensures x in index <==> x in routing {
        assert x in members <==> x in routing;
      }
    }
    MembersCard(members, routing);
  }

  /** Adds the edges of every way, way after way, to a graph holding the routing nodes. */
  method AddAllWays(ways: seq<OsmWay>, routing: set<int>, index: map<int, nat>, osm: map<int, OsmNode>,
                    dist: (OsmNode, OsmNode) -> real, graph: Graph)
    requires AllKnown(ways, osm) && index.Keys == routing
    requires forall w :: 0 <= w < |ways| ==> WayEnds(ways[w]) <= routing
    requires graph.Valid() && graph.edges == [] && forall x :: x in routing ==> index[x] < |graph.nodes|
    modifies graph
    ensures graph.Valid() && Places(graph.nodes) == Places(old(graph.nodes))
    ensures graph.edges == AllWayEdges(ways, routing, index, osm, dist)
  {
    for w := 0 to |ways|
      invariant graph.Valid() && Places(graph.nodes) == Places(old(graph.nodes))
      invariant graph.edges == AllWayEdges(ways[..w], routing, index, osm, dist)
    {
      assert ways[..w + 1][..w] == ways[..w];
      AddWayEdges(ways[w], routing, index, osm, dist, graph);
    }
    assert ways[..|ways|] == ways;
  }

  /** Places that agree keep a numbering of the routing nodes. */
  lemma NumbersKept(nodes: seq<Node>, nodes': seq<Node>, index: map<int, nat>, routing: set<int>,
                    osm: map<int, OsmNode>)
    requires NumbersRouting(nodes, index, routing, osm) && Places(nodes') == Places(nodes)
    ensures NumbersRouting(nodes', index, routing, osm)
  {
    forall x | x in index
      ensures nodes'[index[x]].id == index[x] && nodes'[index[x]].lat == osm[x].lat
      ensures nodes'[index[x]].lon == osm[x].lon
    {
      assert Places(nodes')[index[x]] == Places(nodes)[index[x]];
    }
  }

  /** The graph before filtering: the routing nodes, numbered, and the edges of every way. */
  method BuildRaw(ways: seq<OsmWay>, osm: map<int, OsmNode>, dist: (OsmNode, OsmNode) -> real)
    returns (graph: Graph, index: map<int, nat>)
    requires AllKnown(ways, osm)
    ensures fresh(graph) && graph.Valid()
    ensures NumbersRouting(graph.nodes, index, RoutingSet(ways), osm)
    ensures forall w :: 0 <= w < |ways| ==> WayEnds(ways[w]) <= RoutingSet(ways)
    ensures graph.edges == AllWayEdges(ways, RoutingSet(ways), index, osm, dist)
  {
    var usage, keys := FindIntersections(ways);
    var routing, members := RoutingNodes(ways, usage, keys);
    RoutingKnown(ways, osm);
    forall k | 0 <= k < |members| ensures members[k] in osm {
      Listed(members, routing, k);
    }
    graph := new Graph();
    index := AssignIndices(members, osm, graph);
    NumberedInOrder(graph.nodes, index, members, routing, osm);
    ghost var nodes := graph.nodes;
    AddAllWays(ways, routing, index, osm, dist, graph);
    NumbersKept(nodes, graph.nodes, index, routing, osm);
  }

  /** A list that holds each member of a set once is as long as the set is large. */
  lemma {:induction false} MembersCard(list: seq<int>, s: set<int>)
    requires Enumerates(list, s)
    ensures |list| == |s|
  {
    if list != [] {
      var x := list[|list| - 1];
      var init := list[..|list| - 1];
      assert Enumerates(init, s - {x}) by {
        forall y ensures y in init <==> y in s - {x} {
          if y in init {
            var k :| 0 <= k < |init| && init[k] == y;
            assert list[k] == y;
          }
          if y in list && y != x {
            var k :| 0 <= k < |list| && list[k] == y;
            assert init[k] == y;
          }
        }
      }
      MembersCard(init, s - {x});
    } else {
      assert s == {} by {
        forall y ensures y !in s {
          assert y in list <==> y in s;
        }
      }
    }
  }

  /**
   * The routing graph: built from the ways and the map nodes, then restricted to its first
   * largest component. `raw` is the graph before that restriction; the other ghost results
   * record the restriction, as the filter describes them.
   */
  method BuildGraph(ways: seq<OsmWay>, osm: map<int, OsmNode>, dist: (OsmNode, OsmNode) -> real)
    returns (graph: Graph, ghost raw: Graph, ghost index: map<int, nat>, ghost comps: seq<seq<int>>,
             ghost owner: seq<int>, ghost mainIdx: int, ghost renumber: map<int, nat>, ghost origin: seq<nat>)
    requires AllKnown(ways, osm)
    ensures fresh(graph) && graph.Valid() && raw.Valid()
    ensures NumbersRouting(raw.nodes, index, RoutingSet(ways), osm)
    ensures forall w :: 0 <= w < |ways| ==> WayEnds(ways[w]) <= RoutingSet(ways)
    ensures raw.edges == AllWayEdges(ways, RoutingSet(ways), index, osm, dist)
    ensures KeepsLargest(raw.nodes, raw.edges, graph.nodes, graph.edges, comps, owner, mainIdx, renumber, origin)
  {
    var built, oldIndex := BuildRaw(ways, osm, dist);
    raw, index := built, oldIndex;
    graph, comps, owner, mainIdx, renumber, origin := FilterLargestComponent(built);
  }
}
