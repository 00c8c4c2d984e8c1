/**
 * Keeping only the largest component of the routing graph. Components are found by a
 * breadth-first search that follows edges forwards from the lowest node not yet visited,
 * so each one is the set of not-yet-visited nodes reachable from its first node. The first
 * component of maximal size is kept, its nodes renumbered in discovery order and its
 * internal edges numbered 0, 1, 2, ...
 */
module GraphFilter {
  import opened Graphs

  // ---------------------------------------------------------------------------------------
  // Components

  /**
   * `comps` partitions the nodes 0..n-1 and `owner` names the component of each node: every
   * node lies in exactly one component, and there exactly once.
   */
  ghost predicate Partition(comps: seq<seq<int>>, owner: seq<int>, n: nat)
  {
    && |owner| == n
    && (forall v :: 0 <= v < n ==> 0 <= owner[v] < |comps| && v in comps[owner[v]])
    && (forall c, k :: 0 <= c < |comps| && 0 <= k < |comps[c]| ==>
          0 <= comps[c][k] < n && owner[comps[c][k]] == c)
    && (forall c, k, j :: 0 <= c < |comps| && 0 <= k < j < |comps[c]| ==> comps[c][k] != comps[c][j])
  }

  /** No edge leads from a component to a later one: a search from a node finds all it can reach. */
  ghost predicate Downstream(edges: seq<Edge>, owner: seq<int>)
  {
    forall e :: 0 <= e < |edges| && 0 <= edges[e].from < |owner| ==>
      0 <= edges[e].to < |owner| && owner[edges[e].to] <= owner[edges[e].from]
  }

  /** A walk never climbs to a later component. */
  lemma {:induction false} DownstreamWalk(edges: seq<Edge>, owner: seq<int>, path: seq<int>, hops: seq<nat>)
    requires Downstream(edges, owner) && Walk(edges, path, hops) && 0 <= path[0] < |owner|
    ensures 0 <= Last(path) < |owner| && owner[Last(path)] <= owner[path[0]]
  {
    if hops != [] {
      var n := |hops| - 1;
      assert Walk(edges, path[..n + 1], hops[..n]);
      DownstreamWalk(edges, owner, path[..n + 1], hops[..n]);
      assert Last(path[..n + 1]) == path[n];
      assert edges[hops[n]].from == path[n] && edges[hops[n]].to == Last(path);
    }
  }

  /**
   * Each component is exactly the set of nodes that its seed, its first node, reaches and
   * that no earlier component holds.
   */
  ghost predicate SeedsReach(edges: seq<Edge>, comps: seq<seq<int>>, owner: seq<int>)
  {
    forall c, v :: 0 <= c < |comps| && 0 <= v < |owner| && comps[c] != [] ==>
      (owner[v] == c <==> Reaches(edges, comps[c][0], v) && owner[v] >= c)
  }

  /**
   * Without edges each node is a component of its own: a seed reaches only itself, so no
   * component can hold a second node.
   */
  lemma EdgelessSingletons(comps: seq<seq<int>>, owner: seq<int>, c: int, v: int)
    requires SeedsReach([], comps, owner)
    requires 0 <= c < |comps| && comps[c] != [] && 0 <= v < |owner| && owner[v] == c
    ensures v == comps[c][0]
  {
    assert Reaches([], comps[c][0], v);
    var path, hops :| Walk([], path, hops) && path[0] == comps[c][0] && Last(path) == v;
    assert |hops| == 0;
  }

  /** The nodes 0..n-1. */
  ghost function Below(n: nat): (r: set<int>)
    ensures forall v :: v in r <==> 0 <= v < n
  {
    if n == 0 then {} else Below(n - 1) + {n - 1}
  }

  // ---------------------------------------------------------------------------------------
  // The order of a breadth-first search

  /**
   * The entries among the first `j` of `targets` not marked in `visited`, each once, in the
   * order they first occur.
   */
  function Fresh(targets: seq<int>, j: nat, visited: seq<bool>): (r: seq<int>)
    requires j <= |targets| && forall k :: 0 <= k < |targets| ==> 0 <= targets[k] < |visited|
    ensures forall k :: 0 <= k < |r| ==> 0 <= r[k] < |visited|
  {
    if j == 0 then []
    else
      var t := targets[j - 1];
      Fresh(targets, j - 1, visited) + (if !visited[t] && t !in targets[..j - 1] then [t] else [])
  }

  /** `Fresh` holds exactly the unmarked entries among the first `j` targets, each once. */
  lemma {:induction false} FreshExact(targets: seq<int>, j: nat, visited: seq<bool>)
    requires j <= |targets| && forall k :: 0 <= k < |targets| ==> 0 <= targets[k] < |visited|
    ensures forall x :: x in Fresh(targets, j, visited) <==> x in targets[..j] && !visited[x]
    ensures forall k, i :: 0 <= k < i < |Fresh(targets, j, visited)| ==>
              Fresh(targets, j, visited)[k] != Fresh(targets, j, visited)[i]
  {
    if j > 0 {
      FreshExact(targets, j - 1, visited);
      assert targets[..j] == targets[..j - 1] + [targets[j - 1]];
    }
  }

  /** `visited` with every entry of `targets` marked. */
  function Marked(visited: seq<bool>, targets: seq<int>): (r: seq<bool>)
    ensures |r| == |visited|
  {
    seq(|visited|, v requires 0 <= v < |visited| => visited[v] || v in targets)
  }

  /** The nodes not marked. */
  ghost function Unmarked(visited: seq<bool>): set<int>
  {
    set v | 0 <= v < |visited| && !visited[v]
  }

  /** Marking the targets leaves fewer nodes unmarked, and none fewer only when nothing is fresh. */
  lemma MarkShrinks(visited: seq<bool>, targets: seq<int>)
    requires forall k :: 0 <= k < |targets| ==> 0 <= targets[k] < |visited|
    ensures Fresh(targets, |targets|, visited) == [] ==> Marked(visited, targets) == visited
    ensures Fresh(targets, |targets|, visited) != [] ==> Unmarked(Marked(visited, targets)) < Unmarked(visited)
  {
    FreshExact(targets, |targets|, visited);
    assert targets[..|targets|] == targets;
    var marked := Marked(visited, targets);
    if Fresh(targets, |targets|, visited) == [] {
      forall v | 0 <= v < |visited|
        ensures marked[v] == visited[v]
      {
        if v in targets {
          assert v !in Fresh(targets, |targets|, visited);
        }
      }
    } else {
      var x := Fresh(targets, |targets|, visited)[0];
      assert x in targets && !visited[x];
      assert x in Unmarked(visited) && x !in Unmarked(marked);
      assert Unmarked(marked) <= Unmarked(visited);
    }
  }

  /** Marking one more target adds it to `Fresh` exactly when it was not marked yet. */
  lemma FreshStep(targets: seq<int>, j: nat, visited: seq<bool>, marked: seq<bool>)
    requires forall k :: 0 <= k < |targets| ==> 0 <= targets[k] < |visited|
    requires j < |targets| && |marked| == |visited|
    requires forall v :: 0 <= v < |visited| ==> (marked[v] <==> visited[v] || v in targets[..j])
    ensures Fresh(targets, j + 1, visited)
         == Fresh(targets, j, visited) + (if !marked[targets[j]] then [targets[j]] else [])
    ensures forall v :: 0 <= v < |visited| ==>
              (visited[v] || v in targets[..j + 1] <==> marked[v] || v == targets[j])
  {
    assert targets[..j + 1][..j] == targets[..j] && targets[..j + 1] == targets[..j] + [targets[j]];
  }

  /** The targets of the edges leaving node `v`, in the order of its adjacency list. */
  ghost function TargetsOf(nodes: seq<Node>, edges: seq<Edge>, v: int): (r: seq<int>)
    requires WellFormed(nodes, edges) && 0 <= v < |nodes|
    ensures |r| == |nodes[v].adj|
    ensures forall k :: 0 <= k < |r| ==>
              nodes[v].adj[k] < |edges| && edges[nodes[v].adj[k]].from == v
              && r[k] == edges[nodes[v].adj[k]].to && 0 <= r[k] < |nodes|
  {
    seq(|nodes[v].adj|, k requires 0 <= k < |nodes[v].adj| => edges[nodes[v].adj[k]].to)
  }

  /**
   * The nodes a breadth-first search lists, in order: `found` are the nodes queued so far,
   * the first `head` of them already expanded, and `visited` marks every node queued by this
   * or an earlier search. Expanding the node at the head queues its unmarked targets in
   * adjacency order; the search ends when the queue is empty.
   */
  ghost function Bfs(nodes: seq<Node>, edges: seq<Edge>, visited: seq<bool>, found: seq<int>, head: nat): seq<int>
    requires WellFormed(nodes, edges) && |visited| == |nodes| && head <= |found|
    requires forall k :: 0 <= k < |found| ==> 0 <= found[k] < |nodes|
    decreases Unmarked(visited), |found| - head
  {
    if head == |found| then found
    else
      var targets := TargetsOf(nodes, edges, found[head]);
      MarkShrinks(visited, targets);
      Bfs(nodes, edges, Marked(visited, targets), found + Fresh(targets, |targets|, visited), head + 1)
  }

  /** One step of the search: the node at the head is expanded. */
  lemma BfsStep(nodes: seq<Node>, edges: seq<Edge>, visited: seq<bool>, found: seq<int>, head: nat)
    requires WellFormed(nodes, edges) && |visited| == |nodes| && head < |found|
    requires forall k :: 0 <= k < |found| ==> 0 <= found[k] < |nodes|
    ensures var targets := TargetsOf(nodes, edges, found[head]);
      Bfs(nodes, edges, visited, found, head)
      == Bfs(nodes, edges, Marked(visited, targets), found + Fresh(targets, |targets|, visited), head + 1)
  {
  }

  /** The nodes of the components before `c`. */
  ghost function Earlier(owner: seq<int>, c: int): (r: seq<bool>)
    ensures |r| == |owner|
  {
    seq(|owner|, v requires 0 <= v < |owner| => 0 <= owner[v] < c)
  }

  /**
   * Every component lists its nodes in the order of a breadth-first search from its seed,
   * started when the nodes of the earlier components were the visited ones.
   */
  ghost predicate InSearchOrder(nodes: seq<Node>, edges: seq<Edge>, comps: seq<seq<int>>, owner: seq<int>)
  {
    && WellFormed(nodes, edges) && |owner| == |nodes|
    && forall c :: 0 <= c < |comps| ==>
         && comps[c] != [] && 0 <= comps[c][0] < |nodes|
         && comps[c] == Bfs(nodes, edges, Earlier(owner, c)[comps[c][0] := true], [comps[c][0]], 0)
  }

  // ---------------------------------------------------------------------------------------
  // The search

  /**
   * The state of the search while component `|comps|` is being grown. The queue is `found`
   * from position `head` on: `found` lists the nodes discovered by this search in the order
   * they were queued, and those before `head` have been taken from the queue and expanded.
   * Nodes of earlier components and of `found` are visited and owned, no other node is; an
   * expanded node has all its targets visited, and no edge leads to a later component.
   */
  ghost predicate Searching(edges: seq<Edge>, n: nat, visited: seq<bool>, owner: seq<int>,
                            comps: seq<seq<int>>, found: seq<int>, head: nat, unseen: set<int>)
  {
    var ok :=
      && |visited| == n && |owner| == n && head <= |found|
      && (forall v :: 0 <= v < n ==> (visited[v] <==> owner[v] >= 0))
      && (forall v :: v in unseen <==> 0 <= v < n && owner[v] < 0)
      && (forall v :: 0 <= v < n ==> -1 <= owner[v] <= |comps|)
      && (forall v :: 0 <= v < n && 0 <= owner[v] < |comps| ==> v in comps[owner[v]])
      && (forall v :: 0 <= v < n && owner[v] == |comps| ==> v in found)
      && (forall c, k :: 0 <= c < |comps| && 0 <= k < |comps[c]| ==>
            0 <= comps[c][k] < n && owner[comps[c][k]] == c)
      && (forall c, k, j :: 0 <= c < |comps| && 0 <= k < j < |comps[c]| ==> comps[c][k] != comps[c][j])
      && (forall c :: 0 <= c < |comps| ==> comps[c] != [])
      && (forall k :: 0 <= k < |found| ==> 0 <= found[k] < n && owner[found[k]] == |comps|)
      && (forall k, j :: 0 <= k < j < |found| ==> found[k] != found[j])
      && (forall e :: 0 <= e < |edges| && 0 <= edges[e].from < n && 0 <= owner[edges[e].from] < |comps| ==>
            0 <= edges[e].to < n && 0 <= owner[edges[e].to] <= owner[edges[e].from])
      && (forall k, e :: 0 <= k < head && 0 <= e < |edges| && edges[e].from == found[k] ==>
            0 <= edges[e].to < n && 0 <= owner[edges[e].to]);
    ok
  }

  /** Every node of a component, and every node found by the current search, is reached from its first node. */
  ghost predicate Rooted(edges: seq<Edge>, comps: seq<seq<int>>, found: seq<int>)
  {
    && (forall c, k {:trigger Reaches(edges, comps[c][0], comps[c][k])} ::
          0 <= c < |comps| && 0 <= k < |comps[c]| ==> Reaches(edges, comps[c][0], comps[c][k]))
    && (forall k {:trigger Reaches(edges, found[0], found[k])} ::
          0 <= k < |found| ==> Reaches(edges, found[0], found[k]))
  }

  /** A node reached from the first node found, or the first node itself, keeps the search rooted. */
  lemma RootedGrows(edges: seq<Edge>, comps: seq<seq<int>>, found: seq<int>, v: int)
    requires Rooted(edges, comps, found)
    requires found == [] || Reaches(edges, found[0], v)
    ensures Rooted(edges, comps, found + [v])
  {
    var found' := found + [v];
    forall k | 0 <= k < |found'|
      ensures Reaches(edges, found'[0], found'[k])
    {
      if k < |found| {
        assert found'[0] == found[0] && found'[k] == found[k];
        assert Reaches(edges, found[0], found[k]);
      } else if found == [] {
        ReachesSelf(edges, v);
      }
    }
  }

  /** A finished search adds a rooted component. */
  lemma RootedCloses(edges: seq<Edge>, comps: seq<seq<int>>, found: seq<int>)
    requires Rooted(edges, comps, found) && found != []
    ensures Rooted(edges, comps + [found], [])
  {
    var comps' := comps + [found];
    forall c, k | 0 <= c < |comps'| && 0 <= k < |comps'[c]|
      ensures Reaches(edges, comps'[c][0], comps'[c][k])
    {
      if c < |comps| {
        assert comps'[c] == comps[c];
        assert Reaches(edges, comps[c][0], comps[c][k]);
      } else {
        assert Reaches(edges, found[0], found[k]);
      }
    }
  }

  /** Discovering an unvisited node gives it to the current component and queues it. */
  lemma Discover(edges: seq<Edge>, n: nat, visited: seq<bool>, owner: seq<int>, comps: seq<seq<int>>,
                 found: seq<int>, head: nat, unseen: set<int>, v: int)
    requires Searching(edges, n, visited, owner, comps, found, head, unseen)
    requires 0 <= v < n && !visited[v]
    ensures v in unseen && |unseen - {v}| == |unseen| - 1
    ensures Searching(edges, n, visited[v := true], owner[v := |comps|], comps, found + [v], head, unseen - {v})
  {
  }

  /** Once all targets of the node at the head of the queue are visited, it counts as expanded. */
  lemma Expanded(edges: seq<Edge>, n: nat, visited: seq<bool>, owner: seq<int>, comps: seq<seq<int>>,
                 found: seq<int>, head: nat, unseen: set<int>)
    requires Searching(edges, n, visited, owner, comps, found, head, unseen) && head < |found|
    requires forall e :: 0 <= e < |edges| && edges[e].from == found[head] ==> 0 <= edges[e].to < n && visited[edges[e].to]
    ensures Searching(edges, n, visited, owner, comps, found, head + 1, unseen)
  {
  }

  /**
   * Where `Enqueue` stands after the first `j` targets of `found[head]`: the state has moved
   * from `visited`, `owner`, `found`, `unseen` to `visited'`, `owner'`, `found'`, `unseen'`,
   * which queues the fresh ones among those targets and marks them all.
   */
  ghost predicate Enqueued(edges: seq<Edge>, n: nat, targets: seq<int>, visited: seq<bool>, owner: seq<int>,
                           comps: seq<seq<int>>, found: seq<int>, head: nat, unseen: set<int>, j: nat,
                           visited': seq<bool>, owner': seq<int>, found': seq<int>, unseen': set<int>)
  {
    var ok :=
      && j <= |targets| && |visited| == |visited'| == |owner| == n
      && (forall k :: 0 <= k < |targets| ==> 0 <= targets[k] < n)
      && Searching(edges, n, visited', owner', comps, found', head, unseen') && Rooted(edges, comps, found')
      && found' == found + Fresh(targets, j, visited)
      && (forall v :: 0 <= v < n ==> (visited'[v] <==> visited[v] || v in targets[..j]))
      && |unseen'| + |found'| == |unseen| + |found|
      && (forall v :: 0 <= v < n ==> owner'[v] == owner[v] || (owner[v] < 0 && owner'[v] == |comps|));
    ok
  }

  /** A target already visited changes nothing. */
  lemma EnqueueSkip(edges: seq<Edge>, n: nat, targets: seq<int>, visited: seq<bool>, owner: seq<int>,
                    comps: seq<seq<int>>, found: seq<int>, head: nat, unseen: set<int>, j: nat,
                    visited': seq<bool>, owner': seq<int>, found': seq<int>, unseen': set<int>)
    requires j < |targets|
    requires Enqueued(edges, n, targets, visited, owner, comps, found, head, unseen, j, visited', owner', found', unseen')
    requires visited'[targets[j]]
    ensures Enqueued(edges, n, targets, visited, owner, comps, found, head, unseen, j + 1, visited', owner', found', unseen')
  {
    FreshStep(targets, j, visited, visited');
  }

  /** A target not yet visited is reached from the seed, so it is discovered. */
  lemma EnqueueFresh(edges: seq<Edge>, n: nat, targets: seq<int>, hops: seq<nat>, visited: seq<bool>,
                     owner: seq<int>, comps: seq<seq<int>>, found: seq<int>, head: nat, unseen: set<int>, j: nat,
                     visited': seq<bool>, owner': seq<int>, found': seq<int>, unseen': set<int>)
    requires head < |found| && j < |targets| && |hops| == |targets|
    requires hops[j] < |edges| && edges[hops[j]].from == found[head] && edges[hops[j]].to == targets[j]
    requires Enqueued(edges, n, targets, visited, owner, comps, found, head, unseen, j, visited', owner', found', unseen')
    requires !visited'[targets[j]]
    ensures Enqueued(edges, n, targets, visited, owner, comps, found, head, unseen, j + 1,
                     visited'[targets[j] := true], owner'[targets[j] := |comps|], found' + [targets[j]],
                     unseen' - {targets[j]})
  {
    var t := targets[j];
    FreshStep(targets, j, visited, visited');
    assert found'[head] == found[head];
    assert Reaches(edges, found'[0], found'[head]);
    ReachesStep(edges, found'[0], found'[head], t, hops[j]);
    RootedGrows(edges, comps, found', t);
    Discover(edges, n, visited', owner', comps, found', head, unseen', t);
    var before := Fresh(targets, j, visited);
    assert found' + [t] == found + (before + [t]);
  }

  /**
   * Expands the node `found[head]`, whose edges at positions `hops` lead to `targets`: marks
   * each target not yet visited as visited, gives it to the current component and queues it.
   * The nodes queued are exactly the fresh targets, in order.
   */
  method Enqueue(ghost edges: seq<Edge>, n: nat, targets: seq<int>, ghost hops: seq<nat>, visited: seq<bool>,
                 ghost owner: seq<int>, ghost comps: seq<seq<int>>, found: seq<int>, head: nat, ghost unseen: set<int>)
    returns (visited': seq<bool>, found': seq<int>, ghost owner': seq<int>, ghost unseen': set<int>)
    requires forall k :: 0 <= k < |targets| ==> 0 <= targets[k] < n
    requires Searching(edges, n, visited, owner, comps, found, head, unseen) && head < |found|
    requires Rooted(edges, comps, found) && |hops| == |targets|
    requires forall k :: 0 <= k < |targets| ==>
               hops[k] < |edges| && edges[hops[k]].from == found[head] && edges[hops[k]].to == targets[k]
    ensures Searching(edges, n, visited', owner', comps, found', head, unseen') && Rooted(edges, comps, found')
    ensures found' == found + Fresh(targets, |targets|, visited)
    ensures visited' == Marked(visited, targets)
    ensures |unseen'| + |found'| == |unseen| + |found|
    ensures forall v :: 0 <= v < n ==> owner'[v] == owner[v] || (owner[v] < 0 && owner'[v] == |comps|)
  {
    visited', found', owner', unseen' := visited, found, owner, unseen;
    for j := 0 to |targets|
      invariant Enqueued(edges, n, targets, visited, owner, comps, found, head, unseen, j, visited', owner', found', unseen')
    {
      var neighbor := targets[j];
      if visited'[neighbor] {
        EnqueueSkip(edges, n, targets, visited, owner, comps, found, head, unseen, j, visited', owner', found', unseen');
      } else {
        EnqueueFresh(edges, n, targets, hops, visited, owner, comps, found, head, unseen, j,
                     visited', owner', found', unseen');
        visited', owner', unseen', found' := visited'[neighbor := true], owner'[neighbor := |comps|],
                                             unseen' - {neighbor}, found' + [neighbor];
      }
    }
    assert targets[..|targets|] == targets;
  }

  /**
   * Takes the node at the head of the queue and expands it: every target not yet visited is
   * marked visited, given to the current component and queued.
   */
  method Expand(graph: Graph, visited: seq<bool>, ghost owner: seq<int>, ghost comps: seq<seq<int>>,
                found: seq<int>, head: nat, ghost unseen: set<int>)
    returns (visited': seq<bool>, found': seq<int>, ghost owner': seq<int>, ghost unseen': set<int>)
    requires graph.Valid() && head < |found|
    requires Searching(graph.edges, |graph.nodes|, visited, owner, comps, found, head, unseen)
    requires Rooted(graph.edges, comps, found)
    ensures Searching(graph.edges, |graph.nodes|, visited', owner', comps, found', head + 1, unseen')
    ensures Rooted(graph.edges, comps, found')
    ensures found' == found + Fresh(TargetsOf(graph.nodes, graph.edges, found[head]), |graph.nodes[found[head]].adj|, visited)
    ensures visited' == Marked(visited, TargetsOf(graph.nodes, graph.edges, found[head]))
    ensures Bfs(graph.nodes, graph.edges, visited', found', head + 1) == Bfs(graph.nodes, graph.edges, visited, found, head)
    ensures |unseen'| + |found'| == |unseen| + |found|
    ensures forall v :: 0 <= v < |graph.nodes| ==> owner'[v] == owner[v] || (owner[v] < 0 && owner'[v] == |comps|)
  {
    var curr := found[head];
    var nbrs := graph.Neighbors(curr);
    var targets := seq(|nbrs|, k requires 0 <= k < |nbrs| => nbrs[k].0);
    assert targets == TargetsOf(graph.nodes, graph.edges, curr);
    visited', found', owner', unseen' :=
      Enqueue(graph.edges, |graph.nodes|, targets, graph.nodes[curr].adj, visited, owner, comps, found, head, unseen);
    assert found'[head] == curr;
    forall e | 0 <= e < |graph.edges| && graph.edges[e].from == curr
      ensures 0 <= graph.edges[e].to < |graph.nodes| && visited'[graph.edges[e].to]
    {
      var k :| 0 <= k < |graph.nodes[curr].adj| && graph.nodes[curr].adj[k] == e;
      assert targets[k] == graph.edges[e].to;
    }
    Expanded(graph.edges, |graph.nodes|, visited', owner', comps, found', head, unseen');
    BfsStep(graph.nodes, graph.edges, visited, found, head);
  }

  /** A search whose queue is empty closes its component: the nodes it found. */
  lemma Finish(edges: seq<Edge>, n: nat, visited: seq<bool>, owner: seq<int>, comps: seq<seq<int>>,
               found: seq<int>, unseen: set<int>)
    requires Searching(edges, n, visited, owner, comps, found, |found|, unseen) && found != []
    ensures Searching(edges, n, visited, owner, comps + [found], [], 0, unseen)
  {
    forall e | 0 <= e < |edges| && 0 <= edges[e].from < n && 0 <= owner[edges[e].from] < |comps| + 1
      ensures 0 <= edges[e].to < n && 0 <= owner[edges[e].to] <= owner[edges[e].from]
    {
      if owner[edges[e].from] == |comps| {
        var k :| 0 <= k < |found| && found[k] == edges[e].from;
      }
    }
  }

  /**
   * When every node is visited, the components found partition the nodes, no edge leads
   * forwards, and each component is what its seed reaches outside the earlier ones.
   */
  lemma Done(edges: seq<Edge>, n: nat, visited: seq<bool>, owner: seq<int>, comps: seq<seq<int>>, unseen: set<int>)
    requires Searching(edges, n, visited, owner, comps, [], 0, unseen) && Rooted(edges, comps, [])
    requires forall v :: 0 <= v < n ==> owner[v] >= 0
    ensures Partition(comps, owner, n) && Downstream(edges, owner) && SeedsReach(edges, comps, owner)
  {
    forall v | 0 <= v < n
      ensures owner[v] != |comps|
    {
      assert v !in [];
    }
    assert Downstream(edges, owner);
    forall c, v | 0 <= c < |comps| && 0 <= v < n && comps[c] != []
      ensures owner[v] == c <==> Reaches(edges, comps[c][0], v) && owner[v] >= c
    {
      if owner[v] == c {
        var k :| 0 <= k < |comps[c]| && comps[c][k] == v;
        assert Reaches(edges, comps[c][0], comps[c][k]);
      }
      if Reaches(edges, comps[c][0], v) {
        var path, hops :| Walk(edges, path, hops) && path[0] == comps[c][0] && Last(path) == v;
        DownstreamWalk(edges, owner, path, hops);
      }
    }
  }

  /** Takes nodes from the queue and expands them until the queue is empty. */
  method Drain(graph: Graph, visited: seq<bool>, ghost owner: seq<int>, ghost comps: seq<seq<int>>,
               found: seq<int>, ghost unseen: set<int>)
    returns (visited': seq<bool>, found': seq<int>, ghost owner': seq<int>, ghost unseen': set<int>)
    requires graph.Valid() && found != []
    requires Searching(graph.edges, |graph.nodes|, visited, owner, comps, found, 0, unseen)
    requires Rooted(graph.edges, comps, found)
    ensures Searching(graph.edges, |graph.nodes|, visited', owner', comps, found', |found'|, unseen')
    ensures Rooted(graph.edges, comps, found')
    ensures found' == Bfs(graph.nodes, graph.edges, visited, found, 0)
    ensures found' != [] && found'[0] == found[0]
    ensures forall v :: 0 <= v < |graph.nodes| ==> owner'[v] == owner[v] || (owner[v] < 0 && owner'[v] == |comps|)
  {
    visited', found', owner', unseen' := visited, found, owner, unseen;
    var head := 0;
    while head < |found'|
      invariant Searching(graph.edges, |graph.nodes|, visited', owner', comps, found', head, unseen')
      invariant Rooted(graph.edges, comps, found')
      invariant Bfs(graph.nodes, graph.edges, visited', found', head) == Bfs(graph.nodes, graph.edges, visited, found, 0)
      invariant found' != [] && found'[0] == found[0]
      invariant forall v :: 0 <= v < |graph.nodes| ==> owner'[v] == owner[v] || (owner[v] < 0 && owner'[v] == |comps|)
      decreases |unseen'|, |found'| - head
    {
      ghost var before := found';
      visited', found', owner', unseen' := Expand(graph, visited', owner', comps, found', head, unseen');
      assert found'[0] == before[0];
      head := head + 1;
    }
  }

  /**
   * The breadth-first search from `seed`, which no earlier search reached. The queue is the
   * part of the discovered nodes not yet taken; the nodes taken, in order, form the new component.
   */
  /** The state right after the seed of a new component is discovered. */
  lemma Seeding(edges: seq<Edge>, n: nat, visited: seq<bool>, owner: seq<int>, comps: seq<seq<int>>,
                unseen: set<int>, seed: int)
    requires Searching(edges, n, visited, owner, comps, [], 0, unseen) && Rooted(edges, comps, [])
    requires 0 <= seed < n && !visited[seed]
    ensures Searching(edges, n, visited[seed := true], owner[seed := |comps|], comps, [seed], 0, unseen - {seed})
    ensures Rooted(edges, comps, [seed])
  {
    Discover(edges, n, visited, owner, comps, [], 0, unseen, seed);
    RootedGrows(edges, comps, [], seed);
  }

  method Search(graph: Graph, seed: int, visited: seq<bool>, ghost owner: seq<int>, ghost comps: seq<seq<int>>,
                ghost unseen: set<int>)
    returns (component: seq<int>, visited': seq<bool>, ghost owner': seq<int>, ghost unseen': set<int>)
    requires graph.Valid() && 0 <= seed < |graph.nodes|
    requires Searching(graph.edges, |graph.nodes|, visited, owner, comps, [], 0, unseen) && !visited[seed]
    requires Rooted(graph.edges, comps, [])
    ensures Searching(graph.edges, |graph.nodes|, visited', owner', comps + [component], [], 0, unseen')
    ensures Rooted(graph.edges, comps + [component], [])
    ensures component == Bfs(graph.nodes, graph.edges, visited[seed := true], [seed], 0)
    ensures component != [] && component[0] == seed
    ensures |owner'| == |graph.nodes| && owner'[seed] == |comps|
    ensures forall v :: 0 <= v < |graph.nodes| ==> owner'[v] == owner[v] || (owner[v] < 0 && owner'[v] == |comps|)
  {
    Seeding(graph.edges, |graph.nodes|, visited, owner, comps, unseen, seed);
    visited', component, owner', unseen' :=
      Drain(graph, visited[seed := true], owner[seed := |comps|], comps, [seed], unseen - {seed});
    Finish(graph.edges, |graph.nodes|, visited', owner', comps, component, unseen');
    RootedCloses(graph.edges, comps, component);
  }

  /**
   * Before node `i` is considered: every node below `i` is visited, and each component starts
   * at its seed, below `i`, with seeds in increasing order and every node below a seed owned
   * by an earlier component.
   */
  ghost predicate Seeded(edges: seq<Edge>, n: nat, visited: seq<bool>, owner: seq<int>, comps: seq<seq<int>>,
                         unseen: set<int>, i: nat)
  {
    var ok :=
      && Searching(edges, n, visited, owner, comps, [], 0, unseen) && Rooted(edges, comps, [])
      && |visited| == |owner| == n && i <= n
      && (forall v :: 0 <= v < i ==> owner[v] >= 0)
      && (forall c :: 0 <= c < |comps| ==> comps[c] != [] && comps[c][0] < i)
      && (forall c, d :: 0 <= c < d < |comps| ==> comps[c][0] < comps[d][0])
      && (forall c, v :: 0 <= c < |comps| && 0 <= v < comps[c][0] ==> 0 <= owner[v] < c);
    ok
  }

  /** The seed facts of `Seeded` carry over to the components after a search from node `i`. */
  lemma SeedsAfter(comps: seq<seq<int>>, owner: seq<int>, owner': seq<int>, component: seq<int>, i: nat)
    requires |owner'| == |owner| && i < |owner|
    requires forall v :: 0 <= v < i ==> 0 <= owner[v] < |comps|
    requires forall c :: 0 <= c < |comps| ==> comps[c] != [] && comps[c][0] < i
    requires forall c, d :: 0 <= c < d < |comps| ==> comps[c][0] < comps[d][0]
    requires forall c, v :: 0 <= c < |comps| && 0 <= v < comps[c][0] ==> 0 <= owner[v] < c
    requires component != [] && component[0] == i && owner'[i] == |comps|
    requires forall v :: 0 <= v < |owner| && owner[v] >= 0 ==> owner'[v] == owner[v]
    ensures forall v :: 0 <= v < i + 1 ==> owner'[v] >= 0
    ensures forall c :: 0 <= c < |comps + [component]| ==>
      (comps + [component])[c] != [] && (comps + [component])[c][0] < i + 1
    ensures forall c, d :: 0 <= c < d < |comps + [component]| ==>
      (comps + [component])[c][0] < (comps + [component])[d][0]
    ensures forall c, v :: 0 <= c < |comps + [component]| && 0 <= v < (comps + [component])[c][0] ==>
      0 <= owner'[v] < c
  {
    var comps' := comps + [component];
    forall c, v | 0 <= c < |comps'| && 0 <= v < comps'[c][0]
      ensures 0 <= owner'[v] < c
    {
      if c < |comps| {
        assert comps'[c] == comps[c];
      }
    }
    forall c, d | 0 <= c < d < |comps'|
      ensures comps'[c][0] < comps'[d][0]
    {
      if d < |comps| {
        assert comps'[c] == comps[c] && comps'[d] == comps[d];
      }
    }
  }

  /** A search from the lowest unvisited node `i` adds a component that keeps the seeds in order. */
  lemma SeededAfter(edges: seq<Edge>, n: nat, visited: seq<bool>, owner: seq<int>, comps: seq<seq<int>>,
                    unseen: set<int>, i: nat, component: seq<int>, visited': seq<bool>, owner': seq<int>,
                    unseen': set<int>)
    requires Seeded(edges, n, visited, owner, comps, unseen, i) && i < n && !visited[i]
    requires Searching(edges, n, visited', owner', comps + [component], [], 0, unseen')
    requires Rooted(edges, comps + [component], [])
    requires component != [] && component[0] == i && owner'[i] == |comps|
    requires forall v :: 0 <= v < n && owner[v] >= 0 ==> owner'[v] == owner[v]
    ensures Seeded(edges, n, visited', owner', comps + [component], unseen', i + 1)
  {
    forall v | 0 <= v < i ensures owner[v] != |comps| {
      var none: seq<int> := [];
      assert v !in none;
    }
    SeedsAfter(comps, owner, owner', component, i);
  }

  /**
   * A search from `seed` over the nodes visited before it keeps the earlier components in
   * search order and adds one more in search order.
   */
  lemma OrderAfter(nodes: seq<Node>, edges: seq<Edge>, comps: seq<seq<int>>, owner: seq<int>, owner': seq<int>,
                   visited: seq<bool>, seed: int, component: seq<int>)
    requires InSearchOrder(nodes, edges, comps, owner) && |owner'| == |owner| == |visited|
    requires forall v :: 0 <= v < |owner| ==> (visited[v] <==> 0 <= owner[v] < |comps|)
    requires forall v :: 0 <= v < |owner| ==> owner'[v] == owner[v] || (owner[v] < 0 && owner'[v] == |comps|)
    requires 0 <= seed < |nodes| && component == Bfs(nodes, edges, visited[seed := true], [seed], 0)
    requires component != [] && component[0] == seed
    ensures InSearchOrder(nodes, edges, comps + [component], owner')
  {
    var comps' := comps + [component];
    forall c | 0 <= c <= |comps|
      ensures Earlier(owner', c) == Earlier(owner, c)
    {
    }
    assert Earlier(owner, |comps|) == visited;
    forall c | 0 <= c < |comps'|
      ensures comps'[c] != [] && 0 <= comps'[c][0] < |nodes|
      ensures comps'[c] == Bfs(nodes, edges, Earlier(owner', c)[comps'[c][0] := true], [comps'[c][0]], 0)
    {
      if c < |comps| {
        assert comps'[c] == comps[c];
      }
    }
  }

  /** Considers node `i`: unless an earlier search reached it, a new search starts there. */
  method SearchFrom(graph: Graph, i: nat, visited: seq<bool>, ghost owner: seq<int>, comps: seq<seq<int>>,
                    ghost unseen: set<int>)
    returns (visited': seq<bool>, ghost owner': seq<int>, comps': seq<seq<int>>, ghost unseen': set<int>)
    requires graph.Valid() && i < |graph.nodes|
    requires Seeded(graph.edges, |graph.nodes|, visited, owner, comps, unseen, i)
    requires InSearchOrder(graph.nodes, graph.edges, comps, owner)
    ensures Seeded(graph.edges, |graph.nodes|, visited', owner', comps', unseen', i + 1)
    ensures InSearchOrder(graph.nodes, graph.edges, comps', owner')
    ensures visited[i] ==> comps' == comps
    ensures !visited[i] ==> comps' == comps + [Bfs(graph.nodes, graph.edges, visited[i := true], [i], 0)]
  {
    if visited[i] {
      visited', owner', comps', unseen' := visited, owner, comps, unseen;
      assert owner[i] >= 0;
    } else {
      var component;
      component, visited', owner', unseen' := Search(graph, i, visited, owner, comps, unseen);
      SeededAfter(graph.edges, |graph.nodes|, visited, owner, comps, unseen, i, component, visited', owner', unseen');
      forall v | 0 <= v < |graph.nodes|
        ensures visited[v] <==> 0 <= owner[v] < |comps|
      {
        var none: seq<int> := [];
        assert v !in none;
      }
      OrderAfter(graph.nodes, graph.edges, comps, owner, owner', visited, i, component);
      comps' := comps + [component];
    }
  }

  /**
   * The components in the order the search finds them: a search starts from every node not
   * visited by an earlier one, lowest index first.
   */
  method FindComponents(graph: Graph) returns (comps: seq<seq<int>>, ghost owner: seq<int>)
    requires graph.Valid()
    ensures Partition(comps, owner, |graph.nodes|) && Downstream(graph.edges, owner)
    ensures SeedsReach(graph.edges, comps, owner) && InSearchOrder(graph.nodes, graph.edges, comps, owner)
    ensures forall c :: 0 <= c < |comps| ==> comps[c] != []
    ensures forall c, d :: 0 <= c < d < |comps| ==> comps[c][0] < comps[d][0]
    ensures forall c, v :: 0 <= c < |comps| && 0 <= v < comps[c][0] ==> owner[v] < c
  {
    var n := graph.NumNodes();
    var visited := seq(n, _ => false);
    comps, owner := [], seq(n, _ => -1);
    ghost var unseen := Below(n);
    for i := 0 to n
      invariant Seeded(graph.edges, n, visited, owner, comps, unseen, i)
      invariant InSearchOrder(graph.nodes, graph.edges, comps, owner)
    {
      visited, owner, comps, unseen := SearchFrom(graph, i, visited, owner, comps, unseen);
    }
    Done(graph.edges, n, visited, owner, comps, unseen);
  }

  // ---------------------------------------------------------------------------------------
  // Keeping the largest component

  /** `mainIdx` is the first component of maximal size, or -1 when no component has a node. */
  ghost predicate FirstLargest(comps: seq<seq<int>>, mainIdx: int)
  {
    && -1 <= mainIdx < |comps|
    && (mainIdx == -1 <==> forall c :: 0 <= c < |comps| ==> comps[c] == [])
    && (mainIdx >= 0 ==> forall c :: 0 <= c < |comps| ==> |comps[c]| <= |comps[mainIdx]|)
    && (mainIdx >= 0 ==> forall c :: 0 <= c < mainIdx ==> |comps[c]| < |comps[mainIdx]|)
  }

  /** Scans the components for one strictly larger than the largest so far, starting from size 0. */
  method Largest(comps: seq<seq<int>>) returns (mainIdx: int)
    ensures FirstLargest(comps, mainIdx)
  {
    var maxSize := 0;
    mainIdx := -1;
    for i := 0 to |comps|
      invariant -1 <= mainIdx < i
      invariant mainIdx == -1 ==> maxSize == 0 && forall c :: 0 <= c < i ==> comps[c] == []
      invariant mainIdx >= 0 ==> maxSize == |comps[mainIdx]| > 0
      invariant forall c :: 0 <= c < i ==> |comps[c]| <= maxSize
      invariant mainIdx >= 0 ==> forall c :: 0 <= c < mainIdx ==> |comps[c]| < maxSize
    {
      if |comps[i]| > maxSize {
        maxSize := |comps[i]|;
        mainIdx := i;
      }
    }
  }

  /** `index` numbers the nodes of `main` by their position in it. */
  ghost predicate Renumbers(index: map<int, nat>, main: seq<int>)
  {
    && (forall x :: x in index <==> x in main)
    && (forall k :: 0 <= k < |main| ==> main[k] in index && index[main[k]] == k)
  }

  /**
   * `fedges` are the edges of `edges` with both ends in `main`, renumbered: kept edge j comes
   * from edge `origin[j]`, has id j, the new numbers of that edge's ends and its weight, and
   * every edge with both ends in `main` is kept exactly once.
   */
  ghost predicate KeptEdges(edges: seq<Edge>, main: seq<int>, index: map<int, nat>, fedges: seq<Edge>,
                            origin: seq<nat>)
  {
    && |origin| == |fedges|
    && (forall j :: 0 <= j < |origin| ==>
          && origin[j] < |edges| && edges[origin[j]].from in index && edges[origin[j]].to in index
          && fedges[j] == Edge(j, index[edges[origin[j]].from], index[edges[origin[j]].to], edges[origin[j]].weight))
    && (forall j, i :: 0 <= j < i < |origin| ==> origin[j] != origin[i])
    && (forall e :: e in origin <==> 0 <= e < |edges| && edges[e].from in main && edges[e].to in main)
  }

  /**
   * The kept edges so far: those with both ends in the component whose source is numbered
   * below `k`, or whose position is in `extra`, each once, numbered in the order kept.
   */
  ghost predicate KeptPart(edges: seq<Edge>, index: map<int, nat>, fedges: seq<Edge>, origin: seq<nat>,
                           k: nat, extra: seq<nat>)
  {
    var ok :=
      && |origin| == |fedges|
      && (forall j :: 0 <= j < |origin| ==>
            && origin[j] < |edges| && edges[origin[j]].from in index && edges[origin[j]].to in index
            && fedges[j] == Edge(j, index[edges[origin[j]].from], index[edges[origin[j]].to], edges[origin[j]].weight))
      && (forall j, i :: 0 <= j < i < |origin| ==> origin[j] != origin[i])
      && (forall e :: e in origin <==>
            && 0 <= e < |edges| && edges[e].from in index && edges[e].to in index
            && (index[edges[e].from] < k || e in extra));
    ok
  }

  /** Keeping the next edge leaving node `k`, whose target is in the component. */
  lemma KeepOne(edges: seq<Edge>, index: map<int, nat>, fedges: seq<Edge>, origin: seq<nat>, k: nat,
                extra: seq<nat>, e: nat)
    requires KeptPart(edges, index, fedges, origin, k, extra)
    requires e < |edges| && edges[e].from in index && index[edges[e].from] == k && edges[e].to in index
    requires e !in extra
    ensures KeptPart(edges, index, fedges + [Edge(|fedges|, k, index[edges[e].to], edges[e].weight)],
                     origin + [e], k, extra + [e])
  {
    assert e !in origin;
  }

  /** Passing over the next edge leaving node `k`, whose target is outside the component. */
  lemma SkipOne(edges: seq<Edge>, index: map<int, nat>, fedges: seq<Edge>, origin: seq<nat>, k: nat,
                extra: seq<nat>, e: nat)
    requires KeptPart(edges, index, fedges, origin, k, extra)
    requires e < |edges| && edges[e].to !in index
    ensures KeptPart(edges, index, fedges, origin, k, extra + [e])
  {
  }

  /** Once every edge leaving node `k` has been considered, node `k` is done. */
  lemma NodeDone(edges: seq<Edge>, index: map<int, nat>, fedges: seq<Edge>, origin: seq<nat>, k: nat,
                 from: int, adj: seq<nat>)
    requires KeptPart(edges, index, fedges, origin, k, adj)
    requires from in index && index[from] == k
    requires forall e :: e in adj <==> 0 <= e < |edges| && edges[e].from == from
    requires forall x, y :: x in index && y in index && index[x] == index[y] ==> x == y
    ensures KeptPart(edges, index, fedges, origin, k + 1, [])
  {
  }

  /** Adds the nodes of the component in order, node k of the new graph at the place of `main[k]`. */
  method AddRenumberedNodes(original: Graph, main: seq<int>, filtered: Graph) returns (index: map<int, nat>)
    requires original.Valid() && filtered.Valid() && filtered.nodes == [] && filtered.edges == []
    requires forall k :: 0 <= k < |main| ==> 0 <= main[k] < |original.nodes|
    requires forall k, j :: 0 <= k < j < |main| ==> main[k] != main[j]
    requires original != filtered
    modifies filtered
    ensures filtered.Valid() && filtered.edges == [] && |filtered.nodes| == |main|
    ensures forall k :: 0 <= k < |main| ==>
              filtered.nodes[k] == Node(k, original.nodes[main[k]].lat, original.nodes[main[k]].lon, [])
    ensures Renumbers(index, main)
  {
    index := map[];
    for k := 0 to |main|
      invariant filtered.Valid() && filtered.edges == [] && |filtered.nodes| == k
      invariant forall i :: 0 <= i < k ==>
                  filtered.nodes[i] == Node(i, original.nodes[main[i]].lat, original.nodes[main[i]].lon, [])
      invariant forall x :: x in index <==> x in main[..k]
      invariant forall i :: 0 <= i < k ==> main[i] in index && index[main[i]] == i
    {
      assert main[..k + 1] == main[..k] + [main[k]];
      index := index[main[k] := k];
      filtered.AddNode(k, original.NodeLat(main[k]), original.NodeLon(main[k]));
    }
    assert main[..|main|] == main;
  }

  /**
   * Considers the `j`-th edge leaving node `k` of the component, `adj[j]`, which goes to
   * `oldTo` with weight `eta`: it is kept when its target is in the component.
   */
  method KeepIfInside(original: Graph, index: map<int, nat>, mainNodes: set<int>, k: nat, oldTo: int,
                      eta: real, ghost adj: seq<nat>, ghost j: nat, filtered: Graph, ghost origin: seq<nat>)
    returns (ghost origin': seq<nat>)
    requires original.Valid() && filtered.Valid() && original != filtered && mainNodes == index.Keys
    requires forall x :: x in index ==> index[x] < |filtered.nodes|
    requires j < |adj| && forall i, l :: 0 <= i < l < |adj| ==> adj[i] < adj[l]
    requires adj[j] < |original.edges| && original.edges[adj[j]].from in index
    requires index[original.edges[adj[j]].from] == k
    requires original.edges[adj[j]].to == oldTo && original.edges[adj[j]].weight == eta
    requires KeptPart(original.edges, index, filtered.edges, origin, k, adj[..j])
    modifies filtered
    ensures filtered.Valid() && Places(filtered.nodes) == Places(old(filtered.nodes))
    ensures KeptPart(original.edges, index, filtered.edges, origin', k, adj[..j + 1])
  {
    ghost var e := adj[j];
    assert e !in adj[..j];
    assert adj[..j + 1] == adj[..j] + [e];
    origin' := origin;
    if oldTo in mainNodes {
      KeepOne(original.edges, index, filtered.edges, origin, k, adj[..j], e);
      filtered.AddEdge(|filtered.edges|, k, index[oldTo], eta);
      origin' := origin + [e];
    } else {
      SkipOne(original.edges, index, filtered.edges, origin, k, adj[..j], e);
    }
  }

  /** Adds the edges leaving `main[k]` whose target lies in the component, numbering them on. */
  method AddNodeEdges(original: Graph, main: seq<int>, mainNodes: set<int>, index: map<int, nat>, k: nat,
                      filtered: Graph, ghost origin: seq<nat>)
    returns (ghost origin': seq<nat>)
    requires original.Valid() && filtered.Valid() && original != filtered
    requires forall i :: 0 <= i < |main| ==> 0 <= main[i] < |original.nodes|
    requires Renumbers(index, main) && mainNodes == index.Keys && k < |main| && |filtered.nodes| == |main|
    requires forall x :: x in index ==> index[x] < |main|
    requires KeptPart(original.edges, index, filtered.edges, origin, k, [])
    modifies filtered
    ensures filtered.Valid() && Places(filtered.nodes) == Places(old(filtered.nodes))
    ensures KeptPart(original.edges, index, filtered.edges, origin', k + 1, [])
  {
    var from := main[k];
    var nbrs := original.Neighbors(from);
    ghost var adj := original.nodes[from].adj;
    OutFromAscending(original.edges, from, |original.edges|);
    origin' := origin;
    for j := 0 to |nbrs|
      invariant filtered.Valid() && Places(filtered.nodes) == Places(old(filtered.nodes))
      invariant KeptPart(original.edges, index, filtered.edges, origin', k, adj[..j])
    {
      var (oldTo, eta) := nbrs[j];
      origin' := KeepIfInside(original, index, mainNodes, k, oldTo, eta, adj, j, filtered, origin');
    }
    assert adj[..|nbrs|] == adj;
    NodeDone(original.edges, index, filtered.edges, origin', k, from, adj);
  }

  /** The positions in `main` and the numbers in `index` are inverse to each other. */
  lemma RenumbersInverse(index: map<int, nat>, main: seq<int>)
    requires Renumbers(index, main)
    ensures forall x :: x in index ==> index[x] < |main| && main[index[x]] == x
  {
    forall x | x in index
      ensures index[x] < |main| && main[index[x]] == x
    {
      var k :| 0 <= k < |main| && main[k] == x;
    }
  }

  /** Once every node of the component has been considered, the kept edges are all of them. */
  lemma KeptAll(edges: seq<Edge>, main: seq<int>, index: map<int, nat>, fedges: seq<Edge>, origin: seq<nat>)
    requires Renumbers(index, main)
    requires KeptPart(edges, index, fedges, origin, |main|, [])
    ensures KeptEdges(edges, main, index, fedges, origin)
  {
    RenumbersInverse(index, main);
  }

  /** Adds, node by node in component order, the edges whose both ends lie in the component. */
  method AddInternalEdges(original: Graph, main: seq<int>, index: map<int, nat>, filtered: Graph)
    returns (ghost origin: seq<nat>)
    requires original.Valid() && filtered.Valid() && original != filtered
    requires forall i :: 0 <= i < |main| ==> 0 <= main[i] < |original.nodes|
    requires Renumbers(index, main) && |filtered.nodes| == |main| && filtered.edges == []
    modifies filtered
    ensures filtered.Valid() && Places(filtered.nodes) == Places(old(filtered.nodes))
    ensures KeptEdges(original.edges, main, index, filtered.edges, origin)
  {
    var mainNodes := set x | x in main;
    assert mainNodes == index.Keys by {
      forall x ensures x in mainNodes <==> x in index.Keys {
        assert x in index <==> x in main;
      }
    }
    origin := [];
    assert KeptPart(original.edges, index, filtered.edges, origin, 0, []);
    for k := 0 to |main|
      invariant filtered.Valid() && Places(filtered.nodes) == Places(old(filtered.nodes))
      invariant |filtered.nodes| == |main|
      invariant KeptPart(original.edges, index, filtered.edges, origin, k, [])
    {
      origin := AddNodeEdges(original, main, mainNodes, index, k, filtered, origin);
    }
    KeptAll(original.edges, main, index, filtered.edges, origin);
  }

  /** Node k of `fnodes` has number k and the place of node `main[k]` of `nodes`. */
  ghost predicate PlacedFrom(fnodes: seq<Node>, nodes: seq<Node>, main: seq<int>)
  {
    && |fnodes| == |main|
    && forall k :: 0 <= k < |main| ==>
         && 0 <= main[k] < |nodes|
         && fnodes[k].id == k && fnodes[k].lat == nodes[main[k]].lat && fnodes[k].lon == nodes[main[k]].lon
  }

  /** The graph of the component `main`: its nodes renumbered in order, then its internal edges. */
  method Restrict(original: Graph, main: seq<int>) returns (filtered: Graph, index: map<int, nat>,
                                                            ghost origin: seq<nat>)
    requires original.Valid()
    requires forall k :: 0 <= k < |main| ==> 0 <= main[k] < |original.nodes|
    requires forall k, j :: 0 <= k < j < |main| ==> main[k] != main[j]
    ensures fresh(filtered) && filtered.Valid()
    ensures PlacedFrom(filtered.nodes, original.nodes, main)
    ensures Renumbers(index, main) && KeptEdges(original.edges, main, index, filtered.edges, origin)
  {
    filtered := new Graph();
    index := AddRenumberedNodes(original, main, filtered);
    ghost var placed := Places(filtered.nodes);
    assert PlacedFrom(filtered.nodes, original.nodes, main);
    origin := AddInternalEdges(original, main, index, filtered);
    forall k | 0 <= k < |main|
      ensures filtered.nodes[k].id == k && filtered.nodes[k].lat == original.nodes[main[k]].lat
      ensures filtered.nodes[k].lon == original.nodes[main[k]].lon
    {
      assert Places(filtered.nodes)[k] == placed[k];
    }
  }

  /**
   * `fnodes` and `fedges` are the graph `nodes`, `edges` restricted to its first largest
   * component: `comps` are the components in the order the search finds them, `owner` names
   * each node's component, `mainIdx` is the one kept (-1 for a graph with no nodes, which
   * gives the empty graph), `index` renumbers its nodes and `origin` traces each kept edge.
   */
  ghost predicate KeepsLargest(nodes: seq<Node>, edges: seq<Edge>, fnodes: seq<Node>, fedges: seq<Edge>,
                               comps: seq<seq<int>>, owner: seq<int>, mainIdx: int,
                               index: map<int, nat>, origin: seq<nat>)
  {
    && Partition(comps, owner, |nodes|) && Downstream(edges, owner)
    && SeedsReach(edges, comps, owner) && InSearchOrder(nodes, edges, comps, owner)
    && (forall c :: 0 <= c < |comps| ==> comps[c] != [])
    && (forall c, d :: 0 <= c < d < |comps| ==> comps[c][0] < comps[d][0])
    && (forall c, v :: 0 <= c < |comps| && 0 <= v < comps[c][0] ==> owner[v] < c)
    && FirstLargest(comps, mainIdx)
    && (mainIdx == -1 <==> |nodes| == 0)
    && (mainIdx == -1 ==> fnodes == [] && fedges == [])
    && (mainIdx >= 0 ==>
          && PlacedFrom(fnodes, nodes, comps[mainIdx])
          && Renumbers(index, comps[mainIdx])
          && KeptEdges(edges, comps[mainIdx], index, fedges, origin))
  }

  /**
   * The graph restricted to its first largest component. The components, the owner of each
   * node, the index of the kept component and the renumbering are returned alongside as a
   * record of the computation.
   */
  method FilterLargestComponent(original: Graph)
    returns (filtered: Graph, ghost comps: seq<seq<int>>, ghost owner: seq<int>, ghost mainIdx: int,
             ghost index: map<int, nat>, ghost origin: seq<nat>)
    requires original.Valid()
    ensures fresh(filtered) && filtered.Valid()
    ensures KeepsLargest(original.nodes, original.edges, filtered.nodes, filtered.edges,
                         comps, owner, mainIdx, index, origin)
  {
    var components;
    components, owner := FindComponents(original);
    var main := Largest(components);
    comps, mainIdx := components, main;
    assert |original.nodes| > 0 ==> comps[owner[0]] != [];
    if main == -1 {
      filtered := new Graph();
      index, origin := map[], [];
      return;
    }
    var oldToNew;
    filtered, oldToNew, origin := Restrict(original, components[main]);
    index := oldToNew;
  }
}
