/**
 * A* search over the routing graph. Costs from the start are kept per node, with infinity
 * for a node not reached yet; the open list holds entries ordered by cost plus heuristic;
 * a node is closed the first time it is taken from the open list, and a closed node is
 * neither expanded again nor relaxed. The path is read back through the parent of each node.
 */
module AStar {
  import opened Graphs

  /** A cost from the start: infinite until a node is reached. */
  datatype Cost = Inf | Fin(value: real)

  /** An entry of the open list: a node, its cost from the start, that cost plus the heuristic, and its parent. */
  datatype Entry = Entry(index: int, gCost: real, fCost: real, parent: int)

  /** The nodes of the path from start to goal, and its cost; no path and infinite cost when the goal is unreachable. */
  datatype SearchResult = SearchResult(path: seq<int>, totalCost: Cost)

  /** Whether a finite cost `t` is below the cost `c`. */
  predicate Improves(t: real, c: Cost)
  {
    c.Inf? || t < c.value
  }

  /** Costs `g'` are costs `g` of which some have been lowered, none raised. */
  ghost predicate Lowered(g: seq<Cost>, g': seq<Cost>)
  {
    var ok :=
      && |g'| == |g|
      && forall v :: 0 <= v < |g| ==> g'[v] == g[v] || (g'[v].Fin? && Improves(g'[v].value, g[v]));
    ok
  }

  /** Every node closed in `closed` stays closed in `closed'`, with the same cost and parent. */
  ghost predicate ClosedKept(closed: seq<bool>, g: seq<Cost>, parent: seq<int>,
                             closed': seq<bool>, g': seq<Cost>, parent': seq<int>)
  {
    var ok :=
      && |closed| == |g| == |parent| && |closed'| == |g'| == |parent'| == |g|
      && forall v :: 0 <= v < |g| && closed[v] ==> closed'[v] && g'[v] == g[v] && parent'[v] == parent[v];
    ok
  }

  /** Lowering costs twice lowers them. */
  lemma LoweredTrans(g0: seq<Cost>, g1: seq<Cost>, g2: seq<Cost>)
    requires Lowered(g0, g1) && Lowered(g1, g2)
    ensures Lowered(g0, g2)
  {
  }

  /** Nodes kept closed, with their costs and parents, across two stretches are kept across both. */
  lemma KeptTrans(c0: seq<bool>, g0: seq<Cost>, p0: seq<int>, c1: seq<bool>, g1: seq<Cost>, p1: seq<int>,
                  c2: seq<bool>, g2: seq<Cost>, p2: seq<int>)
    requires ClosedKept(c0, g0, p0, c1, g1, p1) && ClosedKept(c1, g1, p1, c2, g2, p2)
    ensures ClosedKept(c0, g0, p0, c2, g2, p2)
  {
  }

  /** Closing one more node keeps every node closed before. */
  lemma KeptClosing(c0: seq<bool>, g0: seq<Cost>, p0: seq<int>, c1: seq<bool>, g1: seq<Cost>, p1: seq<int>, v: int)
    requires ClosedKept(c0, g0, p0, c1, g1, p1) && 0 <= v < |c1|
    ensures ClosedKept(c0, g0, p0, c1[v := true], g1, p1)
  {
  }

  /** The nodes named by the entries of the open list, in list order. */
  function Queued(open: seq<Entry>): (r: seq<int>)
    ensures |r| == |open| && forall j :: 0 <= j < |open| ==> r[j] == open[j].index
  {
    seq(|open|, j requires 0 <= j < |open| => open[j].index)
  }

  /**
   * The entry the open list yields next: one of least `fCost`, and of those the one queued
   * first.
   */
  function MinIndex(open: seq<Entry>): (m: nat)
    requires open != []
    ensures m < |open|
    ensures forall j :: 0 <= j < |open| ==> open[m].fCost <= open[j].fCost
    ensures forall j :: 0 <= j < m ==> open[m].fCost < open[j].fCost
  {
    if |open| == 1 then 0
    else
      var m := MinIndex(open[..|open| - 1]);
      if open[|open| - 1].fCost < open[m].fCost then |open| - 1 else m
  }

  /** How many entries are true. */
  function CountTrue(s: seq<bool>): (r: nat)
    ensures r <= |s|
  {
    if s == [] then 0 else CountTrue(s[..|s| - 1]) + (if s[|s| - 1] then 1 else 0)
  }

  /** No entry of an all-false list is true. */
  lemma {:induction false} CountNone(n: nat)
    ensures CountTrue(seq(n, _ => false)) == 0
  {
    if n > 0 {
      assert seq(n, _ => false)[..n - 1] == seq(n - 1, _ => false);
      CountNone(n - 1);
    }
  }

  /** Setting one false entry to true adds one to the count. */
  lemma {:induction false} CountSetTrue(s: seq<bool>, v: nat)
    requires v < |s| && !s[v]
    ensures CountTrue(s[v := true]) == CountTrue(s) + 1
  {
    var t := s[v := true];
    if v < |s| - 1 {
      assert t[..|s| - 1] == s[..|s| - 1][v := true];
      CountSetTrue(s[..|s| - 1], v);
    } else {
      assert t[..|s| - 1] == s[..|s| - 1];
    }
  }

  /** The reverse of a list. */
  function Reverse(s: seq<int>): (r: seq<int>)
    ensures |r| == |s| && forall i :: 0 <= i < |s| ==> r[i] == s[|s| - 1 - i]
  {
    if s == [] then [] else [s[|s| - 1]] + Reverse(s[..|s| - 1])
  }

  // ---------------------------------------------------------------------------------------
  // Walks

  /** The summed weight of the edges at positions `hops`. */
  function PathCost(edges: seq<Edge>, hops: seq<nat>): real
    requires forall i :: 0 <= i < |hops| ==> hops[i] < |edges|
  {
    if hops == [] then 0.0 else edges[hops[0]].weight + PathCost(edges, hops[1..])
  }

  /** No edge leaves `reached`. */
  ghost predicate ClosedUnder(edges: seq<Edge>, reached: set<int>)
  {
    forall e :: 0 <= e < |edges| && edges[e].from in reached ==> edges[e].to in reached
  }

  /** A walk that starts inside a set no edge leaves stays inside it. */
  lemma {:induction false} WalkStaysInside(edges: seq<Edge>, reached: set<int>, path: seq<int>, hops: seq<nat>)
    requires Walk(edges, path, hops) && ClosedUnder(edges, reached) && path[0] in reached
    ensures forall i :: 0 <= i < |path| ==> path[i] in reached
  {
    if hops != [] {
      var n := |hops| - 1;
      assert Walk(edges, path[..n + 1], hops[..n]);
      WalkStaysInside(edges, reached, path[..n + 1], hops[..n]);
      assert path[..n + 1][n] == path[n];
      assert edges[hops[n]].from == path[n];
    }
  }

  /** So when the search reports infinite cost, no walk leads from the start to the goal. */
  lemma NoWalk(edges: seq<Edge>, reached: set<int>, start: int, goal: int, path: seq<int>, hops: seq<nat>)
    requires ClosedUnder(edges, reached) && start in reached && goal !in reached
    requires Walk(edges, path, hops) && path[0] == start
    ensures Last(path) != goal
  {
    WalkStaysInside(edges, reached, path, hops);
  }

  // ---------------------------------------------------------------------------------------
  // The search

  /**
   * The costs and parents found so far. `g`, `parent` and `closed` are the search's own
   * arrays; `via` names the edge through which each parent was reached, `rank` the order in
   * which nodes were closed and `count` how many are; `cur` is the node being expanded, or -1.
   *  - the start has cost 0 and no parent; before it is closed no node is closed, none has a
   *    parent and none is being expanded;
   *  - a closed node has a finite cost and a rank below `count`;
   *  - a node with a parent was reached from that closed node along edge `via`, at the
   *    parent's cost plus that edge's weight, and if closed was closed after its parent;
   *  - a node of finite cost other than the start has a parent.
   */
  ghost predicate Tree(nodes: seq<Node>, edges: seq<Edge>, start: int, g: seq<Cost>, parent: seq<int>,
                       via: seq<nat>, closed: seq<bool>, rank: seq<nat>, count: nat, cur: int)
  {
    var ok :=
      && |g| == |nodes| && |parent| == |nodes| && |via| == |nodes| && |closed| == |nodes| && |rank| == |nodes|
      && 0 <= start < |nodes| && g[start] == Fin(0.0) && parent[start] == -1
      && (!closed[start] ==>
            && count == 0 && cur == -1
            && forall v :: 0 <= v < |nodes| ==> !closed[v] && parent[v] == -1)
      && (forall v :: 0 <= v < |nodes| && closed[v] ==> g[v].Fin? && rank[v] < count)
      && (forall v :: 0 <= v < |nodes| && parent[v] != -1 ==>
            && 0 <= parent[v] < |nodes| && closed[parent[v]]
            && via[v] < |edges| && edges[via[v]].from == parent[v] && edges[via[v]].to == v
            && g[v].Fin? && g[parent[v]].Fin?
            && g[v].value == g[parent[v]].value + edges[via[v]].weight
            && (closed[v] ==> rank[parent[v]] < rank[v]))
      && (forall v :: 0 <= v < |nodes| && g[v].Fin? && v != start ==> parent[v] != -1);
    ok
  }

  /**
   * The open list: before the start is closed it holds only entries for the start; every
   * entry names a node of finite cost, and every node of finite cost not yet closed has one.
   */
  ghost predicate Frontier(nodes: seq<Node>, start: int, g: seq<Cost>, closed: seq<bool>, open: seq<Entry>)
  {
    var ok :=
      && |g| == |nodes| && |closed| == |nodes| && 0 <= start < |nodes|
      && (!closed[start] ==> forall j :: 0 <= j < |open| ==> open[j].index == start)
      && (forall j :: 0 <= j < |open| ==> 0 <= open[j].index < |nodes| && g[open[j].index].Fin?)
      && (forall v :: 0 <= v < |nodes| && g[v].Fin? && !closed[v] ==> v in Queued(open));
    ok
  }

  /**
   * Every edge leaving a closed node other than the goal and `cur` leads to a node of finite
   * cost, and so do the first `k` edges of `cur` when it is not -1.
   */
  ghost predicate Explored(nodes: seq<Node>, edges: seq<Edge>, goal: int, g: seq<Cost>, closed: seq<bool>,
                           cur: int, k: nat)
  {
    var ok :=
      && |g| == |nodes| && |closed| == |nodes| && 0 <= goal < |nodes|
      && (forall u, e :: 0 <= u < |nodes| && closed[u] && u != goal && u != cur && 0 <= e < |edges| && edges[e].from == u ==>
            0 <= edges[e].to < |nodes| && g[edges[e].to].Fin?)
      && (cur != -1 ==>
            && 0 <= cur < |nodes| && closed[cur] && cur != goal && k <= |nodes[cur].adj|
            && forall j :: 0 <= j < k ==>
                 nodes[cur].adj[j] < |edges| && 0 <= edges[nodes[cur].adj[j]].to < |nodes|
                 && g[edges[nodes[cur].adj[j]].to].Fin?);
    ok
  }

  /** The state of the search from `start` to `goal` over `nodes` and `edges`. */
  ghost predicate Search(nodes: seq<Node>, edges: seq<Edge>, start: int, goal: int, g: seq<Cost>,
                         parent: seq<int>, via: seq<nat>, closed: seq<bool>, rank: seq<nat>, count: nat,
                         open: seq<Entry>, cur: int, k: nat)
  {
    && Tree(nodes, edges, start, g, parent, via, closed, rank, count, cur)
    && Frontier(nodes, start, g, closed, open)
    && Explored(nodes, edges, goal, g, closed, cur, k)
  }

  /** Taking an entry off the open list keeps every other queued node queued. */
  lemma Unqueue(open: seq<Entry>, m: nat, w: int)
    requires m < |open| && w in Queued(open) && w != open[m].index
    ensures w in Queued(open[..m] + open[m + 1..])
  {
    var j :| 0 <= j < |open| && Queued(open)[j] == w;
    if j < m {
      assert (open[..m] + open[m + 1..])[j] == open[j];
    } else {
      assert (open[..m] + open[m + 1..])[j - 1] == open[j];
    }
  }

  /**
   * Taking entry `m` off the open list, when its node is closed now (it was already, or is
   * being closed), keeps the open list's invariant.
   */
  lemma Unlisted(nodes: seq<Node>, start: int, g: seq<Cost>, closed: seq<bool>, closed': seq<bool>,
                 open: seq<Entry>, m: nat)
    requires Frontier(nodes, start, g, closed, open) && m < |open|
    requires |closed'| == |closed| && closed'[open[m].index] && closed'[start]
    requires forall v :: 0 <= v < |closed| && closed[v] ==> closed'[v]
    ensures Frontier(nodes, start, g, closed', open[..m] + open[m + 1..])
  {
    var rest := open[..m] + open[m + 1..];
    forall w | 0 <= w < |nodes| && g[w].Fin? && !closed'[w]
      ensures w in Queued(rest)
    {
      Unqueue(open, m, w);
    }
    forall j | 0 <= j < |rest|
      ensures 0 <= rest[j].index < |nodes| && g[rest[j].index].Fin?
    {
      if j < m {
        assert rest[j] == open[j];
      } else {
        assert rest[j] == open[j + 1];
      }
    }
  }

  /** An entry for a node already closed is dropped. */
  lemma PopClosed(nodes: seq<Node>, edges: seq<Edge>, start: int, goal: int, g: seq<Cost>, parent: seq<int>,
                  via: seq<nat>, closed: seq<bool>, rank: seq<nat>, count: nat, open: seq<Entry>, m: nat)
    requires Search(nodes, edges, start, goal, g, parent, via, closed, rank, count, open, -1, 0)
    requires m < |open| && closed[open[m].index]
    ensures Search(nodes, edges, start, goal, g, parent, via, closed, rank, count, open[..m] + open[m + 1..], -1, 0)
  {
    assert closed[start];
    Unlisted(nodes, start, g, closed, closed, open, m);
  }

  /** Closing node `v`, taken off the open list with a finite cost, gives it the next rank. */
  lemma CloseTree(nodes: seq<Node>, edges: seq<Edge>, start: int, g: seq<Cost>, parent: seq<int>, via: seq<nat>,
                  closed: seq<bool>, rank: seq<nat>, count: nat, v: int, cur: int)
    requires Tree(nodes, edges, start, g, parent, via, closed, rank, count, -1)
    requires 0 <= v < |nodes| && !closed[v] && g[v].Fin? && (!closed[start] ==> v == start)
    ensures Tree(nodes, edges, start, g, parent, via, closed[v := true], rank[v := count], count + 1, cur)
  {
    forall w | 0 <= w < |nodes| && parent[w] != -1 && closed[v := true][w]
      ensures rank[v := count][parent[w]] < rank[v := count][w]
    {
      if w == v {
        assert closed[parent[w]] && parent[w] != v;
      }
    }
  }

  /** Closing node `v` starts its expansion, unless it is the goal. */
  lemma CloseExplored(nodes: seq<Node>, edges: seq<Edge>, goal: int, g: seq<Cost>, closed: seq<bool>, v: int)
    requires Explored(nodes, edges, goal, g, closed, -1, 0) && 0 <= v < |nodes|
    ensures Explored(nodes, edges, goal, g, closed[v := true], if v == goal then -1 else v, 0)
  {
  }

  /**
   * The entry of a node not yet closed closes it, with the next rank; unless it is the goal,
   * its expansion begins.
   */
  lemma PopOpen(nodes: seq<Node>, edges: seq<Edge>, start: int, goal: int, g: seq<Cost>, parent: seq<int>,
                via: seq<nat>, closed: seq<bool>, rank: seq<nat>, count: nat, open: seq<Entry>, m: nat)
    requires Search(nodes, edges, start, goal, g, parent, via, closed, rank, count, open, -1, 0)
    requires m < |open| && !closed[open[m].index]
    ensures var v := open[m].index;
      Search(nodes, edges, start, goal, g, parent, via, closed[v := true], rank[v := count], count + 1,
             open[..m] + open[m + 1..], if v == goal then -1 else v, 0)
  {
    var v := open[m].index;
    assert 0 <= v < |nodes| && g[v].Fin? && (!closed[start] ==> v == start);
    CloseTree(nodes, edges, start, g, parent, via, closed, rank, count, v, if v == goal then -1 else v);
    Unlisted(nodes, start, g, closed, closed[v := true], open, m);
    CloseExplored(nodes, edges, goal, g, closed, v);
  }

  /**
   * Considers the `k`-th edge leaving `cur`: a closed target is passed over; otherwise, if
   * going through `cur` is cheaper than the target's cost so far, the target takes that cost
   * and `cur` as parent and is queued again.
   */
  method RelaxEdge(nodes: seq<Node>, edges: seq<Edge>, start: int, goal: int, h: (Node, Node) -> real,
                   cur: int, k: nat, g: seq<Cost>, parent: seq<int>, ghost via: seq<nat>, closed: seq<bool>,
                   ghost rank: seq<nat>, ghost count: nat, open: seq<Entry>)
    returns (g': seq<Cost>, parent': seq<int>, ghost via': seq<nat>, open': seq<Entry>)
    requires WellFormed(nodes, edges) && cur != -1
    requires Search(nodes, edges, start, goal, g, parent, via, closed, rank, count, open, cur, k)
    requires k < |nodes[cur].adj|
    ensures Search(nodes, edges, start, goal, g', parent', via', closed, rank, count, open', cur, k + 1)
    ensures var e := nodes[cur].adj[k];
            closed[edges[e].to] || !Improves(g[cur].value + edges[e].weight, g[edges[e].to]) ==>
              g' == g && parent' == parent && open' == open
    ensures var e := nodes[cur].adj[k];
            var nb, t := edges[e].to, g[cur].value + edges[e].weight;
            !closed[nb] && Improves(t, g[nb]) ==>
              && g' == g[nb := Fin(t)] && parent' == parent[nb := cur]
              && |open'| == |open| + 1 && (forall j :: 0 <= j < |open| ==> open'[j] == open[j])
              && open'[|open|].index == nb && open'[|open|].gCost == t && open'[|open|].parent == cur
              && open'[|open|].fCost == t + h(nodes[nb], nodes[goal])
  {
    g', parent', via', open' := g, parent, via, open;
    assert 0 <= cur < |nodes| && closed[cur] && g[cur].Fin?;
    var e := nodes[cur].adj[k];
    assert e in nodes[cur].adj;
    var neighbor := edges[e].to;
    var tentative := g[cur].value + edges[e].weight;
    if closed[neighbor] {
      Passed(nodes, edges, goal, g, closed, cur, k);
    } else if Improves(tentative, g[neighbor]) {
      g' := g[neighbor := Fin(tentative)];
      parent' := parent[neighbor := cur];
      via' := via[neighbor := e];
      var f := tentative + h(nodes[neighbor], nodes[goal]);
      open' := open + [Entry(neighbor, tentative, f, cur)];
      RelaxTree(nodes, edges, start, g, parent, via, closed, rank, count, cur, e, tentative);
      RelaxFrontier(nodes, start, g, closed, open, neighbor, Entry(neighbor, tentative, f, cur));
      RelaxExplored(nodes, edges, goal, g, closed, cur, k, tentative);
    } else {
      Passed(nodes, edges, goal, g, closed, cur, k);
    }
  }

  /** An edge to a node of finite cost that is left as it is counts as considered. */
  lemma Passed(nodes: seq<Node>, edges: seq<Edge>, goal: int, g: seq<Cost>, closed: seq<bool>, cur: int, k: nat)
    requires Explored(nodes, edges, goal, g, closed, cur, k) && cur != -1 && k < |nodes[cur].adj|
    requires nodes[cur].adj[k] < |edges| && 0 <= edges[nodes[cur].adj[k]].to < |nodes|
    requires g[edges[nodes[cur].adj[k]].to].Fin?
    ensures Explored(nodes, edges, goal, g, closed, cur, k + 1)
  {
  }

  /** Reaching the open node `edges[e].to` from the closed node `cur` gives it `cur` as parent. */
  lemma RelaxTree(nodes: seq<Node>, edges: seq<Edge>, start: int, g: seq<Cost>, parent: seq<int>, via: seq<nat>,
                  closed: seq<bool>, rank: seq<nat>, count: nat, cur: int, e: nat, tentative: real)
    requires Tree(nodes, edges, start, g, parent, via, closed, rank, count, cur)
    requires 0 <= cur < |nodes| && closed[cur] && e < |edges| && edges[e].from == cur
    requires 0 <= edges[e].to < |nodes| && !closed[edges[e].to]
    requires g[cur].Fin? && tentative == g[cur].value + edges[e].weight
    ensures var v := edges[e].to;
      Tree(nodes, edges, start, g[v := Fin(tentative)], parent[v := cur], via[v := e], closed, rank, count, cur)
  {
  }

  /** Queueing node `v` at a finite cost keeps the open list's invariant. */
  lemma RelaxFrontier(nodes: seq<Node>, start: int, g: seq<Cost>, closed: seq<bool>, open: seq<Entry>, v: int,
                      entry: Entry)
    requires Frontier(nodes, start, g, closed, open) && closed[start]
    requires 0 <= v < |nodes| && entry.index == v
    ensures forall t :: Frontier(nodes, start, g[v := Fin(t)], closed, open + [entry])
  {
    assert Queued(open + [entry]) == Queued(open) + [v];
  }

  /** Lowering the cost of the target of edge `k` of `cur` counts it as considered. */
  lemma RelaxExplored(nodes: seq<Node>, edges: seq<Edge>, goal: int, g: seq<Cost>, closed: seq<bool>, cur: int,
                      k: nat, tentative: real)
    requires Explored(nodes, edges, goal, g, closed, cur, k) && cur != -1 && k < |nodes[cur].adj|
    requires nodes[cur].adj[k] < |edges| && 0 <= edges[nodes[cur].adj[k]].to < |nodes|
    ensures Explored(nodes, edges, goal, g[edges[nodes[cur].adj[k]].to := Fin(tentative)], closed, cur, k + 1)
  {
  }

  /** Once every edge of `cur` has been considered, `cur` counts as expanded. */
  lemma Expanded(nodes: seq<Node>, edges: seq<Edge>, start: int, goal: int, g: seq<Cost>, parent: seq<int>,
                 via: seq<nat>, closed: seq<bool>, rank: seq<nat>, count: nat, open: seq<Entry>, cur: int)
    requires WellFormed(nodes, edges) && 0 <= cur < |nodes|
    requires Search(nodes, edges, start, goal, g, parent, via, closed, rank, count, open, cur, |nodes[cur].adj|)
    ensures Search(nodes, edges, start, goal, g, parent, via, closed, rank, count, open, -1, 0)
  {
    OutFromExact(edges, cur, |edges|);
    forall e | 0 <= e < |edges| && edges[e].from == cur
      ensures 0 <= edges[e].to < |nodes| && g[edges[e].to].Fin?
    {
      assert e in nodes[cur].adj;
      var j :| 0 <= j < |nodes[cur].adj| && nodes[cur].adj[j] == e;
    }
  }

  /** Expands `cur`: considers every edge leaving it, in list order. */
  method Expand(nodes: seq<Node>, edges: seq<Edge>, start: int, goal: int, h: (Node, Node) -> real,
                cur: int, g: seq<Cost>, parent: seq<int>, ghost via: seq<nat>, closed: seq<bool>,
                ghost rank: seq<nat>, ghost count: nat, open: seq<Entry>)
    returns (g': seq<Cost>, parent': seq<int>, ghost via': seq<nat>, open': seq<Entry>)
    requires WellFormed(nodes, edges) && cur != -1
    requires Search(nodes, edges, start, goal, g, parent, via, closed, rank, count, open, cur, 0)
    ensures Search(nodes, edges, start, goal, g', parent', via', closed, rank, count, open', -1, 0)
    ensures Lowered(g, g') && ClosedKept(closed, g, parent, closed, g', parent')
  {
    g', parent', via', open' := g, parent, via, open;
    assert 0 <= cur < |nodes|;
    for k := 0 to |nodes[cur].adj|
      invariant Search(nodes, edges, start, goal, g', parent', via', closed, rank, count, open', cur, k)
      invariant Lowered(g, g') && ClosedKept(closed, g, parent, closed, g', parent')
    {
      g', parent', via', open' := RelaxEdge(nodes, edges, start, goal, h, cur, k, g', parent', via', closed,
                                            rank, count, open');
    }
    Expanded(nodes, edges, start, goal, g', parent', via', closed, rank, count, open', cur);
  }

  /**
   * `path` is a walk along `hops` that ends at the goal, and the goal's cost is the cost of
   * the first node of `path` plus the weights of those edges.
   */
  ghost predicate Traced(edges: seq<Edge>, g: seq<Cost>, goal: int, path: seq<int>, hops: seq<nat>)
  {
    && Walk(edges, path, hops) && path != [] && Last(path) == goal
    && 0 <= goal < |g| && 0 <= path[0] < |g| && g[goal].Fin? && g[path[0]].Fin?
    && g[goal].value == g[path[0]].value + PathCost(edges, hops)
  }

  /** Putting the parent of the first node in front extends the traced walk by one edge. */
  lemma TraceStep(nodes: seq<Node>, edges: seq<Edge>, start: int, g: seq<Cost>, parent: seq<int>, via: seq<nat>,
                  closed: seq<bool>, rank: seq<nat>, count: nat, goal: int, path: seq<int>, hops: seq<nat>)
    requires Tree(nodes, edges, start, g, parent, via, closed, rank, count, -1)
    requires Traced(edges, g, goal, path, hops) && closed[path[0]] && parent[path[0]] != -1
    ensures var u := parent[path[0]];
      && 0 <= u < |nodes| && closed[u] && rank[u] < rank[path[0]]
      && Traced(edges, g, goal, [u] + path, [via[path[0]]] + hops)
  {
    var hops' := [via[path[0]]] + hops;
    assert hops'[1..] == hops;
  }

  /** A traced walk whose first node has no parent starts at the start, so it costs the goal's cost. */
  lemma TraceEnd(nodes: seq<Node>, edges: seq<Edge>, start: int, g: seq<Cost>, parent: seq<int>, via: seq<nat>,
                 closed: seq<bool>, rank: seq<nat>, count: nat, goal: int, path: seq<int>, hops: seq<nat>)
    requires Tree(nodes, edges, start, g, parent, via, closed, rank, count, -1)
    requires Traced(edges, g, goal, path, hops) && parent[path[0]] == -1
    ensures path[0] == start && g[goal] == Fin(PathCost(edges, hops))
  {
  }

  /** The goal, when closed, starts a traced walk of its own. */
  lemma TraceStart(nodes: seq<Node>, edges: seq<Edge>, start: int, g: seq<Cost>, parent: seq<int>, via: seq<nat>,
                   closed: seq<bool>, rank: seq<nat>, count: nat, goal: int)
    requires Tree(nodes, edges, start, g, parent, via, closed, rank, count, -1)
    requires 0 <= goal < |nodes| && closed[goal]
    ensures Traced(edges, g, goal, [goal], [])
  {
  }

  /**
   * Follows the parents back from the goal, listing the nodes met, then reverses that list:
   * the result is a walk from the start to the goal whose edges add up to the goal's cost.
   */
  method TracePath(ghost nodes: seq<Node>, ghost edges: seq<Edge>, ghost start: int, goal: int, ghost g: seq<Cost>,
                   parent: seq<int>, ghost via: seq<nat>, ghost closed: seq<bool>, ghost rank: seq<nat>,
                   ghost count: nat)
    returns (path: seq<int>, ghost hops: seq<nat>)
    requires Tree(nodes, edges, start, g, parent, via, closed, rank, count, -1)
    requires 0 <= goal < |nodes| && closed[goal]
    ensures path != [] && path[0] == start && Last(path) == goal && Walk(edges, path, hops)
    ensures g[goal] == Fin(PathCost(edges, hops))
  {
    TraceStart(nodes, edges, start, g, parent, via, closed, rank, count, goal);
    var reversed: seq<int> := [goal];
    var curr := parent[goal];
    ghost var walk: seq<int> := [goal];
    hops := [];
    while curr != -1
      invariant walk == Reverse(reversed) && Traced(edges, g, goal, walk, hops)
      invariant 0 <= walk[0] < |closed| == |parent| && closed[walk[0]] && parent[walk[0]] == curr
      invariant curr != -1 ==> 0 <= curr < |rank| && rank[curr] < rank[walk[0]]
      decreases if curr == -1 then 0 else rank[curr] + 1
    {
      TraceStep(nodes, edges, start, g, parent, via, closed, rank, count, goal, walk, hops);
      hops := [via[walk[0]]] + hops;
      assert (reversed + [curr])[..|reversed|] == reversed;
      reversed := reversed + [curr];
      walk := [curr] + walk;
      curr := parent[curr];
    }
    TraceEnd(nodes, edges, start, g, parent, via, closed, rank, count, goal, walk, hops);
    path := Reverse(reversed);
  }

  /**
   * The main loop: takes the entry of least `fCost` off the open list, skips it if its node
   * is closed, otherwise closes that node and, unless it is the goal, expands it; until the
   * goal is closed or the open list runs empty.
   */
  method Explore(nodes: seq<Node>, edges: seq<Edge>, start: int, goal: int, h: (Node, Node) -> real,
                 g: seq<Cost>, parent: seq<int>, closed: seq<bool>, ghost via: seq<nat>, ghost rank: seq<nat>,
                 ghost count: nat, open: seq<Entry>)
    returns (g': seq<Cost>, parent': seq<int>, closed': seq<bool>, ghost via': seq<nat>, ghost rank': seq<nat>,
             ghost count': nat, open': seq<Entry>)
    requires WellFormed(nodes, edges)
    requires Search(nodes, edges, start, goal, g, parent, via, closed, rank, count, open, -1, 0)
    requires |closed| == |nodes| && count == CountTrue(closed)
    ensures Search(nodes, edges, start, goal, g', parent', via', closed', rank', count', open', -1, 0)
    ensures 0 <= goal < |closed'| && (closed'[goal] || open' == [])
    ensures Lowered(g, g') && ClosedKept(closed, g, parent, closed', g', parent')
  {
    g', parent', closed', via', rank', count', open' := g, parent, closed, via, rank, count, open;
    while open' != []
      invariant Search(nodes, edges, start, goal, g', parent', via', closed', rank', count', open', -1, 0)
      invariant |closed'| == |nodes| && count' == CountTrue(closed')
      invariant Lowered(g, g') && ClosedKept(closed, g, parent, closed', g', parent')
      decreases |nodes| - count', |open'|
    {
      var m := MinIndex(open');
      var current := open'[m];
      if closed'[current.index] {
        PopClosed(nodes, edges, start, goal, g', parent', via', closed', rank', count', open', m);
        open' := open'[..m] + open'[m + 1..];
        continue;
      }
      PopOpen(nodes, edges, start, goal, g', parent', via', closed', rank', count', open', m);
      CountSetTrue(closed', current.index);
      KeptClosing(closed, g, parent, closed', g', parent', current.index);
      open' := open'[..m] + open'[m + 1..];
      closed' := closed'[current.index := true];
      rank' := rank'[current.index := count'];
      count' := count' + 1;
      if current.index == goal {
        break;
      }
      ghost var g1, parent1 := g', parent';
      g', parent', via', open' := Expand(nodes, edges, start, goal, h, current.index, g', parent', via', closed',
                                         rank', count', open');
      LoweredTrans(g, g1, g');
      KeptTrans(closed, g, parent, closed', g1, parent1, closed', g', parent');
    }
  }

  /**
   * The cheapest-first search from `startIdx` to `goalIdx`, with `h` standing for the
   * heuristic distance between two nodes. An unreachable goal gives infinite cost and no
   * path, and `reached`, the nodes of finite cost, shows it unreachable: it holds the start,
   * not the goal, and no edge leaves it. Otherwise the path is a walk from the start to the
   * goal along the edges `hops`, and its cost is their summed weight.
   */
  method ShortestPath(graph: Graph, startIdx: int, goalIdx: int, h: (Node, Node) -> real)
    returns (result: SearchResult, ghost hops: seq<nat>, ghost reached: set<int>)
    requires graph.Valid() && 0 <= startIdx < |graph.nodes| && 0 <= goalIdx < |graph.nodes|
    ensures result.totalCost.Inf? <==> result.path == []
    ensures result.totalCost.Inf? ==>
              startIdx in reached && goalIdx !in reached && ClosedUnder(graph.edges, reached)
    ensures result.totalCost.Fin? ==>
              && result.path[0] == startIdx && Last(result.path) == goalIdx
              && Walk(graph.edges, result.path, hops)
              && result.totalCost.value == PathCost(graph.edges, hops)
  {
    var nodes := graph.nodes;
    var edges := graph.edges;
    var n := |nodes|;
    var g := seq(n, _ => Inf);
    var parent := seq(n, _ => -1);
    var closed := seq(n, _ => false);
    ghost var via: seq<nat> := seq(n, _ => 0);
    ghost var rank: seq<nat> := seq(n, _ => 0);
    ghost var count := 0;
    g := g[startIdx := Fin(0.0)];
    var open := [Entry(startIdx, 0.0, h(nodes[startIdx], nodes[goalIdx]), -1)];
    Initial(nodes, edges, startIdx, goalIdx, g, parent, via, closed, rank, open);
    CountNone(n);
    hops, reached := [], {};
    g, parent, closed, via, rank, count, open := Explore(nodes, edges, startIdx, goalIdx, h, g, parent, closed,
                                                         via, rank, count, open);
    Outcome(nodes, edges, startIdx, goalIdx, g, parent, via, closed, rank, count, open);
    if g[goalIdx] == Inf {
      result := SearchResult([], Inf);
      reached := set v | 0 <= v < n && g[v].Fin?;
      Exhausted(nodes, edges, startIdx, goalIdx, g, parent, via, closed, rank, count, reached);
      return;
    }
    var path;
    path, hops := TracePath(nodes, edges, startIdx, goalIdx, g, parent, via, closed, rank, count);
    result := SearchResult(path, g[goalIdx]);
  }

  /** The search starts with only the start reached, at cost 0, and queued. */
  lemma Initial(nodes: seq<Node>, edges: seq<Edge>, start: int, goal: int, g: seq<Cost>, parent: seq<int>,
                via: seq<nat>, closed: seq<bool>, rank: seq<nat>, open: seq<Entry>)
    requires 0 <= start < |nodes| && 0 <= goal < |nodes|
    requires g == seq(|nodes|, _ => Inf)[start := Fin(0.0)] && parent == seq(|nodes|, _ => -1)
    requires via == seq(|nodes|, _ => 0) && closed == seq(|nodes|, _ => false) && rank == seq(|nodes|, _ => 0)
    requires |open| == 1 && open[0].index == start
    ensures Search(nodes, edges, start, goal, g, parent, via, closed, rank, 0, open, -1, 0)
  {
    assert Queued(open) == [start];
  }

  /**
   * When the loop ends the goal is closed or the open list is empty; either way the goal's
   * cost is finite exactly when it is closed.
   */
  lemma Outcome(nodes: seq<Node>, edges: seq<Edge>, start: int, goal: int, g: seq<Cost>, parent: seq<int>,
                via: seq<nat>, closed: seq<bool>, rank: seq<nat>, count: nat, open: seq<Entry>)
    requires Search(nodes, edges, start, goal, g, parent, via, closed, rank, count, open, -1, 0)
    requires 0 <= goal < |closed| && (closed[goal] || open == [])
    ensures |g| == |closed| && (g[goal].Fin? <==> closed[goal])
    ensures g[goal] == Inf ==> open == []
  {
  }

  /** A search that ran out of entries without closing the goal reached a set no edge leaves. */
  lemma Exhausted(nodes: seq<Node>, edges: seq<Edge>, start: int, goal: int, g: seq<Cost>, parent: seq<int>,
                  via: seq<nat>, closed: seq<bool>, rank: seq<nat>, count: nat, reached: set<int>)
    requires Search(nodes, edges, start, goal, g, parent, via, closed, rank, count, [], -1, 0)
    requires WellFormed(nodes, edges) && 0 <= goal < |g| && g[goal] == Inf
    requires forall v :: v in reached <==> 0 <= v < |nodes| && g[v].Fin?
    ensures start in reached && goal !in reached && ClosedUnder(edges, reached)
  {
    forall e | 0 <= e < |edges| && edges[e].from in reached
      ensures edges[e].to in reached
    {
      var u := edges[e].from;
      assert u !in Queued([]);
    }
  }
}
