/**
 * Weighted shortest routes on an undirected graph, the query networkx's `shortest_path` answers
 * when given a source, a target and `weight="weight"`. Edges are keyed by ordered pairs of end
 * points; an undirected graph stores each edge under both orders with one weight.
 */
module ShortestPath {
  import opened Wrappers

  /** Node identifiers, as the graph's string labels. */
  type Node = string

  /** The weighted edge set: end points to weight. */
  type EdgeMap = map<(Node, Node), real>

  /** The exceptions the query raises. */
  datatype RouteError = NodeNotFound | NoPath

  /** An edge leads from `u` to `v`. */
  predicate Adjacent(edges: EdgeMap, u: Node, v: Node)
  {
    (u, v) in edges
  }

  /** Every edge joins nodes of the graph. */
  predicate EdgesWithin(nodes: set<Node>, edges: EdgeMap)
  {
    forall e :: e in edges ==> e.0 in nodes && e.1 in nodes
  }

  /** No edge has a negative weight. */
  predicate NonNegative(edges: EdgeMap)
  {
    forall e :: e in edges ==> edges[e] >= 0.0
  }

  /** Consecutive nodes of `p` are joined by edges. */
  predicate Linked(edges: EdgeMap, p: seq<Node>)
  {
    forall i :: 0 <= i < |p| - 1 ==> Adjacent(edges, p[i], p[i + 1])
  }

  /** `p` is a walk of the graph from `s` to `t` (nodes may repeat). */
  predicate IsRoute(nodes: set<Node>, edges: EdgeMap, p: seq<Node>, s: Node, t: Node)
  {
    |p| >= 1 && p[0] == s && p[|p| - 1] == t &&
    (forall i :: 0 <= i < |p| ==> p[i] in nodes) &&
    Linked(edges, p)
  }

  /** The total weight of the edges along `p`. */
  function RouteWeight(edges: EdgeMap, p: seq<Node>): real
    requires Linked(edges, p)
  {
    if |p| <= 1 then 0.0
    else
      assert Linked(edges, p[..|p| - 1]) by {
        assert forall i :: 0 <= i < |p| - 1 ==> p[..|p| - 1][i] == p[i];
      }
      RouteWeight(edges, p[..|p| - 1]) + edges[(p[|p| - 2], p[|p| - 1])]
  }

  /** Some walk leads from `s` to `t`. */
  ghost predicate Reachable(nodes: set<Node>, edges: EdgeMap, s: Node, t: Node)
  {
    exists q :: IsRoute(nodes, edges, q, s, t)
  }

  /** `p` visits no node twice: its last node does not occur before it, and the rest is simple. */
  predicate Simple(p: seq<Node>)
  {
    |p| <= 1 || (p[|p| - 1] !in p[..|p| - 1] && Simple(p[..|p| - 1]))
  }

  /** No two positions of a simple sequence hold the same node. */
  lemma {:induction false} SimpleNoRepeats(p: seq<Node>)
    requires Simple(p)
    ensures forall i, j :: 0 <= i < j < |p| ==> p[i] != p[j]
    decreases |p|
  {
    if |p| > 1 {
      var prefix := p[..|p| - 1];
      SimpleNoRepeats(prefix);
      forall i, j | 0 <= i < j < |p| ensures p[i] != p[j] {
        assert p[i] == prefix[i];
        if j < |p| - 1 {
          assert p[j] == prefix[j];
        } else {
          assert p[i] in prefix;
        }
      }
    }
  }

  /** `p` is a walk from `s` to `t` no heavier than any other. */
  ghost predicate IsShortestRoute(nodes: set<Node>, edges: EdgeMap, p: seq<Node>, s: Node, t: Node)
  {
    IsRoute(nodes, edges, p, s, t) &&
    forall q :: IsRoute(nodes, edges, q, s, t) ==> RouteWeight(edges, p) <= RouteWeight(edges, q)
  }

  /** Extending a walk by one edge adds that edge's weight. */
  lemma RouteWeightAppend(edges: EdgeMap, p: seq<Node>, v: Node)
    requires |p| >= 1 && Linked(edges, p) && Adjacent(edges, p[|p| - 1], v)
    ensures Linked(edges, p + [v])
    ensures RouteWeight(edges, p + [v]) == RouteWeight(edges, p) + edges[(p[|p| - 1], v)]
  {
    var q := p + [v];
    assert q[..|q| - 1] == p;
  }

  // ---------------------------------------------------------------------------------------
  // Dijkstra's search
  // ---------------------------------------------------------------------------------------

  /** Every tentative distance is the weight of the walk recorded for that node. */
  ghost predicate DistancesAreWalks(nodes: set<Node>, edges: EdgeMap, s: Node,
                                    dist: map<Node, real>, path: map<Node, seq<Node>>)
  {
    dist.Keys == path.Keys && dist.Keys <= nodes &&
    forall v :: v in path ==> RecordedWalk(nodes, edges, s, dist, path[v], v)
  }

  /**
   * `p` is a walk from `s` to `v` weighing `v`'s distance; it visits no node twice, and each node
   * on it has a distance no greater than `v`'s.
   */
  ghost predicate RecordedWalk(nodes: set<Node>, edges: EdgeMap, s: Node, dist: map<Node, real>, p: seq<Node>, v: Node)
    requires v in dist
  {
    IsRoute(nodes, edges, p, s, v) && RouteWeight(edges, p) == dist[v] && Simple(p) && Within(dist, p, dist[v])
  }

  /** Every node of `p` has a distance of at most `d`. */
  ghost predicate Within(dist: map<Node, real>, p: seq<Node>, d: real)
  {
    |p| == 0 || (p[|p| - 1] in dist && dist[p[|p| - 1]] <= d && Within(dist, p[..|p| - 1], d))
  }

  /** A node on a walk within `d` has a distance of at most `d`. */
  lemma {:induction false} WithinMember(dist: map<Node, real>, p: seq<Node>, d: real, x: Node)
    requires Within(dist, p, d) && x in p
    ensures x in dist && dist[x] <= d
    decreases |p|
  {
    var prefix := p[..|p| - 1];
    if x != p[|p| - 1] {
      assert p == prefix + [p[|p| - 1]];
      WithinMember(dist, prefix, d, x);
    }
  }

  /** Lowering distances and raising the bound keeps a walk within it. */
  lemma {:induction false} WithinLowered(dist: map<Node, real>, dist': map<Node, real>, p: seq<Node>, d: real, d': real)
    requires Within(dist, p, d) && Lowered(dist, dist') && d <= d'
    ensures Within(dist', p, d')
    decreases |p|
  {
    if |p| > 0 {
      WithinLowered(dist, dist', p[..|p| - 1], d, d');
    }
  }

  /** The distance of every settled node is no more than the weight of any walk to it. */
  ghost predicate Settled(nodes: set<Node>, edges: EdgeMap, s: Node, dist: map<Node, real>, done: set<Node>)
  {
    done <= dist.Keys &&
    forall v, q :: v in done && IsRoute(nodes, edges, q, s, v) ==> dist[v] <= RouteWeight(edges, q)
  }

  /** Every edge out of a settled node has been relaxed. */
  ghost predicate Relaxed(edges: EdgeMap, dist: map<Node, real>, done: set<Node>)
  {
    forall x, v :: x in done && x in dist && Adjacent(edges, x, v) ==>
      v in dist && dist[v] <= dist[x] + edges[(x, v)]
  }

  /** The invariant of the search loop. */
  ghost predicate SearchInvariant(nodes: set<Node>, edges: EdgeMap, s: Node,
                                  dist: map<Node, real>, path: map<Node, seq<Node>>, done: set<Node>)
  {
    DistancesAreWalks(nodes, edges, s, dist, path) &&
    Settled(nodes, edges, s, dist, done) &&
    Relaxed(edges, dist, done) &&
    s in dist && dist[s] <= 0.0
  }

  /**
   * A walk from the source that leaves the settled set is no lighter than the tentative
   * distance of some unsettled node: the first node where it leaves.
   */
  lemma {:induction false} FrontierBound(nodes: set<Node>, edges: EdgeMap, s: Node,
                                         dist: map<Node, real>, done: set<Node>, q: seq<Node>, v: Node)
    requires NonNegative(edges) && Settled(nodes, edges, s, dist, done) && Relaxed(edges, dist, done)
    requires s in dist && dist[s] <= 0.0
    requires IsRoute(nodes, edges, q, s, v)
    requires exists i :: 0 <= i < |q| && q[i] !in done
    ensures exists w :: w in dist && w !in done && dist[w] <= RouteWeight(edges, q)
    decreases |q|
  {
    var n := |q|;
    if n == 1 {
      assert q[0] == s && s !in done;
      assert dist[s] <= RouteWeight(edges, q);
    } else {
      var prefix, x := q[..n - 1], q[n - 2];
      assert IsRoute(nodes, edges, prefix, s, x) by {
        assert forall i :: 0 <= i < |prefix| ==> prefix[i] == q[i];
      }
      assert RouteWeight(edges, q) >= RouteWeight(edges, prefix) + edges[(x, v)] by {
        RouteWeightAppend(edges, prefix, v);
        assert prefix + [v] == q;
      }
      assert edges[(x, v)] >= 0.0;
      if exists i :: 0 <= i < n - 1 && prefix[i] !in done {
        FrontierBound(nodes, edges, s, dist, done, prefix, x);
        var w :| w in dist && w !in done && dist[w] <= RouteWeight(edges, prefix);
        assert dist[w] <= RouteWeight(edges, q);
      } else {
        assert x == prefix[n - 2] && x in done;
        assert q[n - 1] !in done;
        assert dist[x] <= RouteWeight(edges, prefix);
        assert v in dist && dist[v] <= dist[x] + edges[(x, v)];
        assert dist[v] <= RouteWeight(edges, q);
      }
    }
  }

  /** Once no unsettled node has a distance, every walk from the source ends at a settled node. */
  lemma {:induction false} ClosedFrontier(nodes: set<Node>, edges: EdgeMap, s: Node,
                                          dist: map<Node, real>, done: set<Node>, q: seq<Node>, v: Node)
    requires Relaxed(edges, dist, done) && s in dist && dist.Keys == done
    requires IsRoute(nodes, edges, q, s, v)
    ensures v in done
    decreases |q|
  {
    if |q| > 1 {
      var prefix, x := q[..|q| - 1], q[|q| - 2];
      assert IsRoute(nodes, edges, prefix, s, x) by {
        assert forall i :: 0 <= i < |prefix| ==> prefix[i] == q[i];
      }
      ClosedFrontier(nodes, edges, s, dist, done, prefix, x);
      assert Adjacent(edges, x, v);
    }
  }

  /**
   * Recording the walk through `u` for its neighbour `v`, when that is shorter than any walk `v`
   * had, keeps every recorded walk simple and weighing its end's distance: `v` cannot already
   * lie on `u`'s walk, since every node there is no farther than `u`.
   */
  lemma ExtendWalk(nodes: set<Node>, edges: EdgeMap, s: Node,
                   dist: map<Node, real>, path: map<Node, seq<Node>>, u: Node, v: Node)
    requires DistancesAreWalks(nodes, edges, s, dist, path)
    requires u in path && v in nodes && Adjacent(edges, u, v) && edges[(u, v)] >= 0.0
    requires v !in dist || dist[u] + edges[(u, v)] < dist[v]
    ensures DistancesAreWalks(nodes, edges, s, dist[v := dist[u] + edges[(u, v)]], path[v := path[u] + [v]])
  {
    var d := dist[u] + edges[(u, v)];
    var dist', path' := dist[v := d], path[v := path[u] + [v]];
    assert Lowered(dist, dist');
    assert RecordedWalk(nodes, edges, s, dist, path[u], u);
    if v in path[u] {
      WithinMember(dist, path[u], dist[u], v);
      assert false;
    }
    forall y | y in path'
      ensures y in dist' && RecordedWalk(nodes, edges, s, dist', path'[y], y)
    {
      if y == v {
        var p := path[u] + [v];
        RouteWeightAppend(edges, path[u], v);
        assert IsRoute(nodes, edges, p, s, v);
        assert p[..|p| - 1] == path[u];
        WithinLowered(dist, dist', path[u], dist[u], d);
      } else {
        assert RecordedWalk(nodes, edges, s, dist, path[y], y);
        WithinLowered(dist, dist', path[y], dist[y], dist[y]);
      }
    }
  }

  /** Every node of `dist` is in `dist'`, at no larger distance. */
  ghost predicate Lowered(dist: map<Node, real>, dist': map<Node, real>)
  {
    dist.Keys <= dist'.Keys && forall v :: v in dist ==> dist'[v] <= dist[v]
  }

  /** Lowering twice is lowering. */
  lemma LoweredTransitive(a: map<Node, real>, b: map<Node, real>, c: map<Node, real>)
    requires Lowered(a, b) && Lowered(b, c)
    ensures Lowered(a, c)
  {
  }

  /**
   * Settling `u`, whose distance no walk undercuts, and then lowering tentative distances to
   * weights of actual walks leaves the settled distances as they were, and they stay settled.
   */
  lemma LoweredKeepsSettled(nodes: set<Node>, edges: EdgeMap, s: Node, dist: map<Node, real>,
                            dist': map<Node, real>, path': map<Node, seq<Node>>, done: set<Node>, u: Node)
    requires Settled(nodes, edges, s, dist, done) && u in dist
    requires forall q :: IsRoute(nodes, edges, q, s, u) ==> dist[u] <= RouteWeight(edges, q)
    requires DistancesAreWalks(nodes, edges, s, dist', path') && Lowered(dist, dist')
    ensures Settled(nodes, edges, s, dist', done + {u})
    ensures forall x :: x in done + {u} ==> dist'[x] == dist[x]
  {
    forall x | x in done + {u} ensures dist'[x] == dist[x] {
      assert IsRoute(nodes, edges, path'[x], s, x);
    }
  }

  /**
   * Once every edge out of `u` is relaxed, and the other settled nodes kept their distances while
   * the rest only went down, every edge out of a settled node is relaxed.
   */
  lemma NeighboursRelaxed(edges: EdgeMap, dist: map<Node, real>, dist': map<Node, real>,
                          done: set<Node>, u: Node)
    requires u in dist && done <= dist.Keys && Relaxed(edges, dist, done)
    requires Lowered(dist, dist')
    requires forall x :: x in done + {u} ==> dist'[x] == dist[x]
    requires forall v :: Adjacent(edges, u, v) ==> v in dist' && dist'[v] <= dist[u] + edges[(u, v)]
    ensures Relaxed(edges, dist', done + {u})
  {
    forall x, v | x in done + {u} && x in dist' && Adjacent(edges, x, v)
      ensures v in dist' && dist'[v] <= dist'[x] + edges[(x, v)]
    {
      if x != u {
        assert x in done && x in dist;
      }
    }
  }

  /** An unsettled node whose tentative distance is least. */
  method Nearest(frontier: set<Node>, dist: map<Node, real>) returns (u: Node)
    requires frontier != {} && frontier <= dist.Keys
    ensures u in frontier
    ensures forall v :: v in frontier ==> dist[u] <= dist[v]
  {
    u :| u in frontier;
    var rest := frontier - {u};
    while rest != {}
      invariant rest <= frontier && u in frontier
      invariant forall v :: v in frontier - rest ==> dist[u] <= dist[v]
      decreases rest
    {
      var v :| v in rest;
      if dist[v] < dist[u] {
        u := v;
      }
      rest := rest - {v};
    }
  }

  /**
   * Relaxes the edge u-v: `v` gets the distance through `u`, and the walk through `u`, when it had
   * no distance or a larger one; every other node keeps its distance.
   */
  method RelaxEdge(nodes: set<Node>, edges: EdgeMap, s: Node,
                   dist: map<Node, real>, path: map<Node, seq<Node>>, u: Node, v: Node)
    returns (dist': map<Node, real>, path': map<Node, seq<Node>>)
    requires NonNegative(edges) && DistancesAreWalks(nodes, edges, s, dist, path)
    requires u in dist && v in nodes && Adjacent(edges, u, v)
    ensures DistancesAreWalks(nodes, edges, s, dist', path')
    ensures dist'.Keys == dist.Keys + {v}
    ensures forall w :: w in dist && w != v ==> dist'[w] == dist[w]
    ensures dist'[v] == if v !in dist || dist[u] + edges[(u, v)] < dist[v] then dist[u] + edges[(u, v)] else dist[v]
    ensures dist'[u] == dist[u]
    ensures Lowered(dist, dist')
  {
    var d := dist[u] + edges[(u, v)];
    if v !in dist || d < dist[v] {
      ExtendWalk(nodes, edges, s, dist, path, u, v);
      dist', path' := dist[v := d], path[v := path[u] + [v]];
    } else {
      dist', path' := dist, path;
    }
  }

  /**
   * Relaxes every edge out of `u`: a neighbour gets the distance through `u` when it had none or
   * a larger one. Distances only decrease, `u` keeps its own, and afterwards no neighbour is farther than the distance through `u`.
   */
  method RelaxNeighbours(nodes: set<Node>, edges: EdgeMap, s: Node,
                         dist: map<Node, real>, path: map<Node, seq<Node>>, u: Node)
    returns (dist': map<Node, real>, path': map<Node, seq<Node>>)
    requires EdgesWithin(nodes, edges) && NonNegative(edges)
    requires DistancesAreWalks(nodes, edges, s, dist, path) && u in dist
    ensures DistancesAreWalks(nodes, edges, s, dist', path')
    ensures Lowered(dist, dist')
    ensures dist'[u] == dist[u]
    ensures forall v :: Adjacent(edges, u, v) ==> v in dist' && dist'[v] <= dist[u] + edges[(u, v)]
  {
    dist', path' := dist, path;
    var neighbours := set v | v in nodes && Adjacent(edges, u, v);
    var todo := neighbours;
    while todo != {}
      invariant todo <= neighbours
      invariant DistancesAreWalks(nodes, edges, s, dist', path')
      invariant Lowered(dist, dist')
      invariant dist'[u] == dist[u]
      invariant forall v :: v in neighbours && v !in todo ==> v in dist' && dist'[v] <= dist[u] + edges[(u, v)]
      decreases todo
    {
      var v :| v in todo;
      todo := todo - {v};
      assert edges[(u, v)] >= 0.0;
      ghost var before := dist';
      dist', path' := RelaxEdge(nodes, edges, s, dist', path', u, v);
      LoweredTransitive(dist, before, dist');
      forall w | w in neighbours && w !in todo ensures w in dist' && dist'[w] <= dist[u] + edges[(u, w)] {
        if w != v {
          assert w in before;
        }
      }
    }
    forall v | Adjacent(edges, u, v) ensures v in neighbours {
      assert (u, v) in edges;
    }
  }

  /**
   * One round of the search: settles the unsettled node of least tentative distance, which no
   * walk from the source undercuts, and relaxes the edges out of it.
   */
  method SettleNearest(nodes: set<Node>, edges: EdgeMap, s: Node,
                       dist: map<Node, real>, path: map<Node, seq<Node>>, done: set<Node>)
    returns (dist': map<Node, real>, path': map<Node, seq<Node>>, done': set<Node>)
    requires EdgesWithin(nodes, edges) && NonNegative(edges)
    requires SearchInvariant(nodes, edges, s, dist, path, done) && dist.Keys - done != {}
    ensures SearchInvariant(nodes, edges, s, dist', path', done')
    ensures exists u :: u in dist && u !in done && done' == done + {u}
  {
    var u := Nearest(dist.Keys - done, dist);
    forall q | IsRoute(nodes, edges, q, s, u) ensures dist[u] <= RouteWeight(edges, q) {
      assert q[|q| - 1] !in done;
      FrontierBound(nodes, edges, s, dist, done, q, u);
    }
    done' := done + {u};
    dist', path' := RelaxNeighbours(nodes, edges, s, dist, path, u);
    LoweredKeepsSettled(nodes, edges, s, dist, dist', path', done, u);
    NeighboursRelaxed(edges, dist, dist', done, u);
  }

  /**
   * Dijkstra's search from `source`, stopped once `target` is settled. Fails with NodeNotFound
   * when an end point is not a node, with NoPath when no walk joins them; otherwise returns a
   * path from source to target of least total weight that visits no node twice.
   */
  method Dijkstra(nodes: set<Node>, edges: EdgeMap, source: Node, target: Node)
    returns (r: Result<seq<Node>, RouteError>)
    requires EdgesWithin(nodes, edges) && NonNegative(edges)
    ensures r == Failure(NodeNotFound) <==> source !in nodes || target !in nodes
    ensures r == Failure(NoPath) <==>
              source in nodes && target in nodes && !Reachable(nodes, edges, source, target)
    ensures r.Success? <==> source in nodes && target in nodes && Reachable(nodes, edges, source, target)
    ensures r.Success? ==> IsShortestRoute(nodes, edges, r.value, source, target)
    ensures r.Success? ==> forall i, j :: 0 <= i < j < |r.value| ==> r.value[i] != r.value[j]
  {
    if source !in nodes || target !in nodes {
      return Failure(NodeNotFound);
    }
    var dist: map<Node, real> := map[source := 0.0];
    var path: map<Node, seq<Node>> := map[source := [source]];
    var done: set<Node> := {};
    assert [source][..0] == [];
    assert RecordedWalk(nodes, edges, source, dist, [source], source);
    while target !in done && dist.Keys - done != {}
      invariant done <= nodes
      invariant SearchInvariant(nodes, edges, source, dist, path, done)
      decreases nodes - done
    {
      dist, path, done := SettleNearest(nodes, edges, source, dist, path, done);
    }
    if target in done {
      assert RecordedWalk(nodes, edges, source, dist, path[target], target);
      SimpleNoRepeats(path[target]);
      r := Success(path[target]);
    } else {
      forall q, v | IsRoute(nodes, edges, q, source, v) ensures v in done {
        ClosedFrontier(nodes, edges, source, dist, done, q, v);
      }
      r := Failure(NoPath);
    }
  }
}
