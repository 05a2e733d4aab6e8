/**
 * The road network: a small undirected weighted graph of intersections, the in-place penalty an
 * incident puts on the road B-C, and the shortest-route query over it.
 */
module GraphModel {
  import opened Wrappers
  import opened ShortestPath
  import opened IncidentAnalysis

  /** Every edge is stored under both orders of its end points, with one weight. */
  predicate Symmetric(edges: EdgeMap)
  {
    forall e :: e in edges ==> (e.1, e.0) in edges && edges[(e.1, e.0)] == edges[e]
  }

  /** An undirected road graph, updated in place. */
  class RoadGraph {
    var nodes: set<Node>
    var edges: EdgeMap

    /** Edges join nodes of the graph and are undirected. */
    ghost predicate Valid()
      reads this
    {
      EdgesWithin(nodes, edges) && Symmetric(edges)
    }

    /** An empty graph. */
    constructor ()
      ensures Valid()
      ensures nodes == {} && edges == map[]
    {
      nodes, edges := {}, map[];
    }

    /** Adds the intersection `n`; adding one already present changes nothing. */
    method AddNode(n: Node)
      requires Valid()
      modifies this
      ensures Valid()
      ensures nodes == old(nodes) + {n} && edges == old(edges)
    {
      nodes := nodes + {n};
    }

    /**
     * Adds the road u-v with weight `w`, adding its end points when missing; a road already
     * present gets the new weight.
     */
    method AddEdge(u: Node, v: Node, w: real)
      requires Valid()
      modifies this
      ensures Valid()
      ensures nodes == old(nodes) + {u, v}
      ensures u in old(nodes) && v in old(nodes) ==> nodes == old(nodes)
      ensures edges == old(edges)[(u, v) := w][(v, u) := w]
    {
      nodes := nodes + {u, v};
      edges := edges[(u, v) := w][(v, u) := w];
    }

    /** The road u-v is present. */
    predicate HasEdge(u: Node, v: Node)
      reads this
    {
      (u, v) in edges
    }

    /** The weight of the road u-v, the same in both directions. */
    function Weight(u: Node, v: Node): (w: real)
      reads this
      requires Valid() && HasEdge(u, v)
      ensures HasEdge(v, u) && w == edges[(v, u)]
    {
      edges[(u, v)]
    }

    /** Sets the weight of the road u-v, which must exist, in both directions. */
    method SetWeight(u: Node, v: Node, w: real)
      requires Valid() && HasEdge(u, v)
      modifies this
      ensures Valid()
      ensures nodes == old(nodes)
      ensures edges == old(edges)[(u, v) := w][(v, u) := w]
      ensures edges.Keys == old(edges.Keys)
    {
      edges := edges[(u, v) := w][(v, u) := w];
    }
  }

  // ---------------------------------------------------------------------------------------
  // The fixed road network
  // ---------------------------------------------------------------------------------------

  /** The four intersections. */
  const BaseNodes: set<Node> := {"A", "B", "C", "D"}

  /** The five roads with their base times, except that B-C takes `bc`. */
  function RoadsWithBC(bc: real): EdgeMap
  {
    map[("A", "B") := 2.0, ("B", "A") := 2.0,
        ("B", "C") := bc,  ("C", "B") := bc,
        ("C", "D") := 1.5, ("D", "C") := 1.5,
        ("A", "C") := 3.0, ("C", "A") := 3.0,
        ("B", "D") := 4.0, ("D", "B") := 4.0]
  }

  /** The base travel times of the five roads. */
  function BaseEdges(): EdgeMap
  {
    RoadsWithBC(2.5)
  }

  /** Whatever B-C takes, every road is stored in both directions with one time. */
  lemma RoadsWithBCSymmetric(bc: real)
    ensures Symmetric(RoadsWithBC(bc))
  {
  }

  /** Whatever B-C takes, the roads join the four intersections, and none is negative when B-C is not. */
  lemma RoadsWithBCWithin(bc: real)
    ensures EdgesWithin(BaseNodes, RoadsWithBC(bc))
    ensures bc >= 0.0 ==> NonNegative(RoadsWithBC(bc))
  {
  }

  /** The base times: A-B 2, B-C 2.5, C-D 1.5, A-C 3, B-D 4, the same in either direction. */
  lemma BaseWeights()
    ensures Symmetric(BaseEdges()) && EdgesWithin(BaseNodes, BaseEdges()) && NonNegative(BaseEdges())
    ensures BaseEdges()[("A", "B")] == 2.0 && BaseEdges()[("B", "C")] == 2.5
    ensures BaseEdges()[("C", "D")] == 1.5 && BaseEdges()[("A", "C")] == 3.0
    ensures BaseEdges()[("B", "D")] == 4.0
  {
    RoadsWithBCSymmetric(2.5);
    RoadsWithBCWithin(2.5);
  }

  /** The roads are exactly A-B, B-C, C-D, A-C and B-D, each in both directions. */
  lemma BaseRoads(u: Node, v: Node)
    ensures (u, v) in BaseEdges() <==>
              {u, v} == {"A", "B"} || {u, v} == {"B", "C"} || {u, v} == {"C", "D"} ||
              {u, v} == {"A", "C"} || {u, v} == {"B", "D"}
  {
    if {u, v} == {"A", "B"} {
      assert u in {"A", "B"} && v in {"A", "B"} && u != v;
    } else if {u, v} == {"B", "C"} {
      assert u in {"B", "C"} && v in {"B", "C"} && u != v;
    } else if {u, v} == {"C", "D"} {
      assert u in {"C", "D"} && v in {"C", "D"} && u != v;
    } else if {u, v} == {"A", "C"} {
      assert u in {"A", "C"} && v in {"A", "C"} && u != v;
    } else if {u, v} == {"B", "D"} {
      assert u in {"B", "D"} && v in {"B", "D"} && u != v;
    }
  }

  /** Builds the fixed road network: four intersections and five roads with base times. */
  method CreateGraph() returns (g: RoadGraph)
    ensures fresh(g) && g.Valid()
    ensures g.nodes == BaseNodes && g.edges == BaseEdges()
  {
    g := new RoadGraph();
    g.AddNode("A");
    g.AddNode("B");
    g.AddNode("C");
    g.AddNode("D");
    assert g.nodes == BaseNodes;
    g.AddEdge("A", "B", 2.0);
    g.AddEdge("B", "C", 2.5);
    g.AddEdge("C", "D", 1.5);
    g.AddEdge("A", "C", 3.0);
    g.AddEdge("B", "D", 4.0);
  }

  // ---------------------------------------------------------------------------------------
  // The incident penalty
  // ---------------------------------------------------------------------------------------

  /**
   * The road weights after an incident report: with an incident, and when the road B-C exists,
   * B-C takes the predicted penalty for the incident's severity on top of its current time;
   * otherwise nothing changes. The penalty is neither clamped nor deduplicated.
   */
  function Penalized(edges: EdgeMap, incident: Option<Incident>, predict: int -> real): (r: EdgeMap)
    ensures Symmetric(edges) ==> r.Keys == edges.Keys && Symmetric(r)
    ensures forall e :: e in edges && e != ("B", "C") && e != ("C", "B") ==> e in r && r[e] == edges[e]
    ensures incident.None? || ("B", "C") !in edges ==> r == edges
    ensures incident.Some? && ("B", "C") in edges ==>
              ("B", "C") in r && r[("B", "C")] == edges[("B", "C")] + predict(incident.value.severity)
  {
    if incident.Some? && ("B", "C") in edges then
      var w := edges[("B", "C")] + predict(incident.value.severity);
      edges[("B", "C") := w][("C", "B") := w]
    else
      edges
  }

  /**
   * Applies an incident report to the graph in place: the road B-C, when present, takes the
   * predicted penalty for the incident's severity. Returns the same graph.
   */
  method UpdateEdgeWeights(g: RoadGraph, incident: Option<Incident>, predict: int -> real) returns (r: RoadGraph)
    requires g.Valid()
    modifies g
    ensures r == g && g.Valid()
    ensures g.nodes == old(g.nodes)
    ensures g.edges == Penalized(old(g.edges), incident, predict)
  {
    if incident.Some? {
      var severity := incident.value.severity;
      var penalty := predict(severity);
      if g.HasEdge("B", "C") {
        g.SetWeight("B", "C", g.Weight("B", "C") + penalty);
      }
    }
    r := g;
  }

  /** The same incident applied twice adds its penalty twice. */
  lemma PenaltyAccumulates(edges: EdgeMap, incident: Incident, predict: int -> real)
    requires ("B", "C") in edges
    ensures var twice := Penalized(Penalized(edges, Some(incident), predict), Some(incident), predict);
            ("B", "C") in twice &&
            twice[("B", "C")] == edges[("B", "C")] + 2.0 * predict(incident.severity)
  {
    var once := Penalized(edges, Some(incident), predict);
    assert ("B", "C") in once;
  }

  /** The time of B-C does not go down exactly when the predicted penalty is not negative. */
  lemma PenaltyNonDecreasing(edges: EdgeMap, incident: Incident, predict: int -> real)
    requires ("B", "C") in edges
    ensures var after := Penalized(edges, Some(incident), predict);
            ("B", "C") in after &&
            (after[("B", "C")] >= edges[("B", "C")] <==> predict(incident.severity) >= 0.0)
  {
  }

  /** Retiming B-C in both directions gives the network with the new B-C time. */
  lemma RetimeBC(a: real, b: real)
    ensures RoadsWithBC(a)[("B", "C") := b][("C", "B") := b] == RoadsWithBC(b)
  {
    var lhs, rhs := RoadsWithBC(a)[("B", "C") := b][("C", "B") := b], RoadsWithBC(b);
    assert lhs.Keys == rhs.Keys;
  }

  /** With B-C present, an incident retimes it, in both directions, by the penalty. */
  lemma PenalizedRetimes(edges: EdgeMap, incident: Incident, predict: int -> real)
    requires ("B", "C") in edges
    ensures var w := edges[("B", "C")] + predict(incident.severity);
            Penalized(edges, Some(incident), predict) == edges[("B", "C") := w][("C", "B") := w]
  {
  }

  /** The base network after an incident is the base network with B-C slowed by the penalty. */
  lemma PenalizedBase(incident: Option<Incident>, predict: int -> real)
    ensures Penalized(BaseEdges(), incident, predict) ==
              if incident.Some? then RoadsWithBC(2.5 + predict(incident.value.severity)) else BaseEdges()
  {
    if incident.Some? {
      var w := 2.5 + predict(incident.value.severity);
      BaseWeights();
      PenalizedRetimes(BaseEdges(), incident.value, predict);
      RetimeBC(2.5, w);
    }
  }

  // ---------------------------------------------------------------------------------------
  // The route query
  // ---------------------------------------------------------------------------------------

  /**
   * The fastest route from `source` to `target`: fails with NodeNotFound when either is not an
   * intersection, with NoPath when no road sequence joins them, and otherwise returns a path
   * from source to target that visits no intersection twice and whose total time no walk undercuts.
   */
  method FindOptimalRoute(g: RoadGraph, source: Node, target: Node) returns (r: Result<seq<Node>, RouteError>)
    requires g.Valid() && NonNegative(g.edges)
    ensures r == Failure(NodeNotFound) <==> source !in g.nodes || target !in g.nodes
    ensures r == Failure(NoPath) <==>
              source in g.nodes && target in g.nodes && !Reachable(g.nodes, g.edges, source, target)
    ensures r.Success? <==> source in g.nodes && target in g.nodes && Reachable(g.nodes, g.edges, source, target)
    ensures r.Success? ==> IsShortestRoute(g.nodes, g.edges, r.value, source, target)
    ensures r.Success? ==> forall i, j :: 0 <= i < j < |r.value| ==> r.value[i] != r.value[j]
  {
    r := Dijkstra(g.nodes, g.edges, source, target);
  }

  /** A lower bound on the time from A to each intersection. */
  function Potential(n: Node): real
  {
    if n == "A" then 0.0 else if n == "B" then 2.0 else if n == "C" then 3.0 else 4.5
  }

  /**
   * With B-C no faster than its base time, no road takes less than the difference of the
   * potentials of its ends, and only A-B, A-C and C-D, driven away from A, take exactly that.
   */
  lemma RoadSlack(bc: real, x: Node, y: Node)
    requires bc >= 2.5 && (x, y) in RoadsWithBC(bc)
    ensures Potential(y) <= Potential(x) + RoadsWithBC(bc)[(x, y)]
    ensures Potential(y) == Potential(x) + RoadsWithBC(bc)[(x, y)] ==>
              (x, y) == ("A", "B") || (x, y) == ("A", "C") || (x, y) == ("C", "D")
  {
  }

  /**
   * Every walk from A takes at least the potential of where it ends, and only A, A-B, A-C and
   * A-C-D take exactly that.
   */
  lemma {:induction false} WalksFromA(bc: real, p: seq<Node>)
    requires bc >= 2.5 && |p| >= 1 && p[0] == "A" && Linked(RoadsWithBC(bc), p)
    ensures RouteWeight(RoadsWithBC(bc), p) >= Potential(p[|p| - 1])
    ensures RouteWeight(RoadsWithBC(bc), p) == Potential(p[|p| - 1]) ==>
              p == ["A"] || p == ["A", "B"] || p == ["A", "C"] || p == ["A", "C", "D"]
    decreases |p|
  {
    var e := RoadsWithBC(bc);
    var n := |p|;
    if n > 1 {
      var prefix, x, y := p[..n - 1], p[n - 2], p[n - 1];
      assert Linked(e, prefix) by {
        assert forall i :: 0 <= i < |prefix| ==> prefix[i] == p[i];
      }
      assert prefix + [y] == p;
      RouteWeightAppend(e, prefix, y);
      WalksFromA(bc, prefix);
      RoadSlack(bc, x, y);
    }
  }

  /** The time of a two-road walk is the sum of its roads' times. */
  lemma TwoRoads(e: EdgeMap, a: Node, b: Node, c: Node)
    requires (a, b) in e && (b, c) in e
    ensures Linked(e, [a, b, c]) && RouteWeight(e, [a, b, c]) == e[(a, b)] + e[(b, c)]
  {
    RouteWeightAppend(e, [a], b);
    assert [a] + [b] == [a, b];
    RouteWeightAppend(e, [a, b], c);
    assert [a, b] + [c] == [a, b, c];
  }

  /** The time of a three-road walk is the sum of its roads' times. */
  lemma ThreeRoads(e: EdgeMap, a: Node, b: Node, c: Node, d: Node)
    requires (a, b) in e && (b, c) in e && (c, d) in e
    ensures Linked(e, [a, b, c, d]) && RouteWeight(e, [a, b, c, d]) == e[(a, b)] + e[(b, c)] + e[(c, d)]
  {
    TwoRoads(e, a, b, c);
    RouteWeightAppend(e, [a, b, c], d);
    assert [a, b, c] + [d] == [a, b, c, d];
  }

  /** Walk times on the base network: A-C-D takes 4.5, A-B-D and A-B-C-D take 6. */
  lemma BaseRouteTimes()
    ensures Linked(BaseEdges(), ["A", "C", "D"]) && RouteWeight(BaseEdges(), ["A", "C", "D"]) == 4.5
    ensures Linked(BaseEdges(), ["A", "B", "D"]) && RouteWeight(BaseEdges(), ["A", "B", "D"]) == 6.0
    ensures Linked(BaseEdges(), ["A", "B", "C", "D"]) && RouteWeight(BaseEdges(), ["A", "B", "C", "D"]) == 6.0
  {
    BaseWeights();
    TwoRoads(BaseEdges(), "A", "C", "D");
    TwoRoads(BaseEdges(), "A", "B", "D");
    ThreeRoads(BaseEdges(), "A", "B", "C", "D");
  }

  /**
   * With B-C no faster than its base time, A-C-D is a fastest route from A to D, taking 4.5,
   * and it is the only one.
   */
  lemma FastestAToD(bc: real)
    requires bc >= 2.5
    ensures IsShortestRoute(BaseNodes, RoadsWithBC(bc), ["A", "C", "D"], "A", "D")
    ensures RouteWeight(RoadsWithBC(bc), ["A", "C", "D"]) == 4.5
    ensures forall q :: IsShortestRoute(BaseNodes, RoadsWithBC(bc), q, "A", "D") ==> q == ["A", "C", "D"]
  {
    var e := RoadsWithBC(bc);
    TwoRoads(e, "A", "C", "D");
    forall q | IsRoute(BaseNodes, e, q, "A", "D")
      ensures RouteWeight(e, q) >= 4.5
      ensures RouteWeight(e, q) == 4.5 ==> q == ["A", "C", "D"]
    {
      WalksFromA(bc, q);
    }
  }
}
