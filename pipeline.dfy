/**
 * The end-to-end flow of one radio report: classify the transcript, build the road network,
 * apply the incident's penalty to it and ask for the fastest route from A to D.
 */
module Pipeline {
  import opened Wrappers
  import opened IncidentAnalysis
  import opened ShortestPath
  import opened GraphModel

  /**
   * Runs the flow on a transcript with a penalty predictor. The route always exists, visits no
   * intersection twice and is a fastest one on the penalized network; when there is no incident,
   * or the predicted penalty is not negative, it is A-C-D, the route that avoids B-C.
   */
  method PlanRoute(transcript: string, predict: int -> real)
    returns (incident: Option<Incident>, route: Result<seq<Node>, RouteError>)
    requires AnalyzeTranscript(transcript).Some? ==>
               predict(AnalyzeTranscript(transcript).value.severity) >= -2.5
    ensures incident == AnalyzeTranscript(transcript)
    ensures route.Success?
    ensures IsShortestRoute(BaseNodes, Penalized(BaseEdges(), incident, predict), route.value, "A", "D")
    ensures forall i, j :: 0 <= i < j < |route.value| ==> route.value[i] != route.value[j]
    ensures incident.None? || predict(incident.value.severity) >= 0.0 ==> route == Success(["A", "C", "D"])
  {
    incident := AnalyzeTranscript(transcript);
    var g := CreateGraph();
    g := UpdateEdgeWeights(g, incident, predict);
    var bc := if incident.Some? then 2.5 + predict(incident.value.severity) else 2.5;
    PenalizedBase(incident, predict);
    assert g.edges == RoadsWithBC(bc);
    RoadsWithBCWithin(bc);
    TwoRoads(g.edges, "A", "C", "D");
    assert IsRoute(g.nodes, g.edges, ["A", "C", "D"], "A", "D");
    assert Reachable(g.nodes, g.edges, "A", "D");
    assert "A" in g.nodes && "D" in g.nodes;
    route := FindOptimalRoute(g, "A", "D");
    if bc >= 2.5 {
      FastestAToD(bc);
    }
  }
}
