# Incident-aware road routing, modelled in Dafny

This project models the routing engine of a small traffic-routing application. A radio
transcript is classified into an optional traffic incident. The incident's severity is turned
into a travel-time penalty by a predictor and added to the road B-C of a fixed four-intersection
road network. The fastest route is then recomputed over the updated network.

Modules:

- `Wrappers` (`wrappers.dfy`): `Option` and `Result`, standing for Python's `None` and for raised exceptions.
- `IncidentAnalysis` (`incident_analysis.dfy`): the keyword classifier `analyze_transcript`.
  - The four keyword tests are an ordered rule list folded by `Scan`.
  - A rule that fires raises the running severity to at least its floor and overwrites the running description.
  - `str.lower()` and the substring operator `in` are written out over `seq<char>`.
- `ShortestPath` (`shortest_path.dfy`): the weighted shortest-route query that `networkx.shortest_path` answers.
  - It is a Dijkstra search with a loop over the frontier, proved to return a path of least total weight that visits no node twice.
  - It fails with `NodeNotFound` or `NoPath` exactly when networkx raises its corresponding exceptions.
- `GraphModel` (`graph_model.dfy`): the road network.
  - `RoadGraph` is a class whose `nodes` and `edges` fields are updated in place by `AddNode`, `AddEdge` and `SetWeight`.
  - An undirected edge is stored under both orders of its end points, with one weight.
  - The module also holds `CreateGraph`, the in-place `UpdateEdgeWeights`, its specification `Penalized`, and `FindOptimalRoute`.
  - It also holds the lemmas that pin down the route from A to D.
- `Pipeline` (`pipeline.dfy`): the flow of `main.py`: classify, create the network, apply the penalty, and route from A to D.

The penalty predictor is a parameter `predict: int -> real`. The results about the classifier
and the weight update hold for every predictor. The route results need B-C's weight to stay
non-negative, so `Pipeline.PlanRoute` requires the predicted penalty to be at least -2.5.

Behaviour of the code worth knowing:

- The description of a classified incident is that of the **last** group that matched, in the order accident, congestion, slow, delay. For "There is a major accident causing slow traffic", the severity is 7 and the description is "Slow traffic reported" (`IncidentAnalysis.MixedReportExample`).
- The weight update does not clamp a negative penalty or skip a repeated incident. It adds the penalty every time (`GraphModel.PenaltyAccumulates`, `GraphModel.PenaltyNonDecreasing`).
- Missing edges and out-of-range severities raise no error.

## Model

| member | source | states |
|---|---|---|
| IncidentAnalysis.AnalyzeTranscript | incident_analysis.py:3-31 | no incident exactly when no keyword occurs in the lower-cased transcript; any incident has severity in {3, 4, 5, 7}, so 0 < severity <= 10; the location is always the fixed constant |
| IncidentAnalysis.ScanSeverityIsMax | incident_analysis.py:9-23 | the severity after the keyword tests is at least the start value and every floor that fired, and equals the start value or one of those floors |
| IncidentAnalysis.ScanDescriptionIsLast | incident_analysis.py:10-23 | when no test fires, severity and description stay as they were; otherwise the description is the report of the last test that fired |
| IncidentAnalysis.KeywordsAreTheRules | incident_analysis.py:12-21 | some keyword of accident, congestion, traffic jam, slow, delay occurs exactly when some keyword test fires |
| IncidentAnalysis.RulesFire | incident_analysis.py:12-21 | each test fires exactly when its own keywords occur; congestion's test fires on "congestion" or "traffic jam" |
| IncidentAnalysis.SeverityIsMaxFloor | incident_analysis.py:12-23 | the severity is the maximum floor among the matched groups: 7 with accident, else 5 with congestion or traffic jam, else 4 with slow, else 3 |
| IncidentAnalysis.DescriptionIsLastMatch | incident_analysis.py:14-23 | the description is that of the last matched group: delay, else slow, else congestion, else accident, regardless of which floor is highest |
| IncidentAnalysis.CaseInsensitive | incident_analysis.py:8 | transcripts equal up to ASCII letter case classify identically |
| IncidentAnalysis.ExtendingNeverLowersSeverity | incident_analysis.py:12-21 | text added before or after a transcript with an incident keeps an incident, at no lower severity |
| IncidentAnalysis.EmptyTranscriptIsNoIncident | incident_analysis.py:25-31 | the empty transcript, the fallback of a failed transcription, yields no incident |
| IncidentAnalysis.MixedReportExample | incident_analysis.py:12-28 | "There is a major accident causing slow traffic" yields severity 7 with description "Slow traffic reported" |
| IncidentAnalysis.ClearReportExample | incident_analysis.py:25-31 | "all clear, normal traffic" yields no incident |
| IncidentAnalysis.ContainsExtended | incident_analysis.py:12 | a substring stays a substring when text is added on either side |
| ShortestPath.Nearest | graph_model.py:40 | returns an unsettled node of least tentative distance |
| ShortestPath.RelaxEdge | graph_model.py:40 | the neighbour takes the distance through the settled node when that is smaller; every other distance is unchanged, and every distance stays the weight of a recorded walk |
| ShortestPath.ExtendWalk | graph_model.py:40 | recording the walk through a node for a neighbour whose distance strictly improves keeps every recorded walk a walk from the source that weighs its end's distance, visits no node twice, and has no node farther than its end |
| ShortestPath.SimpleNoRepeats | graph_model.py:42 | a path built without repeating its last node, step by step, holds no node at two positions |
| ShortestPath.RelaxNeighbours | graph_model.py:40 | after relaxing every edge out of a node, every neighbour is within that node's distance plus the road's weight; no distance grows |
| ShortestPath.SettleNearest | graph_model.py:40 | one round settles a new node and keeps the search invariant: settled distances are least over all walks, and edges out of settled nodes are relaxed |
| ShortestPath.FrontierBound | graph_model.py:40 | a walk from the source that leaves the settled set weighs at least the tentative distance of some unsettled node |
| ShortestPath.ClosedFrontier | graph_model.py:40 | once no unsettled node has a distance, every node reachable from the source is settled |
| ShortestPath.Dijkstra | graph_model.py:38-42 | NodeNotFound exactly when an end point is missing; NoPath exactly when no walk joins them; otherwise a path from source to target that visits no node twice and that no walk undercuts |
| GraphModel.RoadGraph.constructor | graph_model.py:9 | a new graph has no nodes and no edges |
| GraphModel.RoadGraph.AddNode | graph_model.py:11-14 | adds one intersection and leaves the roads alone |
| GraphModel.RoadGraph.AddEdge | graph_model.py:17-21 | adds both end points and sets the road's weight in both directions; the graph stays undirected |
| GraphModel.RoadGraph.Weight | graph_model.py:34 | the weight of u-v equals the weight of v-u |
| GraphModel.RoadGraph.SetWeight | graph_model.py:34 | sets an existing road's weight in both directions; the nodes and the set of roads do not change |
| GraphModel.CreateGraph | graph_model.py:4-22 | a fresh undirected graph with nodes A, B, C, D and exactly the five base roads |
| GraphModel.BaseWeights | graph_model.py:17-21 | A-B 2, B-C 2.5, C-D 1.5, A-C 3, B-D 4; the network is undirected, joins only the four intersections, and has no negative weight |
| GraphModel.BaseRoads | graph_model.py:17-21 | u-v is a road exactly when {u, v} is one of A-B, B-C, C-D, A-C, B-D, so there are no other roads |
| GraphModel.RoadsWithBCSymmetric | graph_model.py:9 | the network is undirected whatever B-C weighs |
| GraphModel.RoadsWithBCWithin | graph_model.py:17-21 | whatever B-C weighs, roads join only the four intersections, and no weight is negative unless B-C's is |
| GraphModel.Penalized | graph_model.py:30-34 | with no incident, or with B-C absent, nothing changes; otherwise B-C takes its old weight plus the predicted penalty; every other road keeps its weight; no road is added or removed |
| GraphModel.UpdateEdgeWeights | graph_model.py:24-36 | updates the graph in place to Penalized of the old weights, keeps its nodes, stays undirected, and returns the same graph |
| GraphModel.PenaltyAccumulates | graph_model.py:32-34 | the same incident applied twice adds the penalty twice |
| GraphModel.PenaltyNonDecreasing | graph_model.py:32-34 | B-C's weight does not decrease exactly when the predicted penalty is not negative |
| GraphModel.PenalizedBase | graph_model.py:33-34 | the base network after an incident is the base network with B-C weighing 2.5 plus the penalty |
| GraphModel.FindOptimalRoute | graph_model.py:38-42 | NodeNotFound exactly when source or target is not an intersection; NoPath exactly when they are not connected; a route exactly when they are; any route visits no intersection twice and no walk undercuts it |
| GraphModel.RoadSlack | graph_model.py:17-21 | with B-C at 2.5 or more, no road takes less than the difference of the potentials of its ends (A 0, B 2, C 3, D 4.5), and only A-B, A-C and C-D, driven away from A, take exactly that |
| GraphModel.WalksFromA | graph_model.py:17-21 | with B-C at 2.5 or more, every walk from A takes at least the potential of its end, with equality only for A, A-B, A-C and A-C-D |
| GraphModel.BaseRouteTimes | graph_model.py:17-21 | on the base network, A-C-D takes 4.5 while A-B-D and A-B-C-D take 6 |
| GraphModel.FastestAToD | graph_model.py:38-42 | with B-C at 2.5 or more, A-C-D, taking 4.5, is a fastest route from A to D and the only one |
| Pipeline.PlanRoute | main.py:19-35 | the incident is the classifier's; a route from A to D always exists, visits no intersection twice, and is a fastest one on the penalized network; with no incident or a non-negative penalty it is A-C-D |

## Left out

- Audio capture and transcription (`radio_listener.py`, `speech_to_text.py`) are file and network I/O. Only the empty transcript they fall back to is modelled, as an input to the classifier.
- Training and persistence of the penalty predictor (`ml_model.py`) are left out. The predictor is the parameter `predict`, and its numpy float result is an exact `real`.
- `main.py` imports `load_ml_model`, which `ml_model.py` does not define. That broken wiring is not modelled; `Pipeline.PlanRoute` takes the predictor as a parameter.
- Drawing the network and the node positions (`pos`) exist only for visualisation and are left out. The same goes for every `print`.
- Floating-point arithmetic is not modelled: weights, penalties and coordinates are exact reals.
- `str.lower()` is modelled for ASCII letters only; Unicode case mapping is left out.
- An incident is a datatype rather than a dictionary. The truthiness test `if incident:` is the test for `Some`, since the classifier only ever returns a non-empty dictionary or `None`.
- ShortestPath.Dijkstra: requires non-negative weights. networkx's behaviour on negative weights (a wrong answer or a `ValueError`) is not modelled.
- GraphModel.FindOptimalRoute: requires non-negative weights, as `ShortestPath.Dijkstra` does.
- Pipeline.PlanRoute: requires the predicted penalty to be at least -2.5, so that B-C's weight stays non-negative, for the same reason.
- ShortestPath.Nearest: when several frontier nodes tie, it picks one without specifying which. So when routes tie, `ShortestPath.Dijkstra` and `GraphModel.FindOptimalRoute` return an unspecified fastest one; networkx's particular tie-breaking order is left out.
- Routes are proved optimal over all walks and simple. With non-negative weights the least weight over walks is also the least over simple paths.
- The weight update takes no lock, keeps no record of incidents already applied, adds a negative penalty as it is, and raises no error for a missing B-C road or for any severity; the model does the same.
