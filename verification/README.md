# TrailBlazer route engine in Dafny

This project models the core of TrailBlazer's backend. TrailBlazer finds
medieval monuments in Catalonia and the shortest hiking routes to them
along known trails. The modelled steps are:

- **Settings and segment files** (`SegmentService`). The segment service:
  - reads its three thresholds from a settings file, falling back to fixed
    defaults;
  - names a search box's data directory after its four coordinates;
  - turns clustered GPS track points into trail segments between cluster
    centres;
  - writes those segments one per line as `lat1,lon1,lat2,lon2`, and reads
    them back.
- **The trail graph** (`GraphService`, over the undirected weighted graph
  of `NxGraph`). The graph service:
  - builds a graph with one edge per segment, weighted by great-circle
    distance;
  - removes nearly straight degree-2 nodes in one sweep, measuring each
    angle with the law of cosines;
  - snaps a point to the first of its nearest nodes.
- **Shortest routes** (`Dijkstra`, with the path vocabulary and proof
  invariants in `Routing`). This is the single-source Dijkstra search that
  answers `shortest_path`.
- **Monuments** (`MonumentService`, `Models`). Monuments are selected by type
  and by an inclusive bounding box, with Python truthiness deciding when the
  default box is used.
- **The web API** (`App`). The API consists of:
  - the monument and segment-preview endpoints;
  - the in-memory job store (`calculate_routes`, `get_route_status`);
  - the background route calculation (`process_route_calculation`). It
    reports progress milestones, builds and simplifies the trail network,
    snaps the start, attaches the monuments within 10 km, and reports a
    shortest distance or "No path available" for each monument.

Foreign code becomes parameters, each with a ghost predicate stating what
the model relies on:

| parameter | predicate | what it replaces |
|---|---|---|
| `Metric` | `IsDistance`: symmetric, non-negative, zero on equal points | haversine |
| `ArcCosine` | `IsArcCosine`: arc cosine in degrees | `degrees(acos(...))` |
| `KMeans` | `IsKMeans`: one label per point, each naming a centre | scikit-learn |
| `NumberFormat` | `IsFaithful`: the printed text of every value a float holds (`isFloat`) is non-empty, free of separators and spaces, and parses back to that value; `IntegerFormat` shows the predicate can be met | Python's float printing and `float()` |
| the monument source | none | the fetch function |
| the segment source | none | the segment source |

Python exceptions become `Result`/`Option` failures carrying their message.
The job store is a `map<string, Job>`.

Behaviour of the code that the model keeps as written:

- **Self-loops.** networkx accepts a segment whose ends are equal, so the
  model allows self-loops. The degree of a node counts a self-loop twice, as
  in networkx.
- **Unreachable monuments.** Every failure to reach a monument is reported
  as distance `None` with the single error "No path available"
  (app.py:387-405). A monument more than 10 km from every node is simply not
  attached.
- **Clustering.** k-means always runs, with `min(n_clusters, len(points))`
  clusters, once there are at least two points. A configured count below one
  makes scikit-learn raise (`InvalidClusterCount`).
- **Neighbour order.** Neighbours are listed in the graph's node order, not
  networkx's edge-insertion order. This is harmless: both the angle
  (`AngleOfSymmetric`) and the new edge's weight are symmetric in the two
  neighbours.
- **Line endings.** The segment file is opened in text mode, so reading it
  uses Python's universal newlines: `\n`, `\r\n` and a lone `\r` each end
  a line and are read as `\n` (`Text.Universal`).
- **Skeleton functions.** `app.py` calls a skeleton `make_graph`,
  `simplify_graph` and `find_routes`/`routes.dist` whose text is not part of
  this model. The background task is modelled with the graph service's
  versions of these, and with `shortest_path` for `routes.dist`.

## Model

| member | source | states |
|---|---|---|
| GraphService.MakeGraphNodes | web/backend/services/graph.py:30-46 | the nodes of the built graph are exactly the endpoints of the segments |
| GraphService.MakeGraph | web/backend/services/graph.py:30-46 | a valid graph holding an edge for every segment, empty for no segments |
| GraphService.MakeGraphEdges | web/backend/services/graph.py:32-43 | there is an edge between two points exactly when some segment joins them, in either direction |
| GraphService.MakeGraphWeights | web/backend/services/graph.py:37-43 | every edge weighs the great-circle distance between its endpoints, recomputed rather than inherited |
| GraphService.MakeGraphOrderIndependent | web/backend/services/graph.py:30-46 | two segment lists joining the same pairs give the same graph, whatever their order and orientation |
| GraphService.MakeGraphEdgeSet | web/backend/services/graph.py:30-46 | the edge set is the set of unordered segment endpoint pairs |
| GraphService.ReversedSegmentSameGraph | web/backend/services/graph.py:30-46 | a segment followed by its reverse gives the same graph as the segment alone |
| GraphService.ReversedSegmentIsOneEdge | web/backend/services/graph.py:30-46 | segments (A,B) and (B,A) give exactly one edge A-B |
| GraphService.AngleOf | web/backend/services/graph.py:110-125 | a zero first or second leg gives 180 degrees; otherwise the clamped law-of-cosines angle lies in [0, 180] |
| GraphService.AngleFromLegs | web/backend/services/graph.py:114-125 | the same guards and range, stated on the three leg lengths |
| GraphService.AngleOfSymmetric | web/backend/services/graph.py:110-125 | the angle at p2 does not depend on which neighbour is named first |
| GraphService.Visit | web/backend/services/graph.py:67-92 | a node that is skipped (neighbour count not two, angle raising, or not within epsilon of straight) leaves the graph unchanged |
| GraphService.Collapse | web/backend/services/graph.py:81-87 | adds no node, and leaves g1-g3 an edge of the given weight |
| GraphService.CollapseEffect | web/backend/services/graph.py:81-87 | collapsing deletes the node and its two edges, adds or re-weights g1-g3, and keeps every other node, edge and weight |
| GraphService.VisitCollapses | web/backend/services/graph.py:69-88 | a collapsing node has exactly two distinct neighbours other than itself and is replaced by an edge between them weighing their distance |
| GraphService.CollapseEdges | web/backend/services/graph.py:81-87 | the edge set after a collapse is the old one minus the two edges at the node, plus g1-g3 |
| GraphService.CollapseEdgeCount | web/backend/services/graph.py:81-87 | a collapse removes two edges when g1-g3 already existed and one otherwise |
| GraphService.VisitRemoves | web/backend/services/graph.py:80-88 | a collapsing visit removes exactly that node, and creates no self-loop |
| GraphService.SweepNodes | web/backend/services/graph.py:64-92 | the nodes removed are distinct and were listed; the remaining nodes are the original ones minus those removed |
| GraphService.SweepEdges | web/backend/services/graph.py:64-92 | each removal takes away one or two edges |
| GraphService.Sweep | web/backend/services/graph.py:67-92 | adds no node, and removes at most one node per visited node, only visited ones |
| GraphService.DegreeTwo | web/backend/services/graph.py:64 | the snapshot lists exactly the nodes of degree two, taken before any removal |
| GraphService.SimplifyGraphShrinks | web/backend/services/graph.py:64-96 | for every graph, self-loops included: the simplified graph is the one-sweep result over the degree-2 snapshot; only snapshot nodes are removed, no self-loop is created, and node and edge counts fall accordingly |
| GraphService.SimplifyGraphKeeps | web/backend/services/graph.py:64-96 | for every graph: every node whose degree is not two survives, no node is added, and neither node nor edge count grows |
| GraphService.SimplifyGraph | web/backend/services/graph.py:49-96 | a valid graph whose nodes are all nodes of the input |
| GraphService.VisitKeepsDistances | web/backend/services/graph.py:86-87 | a visit keeps every weight equal to the great-circle distance between the edge's endpoints |
| GraphService.SimplifiedWeightsAreDistances | web/backend/services/graph.py:30-96 | after building and simplifying, every weight is the great-circle distance of its endpoints, whatever the segments |
| GraphService.SimplifiedNonNegative | web/backend/services/graph.py:30-96 | the built and simplified graph has no negative weight, so Dijkstra applies to it |
| GraphService.NoNodesIffNoSegments | web/backend/services/graph.py:30-96 | the simplified graph has no node exactly when there were no segments |
| GraphService.FindClosestNode | web/backend/services/graph.py:139-151 | `None` exactly for a graph without nodes; otherwise the first node in node order at the least distance, the node `Nearest` names |
| GraphService.Nearest | web/backend/services/graph.py:144-148 | the index a front-to-back scan that moves only on a strictly smaller distance ends on is the first of the nearest |
| GraphService.FirstClosestUnique | web/backend/services/graph.py:144-148 | the strict `<` makes the chosen node unique: the first of the nearest |
| NxGraph.AddEdge | web/backend/services/graph.py:43 | adds missing endpoints at the end of the node order; the edge gets the new weight; all other edges and weights are kept |
| NxGraph.RemoveEdge | web/backend/services/graph.py:81-82 | drops exactly that undirected edge; nodes and other weights are kept |
| NxGraph.RemoveNode | web/backend/services/graph.py:83 | drops the node from the node order and every edge at it; all else is kept |
| NxGraph.AddEdgeNonNegative | web/backend/services/graph.py:43 | adding an edge of non-negative weight keeps every weight non-negative |
| Dijkstra.ShortestPath | web/backend/services/graph.py:173 | fails with node-not-found exactly when the source is missing; a route is a path from start to end of least total weight; no-path means no path exists |
| Dijkstra.PickClosest | web/backend/services/graph.py:173 | picks an unsettled reached node of least tentative distance, or reports that none is left |
| Routing.ClosestIsFinal | web/backend/services/graph.py:173 | with non-negative weights, the closest unsettled node's tentative distance is its shortest distance |
| Routing.PathWeightNonNegative | web/backend/services/graph.py:173 | without negative weights no path weighs less than zero |
| SegmentService.LoadSettings | web/backend/services/segment_service.py:31-63 | the backend file wins over the skeleton file; each key present overrides its default; no file or a raising file gives 300, 0.1, 500 |
| SegmentService.SettingsFileChoice | web/backend/services/segment_service.py:34-41 | only one file is read: a backend file hides the skeleton file, and without it the skeleton file acts as the backend one |
| SegmentService.SettingsWithoutKeys | web/backend/services/segment_service.py:50-63 | a file that raises and a file holding none of the keys both act as no file |
| SegmentService.DirectoryNameInjective | web/backend/services/segment_service.py:65-67 | two boxes with float coordinates share a directory name exactly when they are the same box |
| SegmentService.DirectoryName | web/backend/services/segment_service.py:65-67 | for float coordinates, the name splits back at its underscores into exactly the four printed coordinates |
| SegmentService.IntegerFormatIsFaithful | web/backend/services/segment_service.py:65-67 | a format exists that meets `IsFaithful`: integers printed in decimal and read back, so the round-trip lemmas are not vacuous |
| SegmentService.ExtractSegments | web/backend/services/segment_service.py:165-185 | the segment set holds exactly the oriented centre pairs of consecutive points that pass all five tests, and at most one per pair |
| SegmentService.ProducedSegmentIsShort | web/backend/services/segment_service.py:174-185 | every segment joins two different cluster centres closer than the distance threshold |
| SegmentService.DownloadSegments | web/backend/services/segment_service.py:148-199 | fewer than two points give no segments and no clustering; otherwise a count below one fails, and any other count runs k-means with exactly min(n_clusters, n) clusters and extracts the segments its labels link |
| SegmentService.ParseFormattedLine | web/backend/services/segment_service.py:194-196 | a written line of float coordinates, newline included, parses back to its segment |
| SegmentService.FormatSegment | web/backend/services/segment_service.py:194-196 | for float coordinates, a line holds no `\n` or `\r` and splits back at its commas into the four printed coordinates |
| SegmentService.ParseLineFields | web/backend/services/segment_service.py:214-216 | a line reads as a segment exactly when it has four comma-separated fields that all convert, and the segment holds them in field order |
| SegmentService.ParseLinesSpec | web/backend/services/segment_service.py:213-217 | parsing fails exactly when some line fails, and otherwise gives one segment per line in order |
| SegmentService.LoadSegments | web/backend/services/segment_service.py:201-224 | a missing file or any unparsable line gives the empty list; when every line parses, one segment per line, in file order |
| SegmentService.LoadSavedSegments | web/backend/services/segment_service.py:194-217 | loading the file that was written gives back the segments written, in order, for float coordinates |
| SegmentService.WrittenLines | web/backend/services/segment_service.py:194-196 | the written file is read as one line per segment, each the formatted segment and a newline |
| SegmentService.LoadWithLineEnding | web/backend/services/segment_service.py:211-217 | a file of the formatted lines ended by `\n`, `\r\n` or `\r` loads the same segments, in order |
| SegmentService.LoadSavedSet | web/backend/services/segment_service.py:194-217 | writing a set of float-coordinate segments in any order and loading it gives back the same segments, as many as the set holds |
| Text.SplitJoin | web/backend/services/segment_service.py:214 | splitting joined fields that hold no separator gives back the fields |
| Text.JoinSplit | web/backend/services/segment_service.py:214 | joining the pieces of a split gives back the text |
| Text.StripNewline | web/backend/services/segment_service.py:214 | stripping a line with no outer spaces removes exactly its newline |
| Text.LinesOfTerminated | web/backend/services/segment_service.py:212-213 | iterating over `\n`-terminated lines free of `\n` and `\r` gives each line back with its newline |
| Text.LinesOfEndedBy | web/backend/services/segment_service.py:212-213 | lines free of `\n` and `\r` ended by `\n`, `\r\n` or `\r` all read back as the same lines, each with `\n` |
| Text.UniversalEndedBy | web/backend/services/segment_service.py:212-213 | universal-newline reading turns each of the three line endings into `\n` |
| Text.Lines | web/backend/services/segment_service.py:212-213 | a text has no lines exactly when it is empty, and no line holds a `\r` |
| Wrappers.AllSomeSpec | web/backend/services/segment_service.py:211-217 | a per-line conversion over all lines fails exactly when one line fails, and otherwise gives one result per line, in order |
| Models.FilterInBox | web/backend/app.py:164-169 | keeps exactly the monuments inside the box, bounds inclusive, never more than given |
| Models.FilterIsSubsequence | web/backend/app.py:164-177 | the kept monuments keep their original order |
| Models.FilterAppend | web/backend/app.py:164-177 | filtering is done element by element: filtering a concatenation filters each part |
| MonumentService.SearchBox | web/backend/services/monument_service.py:43-52 | the caller's box when all four coordinates are truthy, otherwise the default box |
| MonumentService.MapType | web/backend/services/monument_service.py:55 | a known short type becomes its full name; any other passes through |
| MonumentService.MapTypeIdempotent | web/backend/services/monument_service.py:55 | when no full name is a short name, mapping twice equals mapping once |
| MonumentService.GetMonumentsByTypeAndArea | web/backend/services/monument_service.py:37-100 | fails with the fetch's message exactly when the fetch raises; otherwise the fetched monuments inside the box, in order, each as many times as it was fetched |
| App.GetMonumentsByType | web/backend/app.py:135-191 | a raising fetch becomes a 500 with its message; otherwise the monuments of the mapped type inside the given or default box, in order and each as many times as fetched, with their count |
| App.EndpointMatchesService | web/backend/app.py:143-180 | with non-zero coordinates, and with no box, the endpoint selects exactly what the monument service selects |
| App.PreviewSegments | web/backend/app.py:217-264 | the first min(100, n) segments, the total count and the preview count; a raising source becomes a 500 |
| App.CalculateRoutes | web/backend/app.py:193-207 | registers the job pending at 0 with no result or error; every other job is untouched |
| App.GetRouteStatus | web/backend/app.py:209-215 | a 404 "Job not found" exactly when the id is unknown, otherwise the stored job |
| App.SubmitThenPoll | web/backend/app.py:193-215 | polling right after submitting finds the new job pending at 0; every other id reads as before |
| App.PolledLifecycle | web/backend/app.py:266-423 | a run reporting rising milestones from 10 and finishing at or above the last goes pending, processing, finished, with the same id |
| App.RunLifecycle | web/backend/app.py:266-423 | every run that reports a prefix of the milestones and then finishes follows the lifecycle |
| App.ConnectMonument | web/backend/app.py:356-370 | a monument within 10 km of some node is joined to the first nearest node with an edge weighing their distance; otherwise the graph is unchanged |
| App.ConnectMonuments | web/backend/app.py:353-370 | the result is `AttachAll`, the monuments attached one by one in order; the trail nodes are kept, only monument locations are added, and every monument within 10 km of a trail node is attached; no weight is negative |
| App.AttachedEdges | web/backend/app.py:353-370 | attaching adds no edge between two trail nodes and re-weights none: every edge is a trail edge with its weight, or touches a monument and weighs the distance between its ends |
| App.AttachEdges | web/backend/app.py:359-367 | one attachment keeps every earlier edge and weight and adds at most the edge at the monument, weighed by distance |
| App.Report | web/backend/app.py:388-405 | a monument's entry copies name and location, and either holds a shortest route length or "No path available" when none exists |
| App.MonumentDistances | web/backend/app.py:386-405 | one entry per monument, in order, each reporting as above |
| App.RoutesCount | web/backend/app.py:411 | never more than the entries, and exactly as many when every monument has a distance |
| App.RoutesCountIsReached | web/backend/app.py:411 | the routes count is the number of entries with a distance, and equals the entry count exactly when every monument was reached |
| App.ReachedBound | web/backend/app.py:411 | at most one routes count per monument, all of them exactly when every monument was reached |
| App.ProcessRouteCalculation | web/backend/app.py:266-423 | a raising segment source fails at 30; no segment fails at 50 with "No nodes found in graph"; otherwise the start snaps to the first nearest node |
| App.TrailNetwork | web/backend/app.py:296-300 | a valid graph, empty exactly when there are no segments, whose nodes are segment endpoints and whose weights are non-negative distances |
| App.FetchAndRoute | web/backend/app.py:319-351 | a raising monument source fails at 70; no monument in the box completes with count 0 and the message |
| App.Route | web/backend/app.py:353-415 | the network is `AttachAll` of the monuments in the box, raising exports fail at 90, otherwise the job completes with the result entries, the count and both URLs |

## Left out

- I/O is not modelled. Reading and writing files, the OpenStreetMap download
  (`_download_points`, `_load_points`), logging and `print` are out. Whether
  a file exists and what it holds are inputs.
- Timestamps are not parsed. The time test in the segment loop compares the
  gap in seconds as a real.
- Haversine, `acos`, k-means and Python's float printing and parsing are
  parameters, with the properties the model relies on stated as predicates.
  Which reals a Python float holds is the parameter `isFloat`; the
  round-trip properties are stated for coordinates it accepts.
- NaN, infinite values and signed zero are not modelled. In particular the
  `float('inf')` start of the nearest-node scan is modelled by "no node yet".
- SegmentService.DirectoryNameInjective: reals have one zero, so the model
  does not see that Python prints `0.0` and `-0.0` differently and gives
  boxes equal as floats two directory names.
- `MonumentService.SearchBox` takes the default box as a parameter because
  the configuration module that defines it is not part of this model.
- `MonumentService.GetMonumentsByTypeAndArea` takes the type mapping and
  default box as parameters for the same reason.
- Request validation, JSON shapes and HTTP framing are out. FastAPI and
  Pydantic are left out apart from the status codes and messages.
- The `os.chdir` bookkeeping is out.
- The concurrency of the background task is out. Each run is sequential,
  and the job store is updated in one step per milestone.
- `uuid.uuid4()` is out: the job id is an input.
- The PNG and KML exports are reduced to whether they raise
  (`Services.exportError`).
- The skeleton's `find_routes` is replaced by one shortest-path search per
  monument.
- App.ProcessRouteCalculation: requires the distance to be a proper
  distance (`IsDistance`). Without it, Dijkstra's non-negative weights could
  not be established.
- App.ProcessRouteCalculation: assumes any node found is truthy. This holds
  for the coordinate tuples of the graph service, since a non-empty tuple
  is always truthy.
- App.ProcessRouteCalculation: exceptions that graph building, simplifying
  or routing could raise for other reasons are not modelled.
- Dijkstra.ShortestPath: breaks ties by taking the first waiting node in
  node order, where networkx uses a heap. The length is the same, but
  among equally short paths the one returned may differ. The contract
  promises only a shortest path.
- Dijkstra.ShortestPath: a missing target that differs from the source is
  reported as no path, because the search never reaches it.
- SegmentService.DownloadSegments: returns the extracted set. Its size is
  the count the source returns, and writing the set is `SegmentsText` in
  some order.
