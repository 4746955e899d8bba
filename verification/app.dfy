/** The REST layer: the monument and segment-preview endpoints, the in-memory
    job store, and the background route calculation, taken one request at a
    time. */
module App {
  import opened Wrappers
  import opened Models
  import opened NxGraph
  import opened GraphService
  import opened Routing
  import opened Dijkstra
  import opened MonumentService

  /** The search area used when a request names none: Catalonia. */
  const DefaultBox: Box := Box(Coord(40.475518, 0.055361), Coord(42.903476, 3.494081))

  /** The short monument type names the clients send, and the full names the
      monument source files them under. */
  const TypeMapping: map<string, string> := map[
    "militars" := "edificacions-de-caracter-militar",
    "religiosos" := "edificacions-de-caracter-religios",
    "civils" := "edificacions-de-caracter-civil"]

  /** The angle tolerance, in degrees, the route calculation simplifies with. */
  const AngleThreshold: real := 10.0

  /** A monument is attached to the trail network only when its nearest node
      is strictly closer than this many kilometres. */
  const ConnectLimit: real := 10.0

  /** The segment preview returns at most this many segments. */
  const PreviewLimit: nat := 100

  const NoNodesMessage: string := "No nodes found in graph"
  const NoMonumentsMessage: string := "No monuments found in the specified area"
  const NoPathMessage: string := "No path available"
  const JobNotFound: string := "Job not found"

  /** An `HTTPException`: a status code and a detail message. */
  datatype HttpError = HttpError(status: int, detail: string)

  // ---------------------------------------------------------------------
  // POST /monuments/{monument_type}
  // ---------------------------------------------------------------------

  /** The body of a monument query: the monuments found and their number. */
  datatype MonumentList = MonumentList(monuments: seq<Monument>, count: nat)

  /** `get_monuments_by_type`: the fetched monuments of the mapped type that
      lie in the requested box (the default box when the request has none),
      inclusive on every bound and in fetch order; a fetch that raises becomes
      a 500 carrying the exception's message. */
  function GetMonumentsByType(monumentType: string, box: Option<Box>, fetch: Fetch): (r: Result<MonumentList, HttpError>)
    ensures var fetched := fetch(MapType(TypeMapping, monumentType));
      && (r.Failure? <==> fetched.Failure?)
      && (r.Failure? ==> r.error == HttpError(500, fetched.error))
      && (r.Success? ==>
            var area := box.GetOr(DefaultBox);
            && r.value.count == |r.value.monuments| <= |fetched.value|
            && (forall m :: m in r.value.monuments <==> m in fetched.value && InBox(area, m.location))
            && (forall m :: multiset(r.value.monuments)[m] == if InBox(area, m.location) then multiset(fetched.value)[m] else 0)
            && IsSubsequence(r.value.monuments, fetched.value))
  {
    var area := box.GetOr(DefaultBox);
    var fetched := fetch(MapType(TypeMapping, monumentType));
    if fetched.Failure? then Failure(HttpError(500, fetched.error))
    else
      var found := FilterInBox(fetched.value, area);
      FilterIsSubsequence(fetched.value, area);
      FilterCounts(fetched.value, area);
      Success(MonumentList(found, |found|))
  }

  /** The endpoint and the monument service agree: a box whose four
      coordinates are all non-zero selects the same monuments through either,
      and so does a missing box, which both replace by the default. */
  lemma EndpointMatchesService(monumentType: string, box: Box, fetch: Fetch)
    requires box.bottomLeft.lat != 0.0 && box.bottomLeft.lon != 0.0
    requires box.topRight.lat != 0.0 && box.topRight.lon != 0.0
    ensures var viaService := GetMonumentsByTypeAndArea(monumentType,
              Some(box.bottomLeft.lat), Some(box.bottomLeft.lon), Some(box.topRight.lat), Some(box.topRight.lon),
              TypeMapping, DefaultBox, fetch);
      var viaEndpoint := GetMonumentsByType(monumentType, Some(box), fetch);
      && (viaService.Success? <==> viaEndpoint.Success?)
      && (viaService.Success? ==> viaService.value == viaEndpoint.value.monuments)
    ensures var viaService := GetMonumentsByTypeAndArea(monumentType, None, None, None, None, TypeMapping, DefaultBox, fetch);
      var viaEndpoint := GetMonumentsByType(monumentType, None, fetch);
      && (viaService.Success? <==> viaEndpoint.Success?)
      && (viaService.Success? ==> viaService.value == viaEndpoint.value.monuments)
  {
    var corners := Box(Coord(box.bottomLeft.lat, box.bottomLeft.lon), Coord(box.topRight.lat, box.topRight.lon));
    assert corners == box;
  }

  // ---------------------------------------------------------------------
  // GET /segments/preview
  // ---------------------------------------------------------------------

  /** The body of a preview: the first segments, the total found and the
      number shown. */
  datatype Preview = Preview(segments: seq<Segment>, totalCount: nat, previewCount: nat)

  /** `preview_segments`: the first `PreviewLimit` segments the segment
      source found for the box, with both counts; a source that raises becomes
      a 500. */
  function PreviewSegments(found: Result<seq<Segment>, string>): (r: Result<Preview, HttpError>)
    ensures r.Failure? <==> found.Failure?
    ensures r.Failure? ==> r.error == HttpError(500, found.error)
    ensures r.Success? ==>
      && r.value.segments <= found.value
      && r.value.totalCount == |found.value|
      && r.value.previewCount == |r.value.segments| <= PreviewLimit
      && (|found.value| <= PreviewLimit ==> r.value.segments == found.value)
      && (|found.value| >= PreviewLimit ==> r.value.previewCount == PreviewLimit)
  {
    if found.Failure? then Failure(HttpError(500, found.error))
    else
      var shown := if |found.value| <= PreviewLimit then found.value else found.value[..PreviewLimit];
      Success(Preview(shown, |found.value|, |shown|))
  }

  // ---------------------------------------------------------------------
  // The job store
  // ---------------------------------------------------------------------

  datatype Status = Pending | Processing | Completed | Failed

  /** One monument of a finished calculation: its name and location, and
      either its route length or the reason there is none. */
  datatype MonumentResult = MonumentResult(name: string, location: Coord, distance: Option<real>, error: Option<string>)

  /** The result of a finished calculation. The no-monument outcome carries a
      message and no image links; a routed outcome carries the links and no
      message. */
  datatype JobResult = JobResult(routesCount: nat, monuments: seq<MonumentResult>, message: Option<string>,
                                 pngUrl: Option<string>, kmlUrl: Option<string>)

  /** A `JobStatus` record. */
  datatype Job = Job(jobId: string, status: Status, progress: real, result: Option<JobResult>, error: Option<string>)

  type Jobs = map<string, Job>

  /** A job just registered and not yet started. */
  function NewJob(id: string): Job
  {
    Job(id, Pending, 0.0, None, None)
  }

  /** `calculate_routes`: registers a pending job at progress 0 under the
      fresh id (a `uuid4`, here an input) and leaves every other job alone. */
  function CalculateRoutes(jobs: Jobs, id: string): (r: Jobs)
    ensures id in r && r[id].jobId == id && r[id].status == Pending && r[id].progress == 0.0
    ensures r[id].result.None? && r[id].error.None?
    ensures forall k :: k != id ==> (k in r <==> k in jobs)
    ensures forall k :: k in jobs && k != id ==> r[k] == jobs[k]
  {
    jobs[id := NewJob(id)]
  }

  /** `get_route_status`: the stored job, or 404 "Job not found" exactly when
      the id is unknown. */
  function GetRouteStatus(jobs: Jobs, id: string): (r: Result<Job, HttpError>)
    ensures r.Failure? <==> id !in jobs
    ensures r.Failure? ==> r.error == HttpError(404, JobNotFound)
    ensures r.Success? ==> r.value == jobs[id]
  {
    if id in jobs then Success(jobs[id]) else Failure(HttpError(404, JobNotFound))
  }

  /** Polling right after submitting finds the new job pending at progress
      0, and every other id reads as it did before. */
  lemma SubmitThenPoll(jobs: Jobs, id: string, other: string)
    ensures GetRouteStatus(CalculateRoutes(jobs, id), id) == Success(NewJob(id))
    ensures other != id ==> GetRouteStatus(CalculateRoutes(jobs, id), other) == GetRouteStatus(jobs, other)
  {
  }

  /** The progress values a running job reports. */
  const Milestones: set<real> := {10.0, 30.0, 50.0, 70.0, 85.0, 90.0}

  /** A job is over: completed at 100 with a result, or failed with an
      error. */
  predicate Finished(j: Job)
  {
    || (j.status == Completed && j.progress == 100.0 && j.result.Some?)
    || (j.status == Failed && j.error.Some?)
  }

  /** The milestones in the order the background task reports them. */
  const Reported: seq<real> := [10.0, 30.0, 50.0, 70.0, 85.0, 90.0]

  /** Each value is strictly larger than the one before. */
  ghost predicate Rising(ps: seq<real>)
  {
    forall i, j :: 0 <= i < j < |ps| ==> ps[i] < ps[j]
  }

  /** A job as the background task leaves it at a progress milestone. */
  function Advance(j: Job, p: real): Job
  {
    j.(status := Processing, progress := p)
  }

  /** The job states a client polling `get_route_status` sees for one job:
      the registered job, the processing states at each milestone, and the
      finished job. */
  function Polled(job: Job, progress: seq<real>, final: Job): (r: seq<Job>)
    ensures |r| == |progress| + 2 && r[0] == job && r[|r| - 1] == final
    ensures forall i :: 0 <= i < |progress| ==> r[i + 1] == Advance(job, progress[i])
  {
    [job] + seq(|progress|, i requires 0 <= i < |progress| => Advance(job, progress[i])) + [final]
  }

  /** The job lifecycle: pending at 0, then processing at milestones of
      strictly rising progress, then finished without going back; the job
      keeps its id throughout. */
  ghost predicate Lifecycle(states: seq<Job>)
  {
    && |states| >= 2
    && states[0].status == Pending && states[0].progress == 0.0
    && (forall i :: 0 < i < |states| - 1 ==> states[i].status == Processing && states[i].progress in Milestones)
    && (forall i :: 0 <= i < |states| ==> states[i].jobId == states[0].jobId)
    && (forall i, j :: 0 <= i < j < |states| - 1 ==> states[i].progress < states[j].progress)
    && (forall i :: 0 <= i < |states| ==> states[i].progress <= states[|states| - 1].progress)
    && Finished(states[|states| - 1])
  }

  /** A registered job run by the background task goes through the whole
      lifecycle. */
  lemma PolledLifecycle(job: Job, progress: seq<real>, final: Job)
    requires job.status == Pending && job.progress == 0.0
    requires progress != [] && progress[0] == 10.0 && Rising(progress)
    requires forall i :: 0 <= i < |progress| ==> progress[i] in Milestones
    requires final.jobId == job.jobId && Finished(final) && final.progress >= progress[|progress| - 1]
    ensures Lifecycle(Polled(job, progress, final))
  {
    var states := Polled(job, progress, final);
    var last := |states| - 1;
    forall i, j | 0 <= i < j < last ensures states[i].progress < states[j].progress {
      if i > 0 {
        assert states[i] == Advance(job, progress[i - 1]);
        assert states[j] == Advance(job, progress[j - 1]);
      } else {
        assert states[j] == Advance(job, progress[j - 1]);
        assert progress[0] <= progress[j - 1];
      }
    }
    forall i | 0 <= i < |states| ensures states[i].progress <= final.progress {
      if 0 < i < last {
        assert states[i] == Advance(job, progress[i - 1]);
        assert progress[i - 1] <= progress[|progress| - 1];
      }
    }
  }

  /** The background task reports its milestones in rising order. */
  lemma ReportedInOrder()
    ensures Rising(Reported) && Reported[0] == 10.0
    ensures forall i :: 0 <= i < |Reported| ==> Reported[i] in Milestones
  {
  }

  /** Any run that reports a prefix of the milestones and then finishes at or
      above the last one reported goes through the whole lifecycle. */
  lemma RunLifecycle(job: Job, progress: seq<real>, final: Job)
    requires job.status == Pending && job.progress == 0.0
    requires 1 <= |progress| <= |Reported| && progress == Reported[..|progress|]
    requires final.jobId == job.jobId && Finished(final) && final.progress >= progress[|progress| - 1]
    ensures Lifecycle(Polled(job, progress, final))
  {
    ReportedInOrder();
    PolledLifecycle(job, progress, final);
  }

  // ---------------------------------------------------------------------
  // The background route calculation
  // ---------------------------------------------------------------------

  /** A `RouteRequest`: where to start, where to look, and which monuments. */
  datatype RouteRequest = RouteRequest(startPoint: Coord, searchBox: Box, monumentType: string)

  /** The foreign pieces the background task calls: the segment source for a
      box, the monument source, the outcome of the two image exports (the
      message of the exception they raised, if any), the great-circle
      distance and the arc cosine in degrees. */
  datatype Services = Services(getSegments: Box -> Result<seq<Segment>, string>, fetch: Fetch,
                               exportError: Option<string>, dist: Metric, acosDeg: ArcCosine)

  /** The trail network a calculation routes over: the graph of the segments,
      simplified with the application's angle threshold. */
  function TrailNetwork(segs: seq<Segment>, env: Services): (r: Graph)
    ensures Valid(r)
    ensures r.nodes == [] <==> segs == []
    ensures forall x :: x in r.adj ==> IsEndpoint(segs, x)
    ensures IsDistance(env.dist) ==> NonNegative(r) && WeightsAreDistances(r, env.dist)
  {
    var g := MakeGraph(segs, env.dist);
    var angle := GreatCircleAngle(env.dist, env.acosDeg);
    var r := SimplifyGraph(g, AngleThreshold, angle, env.dist);
    NoNodesIffNoSegments(segs, AngleThreshold, angle, env.dist);
    MakeGraphNodes(segs, env.dist);
    assert IsDistance(env.dist) ==> NonNegative(r) && WeightsAreDistances(r, env.dist) by {
      if IsDistance(env.dist) {
        SimplifiedNonNegative(segs, AngleThreshold, angle, env.dist);
        SimplifiedWeightsAreDistances(segs, AngleThreshold, angle, env.dist);
      }
    }
    r
  }

  /** Some node of `ns` lies strictly within `ConnectLimit` of `p`. */
  ghost predicate WithinReach(ns: seq<Coord>, p: Coord, dist: Metric)
  {
    exists i :: 0 <= i < |ns| && dist(p, ns[i]) < ConnectLimit
  }

  /** The graph with monument `m` attached: an edge from its location to the
      first of the nodes nearest to it, weighted by that distance, when that
      distance is under `ConnectLimit`; otherwise `g` itself. */
  function Attach(g: Graph, m: Monument, dist: Metric): (r: Graph)
    requires Valid(g)
    ensures Valid(r)
  {
    if g.nodes == [] then g
    else
      var n := g.nodes[Nearest(g.nodes, m.location, dist)];
      if dist(m.location, n) < ConnectLimit then AddEdge(g, m.location, n, dist(m.location, n)) else g
  }

  /** The monuments attached one after another, each to the graph the
      earlier ones left. */
  function AttachAll(g: Graph, ms: seq<Monument>, dist: Metric): (r: Graph)
    requires Valid(g)
    ensures Valid(r)
    decreases |ms|
  {
    if ms == [] then g else Attach(AttachAll(g, ms[..|ms| - 1], dist), ms[|ms| - 1], dist)
  }

  /** Every edge of `r` is an edge of `g` with its weight, or has one end in
      `ends` and weighs the distance between its ends. */
  ghost predicate EdgesFrom(g: Graph, r: Graph, ends: set<Coord>, dist: Metric)
  {
    forall a, b :: HasEdge(r, a, b) ==>
      || (HasEdge(g, a, b) && r.adj[a][b] == g.adj[a][b])
      || ((a in ends || b in ends) && r.adj[a][b] == dist(a, b))
  }

  /** The locations of the monuments of `ms`. */
  ghost function Locations(ms: seq<Monument>): set<Coord>
  {
    set m | m in ms :: m.location
  }

  /** Attaching monuments adds no edge between two trail nodes and re-weights
      none: every edge afterwards is an edge of the trail network with its
      weight unchanged, or has a monument at one end and weighs the distance
      between its ends. */
  lemma {:induction false} AttachedEdges(g: Graph, ms: seq<Monument>, dist: Metric)
    requires Valid(g) && IsDistance(dist)
    ensures EdgesFrom(g, AttachAll(g, ms, dist), Locations(ms), dist)
    decreases |ms|
  {
    if ms != [] {
      var init := ms[..|ms| - 1];
      var m := ms[|ms| - 1];
      var prev := AttachAll(g, init, dist);
      AttachedEdges(g, init, dist);
      AttachEdges(prev, m, dist);
      assert Locations(ms) == Locations(init) + {m.location} by {
        assert ms == init + [m];
      }
      EdgesFromStep(g, prev, Attach(prev, m, dist), Locations(init), m.location, dist);
    }
  }

  /** Chaining: edges from `g` through `prev`, then from `prev` through `r`. */
  lemma EdgesFromStep(g: Graph, prev: Graph, r: Graph, ends: set<Coord>, p: Coord, dist: Metric)
    requires EdgesFrom(g, prev, ends, dist) && EdgesFrom(prev, r, {p}, dist)
    ensures EdgesFrom(g, r, ends + {p}, dist)
  {
    forall a, b | HasEdge(r, a, b)
      ensures || (HasEdge(g, a, b) && r.adj[a][b] == g.adj[a][b])
              || ((a in ends + {p} || b in ends + {p}) && r.adj[a][b] == dist(a, b))
    {
      if HasEdge(prev, a, b) && r.adj[a][b] == prev.adj[a][b] {
        assert HasEdge(prev, a, b);
      }
    }
  }

  /** One attachment: every edge afterwards is an earlier edge with its weight,
      or has `m` at one end and weighs the distance between its ends. */
  lemma AttachEdges(g: Graph, m: Monument, dist: Metric)
    requires Valid(g) && IsDistance(dist)
    ensures EdgesFrom(g, Attach(g, m, dist), {m.location}, dist)
  {
    var r := Attach(g, m, dist);
    if r != g {
      var n := g.nodes[Nearest(g.nodes, m.location, dist)];
      assert r == AddEdge(g, m.location, n, dist(m.location, n));
      DistanceEdge(g, r, m.location, n, dist);
    }
  }

  /** A graph that agrees with `g` except for one edge `u`–`v` weighted by the
      distance between its ends. */
  lemma DistanceEdge(g: Graph, r: Graph, u: Coord, v: Coord, dist: Metric)
    requires Symmetric(r) && IsDistance(dist)
    requires HasEdge(r, u, v) && r.adj[u][v] == dist(u, v)
    requires forall a, b :: HasEdge(r, a, b) && !SameEdge(a, b, u, v) ==>
      HasEdge(g, a, b) && r.adj[a][b] == g.adj[a][b]
    ensures EdgesFrom(g, r, {u}, dist)
  {
    assert r.adj[v][u] == r.adj[u][v];
    assert dist(v, u) == dist(u, v);
  }

  /** Attaching one monument: an edge from its location to the first of the
      nodes nearest to it, weighted by that distance, exactly when that
      distance is under `ConnectLimit`; otherwise the graph is unchanged. */
  method ConnectMonument(g: Graph, m: Monument, dist: Metric) returns (g2: Graph, link: Option<Coord>)
    requires Valid(g)
    ensures Valid(g2)
    ensures g2 == Attach(g, m, dist)
    ensures link.Some? <==> WithinReach(g.nodes, m.location, dist)
    ensures link.Some? ==>
      && (exists k :: FirstClosest(g.nodes, m.location, dist, k) && g.nodes[k] == link.value)
      && g2 == AddEdge(g, m.location, link.value, dist(m.location, link.value))
    ensures link.None? ==> g2 == g
    ensures forall x :: x in g2.adj <==> x in g.adj || (link.Some? && x == m.location)
    ensures |g.nodes| <= |g2.nodes| && g2.nodes[..|g.nodes|] == g.nodes
    ensures NonNegative(g) && IsDistance(dist) ==> NonNegative(g2)
  {
    var closest := FindClosestNode(g, m.location, dist);
    if closest.Some? && dist(m.location, closest.value) < ConnectLimit {
      ghost var k :| FirstClosest(g.nodes, m.location, dist, k) && g.nodes[k] == closest.value;
      FirstClosestUnique(g.nodes, m.location, dist, k, Nearest(g.nodes, m.location, dist));
      link := closest;
      g2 := AddEdge(g, m.location, closest.value, dist(m.location, closest.value));
      if NonNegative(g) && IsDistance(dist) {
        AddEdgeNonNegative(g, m.location, closest.value, dist(m.location, closest.value));
      }
    } else {
      if closest.Some? {
        ghost var k :| FirstClosest(g.nodes, m.location, dist, k) && g.nodes[k] == closest.value;
        FirstClosestUnique(g.nodes, m.location, dist, k, Nearest(g.nodes, m.location, dist));
        forall i | 0 <= i < |g.nodes| ensures dist(m.location, g.nodes[i]) >= ConnectLimit {
        }
      }
      link := None;
      g2 := g;
    }
  }

  /** The monument-connection loop: attaches each monument in turn to the
      graph as it stands, so a monument may attach to one attached before it.
      The result is the fold `AttachAll`; it stays a valid graph of
      non-negative weights that keeps every node in its place, adds only
      monument locations, and holds every monument with a node of the input
      graph within reach. */
  method ConnectMonuments(g: Graph, ms: seq<Monument>, dist: Metric) returns (g2: Graph)
    requires Valid(g) && NonNegative(g) && IsDistance(dist)
    ensures g2 == AttachAll(g, ms, dist)
    ensures Valid(g2) && NonNegative(g2)
    ensures |g.nodes| <= |g2.nodes| && g2.nodes[..|g.nodes|] == g.nodes
    ensures forall x :: x in g.adj ==> x in g2.adj
    ensures forall x :: x in g2.adj && x !in g.adj ==> exists m :: m in ms && m.location == x
    ensures forall m :: m in ms && WithinReach(g.nodes, m.location, dist) ==> m.location in g2.adj
  {
    g2 := g;
    assert ms[..0] == [];
    for i := 0 to |ms|
      invariant g2 == AttachAll(g, ms[..i], dist)
      invariant Valid(g2) && NonNegative(g2)
      invariant |g.nodes| <= |g2.nodes| && g2.nodes[..|g.nodes|] == g.nodes
      invariant forall x :: x in g.adj ==> x in g2.adj
      invariant forall x :: x in g2.adj && x !in g.adj ==> exists m :: m in ms[..i] && m.location == x
      invariant forall j :: 0 <= j < i && WithinReach(g.nodes, ms[j].location, dist) ==> ms[j].location in g2.adj
    {
      g2 := ConnectStep(g, g2, ms, i, dist);
    }
    assert ms[..|ms|] == ms;
    forall m | m in ms && WithinReach(g.nodes, m.location, dist) ensures m.location in g2.adj {
      ghost var j :| 0 <= j < |ms| && ms[j] == m;
    }
  }

  /** One turn of the connection loop, with the facts the loop keeps. */
  method ConnectStep(g: Graph, h: Graph, ms: seq<Monument>, i: nat, dist: Metric) returns (h2: Graph)
    requires i < |ms| && Valid(h) && NonNegative(h) && IsDistance(dist)
    requires |g.nodes| <= |h.nodes| && h.nodes[..|g.nodes|] == g.nodes
    requires forall x :: x in g.adj ==> x in h.adj
    requires forall x :: x in h.adj && x !in g.adj ==> exists m :: m in ms[..i] && m.location == x
    requires forall j :: 0 <= j < i && WithinReach(g.nodes, ms[j].location, dist) ==> ms[j].location in h.adj
    requires Valid(g) && h == AttachAll(g, ms[..i], dist)
    ensures h2 == AttachAll(g, ms[..i + 1], dist)
    ensures Valid(h2) && NonNegative(h2)
    ensures |g.nodes| <= |h2.nodes| && h2.nodes[..|g.nodes|] == g.nodes
    ensures forall x :: x in g.adj ==> x in h2.adj
    ensures forall x :: x in h2.adj && x !in g.adj ==> exists m :: m in ms[..i + 1] && m.location == x
    ensures forall j :: 0 <= j < i + 1 && WithinReach(g.nodes, ms[j].location, dist) ==> ms[j].location in h2.adj
  {
    var link;
    h2, link := ConnectMonument(h, ms[i], dist);
    AttachNext(g, ms, i, dist);
    ConnectedFacts(g, h, h2, ms, i, link.Some?, dist);
  }

  /** The fold over the first `i + 1` monuments is one more attachment after
      the fold over the first `i`. */
  lemma AttachNext(g: Graph, ms: seq<Monument>, i: nat, dist: Metric)
    requires Valid(g) && i < |ms|
    ensures AttachAll(g, ms[..i + 1], dist) == Attach(AttachAll(g, ms[..i], dist), ms[i], dist)
  {
    assert ms[..i + 1][..i] == ms[..i];
  }

  /** The loop facts carried over one attachment, from what `ConnectMonument`
      promises about it. */
  lemma ConnectedFacts(g: Graph, h: Graph, h2: Graph, ms: seq<Monument>, i: nat, linked: bool, dist: Metric)
    requires i < |ms|
    requires |g.nodes| <= |h.nodes| && h.nodes[..|g.nodes|] == g.nodes
    requires forall x :: x in g.adj ==> x in h.adj
    requires forall x :: x in h.adj && x !in g.adj ==> exists m :: m in ms[..i] && m.location == x
    requires forall j :: 0 <= j < i && WithinReach(g.nodes, ms[j].location, dist) ==> ms[j].location in h.adj
    requires linked <==> WithinReach(h.nodes, ms[i].location, dist)
    requires forall x :: x in h2.adj <==> x in h.adj || (linked && x == ms[i].location)
    requires |h.nodes| <= |h2.nodes| && h2.nodes[..|h.nodes|] == h.nodes
    ensures |g.nodes| <= |h2.nodes| && h2.nodes[..|g.nodes|] == g.nodes
    ensures forall x :: x in g.adj ==> x in h2.adj
    ensures forall x :: x in h2.adj && x !in g.adj ==> exists m :: m in ms[..i + 1] && m.location == x
    ensures forall j :: 0 <= j < i + 1 && WithinReach(g.nodes, ms[j].location, dist) ==> ms[j].location in h2.adj
  {
    var m := ms[i];
    assert ms[..i + 1] == ms[..i] + [m];
    assert h2.nodes[..|g.nodes|] == h.nodes[..|g.nodes|];
    if WithinReach(g.nodes, m.location, dist) {
      var k :| 0 <= k < |g.nodes| && dist(m.location, g.nodes[k]) < ConnectLimit;
      assert h.nodes[k] == g.nodes[k];
      assert WithinReach(h.nodes, m.location, dist);
    }
  }

  /** `r` is how the calculation reports monument `m` when routing from
      `start` in `g`: name and location copied, and either the length of a
      shortest route to it or "No path available" when there is no route. */
  ghost predicate Reports(g: Graph, start: Coord, m: Monument, r: MonumentResult)
  {
    && r.name == m.name && r.location == m.location
    && (r.distance.Some? ==>
          && r.error.None?
          && (exists p :: IsPath(g, p, start, m.location) && PathWeight(g, p) == r.distance.value)
          && NoShorter(g, start, m.location, r.distance.value))
    && (r.distance.None? ==>
          && r.error == Some(NoPathMessage)
          && forall p :: !IsPath(g, p, start, m.location))
  }

  /** The result entry for one monument. */
  method Report(g: Graph, start: Coord, m: Monument) returns (r: MonumentResult)
    requires Valid(g) && NonNegative(g) && start in g.adj
    ensures Reports(g, start, m, r)
  {
    var route := ShortestPath(g, start, m.location);
    if route.Success? {
      assert IsPath(g, route.value.path, start, m.location);
      r := MonumentResult(m.name, m.location, Some(route.value.length), None);
    } else {
      assert route.error != NodeNotFound;
      r := MonumentResult(m.name, m.location, None, Some(NoPathMessage));
    }
  }

  /** The result-assembly loop: one entry per monument, in order. */
  method MonumentDistances(g: Graph, start: Coord, ms: seq<Monument>) returns (results: seq<MonumentResult>)
    requires Valid(g) && NonNegative(g) && start in g.adj
    ensures |results| == |ms|
    ensures forall i :: 0 <= i < |ms| ==> Reports(g, start, ms[i], results[i])
  {
    results := [];
    for i := 0 to |ms|
      invariant |results| == i
      invariant forall j :: 0 <= j < i ==> Reports(g, start, ms[j], results[j])
    {
      var r := Report(g, start, ms[i]);
      results := results + [r];
    }
  }

  /** `routes_count`: the number of results that carry a distance. */
  function RoutesCount(results: seq<MonumentResult>): (n: nat)
    ensures n <= |results|
    ensures n == |results| <==> forall i :: 0 <= i < |results| ==> results[i].distance.Some?
    decreases |results|
  {
    if results == [] then 0
    else
      var init := results[..|results| - 1];
      assert forall i :: 0 <= i < |init| ==> init[i] == results[i];
      RoutesCount(init) + if results[|results| - 1].distance.Some? then 1 else 0
  }

  /** The indexes of the results that carry a distance. */
  ghost function Reached(results: seq<MonumentResult>): set<int>
  {
    set i | 0 <= i < |results| && results[i].distance.Some?
  }

  /** The count is the number of reached monuments, so it equals the number
      of results exactly when every monument was reached. */
  lemma {:induction false} RoutesCountIsReached(results: seq<MonumentResult>)
    ensures RoutesCount(results) == |Reached(results)|
    ensures RoutesCount(results) == |results| <==> forall i :: 0 <= i < |results| ==> results[i].distance.Some?
    decreases |results|
  {
    if results != [] {
      var init := results[..|results| - 1];
      var n := |results| - 1;
      RoutesCountIsReached(init);
      if results[n].distance.Some? {
        assert Reached(results) == Reached(init) + {n};
      } else {
        assert Reached(results) == Reached(init);
      }
      ReachedBound(results);
    }
  }

  lemma ReachedBound(results: seq<MonumentResult>)
    ensures |Reached(results)| <= |results|
    ensures |Reached(results)| == |results| <==> forall i :: 0 <= i < |results| ==> results[i].distance.Some?
  {
    var all := Indexes(|results|);
    var reached := Reached(results);
    assert reached <= all;
    assert all == reached + (all - reached) && reached * (all - reached) == {};
    if forall i :: 0 <= i < |results| ==> results[i].distance.Some? {
      assert Reached(results) == all;
    }
    if |Reached(results)| == |results| {
      SubsetOfSameSize(Reached(results), all);
      forall i | 0 <= i < |results| ensures results[i].distance.Some? {
        assert i in all;
      }
    }
  }

  /** The indexes of a sequence of length `n`. */
  ghost function Indexes(n: nat): (r: set<int>)
    ensures forall i :: i in r <==> 0 <= i < n
    ensures |r| == n
  {
    if n == 0 then {} else Indexes(n - 1) + {n - 1}
  }

  lemma SubsetOfSameSize(a: set<int>, b: set<int>)
    requires a <= b && |a| == |b|
    ensures a == b
  {
    assert b == a + (b - a);
    assert a * (b - a) == {};
    assert |b - a| == 0;
  }

  /** The result of a calculation that found no monument in the box. */
  const NoMonumentsResult: JobResult := JobResult(0, [], Some(NoMonumentsMessage), None, None)

  /** A job that stopped on an exception: failed with its message, the
      progress and result left as they were. */
  function Fail(j: Job, e: string): Job
  {
    j.(status := Failed, error := Some(e))
  }

  /** A job that finished normally. */
  function Complete(j: Job, r: JobResult): Job
  {
    j.(status := Completed, progress := 100.0, result := Some(r))
  }

  /** A run of the background task: it reported a prefix of the milestones
      and left the job finished, at or above the last milestone reported, and
      exactly there if it failed. */
  ghost predicate Ran(job: Job, progress: seq<real>, final: Job)
  {
    && 2 <= |progress| <= |Reported| && progress == Reported[..|progress|]
    && final.jobId == job.jobId && Finished(final)
    && final.progress >= progress[|progress| - 1]
    && (final.status == Failed ==> final.progress == progress[|progress| - 1])
  }

  /** The last stage, once monuments were found in the box: they are attached
      to the trail network, and unless the exports raise, the job completes
      with one entry per monument, in order, each reporting a shortest route
      from the start node or that there is none, and the count of those
      reached. */
  ghost predicate Routed(job: Job, env: Services, trails: Graph, start: Coord, inBox: seq<Monument>,
                         progress: seq<real>, final: Job, network: Graph)
  {
    && progress == Reported[..6]
    && Valid(trails) && network == AttachAll(trails, inBox, env.dist)
    && Valid(network) && NonNegative(network)
    && (forall x :: x in trails.adj ==> x in network.adj)
    && (forall x :: x in network.adj && x !in trails.adj ==> exists m :: m in inBox && m.location == x)
    && (forall m :: m in inBox && WithinReach(trails.nodes, m.location, env.dist) ==> m.location in network.adj)
    && (env.exportError.Some? ==> final.status == Failed && final.error == env.exportError)
    && (env.exportError.None? ==>
          && final.status == Completed && final.result.Some?
          && var result := final.result.value;
          && |result.monuments| == |inBox|
          && (forall i :: 0 <= i < |inBox| ==> Reports(network, start, inBox[i], result.monuments[i]))
          && result.routesCount == RoutesCount(result.monuments)
          && result.message.None?
          && result.pngUrl == Some("/static/routes_" + job.jobId + ".png")
          && result.kmlUrl == Some("/static/routes_" + job.jobId + ".kml"))
  }

  /** The stages after the start was snapped to a node of the trail network:
      the job fails at 70 if the monument source raises, completes with no
      monument if none lies in the box, and otherwise goes on to `Routed`. */
  ghost predicate Fetched(job: Job, req: RouteRequest, env: Services, trails: Graph, start: Coord,
                          progress: seq<real>, final: Job, network: Graph)
  {
    var fetched := env.fetch(MapType(TypeMapping, req.monumentType));
    && (fetched.Failure? ==> final.status == Failed && final.error == Some(fetched.error) && progress == Reported[..4])
    && (fetched.Success? ==>
          var inBox := FilterInBox(fetched.value, req.searchBox);
          && (inBox == [] ==>
                final.status == Completed && final.result == Some(NoMonumentsResult) && progress == Reported[..4])
          && (inBox != [] ==> Routed(job, env, trails, start, inBox, progress, final, network)))
  }

  /** `process_route_calculation`, run to the end in one go. It returns the
      progress milestones reported, the finished job, and for a calculation
      that got that far the start node and the network routed over.

      The job fails, keeping the progress it had reached, when the segment
      source raises (at 30) and when the trail network has no node, which is
      exactly when no segment was found (at 50); otherwise the start is the
      first of the nodes nearest to the requested start point, and the run
      goes on as `Fetched` says. */
  method ProcessRouteCalculation(job: Job, req: RouteRequest, env: Services)
    returns (progress: seq<real>, final: Job, start: Option<Coord>, network: Graph)
    requires IsDistance(env.dist)
    ensures Ran(job, progress, final)
    ensures var found := env.getSegments(req.searchBox);
      && (found.Failure? ==> final.status == Failed && final.error == Some(found.error) && progress == Reported[..2])
      && (found.Success? && found.value == [] ==>
            final.status == Failed && final.error == Some(NoNodesMessage) && progress == Reported[..3])
      && (found.Success? && found.value != [] ==>
            var trails := TrailNetwork(found.value, env);
            && start.Some?
            && (exists k :: FirstClosest(trails.nodes, req.startPoint, env.dist, k) && trails.nodes[k] == start.value)
            && Fetched(job, req, env, trails, start.value, progress, final, network))
  {
    start := None;
    network := EmptyGraph;
    var found := env.getSegments(req.searchBox);
    if found.Failure? {
      progress := Reported[..2];
      assert |progress| == 2 && progress[1] == 30.0;
      final := Fail(Advance(job, 30.0), found.error);
      return;
    }
    var trails := TrailNetwork(found.value, env);
    NoNodesIffNoSegments(found.value, AngleThreshold, GreatCircleAngle(env.dist, env.acosDeg), env.dist);
    start := FindClosestNode(trails, req.startPoint, env.dist);
    if start.None? {
      progress := Reported[..3];
      assert |progress| == 3 && progress[2] == 50.0;
      final := Fail(Advance(job, 50.0), NoNodesMessage);
      return;
    }
    SimplifiedNonNegative(found.value, AngleThreshold, GreatCircleAngle(env.dist, env.acosDeg), env.dist);
    progress, final, network := FetchAndRoute(job, req, env, trails, start.value);
  }

  /** The stages from loading the monuments on, from a start node of a valid
      trail network without negative weights. */
  method FetchAndRoute(job: Job, req: RouteRequest, env: Services, trails: Graph, start: Coord)
    returns (progress: seq<real>, final: Job, network: Graph)
    requires IsDistance(env.dist) && Valid(trails) && NonNegative(trails) && start in trails.nodes
    ensures Ran(job, progress, final)
    ensures Fetched(job, req, env, trails, start, progress, final, network)
  {
    network := EmptyGraph;
    var fetched := env.fetch(MapType(TypeMapping, req.monumentType));
    if fetched.Failure? {
      progress := Reported[..4];
      assert |progress| == 4 && progress[3] == 70.0;
      final := Fail(Advance(job, 70.0), fetched.error);
      return;
    }
    var inBox := FilterInBox(fetched.value, req.searchBox);
    if inBox == [] {
      progress := Reported[..4];
      assert |progress| == 4 && progress[3] == 70.0;
      final := Complete(Advance(job, 70.0), NoMonumentsResult);
      return;
    }
    progress, final, network := Route(job, env, trails, start, inBox);
  }

  /** The last stage: connecting the monuments, the exports, and the result. */
  method Route(job: Job, env: Services, trails: Graph, start: Coord, inBox: seq<Monument>)
    returns (progress: seq<real>, final: Job, network: Graph)
    requires IsDistance(env.dist) && Valid(trails) && NonNegative(trails) && start in trails.nodes
    ensures Ran(job, progress, final)
    ensures Routed(job, env, trails, start, inBox, progress, final, network)
  {
    progress := Reported[..6];
    assert |progress| == 6 && progress[5] == 90.0;
    network := ConnectMonuments(trails, inBox, env.dist);
    if env.exportError.Some? {
      final := Fail(Advance(job, 90.0), env.exportError.value);
      return;
    }
    var results := MonumentDistances(network, start, inBox);
    var result := JobResult(RoutesCount(results), results, None,
                            Some("/static/routes_" + job.jobId + ".png"), Some("/static/routes_" + job.jobId + ".kml"));
    final := Complete(Advance(job, 90.0), result);
  }
}
