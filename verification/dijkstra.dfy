/** The search loop of `shortest_path`: networkx's `_dijkstra_multisource`
    with a single source and a target, over the invariants of `Routing`. */
module Dijkstra {
  import opened Wrappers
  import opened Models
  import opened NxGraph
  import opened Routing

  /** The closest waiting node among `nodes`, if any node waits. Ties go to
      the first in `nodes`. */
  method PickClosest(nodes: seq<Coord>, settled: set<Coord>, dist: map<Coord, real>) returns (r: Option<Coord>)
    ensures r.None? <==> forall x :: x in nodes && x in dist ==> x in settled
    ensures r.Some? ==> r.value in nodes && r.value in dist && r.value !in settled
    ensures r.Some? ==> forall x :: x in nodes && x in dist && x !in settled ==> dist[r.value] <= dist[x]
  {
    r := None;
    for i := 0 to |nodes|
      invariant r.None? <==> forall j :: 0 <= j < i && nodes[j] in dist ==> nodes[j] in settled
      invariant r.Some? ==> r.value in nodes && r.value in dist && r.value !in settled
      invariant r.Some? ==> forall j :: 0 <= j < i && nodes[j] in dist && nodes[j] !in settled ==>
        dist[r.value] <= dist[nodes[j]]
    {
      var x := nodes[i];
      if x in dist && x !in settled && (r.None? || dist[x] < dist[r.value]) {
        r := Some(x);
      }
    }
  }

  /** Relaxes the edge from the settled node `u` to one more neighbour `y`,
      improving `y`'s tentative distance and route when the edge offers a
      shorter one. */
  method RelaxEdge(g: Graph, s: Coord, settled: set<Coord>, dist: map<Coord, real>, paths: map<Coord, seq<Coord>>,
                   u: Coord, done: seq<Coord>, d: map<Coord, real>, p: map<Coord, seq<Coord>>, y: Coord)
    returns (d2: map<Coord, real>, p2: map<Coord, seq<Coord>>)
    requires DistSoFar(g, settled, dist, u, done, d) && Witnessed(g, s, d, p) && Witnessed(g, s, dist, paths)
    requires u in settled && settled <= dist.Keys && y in g.adj[u] && y !in done
    ensures DistSoFar(g, settled, dist, u, done + [y], d2)
    ensures Witnessed(g, s, d2, p2)
  {
    if Improves(g, settled, dist, u, y, d) {
      var through := dist[u] + g.adj[u][y];
      ExtendPath(g, paths[u], s, u, y);
      d2, p2 := WitnessedUpdate(g, s, d, p, y, through, paths[u] + [y]);
      RelaxImproving(g, settled, dist, u, done, d, y, through, d2);
    } else {
      RelaxNotImproving(g, settled, dist, u, done, d, y);
      d2, p2 := d, p;
    }
  }

  /** Relaxes every edge out of the settled node `u`, whose neighbours `ns`
      lists once each: a neighbour that is not settled and is either
      unreached or reached at a greater distance gets the distance through
      `u` and `u`'s route extended by one node. */
  method Relax(g: Graph, s: Coord, settled: set<Coord>, dist: map<Coord, real>, paths: map<Coord, seq<Coord>>,
               u: Coord, ns: seq<Coord>)
    returns (dist2: map<Coord, real>, paths2: map<Coord, seq<Coord>>)
    requires u in g.adj && u in dist && u in settled && settled <= dist.Keys
    requires Distinct(ns) && forall x :: x in ns <==> HasEdge(g, u, x)
    requires Witnessed(g, s, dist, paths)
    ensures Relaxed(g, settled, dist, u, dist2)
    ensures Witnessed(g, s, dist2, paths2)
  {
    dist2, paths2 := dist, paths;
    for i := 0 to |ns|
      invariant DistSoFar(g, settled, dist, u, ns[..i], dist2)
      invariant Witnessed(g, s, dist2, paths2)
    {
      var y := ns[i];
      assert ns[..i + 1] == ns[..i] + [y];
      assert HasEdge(g, u, y);
      assert y !in ns[..i];
      dist2, paths2 := RelaxEdge(g, s, settled, dist, paths, u, ns[..i], dist2, paths2, y);
    }
    assert ns[..|ns|] == ns;
    RelaxFinish(g, settled, dist, u, ns, dist2);
  }

  /** One round of the search: settle the closest waiting node `u` and relax
      the edges out of it. */
  method Settle(g: Graph, s: Coord, st: SearchState, u: Coord) returns (st2: SearchState)
    requires Valid(g) && NonNegative(g) && Searching(g, s, st)
    requires u in st.dist && u !in st.settled
    requires forall x :: x in g.nodes && x in st.dist && x !in st.settled ==> st.dist[u] <= st.dist[x]
    ensures st2.settled == st.settled + {u}
    ensures Searching(g, s, st2)
  {
    var settled := st.settled + {u};
    var dist2, paths2 := Relax(g, s, settled, st.dist, st.paths, u, Neighbours(g, u));
    SearchStep(g, s, st, u, dist2, paths2);
    st2 := SearchState(settled, dist2, paths2);
  }

  /** `shortest_path`: `NodeNotFound` when the start is not a node (networkx
      checks this first), `(0, [t])` when the ends coincide, otherwise the
      length and nodes of a shortest route, or `NoPath` when none exists. */
  method ShortestPath(g: Graph, s: Coord, t: Coord) returns (r: Result<Route, PathError>)
    requires Valid(g) && NonNegative(g)
    ensures r == Failure(NodeNotFound) <==> s !in g.adj
    ensures r.Success? ==> IsPath(g, r.value.path, s, t) && r.value.length == PathWeight(g, r.value.path)
    ensures r.Success? ==> NoShorter(g, s, t, r.value.length)
    ensures r == Failure(NoPath) ==> forall p :: !IsPath(g, p, s, t)
  {
    if s !in g.adj {
      return Failure(NodeNotFound);
    }
    if s == t {
      forall p | IsPath(g, p, s, t) ensures PathWeight(g, p) >= 0.0 {
        PathWeightNonNegative(g, p);
      }
      return Success(Route(0.0, [t]));
    }
    r := Search(g, s, t);
  }

  /** The search proper, from a start node that is in the graph to a different
      target. */
  method Search(g: Graph, s: Coord, t: Coord) returns (r: Result<Route, PathError>)
    requires Valid(g) && NonNegative(g) && s in g.adj && s != t
    ensures r != Failure(NodeNotFound)
    ensures r.Success? ==> IsPath(g, r.value.path, s, t) && r.value.length == PathWeight(g, r.value.path)
    ensures r.Success? ==> NoShorter(g, s, t, r.value.length)
    ensures r == Failure(NoPath) ==> forall p :: !IsPath(g, p, s, t)
  {
    var st := SearchState({}, map[s := 0.0], map[s := [s]]);
    SearchStart(g, s);
    while true
      invariant Searching(g, s, st)
      decreases |g.adj.Keys - st.settled|
    {
      if t in st.settled {
        SearchDone(g, s, t, st);
        return Success(Route(st.dist[t], st.paths[t]));
      }
      var next := PickClosest(g.nodes, st.settled, st.dist);
      if next.None? {
        NothingWaiting(g, s, t, st);
        return Failure(NoPath);
      }
      var u := next.value;
      assert u in g.adj;
      RemainingShrinks(g.adj.Keys, st.settled, u);
      st := Settle(g, s, st, u);
    }
  }
}
