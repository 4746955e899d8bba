/** `shortest_path`: networkx's single-source Dijkstra from a start node to
    an end node, returning the route length and the nodes along the route. */
module Routing {
  import opened Wrappers
  import opened Models
  import opened NxGraph

  /** Consecutive nodes of `p` are joined by edges of `g`. */
  ghost predicate IsWalk(g: Graph, p: seq<Coord>)
  {
    forall i :: 0 <= i < |p| - 1 ==> HasEdge(g, p[i], p[i + 1])
  }

  /** `p` is a route from `s` to `t` in `g`. */
  ghost predicate IsPath(g: Graph, p: seq<Coord>, s: Coord, t: Coord)
  {
    |p| >= 1 && p[0] == s && p[|p| - 1] == t && IsWalk(g, p)
  }

  /** The sum of the edge weights along a walk. */
  ghost function PathWeight(g: Graph, p: seq<Coord>): real
    requires IsWalk(g, p)
    decreases |p|
  {
    if |p| <= 1 then 0.0
    else
      assert IsWalk(g, p[..|p| - 1]);
      assert HasEdge(g, p[|p| - 2], p[|p| - 1]);
      PathWeight(g, p[..|p| - 1]) + g.adj[p[|p| - 2]][p[|p| - 1]]
  }

  /** No route from `s` to `x` is shorter than `d`. */
  ghost predicate NoShorter(g: Graph, s: Coord, x: Coord, d: real)
  {
    forall p :: IsPath(g, p, s, x) ==> PathWeight(g, p) >= d
  }

  /** The two ways `single_source_dijkstra` raises. */
  datatype PathError = NodeNotFound | NoPath

  datatype Route = Route(length: real, path: seq<Coord>)

  lemma {:induction false} PathWeightNonNegative(g: Graph, p: seq<Coord>)
    requires NonNegative(g) && IsWalk(g, p)
    ensures PathWeight(g, p) >= 0.0
    decreases |p|
  {
    if |p| > 1 {
      assert IsWalk(g, p[..|p| - 1]);
      PathWeightNonNegative(g, p[..|p| - 1]);
      assert HasEdge(g, p[|p| - 2], p[|p| - 1]);
    }
  }

  /** Extending a route by one edge adds that edge's weight. */
  lemma ExtendPath(g: Graph, p: seq<Coord>, s: Coord, u: Coord, y: Coord)
    requires IsPath(g, p, s, u) && HasEdge(g, u, y)
    ensures IsPath(g, p + [y], s, y)
    ensures PathWeight(g, p + [y]) == PathWeight(g, p) + g.adj[u][y]
  {
    var q := p + [y];
    assert q[..|q| - 1] == p;
  }

  /** The nodes settled so far carry final distances, every edge out of a
      settled node has been relaxed, and no settled node is farther than a
      node still waiting. */
  ghost predicate Settled(g: Graph, s: Coord, settled: set<Coord>, dist: map<Coord, real>)
  {
    && settled <= dist.Keys
    && (forall x :: x in settled ==> NoShorter(g, s, x, dist[x]))
    && (forall x, y :: x in settled && HasEdge(g, x, y) ==>
          y in dist && dist[y] <= dist[x] + g.adj[x][y])
    && (forall x, y :: x in settled && y in dist && y !in settled ==> dist[x] <= dist[y])
  }

  /** Every tentative distance is the weight of a recorded route. */
  ghost predicate Witnessed(g: Graph, s: Coord, dist: map<Coord, real>, paths: map<Coord, seq<Coord>>)
  {
    && paths.Keys == dist.Keys
    && (forall x :: x in paths ==> IsPath(g, paths[x], s, x) && PathWeight(g, paths[x]) == dist[x])
  }

  /** A route from a settled start to an unsettled node passes a waiting node
      whose tentative distance is at most the route's weight. */
  lemma {:induction false} RouteLeavesSettled(g: Graph, s: Coord, settled: set<Coord>, dist: map<Coord, real>, p: seq<Coord>, u: Coord)
    returns (y: Coord)
    requires NonNegative(g) && Settled(g, s, settled, dist)
    requires s in settled && u !in settled && IsPath(g, p, s, u)
    ensures y in dist && y !in settled && dist[y] <= PathWeight(g, p)
    decreases |p|
  {
    var q := p[..|p| - 1];
    assert |p| > 1;
    assert IsPath(g, q, s, p[|p| - 2]);
    var x := p[|p| - 2];
    assert HasEdge(g, x, u);
    if x in settled {
      assert PathWeight(g, q) >= dist[x];
      y := u;
    } else {
      y := RouteLeavesSettled(g, s, settled, dist, q, x);
    }
  }

  /** `after` is what relaxing every edge out of `u` makes of the tentative
      distances `before`: every neighbour is reached, a neighbour that is not
      settled is at most one edge farther than `u`, settled nodes keep their
      distances, no distance grows, and every changed distance is one edge
      farther than `u`. */
  ghost predicate Relaxed(g: Graph, settled: set<Coord>, before: map<Coord, real>, u: Coord, after: map<Coord, real>)
  {
    && u in g.adj && u in before
    && after.Keys == before.Keys + g.adj[u].Keys
    && (forall y :: y in before ==> after[y] <= before[y])
    && (forall y :: y in g.adj[u] && y !in settled ==> after[y] <= before[u] + g.adj[u][y])
    && (forall y :: y in settled && y in before ==> after[y] == before[y])
    && (forall y :: y in after ==>
          (y in before && after[y] == before[y]) || (y in g.adj[u] && after[y] == before[u] + g.adj[u][y]))
  }

  /** Relaxation of the edges from `u` to the neighbours in `done` has turned
      the distances `dist` into `d`. */
  ghost predicate DistSoFar(g: Graph, settled: set<Coord>, dist: map<Coord, real>, u: Coord, done: seq<Coord>, d: map<Coord, real>)
  {
    && u in g.adj && u in dist
    && (forall y :: y in done ==> y in g.adj[u])
    && (forall y :: y in d <==> y in dist || y in done)
    && (forall y :: y in dist ==> d[y] <= dist[y])
    && (forall y :: y in done && y !in settled ==> d[y] <= dist[u] + g.adj[u][y])
    && (forall y :: y in settled && y in dist ==> d[y] == dist[y])
    && (forall y :: y in d ==> (y in dist && d[y] == dist[y]) || (y in g.adj[u] && d[y] == dist[u] + g.adj[u][y]))
  }

  /** Whether the edge from `u` to `y` improves on `y`'s tentative distance
      `d`: `y` is not settled, and is unreached or farther than the distance
      through `u`. */
  predicate Improves(g: Graph, settled: set<Coord>, dist: map<Coord, real>, u: Coord, y: Coord, d: map<Coord, real>)
    requires u in dist && HasEdge(g, u, y)
  {
    y !in settled && (y !in d || dist[u] + g.adj[u][y] < d[y])
  }

  /** Relaxing the edge from the settled node `u` to one more neighbour `y`
      that the edge improves sets `y`'s distance to the one through `u`. */
  lemma RelaxImproving(g: Graph, settled: set<Coord>, dist: map<Coord, real>, u: Coord,
                       done: seq<Coord>, d: map<Coord, real>, y: Coord, through: real, d2: map<Coord, real>)
    requires DistSoFar(g, settled, dist, u, done, d)
    requires u in settled && settled <= dist.Keys && y in g.adj[u] && y !in done
    requires Improves(g, settled, dist, u, y, d) && through == dist[u] + g.adj[u][y] && d2 == d[y := through]
    ensures DistSoFar(g, settled, dist, u, done + [y], d2)
  {
  }

  /** Relaxing an edge that does not improve leaves the distances alone. */
  lemma RelaxNotImproving(g: Graph, settled: set<Coord>, dist: map<Coord, real>, u: Coord,
                          done: seq<Coord>, d: map<Coord, real>, y: Coord)
    requires DistSoFar(g, settled, dist, u, done, d)
    requires u in settled && settled <= dist.Keys && y in g.adj[u] && y !in done
    requires !Improves(g, settled, dist, u, y, d)
    ensures DistSoFar(g, settled, dist, u, done + [y], d)
  {
  }

  /** Records the route `py`, of weight `dy`, as `y`'s route: every distance
      stays witnessed. */
  method WitnessedUpdate(g: Graph, s: Coord, d: map<Coord, real>, p: map<Coord, seq<Coord>>, y: Coord, dy: real, py: seq<Coord>)
    returns (d2: map<Coord, real>, p2: map<Coord, seq<Coord>>)
    requires Witnessed(g, s, d, p) && IsPath(g, py, s, y) && PathWeight(g, py) == dy
    ensures d2 == d[y := dy] && p2 == p[y := py]
    ensures Witnessed(g, s, d2, p2)
  {
    d2, p2 := d[y := dy], p[y := py];
  }

  /** Once every neighbour is done, the distances are relaxed. */
  lemma RelaxFinish(g: Graph, settled: set<Coord>, dist: map<Coord, real>, u: Coord, done: seq<Coord>, d: map<Coord, real>)
    requires DistSoFar(g, settled, dist, u, done, d)
    requires forall y :: y in g.adj[u] ==> y in done
    ensures Relaxed(g, settled, dist, u, d)
  {
  }

  /** Settling the closest waiting node `u`, whose distance is final, and
      relaxing its edges keeps the settled part correct. */
  lemma SettleStep(g: Graph, s: Coord, settled: set<Coord>, dist: map<Coord, real>, u: Coord, dist2: map<Coord, real>)
    requires Valid(g) && NonNegative(g) && Settled(g, s, settled, dist)
    requires u in dist && u !in settled
    requires forall y :: y in dist && y !in settled ==> dist[u] <= dist[y]
    requires NoShorter(g, s, u, dist[u])
    requires Relaxed(g, settled + {u}, dist, u, dist2)
    ensures Settled(g, s, settled + {u}, dist2)
  {
    var s2 := settled + {u};
    forall x | x in s2 ensures NoShorter(g, s, x, dist2[x]) {
      assert dist2[x] == dist[x];
    }
    forall x, y | x in s2 && HasEdge(g, x, y) ensures y in dist2 && dist2[y] <= dist2[x] + g.adj[x][y] {
      if x == u && y in s2 {
        assert dist[y] <= dist[u];
      }
    }
    forall x, y | x in s2 && y in dist2 && y !in s2 ensures dist2[x] <= dist2[y] {
      assert dist2[x] == dist[x] && dist[x] <= dist[u];
      if y in g.adj[u] {
        assert HasEdge(g, u, y);
      }
    }
  }

  /** The closest waiting node's tentative distance is final. */
  lemma ClosestIsFinal(g: Graph, s: Coord, settled: set<Coord>, dist: map<Coord, real>, u: Coord)
    requires NonNegative(g) && Settled(g, s, settled, dist)
    requires settled == {} ==> s in dist && dist[s] == 0.0 && forall x :: x in dist ==> x == s
    requires settled != {} ==> s in settled
    requires u in dist && u !in settled
    requires forall y :: y in dist && y !in settled ==> dist[u] <= dist[y]
    ensures NoShorter(g, s, u, dist[u])
  {
    forall p | IsPath(g, p, s, u) ensures PathWeight(g, p) >= dist[u] {
      if settled == {} {
        PathWeightNonNegative(g, p);
      } else {
        var y := RouteLeavesSettled(g, s, settled, dist, p, u);
      }
    }
  }

  /** The search between two settlements: the settled nodes, the tentative
      distances, and a recorded route for each reached node. */
  datatype SearchState = SearchState(settled: set<Coord>, dist: map<Coord, real>, paths: map<Coord, seq<Coord>>)

  /** The search state is sound: the settled part is correct, every tentative
      distance has a route, only nodes are reached, and the start is reached
      first. */
  ghost predicate Searching(g: Graph, s: Coord, st: SearchState)
  {
    && Settled(g, s, st.settled, st.dist)
    && Witnessed(g, s, st.dist, st.paths)
    && st.dist.Keys <= g.adj.Keys && s in st.dist
    && (st.settled == {} ==> st.dist[s] == 0.0 && forall x :: x in st.dist ==> x == s)
    && (st.settled != {} ==> s in st.settled)
  }

  /** The search starts with the start node reached at distance zero. */
  lemma SearchStart(g: Graph, s: Coord)
    requires s in g.adj
    ensures Searching(g, s, SearchState({}, map[s := 0.0], map[s := [s]]))
  {
    assert IsPath(g, [s], s, s);
  }

  /** Settling the closest waiting node `u` with relaxed distances `dist2`
      and routes `paths2` keeps the search sound. */
  lemma SearchStep(g: Graph, s: Coord, st: SearchState, u: Coord, dist2: map<Coord, real>, paths2: map<Coord, seq<Coord>>)
    requires Valid(g) && NonNegative(g) && Searching(g, s, st)
    requires u in st.dist && u !in st.settled
    requires forall x :: x in g.nodes && x in st.dist && x !in st.settled ==> st.dist[u] <= st.dist[x]
    requires Relaxed(g, st.settled + {u}, st.dist, u, dist2) && Witnessed(g, s, dist2, paths2)
    ensures Searching(g, s, SearchState(st.settled + {u}, dist2, paths2))
  {
    assert forall x :: x in st.dist ==> x in g.nodes;
    ClosestIsFinal(g, s, st.settled, st.dist, u);
    SettleStep(g, s, st.settled, st.dist, u, dist2);
    NeighboursAreNodes(g, u);
  }

  /** A settled end node carries a shortest route. */
  lemma SearchDone(g: Graph, s: Coord, t: Coord, st: SearchState)
    requires Searching(g, s, st) && t in st.settled
    ensures t in st.dist && t in st.paths
    ensures IsPath(g, st.paths[t], s, t) && PathWeight(g, st.paths[t]) == st.dist[t]
    ensures NoShorter(g, s, t, st.dist[t])
  {
  }

  /** Once every reached node is settled, an unsettled node is unreachable. */
  lemma NothingWaiting(g: Graph, s: Coord, t: Coord, st: SearchState)
    requires Valid(g) && NonNegative(g) && Searching(g, s, st)
    requires forall x :: x in g.nodes && x in st.dist ==> x in st.settled
    requires t !in st.settled
    ensures forall p :: !IsPath(g, p, s, t)
  {
    assert forall x :: x in st.dist ==> x in g.nodes;
    assert s in st.settled;
    forall p | IsPath(g, p, s, t) ensures false {
      var y := RouteLeavesSettled(g, s, st.settled, st.dist, p, t);
    }
  }

  lemma RemainingShrinks(nodes: set<Coord>, settled: set<Coord>, u: Coord)
    requires u in nodes && u !in settled
    ensures |nodes - (settled + {u})| < |nodes - settled|
  {
    assert nodes - (settled + {u}) == (nodes - settled) - {u};
  }
}
