/** The graph service: building a weighted graph from segments, the one-sweep
    removal of nearly straight degree-2 nodes, and nearest-node lookup. */
module GraphService {
  import opened Wrappers
  import opened Models
  import opened NxGraph

  /** `x` is an endpoint of one of the segments. */
  ghost predicate IsEndpoint(segs: seq<Segment>, x: Coord)
  {
    exists i :: 0 <= i < |segs| && (segs[i].start == x || segs[i].end == x)
  }

  /** Some segment joins `a` and `b`, in either direction. */
  ghost predicate IsJoined(segs: seq<Segment>, a: Coord, b: Coord)
  {
    exists i :: 0 <= i < |segs| && SameEdge(a, b, segs[i].start, segs[i].end)
  }

  /** `make_graph`: one `add_edge` per segment, in order, each weighted by the
      great-circle distance between its endpoints. */
  function MakeGraph(segs: seq<Segment>, dist: Metric): (g: Graph)
    ensures Valid(g)
    ensures segs == [] ==> g == EmptyGraph
    ensures forall s :: s in segs ==> HasEdge(g, s.start, s.end)
    decreases |segs|
  {
    if segs == [] then EmptyGraph
    else
      var init := segs[..|segs| - 1];
      var s := segs[|segs| - 1];
      var prev := MakeGraph(init, dist);
      var r := AddEdge(prev, s.start, s.end, dist(s.start, s.end));
      SegmentEdgesKept(prev, r, segs);
      r
  }

  /** An edge added for the last segment keeps the edges of the earlier ones. */
  lemma SegmentEdgesKept(prev: Graph, r: Graph, segs: seq<Segment>)
    requires segs != []
    requires forall s :: s in segs[..|segs| - 1] ==> HasEdge(prev, s.start, s.end)
    requires forall a, b :: HasEdge(prev, a, b) ==> HasEdge(r, a, b)
    requires HasEdge(r, segs[|segs| - 1].start, segs[|segs| - 1].end)
    ensures forall s :: s in segs ==> HasEdge(r, s.start, s.end)
  {
    forall s | s in segs ensures HasEdge(r, s.start, s.end) {
      var i :| 0 <= i < |segs| && segs[i] == s;
      if i < |segs| - 1 {
        assert segs[..|segs| - 1][i] == s;
      }
    }
  }

  lemma {:induction false} EndpointsOfPrefix(segs: seq<Segment>)
    requires segs != []
    ensures forall x :: IsEndpoint(segs, x) <==>
      IsEndpoint(segs[..|segs| - 1], x) || x == segs[|segs| - 1].start || x == segs[|segs| - 1].end
  {
    var init := segs[..|segs| - 1];
    forall x | IsEndpoint(init, x) ensures IsEndpoint(segs, x) {
      var i :| 0 <= i < |init| && (init[i].start == x || init[i].end == x);
      assert segs[i] == init[i];
    }
    forall x | IsEndpoint(segs, x) && x != segs[|segs| - 1].start && x != segs[|segs| - 1].end
      ensures IsEndpoint(init, x)
    {
      var i :| 0 <= i < |segs| && (segs[i].start == x || segs[i].end == x);
      assert init[i] == segs[i];
    }
  }

  lemma {:induction false} JoinedOfPrefix(segs: seq<Segment>)
    requires segs != []
    ensures forall a, b :: IsJoined(segs, a, b) <==>
      IsJoined(segs[..|segs| - 1], a, b) || SameEdge(a, b, segs[|segs| - 1].start, segs[|segs| - 1].end)
  {
    var init := segs[..|segs| - 1];
    forall a, b | IsJoined(init, a, b) ensures IsJoined(segs, a, b) {
      var i :| 0 <= i < |init| && SameEdge(a, b, init[i].start, init[i].end);
      assert segs[i] == init[i];
    }
    forall a, b | IsJoined(segs, a, b) && !SameEdge(a, b, segs[|segs| - 1].start, segs[|segs| - 1].end)
      ensures IsJoined(init, a, b)
    {
      var i :| 0 <= i < |segs| && SameEdge(a, b, segs[i].start, segs[i].end);
      assert init[i] == segs[i];
    }
  }

  /** The nodes are exactly the segment endpoints. */
  lemma {:induction false} MakeGraphNodes(segs: seq<Segment>, dist: Metric)
    ensures forall x :: x in MakeGraph(segs, dist).adj <==> IsEndpoint(segs, x)
    decreases |segs|
  {
    if segs != [] {
      MakeGraphNodes(segs[..|segs| - 1], dist);
      EndpointsOfPrefix(segs);
    }
  }

  /** There is an edge exactly where some segment joins two points, in either
      direction. */
  lemma {:induction false} MakeGraphEdges(segs: seq<Segment>, dist: Metric)
    ensures forall a, b :: HasEdge(MakeGraph(segs, dist), a, b) <==> IsJoined(segs, a, b)
    decreases |segs|
  {
    if segs != [] {
      MakeGraphEdges(segs[..|segs| - 1], dist);
      JoinedOfPrefix(segs);
    }
  }

  /** Every edge weighs the distance between its endpoints, whichever
      orientation inserted it last. */
  lemma {:induction false} MakeGraphWeights(segs: seq<Segment>, dist: Metric)
    requires IsDistance(dist)
    ensures forall a, b :: HasEdge(MakeGraph(segs, dist), a, b) ==> MakeGraph(segs, dist).adj[a][b] == dist(a, b)
    decreases |segs|
  {
    if segs != [] {
      var s := segs[|segs| - 1];
      MakeGraphWeights(segs[..|segs| - 1], dist);
      AddEdgeKeepsDistances(MakeGraph(segs[..|segs| - 1], dist), s.start, s.end, dist);
    }
  }

  /** Adding an edge weighted by the distance between its endpoints keeps
      every weight a distance. */
  lemma AddEdgeKeepsDistances(g: Graph, u: Coord, v: Coord, dist: Metric)
    requires Valid(g) && IsDistance(dist)
    requires forall a, b :: HasEdge(g, a, b) ==> g.adj[a][b] == dist(a, b)
    ensures forall a, b :: HasEdge(AddEdge(g, u, v, dist(u, v)), a, b) ==> AddEdge(g, u, v, dist(u, v)).adj[a][b] == dist(a, b)
  {
    var r := AddEdge(g, u, v, dist(u, v));
    forall a, b | HasEdge(r, a, b) ensures r.adj[a][b] == dist(a, b) {
      if SameEdge(a, b, u, v) {
        assert r.adj[v][u] == r.adj[u][v];
        assert dist(v, u) == dist(u, v);
      }
    }
  }

  /** Building does not depend on the order or orientation of the segments:
      two lists that join the same pairs give the same adjacency and weights. */
  lemma {:induction false} MakeGraphOrderIndependent(s1: seq<Segment>, s2: seq<Segment>, dist: Metric)
    requires IsDistance(dist)
    requires forall a, b :: IsJoined(s1, a, b) <==> IsJoined(s2, a, b)
    ensures MakeGraph(s1, dist).adj == MakeGraph(s2, dist).adj
  {
    var g1 := MakeGraph(s1, dist);
    var g2 := MakeGraph(s2, dist);
    assert g1.adj.Keys == g2.adj.Keys by { SameNodes(s1, s2, dist); }
    assert forall a, b :: HasEdge(g1, a, b) <==> HasEdge(g2, a, b) by {
      MakeGraphEdges(s1, dist);
      MakeGraphEdges(s2, dist);
    }
    assert forall a, b :: HasEdge(g1, a, b) ==> g1.adj[a][b] == dist(a, b) by { MakeGraphWeights(s1, dist); }
    assert forall a, b :: HasEdge(g2, a, b) ==> g2.adj[a][b] == dist(a, b) by { MakeGraphWeights(s2, dist); }
    SameDistanceGraphs(g1, g2, dist);
  }

  /** Two graphs with the same nodes and edges, all weighted by `dist`, have
      the same adjacency. */
  lemma {:induction false} SameDistanceGraphs(g1: Graph, g2: Graph, dist: Metric)
    requires g1.adj.Keys == g2.adj.Keys
    requires forall a, b :: HasEdge(g1, a, b) <==> HasEdge(g2, a, b)
    requires forall a, b :: HasEdge(g1, a, b) ==> g1.adj[a][b] == dist(a, b)
    requires forall a, b :: HasEdge(g2, a, b) ==> g2.adj[a][b] == dist(a, b)
    ensures g1.adj == g2.adj
  {
    forall x | x in g1.adj ensures g1.adj[x] == g2.adj[x] {
      assert x in g2.adj;
      forall b ensures b in g1.adj[x] <==> b in g2.adj[x] {
        assert HasEdge(g1, x, b) <==> HasEdge(g2, x, b);
      }
      assert g1.adj[x].Keys == g2.adj[x].Keys;
    }
  }

  lemma {:induction false} SameNodes(s1: seq<Segment>, s2: seq<Segment>, dist: Metric)
    requires forall a, b :: IsJoined(s1, a, b) <==> IsJoined(s2, a, b)
    ensures MakeGraph(s1, dist).adj.Keys == MakeGraph(s2, dist).adj.Keys
  {
    MakeGraphNodes(s1, dist);
    MakeGraphNodes(s2, dist);
    forall x ensures IsEndpoint(s1, x) ==> IsEndpoint(s2, x) {
      if IsEndpoint(s1, x) {
        var y := EndpointPartner(s1, x);
        assert IsJoined(s2, x, y);
        JoinedIsEndpoint(s2, x, y);
      }
    }
    forall x ensures IsEndpoint(s2, x) ==> IsEndpoint(s1, x) {
      if IsEndpoint(s2, x) {
        var y := EndpointPartner(s2, x);
        assert IsJoined(s1, x, y);
        JoinedIsEndpoint(s1, x, y);
      }
    }
  }

  lemma {:induction false} EndpointPartner(segs: seq<Segment>, x: Coord) returns (y: Coord)
    requires IsEndpoint(segs, x)
    ensures IsJoined(segs, x, y)
  {
    var i :| 0 <= i < |segs| && (segs[i].start == x || segs[i].end == x);
    y := if segs[i].start == x then segs[i].end else segs[i].start;
    assert SameEdge(x, y, segs[i].start, segs[i].end);
  }

  lemma {:induction false} JoinedIsEndpoint(segs: seq<Segment>, x: Coord, y: Coord)
    requires IsJoined(segs, x, y)
    ensures IsEndpoint(segs, x)
  {
    var i :| 0 <= i < |segs| && SameEdge(x, y, segs[i].start, segs[i].end);
    assert segs[i].start == x || segs[i].end == x;
  }

  /** Every segment gives one undirected edge and nothing else does. */
  lemma {:induction false} MakeGraphEdgeSet(segs: seq<Segment>, dist: Metric)
    ensures Edges(MakeGraph(segs, dist)) == set i | 0 <= i < |segs| :: EdgeOf(segs[i].start, segs[i].end)
  {
    MakeGraphEdges(segs, dist);
    JoinedEdgeSet(MakeGraph(segs, dist), segs);
  }

  /** A graph whose edges join exactly the pairs the segments join has one
      edge per segment. */
  lemma JoinedEdgeSet(g: Graph, segs: seq<Segment>)
    requires forall a, b :: HasEdge(g, a, b) <==> IsJoined(segs, a, b)
    ensures Edges(g) == set i | 0 <= i < |segs| :: EdgeOf(segs[i].start, segs[i].end)
  {
    var want := set i | 0 <= i < |segs| :: EdgeOf(segs[i].start, segs[i].end);
    forall e | e in Edges(g) ensures e in want {
      var u, v :| u in g.adj && v in g.adj[u] && e == EdgeOf(u, v);
      assert IsJoined(segs, u, v);
      var i :| 0 <= i < |segs| && SameEdge(u, v, segs[i].start, segs[i].end);
      EdgeOfSame(u, v, segs[i].start, segs[i].end);
    }
    forall e | e in want ensures e in Edges(g) {
      var i :| 0 <= i < |segs| && e == EdgeOf(segs[i].start, segs[i].end);
      assert IsJoined(segs, segs[i].start, segs[i].end) by {
        assert SameEdge(segs[i].start, segs[i].end, segs[i].start, segs[i].end);
      }
      assert HasEdge(g, segs[i].start, segs[i].end);
    }
  }

  /** Inserting `(a, b)` and then `(b, a)` gives the same adjacency as
      inserting `(a, b)` alone. */
  lemma {:induction false} ReversedSegmentSameGraph(a: Coord, b: Coord, dist: Metric)
    requires IsDistance(dist)
    ensures MakeGraph([Segment(a, b), Segment(b, a)], dist).adj == MakeGraph([Segment(a, b)], dist).adj
  {
    var two := [Segment(a, b), Segment(b, a)];
    var one := [Segment(a, b)];
    forall x, y ensures IsJoined(two, x, y) <==> IsJoined(one, x, y) {
      if IsJoined(two, x, y) {
        var i :| 0 <= i < |two| && SameEdge(x, y, two[i].start, two[i].end);
        assert SameEdge(x, y, one[0].start, one[0].end);
      }
      if IsJoined(one, x, y) {
        assert SameEdge(x, y, two[0].start, two[0].end);
      }
    }
    MakeGraphOrderIndependent(two, one, dist);
  }

  /** Inserting a segment and its reverse gives a single edge. */
  lemma {:induction false} ReversedSegmentIsOneEdge(segs: seq<Segment>, dist: Metric)
    requires |segs| == 2 && segs[1] == Segment(segs[0].end, segs[0].start)
    ensures Edges(MakeGraph(segs, dist)) == {EdgeOf(segs[0].start, segs[0].end)}
  {
    MakeGraphEdgeSet(segs, dist);
    ReversedPairEdgeSet(segs);
  }

  lemma {:induction false} ReversedPairEdgeSet(segs: seq<Segment>)
    requires |segs| == 2 && segs[1] == Segment(segs[0].end, segs[0].start)
    ensures (set i | 0 <= i < |segs| :: EdgeOf(segs[i].start, segs[i].end)) == {EdgeOf(segs[0].start, segs[0].end)}
  {
    var a, b := segs[0].start, segs[0].end;
    EdgeOfSame(b, a, a, b);
    var want := set i | 0 <= i < |segs| :: EdgeOf(segs[i].start, segs[i].end);
    assert EdgeOf(segs[0].start, segs[0].end) in want;
    forall e | e in want ensures e == EdgeOf(a, b) {
      var i :| 0 <= i < |segs| && e == EdgeOf(segs[i].start, segs[i].end);
      assert i == 0 || i == 1;
    }
  }

  // ---------------------------------------------------------------------
  // Simplification
  // ---------------------------------------------------------------------

  /** The angle at the middle point, in degrees, or `None` where computing
      it raised `ValueError` or `ZeroDivisionError`. */
  type AngleFn = (Coord, Coord, Coord) -> Option<real>

  function Min(a: real, b: real): real { if a <= b then a else b }
  function Max(a: real, b: real): real { if a >= b then a else b }

  /** `_angle_of(p1, p2, p3)`: the angle at `p2` by the law of cosines over
      great-circle distances. */
  function AngleOf(p1: Coord, p2: Coord, p3: Coord, dist: Metric, acosDeg: ArcCosine): (r: real)
    ensures dist(p1, p2) == 0.0 || dist(p2, p3) == 0.0 ==> r == 180.0
    ensures IsArcCosine(acosDeg) ==> 0.0 <= r <= 180.0
  {
    AngleFromLegs(dist(p1, p2), dist(p2, p3), dist(p1, p3), acosDeg)
  }

  /** The angle between legs of lengths `d1` and `d2` facing a side of length
      `d3`: 180 when either leg has length zero, otherwise the inverse cosine
      of the law-of-cosines value clamped to [-1, 1]. */
  function AngleFromLegs(d1: real, d2: real, d3: real, acosDeg: ArcCosine): (r: real)
    ensures d1 == 0.0 || d2 == 0.0 ==> r == 180.0
    ensures IsArcCosine(acosDeg) ==> 0.0 <= r <= 180.0
  {
    if d1 == 0.0 || d2 == 0.0 then 180.0
    else acosDeg(Max(-1.0, Min(1.0, Cosine(d1, d2, d3))))
  }

  function Cosine(d1: real, d2: real, d3: real): real
    requires d1 != 0.0 && d2 != 0.0
  {
    (d1 * d1 + d2 * d2 - d3 * d3) / (2.0 * d1 * d2)
  }

  /** The angle does not depend on which neighbour comes first. */
  lemma AngleOfSymmetric(p1: Coord, p2: Coord, p3: Coord, dist: Metric, acosDeg: ArcCosine)
    requires IsDistance(dist)
    ensures AngleOf(p1, p2, p3, dist, acosDeg) == AngleOf(p3, p2, p1, dist, acosDeg)
  {
    var d1, d2, d3 := dist(p1, p2), dist(p2, p3), dist(p1, p3);
    assert dist(p3, p2) == d2 && dist(p2, p1) == d1 && dist(p3, p1) == d3;
    if d1 != 0.0 && d2 != 0.0 {
      assert 2.0 * d2 * d1 == 2.0 * d1 * d2;
      assert Cosine(d2, d1, d3) == Cosine(d1, d2, d3);
    }
  }

  /** The angle function the application uses: `_angle_of`, which never raises
      once the distances are known. */
  function GreatCircleAngle(dist: Metric, acosDeg: ArcCosine): AngleFn
  {
    (p1, p2, p3) => Some(AngleOf(p1, p2, p3, dist, acosDeg))
  }

  /** `v` has exactly two neighbours when visited, its angle is computed
      without raising, and the angle is within `eps` of a straight line. */
  predicate Collapses(g: Graph, v: Coord, eps: real, angle: AngleFn)
    requires Valid(g)
  {
    var ns := Neighbours(g, v);
    |ns| == 2 && angle(ns[0], v, ns[1]).Some? && Abs(180.0 - angle(ns[0], v, ns[1]).value) < eps
  }

  /** One iteration of the `simplify_graph` loop. A node whose neighbour count
      is not two, whose angle raises, or whose angle is not straight enough
      is skipped; otherwise it is collapsed. */
  function Visit(g: Graph, v: Coord, eps: real, angle: AngleFn, dist: Metric): (r: Graph)
    requires Valid(g)
    ensures Valid(r)
    ensures !Collapses(g, v, eps, angle) ==> r == g
    ensures forall x :: x in r.adj ==> x in g.adj
  {
    if Collapses(g, v, eps, angle) then
      var ns := Neighbours(g, v);
      assert ns[0] in ns && ns[1] in ns;
      Collapse(g, v, ns[0], ns[1], dist(ns[0], ns[1]))
    else g
  }

  /** Replaces the path `g1 - v - g3` by a direct edge `g1 - g3` of weight `w`. */
  function Collapse(g: Graph, v: Coord, g1: Coord, g3: Coord, w: real): (r: Graph)
    requires Valid(g) && HasEdge(g, v, g1) && HasEdge(g, v, g3) && g1 != g3
    ensures Valid(r)
    ensures forall x :: x in r.adj ==> x in g.adj
    ensures HasEdge(r, g1, g3) && r.adj[g1][g3] == w
  {
    var h := RemoveNode(RemoveEdge(RemoveEdge(g, g1, v), v, g3), v);
    AddEdge(h, g1, g3, w)
  }

  /** When neither neighbour is `v` itself, collapsing deletes `v` and its
      two edges, adds (or re-weights) `g1 - g3`, and leaves every other node
      and edge alone. */
  lemma CollapseEffect(g: Graph, v: Coord, g1: Coord, g3: Coord, w: real)
    requires Valid(g) && HasEdge(g, v, g1) && HasEdge(g, v, g3) && g1 != g3
    requires g1 != v && g3 != v
    ensures var r := Collapse(g, v, g1, g3, w);
      && (forall x :: x in r.adj <==> x in g.adj && x != v)
      && r.nodes == Without(g.nodes, v)
      && (forall a, b :: HasEdge(r, a, b) <==>
            (HasEdge(g, a, b) && a != v && b != v) || SameEdge(a, b, g1, g3))
      && r.adj[g1][g3] == w
      && (forall a, b :: HasEdge(r, a, b) && !SameEdge(a, b, g1, g3) ==>
            HasEdge(g, a, b) && r.adj[a][b] == g.adj[a][b])
  {
    var h1 := RemoveEdge(g, g1, v);
    var h2 := RemoveEdge(h1, v, g3);
    var h := RemoveNode(h2, v);
    assert h.nodes == Without(g.nodes, v);
    assert forall a, b :: HasEdge(h, a, b) <==> HasEdge(g, a, b) && a != v && b != v;
    var r := AddEdge(h, g1, g3, w);
    assert g1 in h.adj && g3 in h.adj;
    assert r.nodes == h.nodes;
  }

  /** A collapsing visit of a node without a self-loop: its two neighbours are
      distinct from it and each other, and `Collapse` applies to them. */
  lemma VisitCollapses(g: Graph, v: Coord, eps: real, angle: AngleFn, dist: Metric)
    requires Valid(g) && Collapses(g, v, eps, angle) && v !in g.adj[v]
    ensures var ns := Neighbours(g, v);
      && ns[0] != v && ns[1] != v && ns[0] != ns[1]
      && g.adj[v].Keys == {ns[0], ns[1]}
      && HasEdge(g, v, ns[0]) && HasEdge(g, v, ns[1])
      && Visit(g, v, eps, angle, dist) == Collapse(g, v, ns[0], ns[1], dist(ns[0], ns[1]))
  {
    var ns := Neighbours(g, v);
    assert ns[0] in ns && ns[1] in ns;
    forall x | x in g.adj[v] ensures x == ns[0] || x == ns[1] {
      assert x in ns;
    }
  }

  lemma EdgeInEdges(g: Graph, a: Coord, b: Coord)
    requires HasEdge(g, a, b)
    ensures EdgeOf(a, b) in Edges(g)
  {
  }

  lemma EdgesMember(g: Graph, e: Edge) returns (a: Coord, b: Coord)
    requires e in Edges(g)
    ensures HasEdge(g, a, b) && e == EdgeOf(a, b)
  {
    a, b :| a in g.adj && b in g.adj[a] && e == EdgeOf(a, b);
  }

  /** Collapsing removes the two edges at `v` and adds `g1 - g3`. */
  lemma CollapseEdges(g: Graph, v: Coord, g1: Coord, g3: Coord, w: real)
    requires Valid(g) && HasEdge(g, v, g1) && HasEdge(g, v, g3) && g1 != g3
    requires g1 != v && g3 != v && g.adj[v].Keys == {g1, g3}
    ensures Edges(Collapse(g, v, g1, g3, w)) == Edges(g) - {EdgeOf(g1, v), EdgeOf(v, g3)} + {EdgeOf(g1, g3)}
  {
    CollapseEffect(g, v, g1, g3, w);
    EdgesAfterCollapse(g, Collapse(g, v, g1, g3, w), v, g1, g3);
  }

  lemma EdgesAfterCollapse(g: Graph, r: Graph, v: Coord, g1: Coord, g3: Coord)
    requires Symmetric(g) && v in g.adj && g.adj[v].Keys == {g1, g3}
    requires forall a, b :: HasEdge(r, a, b) <==> (HasEdge(g, a, b) && a != v && b != v) || SameEdge(a, b, g1, g3)
    ensures Edges(r) == Edges(g) - {EdgeOf(g1, v), EdgeOf(v, g3)} + {EdgeOf(g1, g3)}
  {
    var want := Edges(g) - {EdgeOf(g1, v), EdgeOf(v, g3)} + {EdgeOf(g1, g3)};
    forall e | e in Edges(r) ensures e in want {
      var a, b := EdgesMember(r, e);
      if !SameEdge(a, b, g1, g3) {
        EdgeInEdges(g, a, b);
        EdgeOfSame(a, b, g1, v);
        EdgeOfSame(a, b, v, g3);
        EdgeOfSame(a, b, g1, g3);
      } else {
        EdgeOfSame(a, b, g1, g3);
      }
    }
    forall e | e in want ensures e in Edges(r) {
      if e == EdgeOf(g1, g3) {
        assert HasEdge(r, g1, g3);
        EdgeInEdges(r, g1, g3);
      } else {
        var a, b := EdgesMember(g, e);
        EdgeOfSame(a, b, g1, v);
        EdgeOfSame(a, b, v, g3);
        assert a != v && b != v;
        EdgeInEdges(r, a, b);
      }
    }
  }

  /** Each collapse lowers the edge count by one, or by two when `g1 - g3`
      already existed. */
  lemma CollapseEdgeCount(g: Graph, v: Coord, g1: Coord, g3: Coord, w: real)
    requires Valid(g) && HasEdge(g, v, g1) && HasEdge(g, v, g3) && g1 != g3
    requires g1 != v && g3 != v && g.adj[v].Keys == {g1, g3}
    ensures |Edges(Collapse(g, v, g1, g3, w))| == |Edges(g)| - if HasEdge(g, g1, g3) then 2 else 1
  {
    CollapseEdges(g, v, g1, g3, w);
    CountAfterCollapse(g, Edges(Collapse(g, v, g1, g3, w)), v, g1, g3);
  }

  lemma CountAfterCollapse(g: Graph, after: set<Edge>, v: Coord, g1: Coord, g3: Coord)
    requires Symmetric(g) && HasEdge(g, v, g1) && HasEdge(g, v, g3) && g1 != g3 && g1 != v && g3 != v
    requires after == Edges(g) - {EdgeOf(g1, v), EdgeOf(v, g3)} + {EdgeOf(g1, g3)}
    ensures |after| == |Edges(g)| - if HasEdge(g, g1, g3) then 2 else 1
  {
    EdgeOfSame(g1, v, v, g3);
    EdgeOfSame(g1, g3, g1, v);
    EdgeOfSame(g1, g3, v, g3);
    EdgeOfInEdges(g, g1, v);
    EdgeOfInEdges(g, v, g3);
    EdgeOfInEdges(g, g1, g3);
    SwapCount(Edges(g), EdgeOf(g1, v), EdgeOf(v, g3), EdgeOf(g1, g3));
  }

  /** In a symmetric graph an undirected edge is present exactly when either
      orientation is. */
  lemma EdgeOfInEdges(g: Graph, a: Coord, b: Coord)
    requires Symmetric(g)
    ensures EdgeOf(a, b) in Edges(g) <==> HasEdge(g, a, b)
  {
    if EdgeOf(a, b) in Edges(g) {
      var x, y := EdgesMember(g, EdgeOf(a, b));
      EdgeOfSame(x, y, a, b);
    }
  }

  /** Removing two members of a set and adding a third element. */
  lemma SwapCount<T>(s: set<T>, x: T, y: T, z: T)
    requires x in s && y in s && x != y && z != x && z != y
    ensures |s - {x, y} + {z}| == |s| - if z in s then 2 else 1
  {
    assert s - {x, y} == (s - {x}) - {y};
    if z in s {
      assert s - {x, y} + {z} == s - {x, y};
    }
  }

  /** A node with a self-loop has no other edge. Such a node never collapses:
      its only neighbour is itself. */
  predicate LoopAlone(g: Graph, v: Coord)
  {
    HasEdge(g, v, v) ==> g.adj[v].Keys == {v}
  }

  /** Every node still to be visited that has a self-loop has no other edge. */
  ghost predicate LoopsAlone(g: Graph, todo: seq<Coord>)
  {
    forall x :: x in todo ==> LoopAlone(g, x)
  }

  /** A set of one element holding `x` is `{x}`. */
  lemma SingletonSet(s: set<Coord>, x: Coord)
    requires x in s && |s| == 1
    ensures s == {x}
  {
    var t := s - {x};
    assert s == t + {x};
    assert |t| == 0;
  }

  /** In the degree-2 snapshot, a node with a self-loop has no other edge,
      since networkx counts the loop twice. */
  lemma SnapshotLoopsAlone(g: Graph)
    requires Valid(g)
    ensures LoopsAlone(g, DegreeTwo(g, g.nodes))
  {
    forall x | x in DegreeTwo(g, g.nodes) ensures LoopAlone(g, x) {
      if HasEdge(g, x, x) {
        assert |g.adj[x].Keys| == 1;
        SingletonSet(g.adj[x].Keys, x);
      }
    }
  }

  /** A collapsing node has no self-loop when a loop would be its only edge. */
  lemma CollapsingHasNoLoop(g: Graph, v: Coord, eps: real, angle: AngleFn)
    requires Valid(g) && LoopAlone(g, v) && Collapses(g, v, eps, angle)
    ensures v in g.adj && v !in g.adj[v]
  {
    var ns := Neighbours(g, v);
    assert ns[0] in ns;
  }

  /** After a collapse of `v` into `g1 - g3`, the remaining nodes with a
      self-loop still have no other edge: the new edge is not a loop, and it
      cannot touch a node whose loop was its only edge. */
  lemma CollapseKeepsLoopsAlone(g: Graph, h: Graph, v: Coord, g1: Coord, g3: Coord, rest: seq<Coord>)
    requires Symmetric(g) && HasEdge(g, v, g1) && HasEdge(g, v, g3) && g1 != g3
    requires forall a, b :: HasEdge(h, a, b) <==> (HasEdge(g, a, b) && a != v && b != v) || SameEdge(a, b, g1, g3)
    requires LoopsAlone(g, rest)
    ensures LoopsAlone(h, rest)
  {
    forall x | x in rest ensures LoopAlone(h, x) {
      if HasEdge(h, x, x) {
        assert HasEdge(g, x, x) && x != v;
        assert LoopAlone(g, x);
        forall y | y in h.adj[x] ensures y == x {
          assert HasEdge(h, x, y);
        }
      }
    }
  }

  /** A visit keeps the invariant for the nodes after the visited one. */
  lemma VisitKeepsLoopsAlone(g: Graph, todo: seq<Coord>, eps: real, angle: AngleFn, dist: Metric)
    requires Valid(g) && todo != [] && LoopsAlone(g, todo)
    ensures LoopsAlone(Visit(g, todo[0], eps, angle, dist), todo[1..])
  {
    var v := todo[0];
    assert LoopsAlone(g, todo[1..]) by {
      forall x | x in todo[1..] ensures LoopAlone(g, x) {
        assert x in todo;
      }
    }
    if Collapses(g, v, eps, angle) {
      assert v in todo;
      CollapsingHasNoLoop(g, v, eps, angle);
      VisitCollapses(g, v, eps, angle, dist);
      var ns := Neighbours(g, v);
      var w := dist(ns[0], ns[1]);
      CollapseEffect(g, v, ns[0], ns[1], w);
      CollapseKeepsLoopsAlone(g, Visit(g, v, eps, angle, dist), v, ns[0], ns[1], todo[1..]);
    }
  }

  /** A collapsing visit of a node whose self-loop, if any, is its only edge
      removes exactly that node and creates no self-loop. */
  lemma VisitRemoves(g: Graph, v: Coord, eps: real, angle: AngleFn, dist: Metric)
    requires Valid(g) && LoopAlone(g, v) && Collapses(g, v, eps, angle)
    ensures var h := Visit(g, v, eps, angle, dist);
      && v in g.adj
      && (forall x :: HasEdge(h, x, x) ==> HasEdge(g, x, x))
      && (forall x :: x in h.adj <==> x in g.adj && x != v)
      && |h.nodes| == |g.nodes| - 1
  {
    CollapsingHasNoLoop(g, v, eps, angle);
    var ns := Neighbours(g, v);
    assert ns[0] in ns;
    VisitCollapses(g, v, eps, angle, dist);
    var g1, g3 := ns[0], ns[1];
    var w := dist(g1, g3);
    CollapseEffect(g, v, g1, g3, w);
    CollapseShrinks(g, Collapse(g, v, g1, g3, w), v, g1, g3);
  }

  /** A collapsing visit lowers the edge count by one or two. */
  lemma VisitStep(g: Graph, v: Coord, eps: real, angle: AngleFn, dist: Metric)
    requires Valid(g) && LoopAlone(g, v) && Collapses(g, v, eps, angle)
    ensures var h := Visit(g, v, eps, angle, dist);
      |Edges(g)| - 2 <= |Edges(h)| <= |Edges(g)| - 1
  {
    CollapsingHasNoLoop(g, v, eps, angle);
    var ns := Neighbours(g, v);
    assert ns[0] in ns;
    VisitCollapses(g, v, eps, angle, dist);
    CollapseEdgeCount(g, v, ns[0], ns[1], dist(ns[0], ns[1]));
  }

  lemma CollapseShrinks(g: Graph, r: Graph, v: Coord, g1: Coord, g3: Coord)
    requires Valid(g) && v in g.adj && g1 != g3
    requires r.nodes == Without(g.nodes, v)
    requires forall a, b :: HasEdge(r, a, b) <==> (HasEdge(g, a, b) && a != v && b != v) || SameEdge(a, b, g1, g3)
    ensures forall x :: HasEdge(r, x, x) ==> HasEdge(g, x, x)
    ensures |r.nodes| == |g.nodes| - 1
  {
    assert v in g.nodes;
    forall x | HasEdge(r, x, x) ensures HasEdge(g, x, x) {
      assert !SameEdge(x, x, g1, g3);
    }
  }

  /** The result of one sweep: the graph and the nodes removed, in order. */
  datatype Swept = Swept(graph: Graph, removed: seq<Coord>)

  /** The `simplify_graph` loop over the nodes of `todo`, in order. */
  function Sweep(g: Graph, todo: seq<Coord>, eps: real, angle: AngleFn, dist: Metric): (r: Swept)
    requires Valid(g)
    ensures Valid(r.graph)
    ensures forall x :: x in r.graph.adj ==> x in g.adj
    ensures |r.removed| <= |todo| && forall x :: x in r.removed ==> x in todo
    decreases |todo|
  {
    if todo == [] then Swept(g, [])
    else
      var v := todo[0];
      var h := Visit(g, v, eps, angle, dist);
      var rest := Sweep(h, todo[1..], eps, angle, dist);
      assert forall x :: x in todo[1..] ==> x in todo;
      if Collapses(g, v, eps, angle) then Swept(rest.graph, [v] + rest.removed) else rest
  }

  /** `r` is what a sweep over `todo` may leave of `g`: no new self-loop, the
      removed nodes are distinct visited nodes of `g`, no node is added, and
      the node count falls by exactly the number of removals. */
  ghost predicate Shrinks(g: Graph, r: Swept, todo: seq<Coord>)
  {
    && (forall x :: HasEdge(r.graph, x, x) ==> HasEdge(g, x, x))
    && (forall x :: x in r.removed ==> x in todo && x in g.adj)
    && Distinct(r.removed)
    && (forall x :: x in r.graph.adj <==> x in g.adj && x !in r.removed)
    && |r.graph.nodes| == |g.nodes| - |r.removed|
  }

  lemma {:induction false} SweepUnfold(g: Graph, todo: seq<Coord>, eps: real, angle: AngleFn, dist: Metric)
    requires Valid(g) && todo != []
    ensures var r := Sweep(g, todo, eps, angle, dist);
      var rest := Sweep(Visit(g, todo[0], eps, angle, dist), todo[1..], eps, angle, dist);
      && r.graph == rest.graph
      && r.removed == (if Collapses(g, todo[0], eps, angle) then [todo[0]] + rest.removed else rest.removed)
  {
  }

  /** A sweep only removes nodes it visits, each at most once, adds none, and
      the node count falls by exactly the number of removals. */
  lemma {:induction false} SweepNodes(g: Graph, todo: seq<Coord>, eps: real, angle: AngleFn, dist: Metric)
    requires Valid(g) && LoopsAlone(g, todo)
    ensures Shrinks(g, Sweep(g, todo, eps, angle, dist), todo)
    decreases |todo|
  {
    if todo != [] {
      var v := todo[0];
      var h := Visit(g, v, eps, angle, dist);
      var rest := Sweep(h, todo[1..], eps, angle, dist);
      var collapsed := Collapses(g, v, eps, angle);
      if collapsed {
        assert v in todo;
        VisitRemoves(g, v, eps, angle, dist);
      }
      VisitKeepsLoopsAlone(g, todo, eps, angle, dist);
      SweepNodes(h, todo[1..], eps, angle, dist);
      SweepUnfold(g, todo, eps, angle, dist);
      ShrinksStep(g, h, rest, Sweep(g, todo, eps, angle, dist), todo, collapsed);
    }
  }

  lemma ShrinksStep(g: Graph, h: Graph, rest: Swept, r: Swept, todo: seq<Coord>, collapsed: bool)
    requires todo != [] && Valid(g)
    requires collapsed ==>
      && todo[0] in g.adj
      && (forall x :: HasEdge(h, x, x) ==> HasEdge(g, x, x))
      && (forall x :: x in h.adj <==> x in g.adj && x != todo[0])
      && |h.nodes| == |g.nodes| - 1
    requires !collapsed ==> h == g
    requires Shrinks(h, rest, todo[1..])
    requires r.graph == rest.graph
    requires r.removed == if collapsed then [todo[0]] + rest.removed else rest.removed
    ensures Shrinks(g, r, todo)
  {
    var v := todo[0];
    if collapsed {
      assert v !in rest.removed;
      PrependDistinct(v, rest.removed);
    }
  }

  lemma PrependDistinct(v: Coord, s: seq<Coord>)
    requires Distinct(s) && v !in s
    ensures Distinct([v] + s)
  {
  }

  /** Each removal in a sweep lowers the edge count by one or two. */
  lemma {:induction false} SweepEdges(g: Graph, todo: seq<Coord>, eps: real, angle: AngleFn, dist: Metric)
    requires Valid(g) && LoopsAlone(g, todo)
    ensures var r := Sweep(g, todo, eps, angle, dist);
      |Edges(g)| - 2 * |r.removed| <= |Edges(r.graph)| <= |Edges(g)| - |r.removed|
    decreases |todo|
  {
    if todo != [] {
      var v := todo[0];
      var h := Visit(g, v, eps, angle, dist);
      if Collapses(g, v, eps, angle) {
        assert v in todo;
        VisitStep(g, v, eps, angle, dist);
      }
      VisitKeepsLoopsAlone(g, todo, eps, angle, dist);
      SweepEdges(h, todo[1..], eps, angle, dist);
    }
  }

  /** The default tolerance of `simplify_graph`, in degrees. */
  const DefaultEpsilon: real := 5.0

  /** The nodes of `ns` whose degree in `g` is two, in order. */
  function DegreeTwo(g: Graph, ns: seq<Coord>): (r: seq<Coord>)
    requires forall x :: x in ns ==> x in g.adj
    ensures forall x :: x in r <==> x in ns && Degree(g, x) == 2
    decreases |ns|
  {
    if ns == [] then []
    else if Degree(g, ns[0]) == 2 then [ns[0]] + DegreeTwo(g, ns[1..])
    else DegreeTwo(g, ns[1..])
  }

  /** `simplify_graph`: a single sweep over the nodes that had degree two
      before the sweep started, in node order. */
  function SimplifyGraph(g: Graph, eps: real, angle: AngleFn, dist: Metric): (r: Graph)
    requires Valid(g)
    ensures Valid(r)
    ensures forall x :: x in r.adj ==> x in g.adj
  {
    Sweep(g, DegreeTwo(g, g.nodes), eps, angle, dist).graph
  }

  /** Simplifying removes only nodes that had degree two in the input, keeps
      every other node, adds no node and no self-loop, and lowers the edge
      count by one or two per removed node. */
  lemma SimplifyGraphShrinks(g: Graph, eps: real, angle: AngleFn, dist: Metric)
    requires Valid(g)
    ensures var s := Sweep(g, DegreeTwo(g, g.nodes), eps, angle, dist);
      var r := SimplifyGraph(g, eps, angle, dist);
      && r == s.graph
      && (forall x :: HasEdge(r, x, x) ==> HasEdge(g, x, x))
      && (forall x :: x in s.removed ==> x in g.adj && Degree(g, x) == 2)
      && (forall x :: x in r.adj <==> x in g.adj && x !in s.removed)
      && |r.nodes| == |g.nodes| - |s.removed|
      && |Edges(g)| - 2 * |s.removed| <= |Edges(r)| <= |Edges(g)| - |s.removed|
  {
    SnapshotLoopsAlone(g);
    SweepNodes(g, DegreeTwo(g, g.nodes), eps, angle, dist);
    SweepEdges(g, DegreeTwo(g, g.nodes), eps, angle, dist);
  }

  /** Nodes whose degree is not two survive simplification, and the graph never
      grows. */
  lemma SimplifyGraphKeeps(g: Graph, eps: real, angle: AngleFn, dist: Metric)
    requires Valid(g)
    ensures var r := SimplifyGraph(g, eps, angle, dist);
      && (forall x :: x in g.adj && Degree(g, x) != 2 ==> x in r.adj)
      && (forall x :: x in r.adj ==> x in g.adj)
      && |r.nodes| <= |g.nodes|
      && |Edges(r)| <= |Edges(g)|
  {
    SimplifyGraphShrinks(g, eps, angle, dist);
  }

  /** Every edge of `g` is weighted by the distance between its endpoints. */
  ghost predicate WeightsAreDistances(g: Graph, dist: Metric)
  {
    forall a, b :: HasEdge(g, a, b) ==> g.adj[a][b] == dist(a, b)
  }

  /** A collapsing visit weights its new edge by `dist`, so a graph whose
      weights are distances keeps that property. */
  lemma VisitKeepsDistances(g: Graph, v: Coord, eps: real, angle: AngleFn, dist: Metric)
    requires Valid(g) && LoopAlone(g, v) && WeightsAreDistances(g, dist)
    requires IsDistance(dist)
    ensures WeightsAreDistances(Visit(g, v, eps, angle, dist), dist)
  {
    if Collapses(g, v, eps, angle) {
      CollapsingHasNoLoop(g, v, eps, angle);
      var ns := Neighbours(g, v);
      assert ns[0] in ns;
      VisitCollapses(g, v, eps, angle, dist);
      var w := dist(ns[0], ns[1]);
      CollapseEffect(g, v, ns[0], ns[1], w);
      ReweightedDistances(g, Collapse(g, v, ns[0], ns[1], w), ns[0], ns[1], dist);
    }
  }

  lemma ReweightedDistances(g: Graph, r: Graph, g1: Coord, g3: Coord, dist: Metric)
    requires Valid(r) && WeightsAreDistances(g, dist) && IsDistance(dist)
    requires HasEdge(r, g1, g3) && r.adj[g1][g3] == dist(g1, g3)
    requires forall a, b :: HasEdge(r, a, b) && !SameEdge(a, b, g1, g3) ==>
      HasEdge(g, a, b) && r.adj[a][b] == g.adj[a][b]
    ensures WeightsAreDistances(r, dist)
  {
    forall a, b | HasEdge(r, a, b) ensures r.adj[a][b] == dist(a, b) {
      if a == g3 && b == g1 {
        assert r.adj[g3][g1] == r.adj[g1][g3];
        assert dist(g3, g1) == dist(g1, g3);
      }
    }
  }

  lemma {:induction false} SweepKeepsDistances(g: Graph, todo: seq<Coord>, eps: real, angle: AngleFn, dist: Metric)
    requires Valid(g) && LoopsAlone(g, todo) && WeightsAreDistances(g, dist) && IsDistance(dist)
    ensures WeightsAreDistances(Sweep(g, todo, eps, angle, dist).graph, dist)
    decreases |todo|
  {
    if todo != [] {
      var v := todo[0];
      var h := Visit(g, v, eps, angle, dist);
      assert v in todo;
      VisitKeepsDistances(g, v, eps, angle, dist);
      VisitKeepsLoopsAlone(g, todo, eps, angle, dist);
      SweepKeepsDistances(h, todo[1..], eps, angle, dist);
    }
  }

  /** Simplifying the graph built from segments leaves every edge weighted by
      the great-circle distance between its endpoints, so route lengths stay
      in kilometres. */
  lemma SimplifiedWeightsAreDistances(segs: seq<Segment>, eps: real, angle: AngleFn, dist: Metric)
    requires IsDistance(dist)
    ensures WeightsAreDistances(SimplifyGraph(MakeGraph(segs, dist), eps, angle, dist), dist)
  {
    var g := MakeGraph(segs, dist);
    MakeGraphWeights(segs, dist);
    SnapshotLoopsAlone(g);
    SweepKeepsDistances(g, DegreeTwo(g, g.nodes), eps, angle, dist);
  }

  /** Collapsing sets the weight of `g1 - g3` to `w` and keeps the weight of
      every other edge that remains, with or without self-loops. */
  lemma CollapseWeights(g: Graph, v: Coord, g1: Coord, g3: Coord, w: real)
    requires Valid(g) && HasEdge(g, v, g1) && HasEdge(g, v, g3) && g1 != g3
    ensures var r := Collapse(g, v, g1, g3, w);
      && HasEdge(r, g1, g3) && r.adj[g1][g3] == w
      && (forall a, b :: HasEdge(r, a, b) && !SameEdge(a, b, g1, g3) ==>
            HasEdge(g, a, b) && r.adj[a][b] == g.adj[a][b])
  {
  }

  /** A visit weights its new edge by a distance, so no weight becomes
      negative. */
  lemma VisitKeepsNonNegative(g: Graph, v: Coord, eps: real, angle: AngleFn, dist: Metric)
    requires Valid(g) && NonNegative(g) && IsDistance(dist)
    ensures NonNegative(Visit(g, v, eps, angle, dist))
  {
    if Collapses(g, v, eps, angle) {
      var ns := Neighbours(g, v);
      assert ns[0] in ns && ns[1] in ns;
      var w := dist(ns[0], ns[1]);
      CollapseWeights(g, v, ns[0], ns[1], w);
      ReweightedNonNegative(g, Collapse(g, v, ns[0], ns[1], w), ns[0], ns[1], w);
    }
  }

  lemma {:induction false} SweepKeepsNonNegative(g: Graph, todo: seq<Coord>, eps: real, angle: AngleFn, dist: Metric)
    requires Valid(g) && NonNegative(g) && IsDistance(dist)
    ensures NonNegative(Sweep(g, todo, eps, angle, dist).graph)
    decreases |todo|
  {
    if todo != [] {
      VisitKeepsNonNegative(g, todo[0], eps, angle, dist);
      SweepKeepsNonNegative(Visit(g, todo[0], eps, angle, dist), todo[1..], eps, angle, dist);
    }
  }

  /** The simplified graph built from any segments has no negative weight, so
      Dijkstra applies to it; segments whose two ends coincide are allowed. */
  lemma SimplifiedNonNegative(segs: seq<Segment>, eps: real, angle: AngleFn, dist: Metric)
    requires IsDistance(dist)
    ensures NonNegative(SimplifyGraph(MakeGraph(segs, dist), eps, angle, dist))
  {
    var g := MakeGraph(segs, dist);
    MakeGraphWeights(segs, dist);
    SweepKeepsNonNegative(g, DegreeTwo(g, g.nodes), eps, angle, dist);
  }

  /** A visit never empties a graph: a collapse keeps both neighbours. */
  lemma VisitKeepsSomeNode(g: Graph, v: Coord, eps: real, angle: AngleFn, dist: Metric)
    requires Valid(g)
    ensures Visit(g, v, eps, angle, dist).nodes == [] <==> g.nodes == []
  {
    if Collapses(g, v, eps, angle) {
      var ns := Neighbours(g, v);
      assert ns[0] in ns && ns[1] in ns;
      CollapseWeights(g, v, ns[0], ns[1], dist(ns[0], ns[1]));
      var r := Visit(g, v, eps, angle, dist);
      assert ns[0] in r.adj && v in g.adj;
      assert ns[0] in r.nodes && v in g.nodes;
    }
  }

  lemma {:induction false} SweepKeepsSomeNode(g: Graph, todo: seq<Coord>, eps: real, angle: AngleFn, dist: Metric)
    requires Valid(g)
    ensures Sweep(g, todo, eps, angle, dist).graph.nodes == [] <==> g.nodes == []
    decreases |todo|
  {
    if todo != [] {
      VisitKeepsSomeNode(g, todo[0], eps, angle, dist);
      SweepKeepsSomeNode(Visit(g, todo[0], eps, angle, dist), todo[1..], eps, angle, dist);
    }
  }

  /** The simplified graph of a segment list has no node exactly when the list
      is empty. */
  lemma NoNodesIffNoSegments(segs: seq<Segment>, eps: real, angle: AngleFn, dist: Metric)
    ensures SimplifyGraph(MakeGraph(segs, dist), eps, angle, dist).nodes == [] <==> segs == []
  {
    var g := MakeGraph(segs, dist);
    MakeGraphNodes(segs, dist);
    SweepKeepsSomeNode(g, DegreeTwo(g, g.nodes), eps, angle, dist);
    if segs != [] {
      assert IsEndpoint(segs, segs[0].start);
      assert segs[0].start in g.nodes;
    }
  }

  /** Index `k` of `ns` is the first of those closest to `target`. */
  ghost predicate FirstClosest(ns: seq<Coord>, target: Coord, dist: Metric, k: int)
  {
    && 0 <= k < |ns|
    && (forall i :: 0 <= i < |ns| ==> dist(target, ns[k]) <= dist(target, ns[i]))
    && (forall i :: 0 <= i < k ==> dist(target, ns[i]) > dist(target, ns[k]))
  }

  /** At most one index is the first closest. */
  lemma FirstClosestUnique(ns: seq<Coord>, target: Coord, dist: Metric, j: int, k: int)
    requires FirstClosest(ns, target, dist, j) && FirstClosest(ns, target, dist, k)
    ensures j == k
  {
    var dj, dk := dist(target, ns[j]), dist(target, ns[k]);
    assert j < k ==> dj > dk;
    assert k < j ==> dk > dj;
  }

  /** The first of the nodes of `ns` nearest to `target`, as a scan from the
      front that moves only on a strictly smaller distance finds it. */
  function Nearest(ns: seq<Coord>, target: Coord, dist: Metric): (k: nat)
    requires ns != []
    ensures FirstClosest(ns, target, dist, k)
    decreases |ns|
  {
    if |ns| == 1 then 0
    else
      var init := ns[..|ns| - 1];
      var k := Nearest(init, target, dist);
      assert forall i :: 0 <= i < |init| ==> init[i] == ns[i];
      if dist(target, ns[|ns| - 1]) < dist(target, ns[k]) then |ns| - 1 else k
  }

  /** `find_closest_node`: a scan of the nodes keeping the first strictly
      smaller distance; `None` exactly when the graph has no nodes, otherwise
      the node `Nearest` names. */
  method FindClosestNode(g: Graph, target: Coord, dist: Metric) returns (r: Option<Coord>)
    ensures r.None? <==> g.nodes == []
    ensures r.Some? ==> exists k :: FirstClosest(g.nodes, target, dist, k) && g.nodes[k] == r.value
    ensures r.Some? ==> r.value == g.nodes[Nearest(g.nodes, target, dist)]
  {
    r := None;
    var best := 0;
    for i := 0 to |g.nodes|
      invariant r.None? <==> i == 0
      invariant i > 0 ==> best < i && r == Some(g.nodes[best])
      invariant i > 0 ==> forall j :: 0 <= j < i ==> dist(target, g.nodes[best]) <= dist(target, g.nodes[j])
      invariant i > 0 ==> forall j :: 0 <= j < best ==> dist(target, g.nodes[j]) > dist(target, g.nodes[best])
    {
      if r.None? || dist(target, g.nodes[i]) < dist(target, g.nodes[best]) {
        r := Some(g.nodes[i]);
        best := i;
      }
    }
    if r.Some? {
      assert FirstClosest(g.nodes, target, dist, best);
      FirstClosestUnique(g.nodes, target, dist, best, Nearest(g.nodes, target, dist));
    }
  }
}
