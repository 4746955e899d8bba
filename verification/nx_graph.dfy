/** The undirected weighted graph the services build on, with the semantics of
    a networkx `Graph`: nodes are values kept in insertion order, adjacency is a
    map from node to neighbour to edge weight, `(a, b)` and `(b, a)` are the same
    edge, re-adding an edge overwrites its weight, and self-loops are allowed. */
module NxGraph {
  import opened Models

  datatype Graph = Graph(nodes: seq<Coord>, adj: map<Coord, map<Coord, real>>)

  const EmptyGraph: Graph := Graph([], map[])

  ghost predicate Distinct(s: seq<Coord>)
  {
    forall i, j :: 0 <= i < j < |s| ==> s[i] != s[j]
  }

  /** The node order lists exactly the nodes of the adjacency map. */
  ghost predicate NodesListed(g: Graph)
  {
    forall v :: v in g.nodes <==> v in g.adj
  }

  /** Every edge is seen from both ends, with one weight. */
  ghost predicate Symmetric(g: Graph)
  {
    forall u, v :: u in g.adj && v in g.adj[u] ==>
      v in g.adj && u in g.adj[v] && g.adj[v][u] == g.adj[u][v]
  }

  /** The node order lists each node once, and the adjacency is symmetric with
      one weight per edge. */
  ghost predicate Valid(g: Graph)
  {
    Distinct(g.nodes) && NodesListed(g) && Symmetric(g)
  }

  predicate HasEdge(g: Graph, u: Coord, v: Coord)
  {
    u in g.adj && v in g.adj[u]
  }

  /** Both orientations of an edge denote the same undirected edge. */
  predicate SameEdge(a: Coord, b: Coord, u: Coord, v: Coord)
  {
    (a == u && b == v) || (a == v && b == u)
  }

  /** No edge has a negative weight; great-circle distances never do. */
  ghost predicate NonNegative(g: Graph)
  {
    forall a, b :: HasEdge(g, a, b) ==> g.adj[a][b] >= 0.0
  }

  /** networkx's `degree`: a self-loop counts twice. */
  function Degree(g: Graph, v: Coord): nat
    requires v in g.adj
  {
    |g.adj[v]| + if v in g.adj[v] then 1 else 0
  }

  /** An undirected edge, stored with its endpoints in a fixed order. */
  datatype Edge = Edge(lo: Coord, hi: Coord)

  /** Lexicographic order on coordinates, used only to name undirected edges. */
  predicate Before(a: Coord, b: Coord)
  {
    a.lat < b.lat || (a.lat == b.lat && a.lon <= b.lon)
  }

  /** The undirected edge between `u` and `v`. */
  function EdgeOf(u: Coord, v: Coord): (e: Edge)
    ensures SameEdge(e.lo, e.hi, u, v)
  {
    if Before(u, v) then Edge(u, v) else Edge(v, u)
  }

  /** Two orientations name the same edge exactly when they join the same pair. */
  lemma EdgeOfSame(a: Coord, b: Coord, u: Coord, v: Coord)
    ensures EdgeOf(a, b) == EdgeOf(u, v) <==> SameEdge(a, b, u, v)
  {
  }

  /** The edges of `g`. */
  ghost function Edges(g: Graph): set<Edge>
  {
    set u, v | u in g.adj && v in g.adj[u] :: EdgeOf(u, v)
  }

  /** The neighbours of a node are nodes. */
  lemma NeighboursAreNodes(g: Graph, u: Coord)
    requires Valid(g) && u in g.adj
    ensures g.adj[u].Keys <= g.adj.Keys
  {
  }

  /** The members of `s`, in the order `ns` lists them. */
  function InOrder(ns: seq<Coord>, s: set<Coord>): (r: seq<Coord>)
    ensures forall x :: x in r <==> x in ns && x in s
    ensures Distinct(r)
    ensures (forall x :: x in s ==> x in ns) ==> |r| == |s|
    decreases |ns|
  {
    if ns == [] then []
    else if ns[0] in s then
      var rest := InOrder(ns[1..], s - {ns[0]});
      [ns[0]] + rest
    else InOrder(ns[1..], s)
  }

  /** The neighbours of `v`, in node order. networkx lists them in edge
      insertion order instead; every use in this model is insensitive to the
      order (see `AngleOfSymmetric` and the relaxation loop of `Dijkstra`). */
  function Neighbours(g: Graph, v: Coord): (r: seq<Coord>)
    requires Valid(g)
    ensures forall x :: x in r <==> HasEdge(g, v, x)
    ensures Distinct(r)
    ensures v in g.adj ==> |r| == |g.adj[v]|
  {
    if v in g.adj then InOrder(g.nodes, g.adj[v].Keys) else []
  }

  /** `s` with `v` removed, the rest in order. */
  function Without(s: seq<Coord>, v: Coord): (r: seq<Coord>)
    ensures forall x :: x in r <==> x in s && x != v
    ensures Distinct(s) ==> Distinct(r) && |r| == if v in s then |s| - 1 else |s|
  {
    if s == [] then []
    else if s[0] == v then Without(s[1..], v)
    else
      var rest := Without(s[1..], v);
      assert Distinct(s) ==> s[0] !in s[1..];
      [s[0]] + rest
  }

  /** `add_node`: a new node goes to the end of the node order; an existing one
      is left alone. */
  function AddNode(g: Graph, v: Coord): (r: Graph)
    requires Valid(g)
    ensures Valid(r)
    ensures forall x :: x in r.adj <==> x in g.adj || x == v
    ensures r.nodes == if v in g.adj then g.nodes else g.nodes + [v]
    ensures forall a, b :: HasEdge(r, a, b) <==> HasEdge(g, a, b)
    ensures forall a, b :: HasEdge(r, a, b) ==> HasEdge(g, a, b) && r.adj[a][b] == g.adj[a][b]
  {
    if v in g.adj then g
    else
      var r := Graph(g.nodes + [v], g.adj[v := map[]]);
      assert NodesListed(r);
      assert Symmetric(r);
      r
  }

  /** `add_edge(u, v, weight=w)`: adds missing endpoints, `u` before `v`, at
      the end of the node order, then sets the weight of the undirected edge,
      overwriting any earlier one. */
  function AddEdge(g: Graph, u: Coord, v: Coord, w: real): (r: Graph)
    requires Valid(g)
    ensures Valid(r)
    ensures forall x :: x in r.adj <==> x in g.adj || x == u || x == v
    ensures r.nodes == g.nodes + (if u in g.adj then [] else [u]) + (if v in g.adj || v == u then [] else [v])
    ensures |g.nodes| <= |r.nodes| && r.nodes[..|g.nodes|] == g.nodes
    ensures HasEdge(r, u, v) && r.adj[u][v] == w
    ensures forall a, b :: HasEdge(r, a, b) <==> HasEdge(g, a, b) || SameEdge(a, b, u, v)
    ensures forall a, b :: HasEdge(r, a, b) && !SameEdge(a, b, u, v) ==>
      HasEdge(g, a, b) && r.adj[a][b] == g.adj[a][b]
  {
    var g0 := AddNode(g, u);
    var g1 := AddNode(g0, v);
    assert v in g0.adj <==> v in g.adj || v == u;
    assert g1.nodes == g.nodes + (if u in g.adj then [] else [u]) + (if v in g.adj || v == u then [] else [v]);
    SetWeight(g1, u, v, w)
  }

  /** Sets the weight of the edge between two existing nodes. */
  function SetWeight(g: Graph, u: Coord, v: Coord, w: real): (r: Graph)
    requires Valid(g) && u in g.adj && v in g.adj
    ensures Valid(r)
    ensures r.nodes == g.nodes && r.adj.Keys == g.adj.Keys
    ensures HasEdge(r, u, v) && r.adj[u][v] == w
    ensures forall a, b :: HasEdge(r, a, b) <==> HasEdge(g, a, b) || SameEdge(a, b, u, v)
    ensures forall a, b :: HasEdge(r, a, b) && !SameEdge(a, b, u, v) ==>
      HasEdge(g, a, b) && r.adj[a][b] == g.adj[a][b]
  {
    var a := if u == v then g.adj[u := g.adj[u][u := w]]
             else g.adj[u := g.adj[u][v := w]][v := g.adj[v][u := w]];
    var r := Graph(g.nodes, a);
    assert a.Keys == g.adj.Keys;
    assert NodesListed(r);
    ReweightedSymmetric(g, u, v, w, r);
    r
  }

  /** `remove_edge(u, v)`: only that edge goes; every node stays. */
  function RemoveEdge(g: Graph, u: Coord, v: Coord): (r: Graph)
    requires Valid(g)
    requires HasEdge(g, u, v)
    ensures Valid(r)
    ensures r.nodes == g.nodes && r.adj.Keys == g.adj.Keys
    ensures forall a, b :: HasEdge(r, a, b) <==> HasEdge(g, a, b) && !SameEdge(a, b, u, v)
    ensures forall a, b :: HasEdge(r, a, b) ==> HasEdge(g, a, b) && r.adj[a][b] == g.adj[a][b]
  {
    var a1 := g.adj[u := g.adj[u] - {v}];
    var a2 := a1[v := a1[v] - {u}];
    var r := Graph(g.nodes, a2);
    assert a2.Keys == g.adj.Keys;
    assert NodesListed(r);
    DroppedEdgeSymmetric(g, u, v, r);
    r
  }

  /** `remove_node(v)`: the node and every edge at it go. */
  function RemoveNode(g: Graph, v: Coord): (r: Graph)
    requires Valid(g)
    requires v in g.adj
    ensures Valid(r)
    ensures r.nodes == Without(g.nodes, v)
    ensures forall x :: x in r.adj <==> x in g.adj && x != v
    ensures forall a, b :: HasEdge(r, a, b) <==> HasEdge(g, a, b) && a != v && b != v
    ensures forall a, b :: HasEdge(r, a, b) ==> HasEdge(g, a, b) && r.adj[a][b] == g.adj[a][b]
  {
    var a := map x | x in g.adj && x != v :: g.adj[x] - {v};
    var r := Graph(Without(g.nodes, v), a);
    assert NodesListed(r);
    RestrictedSymmetric(g, v, r);
    r
  }

  /** Dropping every edge at `v` from a symmetric adjacency leaves it
      symmetric. */
  lemma RestrictedSymmetric(g: Graph, v: Coord, r: Graph)
    requires Symmetric(g)
    requires forall x :: x in r.adj ==> x in g.adj && x != v
    requires forall x, y :: HasEdge(r, x, y) <==> HasEdge(g, x, y) && x != v && y != v
    requires forall x, y :: HasEdge(r, x, y) ==> HasEdge(g, x, y) && r.adj[x][y] == g.adj[x][y]
    ensures Symmetric(r)
  {
    forall x, y | x in r.adj && y in r.adj[x]
      ensures y in r.adj && x in r.adj[y] && r.adj[y][x] == r.adj[x][y]
    {
      assert HasEdge(g, x, y) && x != v && y != v;
      assert HasEdge(r, y, x);
    }
  }

  /** Setting the weight of one undirected edge from both ends keeps a
      symmetric adjacency symmetric. */
  lemma ReweightedSymmetric(g: Graph, u: Coord, v: Coord, w: real, r: Graph)
    requires Symmetric(g) && r.adj.Keys == g.adj.Keys
    requires forall x, y :: HasEdge(r, x, y) <==> HasEdge(g, x, y) || SameEdge(x, y, u, v)
    requires forall x, y :: HasEdge(r, x, y) && SameEdge(x, y, u, v) ==> r.adj[x][y] == w
    requires forall x, y :: HasEdge(r, x, y) && !SameEdge(x, y, u, v) ==> HasEdge(g, x, y) && r.adj[x][y] == g.adj[x][y]
    ensures Symmetric(r)
  {
    forall x, y | x in r.adj && y in r.adj[x]
      ensures y in r.adj && x in r.adj[y] && r.adj[y][x] == r.adj[x][y]
    {
      assert HasEdge(r, y, x);
    }
  }

  /** Dropping one undirected edge from both ends keeps a symmetric adjacency
      symmetric. */
  lemma DroppedEdgeSymmetric(g: Graph, u: Coord, v: Coord, r: Graph)
    requires Symmetric(g) && r.adj.Keys == g.adj.Keys
    requires forall x, y :: HasEdge(r, x, y) <==> HasEdge(g, x, y) && !SameEdge(x, y, u, v)
    requires forall x, y :: HasEdge(r, x, y) ==> HasEdge(g, x, y) && r.adj[x][y] == g.adj[x][y]
    ensures Symmetric(r)
  {
    forall x, y | x in r.adj && y in r.adj[x]
      ensures y in r.adj && x in r.adj[y] && r.adj[y][x] == r.adj[x][y]
    {
      assert HasEdge(r, y, x);
    }
  }

  /** Adding an edge of non-negative weight keeps every weight non-negative. */
  lemma AddEdgeNonNegative(g: Graph, u: Coord, v: Coord, w: real)
    requires Valid(g) && NonNegative(g) && w >= 0.0
    ensures NonNegative(AddEdge(g, u, v, w))
  {
    ReweightedNonNegative(g, AddEdge(g, u, v, w), u, v, w);
  }

  /** A graph that agrees with `g` except for one edge of weight `w >= 0` has
      no negative weight when `g` has none. */
  lemma ReweightedNonNegative(g: Graph, r: Graph, g1: Coord, g3: Coord, w: real)
    requires Valid(r) && NonNegative(g) && w >= 0.0
    requires HasEdge(r, g1, g3) && r.adj[g1][g3] == w
    requires forall a, b :: HasEdge(r, a, b) && !SameEdge(a, b, g1, g3) ==>
      HasEdge(g, a, b) && r.adj[a][b] == g.adj[a][b]
    ensures NonNegative(r)
  {
    forall a, b | HasEdge(r, a, b) ensures r.adj[a][b] >= 0.0 {
      if a == g3 && b == g1 {
        assert r.adj[g3][g1] == r.adj[g1][g3];
      }
    }
  }
}
