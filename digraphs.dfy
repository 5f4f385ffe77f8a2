/**
 * The directed graphs the census works on, as values: the vertices in the
 * order the graph object lists them (insertion order) and the edges in the
 * order they were added.
 */
module Digraphs {
  import opened Seqs
  import opened Combinatorics

  type Vertex = int

  datatype Graph = Graph(vertices: seq<Vertex>, edges: seq<Edge>)

  /**
   * What a directed simple-graph object guarantees: no vertex and no edge
   * occurs twice, and every edge joins two of the graph's vertices.
   */
  predicate WellFormed(g: Graph) {
    && Distinct(g.vertices)
    && Distinct(g.edges)
    && forall e :: e in g.edges ==> e.0 in g.vertices && e.1 in g.vertices
  }

  /** Appends `v` unless it is already present (adding a node that exists is a no-op). */
  function AddVertex(vs: seq<Vertex>, v: Vertex): seq<Vertex> {
    if v in vs then vs else vs + [v]
  }

  /**
   * The vertex order of a graph built by adding the edges `es` one after
   * another to an empty graph: each edge adds its source, then its target,
   * when not yet present.
   */
  function NodeOrder(es: seq<Edge>): seq<Vertex> {
    if es == [] then []
    else
      var last := es[|es| - 1];
      AddVertex(AddVertex(NodeOrder(es[..|es| - 1]), last.0), last.1)
  }

  /**
   * Adding the edge (u, v): its endpoints join the vertices when new, and the
   * edge joins the edges unless it is already there.
   */
  function AddEdge(g: Graph, u: Vertex, v: Vertex): Graph {
    Graph(AddVertex(AddVertex(g.vertices, u), v),
          if (u, v) in g.edges then g.edges else g.edges + [(u, v)])
  }

  /** The set of endpoints of a list of edges. */
  function Endpoints(es: seq<Edge>): set<Vertex> {
    (set e | e in es :: e.0) + (set e | e in es :: e.1)
  }

  /** The graph built by adding the edges `es` to an empty graph, as `add_edges_from` does. */
  function FromEdges(es: seq<Edge>): Graph {
    Graph(NodeOrder(es), es)
  }

  lemma AddVertexProps(vs: seq<Vertex>, v: Vertex)
    requires Distinct(vs)
    ensures Distinct(AddVertex(vs, v))
    ensures Elems(AddVertex(vs, v)) == Elems(vs) + {v}
  {
  }

  lemma {:induction false} NodeOrderProps(es: seq<Edge>)
    ensures Distinct(NodeOrder(es))
    ensures Elems(NodeOrder(es)) == Endpoints(es)
  {
    if es != [] {
      var init, last := es[..|es| - 1], es[|es| - 1];
      assert es == init + [last];
      NodeOrderProps(init);
      NodeOrderSnoc(init, last);
      EndpointsSnoc(init, last);
      AddVertexProps(NodeOrder(init), last.0);
      AddVertexProps(AddVertex(NodeOrder(init), last.0), last.1);
    }
  }

  lemma NodeOrderSnoc(es: seq<Edge>, e: Edge)
    ensures NodeOrder(es + [e]) == AddVertex(AddVertex(NodeOrder(es), e.0), e.1)
  {
    assert (es + [e])[..|es|] == es;
  }

  lemma EndpointsSnoc(es: seq<Edge>, e: Edge)
    ensures Endpoints(es + [e]) == Endpoints(es) + {e.0, e.1}
  {
    assert forall x :: x in es + [e] <==> x in es || x == e;
  }

  /** A graph built from distinct edges is well formed, and its vertices are exactly their endpoints. */
  lemma FromEdgesWellFormed(es: seq<Edge>)
    requires Distinct(es)
    ensures WellFormed(FromEdges(es))
    ensures Elems(FromEdges(es).vertices) == Endpoints(es)
  {
    NodeOrderProps(es);
    forall e | e in es ensures e.0 in Endpoints(es) && e.1 in Endpoints(es) { }
  }

  /** The edges of `es` with both endpoints in `vs`, in their original order. */
  function EdgesWithin(es: seq<Edge>, vs: seq<Vertex>): (r: seq<Edge>)
    ensures forall e :: e in r <==> e in es && e.0 in vs && e.1 in vs
    ensures IsSubsequence(r, es)
  {
    if es == [] then []
    else if es[0].0 in vs && es[0].1 in vs then
      assert es[0] in es;
      [es[0]] + EdgesWithin(es[1..], vs)
    else EdgesWithin(es[1..], vs)
  }

  /** The subgraph of `g` induced by the vertices `vs`. */
  function Induced(g: Graph, vs: seq<Vertex>): Graph {
    Graph(vs, EdgesWithin(g.edges, vs))
  }

  /** Keeping the edges within a vertex list that holds every endpoint keeps them all. */
  lemma {:induction false} EdgesWithinAll(es: seq<Edge>, vs: seq<Vertex>)
    requires forall e :: e in es ==> e.0 in vs && e.1 in vs
    ensures EdgesWithin(es, vs) == es
    decreases |es|
  {
    if es != [] {
      assert forall e :: e in es[1..] ==> e in es;
      EdgesWithinAll(es[1..], vs);
      assert [es[0]] + es[1..] == es;
    }
  }

  /** A simple graph is its own subgraph induced on all its vertices. */
  lemma InducedWhole(g: Graph)
    requires WellFormed(g)
    ensures Induced(g, g.vertices) == g
  {
    EdgesWithinAll(g.edges, g.vertices);
  }

  lemma InducedWellFormed(g: Graph, vs: seq<Vertex>)
    requires WellFormed(g) && Distinct(vs)
    ensures WellFormed(Induced(g, vs))
  {
    SubsequenceElems(EdgesWithin(g.edges, vs), g.edges);
  }

  /** The edges of `es` leaving `v`, in their original order. */
  function EdgesFrom(es: seq<Edge>, v: Vertex): seq<Edge> {
    if es == [] then []
    else if es[0].0 == v then [es[0]] + EdgesFrom(es[1..], v)
    else EdgesFrom(es[1..], v)
  }

  lemma {:induction false} EdgesFromElems(es: seq<Edge>, v: Vertex)
    ensures forall e :: e in EdgesFrom(es, v) <==> e in es && e.0 == v
    decreases |es|
  {
    if es != [] {
      EdgesFromElems(es[1..], v);
      assert forall e :: e in es <==> e == es[0] || e in es[1..];
    }
  }

  /**
   * The order in which a directed graph object iterates its edges: vertex by
   * vertex in vertex order, and for each vertex its out-edges in the order
   * they were added.
   */
  function EdgeListing(g: Graph): seq<Edge> {
    ListFrom(g.edges, g.vertices)
  }

  function ListFrom(es: seq<Edge>, vs: seq<Vertex>): seq<Edge> {
    if vs == [] then [] else EdgesFrom(es, vs[0]) + ListFrom(es, vs[1..])
  }

  lemma {:induction false} ListFromElems(es: seq<Edge>, vs: seq<Vertex>)
    ensures forall e :: e in ListFrom(es, vs) <==> e in es && e.0 in vs
  {
    if vs != [] {
      ListFromElems(es, vs[1..]);
      EdgesFromElems(es, vs[0]);
      assert forall v :: v in vs <==> v == vs[0] || v in vs[1..];
    }
  }

  /** Listing the edges of a well-formed graph shows each of its edges and nothing else. */
  lemma EdgeListingElems(g: Graph)
    requires WellFormed(g)
    ensures Elems(EdgeListing(g)) == Elems(g.edges)
  {
    ListFromElems(g.edges, g.vertices);
  }
}
