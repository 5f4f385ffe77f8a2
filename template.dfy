/**
 * The complete directed graph on the vertices 1..k without self-loops, built
 * by two nested loops over 1..k that add the edge (i, j) whenever i != j, and
 * the order in which its edges are listed afterwards.
 */
module Template {
  import opened Seqs
  import opened Combinatorics
  import opened Digraphs

  /** The integers a, a + 1, ..., b. */
  function Iota(a: int, b: int): (r: seq<int>)
    ensures |r| == if a > b then 0 else b - a + 1
    ensures forall x :: x in r <==> a <= x <= b
    decreases b - a
  {
    if a > b then [] else [a] + Iota(a + 1, b)
  }

  lemma {:induction false} IotaSnoc(a: int, b: int)
    requires a <= b
    ensures Iota(a, b) == Iota(a, b - 1) + [b]
    decreases b - a
  {
    if a < b {
      IotaSnoc(a + 1, b);
    }
  }

  /**
   * The template as the source builds it: starting from an empty graph, the
   * edge (i, j) is added for i = 1..k and, inside, j = 1..k, whenever i != j.
   */
  method CompleteTemplate(k: int) returns (g: Graph)
    ensures g == FromEdges(OrderedPairs(k))
  {
    g := Graph([], []);
    var i := 1;
    while i <= k
      invariant 1 <= i && (k >= 1 ==> i <= k + 1) && (k < 1 ==> i == 1)
      invariant g.vertices == VerticesSoFar(i, 1, k) && g.edges == Rows(i - 1, k)
    {
      g := AddRow(g, i, k);
      i := i + 1;
    }
    TemplateVertices(k);
  }

  /** The inner loop: the edges (i, j), j = 1..k, j != i, added in ascending j. */
  method AddRow(g0: Graph, i: int, k: int) returns (g: Graph)
    requires 1 <= i <= k
    requires g0.vertices == VerticesSoFar(i, 1, k) && g0.edges == Rows(i - 1, k)
    ensures g.vertices == VerticesSoFar(i + 1, 1, k) && g.edges == Rows(i, k)
  {
    g := g0;
    var j := 1;
    AddRowEntry(g, i, k);
    while j <= k
      invariant 1 <= j <= k + 1
      invariant SoFar(g, i, j, k)
    {
      AddRowStep(g, i, j, k);
      if i != j {
        g := AddEdge(g, i, j);
      }
      j := j + 1;
    }
    AddRowExit(g, i, k);
  }

  /** The graph before (i, j) is considered: rows 1..i - 1 and row i up to j - 1. */
  ghost predicate SoFar(g: Graph, i: int, j: int, k: int) {
    g.vertices == VerticesSoFar(i, j, k) && g.edges == Rows(i - 1, k) + Row(i, j - 1)
  }

  lemma AddRowEntry(g: Graph, i: int, k: int)
    requires 1 <= i <= k && g.vertices == VerticesSoFar(i, 1, k) && g.edges == Rows(i - 1, k)
    ensures SoFar(g, i, 1, k)
  {
    RowBounds(i, k);
  }

  lemma AddRowExit(g: Graph, i: int, k: int)
    requires 1 <= i <= k && SoFar(g, i, k + 1, k)
    ensures g.vertices == VerticesSoFar(i + 1, 1, k) && g.edges == Rows(i, k)
  {
    RowBounds(i, k);
    VerticesStep(i, k, k);
  }

  /** One pass of the inner loop keeps its invariant. */
  lemma AddRowStep(g: Graph, i: int, j: int, k: int)
    requires 1 <= i <= k && 1 <= j <= k && SoFar(g, i, j, k)
    ensures SoFar(if i != j then AddEdge(g, i, j) else g, i, j + 1, k)
  {
    TemplateStep(i, j, k, Rows(i - 1, k) + Row(i, j - 1), Rows(i - 1, k) + Row(i, j));
    VerticesStep(i, j, k);
  }

  /**
   * The vertex order while the template is built, before the edge (i, j) is
   * considered: nothing until (1, 2) is added, then 1..j - 1 along the first
   * row, then 1..k.
   */
  ghost function VerticesSoFar(i: int, j: int, k: int): seq<Vertex> {
    if i == 1 then (if j >= 3 then Iota(1, j - 1) else [])
    else if k >= 2 then Iota(1, k) else []
  }

  lemma VerticesStep(i: int, j: int, k: int)
    requires 1 <= i <= k && 1 <= j <= k
    ensures j == k ==> VerticesSoFar(i, j + 1, k) == VerticesSoFar(i + 1, 1, k)
    ensures i != j ==> AddVertex(AddVertex(VerticesSoFar(i, j, k), i), j) == VerticesSoFar(i, j + 1, k)
    ensures i == j ==> VerticesSoFar(i, j, k) == VerticesSoFar(i, j + 1, k)
  {
    if i == 1 && j >= 3 {
      IotaSnoc(1, j);
    } else if i == 1 && j == 2 {
      assert Iota(1, 2) == [1, 2];
    }
  }

  /** The vertices the loops leave behind are those of the graph built from the pairs. */
  lemma TemplateVertices(k: int)
    ensures VerticesSoFar(if k < 1 then 1 else k + 1, 1, k) == NodeOrder(OrderedPairs(k))
  {
    if k >= 2 {
      NodeOrderPairs(k);
    } else if k == 1 {
      assert OrderedPairs(1) == Row(1, 1) == [];
    }
  }

  /** The inner loop starts from the rows before i and ends with row i added. */
  lemma RowBounds(i: int, k: int)
    requires i >= 1
    ensures Rows(i - 1, k) + Row(i, 0) == Rows(i - 1, k)
    ensures Rows(i, k) == Rows(i - 1, k) + Row(i, k)
  {
    assert Row(i, 0) == [];
  }

  /** One pass of the inner loop: (i, j) is added to the pairs so far unless i == j. */
  lemma TemplateStep(i: int, j: int, k: int, before: seq<Edge>, after: seq<Edge>)
    requires 1 <= i && 1 <= j
    requires before == Rows(i - 1, k) + Row(i, j - 1) && after == Rows(i - 1, k) + Row(i, j)
    ensures i != j ==> after == before + [(i, j)] && (i, j) !in before
    ensures i == j ==> after == before
  {
    if i != j {
      assert Row(i, j) == Row(i, j - 1) + [(i, j)];
      RowsElems(i - 1, k);
      RowProps(i, j - 1);
    } else {
      assert Row(i, j) == Row(i, j - 1) + [];
      assert Row(i, j) == Row(i, j - 1);
    }
  }

  /** Adding edges whose endpoints are all present already leaves the vertex order alone. */
  lemma {:induction false} NodeOrderAppend(a: seq<Edge>, b: seq<Edge>)
    requires Endpoints(b) <= Elems(NodeOrder(a))
    ensures NodeOrder(a + b) == NodeOrder(a)
    decreases |b|
  {
    if b == [] {
      assert a + b == a;
    } else {
      var b', x := b[..|b| - 1], b[|b| - 1];
      assert b == b' + [x];
      assert (a + b)[..|a + b| - 1] == a + b';
      assert Endpoints(b') <= Endpoints(b);
      NodeOrderAppend(a, b');
      assert x.0 in Endpoints(b) && x.1 in Endpoints(b);
    }
  }

  lemma {:induction false} NodeOrderFirstRow(m: int)
    requires m >= 2
    ensures NodeOrder(Row(1, m)) == Iota(1, m)
    decreases m
  {
    var es := Row(1, m);
    assert es == Row(1, m - 1) + [(1, m)];
    assert es[..|es| - 1] == Row(1, m - 1);
    IotaSnoc(1, m);
    if m == 2 {
      assert Row(1, 1) == [];
      assert Iota(1, 2) == [1, 2];
    } else {
      NodeOrderFirstRow(m - 1);
    }
  }

  /** The pairs over 1..k list their endpoints in ascending order: the first row already shows all of them. */
  lemma NodeOrderPairs(k: int)
    requires k >= 2
    ensures NodeOrder(Rows(k, k)) == Iota(1, k)
  {
    var a, b := Rows(1, k), RowsFrom(2, k);
    RowsSplit(1, k);
    assert a == Row(1, k);
    NodeOrderFirstRow(k);
    RowsElems(k, k);
    forall e | e in b ensures 1 <= e.0 <= k && 1 <= e.1 <= k {
      assert e in a + b;
    }
    NodeOrderNextRow(a, b, Rows(k, k), k);
  }

  lemma NodeOrderNextRow(a: seq<Edge>, b: seq<Edge>, c: seq<Edge>, k: int)
    requires NodeOrder(a) == Iota(1, k) && c == a + b
    requires forall e :: e in b ==> 1 <= e.0 <= k && 1 <= e.1 <= k
    ensures NodeOrder(c) == Iota(1, k)
  {
    assert Endpoints(b) <= Elems(Iota(1, k));
    NodeOrderAppend(a, b);
  }

  lemma {:induction false} EdgesFromAppend(a: seq<Edge>, b: seq<Edge>, v: Vertex)
    ensures EdgesFrom(a + b, v) == EdgesFrom(a, v) + EdgesFrom(b, v)
    decreases |a|
  {
    if a == [] {
      assert a + b == b;
    } else {
      assert (a + b)[0] == a[0] && (a + b)[1..] == a[1..] + b;
      EdgesFromAppend(a[1..], b, v);
    }
  }

  lemma {:induction false} EdgesFromUniform(es: seq<Edge>, u: Vertex, v: Vertex)
    requires forall e :: e in es ==> e.0 == u
    ensures EdgesFrom(es, v) == if u == v then es else []
    decreases |es|
  {
    if es != [] {
      assert es[0] in es;
      assert forall e :: e in es[1..] ==> e in es;
      EdgesFromUniform(es[1..], u, v);
      assert es == [es[0]] + es[1..];
    }
  }

  /** The out-edges of v among the first n rows are row v, when v is one of those rows. */
  lemma {:induction false} EdgesFromRows(n: int, k: int, v: Vertex)
    ensures EdgesFrom(Rows(n, k), v) == if 1 <= v <= n then Row(v, k) else []
    decreases n
  {
    if n > 0 {
      EdgesFromRows(n - 1, k, v);
      RowElems(n, k);
      if v == n {
        EdgesFromNextRow(Rows(n - 1, k), Row(n, k), Rows(n, k), n, v, Row(n, k));
      } else {
        EdgesFromNextRow(Rows(n - 1, k), Row(n, k), Rows(n, k), n, v, Row(v, k));
      }
    } else {
      EdgesFromEmpty(Rows(n, k), v);
    }
  }

  lemma EdgesFromEmpty(es: seq<Edge>, v: Vertex)
    requires es == []
    ensures EdgesFrom(es, v) == []
  {
  }

  /** One more row, all of whose edges leave n, adds its edges to the out-edges of n only. */
  lemma EdgesFromNextRow(a: seq<Edge>, b: seq<Edge>, c: seq<Edge>, n: int, v: Vertex, row: seq<Edge>)
    requires EdgesFrom(a, v) == if 1 <= v <= n - 1 then row else []
    requires forall e :: e in b ==> e.0 == n
    requires n >= 1 && (v == n ==> row == b) && c == a + b
    ensures EdgesFrom(c, v) == if 1 <= v <= n then row else []
  {
    EdgesFromAppend(a, b, v);
    EdgesFromUniform(b, n, v);
    if v != n {
      assert EdgesFrom(a, v) + [] == EdgesFrom(a, v);
    } else {
      assert [] + b == b;
    }
  }

  /** Rows a..k, row after row, recursing on the front. */
  function RowsFrom(a: int, k: int): seq<Edge>
    decreases k - a
  {
    if a > k then [] else Row(a, k) + RowsFrom(a + 1, k)
  }

  lemma {:induction false} RowsSplit(n: int, k: int)
    requires 0 <= n <= k
    ensures Rows(n, k) + RowsFrom(n + 1, k) == Rows(k, k)
    decreases k - n
  {
    if n < k {
      assert Rows(n, k) + RowsFrom(n + 1, k) == (Rows(n, k) + Row(n + 1, k)) + RowsFrom(n + 2, k);
      RowsSplit(n + 1, k);
    } else {
      assert RowsFrom(n + 1, k) == [];
    }
  }

  lemma {:induction false} ListFromRows(a: int, k: int)
    requires 1 <= a
    ensures ListFrom(Rows(k, k), Iota(a, k)) == RowsFrom(a, k)
    decreases k - a
  {
    if a <= k {
      ListFromCons(Rows(k, k), Iota(a, k), a, Iota(a + 1, k));
      EdgesFromRows(k, k, a);
      ListFromRows(a + 1, k);
    }
  }

  lemma ListFromCons(es: seq<Edge>, vs: seq<Vertex>, v: Vertex, rest: seq<Vertex>)
    requires vs == [v] + rest
    ensures ListFrom(es, vs) == EdgesFrom(es, v) + ListFrom(es, rest)
  {
    assert vs[0] == v && vs[1..] == rest;
  }

  /** The template's vertices are 1..k in ascending order. */
  lemma TemplateVertexOrder(k: int)
    requires k >= 2
    ensures FromEdges(OrderedPairs(k)).vertices == Iota(1, k)
  {
    NodeOrderPairs(k);
  }

  /**
   * The template lists its edges in exactly the order they were added: the
   * ordered pairs of distinct vertices, lexicographically ascending.
   */
  lemma TemplateListing(k: int)
    requires k >= 2
    ensures EdgeListing(FromEdges(OrderedPairs(k))) == OrderedPairs(k)
  {
    TemplateVertexOrder(k);
    ListingOf(OrderedPairs(k), Iota(1, k));
    ListFromRows(1, k);
    RowsFromAll(k);
  }

  lemma ListingOf(es: seq<Edge>, vs: seq<Vertex>)
    requires FromEdges(es).vertices == vs
    ensures EdgeListing(FromEdges(es)) == ListFrom(es, vs)
  {
  }

  lemma RowsFromAll(k: int)
    requires k >= 0
    ensures RowsFrom(1, k) == Rows(k, k)
  {
    RowsSplit(0, k);
    EmptyConcat(Rows(0, k), RowsFrom(1, k));
  }
}
