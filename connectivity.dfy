/**
 * Weak connectivity of a directed graph: every vertex reachable from every
 * other when edge directions are ignored. `WeaklyConnected` is the
 * definition; `IsWeaklyConnected` decides it by growing the set of vertices
 * reachable from the first vertex until it stops changing.
 */
module Connectivity {
  import opened Seqs
  import opened Combinatorics
  import opened Digraphs

  /** u and v are joined by an edge in one direction or the other. */
  ghost predicate Adjacent(g: Graph, u: Vertex, v: Vertex) {
    (u, v) in g.edges || (v, u) in g.edges
  }

  /** A non-empty sequence of vertices, consecutive ones adjacent. */
  ghost predicate IsWalk(g: Graph, p: seq<Vertex>) {
    && |p| > 0
    && (forall i :: 0 <= i < |p| ==> p[i] in g.vertices)
    && (forall i :: 0 <= i < |p| - 1 ==> StepAt(g, p, i))
  }

  /** The i-th step of `p` follows an edge, in one direction or the other. */
  ghost predicate StepAt(g: Graph, p: seq<Vertex>, i: int)
    requires 0 <= i < |p| - 1
  {
    Adjacent(g, p[i], p[i + 1])
  }

  ghost predicate Linked(g: Graph, u: Vertex, v: Vertex) {
    exists p {:trigger IsWalk(g, p)} :: IsWalk(g, p) && p[0] == u && p[|p| - 1] == v
  }

  /** Every vertex is linked to every vertex by an undirected walk. */
  ghost predicate WeaklyConnected(g: Graph) {
    forall u, v {:trigger Linked(g, u, v)} :: u in g.vertices && v in g.vertices ==> Linked(g, u, v)
  }

  /** The vertices one edge away (either direction) from a vertex of `s`. */
  function Neighbours(g: Graph, s: set<Vertex>): set<Vertex> {
    (set e | e in g.edges && e.0 in s :: e.1) + (set e | e in g.edges && e.1 in s :: e.0)
  }

  /** The least superset of `s` closed under taking neighbours. */
  function Closure(g: Graph, s: set<Vertex>): (c: set<Vertex>)
    requires WellFormed(g) && s <= Elems(g.vertices)
    ensures s <= c <= Elems(g.vertices)
    ensures Neighbours(g, c) <= c
    decreases |Elems(g.vertices) - s|
  {
    var next := s + Neighbours(g, s);
    if next <= s then s
    else
      NeighboursInGraph(g, s);
      Shrinks(Elems(g.vertices), s, next);
      Closure(g, next)
  }

  lemma NeighboursInGraph(g: Graph, s: set<Vertex>)
    requires WellFormed(g)
    ensures Neighbours(g, s) <= Elems(g.vertices)
  {
  }

  lemma Shrinks(all: set<Vertex>, s: set<Vertex>, next: set<Vertex>)
    requires s <= next <= all && !(next <= s)
    ensures |all - next| < |all - s|
  {
    assert next - s != {};
    assert all - s == (all - next) + (next - s);
    assert (all - next) * (next - s) == {};
    assert |next - s| > 0;
  }

  /**
   * The connectivity test. The graph must have a vertex: the library the
   * source calls raises an exception on the null graph.
   */
  predicate IsWeaklyConnected(g: Graph): (r: bool)
    requires WellFormed(g) && |g.vertices| > 0
    ensures r <==> WeaklyConnected(g)
  {
    ClosureDecidesConnectivity(g);
    Closure(g, {g.vertices[0]}) == Elems(g.vertices)
  }

  lemma SingletonWalk(g: Graph, v: Vertex)
    requires v in g.vertices
    ensures Linked(g, v, v)
  {
    assert IsWalk(g, [v]);
  }

  lemma ExtendWalk(g: Graph, p: seq<Vertex>, v: Vertex)
    requires IsWalk(g, p) && v in g.vertices && Adjacent(g, p[|p| - 1], v)
    ensures IsWalk(g, p + [v])
  {
    var r := p + [v];
    forall i | 0 <= i < |r| - 1 ensures StepAt(g, r, i) {
      if i < |p| - 1 {
        assert StepAt(g, p, i);
      }
    }
  }

  /** Undirected walks can be walked backwards. */
  lemma LinkedSymmetric(g: Graph, u: Vertex, v: Vertex)
    requires Linked(g, u, v)
    ensures Linked(g, v, u)
  {
    var p :| IsWalk(g, p) && p[0] == u && p[|p| - 1] == v;
    var q := seq(|p|, i requires 0 <= i < |p| => p[|p| - 1 - i]);
    forall i | 0 <= i < |q| - 1 ensures StepAt(g, q, i) {
      assert q[i] == p[|p| - 1 - i] && q[i + 1] == p[|p| - 1 - i - 1];
      assert StepAt(g, p, |p| - 1 - i - 1);
    }
    assert IsWalk(g, q) && q[0] == v && q[|q| - 1] == u;
  }

  /** Two walks that meet can be joined. */
  lemma LinkedTransitive(g: Graph, u: Vertex, v: Vertex, w: Vertex)
    requires Linked(g, u, v) && Linked(g, v, w)
    ensures Linked(g, u, w)
  {
    var p :| IsWalk(g, p) && p[0] == u && p[|p| - 1] == v;
    var q :| IsWalk(g, q) && q[0] == v && q[|q| - 1] == w;
    var r := p + q[1..];
    forall i | 0 <= i < |r| - 1 ensures StepAt(g, r, i) {
      if i < |p| - 1 {
        assert r[i] == p[i] && r[i + 1] == p[i + 1];
        assert StepAt(g, p, i);
      } else if i == |p| - 1 {
        assert r[i] == q[0] && r[i + 1] == q[1];
        assert StepAt(g, q, 0);
      } else {
        assert r[i] == q[i - |p| + 1] && r[i + 1] == q[i - |p| + 2];
        assert StepAt(g, q, i - |p| + 1);
      }
    }
    forall i | 0 <= i < |r| ensures r[i] in g.vertices {
      if i < |p| { assert r[i] == p[i]; } else { assert r[i] == q[i - |p| + 1]; }
    }
    assert IsWalk(g, r) && r[0] == u && r[|r| - 1] == w;
  }

  /** Everything the closure adds to `s` is linked to `root` when `s` is. */
  lemma {:induction false} ClosureSound(g: Graph, s: set<Vertex>, root: Vertex)
    requires WellFormed(g) && s <= Elems(g.vertices)
    requires forall v :: v in s ==> Linked(g, root, v)
    ensures forall v :: v in Closure(g, s) ==> Linked(g, root, v)
    decreases |Elems(g.vertices) - s|
  {
    var next := s + Neighbours(g, s);
    if !(next <= s) {
      forall v | v in Neighbours(g, s) ensures Linked(g, root, v) {
        var e :| e in g.edges && ((e.0 in s && e.1 == v) || (e.1 in s && e.0 == v));
        var u := if e.0 in s && e.1 == v then e.0 else e.1;
        assert Adjacent(g, u, v);
        var p :| IsWalk(g, p) && p[0] == root && p[|p| - 1] == u;
        ExtendWalk(g, p, v);
        assert (p + [v])[0] == root && (p + [v])[|p + [v]| - 1] == v;
      }
      NeighboursInGraph(g, s);
      Shrinks(Elems(g.vertices), s, next);
      ClosureSound(g, next, root);
    }
  }

  /** A walk that starts inside a set closed under neighbours stays inside it. */
  lemma {:induction false} WalkStays(g: Graph, c: set<Vertex>, p: seq<Vertex>)
    requires Neighbours(g, c) <= c && IsWalk(g, p) && p[0] in c
    ensures p[|p| - 1] in c
    decreases |p|
  {
    if |p| > 1 {
      var q := p[..|p| - 1];
      forall i | 0 <= i < |q| - 1 ensures StepAt(g, q, i) {
        assert StepAt(g, p, i);
      }
      WalkStays(g, c, q);
      var a, b := p[|p| - 2], p[|p| - 1];
      assert StepAt(g, p, |p| - 2);
      if (a, b) in g.edges {
        assert b in (set e | e in g.edges && e.0 in c :: e.1);
      } else {
        assert b in (set e | e in g.edges && e.1 in c :: e.0);
      }
    }
  }

  lemma ClosureDecidesConnectivity(g: Graph)
    requires WellFormed(g) && |g.vertices| > 0
    ensures Closure(g, {g.vertices[0]}) == Elems(g.vertices) <==> WeaklyConnected(g)
  {
    var root := g.vertices[0];
    var c := Closure(g, {root});
    SingletonWalk(g, root);
    ClosureSound(g, {root}, root);
    if c == Elems(g.vertices) {
      forall u, v | u in g.vertices && v in g.vertices ensures Linked(g, u, v) {
        assert u in c && v in c;
        LinkedSymmetric(g, root, u);
        LinkedTransitive(g, u, root, v);
      }
    }
    if WeaklyConnected(g) {
      forall v | v in Elems(g.vertices) ensures v in c {
        assert Linked(g, root, v);
        var p :| IsWalk(g, p) && p[0] == root && p[|p| - 1] == v;
        WalkStays(g, c, p);
      }
    }
  }

  /** Connectivity depends only on which vertices and edges a graph has, not on their order. */
  lemma SameSetsConnected(g: Graph, h: Graph)
    requires Elems(g.vertices) == Elems(h.vertices) && Elems(g.edges) == Elems(h.edges)
    ensures WeaklyConnected(g) <==> WeaklyConnected(h)
  {
    forall u, v ensures Linked(g, u, v) <==> Linked(h, u, v) {
      if Linked(g, u, v) {
        var p :| IsWalk(g, p) && p[0] == u && p[|p| - 1] == v;
        WalkTransfer(g, h, p);
      }
      if Linked(h, u, v) {
        var p :| IsWalk(h, p) && p[0] == u && p[|p| - 1] == v;
        WalkTransfer(h, g, p);
      }
    }
    forall v ensures v in g.vertices <==> v in h.vertices {
      assert v in g.vertices <==> v in Elems(g.vertices);
      assert v in h.vertices <==> v in Elems(h.vertices);
    }
  }

  lemma WalkTransfer(g: Graph, h: Graph, p: seq<Vertex>)
    requires Elems(g.vertices) <= Elems(h.vertices) && Elems(g.edges) <= Elems(h.edges)
    requires IsWalk(g, p)
    ensures IsWalk(h, p)
  {
    forall i | 0 <= i < |p| ensures p[i] in h.vertices {
      assert p[i] in Elems(g.vertices);
    }
    forall i | 0 <= i < |p| - 1 ensures StepAt(h, p, i) {
      var a, b := p[i], p[i + 1];
      assert StepAt(g, p, i);
      if (a, b) in g.edges {
        assert (a, b) in Elems(g.edges);
      } else {
        assert (b, a) in Elems(g.edges);
      }
    }
  }
}
