/**
 * Directed-graph isomorphism. `Isomorphic` is the definition: some bijection
 * between the vertex sets maps the edges exactly onto the edges, direction
 * preserved. `AreIsomorphic` decides it the way an exact isomorphism test
 * does: reject when the vertex or edge counts differ, otherwise search every
 * assignment of the first graph's vertices to the second's, one vertex at a
 * time, for one that preserves edges.
 */
module Isomorphism {
  import opened Seqs
  import opened Combinatorics
  import opened Digraphs

  datatype Option<T> = None | Some(value: T)

  predicate Injective<A, B(==)>(m: map<A, B>) {
    forall u, v :: u in m && v in m && u != v ==> m[u] != m[v]
  }

  lemma ValuesWitness<A, B>(m: map<A, B>, v: B)
    requires v in m.Values
    ensures exists u :: u in m && m[u] == v
  {
  }

  /** Some key that `m` maps to `v`. */
  ghost function Preimage<A, B>(m: map<A, B>, v: B): (u: A)
    requires v in m.Values
    ensures u in m && m[u] == v
  {
    ValuesWitness(m, v);
    var u :| u in m && m[u] == v; u
  }

  lemma UpdateValues<A, B>(m: map<A, B>, x: A, y: B)
    requires x !in m
    ensures m[x := y].Values == m.Values + {y}
  {
    var m' := m[x := y];
    forall v | v in m'.Values ensures v in m.Values + {y} {
      var u := Preimage(m', v);
      if u != x { assert u in m && m[u] == v; }
    }
    forall v | v in m.Values + {y} ensures v in m'.Values {
      if v == y {
        assert m'[x] == v;
      } else {
        var u := Preimage(m, v);
        assert u != x && m'[u] == v;
      }
    }
  }

  lemma RemoveValues<A, B>(m: map<A, B>, x: A)
    requires x in m && Injective(m)
    ensures (m - {x}).Values == m.Values - {m[x]}
  {
    var m' := m - {x};
    forall v | v in m.Values - {m[x]} ensures v in m'.Values {
      var u := Preimage(m, v);
      assert u != x && m'[u] == v;
    }
    forall v | v in m'.Values ensures v in m.Values - {m[x]} {
      var u := Preimage(m', v);
      assert u in m && u != x && m[u] == v;
    }
  }

  /** `f` maps an edge between mapped vertices to an edge, and a non-edge to a non-edge. */
  predicate EdgePreserving(g: Graph, h: Graph, f: map<Vertex, Vertex>) {
    forall u, v :: u in f && v in f ==> ((u, v) in g.edges <==> (f[u], f[v]) in h.edges)
  }

  lemma EdgePreservingAt(g: Graph, h: Graph, f: map<Vertex, Vertex>, u: Vertex, v: Vertex)
    requires EdgePreserving(g, h, f) && u in f && v in f
    ensures (u, v) in g.edges <==> (f[u], f[v]) in h.edges
  {
  }

  /** `f` is a bijection from the vertices of g onto those of h that preserves edges exactly. */
  ghost predicate IsIsomorphism(f: map<Vertex, Vertex>, g: Graph, h: Graph) {
    && f.Keys == Elems(g.vertices)
    && f.Values == Elems(h.vertices)
    && Injective(f)
    && EdgePreserving(g, h, f)
  }

  ghost predicate Isomorphic(g: Graph, h: Graph) {
    exists f {:trigger IsIsomorphism(f, g, h)} :: IsIsomorphism(f, g, h)
  }

  // ----- the search -----

  /**
   * Extends the partial assignment `m` to the vertices `todo`, each taking
   * one of the unused target vertices `avail`, and returns the first total
   * assignment that preserves edges.
   */
  function Search(g: Graph, h: Graph, todo: seq<Vertex>, avail: seq<Vertex>, m: map<Vertex, Vertex>)
    : Option<map<Vertex, Vertex>>
    decreases |todo|, 1
  {
    if |todo| == 0 then
      if EdgePreserving(g, h, m) then Some(m) else None
    else
      TryFrom(g, h, todo, avail, m, 0)
  }

  /** Tries todo[0] |-> avail[i], avail[i + 1], ... in turn. */
  function TryFrom(g: Graph, h: Graph, todo: seq<Vertex>, avail: seq<Vertex>, m: map<Vertex, Vertex>, i: nat)
    : Option<map<Vertex, Vertex>>
    requires |todo| > 0 && i <= |avail|
    decreases |todo|, 0, |avail| - i
  {
    if i == |avail| then None
    else
      var r := Search(g, h, todo[1..], RemoveAt(avail, i), m[todo[0] := avail[i]]);
      if r.Some? then r else TryFrom(g, h, todo, avail, m, i + 1)
  }

  /**
   * The exact isomorphism test: equal vertex and edge counts, and an
   * edge-preserving bijection found by the search.
   */
  function AreIsomorphic(g: Graph, h: Graph): (r: bool)
    requires WellFormed(g) && WellFormed(h)
    ensures r <==> Isomorphic(g, h)
  {
    SearchDecides(g, h);
    && |g.vertices| == |h.vertices|
    && |g.edges| == |h.edges|
    && Search(g, h, g.vertices, h.vertices, map[]).Some?
  }

  /** The state of the search: `m` is injective and covers what `todo` and `avail` do not. */
  ghost predicate SearchInv(g: Graph, h: Graph, todo: seq<Vertex>, avail: seq<Vertex>, m: map<Vertex, Vertex>) {
    && Distinct(todo) && Distinct(avail) && |todo| == |avail|
    && Elems(todo) !! m.Keys && Elems(todo) + m.Keys == Elems(g.vertices)
    && Elems(avail) !! m.Values && Elems(avail) + m.Values == Elems(h.vertices)
    && Injective(m)
  }

  lemma SearchInvStep(g: Graph, h: Graph, todo: seq<Vertex>, avail: seq<Vertex>, m: map<Vertex, Vertex>, i: nat)
    requires SearchInv(g, h, todo, avail, m) && |todo| > 0 && i < |avail|
    ensures SearchInv(g, h, todo[1..], RemoveAt(avail, i), m[todo[0] := avail[i]])
  {
    var x, y := todo[0], avail[i];
    var m' := m[x := y];
    assert RemoveAt(todo, 0) == todo[1..];
    RemoveAtElems(todo, 0);
    RemoveAtElems(avail, i);
    assert x in Elems(todo) && y in Elems(avail);
    assert x !in m.Keys && y !in m.Values;
    assert m'.Keys == m.Keys + {x};
    UpdateValues(m, x, y);
    forall u, v | u in m' && v in m' && u != v ensures m'[u] != m'[v] {
      if u == x {
        assert m'[v] == m[v] && m[v] in m.Values;
      } else if v == x {
        assert m'[u] == m[u] && m[u] in m.Values;
      }
    }
  }

  // ----- soundness: whatever the search returns is an isomorphism -----

  lemma {:induction false} SearchSound(g: Graph, h: Graph, todo: seq<Vertex>, avail: seq<Vertex>, m: map<Vertex, Vertex>)
    requires SearchInv(g, h, todo, avail, m)
    ensures Search(g, h, todo, avail, m).Some? ==> IsIsomorphism(Search(g, h, todo, avail, m).value, g, h)
    decreases |todo|, 1
  {
    if |todo| == 0 {
      assert Elems(todo) == {} && Elems(avail) == {};
    } else {
      TrySound(g, h, todo, avail, m, 0);
    }
  }

  lemma {:induction false} TrySound(g: Graph, h: Graph, todo: seq<Vertex>, avail: seq<Vertex>, m: map<Vertex, Vertex>, i: nat)
    requires SearchInv(g, h, todo, avail, m) && |todo| > 0 && i <= |avail|
    ensures TryFrom(g, h, todo, avail, m, i).Some? ==> IsIsomorphism(TryFrom(g, h, todo, avail, m, i).value, g, h)
    decreases |todo|, 0, |avail| - i
  {
    if i < |avail| {
      SearchInvStep(g, h, todo, avail, m, i);
      SearchSound(g, h, todo[1..], RemoveAt(avail, i), m[todo[0] := avail[i]]);
      TrySound(g, h, todo, avail, m, i + 1);
    }
  }

  // ----- completeness: an isomorphism extending the assignment is not missed -----

  ghost predicate Agrees(m: map<Vertex, Vertex>, f: map<Vertex, Vertex>) {
    forall x :: x in m ==> x in f && f[x] == m[x]
  }

  lemma {:induction false} SearchComplete(g: Graph, h: Graph, todo: seq<Vertex>, avail: seq<Vertex>, m: map<Vertex, Vertex>, f: map<Vertex, Vertex>)
    requires SearchInv(g, h, todo, avail, m) && IsIsomorphism(f, g, h) && Agrees(m, f)
    ensures Search(g, h, todo, avail, m).Some?
    decreases |todo|, 1
  {
    if |todo| == 0 {
      assert Elems(todo) == {};
      assert m.Keys == f.Keys;
      forall u, v | u in m && v in m ensures (u, v) in g.edges <==> (m[u], m[v]) in h.edges {
        assert m[u] == f[u] && m[v] == f[v];
      }
    } else {
      var x := todo[0];
      assert x in Elems(todo) && x !in m;
      assert f[x] in f.Values;
      forall y | y in m ensures m[y] != f[x] {
        assert y != x && f[y] == m[y];
      }
      assert f[x] !in m.Values;
      assert f[x] in Elems(avail);
      var k :| 0 <= k < |avail| && avail[k] == f[x];
      TryComplete(g, h, todo, avail, m, f, 0, k);
    }
  }

  lemma {:induction false} TryComplete(g: Graph, h: Graph, todo: seq<Vertex>, avail: seq<Vertex>, m: map<Vertex, Vertex>, f: map<Vertex, Vertex>, i: nat, k: nat)
    requires SearchInv(g, h, todo, avail, m) && IsIsomorphism(f, g, h) && Agrees(m, f)
    requires |todo| > 0 && i <= k < |avail| && avail[k] == f[todo[0]]
    ensures TryFrom(g, h, todo, avail, m, i).Some?
    decreases |todo|, 0, |avail| - i
  {
    if i == k {
      SearchInvStep(g, h, todo, avail, m, i);
      SearchComplete(g, h, todo[1..], RemoveAt(avail, i), m[todo[0] := avail[i]], f);
    } else if Search(g, h, todo[1..], RemoveAt(avail, i), m[todo[0] := avail[i]]).None? {
      TryComplete(g, h, todo, avail, m, f, i + 1, k);
    }
  }

  // ----- isomorphic graphs have equal vertex and edge counts -----

  lemma {:induction false} InjectiveCard<A, B>(m: map<A, B>)
    requires Injective(m)
    ensures |m.Values| == |m.Keys|
    decreases |m.Keys|
  {
    if |m.Keys| > 0 {
      assert m.Keys != {};
      var x :| x in m.Keys;
      var m' := m - {x};
      assert m'.Keys == m.Keys - {x};
      RemoveValues(m, x);
      InjectiveCard(m');
    }
  }

  /** An isomorphism carries the edge set of g onto that of h. */
  ghost function EdgeImage(f: map<Vertex, Vertex>, g: Graph): (em: map<Edge, Edge>)
    requires forall e :: e in g.edges ==> e.0 in f && e.1 in f
    ensures em.Keys == Elems(g.edges)
  {
    map e | e in Elems(g.edges) :: (f[e.0], f[e.1])
  }

  lemma IsomorphismCounts(f: map<Vertex, Vertex>, g: Graph, h: Graph)
    requires WellFormed(g) && WellFormed(h) && IsIsomorphism(f, g, h)
    ensures |g.vertices| == |h.vertices| && |g.edges| == |h.edges|
  {
    InjectiveCard(f);
    DistinctCard(g.vertices);
    DistinctCard(h.vertices);
    var em := EdgeImage(f, g);
    forall d | d in em.Values ensures d in Elems(h.edges) {
      var e := Preimage(em, d);
      assert e in g.edges && e == (e.0, e.1);
      assert e.0 in g.vertices && e.1 in g.vertices;
      assert e.0 in Elems(g.vertices) && e.1 in Elems(g.vertices);
      EdgePreservingAt(g, h, f, e.0, e.1);
      assert d == (f[e.0], f[e.1]);
    }
    forall d | d in Elems(h.edges) ensures d in em.Values {
      assert d.0 in f.Values && d.1 in f.Values;
      var u := Preimage(f, d.0);
      var v := Preimage(f, d.1);
      assert (f[u], f[v]) == d;
      assert (u, v) in g.edges;
      assert em[(u, v)] == d;
    }
    assert em.Values == Elems(h.edges);
    InjectiveCard(em);
    DistinctCard(g.edges);
    DistinctCard(h.edges);
  }

  /** Isomorphic graphs have as many vertices and as many edges as each other. */
  lemma IsomorphicSameSize(g: Graph, h: Graph)
    requires WellFormed(g) && WellFormed(h) && Isomorphic(g, h)
    ensures |g.vertices| == |h.vertices| && |g.edges| == |h.edges|
  {
    var f :| IsIsomorphism(f, g, h);
    IsomorphismCounts(f, g, h);
  }

  lemma SearchDecides(g: Graph, h: Graph)
    requires WellFormed(g) && WellFormed(h)
    ensures (&& |g.vertices| == |h.vertices|
             && |g.edges| == |h.edges|
             && Search(g, h, g.vertices, h.vertices, map[]).Some?) <==> Isomorphic(g, h)
  {
    var m: map<Vertex, Vertex> := map[];
    assert m.Values == {};
    if |g.vertices| == |h.vertices| {
      assert SearchInv(g, h, g.vertices, h.vertices, m);
      SearchSound(g, h, g.vertices, h.vertices, m);
    }
    if Isomorphic(g, h) {
      var f :| IsIsomorphism(f, g, h);
      IsomorphismCounts(f, g, h);
      assert SearchInv(g, h, g.vertices, h.vertices, m);
      SearchComplete(g, h, g.vertices, h.vertices, m, f);
    }
  }

  // ----- isomorphism is an equivalence relation -----

  lemma IsomorphicReflexive(g: Graph)
    ensures Isomorphic(g, g)
  {
    var id := map v | v in Elems(g.vertices) :: v;
    forall v | v in Elems(g.vertices) ensures v in id.Values {
      assert id[v] == v;
    }
    assert IsIsomorphism(id, g, g);
  }

  /** The inverse of an injective map. */
  ghost function Inverse(f: map<Vertex, Vertex>): (inv: map<Vertex, Vertex>)
    requires Injective(f)
    ensures inv.Keys == f.Values
    ensures forall x :: x in f ==> f[x] in inv && inv[f[x]] == x
    ensures forall y :: y in inv ==> inv[y] in f && f[inv[y]] == y
  {
    map y | y in f.Values :: Preimage(f, y)
  }

  lemma InverseIsIsomorphism(f: map<Vertex, Vertex>, g: Graph, h: Graph)
    requires IsIsomorphism(f, g, h)
    ensures IsIsomorphism(Inverse(f), h, g)
  {
    var inv := Inverse(f);
    forall x | x in f.Keys ensures x in inv.Values {
      assert inv[f[x]] == x;
    }
    forall x | x in inv.Values ensures x in f.Keys {
      var y := Preimage(inv, x);
    }
    forall a, b | a in inv && b in inv && a != b ensures inv[a] != inv[b] {
      assert f[inv[a]] == a && f[inv[b]] == b;
    }
    forall a, b | a in inv && b in inv ensures (a, b) in h.edges <==> (inv[a], inv[b]) in g.edges {
      var u, v := inv[a], inv[b];
      assert f[u] == a && f[v] == b;
      assert (u, v) in g.edges <==> (f[u], f[v]) in h.edges;
    }
  }

  lemma IsomorphicSymmetric(g: Graph, h: Graph)
    ensures Isomorphic(g, h) <==> Isomorphic(h, g)
  {
    if Isomorphic(g, h) {
      var f :| IsIsomorphism(f, g, h);
      InverseIsIsomorphism(f, g, h);
    }
    if Isomorphic(h, g) {
      var f :| IsIsomorphism(f, h, g);
      InverseIsIsomorphism(f, h, g);
    }
  }

  /** Composition of two maps, `f1` first. */
  ghost function Compose(f1: map<Vertex, Vertex>, f2: map<Vertex, Vertex>): (c: map<Vertex, Vertex>)
    requires f1.Values <= f2.Keys
    ensures c.Keys == f1.Keys
    ensures forall x :: x in c ==> f1[x] in f2 && c[x] == f2[f1[x]]
  {
    assert forall x :: x in f1 ==> f1[x] in f1.Values;
    map x | x in f1 :: f2[f1[x]]
  }

  lemma ComposeIsIsomorphism(f1: map<Vertex, Vertex>, f2: map<Vertex, Vertex>, g: Graph, h: Graph, k: Graph)
    requires IsIsomorphism(f1, g, h) && IsIsomorphism(f2, h, k)
    ensures IsIsomorphism(Compose(f1, f2), g, k)
  {
    var c := Compose(f1, f2);
    forall z | z in Elems(k.vertices) ensures z in c.Values {
      var y := Preimage(f2, z);
      var x := Preimage(f1, y);
      assert c[x] == z;
    }
    forall z | z in c.Values ensures z in Elems(k.vertices) {
      var x := Preimage(c, z);
      assert f2[f1[x]] in f2.Values;
    }
    forall u, v | u in c && v in c && u != v ensures c[u] != c[v] {
      assert f1[u] != f1[v];
    }
    forall u, v | u in c && v in c ensures (u, v) in g.edges <==> (c[u], c[v]) in k.edges {
      assert f1[u] in f1.Values && f1[v] in f1.Values;
      assert f1[u] in Elems(h.vertices) && f1[v] in Elems(h.vertices);
      EdgePreservingAt(g, h, f1, u, v);
      EdgePreservingAt(h, k, f2, f1[u], f1[v]);
    }
  }

  lemma IsomorphicTransitive(g: Graph, h: Graph, k: Graph)
    requires Isomorphic(g, h) && Isomorphic(h, k)
    ensures Isomorphic(g, k)
  {
    var f1 :| IsIsomorphism(f1, g, h);
    var f2 :| IsIsomorphism(f2, h, k);
    ComposeIsIsomorphism(f1, f2, g, h, k);
  }

  /** Graphs built from the same edges in different orders are isomorphic: the identity relates them. */
  lemma SameEdgesIsomorphic(a: seq<Edge>, b: seq<Edge>)
    requires Elems(a) == Elems(b)
    ensures Isomorphic(FromEdges(a), FromEdges(b))
  {
    NodeOrderProps(a);
    NodeOrderProps(b);
    assert Endpoints(a) == Endpoints(b) by {
      assert forall e :: e in a <==> e in b by {
        forall e ensures e in a <==> e in b {
          assert e in a <==> e in Elems(a);
          assert e in b <==> e in Elems(b);
        }
      }
    }
    var g, h := FromEdges(a), FromEdges(b);
    var id := map v | v in Elems(g.vertices) :: v;
    forall v | v in Elems(h.vertices) ensures v in id.Values {
      assert id[v] == v;
    }
    forall u, v | u in id && v in id ensures (u, v) in g.edges <==> (id[u], id[v]) in h.edges {
      assert (u, v) in a <==> (u, v) in Elems(a);
      assert (u, v) in b <==> (u, v) in Elems(b);
    }
    assert IsIsomorphism(id, g, h);
  }
}
