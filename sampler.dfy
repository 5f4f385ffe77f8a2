/**
 * The subgraphs of a host graph that the census classifies: for every choice
 * of `size` of its vertices, in combination order of the vertex list, the
 * subgraph induced on them, kept when it is weakly connected.
 */
module Sampler {
  import opened Seqs
  import opened Combinatorics
  import opened Digraphs
  import opened Connectivity

  /** The induced subgraph on `vs` as a list of zero or one graphs: one exactly when it is weakly connected. */
  ghost function Keep(g: Graph, vs: seq<Vertex>): seq<Graph> {
    var h := Induced(g, vs);
    if WeaklyConnected(h) then [h] else []
  }

  /** The weakly connected induced subgraphs on the vertex lists `vsets`, in their order. */
  ghost function Sampled(g: Graph, vsets: seq<seq<Vertex>>): seq<Graph> {
    if vsets == [] then [] else Keep(g, vsets[0]) + Sampled(g, vsets[1..])
  }

  /** Every induced subgraph on the vertex lists `vsets`, connected or not, in their order. */
  function InducedAll(g: Graph, vsets: seq<seq<Vertex>>): seq<Graph> {
    if vsets == [] then [] else [Induced(g, vsets[0])] + InducedAll(g, vsets[1..])
  }

  // ----- the operation -----

  /**
   * All weakly connected induced subgraphs of `g` on `size` vertices, in the
   * combination order of `g`'s vertex list. A size of zero is excluded: the
   * connectivity test rejects the empty graph it would produce.
   */
  method FindAllSubgraphs(g: Graph, size: nat) returns (subs: seq<Graph>)
    requires WellFormed(g) && size >= 1
    ensures subs == Sampled(g, Combinations(g.vertices, size))
  {
    var vertexSets := Combinations(g.vertices, size);
    subs := [];
    for t := 0 to |vertexSets|
      invariant subs == Sampled(g, vertexSets[..t])
    {
      var vs := vertexSets[t];
      SubsequenceElems(vs, g.vertices);
      InducedWellFormed(g, vs);
      var sub := Induced(g, vs);
      SampledStep(g, vertexSets, t);
      if IsWeaklyConnected(sub) {
        subs := subs + [sub];
      }
    }
    assert vertexSets[..|vertexSets|] == vertexSets;
  }

  /** One more vertex list extends the sample by what it keeps. */
  lemma SampledStep(g: Graph, vsets: seq<seq<Vertex>>, t: nat)
    requires t < |vsets|
    ensures Sampled(g, vsets[..t + 1]) == Sampled(g, vsets[..t]) + Keep(g, vsets[t])
  {
    assert vsets[..t + 1] == vsets[..t] + [vsets[t]];
    SampledAppend(g, vsets[..t], [vsets[t]]);
    assert [vsets[t]][1..] == [];
  }

  /** Sampling a concatenation samples each part. */
  lemma {:induction false} SampledAppend(g: Graph, a: seq<seq<Vertex>>, b: seq<seq<Vertex>>)
    ensures Sampled(g, a + b) == Sampled(g, a) + Sampled(g, b)
    decreases |a|
  {
    if a == [] {
      assert a + b == b;
    } else {
      assert (a + b)[0] == a[0] && (a + b)[1..] == a[1..] + b;
      SampledAppend(g, a[1..], b);
    }
  }

  // ----- properties of any sample -----

  /** The kept subgraphs appear in the order of their vertex lists. */
  lemma {:induction false} SampledInOrder(g: Graph, vsets: seq<seq<Vertex>>)
    ensures IsSubsequence(Sampled(g, vsets), InducedAll(g, vsets))
    ensures |Sampled(g, vsets)| <= |vsets|
    decreases |vsets|
  {
    if vsets != [] {
      SampledInOrder(g, vsets[1..]);
      var c, s := Sampled(g, vsets), InducedAll(g, vsets);
      assert s[0] == Induced(g, vsets[0]) && s[1..] == InducedAll(g, vsets[1..]);
      if WeaklyConnected(Induced(g, vsets[0])) {
        assert c[0] == s[0] && c[1..] == Sampled(g, vsets[1..]);
      } else {
        assert c == Sampled(g, vsets[1..]);
      }
    }
  }

  /** Every kept subgraph is weakly connected and is the subgraph induced on one of the vertex lists. */
  lemma {:induction false} SampledSound(g: Graph, vsets: seq<seq<Vertex>>)
    ensures forall i :: 0 <= i < |Sampled(g, vsets)| ==>
      WeaklyConnected(Sampled(g, vsets)[i]) &&
      exists p :: 0 <= p < |vsets| && Sampled(g, vsets)[i] == Induced(g, vsets[p])
    decreases |vsets|
  {
    if vsets != [] {
      var rest := vsets[1..];
      SampledSound(g, rest);
      var k, r := Keep(g, vsets[0]), Sampled(g, rest);
      assert Sampled(g, vsets) == k + r;
      forall i | 0 <= i < |k + r|
        ensures exists p :: 0 <= p < |vsets| && (k + r)[i] == Induced(g, vsets[p])
      {
        if i < |k| {
          assert (k + r)[i] == Induced(g, vsets[0]);
        } else {
          var p :| 0 <= p < |rest| && r[i - |k|] == Induced(g, rest[p]);
          assert vsets[p + 1] == rest[p];
        }
      }
    }
  }

  /** Every vertex list whose induced subgraph is weakly connected contributes that subgraph. */
  lemma {:induction false} SampledComplete(g: Graph, vsets: seq<seq<Vertex>>)
    ensures forall p :: 0 <= p < |vsets| && WeaklyConnected(Induced(g, vsets[p])) ==>
      Induced(g, vsets[p]) in Sampled(g, vsets)
    decreases |vsets|
  {
    if vsets != [] {
      var rest := vsets[1..];
      SampledComplete(g, rest);
      var k, r := Keep(g, vsets[0]), Sampled(g, rest);
      assert Sampled(g, vsets) == k + r;
      forall p | 0 <= p < |vsets| && WeaklyConnected(Induced(g, vsets[p]))
        ensures Induced(g, vsets[p]) in k + r
      {
        if p == 0 {
          assert k == [Induced(g, vsets[0])];
        } else {
          assert vsets[p] == rest[p - 1];
        }
      }
    }
  }

  // ----- the sample of one size -----

  /**
   * Each subgraph the sampler returns has exactly `size` vertices, drawn
   * from the graph in its vertex order, is well formed and weakly
   * connected, and has exactly the graph's edges between those vertices.
   */
  lemma SubgraphsShape(g: Graph, size: nat)
    requires WellFormed(g) && size >= 1
    ensures forall i :: 0 <= i < |Sampled(g, Combinations(g.vertices, size))| ==>
      var h := Sampled(g, Combinations(g.vertices, size))[i];
      && |h.vertices| == size
      && IsSubsequence(h.vertices, g.vertices)
      && WellFormed(h)
      && WeaklyConnected(h)
      && (forall e :: e in h.edges <==> e in g.edges && e.0 in h.vertices && e.1 in h.vertices)
  {
    var vsets := Combinations(g.vertices, size);
    SampledSound(g, vsets);
    forall i | 0 <= i < |Sampled(g, vsets)|
      ensures var h := Sampled(g, vsets)[i];
        |h.vertices| == size && IsSubsequence(h.vertices, g.vertices) && WellFormed(h)
    {
      var p :| 0 <= p < |vsets| && Sampled(g, vsets)[i] == Induced(g, vsets[p]);
      SubsequenceElems(vsets[p], g.vertices);
      InducedWellFormed(g, vsets[p]);
    }
  }

  /**
   * The sample is in combination order and has at most C(n, size) members,
   * and every weakly connected induced subgraph on `size` vertices is in it.
   */
  lemma SubgraphsComplete(g: Graph, size: nat)
    requires WellFormed(g) && size >= 1
    ensures IsSubsequence(Sampled(g, Combinations(g.vertices, size)), InducedAll(g, Combinations(g.vertices, size)))
    ensures |Sampled(g, Combinations(g.vertices, size))| <= Binom(|g.vertices|, size)
    ensures forall vs :: IsSubsequence(vs, g.vertices) && |vs| == size && WeaklyConnected(Induced(g, vs)) ==>
      Induced(g, vs) in Sampled(g, Combinations(g.vertices, size))
  {
    var vsets := Combinations(g.vertices, size);
    SampledInOrder(g, vsets);
    SampledComplete(g, vsets);
    forall vs | IsSubsequence(vs, g.vertices) && |vs| == size && WeaklyConnected(Induced(g, vs))
      ensures Induced(g, vs) in Sampled(g, vsets)
    {
      var p := CombinationsIndex(vs, g.vertices);
    }
  }

  /**
   * A host graph with a self-loop: edges (a, a), (a, b), (b, c) over three
   * distinct vertices. It is simple and weakly connected, so by `WholeSample`
   * its only 3-vertex sample is the whole graph, loop included.
   */
  lemma SelfLoopHost(a: Vertex, b: Vertex, c: Vertex, host: Graph)
    requires a != b && b != c && a != c && host == FromEdges([(a, a), (a, b), (b, c)])
    ensures host.vertices == [a, b, c] && (a, a) in host.edges
    ensures WellFormed(host) && WeaklyConnected(host)
  {
    var g := Graph([a, b, c], [(a, a), (a, b), (b, c)]);
    SelfLoopHostBuilt(a, b, c, g);
    SelfLoopHostWellFormed(a, b, c, g);
    SelfLoopHostConnected(a, b, c, g);
  }

  /** Sampled at its own size, a weakly connected simple graph yields just itself. */
  lemma WholeSample(g: Graph)
    requires WellFormed(g) && WeaklyConnected(g)
    ensures Sampled(g, Combinations(g.vertices, |g.vertices|)) == [g]
  {
    InducedWhole(g);
    CombinationsWhole(g.vertices);
    SampledSingle(g, g.vertices);
  }

  /** One vertex list yields its induced subgraph when that is weakly connected. */
  lemma SampledSingle(g: Graph, vs: seq<Vertex>)
    ensures Sampled(g, [vs]) == Keep(g, vs)
  {
    assert Sampled(g, [vs]) == Keep(g, vs) + Sampled(g, []);
  }

  /** Building the host from its edges lists the vertices a, b, c in that order. */
  lemma SelfLoopHostBuilt(a: Vertex, b: Vertex, c: Vertex, g: Graph)
    requires a != b && b != c && a != c && g == Graph([a, b, c], [(a, a), (a, b), (b, c)])
    ensures FromEdges(g.edges) == g
  {
    var es := g.edges;
    assert es[..2] == [(a, a), (a, b)] && es[..2][..1] == [(a, a)] && |es[..2][..1][..0]| == 0;
    assert NodeOrder(es[..2][..1]) == [a];
    assert NodeOrder(es[..2]) == [a, b];
  }

  /** The host is a simple graph. */
  lemma SelfLoopHostWellFormed(a: Vertex, b: Vertex, c: Vertex, g: Graph)
    requires a != b && b != c && a != c && g == Graph([a, b, c], [(a, a), (a, b), (b, c)])
    ensures WellFormed(g)
  {
    var es, vs := g.edges, g.vertices;
    forall e | e in es ensures e.0 in vs && e.1 in vs {
      assert e == es[0] || e == es[1] || e == es[2];
    }
    forall i, j | 0 <= i < j < |es| ensures es[i] != es[j] {
    }
  }

  /** The host is weakly connected: a - b - c by its edges, the loop aside. */
  lemma SelfLoopHostConnected(a: Vertex, b: Vertex, c: Vertex, g: Graph)
    requires a != b && b != c && a != c && g == Graph([a, b, c], [(a, a), (a, b), (b, c)])
    ensures WeaklyConnected(g)
  {
    assert IsWalk(g, [a, b]) by { assert StepAt(g, [a, b], 0); }
    assert IsWalk(g, [b, c]) by { assert StepAt(g, [b, c], 0); }
    LinkedTransitive(g, a, b, c);
    LinkedSymmetric(g, a, b);
    LinkedSymmetric(g, b, c);
    LinkedSymmetric(g, a, c);
    forall u, v | u in g.vertices && v in g.vertices ensures Linked(g, u, v) {
      if u == v {
        SingletonWalk(g, u);
      }
    }
  }
}
