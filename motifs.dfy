/**
 * The catalogue of all motifs of size k: one representative per isomorphism
 * class of weakly connected edge sets over the template on 1..k, taken in the
 * order candidates are enumerated (edge sets of k - 1 edges first, up to all
 * k * (k - 1) edges; within one size, in combination order of the template's
 * edge listing). A candidate is kept when its graph is weakly connected and
 * not isomorphic to a motif kept before it.
 */
module Motifs {
  import opened Seqs
  import opened Combinatorics
  import opened Digraphs
  import opened Connectivity
  import opened Isomorphism
  import opened Template

  /** `g` is isomorphic to one of `ms`. */
  ghost predicate IsoToAny(g: Graph, ms: seq<Graph>) {
    exists i :: 0 <= i < |ms| && Isomorphic(g, ms[i])
  }

  /** One candidate edge set: its graph is appended when weakly connected and new up to isomorphism. */
  ghost function Accept(kept: seq<Graph>, es: seq<Edge>): seq<Graph> {
    var g := FromEdges(es);
    if WeaklyConnected(g) && !IsoToAny(g, kept) then kept + [g] else kept
  }

  /** The motifs kept after considering the candidates in order. */
  ghost function Catalogue(cands: seq<seq<Edge>>): seq<Graph> {
    if cands == [] then [] else Accept(Catalogue(cands[..|cands| - 1]), cands[|cands| - 1])
  }

  /** The candidate edge sets for motifs of size k, in enumeration order. */
  function Candidates(k: int): seq<seq<Edge>>
    requires k >= 2
  {
    SubsetsBySize(OrderedPairs(k), k - 1, k * (k - 1))
  }

  ghost function MotifCatalogue(k: int): seq<Graph>
    requires k >= 2
  {
    Catalogue(Candidates(k))
  }

  // ----- the operation -----

  /**
   * Scans the motifs found so far for one isomorphic to `g`, stopping at the
   * first: the answer is "unique" exactly when there is none.
   */
  method IsUnique(g: Graph, motifs: seq<Graph>) returns (unique: bool)
    requires WellFormed(g) && forall i :: 0 <= i < |motifs| ==> WellFormed(motifs[i])
    ensures unique <==> !IsoToAny(g, motifs)
  {
    unique := true;
    var t := 0;
    while t < |motifs|
      invariant 0 <= t <= |motifs|
      invariant forall i :: 0 <= i < t ==> !Isomorphic(g, motifs[i])
    {
      if AreIsomorphic(g, motifs[t]) {
        unique := false;
        break;
      }
      t := t + 1;
    }
  }

  /**
   * All motifs of size k: builds the complete template, then walks the edge
   * sets of k - 1 up to k * (k - 1) of its edges and keeps each weakly
   * connected one that is not isomorphic to a motif already kept.
   */
  method FindAllPossibleMotifs(k: int) returns (motifs: seq<Graph>)
    requires k >= 2
    ensures motifs == MotifCatalogue(k)
  {
    motifs := [];
    var template := CompleteTemplate(k);
    var listing := EdgeListing(template);
    TemplateListing(k);
    OrderedPairsProps(k);
    var maxEdges := k * (k - 1);
    var numEdges := k - 1;
    MaxEdgesBound(k);
    while numEdges <= maxEdges
      invariant k - 1 <= numEdges <= maxEdges + 1
      invariant motifs == Catalogue(SubsetsBySize(listing, k - 1, numEdges - 1))
      invariant forall i :: 0 <= i < |motifs| ==> WellFormed(motifs[i])
    {
      var combos := Combinations(listing, numEdges);
      motifs := ConsiderAll(motifs, combos, listing, SubsetsBySize(listing, k - 1, numEdges - 1));
      SubsetsBySizeStep(listing, k - 1, numEdges, combos);
      numEdges := numEdges + 1;
    }
    AllSizes(listing, k, numEdges, maxEdges);
  }

  lemma AllSizes(listing: seq<Edge>, k: int, numEdges: int, maxEdges: int)
    requires k >= 2 && listing == OrderedPairs(k) && maxEdges == k * (k - 1)
    requires maxEdges < numEdges <= maxEdges + 1
    ensures SubsetsBySize(listing, k - 1, numEdges - 1) == Candidates(k)
  {
    assert numEdges - 1 == maxEdges;
  }

  lemma MaxEdgesBound(k: int)
    requires k >= 2
    ensures k - 1 <= k * (k - 1)
  {
    assert k * (k - 1) == (k - 1) * k;
  }

  /**
   * The inner loop: the candidates of one size, in combination order, each
   * considered in turn.
   */
  method ConsiderAll(motifs0: seq<Graph>, combos: seq<seq<Edge>>, listing: seq<Edge>, ghost done: seq<seq<Edge>>)
    returns (motifs: seq<Graph>)
    requires Distinct(listing)
    requires forall t :: 0 <= t < |combos| ==> IsSubsequence(combos[t], listing) && |combos[t]| > 0
    requires motifs0 == Catalogue(done) && forall i :: 0 <= i < |motifs0| ==> WellFormed(motifs0[i])
    ensures motifs == Catalogue(done + combos)
    ensures forall i :: 0 <= i < |motifs| ==> WellFormed(motifs[i])
  {
    motifs := motifs0;
    var t := 0;
    assert done + combos[..0] == done;
    while t < |combos|
      invariant 0 <= t <= |combos|
      invariant motifs == Catalogue(done + combos[..t])
      invariant forall i :: 0 <= i < |motifs| ==> WellFormed(motifs[i])
    {
      var edges := combos[t];
      CandidateGraph(edges, listing);
      motifs := Consider(motifs, edges);
      CatalogueStep(done, combos, t);
      t := t + 1;
    }
    assert combos[..|combos|] == combos;
  }

  /**
   * One candidate: its graph is appended to the motifs when it is weakly
   * connected and not isomorphic to any of them.
   */
  method Consider(motifs: seq<Graph>, edges: seq<Edge>) returns (kept: seq<Graph>)
    requires forall i :: 0 <= i < |motifs| ==> WellFormed(motifs[i])
    requires WellFormed(FromEdges(edges)) && |FromEdges(edges).vertices| > 0
    ensures kept == Accept(motifs, edges)
    ensures forall i :: 0 <= i < |kept| ==> WellFormed(kept[i])
  {
    kept := motifs;
    var subgraph := FromEdges(edges);
    if IsWeaklyConnected(subgraph) {
      var isUnique := IsUnique(subgraph, motifs);
      if isUnique {
        kept := motifs + [subgraph];
      }
    }
  }

  lemma CatalogueStep(done: seq<seq<Edge>>, combos: seq<seq<Edge>>, t: nat)
    requires t < |combos|
    ensures Catalogue(done + combos[..t + 1]) == Accept(Catalogue(done + combos[..t]), combos[t])
  {
    assert done + combos[..t + 1] == (done + combos[..t]) + [combos[t]];
    CatalogueSnoc(done + combos[..t], combos[t]);
  }

  /** The graph of a non-empty combination of distinct edges is well formed and has a vertex. */
  lemma CandidateGraph(edges: seq<Edge>, listing: seq<Edge>)
    requires Distinct(listing) && IsSubsequence(edges, listing) && |edges| > 0
    ensures WellFormed(FromEdges(edges)) && |FromEdges(edges).vertices| > 0
  {
    SubsequenceElems(edges, listing);
    FromEdgesWellFormed(edges);
    assert edges[0].0 in Endpoints(edges);
  }

  lemma CatalogueSnoc(cands: seq<seq<Edge>>, es: seq<Edge>)
    ensures Catalogue(cands + [es]) == Accept(Catalogue(cands), es)
  {
    assert (cands + [es])[..|cands|] == cands;
  }

  // ----- properties of the catalogue of any candidate list -----

  /** Considering further candidates only appends motifs: the motifs kept so far stay, in place. */
  lemma {:induction false} CataloguePrefix(a: seq<seq<Edge>>, b: seq<seq<Edge>>)
    ensures Catalogue(a) <= Catalogue(a + b)
    decreases |b|
  {
    if b == [] {
      assert a + b == a;
    } else {
      var b', x := b[..|b| - 1], b[|b| - 1];
      assert a + b == (a + b') + [x];
      CataloguePrefix(a, b');
      CatalogueSnoc(a + b', x);
    }
  }

  /** Every motif is the graph of an earlier-considered candidate, and is weakly connected. */
  lemma {:induction false} CatalogueOrigin(cands: seq<seq<Edge>>)
    ensures forall i :: 0 <= i < |Catalogue(cands)| ==>
      WeaklyConnected(Catalogue(cands)[i]) &&
      exists p :: 0 <= p < |cands| && Catalogue(cands)[i] == FromEdges(cands[p])
    decreases |cands|
  {
    if cands != [] {
      var init, last := cands[..|cands| - 1], cands[|cands| - 1];
      CatalogueOrigin(init);
      forall i | 0 <= i < |Catalogue(init)|
        ensures exists p :: 0 <= p < |cands| && Catalogue(init)[i] == FromEdges(cands[p])
      {
        var p :| 0 <= p < |init| && Catalogue(init)[i] == FromEdges(init[p]);
        assert cands[p] == init[p];
      }
      assert cands[|cands| - 1] == last;
    }
  }

  /** No two motifs are isomorphic. */
  lemma {:induction false} CatalogueNonIsomorphic(cands: seq<seq<Edge>>)
    ensures forall i, j :: 0 <= i < j < |Catalogue(cands)| ==>
      !Isomorphic(Catalogue(cands)[i], Catalogue(cands)[j])
    decreases |cands|
  {
    if cands != [] {
      var init, last := cands[..|cands| - 1], cands[|cands| - 1];
      CatalogueNonIsomorphic(init);
      var kept, g := Catalogue(init), FromEdges(last);
      if WeaklyConnected(g) && !IsoToAny(g, kept) {
        var ms := kept + [g];
        forall i, j | 0 <= i < j < |ms| ensures !Isomorphic(ms[i], ms[j]) {
          if j == |kept| {
            assert ms[i] == kept[i] && !Isomorphic(g, kept[i]);
            IsomorphicSymmetric(g, kept[i]);
          } else {
            assert ms[i] == kept[i] && ms[j] == kept[j];
          }
        }
      }
    }
  }

  /** Every weakly connected candidate is isomorphic to some motif. */
  lemma CatalogueExhaustive(cands: seq<seq<Edge>>)
    ensures forall p :: 0 <= p < |cands| && WeaklyConnected(FromEdges(cands[p])) ==>
      IsoToAny(FromEdges(cands[p]), Catalogue(cands))
  {
    forall p | 0 <= p < |cands| && WeaklyConnected(FromEdges(cands[p]))
      ensures IsoToAny(FromEdges(cands[p]), Catalogue(cands))
    {
      CatalogueCovers(cands, p);
    }
  }

  /** Candidate p is covered once it has been considered, and considering more keeps it covered. */
  lemma CatalogueCovers(cands: seq<seq<Edge>>, p: nat)
    requires p < |cands| && WeaklyConnected(FromEdges(cands[p]))
    ensures IsoToAny(FromEdges(cands[p]), Catalogue(cands))
  {
    var after := Catalogue(cands[..p + 1]);
    CatalogueTakeStep(cands, p);
    AcceptCovers(Catalogue(cands[..p]), cands[p], after);
    CatalogueGrows(cands, p + 1);
    IsoToAnyGrows(FromEdges(cands[p]), after, Catalogue(cands));
  }

  /** The motifs kept after the first n candidates are a prefix of those kept after all of them. */
  lemma CatalogueGrows(cands: seq<seq<Edge>>, n: nat)
    requires n <= |cands|
    ensures Catalogue(cands[..n]) <= Catalogue(cands)
  {
    CataloguePrefix(cands[..n], cands[n..]);
    TakeDrop(cands, n);
  }

  lemma CatalogueTakeStep(cands: seq<seq<Edge>>, p: nat)
    requires p < |cands|
    ensures Catalogue(cands[..p + 1]) == Accept(Catalogue(cands[..p]), cands[p])
  {
    TakeSnoc(cands, p);
    CatalogueSnoc(cands[..p], cands[p]);
  }

  /** Considering one candidate keeps the motifs so far and covers the candidate when it is weakly connected. */
  lemma AcceptCovers(kept: seq<Graph>, es: seq<Edge>, ms: seq<Graph>)
    requires ms == Accept(kept, es)
    ensures kept <= ms
    ensures WeaklyConnected(FromEdges(es)) ==> IsoToAny(FromEdges(es), ms)
  {
    var g := FromEdges(es);
    if WeaklyConnected(g) && !IsoToAny(g, kept) {
      IsomorphicReflexive(g);
      assert ms[|kept|] == g;
    }
  }

  lemma IsoToAnyGrows(g: Graph, kept: seq<Graph>, ms: seq<Graph>)
    requires kept <= ms && IsoToAny(g, kept)
    ensures IsoToAny(g, ms)
  {
    var i :| 0 <= i < |kept| && Isomorphic(g, kept[i]);
    assert ms[i] == kept[i];
  }

  /** When candidate sizes never decrease, neither do the motifs' edge counts. */
  lemma {:induction false} CatalogueEdgeCountsAscending(cands: seq<seq<Edge>>)
    requires forall p, q :: 0 <= p < q < |cands| ==> |cands[p]| <= |cands[q]|
    ensures forall i, j :: 0 <= i < j < |Catalogue(cands)| ==>
      |Catalogue(cands)[i].edges| <= |Catalogue(cands)[j].edges|
    decreases |cands|
  {
    if cands != [] {
      var init, last := cands[..|cands| - 1], cands[|cands| - 1];
      CatalogueEdgeCountsAscending(init);
      CatalogueOrigin(init);
      var kept, ms := Catalogue(init), Catalogue(cands);
      forall i, j | 0 <= i < j < |ms| ensures |ms[i].edges| <= |ms[j].edges| {
        if j < |kept| {
          assert ms[i] == kept[i] && ms[j] == kept[j];
        } else {
          var p :| 0 <= p < |init| && kept[i] == FromEdges(init[p]);
          assert init[p] == cands[p];
          assert ms[i] == kept[i] && ms[j] == FromEdges(last);
        }
      }
    }
  }

  // ----- properties of the catalogue of size k -----

  /** An edge list over the template on 1..k: endpoints in 1..k, no self-loops. */
  predicate OverTemplate(es: seq<Edge>, k: int) {
    forall e :: e in es ==> 1 <= e.0 <= k && 1 <= e.1 <= k && e.0 != e.1
  }

  /** Each candidate is k - 1 to k * (k - 1) distinct template edges, in template order. */
  lemma CandidatesShape(k: int)
    requires k >= 2
    ensures forall p :: 0 <= p < |Candidates(k)| ==>
      && k - 1 <= |Candidates(k)[p]| <= k * (k - 1)
      && IsSubsequence(Candidates(k)[p], OrderedPairs(k))
      && Distinct(Candidates(k)[p])
      && OverTemplate(Candidates(k)[p], k)
  {
    OrderedPairsProps(k);
    forall p | 0 <= p < |Candidates(k)|
      ensures Distinct(Candidates(k)[p]) && OverTemplate(Candidates(k)[p], k)
    {
      var c := Candidates(k)[p];
      SubsequenceElems(c, OrderedPairs(k));
      forall e | e in c ensures e in OrderedPairs(k) {
        assert e in Elems(c);
      }
    }
  }

  /**
   * Every motif of size k is a well-formed, weakly connected graph built from
   * k - 1 to k * (k - 1) distinct template edges taken in template order, and
   * its vertices are exactly the endpoints of its edges (so it may have fewer
   * than k vertices).
   */
  lemma MotifsShape(k: int)
    requires k >= 2
    ensures forall i :: 0 <= i < |MotifCatalogue(k)| ==>
      && WellFormed(MotifCatalogue(k)[i])
      && WeaklyConnected(MotifCatalogue(k)[i])
      && MotifCatalogue(k)[i] == FromEdges(MotifCatalogue(k)[i].edges)
      && Elems(MotifCatalogue(k)[i].vertices) == Endpoints(MotifCatalogue(k)[i].edges)
      && k - 1 <= |MotifCatalogue(k)[i].edges| <= k * (k - 1)
      && IsSubsequence(MotifCatalogue(k)[i].edges, OrderedPairs(k))
      && OverTemplate(MotifCatalogue(k)[i].edges, k)
  {
    var cands, ms := Candidates(k), MotifCatalogue(k);
    CandidatesShape(k);
    CatalogueOrigin(cands);
    forall i | 0 <= i < |ms|
      ensures && WellFormed(ms[i]) && ms[i] == FromEdges(ms[i].edges)
              && Elems(ms[i].vertices) == Endpoints(ms[i].edges)
              && k - 1 <= |ms[i].edges| <= k * (k - 1)
              && IsSubsequence(ms[i].edges, OrderedPairs(k)) && OverTemplate(ms[i].edges, k)
    {
      var p :| 0 <= p < |cands| && ms[i] == FromEdges(cands[p]);
      FromEdgesWellFormed(cands[p]);
    }
  }

  /** No two motifs of size k are isomorphic. */
  lemma MotifsPairwiseNonIsomorphic(k: int)
    requires k >= 2
    ensures forall i, j :: 0 <= i < |MotifCatalogue(k)| && 0 <= j < |MotifCatalogue(k)| && i != j ==>
      !Isomorphic(MotifCatalogue(k)[i], MotifCatalogue(k)[j])
  {
    var ms := MotifCatalogue(k);
    CatalogueNonIsomorphic(Candidates(k));
    forall i, j | 0 <= i < |ms| && 0 <= j < |ms| && i != j ensures !Isomorphic(ms[i], ms[j]) {
      if j < i {
        IsomorphicSymmetric(ms[i], ms[j]);
      }
    }
  }

  /** Motifs of size k come in non-decreasing order of edge count. */
  lemma MotifsEdgeCountsAscending(k: int)
    requires k >= 2
    ensures forall i, j :: 0 <= i < j < |MotifCatalogue(k)| ==>
      |MotifCatalogue(k)[i].edges| <= |MotifCatalogue(k)[j].edges|
  {
    CatalogueEdgeCountsAscending(Candidates(k));
  }

  /**
   * Every weakly connected graph built from at least k - 1 distinct edges over
   * the template on 1..k, in any order, is isomorphic to a motif of size k.
   */
  lemma MotifsExhaustive(k: int, es: seq<Edge>)
    requires k >= 2 && Distinct(es) && OverTemplate(es, k) && |es| >= k - 1
    requires WeaklyConnected(FromEdges(es))
    ensures IsoToAny(FromEdges(es), MotifCatalogue(k))
  {
    var c := InTemplateOrder(k, es);
    SameElemsGraphs(es, c);
    CatalogueExhaustive(Candidates(k));
    var p :| 0 <= p < |Candidates(k)| && Candidates(k)[p] == c;
    var i :| 0 <= i < |MotifCatalogue(k)| && Isomorphic(FromEdges(c), MotifCatalogue(k)[i]);
    IsomorphicTransitive(FromEdges(es), FromEdges(c), MotifCatalogue(k)[i]);
  }

  /**
   * A graph with a self-loop is isomorphic to no motif: an isomorphism would
   * carry the loop (v, v) to a loop of the motif, and the template has none.
   */
  lemma SelfLoopMatchesNoMotif(k: int, g: Graph, v: Vertex)
    requires k >= 2 && WellFormed(g) && (v, v) in g.edges
    ensures !IsoToAny(g, MotifCatalogue(k))
  {
    var ms := MotifCatalogue(k);
    MotifsShape(k);
    forall i, f | 0 <= i < |ms| && IsIsomorphism(f, g, ms[i]) ensures (f[v], f[v]) in ms[i].edges {
      assert v in Elems(g.vertices);
      EdgePreservingAt(g, ms[i], f, v, v);
    }
  }

  /** The same edges as `es`, in template order, form one of the candidates. */
  lemma InTemplateOrder(k: int, es: seq<Edge>) returns (c: seq<Edge>)
    requires k >= 2 && Distinct(es) && OverTemplate(es, k) && |es| >= k - 1
    ensures c in Candidates(k) && Elems(c) == Elems(es)
  {
    var pairs := OrderedPairs(k);
    OrderedPairsProps(k);
    c := Filter(pairs, Elems(es));
    FilterSameElems(pairs, es);
    SubsequenceElems(c, pairs);
    SubsequenceLength(c, pairs);
    SameElemsSameLength(c, es);
    SubsetsBySizeComplete(c, pairs, k - 1, k * (k - 1));
  }

  lemma FilterSameElems(pairs: seq<Edge>, es: seq<Edge>)
    requires forall e :: e in es ==> e in pairs
    ensures Elems(Filter(pairs, Elems(es))) == Elems(es)
  {
    var c := Filter(pairs, Elems(es));
    forall e ensures e in Elems(c) <==> e in Elems(es) {
      assert e in Elems(es) <==> e in es;
    }
  }

  lemma SameElemsSameLength(a: seq<Edge>, b: seq<Edge>)
    requires Distinct(a) && Distinct(b) && Elems(a) == Elems(b)
    ensures |a| == |b|
  {
    DistinctCard(a);
    DistinctCard(b);
  }

  /** Graphs built from the same edges in two orders are isomorphic, and one is weakly connected when the other is. */
  lemma SameElemsGraphs(a: seq<Edge>, b: seq<Edge>)
    requires Elems(a) == Elems(b)
    ensures Isomorphic(FromEdges(a), FromEdges(b))
    ensures WeaklyConnected(FromEdges(a)) <==> WeaklyConnected(FromEdges(b))
  {
    SameEdgesIsomorphic(a, b);
    NodeOrderProps(a);
    NodeOrderProps(b);
    EndpointsOfSameElems(a, b);
    SameSetsConnected(FromEdges(a), FromEdges(b));
  }

  lemma EndpointsOfSameElems(a: seq<Edge>, b: seq<Edge>)
    requires Elems(a) == Elems(b)
    ensures Endpoints(a) == Endpoints(b)
  {
    forall e ensures e in a <==> e in b {
      assert e in a <==> e in Elems(a);
      assert e in b <==> e in Elems(b);
    }
  }
}
