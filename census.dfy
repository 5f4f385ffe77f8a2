/**
 * The census: how many of the sampled subgraphs fall into the isomorphism
 * class of each motif. The subgraphs are grouped into classes by scanning
 * them in order; each class's size is then written against the first motif
 * its representative is isomorphic to. Counts are keyed by the motif's
 * position in the catalogue.
 */
module Census {
  import opened Seqs
  import opened Digraphs
  import opened Isomorphism
  import opened Motifs
  import opened Combinatorics
  import opened Sampler

  /** Every position below n has a count. */
  predicate Counted(counts: map<nat, nat>, n: nat) {
    forall i: nat :: i < n ==> i in counts
  }

  /** The positions 0..n-1. */
  function Indices(n: nat): (r: set<nat>)
    ensures forall i: nat :: i in r <==> i < n
  {
    if n == 0 then {} else Indices(n - 1) + {n - 1}
  }

  /** The positions of the subgraphs isomorphic to subgraph r: its class. */
  ghost function ClassOf(subs: seq<Graph>, r: nat): set<nat>
    requires r < |subs|
  {
    set j: nat | j < |subs| && Isomorphic(subs[r], subs[j])
  }

  /** The positions of the subgraphs isomorphic to `g`. */
  ghost function MatchSet(subs: seq<Graph>, g: Graph): set<nat> {
    set j: nat | j < |subs| && Isomorphic(subs[j], g)
  }

  /** `c` is the size of the class of some subgraph isomorphic to `g`. */
  ghost predicate IsClassCount(subs: seq<Graph>, g: Graph, c: nat) {
    exists r :: 0 <= r < |subs| && Isomorphic(subs[r], g) && c == |ClassOf(subs, r)|
  }

  /** No two distinct motifs are isomorphic. */
  ghost predicate PairwiseNonIsomorphic(ms: seq<Graph>) {
    forall a, b :: 0 <= a < |ms| && 0 <= b < |ms| && a != b ==> !Isomorphic(ms[a], ms[b])
  }

  /** Subgraph j is isomorphic to one of the first i subgraphs. */
  ghost predicate Seen(subs: seq<Graph>, i: nat, j: nat)
    requires j < |subs|
  {
    exists r: nat {:trigger Isomorphic(subs[r], subs[j])} :: r < i && r < |subs| && Isomorphic(subs[r], subs[j])
  }

  /** One of the first i subgraphs is isomorphic to `g`. */
  ghost predicate Hit(subs: seq<Graph>, i: nat, g: Graph) {
    exists r: nat {:trigger Isomorphic(subs[r], g)} :: r < i && r < |subs| && Isomorphic(subs[r], g)
  }

  /** Before position i: the processed positions are the classes of the first i subgraphs. */
  ghost predicate ProcessedUpTo(subs: seq<Graph>, processed: set<nat>, i: nat) {
    forall j: nat :: j in processed <==> j < |subs| && Seen(subs, i, j)
  }

  /**
   * Before position i: every motif has a count, which is zero or the size of a
   * class isomorphic to it; and when the motifs are pairwise non-isomorphic,
   * a motif met by one of the first i subgraphs has the size of its class,
   * and every other motif still has zero.
   */
  ghost predicate CountsSoFar(subs: seq<Graph>, motifs: seq<Graph>, counts: map<nat, nat>, i: nat) {
    && counts.Keys == Indices(|motifs|)
    && (forall m :: 0 <= m < |motifs| ==> counts[m] == 0 || IsClassCount(subs, motifs[m], counts[m]))
    && (PairwiseNonIsomorphic(motifs) ==>
          forall m :: 0 <= m < |motifs| ==>
            counts[m] == if Hit(subs, i, motifs[m]) then |MatchSet(subs, motifs[m])| else 0)
  }

  /** While scanning from representative i: the processed positions are those before, i, and the matches so far. */
  ghost predicate ClassSoFar(subs: seq<Graph>, before: set<nat>, processed: set<nat>, i: nat, j: nat) {
    forall x :: x in processed <==>
      x in before || x == i || (i < x < j && x < |subs| && Isomorphic(subs[i], subs[x]))
  }

  // ----- the operation -----

  /**
   * Counts the occurrences of each motif among the subgraphs. The set of
   * processed positions, local to the source function, is returned as well
   * so that its final state can be stated.
   */
  method CountMotifs(subs: seq<Graph>, motifs: seq<Graph>) returns (counts: map<nat, nat>, processed: set<nat>)
    requires forall i :: 0 <= i < |subs| ==> WellFormed(subs[i])
    requires forall m :: 0 <= m < |motifs| ==> WellFormed(motifs[m])
    ensures counts.Keys == Indices(|motifs|)
    ensures processed == Indices(|subs|)
    ensures forall m :: 0 <= m < |motifs| ==> counts[m] == 0 || IsClassCount(subs, motifs[m], counts[m])
    ensures PairwiseNonIsomorphic(motifs) ==>
      forall m :: 0 <= m < |motifs| ==> counts[m] == |MatchSet(subs, motifs[m])|
  {
    counts := map[];
    for m := 0 to |motifs|
      invariant counts.Keys == Indices(m)
      invariant forall x :: x in counts ==> counts[x] == 0
    {
      counts := counts[m := 0];
    }
    processed := {};
    for i := 0 to |subs|
      invariant ProcessedUpTo(subs, processed, i)
      invariant CountsSoFar(subs, motifs, counts, i)
    {
      if i in processed {
        SkipStep(subs, motifs, processed, counts, i);
        continue;
      }
      var count;
      count, processed := ScanClass(subs, processed, i);
      ghost var matched := false;
      var m := 0;
      while m < |motifs|
        invariant 0 <= m <= |motifs|
        invariant forall x :: 0 <= x < m ==> !Isomorphic(subs[i], motifs[x])
        invariant CountsSoFar(subs, motifs, counts, i)
      {
        if AreIsomorphic(subs[i], motifs[m]) {
          MatchStep(subs, motifs, counts, i, m, count);
          counts := counts[m := count];
          matched := true;
          break;
        }
        m := m + 1;
      }
      if !matched {
        NoMatchStep(subs, motifs, counts, i);
      }
    }
    ProcessedDone(subs, processed);
    CountsDone(subs, motifs, counts);
  }

  /**
   * Marks representative i and every later unprocessed subgraph isomorphic
   * to it as processed, counting them: the count is the size of the class
   * of i, and the processed positions are now the classes of the first
   * i + 1 subgraphs.
   */
  method ScanClass(subs: seq<Graph>, processed0: set<nat>, i: nat) returns (count: nat, processed: set<nat>)
    requires forall x :: 0 <= x < |subs| ==> WellFormed(subs[x])
    requires i < |subs| && i !in processed0 && ProcessedUpTo(subs, processed0, i)
    ensures ProcessedUpTo(subs, processed, i + 1)
    ensures count == |ClassOf(subs, i)|
  {
    count := 1;
    processed := processed0 + {i};
    for j := i + 1 to |subs|
      invariant ClassSoFar(subs, processed0, processed, i, j)
      invariant count == |processed| - |processed0|
    {
      ClassStep(subs, processed0, processed, i, j);
      if j in processed {
        continue;
      }
      if AreIsomorphic(subs[i], subs[j]) {
        count := count + 1;
        processed := processed + {j};
      }
    }
    ClassDone(subs, processed0, processed, i);
  }

  // ----- the steps of the scan -----

  /** A position already processed adds nothing new. */
  lemma {:induction false} SkipStep(subs: seq<Graph>, motifs: seq<Graph>, processed: set<nat>, counts: map<nat, nat>, i: nat)
    requires i < |subs| && i in processed
    requires ProcessedUpTo(subs, processed, i) && CountsSoFar(subs, motifs, counts, i)
    ensures ProcessedUpTo(subs, processed, i + 1) && CountsSoFar(subs, motifs, counts, i + 1)
  {
    var r0: nat :| r0 < i && Isomorphic(subs[r0], subs[i]);
    forall j: nat | j < |subs| ensures Seen(subs, i + 1, j) <==> Seen(subs, i, j) {
      if Isomorphic(subs[i], subs[j]) {
        IsomorphicTransitive(subs[r0], subs[i], subs[j]);
      }
    }
    forall m | 0 <= m < |motifs| ensures Hit(subs, i + 1, motifs[m]) <==> Hit(subs, i, motifs[m]) {
      if Isomorphic(subs[i], motifs[m]) {
        IsomorphicTransitive(subs[r0], subs[i], motifs[m]);
      }
    }
  }

  /** One more position of the scan from representative i: it joins the processed ones exactly when it is new and isomorphic to i. */
  lemma {:induction false} ClassStep(subs: seq<Graph>, before: set<nat>, processed: set<nat>, i: nat, j: nat)
    requires i < j < |subs| && ClassSoFar(subs, before, processed, i, j)
    ensures j !in processed && Isomorphic(subs[i], subs[j]) ==> ClassSoFar(subs, before, processed + {j}, i, j + 1)
    ensures j in processed || !Isomorphic(subs[i], subs[j]) ==> ClassSoFar(subs, before, processed, i, j + 1)
  {
  }

  /**
   * After the scan from a fresh representative i, the processed positions
   * are those before plus the class of i, which is disjoint from them, so
   * the count is the size of that class.
   */
  lemma {:induction false} ClassDone(subs: seq<Graph>, before: set<nat>, processed: set<nat>, i: nat)
    requires i < |subs| && i !in before
    requires ProcessedUpTo(subs, before, i) && ClassSoFar(subs, before, processed, i, |subs|)
    ensures ProcessedUpTo(subs, processed, i + 1)
    ensures |processed| - |before| == |ClassOf(subs, i)|
  {
    var cls := ClassOf(subs, i);
    IsomorphicReflexive(subs[i]);
    forall x | x in cls ensures x in processed {
      if x < i {
        IsomorphicReflexive(subs[x]);
        assert Seen(subs, i, x);
      }
    }
    forall x | x in processed ensures x in before + cls { }
    assert processed == before + cls;
    forall x | x in before * cls ensures false {
      var r: nat :| r < i && Isomorphic(subs[r], subs[x]);
      IsomorphicSymmetric(subs[i], subs[x]);
      IsomorphicTransitive(subs[r], subs[x], subs[i]);
    }
    assert before * cls == {};
    forall j: nat | j < |subs| ensures Seen(subs, i + 1, j) <==> Seen(subs, i, j) || Isomorphic(subs[i], subs[j]) { }
  }

  /**
   * Writing the class size of representative i against motif m, which i is
   * isomorphic to, keeps the counts as the invariant describes them, one
   * position further on.
   */
  lemma {:induction false} MatchStep(subs: seq<Graph>, motifs: seq<Graph>, counts: map<nat, nat>, i: nat, m: nat, count: nat)
    requires i < |subs| && m < |motifs| && Isomorphic(subs[i], motifs[m])
    requires count == |ClassOf(subs, i)| && CountsSoFar(subs, motifs, counts, i)
    ensures CountsSoFar(subs, motifs, counts[m := count], i + 1)
  {
    var counts' := counts[m := count];
    assert IsClassCount(subs, motifs[m], count);
    if PairwiseNonIsomorphic(motifs) {
      forall x | 0 <= x < |motifs| && x != m ensures Hit(subs, i + 1, motifs[x]) <==> Hit(subs, i, motifs[x]) {
        if Isomorphic(subs[i], motifs[x]) {
          IsomorphicSymmetric(subs[i], motifs[m]);
          IsomorphicTransitive(motifs[m], subs[i], motifs[x]);
        }
      }
      ClassIsMatchSet(subs, i, motifs[m]);
      assert Hit(subs, i + 1, motifs[m]);
    }
  }

  /** The class of a subgraph isomorphic to `g` is the set of subgraphs isomorphic to `g`. */
  lemma {:induction false} ClassIsMatchSet(subs: seq<Graph>, i: nat, g: Graph)
    requires i < |subs| && Isomorphic(subs[i], g)
    ensures ClassOf(subs, i) == MatchSet(subs, g)
  {
    IsomorphicSymmetric(subs[i], g);
    forall j: nat | j < |subs| ensures Isomorphic(subs[i], subs[j]) <==> Isomorphic(subs[j], g) {
      IsomorphicSymmetric(subs[i], subs[j]);
      if Isomorphic(subs[i], subs[j]) {
        IsomorphicTransitive(subs[j], subs[i], g);
      }
      if Isomorphic(subs[j], g) {
        IsomorphicSymmetric(subs[j], g);
        IsomorphicTransitive(subs[i], g, subs[j]);
      }
    }
  }

  /** A representative isomorphic to no motif leaves the counts as they are. */
  lemma {:induction false} NoMatchStep(subs: seq<Graph>, motifs: seq<Graph>, counts: map<nat, nat>, i: nat)
    requires i < |subs| && CountsSoFar(subs, motifs, counts, i)
    requires forall x :: 0 <= x < |motifs| ==> !Isomorphic(subs[i], motifs[x])
    ensures CountsSoFar(subs, motifs, counts, i + 1)
  {
    forall x | 0 <= x < |motifs| ensures Hit(subs, i + 1, motifs[x]) <==> Hit(subs, i, motifs[x]) { }
  }

  lemma {:induction false} ProcessedDone(subs: seq<Graph>, processed: set<nat>)
    requires ProcessedUpTo(subs, processed, |subs|)
    ensures processed == Indices(|subs|)
  {
    forall j: nat | j < |subs| ensures j in processed {
      IsomorphicReflexive(subs[j]);
      assert Seen(subs, |subs|, j);
    }
  }

  lemma {:induction false} CountsDone(subs: seq<Graph>, motifs: seq<Graph>, counts: map<nat, nat>)
    requires CountsSoFar(subs, motifs, counts, |subs|)
    ensures PairwiseNonIsomorphic(motifs) ==>
      forall m :: 0 <= m < |motifs| ==> counts[m] == |MatchSet(subs, motifs[m])|
  {
    forall m | 0 <= m < |motifs| && !Hit(subs, |subs|, motifs[m]) ensures MatchSet(subs, motifs[m]) == {} { }
  }

  // ----- properties of the classes and the counts -----

  /** Every class holds its representative, so a class count is at least 1. */
  lemma {:induction false} ClassSizePositive(subs: seq<Graph>, r: nat)
    requires r < |subs|
    ensures r in ClassOf(subs, r) && |ClassOf(subs, r)| >= 1
  {
    IsomorphicReflexive(subs[r]);
  }

  /** Two classes are the same class or share no subgraph. */
  lemma {:induction false} ClassesDisjoint(subs: seq<Graph>, r: nat, s: nat)
    requires r < |subs| && s < |subs|
    ensures ClassOf(subs, r) == ClassOf(subs, s) || ClassOf(subs, r) * ClassOf(subs, s) == {}
  {
    if x :| x in ClassOf(subs, r) * ClassOf(subs, s) {
      IsomorphicSymmetric(subs[s], subs[x]);
      IsomorphicTransitive(subs[r], subs[x], subs[s]);
      ClassIsMatchSet(subs, r, subs[s]);
      IsomorphicSymmetric(subs[r], subs[s]);
      IsomorphicReflexive(subs[s]);
      ClassIsMatchSet(subs, s, subs[s]);
    }
  }

  /** The catalogue of size k meets the condition under which the census counts are exact. */
  lemma {:induction false} MotifCatalogueNonIsomorphic(k: int)
    requires k >= 2
    ensures PairwiseNonIsomorphic(MotifCatalogue(k))
  {
    MotifsPairwiseNonIsomorphic(k);
  }

  /** The sum of the counts of motifs 0..n-1. */
  function Total(counts: map<nat, nat>, n: nat): nat
    requires Counted(counts, n)
  {
    if n == 0 then 0 else Total(counts, n - 1) + counts[n - 1]
  }

  /** The positions of the subgraphs isomorphic to one of the first n motifs. */
  ghost function Covered(subs: seq<Graph>, motifs: seq<Graph>, n: nat): set<nat> {
    set j: nat | j < |subs| && exists m :: 0 <= m < n && m < |motifs| && Isomorphic(subs[j], motifs[m])
  }

  /**
   * When the motifs are pairwise non-isomorphic and every subgraph is
   * isomorphic to one of them, the counts the census computes add up to
   * the number of subgraphs.
   */
  lemma {:induction false} CensusTotal(subs: seq<Graph>, motifs: seq<Graph>, counts: map<nat, nat>)
    requires counts.Keys == Indices(|motifs|) && PairwiseNonIsomorphic(motifs)
    requires forall m :: 0 <= m < |motifs| ==> counts[m] == |MatchSet(subs, motifs[m])|
    requires forall j :: 0 <= j < |subs| ==> IsoToAny(subs[j], motifs)
    ensures Total(counts, |motifs|) == |subs|
  {
    TotalCovered(subs, motifs, counts, |motifs|);
    forall j: nat | j < |subs| ensures j in Covered(subs, motifs, |motifs|) {
      assert IsoToAny(subs[j], motifs);
    }
    assert Covered(subs, motifs, |motifs|) == Indices(|subs|);
    IndicesCard(|subs|);
  }

  /**
   * Conversely, a subgraph isomorphic to no motif is counted nowhere, so the
   * counts add up to less than the number of subgraphs.
   */
  lemma {:induction false} CensusShortfall(subs: seq<Graph>, motifs: seq<Graph>, counts: map<nat, nat>, j: nat)
    requires counts.Keys == Indices(|motifs|) && PairwiseNonIsomorphic(motifs)
    requires forall m :: 0 <= m < |motifs| ==> counts[m] == |MatchSet(subs, motifs[m])|
    requires j < |subs| && !IsoToAny(subs[j], motifs)
    ensures Total(counts, |motifs|) < |subs|
  {
    TotalCovered(subs, motifs, counts, |motifs|);
    var covered := Covered(subs, motifs, |motifs|);
    assert covered <= Indices(|subs|) - {j};
    IndicesCard(|subs|);
    SubsetCard(covered, Indices(|subs|) - {j});
  }

  /** The counts add up to the number of subgraphs exactly when every subgraph matches a motif. */
  lemma CensusTotalExact(subs: seq<Graph>, motifs: seq<Graph>, counts: map<nat, nat>)
    requires counts.Keys == Indices(|motifs|) && PairwiseNonIsomorphic(motifs)
    requires forall m :: 0 <= m < |motifs| ==> counts[m] == |MatchSet(subs, motifs[m])|
    ensures Total(counts, |motifs|) == |subs| <==> forall j :: 0 <= j < |subs| ==> IsoToAny(subs[j], motifs)
  {
    if forall j :: 0 <= j < |subs| ==> IsoToAny(subs[j], motifs) {
      CensusTotal(subs, motifs, counts);
    } else {
      var j :| 0 <= j < |subs| && !IsoToAny(subs[j], motifs);
      CensusShortfall(subs, motifs, counts, j);
    }
  }

  /**
   * The hypothesis of `CensusTotal` fails on a host graph with a self-loop
   * inside a sample (`SelfLoopHostSample` gives one): that sample matches no
   * motif, so the counts add up to less than the number of samples.
   */
  lemma SelfLoopSampleUncounted(host: Graph, k: int, subs: seq<Graph>, counts: map<nat, nat>, j: nat, v: Vertex)
    requires k >= 2 && WellFormed(host) && subs == Sampled(host, Combinations(host.vertices, k))
    requires j < |subs| && (v, v) in subs[j].edges
    requires counts.Keys == Indices(|MotifCatalogue(k)|)
    requires forall m :: 0 <= m < |MotifCatalogue(k)| ==> counts[m] == |MatchSet(subs, MotifCatalogue(k)[m])|
    ensures Total(counts, |MotifCatalogue(k)|) < |subs|
  {
    SubgraphsShape(host, k);
    SelfLoopMatchesNoMotif(k, subs[j], v);
    MotifCatalogueNonIsomorphic(k);
    CensusShortfall(subs, MotifCatalogue(k), counts, j);
  }

  /** A subset is no larger than its superset. */
  lemma SubsetCard(a: set<nat>, b: set<nat>)
    requires a <= b
    ensures |a| <= |b|
  {
    assert b == a + (b - a);
  }

  lemma {:induction false} TotalCovered(subs: seq<Graph>, motifs: seq<Graph>, counts: map<nat, nat>, n: nat)
    requires n <= |motifs| && Counted(counts, |motifs|) && PairwiseNonIsomorphic(motifs)
    requires forall m :: 0 <= m < |motifs| ==> counts[m] == |MatchSet(subs, motifs[m])|
    ensures Total(counts, n) == |Covered(subs, motifs, n)|
  {
    if n > 0 {
      TotalCovered(subs, motifs, counts, n - 1);
      CoveredSize(subs, motifs, n);
      TotalStep(counts, n, |Covered(subs, motifs, n - 1)|, |MatchSet(subs, motifs[n - 1])|, |Covered(subs, motifs, n)|);
    }
  }

  /** The subgraphs covered by the first n motifs: those covered by the first n - 1, and, apart from them, those isomorphic to motif n - 1. */
  lemma {:induction false} CoveredStep(subs: seq<Graph>, motifs: seq<Graph>, n: nat)
    requires 0 < n <= |motifs| && PairwiseNonIsomorphic(motifs)
    ensures Covered(subs, motifs, n) == Covered(subs, motifs, n - 1) + MatchSet(subs, motifs[n - 1])
    ensures Covered(subs, motifs, n - 1) * MatchSet(subs, motifs[n - 1]) == {}
  {
    var a, b := Covered(subs, motifs, n - 1), MatchSet(subs, motifs[n - 1]);
    forall j | j in Covered(subs, motifs, n) ensures j in a + b {
      var m :| 0 <= m < n && m < |motifs| && Isomorphic(subs[j], motifs[m]);
      if m < n - 1 { assert j in a; }
    }
    forall j | j in a * b ensures false {
      var m :| 0 <= m < n - 1 && Isomorphic(subs[j], motifs[m]);
      IsomorphicSymmetric(subs[j], motifs[m]);
      IsomorphicTransitive(motifs[m], subs[j], motifs[n - 1]);
    }
  }

  /** One more count on top of a total that is already known. */
  lemma {:induction false} TotalStep(counts: map<nat, nat>, n: nat, before: nat, extra: nat, after: nat)
    requires 0 < n && Counted(counts, n)
    requires Total(counts, n - 1) == before && counts[n - 1] == extra && after == before + extra
    ensures Total(counts, n) == after
  {
  }

  /** The first n motifs cover as many subgraphs as the first n - 1 do plus the class of motif n - 1. */
  lemma {:induction false} CoveredSize(subs: seq<Graph>, motifs: seq<Graph>, n: nat)
    requires 0 < n <= |motifs| && PairwiseNonIsomorphic(motifs)
    ensures |Covered(subs, motifs, n)| == |Covered(subs, motifs, n - 1)| + |MatchSet(subs, motifs[n - 1])|
  {
    CoveredStep(subs, motifs, n);
    DisjointUnionSize(Covered(subs, motifs, n - 1), MatchSet(subs, motifs[n - 1]), Covered(subs, motifs, n));
  }

  /** The size of a disjoint union is the sum of the sizes. */
  lemma {:induction false} DisjointUnionSize(a: set<nat>, b: set<nat>, union: set<nat>)
    requires a * b == {} && union == a + b
    ensures |union| == |a| + |b|
  {
    assert |a + b| + |a * b| == |a| + |b|;
  }

  lemma IndicesCard(n: nat)
    ensures |Indices(n)| == n
  {
    RangeCard(Indices(n), n);
  }

  /** A set of naturals that holds exactly those below n has n elements. */
  lemma {:induction false} RangeCard(s: set<nat>, n: nat)
    requires forall i: nat :: i in s <==> i < n
    ensures |s| == n
  {
    if n > 0 {
      var rest := s - {n - 1};
      RangeCard(rest, n - 1);
      assert s == rest + {n - 1};
    }
  }
}
