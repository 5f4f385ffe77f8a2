/**
 * The order in which combinations come out: the i-th m-element combination
 * of `s` is `s` read at the i-th m-tuple of strictly increasing positions,
 * and these tuples strictly increase in lexicographic order, as
 * itertools.combinations promises for any input sequence.
 */
module CombinationOrder {
  import opened Seqs
  import opened Combinatorics

  /** The positions 0, 1, ..., n - 1. */
  function Range(n: nat): (r: seq<int>)
    ensures |r| == n && forall i :: 0 <= i < n ==> r[i] == i
  {
    seq(n, i => i)
  }

  predicate Increasing(r: seq<int>) {
    forall i, j :: 0 <= i < j < |r| ==> r[i] < r[j]
  }

  /** Strict lexicographic order of two tuples of positions. */
  predicate TupleLess(a: seq<int>, b: seq<int>)
    decreases |a|
  {
    |a| > 0 && |b| > 0 && (a[0] < b[0] || (a[0] == b[0] && TupleLess(a[1..], b[1..])))
  }

  /** Each tuple comes strictly before the next ones. */
  predicate Ascending(c: seq<seq<int>>) {
    forall i, j :: 0 <= i < j < |c| ==> TupleLess(c[i], c[j])
  }

  /** Every tuple is non-empty and starts above `x`. */
  predicate StartAbove(x: int, c: seq<seq<int>>) {
    forall q :: 0 <= q < |c| ==> |c[q]| > 0 && x < c[q][0]
  }

  /** Each element paired with its position. */
  function Zip<T>(s: seq<T>): (z: seq<(int, T)>)
    ensures |z| == |s| && forall i :: 0 <= i < |s| ==> z[i] == (i, s[i])
  {
    seq(|s|, i requires 0 <= i < |s| => (i, s[i]))
  }

  function MapSeq<T, U>(f: T -> U, s: seq<T>): (r: seq<U>)
    ensures |r| == |s| && forall i :: 0 <= i < |s| ==> r[i] == f(s[i])
  {
    seq(|s|, i requires 0 <= i < |s| => f(s[i]))
  }

  function MapEach<T, U>(f: T -> U, cs: seq<seq<T>>): (r: seq<seq<U>>)
    ensures |r| == |cs| && forall i :: 0 <= i < |cs| ==> r[i] == MapSeq(f, cs[i])
  {
    seq(|cs|, i requires 0 <= i < |cs| => MapSeq(f, cs[i]))
  }

  /**
   * The combinations of `s`, in order: the i-th one is `s` at the positions
   * of the i-th combination of 0..|s|-1, and those position tuples strictly
   * increase lexicographically.
   */
  lemma {:induction false} CombinationsOrder<T>(s: seq<T>, m: nat)
    ensures var cs, ts := Combinations(s, m), Combinations(Range(|s|), m);
      && |ts| == |cs|
      && (forall i, t :: 0 <= i < |cs| && 0 <= t < m ==> 0 <= ts[i][t] < |s| && cs[i][t] == s[ts[i][t]])
      && Ascending(ts)
  {
    var cs, ts := Combinations(s, m), Combinations(Range(|s|), m);
    var z := Zip(s);
    var zc := Combinations(z, m);
    var first := (p: (int, T)) => p.0;
    var second := (p: (int, T)) => p.1;
    assert MapSeq(first, z) == Range(|s|);
    assert MapSeq(second, z) == s;
    CombinationsMap(first, z, m);
    CombinationsMap(second, z, m);
    forall i, t | 0 <= i < |cs| && 0 <= t < m
      ensures 0 <= ts[i][t] < |s| && cs[i][t] == s[ts[i][t]]
    {
      SubsequenceElems(zc[i], z);
      assert zc[i][t] in Elems(z);
      var p :| 0 <= p < |z| && z[p] == zc[i][t];
      assert ts[i][t] == p && cs[i][t] == s[p];
    }
    TuplesIncrease(Range(|s|), m);
  }

  /** The combinations of an increasing sequence strictly increase lexicographically. */
  lemma {:induction false} TuplesIncrease(r: seq<int>, m: nat)
    requires Increasing(r)
    ensures Ascending(Combinations(r, m))
    decreases |r|
  {
    if m > 0 && |r| > 0 {
      var tail := r[1..];
      IncreasingTail(r);
      TuplesIncrease(tail, m - 1);
      TuplesIncrease(tail, m);
      HeadsAbove(r, m);
      SplitAscending(r, m);
    }
  }

  lemma {:induction false} IncreasingTail(r: seq<int>)
    requires Increasing(r) && |r| > 0
    ensures Increasing(r[1..])
  {
    forall i, j | 0 <= i < j < |r| - 1 ensures r[1..][i] < r[1..][j] {
      assert r[1..][i] == r[i + 1] && r[1..][j] == r[j + 1];
    }
  }

  /** A combination that skips r[0] starts above it. */
  lemma {:induction false} HeadsAbove(r: seq<int>, m: nat)
    requires Increasing(r) && |r| > 0 && m > 0
    ensures StartAbove(r[0], Combinations(r[1..], m))
  {
    var without := Combinations(r[1..], m);
    forall q | 0 <= q < |without| ensures |without[q]| > 0 && r[0] < without[q][0] {
      SubsequenceElems(without[q], r[1..]);
      assert without[q][0] in Elems(r[1..]);
    }
  }

  lemma {:induction false} SplitAscending(r: seq<int>, m: nat)
    requires |r| > 0 && m > 0
    requires Ascending(Combinations(r[1..], m - 1)) && Ascending(Combinations(r[1..], m))
    requires StartAbove(r[0], Combinations(r[1..], m))
    ensures Ascending(Combinations(r, m))
  {
    CombinationsSplit(r, m);
    PrependedIncrease(r[0], Combinations(r[1..], m - 1), Combinations(r[1..], m), Combinations(r, m));
  }

  lemma {:induction false} PrependedIncrease(x: int, with: seq<seq<int>>, without: seq<seq<int>>, c: seq<seq<int>>)
    requires c == Prepend(x, with) + without
    requires Ascending(with) && Ascending(without) && StartAbove(x, without)
    ensures Ascending(c)
  {
    forall i, j | 0 <= i < j < |c| ensures TupleLess(c[i], c[j]) {
      if j < |with| {
        assert c[i] == [x] + with[i] && c[j] == [x] + with[j];
        assert c[i][1..] == with[i] && c[j][1..] == with[j];
      } else if i < |with| {
        assert c[i] == [x] + with[i] && c[j] == without[j - |with|];
      } else {
        assert c[i] == without[i - |with|] && c[j] == without[j - |with|];
      }
    }
  }

  /** Renaming the elements of `s` by `f` and then taking combinations renames the combinations. */
  ghost predicate MapCommutes<T, U>(f: T -> U, s: seq<T>, m: nat) {
    Combinations(MapSeq(f, s), m) == MapEach(f, Combinations(s, m))
  }

  /** Renaming the elements commutes with taking combinations. */
  lemma {:induction false} CombinationsMap<T, U>(f: T -> U, s: seq<T>, m: nat)
    ensures MapCommutes(f, s, m)
    decreases |s|
  {
    if m == 0 {
      assert MapEach(f, [[]]) == [MapSeq(f, [])];
      assert MapSeq(f, []) == [];
    } else if |s| > 0 {
      var tail, k := s[1..], m - 1;
      CombinationsMap(f, tail, k);
      CombinationsMap(f, tail, m);
      MapSplit(f, s, tail, k, m);
    }
  }

  /** The step case, from the two facts about the tail. */
  lemma {:induction false} MapSplit<T, U>(f: T -> U, s: seq<T>, tail: seq<T>, k: nat, m: nat)
    requires |s| > 0 && tail == s[1..] && m == k + 1
    requires MapCommutes(f, tail, k) && MapCommutes(f, tail, m)
    ensures MapCommutes(f, s, m)
  {
    var t := MapSeq(f, s);
    assert t[1..] == MapSeq(f, tail);
    CombinationsSplit(t, m);
    CombinationsSplit(s, m);
    MapPrepended(f, s[0], Combinations(tail, k), Combinations(tail, m));
  }

  lemma {:induction false} MapPrepended<T, U>(f: T -> U, x: T, with: seq<seq<T>>, without: seq<seq<T>>)
    ensures MapEach(f, Prepend(x, with) + without) == Prepend(f(x), MapEach(f, with)) + MapEach(f, without)
  {
    var l, r := MapEach(f, Prepend(x, with) + without), Prepend(f(x), MapEach(f, with)) + MapEach(f, without);
    forall i | 0 <= i < |l| ensures l[i] == r[i] {
      if i < |with| {
        assert MapSeq(f, [x] + with[i]) == [f(x)] + MapSeq(f, with[i]);
      }
    }
  }
}
