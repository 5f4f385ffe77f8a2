/**
 * The enumerations the census is built from: binomial coefficients, the
 * combinations of a sequence in the order Python's itertools.combinations
 * yields them, combinations grouped by ascending size, and the ordered pairs
 * of distinct vertices 1..n in the order of two nested `range(1, n + 1)` loops.
 */
module Combinatorics {
  import opened Seqs

  type Edge = (int, int)

  function Binom(n: nat, k: nat): nat {
    if k == 0 then 1
    else if n == 0 then 0
    else Binom(n - 1, k - 1) + Binom(n - 1, k)
  }

  /** Sum of Binom(n, j) for j < m. */
  function SumBinom(n: nat, m: nat): nat {
    if m == 0 then 0 else SumBinom(n, m - 1) + Binom(n, m - 1)
  }

  lemma {:induction false} BinomAbove(n: nat, k: nat)
    requires k > n
    ensures Binom(n, k) == 0
  {
    if n > 0 {
      BinomAbove(n - 1, k - 1);
      BinomAbove(n - 1, k);
    }
  }

  lemma {:induction false} SumBinomPascal(n: nat, m: nat)
    ensures SumBinom(n + 1, m + 1) == SumBinom(n, m + 1) + SumBinom(n, m)
  {
    if m > 0 {
      SumBinomPascal(n, m - 1);
    }
  }

  /** The binomial coefficients of row n sum to 2^n. */
  lemma {:induction false} SumBinomRow(n: nat)
    ensures SumBinom(n, n + 1) == Pow2(n)
  {
    if n > 0 {
      SumBinomPascal(n - 1, n);
      SumBinomRow(n - 1);
      BinomAbove(n - 1, n);
    }
  }

  /** `c` is obtained from `s` by deleting elements, keeping the order of the rest. */
  predicate IsSubsequence<T(==)>(c: seq<T>, s: seq<T>)
    decreases |s|
  {
    c == [] ||
    (|s| > 0 && ((c[0] == s[0] && IsSubsequence(c[1..], s[1..])) || IsSubsequence(c, s[1..])))
  }

  function Prepend<T>(x: T, cs: seq<seq<T>>): (r: seq<seq<T>>)
    ensures |r| == |cs|
    ensures forall i :: 0 <= i < |r| ==> r[i] == [x] + cs[i]
  {
    seq(|cs|, i requires 0 <= i < |cs| => [x] + cs[i])
  }

  /**
   * The m-element combinations of `s`, in lexicographic order of positions:
   * those starting with s[0] first, then those that skip it.
   */
  function Combinations<T(==)>(s: seq<T>, m: nat): (r: seq<seq<T>>)
    ensures |r| == Binom(|s|, m)
    ensures forall i :: 0 <= i < |r| ==> |r[i]| == m && IsSubsequence(r[i], s)
    decreases |s|
  {
    if m == 0 then [[]]
    else if |s| == 0 then []
    else
      var with, without := Combinations(s[1..], m - 1), Combinations(s[1..], m);
      CombinationsStep(s, m, with, without);
      Prepend(s[0], with) + without
  }

  /** Putting s[0] in front of the combinations of s[1..], and keeping those without it, gives combinations of s. */
  lemma CombinationsStep<T>(s: seq<T>, m: nat, with: seq<seq<T>>, without: seq<seq<T>>)
    requires |s| > 0 && m > 0
    requires forall i :: 0 <= i < |with| ==> |with[i]| == m - 1 && IsSubsequence(with[i], s[1..])
    requires forall i :: 0 <= i < |without| ==> |without[i]| == m && IsSubsequence(without[i], s[1..])
    ensures forall i :: 0 <= i < |Prepend(s[0], with) + without| ==>
      |(Prepend(s[0], with) + without)[i]| == m && IsSubsequence((Prepend(s[0], with) + without)[i], s)
  {
    var r := Prepend(s[0], with) + without;
    forall i | 0 <= i < |r| ensures |r[i]| == m && IsSubsequence(r[i], s) {
      if i < |with| {
        assert r[i] == [s[0]] + with[i];
        SubsequenceCons(with[i], s);
      } else {
        assert r[i] == without[i - |with|];
      }
    }
  }

  lemma SubsequenceCons<T>(c: seq<T>, s: seq<T>)
    requires |s| > 0 && IsSubsequence(c, s[1..])
    ensures IsSubsequence([s[0]] + c, s)
  {
    assert ([s[0]] + c)[1..] == c;
  }

  /** A subsequence keeps to the elements of the sequence, and to its distinctness. */
  lemma {:induction false} SubsequenceElems<T>(c: seq<T>, s: seq<T>)
    requires IsSubsequence(c, s)
    ensures Elems(c) <= Elems(s)
    ensures Distinct(s) ==> Distinct(c)
    decreases |s|
  {
    if c != [] {
      if c[0] == s[0] && IsSubsequence(c[1..], s[1..]) {
        SubsequenceElems(c[1..], s[1..]);
        assert c == [c[0]] + c[1..];
        assert Elems(c) == {c[0]} + Elems(c[1..]);
        assert Elems(s) == {s[0]} + Elems(s[1..]);
        if Distinct(s) {
          assert s[0] !in Elems(s[1..]);
          forall i, j | 0 <= i < j < |c| ensures c[i] != c[j] {
            if i == 0 {
              assert c[j] == c[1..][j - 1];
            } else {
              assert c[i] == c[1..][i - 1] && c[j] == c[1..][j - 1];
            }
          }
        }
      } else {
        SubsequenceElems(c, s[1..]);
        assert Elems(s) == {s[0]} + Elems(s[1..]);
      }
    }
  }

  /** A subsequence is no longer than the sequence. */
  lemma {:induction false} SubsequenceLength<T>(c: seq<T>, s: seq<T>)
    requires IsSubsequence(c, s)
    ensures |c| <= |s|
    decreases |s|
  {
    if c != [] {
      if c[0] == s[0] && IsSubsequence(c[1..], s[1..]) {
        SubsequenceLength(c[1..], s[1..]);
      } else {
        SubsequenceLength(c, s[1..]);
      }
    }
  }

  /** The elements of `s` that belong to `keep`, in their order in `s`. */
  function Filter(s: seq<Edge>, keep: set<Edge>): (r: seq<Edge>)
    ensures forall x :: x in r <==> x in s && x in keep
    ensures IsSubsequence(r, s)
  {
    if s == [] then []
    else if s[0] in keep then
      assert s[0] in s;
      [s[0]] + Filter(s[1..], keep)
    else Filter(s[1..], keep)
  }

  /** Every subsequence of `s` is one of its combinations of that size. */
  lemma CombinationsComplete<T>(c: seq<T>, s: seq<T>)
    requires IsSubsequence(c, s)
    ensures c in Combinations(s, |c|)
  {
    var i := CombinationsIndex(c, s);
  }

  /** Where a subsequence of `s` sits among the combinations of its size. */
  lemma {:induction false} CombinationsIndex<T>(c: seq<T>, s: seq<T>) returns (i: nat)
    requires IsSubsequence(c, s)
    ensures i < |Combinations(s, |c|)| && Combinations(s, |c|)[i] == c
    decreases |s|
  {
    if c == [] {
      i := 0;
      assert Combinations(s, 0) == [[]];
    } else if c[0] == s[0] && IsSubsequence(c[1..], s[1..]) {
      var j := CombinationsIndex(c[1..], s[1..]);
      i := IndexWith(c, s, j);
    } else {
      var j := CombinationsIndex(c, s[1..]);
      i := IndexWithout(c, s, j);
    }
  }

  /** A combination of s[1..] with s[0] put in front sits among the first block. */
  lemma IndexWith<T>(c: seq<T>, s: seq<T>, j: nat) returns (i: nat)
    requires |s| > 0 && |c| > 0 && c[0] == s[0]
    requires j < |Combinations(s[1..], |c| - 1)| && Combinations(s[1..], |c| - 1)[j] == c[1..]
    ensures i < |Combinations(s, |c|)| && Combinations(s, |c|)[i] == c
  {
    var with, without := Combinations(s[1..], |c| - 1), Combinations(s[1..], |c|);
    CombinationsSplit(s, |c|);
    assert c == [s[0]] + c[1..];
    i := PickWith(s[0], with, without, j);
  }

  /** A combination of s[1..] of the same size sits among the second block. */
  lemma IndexWithout<T>(c: seq<T>, s: seq<T>, j: nat) returns (i: nat)
    requires |s| > 0 && |c| > 0
    requires j < |Combinations(s[1..], |c|)| && Combinations(s[1..], |c|)[j] == c
    ensures i < |Combinations(s, |c|)| && Combinations(s, |c|)[i] == c
  {
    var with, without := Combinations(s[1..], |c| - 1), Combinations(s[1..], |c|);
    CombinationsSplit(s, |c|);
    i := PickWithout(s[0], with, without, j);
  }

  lemma PickWith<T>(x: T, with: seq<seq<T>>, without: seq<seq<T>>, j: nat) returns (i: nat)
    requires j < |with|
    ensures i < |Prepend(x, with) + without| && (Prepend(x, with) + without)[i] == [x] + with[j]
  {
    i := j;
  }

  lemma PickWithout<T>(x: T, with: seq<seq<T>>, without: seq<seq<T>>, j: nat) returns (i: nat)
    requires j < |without|
    ensures i < |Prepend(x, with) + without| && (Prepend(x, with) + without)[i] == without[j]
  {
    i := |with| + j;
  }

  lemma CombinationsSplit<T>(s: seq<T>, m: nat)
    requires |s| > 0 && m > 0
    ensures Combinations(s, m) == Prepend(s[0], Combinations(s[1..], m - 1)) + Combinations(s[1..], m)
  {
  }

  /** The only combination of all the elements is the whole sequence. */
  lemma {:induction false} CombinationsWhole<T>(s: seq<T>)
    ensures Combinations(s, |s|) == [s]
    decreases |s|
  {
    if |s| > 0 {
      var tail := s[1..];
      CombinationsWhole(tail);
      BinomAbove(|tail|, |s|);
      CombinationsSplit(s, |s|);
      assert [s[0]] + tail == s;
    }
  }

  lemma PrependMember<T>(x: T, cs: seq<seq<T>>, c: seq<T>)
    requires c in cs
    ensures [x] + c in Prepend(x, cs)
  {
    var i :| 0 <= i < |cs| && cs[i] == c;
    assert Prepend(x, cs)[i] == [x] + c;
  }

  /**
   * All combinations of `s` of sizes lo, lo + 1, ..., hi, smaller sizes first
   * (the loop `for m in range(lo, hi + 1): for c in combinations(s, m)`).
   */
  function SubsetsBySize<T(==)>(s: seq<T>, lo: nat, hi: int): (r: seq<seq<T>>)
    ensures forall i :: 0 <= i < |r| ==> lo <= |r[i]| <= hi && IsSubsequence(r[i], s)
    ensures forall i, j :: 0 <= i < j < |r| ==> |r[i]| <= |r[j]|
    decreases hi - lo
  {
    if hi < lo then [] else SubsetsBySize(s, lo, hi - 1) + Combinations(s, hi)
  }

  /** One size further: the combinations of the next size come after the smaller ones. */
  lemma SubsetsBySizeStep<T>(s: seq<T>, lo: nat, m: int, combos: seq<seq<T>>)
    requires lo <= m && combos == Combinations(s, m)
    ensures SubsetsBySize(s, lo, m - 1) + combos == SubsetsBySize(s, lo, m)
  {
  }

  /** Every subsequence whose size is in range is enumerated. */
  lemma {:induction false} SubsetsBySizeComplete<T>(c: seq<T>, s: seq<T>, lo: nat, hi: int)
    requires IsSubsequence(c, s) && lo <= |c| <= hi
    ensures c in SubsetsBySize(s, lo, hi)
    decreases hi - lo
  {
    if |c| == hi {
      CombinationsComplete(c, s);
    } else {
      SubsetsBySizeComplete(c, s, lo, hi - 1);
    }
  }

  /** The non-empty combinations of `s`, all sizes, number 2^|s| - 1. */
  lemma {:induction false} SubsetsBySizeCount<T>(s: seq<T>, hi: nat)
    ensures |SubsetsBySize(s, 1, hi)| == SumBinom(|s|, hi + 1) - 1
  {
    if hi > 0 {
      SubsetsBySizeCount(s, hi - 1);
    }
  }

  lemma NonEmptySubsetsCount<T>(s: seq<T>)
    ensures |SubsetsBySize(s, 1, |s|)| == Pow2(|s|) - 1
  {
    SubsetsBySizeCount(s, |s|);
    SumBinomRow(|s|);
  }

  // ----- ordered pairs of distinct vertices -----

  /** The pairs (i, j), j = 1..m, j != i, in ascending j. */
  function Row(i: int, m: int): seq<Edge>
    decreases m
  {
    if m <= 0 then [] else Row(i, m - 1) + (if i != m then [(i, m)] else [])
  }

  /** The rows i = 1..n of pairs over 1..k, row after row. */
  function Rows(n: int, k: int): seq<Edge>
    decreases n
  {
    if n <= 0 then [] else Rows(n - 1, k) + Row(n, k)
  }

  /** All ordered pairs (i, j) of distinct integers in 1..k, lexicographically. */
  function OrderedPairs(k: int): seq<Edge> {
    Rows(k, k)
  }

  predicate LexLess(a: Edge, b: Edge) {
    a.0 < b.0 || (a.0 == b.0 && a.1 < b.1)
  }

  predicate LexSorted(s: seq<Edge>) {
    forall i, j :: 0 <= i < j < |s| ==> LexLess(s[i], s[j])
  }

  /** Row i over 1..m: the pairs (i, j) with j in 1..m other than i, m - 1 or m of them, ascending. */
  lemma RowProps(i: int, m: int)
    ensures forall e :: e in Row(i, m) <==> e.0 == i && 1 <= e.1 <= m && e.1 != i
    ensures |Row(i, m)| == if m <= 0 then 0 else if 1 <= i <= m then m - 1 else m
    ensures LexSorted(Row(i, m))
  {
    RowElems(i, m);
    RowLength(i, m);
    RowSorted(i, m);
  }

  lemma {:induction false} RowElems(i: int, m: int)
    ensures forall e :: e in Row(i, m) <==> e.0 == i && 1 <= e.1 <= m && e.1 != i
    decreases m
  {
    if m > 0 {
      RowElems(i, m - 1);
      assert Row(i, m) == Row(i, m - 1) + (if i != m then [(i, m)] else []);
    }
  }

  lemma {:induction false} RowLength(i: int, m: int)
    ensures |Row(i, m)| == if m <= 0 then 0 else if 1 <= i <= m then m - 1 else m
    decreases m
  {
    if m > 0 {
      RowLength(i, m - 1);
    }
  }

  lemma {:induction false} RowSorted(i: int, m: int)
    ensures LexSorted(Row(i, m))
    decreases m
  {
    if m > 0 {
      RowSorted(i, m - 1);
      RowElems(i, m - 1);
      var tail: seq<Edge> := if i != m then [(i, m)] else [];
      assert Row(i, m) == Row(i, m - 1) + tail;
      SortedConcat(Row(i, m - 1), tail);
    }
  }

  lemma {:induction false} RowsElems(n: int, k: int)
    ensures forall e :: e in Rows(n, k) <==> 1 <= e.0 <= n && 1 <= e.1 <= k && e.0 != e.1
    decreases n
  {
    if n > 0 {
      RowsElems(n - 1, k);
      RowProps(n, k);
    }
  }

  lemma {:induction false} RowsLength(n: int, k: int)
    requires n <= k
    ensures |Rows(n, k)| == if n <= 0 then 0 else n * (k - 1)
    decreases n
  {
    if n > 0 {
      RowsLength(n - 1, k);
      RowProps(n, k);
      if n > 1 {
        assert (n - 1) * (k - 1) + (k - 1) == n * (k - 1);
      }
    }
  }

  lemma {:induction false} RowsSorted(n: int, k: int)
    ensures LexSorted(Rows(n, k))
    decreases n
  {
    if n > 0 {
      RowsSorted(n - 1, k);
      RowsElems(n - 1, k);
      RowProps(n, k);
      SortedConcat(Rows(n - 1, k), Row(n, k));
    }
  }

  /** Two sorted runs, the first entirely below the second, make a sorted run. */
  lemma SortedConcat(a: seq<Edge>, b: seq<Edge>)
    requires LexSorted(a) && LexSorted(b)
    requires forall x, y :: x in a && y in b ==> LexLess(x, y)
    ensures LexSorted(a + b)
  {
    forall p, q | 0 <= p < q < |a + b| ensures LexLess((a + b)[p], (a + b)[q]) {
      if q < |a| {
        assert (a + b)[p] == a[p] && (a + b)[q] == a[q];
      } else if p >= |a| {
        assert (a + b)[p] == b[p - |a|] && (a + b)[q] == b[q - |a|];
      } else {
        assert (a + b)[p] == a[p] && (a + b)[q] == b[q - |a|];
        assert a[p] in a && b[q - |a|] in b;
      }
    }
  }

  lemma LexSortedDistinct(s: seq<Edge>)
    requires LexSorted(s)
    ensures Distinct(s)
  {
    forall i, j | 0 <= i < j < |s| ensures s[i] != s[j] {
      assert LexLess(s[i], s[j]);
    }
  }

  /**
   * The ordered pairs over 1..k: exactly the pairs of distinct vertices in
   * range, k * (k - 1) of them, strictly ascending in lexicographic order
   * (hence distinct).
   */
  lemma OrderedPairsProps(k: int)
    ensures forall e :: e in OrderedPairs(k) <==> 1 <= e.0 <= k && 1 <= e.1 <= k && e.0 != e.1
    ensures |OrderedPairs(k)| == if k <= 0 then 0 else k * (k - 1)
    ensures forall e :: e in OrderedPairs(k) ==> e.0 != e.1
    ensures LexSorted(OrderedPairs(k)) && Distinct(OrderedPairs(k))
  {
    RowsElems(k, k);
    RowsLength(k, k);
    RowsSorted(k, k);
    LexSortedDistinct(OrderedPairs(k));
  }
}
