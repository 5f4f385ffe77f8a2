/**
 * The enumeration of every non-empty edge set over num vertices: the ordered
 * pairs of distinct vertices 1..num, then their combinations of each size
 * from one up to all of them, smaller sizes first, counted as they are
 * collected.
 */
module EdgeSubsets {
  import opened Seqs
  import opened Combinatorics

  /**
   * Collects the combinations of the ordered pairs, size by size, counting
   * each one. The pairs, the count and the collected edge sets are returned.
   */
  method AllPossibleSubgraphsEdges(num: int) returns (pairs: seq<Edge>, count: nat, result: seq<seq<Edge>>)
    ensures pairs == OrderedPairs(num)
    ensures result == SubsetsBySize(pairs, 1, |pairs|)
    ensures count == |result|
  {
    pairs := OrderedPairs(num);
    count := 0;
    result := [];
    for i := 1 to |pairs| + 1
      invariant result == SubsetsBySize(pairs, 1, i - 1)
      invariant count == |result|
    {
      var lastOne := Combinations(pairs, i);
      result, count := AppendCombinations(result, count, lastOne);
      SubsetsBySizeStep(pairs, 1, i, lastOne);
    }
  }

  /** Appends the combinations of one size one by one, counting each. */
  method AppendCombinations(result0: seq<seq<Edge>>, count0: nat, lastOne: seq<seq<Edge>>)
    returns (result: seq<seq<Edge>>, count: nat)
    requires count0 == |result0|
    ensures result == result0 + lastOne
    ensures count == |result|
  {
    result, count := result0, count0;
    for t := 0 to |lastOne|
      invariant result == result0 + lastOne[..t]
      invariant count == |result|
    {
      count := count + 1;
      assert lastOne[..t + 1] == lastOne[..t] + [lastOne[t]];
      result := result + [lastOne[t]];
    }
    assert lastOne[..|lastOne|] == lastOne;
  }

  /**
   * What the enumeration promises: every edge set is a non-empty
   * subsequence of the pairs, smaller sets come first, no non-empty
   * subsequence is missed, and with num * (num - 1) pairs (none when num
   * is below 1) there are 2^(num * (num - 1)) - 1 edge sets.
   */
  lemma EdgeSubsetsSpec(num: int)
    ensures var pairs := OrderedPairs(num);
      var result := SubsetsBySize(pairs, 1, |pairs|);
      && (forall s :: s in result ==> 1 <= |s| && IsSubsequence(s, pairs))
      && (forall i, j :: 0 <= i < j < |result| ==> |result[i]| <= |result[j]|)
      && (forall c :: IsSubsequence(c, pairs) && c != [] ==> c in result)
      && |pairs| == (if num <= 0 then 0 else num * (num - 1))
      && |result| == Pow2(|pairs|) - 1
  {
    var pairs := OrderedPairs(num);
    var result := SubsetsBySize(pairs, 1, |pairs|);
    OrderedPairsProps(num);
    forall c | IsSubsequence(c, pairs) && c != []
      ensures c in result
    {
      SubsequenceLength(c, pairs);
      SubsetsBySizeComplete(c, pairs, 1, |pairs|);
    }
    NonEmptySubsetsCount(pairs);
  }

  /** With one vertex there are no pairs, so nothing is collected and the count is zero. */
  lemma SingleVertexEnumeratesNothing()
    ensures OrderedPairs(1) == [] && SubsetsBySize(OrderedPairs(1), 1, 0) == []
  {
    OrderedPairsProps(1);
  }
}
