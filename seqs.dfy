/** Sequence and set helpers shared by the whole model. */
module Seqs {

  /** No element occurs twice. */
  predicate Distinct<T(==)>(s: seq<T>) {
    forall i, j :: 0 <= i < j < |s| ==> s[i] != s[j]
  }

  /** The elements of a sequence, as a set. */
  function Elems<T>(s: seq<T>): set<T> {
    set x | x in s
  }

  /** `s` with the element at position `i` removed. */
  function RemoveAt<T>(s: seq<T>, i: nat): (r: seq<T>)
    requires i < |s|
    ensures |r| == |s| - 1
  {
    s[..i] + s[i + 1..]
  }

  /** A distinct sequence has as many elements as its set. */
  lemma {:induction false} DistinctCard<T>(s: seq<T>)
    requires Distinct(s)
    ensures |Elems(s)| == |s|
  {
    if s != [] {
      var t := s[..|s| - 1];
      assert Elems(s) == Elems(t) + {s[|s| - 1]};
      assert s[|s| - 1] !in Elems(t);
      DistinctCard(t);
    }
  }

  /** Removing a position from a distinct sequence removes exactly that element. */
  lemma RemoveAtElems<T>(s: seq<T>, i: nat)
    requires i < |s| && Distinct(s)
    ensures Distinct(RemoveAt(s, i))
    ensures Elems(RemoveAt(s, i)) == Elems(s) - {s[i]}
  {
    var r := RemoveAt(s, i);
    forall a, b | 0 <= a < b < |r| ensures r[a] != r[b] {
      var a' := if a < i then a else a + 1;
      var b' := if b < i then b else b + 1;
      assert r[a] == s[a'] && r[b] == s[b'];
    }
    forall x | x in Elems(s) - {s[i]} ensures x in Elems(r) {
      var p :| 0 <= p < |s| && s[p] == x;
      assert p != i;
      if p < i { assert r[p] == x; } else { assert r[p - 1] == x; }
    }
    forall x | x in Elems(r) ensures x in Elems(s) - {s[i]} {
      var p :| 0 <= p < |r| && r[p] == x;
      var p' := if p < i then p else p + 1;
      assert s[p'] == x && p' != i;
    }
  }

  // ----- one-step facts, stated apart so that callers stay cheap to verify -----

  /** Concatenation regroups. */
  lemma ConcatAssoc<T>(a: seq<T>, b: seq<T>, c: seq<T>)
    ensures a + b + c == a + (b + c)
  {
  }

  /** `after`, built from `a + h` by appending `blk`, regroups as `a + (h + blk)`. */
  lemma {:induction false} AppendAssoc<T>(a: seq<T>, h: seq<T>, blk: seq<T>, before: seq<T>, after: seq<T>)
    requires before == a + h && after == before + blk
    ensures after == a + (h + blk)
  {
    ConcatAssoc(a, h, blk);
  }

  /** The empty sequence is a left unit. */
  lemma EmptyConcat<T>(a: seq<T>, b: seq<T>)
    requires a == []
    ensures a + b == b
  {
  }

  /** The same as `EmptyConcat`, with the result named. */
  lemma {:induction false} EmptyLeft<T>(e: seq<T>, x: seq<T>, r: seq<T>)
    requires e == [] && r == e + x
    ensures r == x
  {
  }

  /** The empty sequence is a right unit. */
  lemma {:induction false} EmptyRight<T>(x: seq<T>, e: seq<T>, r: seq<T>)
    requires e == [] && r == x + e
    ensures r == x
  {
  }

  /** Two equal sequences extended by the same block stay equal. */
  lemma {:induction false} SameExtension<T>(h0: seq<T>, b0: seq<T>, blk: seq<T>, h1: seq<T>, b1: seq<T>)
    requires h0 == b0 && h1 == h0 + blk && b1 == b0 + blk
    ensures h1 == b1
  {
  }

  /** Taking one more element of a prefix appends that element. */
  lemma TakeSnoc<T>(s: seq<T>, p: nat)
    requires p < |s|
    ensures s[..p + 1] == s[..p] + [s[p]]
  {
  }

  /** A prefix and the rest put back together give the whole sequence. */
  lemma TakeDrop<T>(s: seq<T>, n: nat)
    requires n <= |s|
    ensures s[..n] + s[n..] == s
  {
  }

  /** A concatenation starts with its first part. */
  lemma {:induction false} StartsWith<T>(h: seq<T>, a: seq<T>, m: seq<T>, b: seq<T>)
    ensures (h + a + m + b)[..|h|] == h
  {
    assert h + a + m + b == h + (a + m + b);
  }

  /** 2 to the power `n`. */
  function Pow2(n: nat): (r: nat)
    ensures r >= 1
  {
    if n == 0 then 1 else 2 * Pow2(n - 1)
  }
}
