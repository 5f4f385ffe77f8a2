/**
 * What the census report says: which motifs each half lists and in what
 * order, how the numbers of existing and non-existing motifs add up, that
 * the blocks are numbered 1, 2, ... across both halves, and that the text
 * splits back into exactly the report's lines.
 */
module ReportProperties {
  import opened Seqs
  import opened Combinatorics
  import opened Digraphs
  import opened Text
  import opened Census
  import opened Report

  // ----- the positions of each half -----

  /**
   * A half lists exactly the positions on its side, in strictly increasing
   * (catalogue) order.
   */
  lemma {:induction false} PositionsSpec(counts: map<nat, nat>, n: nat, present: bool)
    requires Counted(counts, n)
    ensures forall p: nat :: p in Positions(counts, n, present) <==> p < n && OnSide(counts[p], present)
    ensures forall s, t :: 0 <= s < t < |Positions(counts, n, present)| ==>
      Positions(counts, n, present)[s] < Positions(counts, n, present)[t]
  {
    if n > 0 {
      PositionsSpec(counts, n - 1, present);
      var ps := Positions(counts, n - 1, present);
      assert Positions(counts, n, present) == ps + if OnSide(counts[n - 1], present) then [n - 1] else [];
    }
  }

  /** Every motif is in exactly one half: the two counts add up to the number of motifs. */
  lemma {:induction false} PositionsPartition(counts: map<nat, nat>, n: nat)
    requires Counted(counts, n)
    ensures |Positions(counts, n, true)| + |Positions(counts, n, false)| == n
  {
    if n > 0 {
      PositionsPartition(counts, n - 1);
    }
  }

  /** The tally of a side is the number of its positions. */
  lemma {:induction false} TallyIsSize(counts: map<nat, nat>, n: nat, present: bool)
    requires Counted(counts, n)
    ensures Tally(counts, n, present) == |Positions(counts, n, present)|
  {
    if n > 0 {
      TallyIsSize(counts, n - 1, present);
    }
  }

  // ----- the blocks of each half -----

  /**
   * The half the loop writes is the blocks of the motifs on its side, in
   * catalogue order, numbered consecutively from `start`.
   */
  lemma {:induction false} HalfIsBlocks(rendered: seq<seq<string>>, counts: map<nat, nat>, present: bool, m: nat, start: nat)
    requires m <= |rendered| && Counted(counts, |rendered|)
    ensures Half(rendered, counts, present, m, start) == Blocks(rendered, counts, Positions(counts, m, present), start)
  {
    if m > 0 {
      HalfIsBlocks(rendered, counts, present, m - 1, start);
      HalfIsBlocksStep(rendered, counts, present, m, start);
    }
  }

  lemma {:induction false} HalfIsBlocksStep(rendered: seq<seq<string>>, counts: map<nat, nat>, present: bool, m: nat, start: nat)
    requires 0 < m <= |rendered| && Counted(counts, |rendered|)
    requires Half(rendered, counts, present, m - 1, start) == Blocks(rendered, counts, Positions(counts, m - 1, present), start)
    ensures Half(rendered, counts, present, m, start) == Blocks(rendered, counts, Positions(counts, m, present), start)
  {
    var ps, qs := Positions(counts, m - 1, present), Positions(counts, m, present);
    PositionsSnoc(counts, m - 1, present, ps, qs);
    if OnSide(counts[m - 1], present) {
      TallyIsSize(counts, m - 1, present);
      HalfIsBlocksKeep(rendered, counts, present, m, start, ps, qs);
    } else {
      assert Half(rendered, counts, present, m, start) == Half(rendered, counts, present, m - 1, start);
    }
  }

  /** A motif on the side: both the half and the blocks grow by its block, with the same ordinal. */
  lemma {:induction false} HalfIsBlocksKeep(rendered: seq<seq<string>>, counts: map<nat, nat>, present: bool, m: nat, start: nat,
                         ps: seq<nat>, qs: seq<nat>)
    requires 0 < m <= |rendered| && Counted(counts, |rendered|) && OnSide(counts[m - 1], present)
    requires forall t :: 0 <= t < |ps| ==> ps[t] < |rendered| && ps[t] in counts
    requires |ps| == Tally(counts, m - 1, present) && qs == ps + [m - 1]
    requires Half(rendered, counts, present, m - 1, start) == Blocks(rendered, counts, ps, start)
    ensures Half(rendered, counts, present, m, start) == Blocks(rendered, counts, qs, start)
  {
    var blk := Block(rendered[m - 1], counts[m - 1], start + |ps|);
    HalfUnfold(rendered, counts, present, m - 1, start, start + |ps|);
    BlocksSnoc(rendered, counts, ps, m - 1, qs, start);
    SameExtension(Half(rendered, counts, present, m - 1, start), Blocks(rendered, counts, ps, start), blk,
      Half(rendered, counts, present, m, start), Blocks(rendered, counts, qs, start));
  }

  lemma {:induction false} PositionsSnoc(counts: map<nat, nat>, m: nat, present: bool, ps: seq<nat>, qs: seq<nat>)
    requires Counted(counts, m + 1)
    requires ps == Positions(counts, m, present) && qs == Positions(counts, m + 1, present)
    ensures qs == if OnSide(counts[m], present) then ps + [m] else ps
  {
    assert ps + [] == ps;
  }

  lemma {:induction false} BlocksSnoc(rendered: seq<seq<string>>, counts: map<nat, nat>, ps: seq<nat>, p: nat, qs: seq<nat>, start: nat)
    requires qs == ps + [p] && p < |rendered| && p in counts
    requires forall t :: 0 <= t < |ps| ==> ps[t] < |rendered| && ps[t] in counts
    ensures Blocks(rendered, counts, qs, start) ==
      Blocks(rendered, counts, ps, start) + Block(rendered[p], counts[p], start + |ps|)
  {
    assert qs[..|qs| - 1] == ps;
  }

  // ----- ordinals -----

  /** A line that opens a motif block. */
  predicate IsOrdinalLine(line: string) {
    |line| > 0 && line[0] == '#'
  }

  /** The lines that open motif blocks, in order. */
  function Ordinals(lines: seq<string>): (r: seq<string>)
    ensures |r| <= |lines|
  {
    if lines == [] then []
    else
      var last := lines[|lines| - 1];
      Ordinals(lines[..|lines| - 1]) + if IsOrdinalLine(last) then [last] else []
  }

  /** The ordinal lines "#start", "#start+1", ..., c of them. */
  function OrdinalRun(start: nat, c: nat): (r: seq<string>)
    ensures |r| == c
    ensures forall t :: 0 <= t < c ==> r[t] == "#" + NatToString(start + t)
  {
    if c == 0 then [] else OrdinalRun(start, c - 1) + ["#" + NatToString(start + c - 1)]
  }

  lemma {:induction false} OrdinalsAppend(a: seq<string>, b: seq<string>)
    ensures Ordinals(a + b) == Ordinals(a) + Ordinals(b)
    decreases |b|
  {
    if b == [] {
      assert a + b == a;
    } else {
      var c := b[..|b| - 1];
      OrdinalsAppend(a, c);
      assert (a + b)[..|a + b| - 1] == a + c;
      ConcatAssoc(Ordinals(a), Ordinals(c), if IsOrdinalLine(b[|b| - 1]) then [b[|b| - 1]] else []);
    }
  }

  lemma {:induction false} NoOrdinals(lines: seq<string>)
    requires forall t :: 0 <= t < |lines| ==> !IsOrdinalLine(lines[t])
    ensures Ordinals(lines) == []
  {
    if lines != [] {
      NoOrdinals(lines[..|lines| - 1]);
    }
  }

  lemma {:induction false} OrdinalRunAppend(start: nat, a: nat, b: nat, c: nat)
    requires c == a + b
    ensures OrdinalRun(start, a) + OrdinalRun(start + a, b) == OrdinalRun(start, c)
  {
    if b > 0 {
      OrdinalRunAppend(start, a, b - 1, c - 1);
      ConcatAssoc(OrdinalRun(start, a), OrdinalRun(start + a, b - 1), ["#" + NatToString(start + a + b - 1)]);
    }
  }

  /** Lines that neither open a block nor hold a newline, as edge lines are. */
  predicate PlainLines(lines: seq<string>) {
    forall t :: 0 <= t < |lines| ==> !IsOrdinalLine(lines[t]) && NoNewline(lines[t])
  }

  lemma {:induction false} EdgeLinesPlain(es: seq<Edge>)
    ensures PlainLines(EdgeLines(es))
  {
    if es != [] {
      EdgeLinesPlain(es[..|es| - 1]);
      var e := es[|es| - 1];
      assert EdgeLine(e)[0] == IntToString(e.0)[0];
      NumeralsNoNewline(0, e.0);
      NumeralsNoNewline(0, e.1);
    }
  }

  /** The edge lines of every motif are plain. */
  lemma {:induction false} RenderedPlain(motifs: seq<Graph>)
    ensures forall i :: 0 <= i < |motifs| ==> PlainLines(Rendered(motifs)[i])
  {
    forall i | 0 <= i < |motifs|
      ensures PlainLines(Rendered(motifs)[i])
    {
      RenderedAt(motifs, i);
      EdgeLinesPlain(EdgeListing(motifs[i]));
    }
  }

  /** Only the first line of a block opens it. */
  lemma {:induction false} BlockOrdinals(edgeLines: seq<string>, count: nat, ordinal: nat)
    requires PlainLines(edgeLines)
    ensures Ordinals(Block(edgeLines, count, ordinal)) == ["#" + NatToString(ordinal)]
  {
    NoOrdinals(edgeLines);
    var first := ["#" + NatToString(ordinal), "count=" + NatToString(count)];
    OrdinalsAppend(first, edgeLines);
    OrdinalsAppend(first + edgeLines, [""]);
    assert Ordinals([""]) == [];
    assert first[..1] == ["#" + NatToString(ordinal)];
    assert Ordinals(first) == ["#" + NatToString(ordinal)];
  }

  /** A half opens its blocks "#start", "#start+1", ..., one per motif on its side. */
  lemma {:induction false} HalfOrdinals(rendered: seq<seq<string>>, counts: map<nat, nat>, present: bool, m: nat, start: nat)
    requires m <= |rendered| && Counted(counts, |rendered|)
    requires forall i :: 0 <= i < |rendered| ==> PlainLines(rendered[i])
    ensures Ordinals(Half(rendered, counts, present, m, start)) == OrdinalRun(start, Tally(counts, m, present))
  {
    if m > 0 {
      HalfOrdinals(rendered, counts, present, m - 1, start);
      if OnSide(counts[m - 1], present) {
        HalfOrdinalsKeep(rendered, counts, present, m, start, Tally(counts, m - 1, present));
      }
    }
  }

  /** A motif on the side adds its block to the half and the next ordinal to the run. */
  lemma {:induction false} HalfOrdinalsKeep(rendered: seq<seq<string>>, counts: map<nat, nat>, present: bool, m: nat, start: nat, c: nat)
    requires 0 < m <= |rendered| && Counted(counts, |rendered|) && OnSide(counts[m - 1], present)
    requires PlainLines(rendered[m - 1]) && c == Tally(counts, m - 1, present)
    requires Ordinals(Half(rendered, counts, present, m - 1, start)) == OrdinalRun(start, c)
    ensures Ordinals(Half(rendered, counts, present, m, start)) == OrdinalRun(start, Tally(counts, m, present))
  {
    var h0, h1 := Half(rendered, counts, present, m - 1, start), Half(rendered, counts, present, m, start);
    var blk := Block(rendered[m - 1], counts[m - 1], start + c);
    HalfUnfold(rendered, counts, present, m - 1, start, start + c);
    OrdinalsAppend(h0, blk);
    BlockOrdinals(rendered[m - 1], counts[m - 1], start + c);
    OrdinalRunSnoc(start, c, Tally(counts, m, present), start + c);
    OrdinalsOfSnoc(h0, blk, h1, OrdinalRun(start, c), "#" + NatToString(start + c), OrdinalRun(start, Tally(counts, m, present)));
  }

  lemma {:induction false} OrdinalRunSnoc(start: nat, c: nat, c1: nat, ordinal: nat)
    requires c1 == c + 1 && ordinal == start + c
    ensures OrdinalRun(start, c1) == OrdinalRun(start, c) + ["#" + NatToString(ordinal)]
  {
  }

  lemma {:induction false} OrdinalsOfSnoc(h0: seq<string>, blk: seq<string>, h1: seq<string>,
                                          run0: seq<string>, line: string, run1: seq<string>)
    requires h1 == h0 + blk && Ordinals(h0 + blk) == Ordinals(h0) + Ordinals(blk)
    requires Ordinals(h0) == run0 && Ordinals(blk) == [line] && run1 == run0 + [line]
    ensures Ordinals(h1) == run1
  {
  }

  lemma {:induction false} HeaderOrdinals(k: int, n: nat, existing: nat, missing: nat)
    ensures Ordinals(Header(k, n, existing, missing)) == []
  {
    var h := Header(k, n, existing, missing);
    forall t | 0 <= t < |h|
      ensures !IsOrdinalLine(h[t])
    {
    }
    NoOrdinals(h);
  }

  /**
   * The motif blocks of the whole report are numbered 1, 2, ..., one per
   * motif: the existing motifs take the first numbers and the non-existing
   * ones continue the count.
   */
  lemma {:induction false} ReportOrdinals(k: int, rendered: seq<seq<string>>, counts: map<nat, nat>)
    requires Counted(counts, |rendered|) && forall i :: 0 <= i < |rendered| ==> PlainLines(rendered[i])
    ensures Ordinals(ReportLines(k, rendered, counts)) == OrdinalRun(1, |rendered|)
  {
    var n := |rendered|;
    var e, ne := Tally(counts, n, true), Tally(counts, n, false);
    var h, a, b := Header(k, n, e, ne), Half(rendered, counts, true, n, 1), Half(rendered, counts, false, n, 1 + e);
    ReportLinesParts(k, rendered, counts);
    HeaderOrdinals(k, n, e, ne);
    HalfOrdinals(rendered, counts, true, n, 1);
    HalfOrdinals(rendered, counts, false, n, 1 + e);
    HeadingOrdinals();
    TallyPartition(counts, n);
    OrdinalRunAppend(1, e, ne, n);
    OrdinalsOfParts(ReportLines(k, rendered, counts), h, a, [MissingHeading], b,
      OrdinalRun(1, e), OrdinalRun(1 + e, ne), OrdinalRun(1, n));
  }

  /** The report is its header, its existing half, the second heading and its non-existing half. */
  lemma {:induction false} ReportLinesParts(k: int, rendered: seq<seq<string>>, counts: map<nat, nat>)
    requires Counted(counts, |rendered|)
    ensures var n := |rendered|;
      ReportLines(k, rendered, counts) ==
        Header(k, n, Tally(counts, n, true), Tally(counts, n, false))
        + Half(rendered, counts, true, n, 1)
        + [MissingHeading]
        + Half(rendered, counts, false, n, 1 + Tally(counts, n, true))
  {
  }

  /** Every motif is on exactly one side: the two tallies add up to the number of motifs. */
  lemma {:induction false} TallyPartition(counts: map<nat, nat>, n: nat)
    requires Counted(counts, n)
    ensures Tally(counts, n, true) + Tally(counts, n, false) == n
  {
    if n > 0 {
      TallyPartition(counts, n - 1);
    }
  }

  lemma {:induction false} HeadingOrdinals()
    ensures Ordinals([MissingHeading]) == []
  {
    NoOrdinals([MissingHeading]);
  }

  lemma {:induction false} OrdinalsOfParts(lines: seq<string>, h: seq<string>, a: seq<string>, m: seq<string>, b: seq<string>,
                        x: seq<string>, y: seq<string>, z: seq<string>)
    requires lines == h + a + m + b && z == x + y
    requires Ordinals(h) == [] && Ordinals(a) == x && Ordinals(m) == [] && Ordinals(b) == y
    ensures Ordinals(lines) == z
  {
    OrdinalsAppend(h, a);
    EmptyLeft(Ordinals(h), Ordinals(a), Ordinals(h + a));
    OrdinalsAppend(h + a, m);
    EmptyRight(Ordinals(h + a), Ordinals(m), Ordinals(h + a + m));
    OrdinalsAppend(h + a + m, b);
  }

  // ----- the text -----

  predicate LinesNoNewline(lines: seq<string>) {
    forall t :: 0 <= t < |lines| ==> NoNewline(lines[t])
  }

  lemma {:induction false} BlockNoNewline(edgeLines: seq<string>, count: nat, ordinal: nat)
    requires PlainLines(edgeLines)
    ensures LinesNoNewline(Block(edgeLines, count, ordinal))
  {
    NumeralsNoNewline(ordinal, 0);
    NumeralsNoNewline(count, 0);
  }

  lemma {:induction false} HalfNoNewline(rendered: seq<seq<string>>, counts: map<nat, nat>, present: bool, m: nat, start: nat)
    requires m <= |rendered| && Counted(counts, |rendered|)
    requires forall i :: 0 <= i < |rendered| ==> PlainLines(rendered[i])
    ensures LinesNoNewline(Half(rendered, counts, present, m, start))
  {
    if m > 0 {
      HalfNoNewline(rendered, counts, present, m - 1, start);
      if OnSide(counts[m - 1], present) {
        BlockNoNewline(rendered[m - 1], counts[m - 1], start + Tally(counts, m - 1, present));
      }
    }
  }

  lemma {:induction false} HeaderNoNewline(k: int, n: nat, existing: nat, missing: nat)
    ensures LinesNoNewline(Header(k, n, existing, missing))
  {
    NumeralsNoNewline(n, k);
    NumeralsNoNewline(existing, 0);
    NumeralsNoNewline(missing, 0);
  }

  lemma {:induction false} HeadingsNoNewline()
    ensures LinesNoNewline([ExistingHeading]) && LinesNoNewline([MissingHeading])
  {
  }

  lemma {:induction false} LinesNoNewlineOfParts(h: seq<string>, a: seq<string>, m: seq<string>, b: seq<string>)
    requires LinesNoNewline(h) && LinesNoNewline(a) && LinesNoNewline(m) && LinesNoNewline(b)
    ensures LinesNoNewline(h + a + m + b)
  {
  }

  /** Splitting the report's text at newlines gives back exactly its lines. */
  lemma {:induction false} ReportSplits(k: int, rendered: seq<seq<string>>, counts: map<nat, nat>)
    requires Counted(counts, |rendered|) && forall i :: 0 <= i < |rendered| ==> PlainLines(rendered[i])
    ensures SplitLines(JoinLines(ReportLines(k, rendered, counts))) == ReportLines(k, rendered, counts)
  {
    var n := |rendered|;
    var e, ne := Tally(counts, n, true), Tally(counts, n, false);
    var h, a, b := Header(k, n, e, ne), Half(rendered, counts, true, n, 1), Half(rendered, counts, false, n, 1 + e);
    HeaderNoNewline(k, n, e, ne);
    HalfNoNewline(rendered, counts, true, n, 1);
    HalfNoNewline(rendered, counts, false, n, 1 + e);
    HeadingsNoNewline();
    LinesNoNewlineOfParts(h, a, [MissingHeading], b);
    JoinSplitRoundTrip(h + a + [MissingHeading] + b);
  }

  /**
   * Read back line by line, the report text opens with its header: the
   * motif size, the number of motifs, the number of existing motifs and the
   * number of non-existing motifs, the last two adding up to the second.
   */
  lemma {:induction false} ReportHeaderLines(k: int, rendered: seq<seq<string>>, counts: map<nat, nat>)
    requires Counted(counts, |rendered|) && forall i :: 0 <= i < |rendered| ==> PlainLines(rendered[i])
    ensures var lines, n := SplitLines(JoinLines(ReportLines(k, rendered, counts))), |rendered|;
      && |lines| >= 6
      && lines[..6] == Header(k, n, Tally(counts, n, true), Tally(counts, n, false))
      && Tally(counts, n, true) + Tally(counts, n, false) == n
  {
    ReportSplits(k, rendered, counts);
    ReportStartsWithHeader(k, rendered, counts);
    TallyPartition(counts, |rendered|);
  }

  lemma {:induction false} ReportStartsWithHeader(k: int, rendered: seq<seq<string>>, counts: map<nat, nat>)
    requires Counted(counts, |rendered|)
    ensures var n := |rendered|;
      && |ReportLines(k, rendered, counts)| >= 6
      && ReportLines(k, rendered, counts)[..6] == Header(k, n, Tally(counts, n, true), Tally(counts, n, false))
  {
    var n := |rendered|;
    var e := Tally(counts, n, true);
    StartsWith(Header(k, n, e, Tally(counts, n, false)), Half(rendered, counts, true, n, 1),
      [MissingHeading], Half(rendered, counts, false, n, 1 + e));
  }
}
