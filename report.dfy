/**
 * The census report: a header with the motif size and the numbers of
 * motifs, existing motifs (count above zero) and non-existing motifs, then
 * one block per existing motif and one per non-existing motif, numbered
 * continuously from 1. Motifs are taken in catalogue order, which is the
 * order the counts dictionary holds them in.
 */
module Report {
  import opened Seqs
  import opened Combinatorics
  import opened Digraphs
  import opened Census
  import opened Text

  const ExistingHeading: string := "--------Existing motifs--------"
  const MissingHeading: string := "--------Non-existing motifs--------"

  /** Whether a count puts its motif in the existing half (`present`) or the non-existing half. */
  predicate OnSide(count: nat, present: bool) {
    (count > 0) == present
  }

  /** The positions below n whose count is above zero (`present`) or zero (not `present`), in order. */
  function Positions(counts: map<nat, nat>, n: nat, present: bool): (r: seq<nat>)
    requires Counted(counts, n)
    ensures forall t :: 0 <= t < |r| ==> r[t] < n && r[t] in counts
  {
    if n == 0 then []
    else Positions(counts, n - 1, present) + if OnSide(counts[n - 1], present) then [n - 1] else []
  }

  /** How many positions below n have a count on the `present` side. */
  function Tally(counts: map<nat, nat>, n: nat, present: bool): nat
    requires Counted(counts, n)
  {
    if n == 0 then 0 else Tally(counts, n - 1, present) + if OnSide(counts[n - 1], present) then 1 else 0
  }

  /** One edge as the line "u v". */
  function EdgeLine(e: Edge): string {
    IntToString(e.0) + " " + IntToString(e.1)
  }

  function EdgeLines(es: seq<Edge>): seq<string> {
    if es == [] then [] else EdgeLines(es[..|es| - 1]) + [EdgeLine(es[|es| - 1])]
  }

  /** The block of one motif: its ordinal, its count, its edges in listing order, and an empty line. */
  function Block(edgeLines: seq<string>, count: nat, ordinal: nat): seq<string> {
    ["#" + NatToString(ordinal), "count=" + NatToString(count)] + edgeLines + [""]
  }

  /** The edge lines of each motif, in catalogue order. */
  function Rendered(motifs: seq<Graph>): (r: seq<seq<string>>)
    ensures |r| == |motifs|
  {
    if motifs == [] then [] else Rendered(motifs[..|motifs| - 1]) + [EdgeLines(EdgeListing(motifs[|motifs| - 1]))]
  }

  lemma {:induction false} RenderedAt(motifs: seq<Graph>, i: nat)
    requires i < |motifs|
    ensures Rendered(motifs)[i] == EdgeLines(EdgeListing(motifs[i]))
  {
    if i < |motifs| - 1 {
      RenderedAt(motifs[..|motifs| - 1], i);
    }
  }

  /**
   * One half of the report as the loop writes it: the blocks of the motifs
   * before position m that are on the `present` side, numbered from
   * `start` on.
   */
  function Half(rendered: seq<seq<string>>, counts: map<nat, nat>, present: bool, m: nat, start: nat): seq<string>
    requires m <= |rendered| && Counted(counts, |rendered|)
  {
    if m == 0 then []
    else
      var lines := Half(rendered, counts, present, m - 1, start);
      if OnSide(counts[m - 1], present)
      then lines + Block(rendered[m - 1], counts[m - 1], start + Tally(counts, m - 1, present))
      else lines
  }

  /** The blocks of the motifs at positions `ps`, numbered from `start`: the reference a half is checked against. */
  function Blocks(rendered: seq<seq<string>>, counts: map<nat, nat>, ps: seq<nat>, start: nat): seq<string>
    requires forall t :: 0 <= t < |ps| ==> ps[t] < |rendered| && ps[t] in counts
  {
    if ps == [] then []
    else
      var p := ps[|ps| - 1];
      Blocks(rendered, counts, ps[..|ps| - 1], start) + Block(rendered[p], counts[p], start + |ps| - 1)
  }

  /** The header: the motif size, the number of motifs, of existing motifs and of non-existing motifs. */
  function Header(k: int, n: nat, existing: nat, missing: nat): seq<string> {
    [ "n=" + IntToString(k),
      "count=" + NatToString(n),
      "Count of existing motifs: " + NatToString(existing),
      "Count of non-existing motifs: " + NatToString(missing),
      "",
      ExistingHeading ]
  }

  /** The lines of the report, given the edge lines of each motif in catalogue order. */
  function ReportLines(k: int, rendered: seq<seq<string>>, counts: map<nat, nat>): seq<string>
    requires Counted(counts, |rendered|)
  {
    var n := |rendered|;
    var existing, missing := Tally(counts, n, true), Tally(counts, n, false);
    Header(k, n, existing, missing)
    + Half(rendered, counts, true, n, 1)
    + [MissingHeading]
    + Half(rendered, counts, false, n, 1 + existing)
  }

  // ----- the operation -----

  /**
   * Builds the report line by line, with a running motif number, and joins
   * the lines with newlines. The counts are keyed by catalogue position.
   */
  method PrintFormattedOutput(k: int, motifs: seq<Graph>, counts: map<nat, nat>) returns (text: string)
    requires counts.Keys == Indices(|motifs|)
    ensures Counted(counts, |motifs|) && text == JoinLines(ReportLines(k, Rendered(motifs), counts))
  {
    var output, existingCount, nonExistingCount := AppendHeader(k, motifs, counts);
    ghost var header := output;
    var motifNumber := 1;
    output, motifNumber := AppendHalf(output, motifs, counts, true, motifNumber);
    ghost var secondStart := motifNumber;
    output := output + [MissingHeading];
    output, motifNumber := AppendHalf(output, motifs, counts, false, motifNumber);
    ReportLinesParts(k, Rendered(motifs), |motifs|, counts, header,
      Half(Rendered(motifs), counts, true, |motifs|, 1), secondStart, Half(Rendered(motifs), counts, false, |motifs|, secondStart));
    text := JoinLines(output);
  }

  /** The six header lines: the motif size, the number of motifs, the two tallies, a blank line and the first heading. */
  method AppendHeader(k: int, motifs: seq<Graph>, counts: map<nat, nat>)
    returns (output: seq<string>, existingCount: nat, nonExistingCount: nat)
    requires counts.Keys == Indices(|motifs|)
    ensures Counted(counts, |motifs|)
    ensures existingCount == Tally(counts, |motifs|, true) && nonExistingCount == Tally(counts, |motifs|, false)
    ensures output == Header(k, |motifs|, existingCount, nonExistingCount)
  {
    output := [];
    output := output + ["n=" + IntToString(k)];
    existingCount := CountOnSide(motifs, counts, true);
    nonExistingCount := CountOnSide(motifs, counts, false);
    output := output + ["count=" + NatToString(|motifs|)];
    output := output + ["Count of existing motifs: " + NatToString(existingCount)];
    output := output + ["Count of non-existing motifs: " + NatToString(nonExistingCount)];
    output := output + [""];
    output := output + [ExistingHeading];
  }

  /** The report is the header, the existing half, the second heading and the missing half. */
  lemma ReportLinesParts(k: int, rendered: seq<seq<string>>, n: nat, counts: map<nat, nat>,
                         header: seq<string>, existing: seq<string>, second: nat, missing: seq<string>)
    requires n == |rendered| && Counted(counts, n)
    requires header == Header(k, n, Tally(counts, n, true), Tally(counts, n, false))
    requires existing == Half(rendered, counts, true, n, 1)
    requires second == 1 + Tally(counts, n, true) && missing == Half(rendered, counts, false, n, second)
    ensures ReportLines(k, rendered, counts) == header + existing + [MissingHeading] + missing
  {
  }

  /** The number of motifs whose count is above zero (`present`) or zero (not `present`). */
  method CountOnSide(motifs: seq<Graph>, counts: map<nat, nat>, present: bool) returns (total: nat)
    requires counts.Keys == Indices(|motifs|)
    ensures Counted(counts, |motifs|) && total == Tally(counts, |motifs|, present)
  {
    total := 0;
    for m := 0 to |motifs|
      invariant total == Tally(counts, m, present)
    {
      if OnSide(counts[m], present) {
        total := total + 1;
      }
    }
  }

  /**
   * Appends the blocks of the motifs on the `present` side, in catalogue
   * order, numbering them from `start`; returns the next number.
   */
  method AppendHalf(output0: seq<string>, motifs: seq<Graph>, counts: map<nat, nat>, present: bool, start: nat)
    returns (output: seq<string>, motifNumber: nat)
    requires Counted(counts, |motifs|)
    ensures output == output0 + Half(Rendered(motifs), counts, present, |motifs|, start)
    ensures motifNumber == start + Tally(counts, |motifs|, present)
  {
    output, motifNumber := output0, start;
    for m := 0 to |motifs|
      invariant output == output0 + Half(Rendered(motifs), counts, present, m, start)
      invariant motifNumber == start + Tally(counts, m, present)
    {
      output, motifNumber := AppendMotif(output0, output, motifs, counts, present, start, m, motifNumber);
    }
  }

  /**
   * One turn of the loop over the motifs: the block of motif m, numbered
   * `motifNumber`, when it is on the `present` side; nothing otherwise.
   */
  method AppendMotif(output0: seq<string>, before: seq<string>, motifs: seq<Graph>, counts: map<nat, nat>,
                     present: bool, start: nat, m: nat, motifNumber: nat)
    returns (after: seq<string>, next: nat)
    requires m < |motifs| && Counted(counts, |motifs|)
    requires before == output0 + Half(Rendered(motifs), counts, present, m, start)
    requires motifNumber == start + Tally(counts, m, present)
    ensures after == output0 + Half(Rendered(motifs), counts, present, m + 1, start)
    ensures next == start + Tally(counts, m + 1, present)
  {
    ghost var rendered := Rendered(motifs);
    if OnSide(counts[m], present) {
      RenderedAt(motifs, m);
      after := AppendBlock(before, EdgeListing(motifs[m]), rendered[m], counts[m], motifNumber);
      HalfKeep(rendered, counts, present, m, start, motifNumber, output0, before, after);
      next := motifNumber + 1;
    } else {
      after, next := before, motifNumber;
    }
  }

  /**
   * Appends the block of one motif: the line "#ordinal", the line
   * "count=c", one line "u v" per edge in listing order, and an empty line.
   */
  method AppendBlock(output0: seq<string>, edges: seq<Edge>, ghost edgeLines: seq<string>, count: nat, ordinal: nat)
    returns (output: seq<string>)
    requires edgeLines == EdgeLines(edges)
    ensures output == output0 + Block(edgeLines, count, ordinal)
  {
    var number, countLine := "#" + NatToString(ordinal), "count=" + NatToString(count);
    output := output0 + [number];
    output := output + [countLine];
    output := AppendEdges(output, edges);
    output := output + [""];
    BlockRegroups(output0, number, countLine, edgeLines);
  }

  /** Appending a block line by line regroups as appending the block. */
  lemma BlockRegroups(output0: seq<string>, number: string, countLine: string, edgeLines: seq<string>)
    ensures output0 + [number] + [countLine] + edgeLines + [""] == output0 + ([number, countLine] + edgeLines + [""])
  {
    assert output0 + [number] + [countLine] == output0 + [number, countLine];
  }

  method AppendEdges(output0: seq<string>, edges: seq<Edge>) returns (output: seq<string>)
    ensures output == output0 + EdgeLines(edges)
  {
    output := output0;
    for t := 0 to |edges|
      invariant output == output0 + EdgeLines(edges[..t])
    {
      EdgeLinesSnoc(edges, t);
      output := output + [EdgeLine(edges[t])];
    }
    assert edges[..|edges|] == edges;
  }

  lemma {:induction false} EdgeLinesSnoc(es: seq<Edge>, t: nat)
    requires t < |es|
    ensures EdgeLines(es[..t + 1]) == EdgeLines(es[..t]) + [EdgeLine(es[t])]
  {
    assert es[..t + 1][..t] == es[..t];
  }

  /** One block further in a half: the loop's output stays the half written so far. */
  lemma {:induction false} HalfKeep(rendered: seq<seq<string>>, counts: map<nat, nat>, present: bool, m: nat, start: nat,
                 ordinal: nat, output0: seq<string>, before: seq<string>, after: seq<string>)
    requires m < |rendered| && Counted(counts, |rendered|) && OnSide(counts[m], present)
    requires ordinal == start + Tally(counts, m, present)
    requires before == output0 + Half(rendered, counts, present, m, start)
    requires after == before + Block(rendered[m], counts[m], ordinal)
    ensures after == output0 + Half(rendered, counts, present, m + 1, start)
  {
    HalfUnfold(rendered, counts, present, m, start, ordinal);
    AppendAssoc(output0, Half(rendered, counts, present, m, start), Block(rendered[m], counts[m], ordinal), before, after);
  }

  lemma {:induction false} HalfUnfold(rendered: seq<seq<string>>, counts: map<nat, nat>, present: bool, m: nat, start: nat, ordinal: nat)
    requires m < |rendered| && Counted(counts, |rendered|) && OnSide(counts[m], present)
    requires ordinal == start + Tally(counts, m, present)
    ensures Half(rendered, counts, present, m + 1, start) ==
      Half(rendered, counts, present, m, start) + Block(rendered[m], counts[m], ordinal)
  {
  }
}
