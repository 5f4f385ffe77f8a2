/**
 * The two input checks made before the census runs: that the motif size is
 * a positive integer, and that the graph has at least that many vertices.
 * Each returns a verdict and an error message, empty when the verdict is
 * true.
 */
module Validation {
  import opened Text
  import opened Digraphs

  /**
   * The motif size as the check receives it: text that int() reads as the
   * integer `value`, text it cannot read, an integer, or a value of some
   * other type (a float, say).
   */
  datatype SizeInput = NumericText(value: int) | NonNumericText | Integer(value: int) | NonInteger

  const NotNumberMessage: string := "Motif size must be a number"
  const NotIntegerMessage: string := "Motif size must be an integer"
  const NotPositiveMessage: string := "Motif size must be a positive number"

  /** The size holds an integer, whether given as one or read from text. */
  predicate HasValue(input: SizeInput) {
    input.NumericText? || input.Integer?
  }

  /**
   * Text is read as an integer first, failing when it is not numeric; a
   * value that is not an integer is refused next; then a size of zero or
   * less.
   */
  function ValidateMotifSize(input: SizeInput): (r: (bool, string))
    ensures r.0 <==> HasValue(input) && input.value > 0
    ensures r.0 <==> r.1 == ""
    ensures !r.0 ==> r.1 in {NotNumberMessage, NotIntegerMessage, NotPositiveMessage}
  {
    if input.NonNumericText? then (false, NotNumberMessage)
    else if input.NonInteger? then (false, NotIntegerMessage)
    else if input.value <= 0 then (false, NotPositiveMessage)
    else (true, "")
  }

  /** The message names the first check that failed: each failure has its own message. */
  lemma MotifSizeMessages(input: SizeInput)
    ensures ValidateMotifSize(input).1 == NotNumberMessage <==> input.NonNumericText?
    ensures ValidateMotifSize(input).1 == NotIntegerMessage <==> input.NonInteger?
    ensures ValidateMotifSize(input).1 == NotPositiveMessage <==> HasValue(input) && input.value <= 0
  {
    var r := ValidateMotifSize(input);
    assert NotNumberMessage[20] != NotIntegerMessage[20];
    assert NotNumberMessage[21] != NotPositiveMessage[21];
    assert NotIntegerMessage[20] != NotPositiveMessage[20];
  }

  const TooSmallPrefix: string := "Graph has only "
  const TooSmallMiddle: string := " vertices, which is less than the motif size "

  /** The graph must have at least as many vertices as the motif size. */
  function ValidateGraphSize(g: Graph, motifSize: int): (r: (bool, string))
    ensures r.0 <==> motifSize <= |g.vertices|
    ensures r.0 <==> r.1 == ""
    ensures !r.0 ==> |TooSmallPrefix| < |r.1| && r.1[..|TooSmallPrefix|] == TooSmallPrefix
  {
    var numVertices := |g.vertices|;
    if numVertices < motifSize then
      (false, TooSmallPrefix + NatToString(numVertices) + TooSmallMiddle + IntToString(motifSize))
    else (true, "")
  }

  /**
   * The message of a graph that is too small gives both numbers back: the
   * numeral after the prefix reads as the number of vertices, and the
   * numeral at the end as the motif size.
   */
  lemma GraphSizeMessageNumbers(g: Graph, motifSize: int)
    requires |g.vertices| < motifSize
    ensures var msg, n := ValidateGraphSize(g, motifSize).1, NatToString(|g.vertices|);
      var i, j := |TooSmallPrefix|, |TooSmallPrefix| + |n|;
      && j + |TooSmallMiddle| < |msg|
      && msg[i..j] == n && ParseDecimal(msg[i..j]) == |g.vertices|
      && msg[j + |TooSmallMiddle|..] == IntToString(motifSize) && ParseInt(msg[j + |TooSmallMiddle|..]) == motifSize
  {
    var msg, n, k := ValidateGraphSize(g, motifSize).1, NatToString(|g.vertices|), IntToString(motifSize);
    var i, j := |TooSmallPrefix|, |TooSmallPrefix| + |n|;
    assert msg == TooSmallPrefix + n + TooSmallMiddle + k;
    assert msg[i..j] == n;
    assert msg[j + |TooSmallMiddle|..] == k;
    NatToStringRoundTrip(|g.vertices|);
    IntToStringRoundTrip(motifSize);
  }
}
