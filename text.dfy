/**
 * The text primitives the report is written with: decimal numerals as
 * Python's str() and f-strings write integers, and joining lines with a
 * newline. Each comes with the parser that reads it back.
 */
module Text {

  predicate IsDigit(c: char) {
    '0' <= c <= '9'
  }

  function DigitChar(d: nat): (c: char)
    requires d < 10
    ensures IsDigit(c)
  {
    ('0' as int + d) as char
  }

  function DigitValue(c: char): nat
    requires IsDigit(c)
  {
    c as int - '0' as int
  }

  /** The decimal numeral of n: digits only, and no leading zero except in "0" itself. */
  function NatToString(n: nat): (s: string)
    ensures |s| >= 1
    ensures forall i :: 0 <= i < |s| ==> IsDigit(s[i])
    ensures s[0] == '0' <==> n == 0
  {
    if n < 10 then [DigitChar(n)] else NatToString(n / 10) + [DigitChar(n % 10)]
  }

  /** The value of a string of decimal digits. */
  function ParseDecimal(s: string): nat
    requires forall i :: 0 <= i < |s| ==> IsDigit(s[i])
  {
    if s == [] then 0 else ParseDecimal(s[..|s| - 1]) * 10 + DigitValue(s[|s| - 1])
  }

  /** Reading a numeral back gives the number written. */
  lemma {:induction false} NatToStringRoundTrip(n: nat)
    ensures ParseDecimal(NatToString(n)) == n
  {
    if n >= 10 {
      var s := NatToString(n);
      NatToStringRoundTrip(n / 10);
      assert s[..|s| - 1] == NatToString(n / 10);
    }
  }

  /** Different numbers have different numerals. */
  lemma NatToStringInjective(m: nat, n: nat)
    requires NatToString(m) == NatToString(n)
    ensures m == n
  {
    NatToStringRoundTrip(m);
    NatToStringRoundTrip(n);
  }

  /** The decimal numeral of an integer: a minus sign before the numeral of its magnitude when negative. */
  function IntToString(i: int): (s: string)
    ensures |s| >= 1 && (s[0] == '-' <==> i < 0)
    ensures s[0] == '-' || IsDigit(s[0])
    ensures forall j :: 0 < j < |s| ==> IsDigit(s[j])
  {
    if i < 0 then "-" + NatToString(-i) else NatToString(i)
  }

  /** The value of an optional minus sign followed by decimal digits. */
  function ParseInt(s: string): int
    requires |s| >= 1
    requires forall i :: (if s[0] == '-' then 1 else 0) <= i < |s| ==> IsDigit(s[i])
  {
    if s[0] == '-' then -(ParseDecimal(s[1..]) as int) else ParseDecimal(s)
  }

  lemma IntToStringRoundTrip(i: int)
    ensures var s := IntToString(i);
      (forall j :: (if s[0] == '-' then 1 else 0) <= j < |s| ==> IsDigit(s[j])) && ParseInt(s) == i
  {
    var s := IntToString(i);
    if i < 0 {
      assert s[1..] == NatToString(-i);
      NatToStringRoundTrip(-i);
    } else {
      NatToStringRoundTrip(i);
    }
  }

  // ----- lines -----

  /** The lines separated by single newlines, as "\n".join(lines) does. */
  function JoinLines(lines: seq<string>): string {
    if |lines| == 0 then ""
    else if |lines| == 1 then lines[0]
    else lines[0] + "\n" + JoinLines(lines[1..])
  }

  /** The pieces of `s` between newlines, as str.split("\n") gives them. */
  function SplitLines(s: string): (r: seq<string>)
    ensures |r| >= 1
  {
    if s == [] then [""]
    else if s[0] == '\n' then [""] + SplitLines(s[1..])
    else
      var rest := SplitLines(s[1..]);
      [[s[0]] + rest[0]] + rest[1..]
  }

  predicate NoNewline(line: string) {
    '\n' !in line
  }

  /** Numerals hold no newline. */
  lemma NumeralsNoNewline(n: nat, i: int)
    ensures NoNewline(NatToString(n)) && NoNewline(IntToString(i))
  {
    var s := IntToString(i);
    forall j | 0 <= j < |s|
      ensures s[j] != '\n'
    {
      if j > 0 {
        assert IsDigit(s[j]);
      }
    }
  }

  /** Splitting the joined text gives back the lines, when there is at least one and none holds a newline. */
  lemma {:induction false} JoinSplitRoundTrip(lines: seq<string>)
    requires |lines| >= 1 && forall t :: 0 <= t < |lines| ==> NoNewline(lines[t])
    ensures SplitLines(JoinLines(lines)) == lines
    decreases |lines|
  {
    if |lines| == 1 {
      SplitLine(lines[0], "", [""]);
      assert lines[0] + "" == lines[0];
    } else {
      var rest := lines[1..];
      JoinSplitRoundTrip(rest);
      SplitNewline(JoinLines(rest));
      assert lines[0] + "\n" + JoinLines(rest) == lines[0] + ("\n" + JoinLines(rest));
      SplitLine(lines[0], "\n" + JoinLines(rest), [""] + rest);
      assert [lines[0]] + rest == lines;
    }
  }

  lemma SplitNewline(s: string)
    ensures SplitLines("\n" + s) == [""] + SplitLines(s)
  {
    assert ("\n" + s)[1..] == s;
  }

  /**
   * Splitting a newline-free piece followed by text whose first split
   * piece is empty: the piece becomes the first line.
   */
  lemma {:induction false} SplitLine(line: string, s: string, r: seq<string>)
    requires NoNewline(line) && r == SplitLines(s) && r[0] == ""
    ensures SplitLines(line + s) == [line] + r[1..]
    decreases |line|
  {
    if line != [] {
      SplitLine(line[1..], s, r);
      assert (line + s)[1..] == line[1..] + s;
      assert (line + s)[0] == line[0];
      assert [line[0]] + line[1..] == line;
    } else {
      assert line + s == s;
    }
  }
}
