/** Character-level text: decimal numerals, lines and runs of characters. */
module Text {

  predicate IsDigit(c: char) {
    '0' <= c <= '9'
  }

  predicate IsUpper(c: char) {
    'A' <= c <= 'Z'
  }

  /** POSIX [[:space:]]: blank, tab, newline, vertical tab, form feed, carriage return. */
  predicate IsSpace(c: char) {
    c == ' ' || c == '\t' || c == '\n' || c == '\U{0B}' || c == '\U{0C}' || c == '\r'
  }

  predicate All(s: string, p: char -> bool) {
    forall i :: 0 <= i < |s| ==> p(s[i])
  }

  /** The length of the longest prefix of `s` whose characters all satisfy `p`. */
  function Run(s: string, p: char -> bool): (n: nat)
    ensures n <= |s|
    ensures All(s[..n], p)
    ensures n < |s| ==> !p(s[n])
  {
    if s == "" || !p(s[0]) then 0 else
      var n := 1 + Run(s[1..], p);
      assert s[..n] == [s[0]] + s[1..][..n - 1];
      n
  }

  /** A run is pinned by its characters and by the one that ends it. */
  lemma {:induction false} RunIs(a: string, b: string, p: char -> bool)
    requires All(a, p)
    requires b == "" || !p(b[0])
    ensures Run(a + b, p) == |a|
  {
    if a == "" {
      assert a + b == b;
    } else {
      assert (a + b)[1..] == a[1..] + b;
      assert p(a[0]);
      RunIs(a[1..], b, p);
    }
  }

  /** The run is the only prefix that satisfies `p` and is not followed by more of it. */
  lemma RunIff(s: string, p: char -> bool, n: nat)
    requires n <= |s|
    ensures Run(s, p) == n <==> All(s[..n], p) && (n < |s| ==> !p(s[n]))
  {
    if All(s[..n], p) && (n < |s| ==> !p(s[n])) {
      RunIs(s[..n], s[n..], p);
      assert s[..n] + s[n..] == s;
    }
  }

  function Repeat(c: char, n: nat): (s: string)
    ensures |s| == n && forall i :: 0 <= i < n ==> s[i] == c
  {
    seq(n, _ => c)
  }

  // ----- decimal numerals -----

  function DigitChar(d: nat): (c: char)
    requires d < 10
    ensures IsDigit(c) && c as int - '0' as int == d
  {
    ('0' as int + d) as char
  }

  function Decimal(n: nat): (s: string)
    ensures |s| > 0
  {
    if n < 10 then [DigitChar(n)] else Decimal(n / 10) + [DigitChar(n % 10)]
  }

  function DecimalValue(s: string): nat
    requires All(s, IsDigit)
  {
    if s == "" then 0 else
      10 * DecimalValue(s[..|s| - 1]) + (s[|s| - 1] as int - '0' as int)
  }

  /** Printing then reading a number gives it back. */
  lemma {:induction false} DecimalRoundTrip(n: nat)
    ensures All(Decimal(n), IsDigit)
    ensures DecimalValue(Decimal(n)) == n
  {
    if n >= 10 {
      DecimalRoundTrip(n / 10);
      var s := Decimal(n);
      assert s[..|s| - 1] == Decimal(n / 10);
    } else {
      var s := Decimal(n);
      assert s[..|s| - 1] == "";
    }
  }

  /** No numeral of a number is shorter than the printed one. */
  lemma {:induction false} DecimalIsShortest(s: string)
    requires |s| > 0 && All(s, IsDigit)
    ensures |Decimal(DecimalValue(s))| <= |s|
  {
    var v := DecimalValue(s);
    if v >= 10 {
      var t := s[..|s| - 1];
      assert v / 10 == DecimalValue(t) && |t| > 0;
      DecimalIsShortest(t);
    }
  }

  // ----- lines -----

  function DropCR(line: string): string {
    if line != "" && line[|line| - 1] == '\r' then line[..|line| - 1] else line
  }

  predicate NotNewline(c: char) {
    c != '\n'
  }

  /** The lines a default line scanner yields: split at newlines, one trailing
      carriage return dropped, no empty line after a final newline. */
  function SplitLines(s: string): seq<string>
    decreases |s|
  {
    if s == "" then [] else
      var k := Run(s, NotNewline);
      if k == |s| then [DropCR(s)] else [DropCR(s[..k])] + SplitLines(s[k + 1..])
  }

  /** `builder` after writing each of `lines` and a newline to it. */
  function WriteLines(builder: string, lines: seq<string>): string {
    if lines == [] then builder
    else WriteLines(builder, lines[..|lines| - 1]) + lines[|lines| - 1] + "\n"
  }

  /** A line the scanner returns unchanged. */
  predicate PlainLine(line: string) {
    '\n' !in line && (line != "" ==> line[|line| - 1] != '\r')
  }

  lemma WriteLine(builder: string, lines: seq<string>, line: string)
    ensures WriteLines(builder, lines + [line]) == WriteLines(builder, lines) + line + "\n"
  {
    assert (lines + [line])[..|lines|] == lines;
  }

  lemma {:induction false} WriteConcat(builder: string, a: seq<string>, b: seq<string>)
    ensures WriteLines(builder, a + b) == WriteLines(WriteLines(builder, a), b)
  {
    if b == [] {
      assert a + b == a;
    } else {
      var n := |b| - 1;
      assert a + b == (a + b[..n]) + [b[n]];
      WriteLine(builder, a + b[..n], b[n]);
      WriteConcat(builder, a, b[..n]);
    }
  }

  lemma SplitFirst(line: string, tail: string)
    requires PlainLine(line)
    ensures SplitLines(line + "\n" + tail) == [line] + SplitLines(tail)
  {
    var s := line + "\n" + tail;
    assert s == line + ("\n" + tail);
    RunIs(line, "\n" + tail, NotNewline);
    assert s[..|line|] == line && s[|line| + 1..] == tail;
  }

  /** One carriage return in front of a newline is dropped, and only one. */
  lemma SplitCarriageReturn(line: string, tail: string)
    requires '\n' !in line
    ensures SplitLines(line + "\r\n" + tail) == [line] + SplitLines(tail)
  {
    var s := line + "\r" + "\n" + tail;
    assert s == line + "\r\n" + tail && s == (line + "\r") + ("\n" + tail);
    RunIs(line + "\r", "\n" + tail, NotNewline);
    assert s[..|line| + 1] == line + "\r" && s[|line| + 2..] == tail;
    assert (line + "\r")[..|line|] == line;
  }

  /** A last line needs no newline, and behind a final newline there is no line. */
  lemma SplitLast(line: string)
    requires PlainLine(line)
    ensures SplitLines(line) == if line == "" then [] else [line]
  {
    RunIs(line, "", NotNewline);
    assert line + "" == line;
  }

  /** Writing lines and scanning them back, with any text behind them. */
  lemma {:induction false} SplitWritten(lines: seq<string>, rest: string)
    requires forall l :: l in lines ==> PlainLine(l)
    ensures SplitLines(WriteLines("", lines) + rest) == lines + SplitLines(rest)
  {
    if lines == [] {
      assert "" + rest == rest;
    } else {
      var n := |lines| - 1;
      var tail := lines[n] + "\n" + rest;
      calc {
        SplitLines(WriteLines("", lines) + rest);
        { assert WriteLines("", lines) + rest == WriteLines("", lines[..n]) + tail; }
        SplitLines(WriteLines("", lines[..n]) + tail);
        { SplitWritten(lines[..n], tail); }
        lines[..n] + SplitLines(tail);
        { SplitFirst(lines[n], rest); }
        lines[..n] + ([lines[n]] + SplitLines(rest));
        { assert lines == lines[..n] + [lines[n]]; }
        lines + SplitLines(rest);
      }
    }
  }
}
