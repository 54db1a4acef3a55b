/** Reading a fragment behind its preamble instead of in its own file. */
module FragmentReading {
  import opened Text
  import opened MarkdownLines
  import opened MarkdownState
  import opened Preamble
  import opened PreambleRoundTrip

  // ----- the generated text splits into the lines it was written from -----

  predicate Visible(c: char) {
    ' ' <= c <= '~'
  }

  predicate AllPlain(lines: seq<string>) {
    forall l :: l in lines ==> PlainLine(l)
  }

  lemma AllConcat(a: string, b: string, p: char -> bool)
    requires All(a, p) && All(b, p)
    ensures All(a + b, p)
  {
  }

  lemma VisibleIsPlain(line: string)
    requires All(line, Visible)
    ensures PlainLine(line)
  {
  }

  lemma MarkedIsPlain(indent: nat, marker: string, rest: string)
    requires All(marker, Visible) && All(rest, Visible)
    ensures PlainLine(Repeat(' ', indent) + marker + " " + rest)
  {
    AllConcat(Repeat(' ', indent), marker, Visible);
    AllConcat(Repeat(' ', indent) + marker, " ", Visible);
    AllConcat(Repeat(' ', indent) + marker + " ", rest, Visible);
    VisibleIsPlain(Repeat(' ', indent) + marker + " " + rest);
  }

  lemma DecimalVisible(n: nat)
    ensures All(Decimal(n), Visible)
  {
    hide Decimal;
    DecimalRoundTrip(n);
  }

  lemma {:induction false} HeadingsPlain(level: nat)
    ensures AllPlain(HeadingLines(level))
  {
    hide Decimal;
    if level > 0 {
      HeadingsPlain(level - 1);
      DecimalVisible(level);
      AllConcat("Preamble H", Decimal(level), Visible);
      AllConcat(Repeat('#', level), " ", Visible);
      AllConcat(Repeat('#', level) + " ", "Preamble H" + Decimal(level), Visible);
      VisibleIsPlain(HeadingText(level));
    }
  }

  lemma {:induction false} OrderedPlain(indent: nat, n: nat)
    ensures AllPlain(OrderedLines(indent, n))
  {
    hide Decimal;
    if n > 0 {
      OrderedPlain(indent, n - 1);
      DecimalVisible(n);
      AllConcat(Decimal(n), ".", Visible);
      AllConcat("Item ", Decimal(n), Visible);
      MarkedIsPlain(indent, Decimal(n) + ".", "Item " + Decimal(n));
    }
  }

  lemma {:induction false} ListPlain(stack: seq<ListItemInfo>, n: nat)
    requires n <= |stack| && WellNested(stack)
    ensures AllPlain(ListLines(stack, n))
  {
    hide OrderedLines, PlainLine;
    if n > 0 {
      ListPlain(stack, n - 1);
      var item := stack[n - 1];
      assert ReadItem(item);
      OrderedPlain(item.markerIndent, item.orderNumber);
      if !item.isOrdered {
        MarkedIsPlain(item.markerIndent, item.marker, "Item");
      }
      VisibleIsPlain("");
    }
  }

  lemma PreamblePlain(state: State)
    requires WellNested(state.listStack)
    ensures AllPlain(PreambleLines(state))
  {
    hide HeadingLines, ListLines;
    HeadingsPlain(state.lastHeadingLevel);
    ListPlain(state.listStack, |state.listStack|);
  }

  /** The generated text followed by any fragment scans as the preamble's lines followed
      by the fragment's, and the returned line count is where the fragment starts. */
  lemma PreambleTextSplits(state: State, fragment: string)
    requires WellNested(state.listStack)
    ensures var text := WriteLines("", PreambleLines(state));
            && SplitLines(text + fragment) == PreambleLines(state) + SplitLines(fragment)
            && LinesUpTo(text + fragment, |PreambleLines(state)|) == PreambleLines(state)
  {
    hide PreambleLines, WellNested;
    PreamblePlain(state);
    SplitWritten(PreambleLines(state), fragment);
  }

  /** Detecting over the generated text, up to the returned line count, gives the state
      it was generated from: list context if and only if every open item is faithful. */
  lemma DetectionRoundTrip(content: string, upToLine: int, fragment: string)
    requires upToLine > 0
    ensures var s := StateOf(ReadLines(FRESH, LinesUpTo(content, upToLine))).(startLine := upToLine);
            var text := WriteLines("", PreambleLines(s));
            var t := StateOf(ReadLines(FRESH, LinesUpTo(text + fragment, |PreambleLines(s)|)));
            && t.inCodeBlock == s.inCodeBlock
            && t.lastHeadingLevel == (if s.lastHeadingLevel == 0 then 1 else s.lastHeadingLevel)
            && (AllFaithful(s.listStack) <==>
                && t.listStack == s.listStack && t.inList == s.inList
                && t.listIndent == s.listIndent && t.listItemDepth == s.listItemDepth)
  {
    hide ReadLines, PreambleLines, AllFaithful;
    var lines := LinesUpTo(content, upToLine);
    ReadLinesReadable(lines);
    PreambleRestoresContext(lines, upToLine);
    PreambleTextSplits(FragmentState(ReadLines(FRESH, lines), upToLine), fragment);
  }

  // ----- reading on -----

  /** Same context, and as many empty lines seen as matters for the open list. */
  predicate Coupled(original: Reader, synthetic: Reader) {
    && SameContext(original, synthetic)
    && (original.stack != [] ==> original.emptyLines == synthetic.emptyLines)
  }

  lemma StepCoupled(a: Reader, b: Reader, line: string)
    requires Coupled(a, b)
    ensures Coupled(Step(a, line), Step(b, line))
  {
  }

  lemma StepCouples(a: Reader, b: Reader, line: string)
    requires SameContext(a, b) && !IsEmptyLine(line)
    ensures Coupled(Step(a, line), Step(b, line))
  {
  }

  lemma {:induction false} ReadCoupled(a: Reader, b: Reader, lines: seq<string>)
    requires Coupled(a, b)
    ensures Coupled(ReadLines(a, lines), ReadLines(b, lines))
  {
    hide Step;
    if lines != [] {
      var n := |lines| - 1;
      ReadCoupled(a, b, lines[..n]);
      StepCoupled(ReadLines(a, lines[..n]), ReadLines(b, lines[..n]), lines[n]);
    }
  }

  lemma ReadFirst(r: Reader, lines: seq<string>)
    requires lines != []
    ensures ReadLines(r, lines) == ReadLines(Step(r, lines[0]), lines[1..])
  {
    hide Step;
    assert lines == [lines[0]] + lines[1..];
    ReadConcat(r, [lines[0]], lines[1..]);
    ReadOne(r, lines[0]);
  }

  /** The cut separates a list from the blank line in front of it when the fragment goes
      on with another blank line. */
  predicate SplitsBlankRun(r: Reader, fragment: seq<string>) {
    r.stack != [] && r.lastEmpty && fragment != [] && IsEmptyLine(fragment[0])
  }

  /** After each line of the fragment both readers are in the same context. */
  ghost predicate ReadAlike(original: Reader, synthetic: Reader, fragment: seq<string>) {
    forall k :: 0 <= k <= |fragment| ==>
      SameContext(ReadLines(original, fragment[..k]), ReadLines(synthetic, fragment[..k]))
  }

  lemma CoupledReadAlike(a: Reader, b: Reader, fragment: seq<string>)
    requires Coupled(a, b)
    ensures ReadAlike(a, b, fragment)
  {
    hide ReadLines;
    forall k | 0 <= k <= |fragment|
      ensures SameContext(ReadLines(a, fragment[..k]), ReadLines(b, fragment[..k]))
    {
      ReadCoupled(a, b, fragment[..k]);
    }
  }

  lemma NonEmptyReadAlike(a: Reader, b: Reader, fragment: seq<string>)
    requires SameContext(a, b) && (fragment != [] ==> !IsEmptyLine(fragment[0]))
    ensures ReadAlike(a, b, fragment)
  {
    hide Step, ReadLines, IsEmptyLine, Coupled;
    forall k | 0 <= k <= |fragment|
      ensures SameContext(ReadLines(a, fragment[..k]), ReadLines(b, fragment[..k]))
    {
      if k == 0 {
        NoLines(a);
        NoLines(b);
        assert fragment[..0] == [];
      } else {
        var lines := fragment[..k];
        StepCouples(a, b, lines[0]);
        ReadFirst(a, lines);
        ReadFirst(b, lines);
        ReadCoupled(Step(a, lines[0]), Step(b, lines[0]), lines[1..]);
        CoupledIsSame(ReadLines(a, lines), ReadLines(b, lines));
      }
    }
  }

  lemma CoupledIsSame(a: Reader, b: Reader)
    requires Coupled(a, b)
    ensures SameContext(a, b)
  {
  }

  lemma EmptyLineDiverges(a: Reader, b: Reader, line: string)
    requires Readable(a) && a.stack != [] && a.lastEmpty && b.emptyLines == 0 && SameContext(a, b)
    requires IsEmptyLine(line)
    ensures !SameContext(Step(a, line), Step(b, line))
  {
  }

  lemma SplitBlankRunDiverges(a: Reader, b: Reader, fragment: seq<string>)
    requires Readable(a) && SplitsBlankRun(a, fragment) && b.emptyLines == 0
    ensures !ReadAlike(a, b, fragment)
  {
    hide Step, ReadLines, IsEmptyLine, Readable;
    var first := fragment[..1];
    assert first == [fragment[0]] && fragment[..0] == [];
    NoLines(a);
    NoLines(b);
    ReadOne(a, fragment[0]);
    ReadOne(b, fragment[0]);
    if SameContext(a, b) {
      EmptyLineDiverges(a, b, fragment[0]);
      assert !SameContext(ReadLines(a, first), ReadLines(b, first));
    } else {
      assert !SameContext(ReadLines(a, fragment[..0]), ReadLines(b, fragment[..0]));
    }
  }

  /** A fragment read behind its preamble is read, line for line, as it is in its own
      file if and only if every open list item is faithful and the cut does not split a
      run of blank lines after a list. */
  lemma FragmentReadsTheSame(lines: seq<string>, startLine: int, fragment: seq<string>)
    requires startLine > 0
    ensures var r := ReadLines(FRESH, lines);
            var back := ReadLines(FRESH, PreambleLines(FragmentState(r, startLine)));
            ReadAlike(r, back, fragment) <==> AllFaithful(r.stack) && !SplitsBlankRun(r, fragment)
  {
    hide ReadLines, PreambleLines, AllFaithful, IsEmptyLine, Step;
    var r := ReadLines(FRESH, lines);
    var back := ReadLines(FRESH, PreambleLines(FragmentState(r, startLine)));
    PreambleRestoresContext(lines, startLine);
    ReadLinesReadable(lines);
    if !AllFaithful(r.stack) {
      NoLines(r);
      NoLines(back);
      assert fragment[..0] == [];
      assert !SameContext(ReadLines(r, fragment[..0]), ReadLines(back, fragment[..0]));
    } else if SplitsBlankRun(r, fragment) {
      SplitBlankRunDiverges(r, back, fragment);
    } else if r.stack == [] || !r.lastEmpty {
      CoupledReadAlike(r, back, fragment);
    } else {
      NonEmptyReadAlike(r, back, fragment);
    }
  }

  // ----- the two ways it fails, on concrete files -----

  /** "007. x" is printed back as item 7, two columns narrower. */
  lemma LeadingZerosAreLost()
    ensures var r := ReadLines(FRESH, ["007. x"]);
            var back := ReadLines(FRESH, PreambleLines(FragmentState(r, 1)));
            back.stack != r.stack
  {
    hide PreambleLines, ReadLines, Step;
    var line, m := "007. x", Number("007");
    assert line == Repeat(' ', 0) + m.Text() + " " + "x";
    StepMarked(FRESH, line, 0, m, "x");
    ReadOne(FRESH, line);
    var r := ReadLines(FRESH, [line]);
    assert PopTo([], 0) == [];
    assert m.Text() == "007.";
    assert r.stack == [ListItemInfo(0, 5, true, OrderNumber(m), "007.")];
    assert DecimalValue("0") == 0 by { assert "0"[..0] == ""; }
    assert DecimalValue("00") == 0 by { assert "00"[..1] == "0"; }
    assert DecimalValue("007") == 7 by { assert "007"[..2] == "00"; }
    assert Decimal(7) == [DigitChar(7)];
    assert |Decimal(7) + "."| == 2 && |"007."| == 4;
    assert !Faithful(r.stack[0]);
    PreambleRestoresContext([line], 1);
    ReadLinesReadable([line]);
  }

  /** A list item, a blank line, the cut, and another blank line: the file has left the
      list, the reader behind the preamble has not. */
  lemma SplitBlankLinesKeepTheList()
    ensures var r := ReadLines(FRESH, ["- x", ""]);
            var back := ReadLines(FRESH, PreambleLines(FragmentState(r, 1)));
            && ReadLines(r, [""]).stack == [] && ReadLines(back, [""]).stack == r.stack != []
            && !ReadAlike(r, back, [""])
  {
    hide PreambleLines, ReadLines, Step;
    var line, m := "- x", Bullet('-');
    assert line == Repeat(' ', 0) + m.Text() + " " + "x";
    StepMarked(FRESH, line, 0, m, "x");
    ReadTwo(FRESH, [], line, "");
    assert [] + [line, ""] == [line, ""];
    NoLines(FRESH);
    StepBlank(Step(FRESH, line));
    var r := ReadLines(FRESH, [line, ""]);
    assert r.stack == [ListItemInfo(0, 2, false, 0, "-")] && r.lastEmpty && r.emptyLines == 1;
    assert Faithful(r.stack[0]);
    assert IsEmptyLine("");
    FragmentReadsTheSame([line, ""], 1, [""]);
    PreambleRestoresContext([line, ""], 1);
    var back := ReadLines(FRESH, PreambleLines(FragmentState(r, 1)));
    ReadOne(r, "");
    StepBlank(r);
    ReadOne(back, "");
    StepBlank(back);
  }
}
