/** The generator and the detector undo each other, exactly when every list item is
    printed faithfully; and a fragment read behind the preamble is read like the
    fragment in its own file, exactly when no blank line is split from its list. */
module PreambleRoundTrip {
  import opened Text
  import opened MarkdownLines
  import opened MarkdownState
  import opened Preamble

  // ----- headings -----

  predicate Outside(r: Reader) {
    !r.inCode && r.stack == []
  }

  lemma StepHeading(r: Reader, level: nat, rest: string)
    requires 1 <= level <= MAX_HEADING_LEVEL && Outside(r)
    ensures var next := Step(r, Repeat('#', level) + " " + rest); Outside(next) && next.heading == level
  {
    HeadingLine(level, rest);
  }

  lemma StepHeadingText(r: Reader, level: nat)
    requires 1 <= level <= MAX_HEADING_LEVEL && Outside(r)
    ensures var next := Step(r, HeadingText(level)); Outside(next) && next.heading == level
  {
    StepHeading(r, level, "Preamble H" + Decimal(level));
  }

  lemma StepBlankOutside(r: Reader)
    requires Outside(r)
    ensures var next := Step(r, ""); Outside(next) && next.heading == r.heading
  {
  }

  lemma ReadTwo(r: Reader, lines: seq<string>, a: string, b: string)
    ensures ReadLines(r, lines + [a, b]) == Step(Step(ReadLines(r, lines), a), b)
  {
    assert lines + [a, b] == lines + [a] + [b];
    ReadConcat(r, lines + [a], [b]);
    ReadConcat(r, lines, [a]);
    ReadOne(ReadLines(r, lines), a);
    ReadOne(ReadLines(r, lines + [a]), b);
  }

  lemma ReadOne(r: Reader, line: string)
    ensures ReadLines(r, [line]) == Step(r, line)
  {
    assert [line][..0] == [];
    assert ReadLines(r, []) == r;
  }

  lemma {:induction false} ReadHeadings(r: Reader, level: nat)
    requires Outside(r) && level <= MAX_HEADING_LEVEL
    ensures var next := ReadLines(r, HeadingLines(level));
            Outside(next) && next.heading == if level == 0 then r.heading else level
  {
    hide Step, Decimal;
    if level > 0 {
      var before := ReadLines(r, HeadingLines(level - 1));
      ReadHeadings(r, level - 1);
      ReadTwo(r, HeadingLines(level - 1), HeadingText(level), "");
      StepHeadingText(before, level);
      StepBlankOutside(Step(before, HeadingText(level)));
    }
  }

  lemma ReadTop(state: State)
    requires state.lastHeadingLevel <= MAX_HEADING_LEVEL
    ensures var next := ReadLines(FRESH, TopLines(state));
            Outside(next) && next.heading == if state.lastHeadingLevel == 0 then 1 else state.lastHeadingLevel
  {
    hide Step, HeadingText;
    if state.lastHeadingLevel == 0 {
      var title := "# Preamble";
      assert title == Repeat('#', 1) + " " + "Preamble";
      StepHeading(FRESH, 1, "Preamble");
      ReadTwo(FRESH, [], title, "");
      assert [] + [title, ""] == TopLines(state);
      StepBlankOutside(Step(FRESH, title));
    } else {
      ReadHeadings(FRESH, state.lastHeadingLevel);
    }
  }

  // ----- lists -----

  /** `stack` is `items` in the form their printed lines are read back in. */
  predicate CanonicalForm(stack: seq<ListItemInfo>, items: seq<ListItemInfo>) {
    |stack| == |items| && forall i :: 0 <= i < |items| ==> stack[i] == Canonical(items[i])
  }

  predicate AllPrinted(items: seq<ListItemInfo>) {
    forall i :: 0 <= i < |items| ==> Printed(items[i])
  }

  predicate AllFaithful(items: seq<ListItemInfo>) {
    forall i :: 0 <= i < |items| ==> Faithful(items[i])
  }

  lemma CanonicalKeepsIndent(item: ListItemInfo)
    ensures Canonical(item).markerIndent == item.markerIndent
  {
  }

  lemma ReadLevel(r: Reader, item: ListItemInfo, nested: bool)
    requires ReadItem(item) && Printed(item) && !r.inCode && Indented(r.stack)
    ensures var next := ReadLines(r, LevelLines(item, nested));
            && next.stack == PopTo(r.stack, item.markerIndent) + [Canonical(item)]
            && next.emptyLines == (if nested then 1 else 0)
            && !next.inCode && next.heading == r.heading
  {
    hide Step, ItemLines, CanonicalOrdered, ReadItem;
    ReadPrintedItem(r, item);
    var after := Pushed(r, Canonical(item));
    assert Canonical(item).markerIndent == item.markerIndent by {
      CanonicalKeepsIndent(item);
    }
    if nested {
      assert LevelLines(item, nested) == ItemLines(item) + [""];
      ReadConcat(r, ItemLines(item), [""]);
      ReadOne(after, "");
      StepBlank(after);
    } else {
      assert LevelLines(item, nested) == ItemLines(item);
    }
  }

  lemma {:induction false} ReadList(r: Reader, stack: seq<ListItemInfo>, n: nat)
    requires n <= |stack| && WellNested(stack) && AllPrinted(stack) && Outside(r)
    ensures var next := ReadLines(r, ListLines(stack, n));
            && CanonicalForm(next.stack, stack[..n])
            && !next.inCode && next.heading == r.heading
            && (n == |stack| > 0 ==> next.emptyLines == 0)
  {
    hide Step, LevelLines, Canonical, ReadItem, Printed, Indented;
    if n > 0 {
      var item := stack[n - 1];
      var before := ReadLines(r, ListLines(stack, n - 1));
      ReadList(r, stack, n - 1);
      ReadConcat(r, ListLines(stack, n - 1), LevelLines(item, n < |stack|));
      NextLevelFits(before.stack, stack, n);
      assert Printed(item) && ReadItem(item);
      ReadLevel(before, item, n < |stack|);
      assert PopTo(before.stack, item.markerIndent) == before.stack;
    }
  }

  lemma CanonicalIndented(stack: seq<ListItemInfo>, items: seq<ListItemInfo>)
    requires CanonicalForm(stack, items)
    ensures Indented(stack)
  {
  }

  lemma NextLevelFits(canonical: seq<ListItemInfo>, stack: seq<ListItemInfo>, n: nat)
    requires 1 <= n <= |stack| && WellNested(stack) && AllPrinted(stack)
    requires CanonicalForm(canonical, stack[..n - 1])
    ensures Indented(canonical)
    ensures canonical != [] ==> canonical[|canonical| - 1].contentIndent <= stack[n - 1].markerIndent
  {
    CanonicalIndented(canonical, stack[..n - 1]);
    if n > 1 {
      var parent := stack[n - 2];
      assert ReadItem(parent) && Printed(parent);
      CanonicalIsNarrower(parent);
      assert canonical[n - 2] == Canonical(stack[..n - 1][n - 2]);
    }
  }

  function CountPrinted(stack: seq<ListItemInfo>, n: nat): (k: nat)
    requires n <= |stack|
    ensures k <= n
  {
    if n == 0 then 0 else CountPrinted(stack, n - 1) + if Printed(stack[n - 1]) then 1 else 0
  }

  lemma {:induction false} UnprintedIsNotCounted(stack: seq<ListItemInfo>, n: nat, i: nat)
    requires i < n <= |stack| && !Printed(stack[i])
    ensures CountPrinted(stack, n) < n
  {
    if i < n - 1 {
      UnprintedIsNotCounted(stack, n - 1, i);
    }
  }

  /** Reading back never yields more items than were printed. */
  lemma {:induction false} ReadListAtMost(r: Reader, stack: seq<ListItemInfo>, n: nat)
    requires n <= |stack| && WellNested(stack) && Outside(r)
    ensures var next := ReadLines(r, ListLines(stack, n));
            && |next.stack| <= CountPrinted(stack, n) && Indented(next.stack)
            && !next.inCode && next.heading == r.heading
  {
    hide Step, ReadItem, Canonical, Printed, LevelLines, Indented;
    if n == 0 {
      NothingIndented(r.stack);
    } else {
      var item, nested := stack[n - 1], n < |stack|;
      var before := ReadLines(r, ListLines(stack, n - 1));
      ReadListAtMost(r, stack, n - 1);
      ReadConcat(r, ListLines(stack, n - 1), LevelLines(item, nested));
      assert ReadItem(item);
      if Printed(item) {
        ReadLevel(before, item, nested);
        PushedIsIndented(before.stack, item);
      } else {
        UnprintedLevel(before, item, nested);
        NothingIndented([]);
      }
    }
  }

  lemma NothingIndented(stack: seq<ListItemInfo>)
    ensures stack == [] ==> Indented(stack)
  {
  }

  lemma PushedIsIndented(stack: seq<ListItemInfo>, item: ListItemInfo)
    requires Indented(stack)
    ensures Indented(PopTo(stack, item.markerIndent) + [Canonical(item)])
  {
    var popped := PopTo(stack, item.markerIndent);
    assert forall i :: 0 <= i < |popped| ==> popped[i] == stack[i];
  }

  lemma UnprintedLevel(r: Reader, item: ListItemInfo, nested: bool)
    requires !Printed(item) && !r.inCode
    ensures var next := ReadLines(r, LevelLines(item, nested));
            (next.stack == r.stack || next.stack == []) && !next.inCode && next.heading == r.heading
  {
    if nested {
      assert LevelLines(item, nested) == [""];
      ReadOne(r, "");
      StepBlank(r);
    } else {
      assert LevelLines(item, nested) == [];
    }
  }

  // ----- the whole preamble -----

  /** The state of a reader handed to the generator for a fragment starting mid-file. */
  function FragmentState(r: Reader, startLine: int): State {
    StateOf(r).(startLine := startLine)
  }

  lemma ReadFence(r: Reader)
    requires !r.inCode
    ensures Step(r, "```text") == r.(inCode := true, emptyLines := 0, lastEmpty := false)
  {
    var line := "```text";
    RunIs("", line, IsSpace);
    assert "" + line == line;
  }

  lemma ReadContext(state: State)
    requires state.lastHeadingLevel <= MAX_HEADING_LEVEL
    requires state.startLine > 0 && (state.inList <==> state.listStack != [])
    requires WellNested(state.listStack)
    ensures var top := ReadLines(FRESH, TopLines(state));
            var list := ReadLines(top, ListLines(state.listStack, |state.listStack|));
            var next := ReadLines(FRESH, PreambleLines(state));
            && Outside(top)
            && next.heading == (if state.lastHeadingLevel == 0 then 1 else state.lastHeadingLevel)
            && next.inCode == state.inCodeBlock
            && next.stack == list.stack
            && (state.inList && !state.inCodeBlock ==> next.emptyLines == list.emptyLines)
            && (state.inCodeBlock ==> next.emptyLines == 0)
  {
    hide Step, TopLines, ListLines, ReadLines;
    var lists := if state.inList then ListLines(state.listStack, |state.listStack|) else [];
    var top := ReadLines(FRESH, TopLines(state));
    ReadTop(state);
    ReadListAtMost(top, state.listStack, |state.listStack|);
    ReadConcat(FRESH, TopLines(state), lists);
    var list := ReadLines(FRESH, TopLines(state) + lists);
    ReadConcat(FRESH, TopLines(state) + lists, BlankLines(state));
    var blank := ReadLines(list, BlankLines(state));
    ReadConcat(FRESH, TopLines(state) + lists + BlankLines(state), FenceLines(state));
    NoLines(top);
    if !state.inList {
      NoListLines(state.listStack);
    }
    NoLines(list);
    NoLines(blank);
    if BlankLines(state) == [""] {
      ReadOne(list, "");
      StepBlankOutside(list);
    }
    if state.inCodeBlock {
      ReadOne(blank, "```text");
      ReadFence(blank);
    }
  }

  lemma NoLines(r: Reader)
    ensures ReadLines(r, []) == r
  {
  }

  lemma NoListLines(stack: seq<ListItemInfo>)
    requires stack == []
    ensures ListLines(stack, |stack|) == []
  {
  }

  lemma CanonicalIffFaithful(canonical: seq<ListItemInfo>, stack: seq<ListItemInfo>)
    requires WellNested(stack) && AllPrinted(stack) && CanonicalForm(canonical, stack)
    ensures canonical == stack <==> AllFaithful(stack)
  {
    hide Canonical, Faithful, ReadItem, Printed;
    forall i | 0 <= i < |stack|
      ensures canonical[i] == stack[i] <==> Faithful(stack[i])
    {
      assert ReadItem(stack[i]) && Printed(stack[i]);
      CanonicalIsNarrower(stack[i]);
    }
    if canonical == stack {
      assert forall i :: 0 <= i < |stack| ==> canonical[i] == stack[i];
    }
  }

  /** The list stack comes back exactly when every item on it is faithful. */
  lemma ReadBackStack(r: Reader, stack: seq<ListItemInfo>)
    requires WellNested(stack) && Outside(r)
    ensures var next := ReadLines(r, ListLines(stack, |stack|));
            && (next.stack == stack <==> AllFaithful(stack))
            && (AllFaithful(stack) && stack != [] ==> next.emptyLines == 0)
  {
    hide ListLines, ReadLines, Canonical, ReadItem;
    assert stack[..|stack|] == stack;
    if AllPrinted(stack) {
      ReadList(r, stack, |stack|);
      CanonicalIffFaithful(ReadLines(r, ListLines(stack, |stack|)).stack, stack);
    } else {
      var i :| 0 <= i < |stack| && !Printed(stack[i]);
      ReadListAtMost(r, stack, |stack|);
      UnprintedIsNotCounted(stack, |stack|, i);
      assert !Faithful(stack[i]);
    }
  }

  /** The two readers are in the same place: the same code block and list context, and
      the same last heading, where a file without headings is given a first one. */
  predicate SameContext(original: Reader, synthetic: Reader) {
    && original.inCode == synthetic.inCode
    && original.stack == synthetic.stack
    && synthetic.heading == if original.heading == 0 then 1 else original.heading
  }

  /** ROUND TRIP. Whatever lines were read, reading the preamble generated from the
      detected state restores the code block and heading context, and it restores the
      list stack if and only if every item on it is faithful. */
  lemma PreambleRestoresContext(lines: seq<string>, startLine: int)
    requires startLine > 0
    ensures var r := ReadLines(FRESH, lines);
            var back := ReadLines(FRESH, PreambleLines(FragmentState(r, startLine)));
            && back.inCode == r.inCode
            && back.heading == (if r.heading == 0 then 1 else r.heading)
            && (SameContext(r, back) <==> AllFaithful(r.stack))
            && (AllFaithful(r.stack) && r.stack != [] ==> back.emptyLines == 0)
  {
    hide ReadLines, PreambleLines, TopLines, ListLines, AllFaithful;
    var r := ReadLines(FRESH, lines);
    var state := FragmentState(r, startLine);
    ReadLinesReadable(lines);
    ReadContext(state);
    var top := ReadLines(FRESH, TopLines(state));
    ReadBackStack(top, r.stack);
  }
}
