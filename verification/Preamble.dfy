/** The synthetic preamble that puts a reader back into the context of a fragment. */
module Preamble {
  import opened Wrappers
  import opened Text
  import opened MarkdownLines
  import opened MarkdownState

  // ----- the lines of a preamble -----

  function HeadingText(level: nat): string {
    Repeat('#', level) + " " + ("Preamble H" + Decimal(level))
  }

  function HeadingLines(level: nat): seq<string> {
    if level == 0 then [] else HeadingLines(level - 1) + [HeadingText(level), ""]
  }

  function OrderedText(indent: nat, j: nat): string {
    Repeat(' ', indent) + (Decimal(j) + ".") + " " + ("Item " + Decimal(j))
  }

  function OrderedLines(indent: nat, n: nat): seq<string> {
    if n == 0 then [] else OrderedLines(indent, n - 1) + [OrderedText(indent, n)]
  }

  function BulletText(item: ListItemInfo): string {
    Repeat(' ', item.markerIndent) + item.marker + " " + "Item"
  }

  function ItemLines(item: ListItemInfo): seq<string> {
    if item.isOrdered then OrderedLines(item.markerIndent, item.orderNumber) else [BulletText(item)]
  }

  /** One level of the list, and a blank line if another level is nested in it. */
  function LevelLines(item: ListItemInfo, nested: bool): seq<string> {
    ItemLines(item) + if nested then [""] else []
  }

  /** The lines of the outermost `n` levels of a list stack. */
  function ListLines(stack: seq<ListItemInfo>, n: nat): seq<string>
    requires n <= |stack|
  {
    if n == 0 then [] else ListLines(stack, n - 1) + LevelLines(stack[n - 1], n < |stack|)
  }

  function TopLines(state: State): seq<string> {
    if state.lastHeadingLevel == 0 then ["# Preamble", ""] else HeadingLines(state.lastHeadingLevel)
  }

  function BlankLines(state: State): seq<string> {
    if state.hadBlankLineBeforeFragment && state.lastHeadingLevel == 0 && !state.inList then [""] else []
  }

  function FenceLines(state: State): seq<string> {
    if state.inCodeBlock then ["```text"] else []
  }

  function PreambleLines(state: State): seq<string> {
    if state.startLine <= 0 then [] else
      TopLines(state) + (if state.inList then ListLines(state.listStack, |state.listStack|) else []) +
      BlankLines(state) + FenceLines(state)
  }

  // ----- the generator -----

  method GenerateHeadingHierarchy(builder: string, lastHeadingLevel: nat) returns (text: string, lineCount: nat)
    ensures text == WriteLines(builder, HeadingLines(lastHeadingLevel))
    ensures lineCount == |HeadingLines(lastHeadingLevel)|
  {
    text, lineCount := builder, 0;
    for level := 1 to lastHeadingLevel + 1
      invariant text == WriteLines(builder, HeadingLines(level - 1))
      invariant lineCount == |HeadingLines(level - 1)|
    {
      WriteLine(builder, HeadingLines(level - 1), HeadingText(level));
      WriteLine(builder, HeadingLines(level - 1) + [HeadingText(level)], "");
      assert HeadingLines(level) == HeadingLines(level - 1) + [HeadingText(level)] + [""];
      text := text + HeadingText(level) + "\n" + "\n";
      lineCount := lineCount + 2;
    }
  }

  method GenerateOrderedItems(builder: string, item: ListItemInfo) returns (text: string, lineCount: nat)
    ensures text == WriteLines(builder, OrderedLines(item.markerIndent, item.orderNumber))
    ensures lineCount == |OrderedLines(item.markerIndent, item.orderNumber)|
  {
    text, lineCount := builder, 0;
    for j := 1 to item.orderNumber + 1
      invariant text == WriteLines(builder, OrderedLines(item.markerIndent, j - 1))
      invariant lineCount == |OrderedLines(item.markerIndent, j - 1)|
    {
      WriteLine(builder, OrderedLines(item.markerIndent, j - 1), OrderedText(item.markerIndent, j));
      text := text + OrderedText(item.markerIndent, j) + "\n";
      lineCount := lineCount + 1;
    }
  }

  method GenerateLevel(builder: string, item: ListItemInfo, nested: bool) returns (text: string, lineCount: nat)
    ensures text == WriteLines(builder, LevelLines(item, nested))
    ensures lineCount == |LevelLines(item, nested)|
  {
    if item.isOrdered {
      text, lineCount := GenerateOrderedItems(builder, item);
    } else {
      WriteLine(builder, [], BulletText(item));
      assert ItemLines(item) == [] + [BulletText(item)];
      text, lineCount := builder + BulletText(item) + "\n", 1;
    }
    WriteLine(builder, ItemLines(item), "");
    if nested {
      text := text + "" + "\n";
      lineCount := lineCount + 1;
    } else {
      assert LevelLines(item, nested) == ItemLines(item);
    }
  }

  method GenerateListPreamble(builder: string, state: State) returns (text: string, lineCount: nat)
    ensures text == WriteLines(builder, ListLines(state.listStack, |state.listStack|))
    ensures lineCount == |ListLines(state.listStack, |state.listStack|)|
  {
    text, lineCount := builder, 0;
    var stack := state.listStack;
    for i := 0 to |stack|
      invariant text == WriteLines(builder, ListLines(stack, i))
      invariant lineCount == |ListLines(stack, i)|
    {
      WriteConcat(builder, ListLines(stack, i), LevelLines(stack[i], i + 1 < |stack|));
      var levelLines;
      text, levelLines := GenerateLevel(text, stack[i], i + 1 < |stack|);
      lineCount := lineCount + levelLines;
    }
  }

  lemma NothingListed(stack: seq<ListItemInfo>)
    requires stack == []
    ensures ListLines(stack, |stack|) == []
  {
  }

  method GeneratePreambleWithContext(state: State) returns (text: string, lineCount: nat)
    requires state.startLine > 0
    ensures text == WriteLines("", PreambleLines(state)) && lineCount == |PreambleLines(state)|
  {
    hide HeadingLines, ListLines, WriteLines;
    var headingLines;
    text, headingLines := GenerateHeadingHierarchy("", state.lastHeadingLevel);
    lineCount := headingLines;
    HeadingLineCount(state.lastHeadingLevel);
    if headingLines == 0 {
      assert HeadingLines(0) == [];
      WriteLine("", [], "# Preamble");
      WriteLine("", ["# Preamble"], "");
      assert [] + ["# Preamble"] == ["# Preamble"];
      text := text + "# Preamble" + "\n" + "" + "\n";
      lineCount := lineCount + 2;
      assert TopLines(state) == [] + ["# Preamble"] + [""];
    }
    ghost var done := TopLines(state);

    if state.inList && |state.listStack| > 0 {
      var listLines;
      WriteConcat("", done, ListLines(state.listStack, |state.listStack|));
      text, listLines := GenerateListPreamble(text, state);
      lineCount := lineCount + listLines;
      done := done + ListLines(state.listStack, |state.listStack|);
    } else if state.inList {
      NothingListed(state.listStack);
    }

    if state.hadBlankLineBeforeFragment && headingLines == 0 && !state.inList {
      WriteLine("", done, "");
      text := text + "" + "\n";
      lineCount := lineCount + 1;
      done := done + [""];
    }

    if state.inCodeBlock {
      WriteLine("", done, "```text");
      text := text + "```text" + "\n";
      lineCount := lineCount + 1;
      done := done + ["```text"];
    }
    assert done == PreambleLines(state);
  }

  /** The generated text is exactly the preamble's lines, and the returned count is
      the number of lines written. */
  method GeneratePreamble(state: Option<State>) returns (text: string, lineCount: nat)
    ensures state.None? ==> text == "" && lineCount == 0
    ensures state.Some? ==> text == WriteLines("", PreambleLines(state.value))
    ensures state.Some? ==> lineCount == |PreambleLines(state.value)|
    ensures state.Some? && state.value.startLine <= 0 ==> text == "" && lineCount == 0
  {
    if state.None? {
      return "", 0;
    }
    if state.value.startLine > 0 {
      text, lineCount := GeneratePreambleWithContext(state.value);
      return;
    }
    return "", 0;
  }

  lemma {:induction false} HeadingLineCount(level: nat)
    ensures |HeadingLines(level)| == 2 * level
  {
    if level > 0 {
      HeadingLineCount(level - 1);
    }
  }

  /** How many lines the outermost `n` levels take: one for each item that is printed, and a
      blank one behind every level but the innermost. */
  function ListLength(stack: seq<ListItemInfo>, n: nat): nat
    requires n <= |stack|
  {
    if n == 0 then 0 else
      ListLength(stack, n - 1) + (if stack[n - 1].isOrdered then stack[n - 1].orderNumber else 1) +
      if n < |stack| then 1 else 0
  }

  lemma {:induction false} OrderedLineCount(indent: nat, n: nat)
    ensures |OrderedLines(indent, n)| == n
  {
    if n > 0 {
      OrderedLineCount(indent, n - 1);
    }
  }

  lemma {:induction false} ListLineCount(stack: seq<ListItemInfo>, n: nat)
    requires n <= |stack|
    ensures |ListLines(stack, n)| == ListLength(stack, n)
  {
    hide LevelLines;
    if n > 0 {
      ListLineCount(stack, n - 1);
      LevelLength(stack[n - 1], n < |stack|);
    }
  }

  lemma LevelLength(item: ListItemInfo, nested: bool)
    ensures |LevelLines(item, nested)| ==
              (if item.isOrdered then item.orderNumber else 1) + if nested then 1 else 0
  {
    hide OrderedLines;
    OrderedLineCount(item.markerIndent, item.orderNumber);
  }

  /** Two lines for each heading, or for the title when there is none; the list; a blank line
      only if nothing else stands between the title and the fragment; the fence. */
  lemma PreambleLength(state: State)
    requires state.startLine > 0
    ensures |PreambleLines(state)| ==
              (if state.lastHeadingLevel == 0 then 2 else 2 * state.lastHeadingLevel) +
              (if state.inList then ListLength(state.listStack, |state.listStack|) else 0) +
              (if state.hadBlankLineBeforeFragment && !state.inList && state.lastHeadingLevel == 0 then 1 else 0) +
              if state.inCodeBlock then 1 else 0
  {
    hide HeadingLines, ListLines, ListLength;
    HeadingLineCount(state.lastHeadingLevel);
    ListLineCount(state.listStack, |state.listStack|);
  }

  // ----- reading the preamble back -----

  /** Items whose content starts right of their marker. */
  predicate Indented(stack: seq<ListItemInfo>) {
    forall i :: 0 <= i < |stack| ==> stack[i].markerIndent < stack[i].contentIndent
  }

  function CanonicalOrdered(indent: nat, n: nat): ListItemInfo {
    ListItemInfo(indent, indent + |Decimal(n)| + 2, true, n, Decimal(n) + ".")
  }

  /** What the printed form of an item is read back as. */
  function Canonical(item: ListItemInfo): ListItemInfo {
    if item.isOrdered then CanonicalOrdered(item.markerIndent, item.orderNumber)
    else item.(contentIndent := item.markerIndent + |item.marker| + 1)
  }

  /** An ordered item numbered zero prints no line at all. */
  predicate Printed(item: ListItemInfo) {
    item.isOrdered ==> item.orderNumber > 0
  }

  /** The items that come back unchanged: the white space in front of the marker was blanks and
      tabs only, so that it counts in full as indent, and the number of an ordered item is
      positive and written without leading zeros. */
  predicate Faithful(item: ListItemInfo) {
    && item.contentIndent == item.markerIndent + |item.marker| + 1
    && (item.isOrdered ==> item.orderNumber > 0 && item.marker == Decimal(item.orderNumber) + ".")
  }

  function Pushed(r: Reader, item: ListItemInfo): Reader {
    r.(stack := PopTo(r.stack, item.markerIndent) + [item], emptyLines := 0, lastEmpty := false)
  }

  lemma StepItem(r: Reader, line: string, item: ListItemInfo)
    requires !IsCodeBlockMarker(line) && !IsEmptyLine(line) && HeadingLevel(line) == 0
    requires IsListItem(line) && ItemOf(line) == item
    requires !r.inCode && Indented(r.stack)
    ensures Step(r, line) == Pushed(r, item)
  {
    var popped := PopTo(r.stack, item.markerIndent);
    assert popped != [] ==> popped[|popped| - 1] == r.stack[|popped| - 1];
  }

  lemma StepMarked(r: Reader, line: string, indent: nat, m: ListMarker, rest: string)
    requires m.WellFormed() && !r.inCode && Indented(r.stack)
    requires line == Repeat(' ', indent) + m.Text() + " " + rest
    ensures Step(r, line) ==
            Pushed(r, ListItemInfo(indent, indent + |m.Text()| + 1, m.Number?, OrderNumber(m), m.Text()))
  {
    MarkedLine(indent, m, rest);
    StepItem(r, line, ListItemInfo(indent, indent + |m.Text()| + 1, m.Number?, OrderNumber(m), m.Text()));
  }

  lemma StepOrdered(r: Reader, indent: nat, n: nat)
    requires n <= MAX_INT64 && !r.inCode && Indented(r.stack)
    ensures Step(r, OrderedText(indent, n)) == Pushed(r, CanonicalOrdered(indent, n))
  {
    hide Step, Pushed, Decimal, DecimalValue, Indented;
    DecimalRoundTrip(n);
    StepNumber(r, OrderedText(indent, n), indent, Decimal(n), "Item " + Decimal(n));
  }

  lemma StepNumber(r: Reader, line: string, indent: nat, digits: string, rest: string)
    requires digits != "" && All(digits, IsDigit) && DecimalValue(digits) <= MAX_INT64
    requires !r.inCode && Indented(r.stack)
    requires line == Repeat(' ', indent) + (digits + ".") + " " + rest
    ensures Step(r, line) ==
            Pushed(r, ListItemInfo(indent, indent + |digits| + 2, true, DecimalValue(digits), digits + "."))
  {
    hide Step, Pushed, DecimalValue, Indented;
    var m := Number(digits);
    StepMarked(r, line, indent, m, rest);
    assert m.Text() == digits + ".";
    assert OrderNumber(m) == DecimalValue(digits);
    assert |digits + "."| == |digits| + 1;
  }

  lemma PushTwice(r: Reader, a: ListItemInfo, b: ListItemInfo)
    requires a.markerIndent == b.markerIndent < a.contentIndent
    ensures Pushed(Pushed(r, a), b) == Pushed(r, b)
  {
    var popped := PopTo(r.stack, a.markerIndent);
    assert (popped + [a])[..|popped|] == popped;
    assert PopTo(popped, a.markerIndent) == popped;
  }

  /** Items 1 to n of an ordered list leave only the last of them on the stack. */
  lemma {:induction false} ReadOrdered(r: Reader, indent: nat, n: nat)
    requires 1 <= n <= MAX_INT64 && !r.inCode && Indented(r.stack)
    ensures ReadLines(r, OrderedLines(indent, n)) == Pushed(r, CanonicalOrdered(indent, n))
  {
    hide Step, Decimal;
    ReadOneOrdered(r, indent, n);
    if n == 1 {
      StepOrdered(r, indent, 1);
    } else {
      var previous := CanonicalOrdered(indent, n - 1);
      ReadOrdered(r, indent, n - 1);
      StepOrdered(Pushed(r, previous), indent, n);
      PushTwice(r, previous, CanonicalOrdered(indent, n));
    }
  }

  lemma ReadOneOrdered(r: Reader, indent: nat, n: nat)
    requires n >= 1
    ensures ReadLines(r, OrderedLines(indent, n)) ==
              Step(ReadLines(r, OrderedLines(indent, n - 1)), OrderedText(indent, n))
  {
    var lines := OrderedLines(indent, n);
    assert lines[..|lines| - 1] == OrderedLines(indent, n - 1);
  }

  lemma ReadPrintedItem(r: Reader, item: ListItemInfo)
    requires ReadItem(item) && Printed(item) && !r.inCode && Indented(r.stack)
    ensures ReadLines(r, ItemLines(item)) == Pushed(r, Canonical(item))
  {
    hide Step, Pushed, Indented, Repeat;
    if item.isOrdered {
      ReadOrdered(r, item.markerIndent, item.orderNumber);
    } else {
      var m := Bullet(item.marker[0]);
      assert m.Text() == item.marker;
      StepMarked(r, BulletText(item), item.markerIndent, m, "Item");
      assert ItemLines(item) == [BulletText(item)] && [BulletText(item)][..0] == [];
      assert ReadLines(r, []) == r;
    }
  }

  lemma CanonicalIsNarrower(item: ListItemInfo)
    requires ReadItem(item) && Printed(item)
    ensures Canonical(item).contentIndent <= item.contentIndent
    ensures Canonical(item) == item <==> Faithful(item)
  {
    if item.isOrdered {
      var digits := item.marker[..|item.marker| - 1];
      DecimalIsShortest(digits);
    }
  }

  lemma StepBlank(r: Reader)
    requires !r.inCode
    ensures Step(r, "") == r.(emptyLines := r.emptyLines + 1, lastEmpty := true,
                              stack := if r.emptyLines + 1 >= EMPTY_LINES_TO_END_LIST then [] else r.stack)
  {
  }
}
