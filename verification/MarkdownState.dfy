/** The markdown context at a line: code block, heading and list stack. */
module MarkdownState {
  import opened Text
  import opened MarkdownLines

  /** Consecutive empty lines that end a list. */
  const EMPTY_LINES_TO_END_LIST := 2

  datatype ListItemInfo = ListItemInfo(
    markerIndent: nat,
    contentIndent: nat,
    isOrdered: bool,
    orderNumber: nat,
    marker: string)

  datatype State = State(
    inCodeBlock: bool,
    startLine: int,
    inList: bool,
    listIndent: nat,
    listItemDepth: nat,
    listStack: seq<ListItemInfo>,
    hadBlankLineBeforeFragment: bool,
    lastHeadingLevel: nat)

  const START := State(false, 0, false, 0, 0, [], false, 0)

  // ----- what reading lines does, as a function -----

  /** Everything the reader carries from one line to the next. */
  datatype Reader = Reader(
    inCode: bool,
    heading: nat,
    stack: seq<ListItemInfo>,
    emptyLines: nat,
    lastEmpty: bool)

  const FRESH := Reader(false, 0, [], 0, false)

  /** The stack without the innermost items whose content starts right of `indent`. */
  function PopTo(stack: seq<ListItemInfo>, indent: nat): (s: seq<ListItemInfo>)
    ensures s <= stack
    ensures s != [] ==> s[|s| - 1].contentIndent <= indent
  {
    if stack != [] && indent < stack[|stack| - 1].contentIndent
    then PopTo(stack[..|stack| - 1], indent)
    else stack
  }

  function ItemOf(line: string): ListItemInfo {
    var m := ParseMarker(line);
    ListItemInfo(Indentation(line), ListIndent(line), m.Number?, OrderNumber(m), m.Text())
  }

  function WithItem(stack: seq<ListItemInfo>, line: string): seq<ListItemInfo> {
    var item := ItemOf(line);
    var popped := PopTo(stack, item.markerIndent);
    var n := |popped|;
    if n > 0 && popped[n - 1].markerIndent == item.markerIndent && popped[n - 1].isOrdered == item.isOrdered then
      popped[n - 1 := popped[n - 1].(orderNumber := item.orderNumber, marker := item.marker)]
    else
      popped + [item]
  }

  function Step(r: Reader, line: string): Reader {
    if IsCodeBlockMarker(line) then
      r.(inCode := !r.inCode, emptyLines := 0, lastEmpty := false)
    else if r.inCode then
      r.(emptyLines := 0, lastEmpty := false)
    else
      var r := if HeadingLevel(line) > 0 then r.(heading := HeadingLevel(line)) else r;
      if IsEmptyLine(line) then
        var n := r.emptyLines + 1;
        r.(emptyLines := n, lastEmpty := true,
           stack := if n >= EMPTY_LINES_TO_END_LIST then [] else r.stack)
      else
        var stack := if IsListItem(line) then WithItem(r.stack, line)
                     else PopTo(r.stack, Indentation(line));
        r.(emptyLines := 0, lastEmpty := false, stack := stack)
  }

  function ReadLines(r: Reader, lines: seq<string>): Reader {
    if lines == [] then r else Step(ReadLines(r, lines[..|lines| - 1]), lines[|lines| - 1])
  }

  lemma ReadOneMore(r: Reader, lines: seq<string>, n: nat)
    requires n < |lines|
    ensures ReadLines(r, lines[..n + 1]) == Step(ReadLines(r, lines[..n]), lines[n])
  {
    assert lines[..n + 1][..n] == lines[..n];
  }

  lemma {:induction false} ReadConcat(r: Reader, a: seq<string>, b: seq<string>)
    ensures ReadLines(r, a + b) == ReadLines(ReadLines(r, a), b)
  {
    if b == [] {
      assert a + b == a;
    } else {
      assert (a + b)[..|a + b| - 1] == a + b[..|b| - 1];
      ReadConcat(r, a, b[..|b| - 1]);
    }
  }

  function LinesUpTo(content: string, upToLine: int): seq<string> {
    var lines := SplitLines(content);
    if upToLine <= 0 then [] else if upToLine < |lines| then lines[..upToLine] else lines
  }

  function StateOf(r: Reader): State {
    if r.stack == [] then
      State(r.inCode, 0, false, 0, 0, [], r.lastEmpty, r.heading)
    else
      State(r.inCode, 0, true, r.stack[|r.stack| - 1].contentIndent, |r.stack|, r.stack,
            r.lastEmpty, r.heading)
  }

  // ----- what every stack that was read looks like -----

  predicate ReadItem(item: ListItemInfo) {
    && item.markerIndent + |item.marker| + 1 <= item.contentIndent
    && if item.isOrdered then
         var m := item.marker;
         && |m| >= 2 && m[|m| - 1] == '.' && All(m[..|m| - 1], IsDigit)
         && item.orderNumber == ScanInt(m[..|m| - 1])
       else
         |item.marker| == 1 && IsBullet(item.marker[0]) && item.orderNumber == 0
  }

  /** Each item was read from a line, and its marker stands at or right of the
      content of the item around it. */
  predicate WellNested(stack: seq<ListItemInfo>) {
    && (forall i :: 0 <= i < |stack| ==> ReadItem(stack[i]))
    && (forall i :: 1 <= i < |stack| ==> stack[i - 1].contentIndent <= stack[i].markerIndent)
  }

  ghost predicate Readable(r: Reader) {
    && WellNested(r.stack)
    && r.heading <= MAX_HEADING_LEVEL
    && (r.stack != [] ==> r.emptyLines < EMPTY_LINES_TO_END_LIST)
    && (r.lastEmpty <==> r.emptyLines > 0)
    && (r.inCode ==> r.emptyLines == 0)
  }

  lemma ItemOfIsRead(line: string)
    requires IsListItem(line)
    ensures ReadItem(ItemOf(line))
  {
    IndentationWithinSpaces(line);
    var m := ParseMarker(line);
    if m.Number? {
      assert m.Text()[..|m.Text()| - 1] == m.digits;
    }
  }

  /** The item read from a marked line: the marker's own column counts blanks and tabs only, and
      a numeral too large for 64 bits is read as zero. */
  lemma ItemIs(line: string, k: nat, m: ListMarker)
    requires m.WellFormed() && MarkedAt(line, k, m)
    ensures var item := ItemOf(line);
            && item.contentIndent == k + |m.Text()| + 1 && item.marker == m.Text()
            && (item.isOrdered <==> m.Number?)
            && item.orderNumber == (if m.Number? && DecimalValue(m.digits) < 0x8000_0000_0000_0000
                                    then DecimalValue(m.digits) else 0)
            && item.markerIndent <= k
            && (item.markerIndent == k <==> forall i :: 0 <= i < k ==> line[i] == ' ' || line[i] == '\t')
  {
    hide Run, MarkerOf, ListMarker.Text, DecimalValue;
    MarkedAtIsRead(line, k, m);
    IndentationWithinSpaces(line);
    MarkerStarts(m);
    assert line[k] == m.Text()[0];
    RunIff(line, IsSpace, k);
    IndentationIff(line, k);
  }

  /** Renumbering the innermost item in place is a branch no reading ever takes: an
      item at the same indent has been popped before it is looked at. */
  lemma ItemIsAlwaysPushed(stack: seq<ListItemInfo>, line: string)
    requires WellNested(stack)
    ensures WithItem(stack, line) == PopTo(stack, Indentation(line)) + [ItemOf(line)]
  {
    hide PopTo, ParseMarker, ListIndent, Indentation, OrderNumber, ReadItem;
    var popped := PopTo(stack, Indentation(line));
    if popped != [] {
      var last := popped[|popped| - 1];
      assert last == stack[|popped| - 1];
      MarkerIsLeft(last);
    }
  }

  lemma MarkerIsLeft(item: ListItemInfo)
    requires ReadItem(item)
    ensures item.markerIndent < item.contentIndent
  {
  }

  lemma WithItemWellNested(stack: seq<ListItemInfo>, line: string)
    requires WellNested(stack) && IsListItem(line)
    ensures WellNested(WithItem(stack, line))
  {
    hide ReadItem, IsListItem, ParseMarker, ListIndent, WithItem;
    ItemIsAlwaysPushed(stack, line);
    ItemOfIsRead(line);
    var popped := PopTo(stack, Indentation(line));
    assert forall i :: 0 <= i < |popped| ==> popped[i] == stack[i];
  }

  lemma PoppedWellNested(stack: seq<ListItemInfo>, indent: nat)
    requires WellNested(stack)
    ensures WellNested(PopTo(stack, indent))
  {
    hide ReadItem;
    var popped := PopTo(stack, indent);
    assert forall i :: 0 <= i < |popped| ==> popped[i] == stack[i];
  }

  lemma StepReadable(r: Reader, line: string)
    requires Readable(r)
    ensures Readable(Step(r, line))
  {
    hide IsCodeBlockMarker, IsEmptyLine, IsListItem, HeadingLevel, Indentation, WithItem, PopTo, WellNested;
    if IsListItem(line) {
      WithItemWellNested(r.stack, line);
    }
    PoppedWellNested(r.stack, Indentation(line));
    EmptyWellNested();
  }

  lemma EmptyWellNested()
    ensures WellNested([])
  {
  }

  /** Whatever was read, the list stack is well nested, the heading level is at most
      six and a list never survives two empty lines. */
  lemma {:induction false} ReadLinesReadable(lines: seq<string>)
    ensures Readable(ReadLines(FRESH, lines))
  {
    if lines != [] {
      ReadLinesReadable(lines[..|lines| - 1]);
      StepReadable(ReadLines(FRESH, lines[..|lines| - 1]), lines[|lines| - 1]);
    }
  }
}
