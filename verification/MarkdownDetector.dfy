/** The list tracker and the detector, as the program runs them. */
module MarkdownDetector {
  import opened Text
  import opened MarkdownLines
  import opened MarkdownState
  import opened MarkdownMeaning

  class ListTracker {
    var stack: seq<ListItemInfo>
    var consecutiveEmptyLines: nat
    var lastLineWasEmpty: bool

    constructor ()
      ensures stack == [] && consecutiveEmptyLines == 0 && !lastLineWasEmpty
    {
      stack, consecutiveEmptyLines, lastLineWasEmpty := [], 0, false;
    }

    method ProcessCodeBlockLine()
      modifies this
      ensures consecutiveEmptyLines == 0 && !lastLineWasEmpty && stack == old(stack)
    {
      consecutiveEmptyLines, lastLineWasEmpty := 0, false;
    }

    method ProcessEmptyLine()
      modifies this
      ensures consecutiveEmptyLines == old(consecutiveEmptyLines) + 1 && lastLineWasEmpty
      ensures stack == if consecutiveEmptyLines >= EMPTY_LINES_TO_END_LIST then [] else old(stack)
    {
      consecutiveEmptyLines := consecutiveEmptyLines + 1;
      lastLineWasEmpty := true;
      if consecutiveEmptyLines >= EMPTY_LINES_TO_END_LIST {
        stack := [];
      }
    }

    method ProcessListItem(line: string)
      modifies this
      ensures consecutiveEmptyLines == 0 && !lastLineWasEmpty
      ensures stack == WithItem(old(stack), line)
    {
      consecutiveEmptyLines, lastLineWasEmpty := 0, false;
      var markerIndent, contentIndent := Indentation(line), ListIndent(line);
      var m := ParseMarker(line);

      while |stack| > 0 && markerIndent < stack[|stack| - 1].contentIndent
        modifies this`stack
        invariant PopTo(stack, markerIndent) == PopTo(old(stack), markerIndent)
        decreases |stack|
      {
        stack := stack[..|stack| - 1];
      }

      if |stack| > 0 {
        var last := stack[|stack| - 1];
        if last.markerIndent == markerIndent && last.isOrdered == m.Number? {
          stack := stack[|stack| - 1 := last.(orderNumber := OrderNumber(m), marker := m.Text())];
          return;
        }
      }

      stack := stack + [ListItemInfo(markerIndent, contentIndent, m.Number?, OrderNumber(m), m.Text())];
    }

    method ProcessNonListContent(line: string)
      modifies this
      ensures consecutiveEmptyLines == 0 && !lastLineWasEmpty
      ensures stack == PopTo(old(stack), Indentation(line))
    {
      consecutiveEmptyLines, lastLineWasEmpty := 0, false;
      if |stack| == 0 {
        return;
      }
      var lineIndent := Indentation(line);
      if lineIndent < stack[|stack| - 1].contentIndent {
        while |stack| > 0
          modifies this`stack
          invariant PopTo(stack, lineIndent) == PopTo(old(stack), lineIndent)
          decreases |stack|
        {
          if lineIndent >= stack[|stack| - 1].contentIndent {
            break;
          }
          stack := stack[..|stack| - 1];
        }
      }
    }

    method GetState() returns (inList: bool, indent: nat, depth: nat, copy: seq<ListItemInfo>, hadBlank: bool)
      ensures hadBlank == lastLineWasEmpty && copy == stack && depth == |stack|
      ensures inList == (stack != [])
      ensures indent == if stack == [] then 0 else stack[|stack| - 1].contentIndent
    {
      if |stack| == 0 {
        return false, 0, 0, [], lastLineWasEmpty;
      }
      return true, stack[|stack| - 1].contentIndent, |stack|, stack, lastLineWasEmpty;
    }
  }

  ghost function View(state: State, tracker: ListTracker): Reader
    reads tracker
  {
    Reader(state.inCodeBlock, state.lastHeadingLevel, tracker.stack,
           tracker.consecutiveEmptyLines, tracker.lastLineWasEmpty)
  }

  /** The body of the detector's loop. */
  method ReadLine(state: State, tracker: ListTracker, line: string) returns (next: State)
    modifies tracker
    ensures View(next, tracker) == Step(old(View(state, tracker)), line)
    ensures next.inCodeBlock <==> (state.inCodeBlock <==> !IsCodeBlockMarker(line))
    ensures next.lastHeadingLevel ==
              if !IsCodeBlockMarker(line) && !state.inCodeBlock && HeadingLevel(line) > 0 then HeadingLevel(line)
              else state.lastHeadingLevel
    ensures next == state.(inCodeBlock := next.inCodeBlock, lastHeadingLevel := next.lastHeadingLevel)
  {
    next := state;
    if IsCodeBlockMarker(line) {
      next := next.(inCodeBlock := !next.inCodeBlock);
      tracker.ProcessCodeBlockLine();
      return;
    }
    if next.inCodeBlock {
      tracker.ProcessCodeBlockLine();
      return;
    }
    var level := HeadingLevel(line);
    if level > 0 {
      next := next.(lastHeadingLevel := level);
    }
    if IsEmptyLine(line) {
      tracker.ProcessEmptyLine();
    } else if IsListItem(line) {
      tracker.ProcessListItem(line);
    } else {
      tracker.ProcessNonListContent(line);
    }
  }

  lemma ReadsMeaning(lines: seq<string>)
    ensures var r := ReadLines(FRESH, lines);
            && (r.inCode <==> |Fences(lines)| % 2 == 1) && LastHeading(lines, r.heading)
            && r.stack == OpenItems(lines, |lines|) && (r.lastEmpty <==> EndsBlank(lines))
            && (lines == [] ==> r == FRESH)
  {
    hide Fences, OpenItems, LastHeading, EndsBlank;
    InCodeIffOddFences(lines);
    HeadingIsLast(lines);
    StackIsOpenItems(lines);
    BlankIsLast(lines);
  }

  /** Detection returns the reader's state after the first `upToLine` lines: in a code block
      behind an odd number of fences, under the last heading, in the items that stay open. */
  method DetectMarkdownState(content: string, upToLine: int) returns (state: State)
    ensures state == StateOf(ReadLines(FRESH, LinesUpTo(content, upToLine)))
    ensures var lines := LinesUpTo(content, upToLine);
            && (state.inCodeBlock <==> |Fences(lines)| % 2 == 1)
            && LastHeading(lines, state.lastHeadingLevel)
            && state.listStack == OpenItems(lines, |lines|)
            && (state.hadBlankLineBeforeFragment <==> EndsBlank(lines))
    ensures var stack := state.listStack;
            && state.startLine == 0 && state.listItemDepth == |stack| && (state.inList <==> stack != [])
            && state.listIndent == if stack == [] then 0 else stack[|stack| - 1].contentIndent
  {
    hide IsCodeBlockMarker, IsEmptyLine, IsListItem, HeadingLevel, Indentation, Step, ReadLines, Fences, OpenItems,
        LastHeading, EndsBlank;
    ReadsMeaning(LinesUpTo(content, upToLine));
    ReadsMeaning([]);
    state := START;
    if upToLine <= 0 {
      return;
    }

    var lines := SplitLines(content);
    var lineNum := 0;
    var tracker := new ListTracker();
    assert lines[..0] == [];

    while lineNum < |lines| && lineNum < upToLine
      invariant 0 <= lineNum <= |lines| && lineNum <= upToLine
      invariant fresh(tracker)
      invariant View(state, tracker) == ReadLines(FRESH, lines[..lineNum])
      invariant state.startLine == 0
    {
      ReadOneMore(FRESH, lines, lineNum);
      state := ReadLine(state, tracker, lines[lineNum]);
      lineNum := lineNum + 1;
    }

    assert lines[..lineNum] == LinesUpTo(content, upToLine);
    var inList, indent, depth, stack, hadBlank := tracker.GetState();
    state := state.(inList := inList, listIndent := indent, listItemDepth := depth,
                    listStack := stack, hadBlankLineBeforeFragment := hadBlank);
  }
}
