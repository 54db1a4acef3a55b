/** What a reader knows behind some lines, told from the lines themselves: which fences are open,
    which heading came last, which list items are still open. */
module MarkdownMeaning {
  import opened Text
  import opened MarkdownLines
  import opened MarkdownState

  // ----- fences -----

  /** The positions of the code fences. */
  function Fences(lines: seq<string>): set<nat> {
    set i: nat | i < |lines| && IsCodeBlockMarker(lines[i])
  }

  lemma FencesOneMore(lines: seq<string>, n: nat)
    requires n < |lines|
    ensures Fences(lines[..n + 1]) == Fences(lines[..n]) + (if IsCodeBlockMarker(lines[n]) then {n} else {})
    ensures |Fences(lines[..n + 1])| == |Fences(lines[..n])| + if IsCodeBlockMarker(lines[n]) then 1 else 0
  {
    hide IsCodeBlockMarker;
    assert n !in Fences(lines[..n]);
  }

  /** A code block is open exactly behind an odd number of fences. */
  lemma {:induction false} InCodeIffOddFences(lines: seq<string>)
    ensures ReadLines(FRESH, lines).inCode <==> |Fences(lines)| % 2 == 1
  {
    hide IsCodeBlockMarker, IsEmptyLine, IsListItem, HeadingLevel, WithItem, PopTo, Indentation;
    if lines != [] {
      var n := |lines| - 1;
      InCodeIffOddFences(lines[..n]);
      FencesOneMore(lines, n);
      assert lines[..n + 1] == lines;
    } else {
      assert Fences([]) == {};
    }
  }

  /** The line is neither a fence nor in a code block. */
  predicate Prose(lines: seq<string>, i: nat)
    requires i < |lines|
  {
    !IsCodeBlockMarker(lines[i]) && |Fences(lines[..i])| % 2 == 0
  }

  lemma ProsePrefix(lines: seq<string>, n: nat, i: nat)
    requires i < n <= |lines|
    ensures Prose(lines[..n], i) <==> Prose(lines, i)
  {
    hide IsCodeBlockMarker, Fences;
    assert lines[..n][..i] == lines[..i];
  }

  /** What the last line does to a reader. */
  lemma LastLine(lines: seq<string>)
    requires lines != []
    ensures var n := |lines| - 1;
            var r, next := ReadLines(FRESH, lines[..n]), ReadLines(FRESH, lines);
            && next == Step(r, lines[n])
            && (Prose(lines, n) <==> !IsCodeBlockMarker(lines[n]) && !r.inCode)
  {
    hide Step, Fences, IsCodeBlockMarker;
    InCodeIffOddFences(lines[..|lines| - 1]);
  }

  // ----- headings -----

  predicate HeadingAt(lines: seq<string>, i: nat)
    requires i < |lines|
  {
    Prose(lines, i) && HeadingLevel(lines[i]) > 0
  }

  /** `level` is that of the last heading, or 0 if there is none. */
  ghost predicate LastHeading(lines: seq<string>, level: nat) {
    if level == 0 then
      forall i: nat :: i < |lines| ==> !HeadingAt(lines, i)
    else
      exists i: nat :: i < |lines| && HeadingAt(lines, i) && HeadingLevel(lines[i]) == level
                       && forall j: nat :: i < j < |lines| ==> !HeadingAt(lines, j)
  }

  /** The level remembered is that of the last heading outside code blocks. */
  lemma {:induction false} HeadingIsLast(lines: seq<string>)
    ensures LastHeading(lines, ReadLines(FRESH, lines).heading)
  {
    hide IsCodeBlockMarker, IsEmptyLine, IsListItem, HeadingLevel, WithItem, PopTo, Indentation, Prose;
    if lines != [] {
      var n := |lines| - 1;
      var before := lines[..n];
      HeadingIsLast(before);
      LastLine(lines);
      forall i: nat | i < n
        ensures HeadingAt(before, i) <==> HeadingAt(lines, i)
      {
        ProsePrefix(lines, n, i);
      }
      if !HeadingAt(lines, n) && ReadLines(FRESH, before).heading != 0 {
        var i: nat :| i < n && HeadingAt(before, i) && HeadingLevel(before[i]) == ReadLines(FRESH, before).heading
                      && forall j: nat :: i < j < n ==> !HeadingAt(before, j);
        assert HeadingAt(lines, i) && lines[i] == before[i];
      }
    }
  }

  // ----- blank lines -----

  predicate BlankAt(lines: seq<string>, i: nat)
    requires i < |lines|
  {
    Prose(lines, i) && IsEmptyLine(lines[i])
  }

  predicate EndsBlank(lines: seq<string>) {
    lines != [] && BlankAt(lines, |lines| - 1)
  }

  lemma BlankIsLast(lines: seq<string>)
    ensures ReadLines(FRESH, lines).lastEmpty <==> EndsBlank(lines)
  {
    hide IsCodeBlockMarker, IsEmptyLine, IsListItem, HeadingLevel, WithItem, PopTo, Indentation, Prose;
    if lines != [] {
      LastLine(lines);
    }
  }

  // ----- open list items -----

  /** A second blank line in a row. */
  predicate EndsList(lines: seq<string>, j: nat)
    requires j < |lines|
  {
    j > 0 && BlankAt(lines, j) && BlankAt(lines, j - 1)
  }

  /** The line closes every item whose content starts at column `content`: it is the second
      blank line in a row, or text or another item that is not indented as far. */
  predicate Closes(lines: seq<string>, j: nat, content: nat)
    requires j < |lines|
  {
    || EndsList(lines, j)
    || (Prose(lines, j) && !IsEmptyLine(lines[j]) && Indentation(lines[j]) < content)
  }

  predicate Opens(lines: seq<string>, i: nat)
    requires i < |lines|
  {
    Prose(lines, i) && IsListItem(lines[i])
  }

  /** The line opens an item that no later line closes. */
  predicate StaysOpen(lines: seq<string>, i: nat)
    requires i < |lines|
  {
    Opens(lines, i) && forall j: nat :: i < j < |lines| ==> !Closes(lines, j, ItemOf(lines[i]).contentIndent)
  }

  /** The items of the first `n` lines that stay open, in order. */
  function OpenItems(lines: seq<string>, n: nat): seq<ListItemInfo>
    requires n <= |lines|
  {
    if n == 0 then [] else
      OpenItems(lines, n - 1) + if StaysOpen(lines, n - 1) then [ItemOf(lines[n - 1])] else []
  }

  /** The items whose content does not start right of `indent`. */
  function Within(items: seq<ListItemInfo>, indent: nat): seq<ListItemInfo> {
    if items == [] then [] else
      var last := items[|items| - 1];
      Within(items[..|items| - 1], indent) + if last.contentIndent <= indent then [last] else []
  }

  lemma WithinOneMore(items: seq<ListItemInfo>, item: ListItemInfo, indent: nat)
    ensures Within(items + [item], indent) ==
            Within(items, indent) + if item.contentIndent <= indent then [item] else []
  {
    assert (items + [item])[..|items|] == items;
  }

  lemma {:induction false} AllWithin(stack: seq<ListItemInfo>, indent: nat)
    requires forall i :: 0 <= i < |stack| ==> stack[i].contentIndent <= indent
    ensures Within(stack, indent) == stack
  {
    if stack != [] {
      AllWithin(stack[..|stack| - 1], indent);
    }
  }

  predicate Widening(stack: seq<ListItemInfo>) {
    forall i, j :: 0 <= i < j < |stack| ==> stack[i].contentIndent < stack[j].contentIndent
  }

  lemma {:induction false} NestedWidens(stack: seq<ListItemInfo>)
    requires WellNested(stack)
    ensures Widening(stack)
  {
    hide ReadItem;
    if stack != [] {
      var n := |stack| - 1;
      NestedWidens(stack[..n]);
      assert ReadItem(stack[n]);
      MarkerIsLeft(stack[n]);
      forall i | 0 <= i < n
        ensures stack[i].contentIndent < stack[n].contentIndent
      {
        assert stack[n - 1].contentIndent <= stack[n].markerIndent;
        assert stack[..n][i] == stack[i] && stack[..n][n - 1] == stack[n - 1];
      }
    }
  }

  /** Popping from the inside leaves exactly the items that are not too far right. */
  lemma {:induction false} PopToIsWithin(stack: seq<ListItemInfo>, indent: nat)
    requires Widening(stack)
    ensures PopTo(stack, indent) == Within(stack, indent)
  {
    if stack != [] {
      var n := |stack| - 1;
      if indent < stack[n].contentIndent {
        PopToIsWithin(stack[..n], indent);
        assert Within(stack, indent) == Within(stack[..n], indent);
      } else {
        AllWithin(stack, indent);
      }
    }
  }

  /** What line `n` does to items opened before it. */
  function Survivors(lines: seq<string>, n: nat, items: seq<ListItemInfo>): seq<ListItemInfo>
    requires n < |lines|
  {
    if EndsList(lines, n) then []
    else if Prose(lines, n) && !IsEmptyLine(lines[n]) then Within(items, Indentation(lines[n]))
    else items
  }

  lemma ClosesPrefix(lines: seq<string>, n: nat, j: nat, content: nat)
    requires j < n <= |lines|
    ensures Closes(lines[..n], j, content) <==> Closes(lines, j, content)
  {
    hide Prose, IsEmptyLine, Indentation;
    ProsePrefix(lines, n, j);
    if j > 0 {
      ProsePrefix(lines, n, j - 1);
    }
  }

  lemma StaysOpenPrefix(lines: seq<string>, i: nat)
    requires i + 1 < |lines|
    ensures var n := |lines| - 1;
            StaysOpen(lines, i) <==>
              StaysOpen(lines[..n], i) && !Closes(lines, n, ItemOf(lines[i]).contentIndent)
  {
    hide Prose, Closes, IsListItem, ItemOf;
    var n := |lines| - 1;
    var content := ItemOf(lines[i]).contentIndent;
    ProsePrefix(lines, n, i);
    forall j: nat | i < j < n
      ensures Closes(lines[..n], j, content) <==> Closes(lines, j, content)
    {
      ClosesPrefix(lines, n, j, content);
    }
  }

  lemma {:induction false} ItemsSurvive(lines: seq<string>, k: nat)
    requires k < |lines|
    ensures var n := |lines| - 1;
            OpenItems(lines, k) == Survivors(lines, n, OpenItems(lines[..n], k))
  {
    hide Prose, IsListItem, ItemOf, EndsList, IsEmptyLine, Indentation, StaysOpen;
    if k > 0 {
      var n := |lines| - 1;
      ItemsSurvive(lines, k - 1);
      StaysOpenPrefix(lines, k - 1);
      var before := OpenItems(lines[..n], k - 1);
      var item := ItemOf(lines[k - 1]);
      assert lines[..n][k - 1] == lines[k - 1] && before + [] == before;
      WithinOneMore(before, item, Indentation(lines[n]));
    }
  }

  /** OPEN ITEMS. The stack holds, in order, exactly the list items outside code blocks that
      nothing behind them has closed: no two blank lines in a row, and no other line of prose
      indented less than their content. */
  lemma {:induction false} StackIsOpenItems(lines: seq<string>)
    ensures ReadLines(FRESH, lines).stack == OpenItems(lines, |lines|)
  {
    hide IsCodeBlockMarker, IsEmptyLine, IsListItem, PopTo, Indentation, ItemOf, OpenItems, Prose, ReadLines,
        WellNested, Within, Step;
    if lines == [] {
      NoneOpen(lines);
    } else {
      var n := |lines| - 1;
      var r := ReadLines(FRESH, lines[..n]);
      StackIsOpenItems(lines[..n]);
      LastLine(lines);
      ReadLinesReadable(lines[..n]);
      BlankBefore(lines);
      ItemsSurvive(lines, n);
      OneMoreOpen(lines);
      NestedWidens(r.stack);
      PopToIsWithin(r.stack, Indentation(lines[n]));
      ItemIsNotEmpty(lines[n]);
      LineChangesStack(r, lines[n]);
      assert OpenItems(lines, n) + [] == OpenItems(lines, n);
    }
  }

  /** What one line does to the stack. */
  lemma LineChangesStack(r: Reader, line: string)
    requires Readable(r)
    ensures var next := Step(r, line);
            next.stack ==
              if IsCodeBlockMarker(line) || r.inCode then r.stack
              else if IsEmptyLine(line) then if r.lastEmpty then [] else r.stack
              else PopTo(r.stack, Indentation(line)) + if IsListItem(line) then [ItemOf(line)] else []
  {
    hide IsCodeBlockMarker, IsEmptyLine, IsListItem, HeadingLevel, WithItem, PopTo, Indentation, ItemOf, WellNested;
    ItemIsAlwaysPushed(r.stack, line);
  }

  lemma NoneOpen(lines: seq<string>)
    requires lines == []
    ensures ReadLines(FRESH, lines).stack == [] && OpenItems(lines, |lines|) == []
  {
  }

  lemma OneMoreOpen(lines: seq<string>)
    requires lines != []
    ensures var n := |lines| - 1;
            OpenItems(lines, |lines|) == OpenItems(lines, n) + if Opens(lines, n) then [ItemOf(lines[n])] else []
  {
    hide Prose, IsListItem, ItemOf, Closes;
  }

  /** The last line ends the list exactly when it is blank and the one before it was, too. */
  lemma BlankBefore(lines: seq<string>)
    requires lines != []
    ensures var n := |lines| - 1;
            EndsList(lines, n) <==> BlankAt(lines, n) && ReadLines(FRESH, lines[..n]).lastEmpty
  {
    hide Prose, IsEmptyLine, ReadLines;
    var n := |lines| - 1;
    BlankIsLast(lines[..n]);
    if n > 0 {
      ProsePrefix(lines, n, n - 1);
    }
  }

  lemma ItemIsNotEmpty(line: string)
    ensures IsListItem(line) ==> !IsEmptyLine(line)
  {
  }

  // ----- a closed fence -----

  lemma {:induction false} ReadCode(r: Reader, code: seq<string>)
    requires r.inCode && forall i :: 0 <= i < |code| ==> !IsCodeBlockMarker(code[i])
    ensures ReadLines(r, code) == if code == [] then r else r.(emptyLines := 0, lastEmpty := false)
  {
    hide IsCodeBlockMarker;
    if code != [] {
      ReadCode(r, code[..|code| - 1]);
    }
  }

  /** A code block, whatever is in it, leaves nothing behind but the end of a run of blank lines. */
  lemma ClosedBlock(r: Reader, open: string, code: seq<string>, close: string)
    requires !r.inCode && IsCodeBlockMarker(open) && IsCodeBlockMarker(close)
    requires forall i :: 0 <= i < |code| ==> !IsCodeBlockMarker(code[i])
    ensures ReadLines(r, [open] + code + [close]) == r.(emptyLines := 0, lastEmpty := false)
  {
    hide IsCodeBlockMarker;
    var lines := [open] + code + [close];
    assert lines[..|lines| - 1] == [open] + code && [open][..0] == [];
    ReadConcat(r, [open], code);
    assert ReadLines(r, [open]) == Step(r, open);
    ReadCode(Step(r, open), code);
  }

  /** A line that starts with a letter is plain text. */
  lemma Letter(line: string)
    requires line != "" && 'a' <= line[0] <= 'z'
    ensures !IsCodeBlockMarker(line) && !IsEmptyLine(line) && !IsListItem(line) && HeadingLevel(line) == 0
  {
    RunIs("", line, IsSpace);
    RunIs("", line, IsHash);
    RunIs("", line, IsDigit);
    assert "" + line == line;
    assert Body(line) == line && "```"[0] == '`';
    LetterStartsNoMarker(line);
  }

  lemma LetterStartsNoMarker(body: string)
    requires body != "" && 'a' <= body[0] <= 'z' && Run(body, IsDigit) == 0
    ensures MarkerOf(body) == NoMarker
  {
    hide Run;
  }

  lemma Backquotes()
    ensures IsCodeBlockMarker("```")
  {
    RunIs("", "```", IsSpace);
    assert "" + "```" == "```";
  }

  /** Text behind a closed block is prose again. */
  lemma BlockIsClosed()
    ensures var r := ReadLines(FRESH, ["```", "code", "```", "text"]);
            !r.inCode && r.heading == 0 && r.stack == []
  {
    hide IsCodeBlockMarker, IsEmptyLine, IsListItem, HeadingLevel, ReadLines, Indentation;
    var lines := ["```", "code", "```", "text"];
    Backquotes();
    Letter("code");
    Letter("text");
    assert ["```"] + ["code"] + ["```"] == lines[..3];
    ClosedBlock(FRESH, "```", ["code"], "```");
    LastLine(lines);
    assert PopTo([], Indentation("text")) == [];
  }
}
