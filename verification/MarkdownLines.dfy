/** Classifiers for one markdown line. The regular expressions of the source are
    written out over the characters of the line. */
module MarkdownLines {
  import opened Text

  const MAX_HEADING_LEVEL := 6
  const MAX_INT64 := 0x7FFF_FFFF_FFFF_FFFF

  predicate IsIndentChar(c: char) {
    c == ' ' || c == '\t'
  }

  predicate IsHash(c: char) {
    c == '#'
  }

  predicate IsBullet(c: char) {
    c == '-' || c == '*' || c == '+'
  }

  /** What follows the leading white space. */
  function Body(line: string): string {
    line[Run(line, IsSpace)..]
  }

  predicate IsCodeBlockMarker(line: string) {
    "```" <= Body(line)
  }

  predicate IsEmptyLine(line: string) {
    Body(line) == ""
  }

  predicate IsHeader(line: string) {
    var h := Run(line, IsHash);
    1 <= h <= MAX_HEADING_LEVEL && h < |line| && IsSpace(line[h])
  }

  function HeadingLevel(line: string): (level: nat)
    ensures level <= MAX_HEADING_LEVEL
  {
    if IsHeader(line) then Run(line, IsHash) else 0
  }

  function Indentation(line: string): nat {
    Run(line, IsIndentChar)
  }

  datatype ListMarker = NoMarker | Bullet(c: char) | Number(digits: string) {
    predicate WellFormed() {
      match this
      case NoMarker => false
      case Bullet(c) => IsBullet(c)
      case Number(digits) => digits != "" && All(digits, IsDigit)
    }

    function Text(): string {
      match this
      case NoMarker => ""
      case Bullet(c) => [c]
      case Number(digits) => digits + "."
    }
  }

  /** The list marker at the start of the body: a bullet or digits and a dot,
      then one white space character. */
  function MarkerOf(body: string): (m: ListMarker)
    ensures m != NoMarker ==> m.WellFormed() && m.Text() <= body
  {
    var d := Run(body, IsDigit);
    if 0 < d && d + 1 < |body| && body[d] == '.' && IsSpace(body[d + 1]) then
      assert body[..d] + "." <= body;
      Number(body[..d])
    else if |body| > 1 && IsBullet(body[0]) && IsSpace(body[1]) then
      Bullet(body[0])
    else
      NoMarker
  }

  function ParseMarker(line: string): ListMarker {
    MarkerOf(Body(line))
  }

  predicate IsListItem(line: string) {
    ParseMarker(line) != NoMarker
  }

  /** The column at which the content of a list item starts. */
  function ListIndent(line: string): nat {
    if IsListItem(line) then Run(line, IsSpace) + |ParseMarker(line).Text()| + 1 else 0
  }

  /** Scanning "%d" into a 64-bit integer leaves zero behind when it overflows. */
  function ScanInt(digits: string): nat
    requires All(digits, IsDigit)
  {
    var v := DecimalValue(digits);
    if v <= MAX_INT64 then v else 0
  }

  function OrderNumber(m: ListMarker): nat
    requires m.Number? ==> All(m.digits, IsDigit)
  {
    if m.Number? then ScanInt(m.digits) else 0
  }

  lemma {:induction false} IndentationWithinSpaces(line: string)
    ensures Indentation(line) <= Run(line, IsSpace)
  {
    if line != "" && IsIndentChar(line[0]) {
      IndentationWithinSpaces(line[1..]);
    }
  }

  // ----- what each classifier accepts -----

  lemma EmptyLineIff(line: string)
    ensures IsEmptyLine(line) <==> All(line, IsSpace)
  {
    RunIff(line, IsSpace, |line|);
    assert line[..|line|] == line;
  }

  /** A fence is three backquotes behind nothing but white space. */
  lemma CodeBlockMarkerIff(line: string)
    ensures IsCodeBlockMarker(line) <==> exists k: nat :: FencedAt(line, k)
  {
    hide Run;
    if k: nat :| FencedAt(line, k) {
      assert line[k] == line[k..][0] && "```"[0] == '`';
      RunIff(line, IsSpace, k);
    }
    if IsCodeBlockMarker(line) {
      assert FencedAt(line, Run(line, IsSpace));
    }
  }

  predicate FencedAt(line: string, k: nat) {
    k <= |line| && All(line[..k], IsSpace) && "```" <= line[k..]
  }

  /** A heading is one to six hashes in the first columns and a white space character. */
  lemma HeadingIff(line: string, level: nat)
    requires level > 0
    ensures HeadingLevel(line) == level <==>
              level <= 6 && level < |line| && IsSpace(line[level]) && line[..level] == Repeat('#', level)
  {
    hide Run;
    if level < |line| {
      RunIff(line, IsHash, level);
      if line[..level] == Repeat('#', level) {
        assert forall i :: 0 <= i < level ==> line[..level][i] == Repeat('#', level)[i];
      }
    }
  }

  /** The indent counts the blanks and tabs in front. */
  lemma IndentationIff(line: string, n: nat)
    requires n <= |line|
    ensures Indentation(line) == n <==>
              && (forall i :: 0 <= i < n ==> line[i] == ' ' || line[i] == '\t')
              && (n < |line| ==> line[n] != ' ' && line[n] != '\t')
  {
    RunIff(line, IsIndentChar, n);
    assert forall i :: 0 <= i < n ==> line[..n][i] == line[i];
  }

  /** `line` is white space up to column `k`, then the marker and another white space. */
  predicate MarkedAt(line: string, k: nat, m: ListMarker) {
    && k <= |line| && All(line[..k], IsSpace) && m.Text() <= line[k..]
    && k + |m.Text()| < |line| && IsSpace(line[k + |m.Text()|])
  }

  /** A marker is read exactly where it stands, and its content one column behind it. */
  lemma MarkedAtIsRead(line: string, k: nat, m: ListMarker)
    requires m.WellFormed() && MarkedAt(line, k, m)
    ensures ParseMarker(line) == m && ListIndent(line) == k + |m.Text()| + 1
  {
    hide Run, ListMarker.Text, ListMarker.WellFormed, MarkerOf, IsSpace;
    var body := line[k..];
    MarkerStarts(m);
    assert body[0] == m.Text()[0] && line[k] == body[0];
    RunIff(line, IsSpace, k);
    MarkerInBody(body, m);
  }

  lemma MarkerInBody(body: string, m: ListMarker)
    requires m.WellFormed() && m.Text() <= body && |m.Text()| < |body| && IsSpace(body[|m.Text()|])
    ensures MarkerOf(body) == m
  {
    var n := |m.Text()|;
    assert body[..n] == m.Text();
    match m {
      case Number(digits) =>
        assert body[..n - 1] == digits && body[n - 1] == '.';
        RunIff(body, IsDigit, n - 1);
      case Bullet(c) =>
        assert body[0] == c;
        RunIff(body, IsDigit, 0);
    }
  }

  /** A line is read as a list item with this marker exactly when it is marked so. */
  lemma MarkerIff(line: string, m: ListMarker)
    requires m.WellFormed()
    ensures ParseMarker(line) == m <==> exists k: nat :: MarkedAt(line, k, m)
  {
    hide ListMarker.WellFormed, MarkerOf, MarkedAt;
    if k: nat :| MarkedAt(line, k, m) {
      MarkedAtIsRead(line, k, m);
    }
    if ParseMarker(line) == m {
      ReadIsMarkedAt(line, m);
    }
  }

  lemma ReadIsMarkedAt(line: string, m: ListMarker)
    requires m.WellFormed() && ParseMarker(line) == m
    ensures MarkedAt(line, Run(line, IsSpace), m)
  {
    hide Run, IsSpace;
    var k := Run(line, IsSpace);
    assert line[k..][|m.Text()|] == line[k + |m.Text()|];
  }

  /** A line made of blanks, a marker, a blank and more text is read as exactly
      that marker at exactly that indent, and as nothing else. */
  lemma MarkedLine(indent: nat, m: ListMarker, rest: string)
    requires m.WellFormed()
    ensures var line := Repeat(' ', indent) + m.Text() + " " + rest;
            && ParseMarker(line) == m
            && Indentation(line) == indent
            && ListIndent(line) == indent + |m.Text()| + 1
            && HeadingLevel(line) == 0
            && !IsCodeBlockMarker(line)
            && !IsEmptyLine(line)
  {
    hide Run, ListMarker.Text, ListMarker.WellFormed, MarkerOf, IsSpace;
    var body := m.Text() + " " + rest;
    var blanks := Repeat(' ', indent);
    var line := blanks + m.Text() + " " + rest;
    MarkerStarts(m);
    assert line == blanks + body;
    assert body[0] == m.Text()[0];
    Blanks(indent);
    RunIs(blanks, body, IsSpace);
    RunIs(blanks, body, IsIndentChar);
    assert line[0] == if indent == 0 then body[0] else ' ';
    RunIs("", line, IsHash);
    assert "" + line == line;
    assert Body(line) == body;
    assert "```"[0] == '`';
    MarkerIsRead(m, rest);
  }

  /** A marker starts with neither white space nor a hash nor a backquote. */
  lemma MarkerStarts(m: ListMarker)
    requires m.WellFormed()
    ensures m != NoMarker && m.Text() != ""
    ensures var c := m.Text()[0]; !IsSpace(c) && !IsIndentChar(c) && !IsHash(c) && c != '`'
  {
    if m.Number? {
      assert m.Text()[0] == m.digits[0];
      assert IsDigit(m.digits[0]);
    }
  }

  lemma Blanks(n: nat)
    ensures All(Repeat(' ', n), IsSpace) && All(Repeat(' ', n), IsIndentChar)
  {
  }

  lemma MarkerIsRead(m: ListMarker, rest: string)
    requires m.WellFormed()
    ensures MarkerOf(m.Text() + " " + rest) == m
  {
    var body := m.Text() + " " + rest;
    match m {
      case Number(digits) =>
        assert body == digits + (". " + rest);
        RunIs(digits, ". " + rest, IsDigit);
        assert body[..|digits|] == digits;
      case Bullet(c) =>
        assert body == "" + body;
        RunIs("", body, IsDigit);
    }
  }

  /** Hashes, a blank and text are read as a heading of that level. */
  lemma HeadingLine(level: nat, rest: string)
    requires 1 <= level <= MAX_HEADING_LEVEL
    ensures var line := Repeat('#', level) + " " + rest;
            && HeadingLevel(line) == level
            && !IsCodeBlockMarker(line) && !IsEmptyLine(line) && !IsListItem(line)
  {
    hide Run;
    var line := Repeat('#', level) + " " + rest;
    assert line == Repeat('#', level) + (" " + rest);
    RunIs(Repeat('#', level), " " + rest, IsHash);
    assert line[0] == '#' && line[level] == ' ';
    RunIs("", line, IsSpace);
    RunIs("", line, IsDigit);
    assert "" + line == line;
    assert Body(line) == line;
    assert "```"[0] == '`';
    HashStartsNoMarker(line);
  }

  lemma HashStartsNoMarker(body: string)
    requires body != "" && body[0] == '#' && Run(body, IsDigit) == 0
    ensures MarkerOf(body) == NoMarker
  {
    hide Run;
  }
}
