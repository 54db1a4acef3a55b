/** Unpoison tokens: printing the codes of a poisoned session, finding and parsing the
    token in a command, and what parsing acknowledges. */
module UnpoisonToken {
  import opened Wrappers
  import opened Collections
  import opened Text

  const PREFIX := "SESS"
  const TOKEN_START := "SESS:"
  const ENV_VAR_ASSIGNMENT := "KLACK="
  const COMMENT_START := "# SESS:"

  // ----- strings -----

  /** Where `pattern` first occurs in `text`. */
  function IndexOf(text: string, pattern: string): (r: Option<nat>)
    ensures r.Some? ==> r.value <= |text| && pattern <= text[r.value..]
    ensures r.Some? ==> forall i :: 0 <= i < r.value ==> !(pattern <= text[i..])
    ensures r.None? ==> forall i :: 0 <= i <= |text| ==> !(pattern <= text[i..])
  {
    if pattern <= text then
      assert text[0..] == text;
      Some(0)
    else if text == "" then
      None
    else
      var r := IndexOf(text[1..], pattern);
      assert forall i :: 1 <= i <= |text| ==> text[1..][i - 1..] == text[i..];
      assert text[0..] == text;
      assert r.None? ==> forall i :: 1 <= i <= |text| ==>
                text[1..][i - 1..] == text[i..] && !(pattern <= text[1..][i - 1..]);
      assert r.Some? ==> forall i :: 1 <= i < r.value + 1 ==>
                text[1..][i - 1..] == text[i..] && !(pattern <= text[1..][i - 1..]);
      if r.None? then None else Some(1 + r.value)
  }

  predicate Contains(text: string, pattern: string) {
    IndexOf(text, pattern).Some?
  }

  /** Unicode white space. */
  predicate IsWhite(c: char) {
    IsSpace(c) || c == '\U{85}' || c == '\U{A0}' || c == '\U{1680}' || '\U{2000}' <= c <= '\U{200A}' ||
    c == '\U{2028}' || c == '\U{2029}' || c == '\U{202F}' || c == '\U{205F}' || c == '\U{3000}'
  }

  function TrimRight(s: string): string {
    if s != "" && IsWhite(s[|s| - 1]) then TrimRight(s[..|s| - 1]) else s
  }

  function TrimSpace(s: string): string {
    TrimRight(s[Run(s, IsWhite)..])
  }

  predicate Trimmed(s: string) {
    s != "" ==> !IsWhite(s[0]) && !IsWhite(s[|s| - 1])
  }

  lemma TrimTrimmed(s: string)
    requires Trimmed(s)
    ensures TrimSpace(s) == s
  {
  }

  lemma {:induction false} TrimRightPadded(t: string, b: string)
    requires All(b, IsWhite) && (t == "" || !IsWhite(t[|t| - 1]))
    ensures TrimRight(t + b) == t
  {
    hide IsWhite;
    if b == "" {
      assert t + b == t;
    } else {
      assert (t + b)[..|t + b| - 1] == t + b[..|b| - 1];
      TrimRightPadded(t, b[..|b| - 1]);
    }
  }

  /** White space around a text is dropped, and nothing else. */
  lemma TrimPadded(a: string, t: string, b: string)
    requires All(a, IsWhite) && All(b, IsWhite) && Trimmed(t)
    ensures TrimSpace(a + t + b) == t
  {
    hide IsWhite, TrimRight, Run;
    var s := a + t + b;
    if t == "" {
      RunIff(s, IsWhite, |s|);
      assert s[..|s|] == s && s[|s|..] == "" + "";
      TrimRightPadded("", "");
    } else {
      assert s == a + (t + b);
      RunIs(a, t + b, IsWhite);
      assert s[|a|..] == t + b;
      TrimRightPadded(t, b);
    }
  }

  lemma {:induction false} TrimRightIs(s: string) returns (b: string)
    ensures s == TrimRight(s) + b && All(b, IsWhite)
    ensures TrimRight(s) != "" ==> !IsWhite(TrimRight(s)[|TrimRight(s)| - 1])
  {
    hide IsWhite;
    b := "";
    if s != "" && IsWhite(s[|s| - 1]) {
      var rest := TrimRightIs(s[..|s| - 1]);
      b := rest + [s[|s| - 1]];
      assert s == s[..|s| - 1] + [s[|s| - 1]];
    }
  }

  /** Every text is its trimmed form with white space around it. */
  lemma TrimIs(s: string) returns (a: string, b: string)
    ensures s == a + TrimSpace(s) + b && All(a, IsWhite) && All(b, IsWhite) && Trimmed(TrimSpace(s))
  {
    hide IsWhite, TrimRight, Run;
    var k := Run(s, IsWhite);
    var rest := s[k..];
    a := s[..k];
    b := TrimRightIs(rest);
    assert s == a + rest;
    if TrimSpace(s) != "" {
      assert s[k] == rest[0] == TrimSpace(s)[0];
    }
  }

  predicate NotComma(c: char) {
    c != ','
  }

  predicate NotColon(c: char) {
    c != ':'
  }

  predicate NotBlank(c: char) {
    c != ' ' && c != '\t' && c != '\n'
  }

  function SplitCommas(s: string): (pieces: seq<string>)
    ensures |pieces| >= 1
    decreases |s|
  {
    var k := Run(s, NotComma);
    if k == |s| then [s] else [s[..k]] + SplitCommas(s[k + 1..])
  }

  function JoinCommas(codes: seq<string>): string {
    if codes == [] then ""
    else if |codes| == 1 then codes[0]
    else codes[0] + "," + JoinCommas(codes[1..])
  }

  lemma SplitAtComma(s: string)
    ensures var k := Run(s, NotComma);
            && (k == |s| ==> SplitCommas(s) == [s])
            && (k < |s| ==> SplitCommas(s) == [s[..k]] + SplitCommas(s[k + 1..]))
  {
    hide Run;
  }

  lemma JoinFirst(first: string, rest: seq<string>)
    ensures JoinCommas([first]) == first
    ensures rest != [] ==> JoinCommas([first] + rest) == first + "," + JoinCommas(rest)
  {
    assert ([first] + rest)[1..] == rest;
  }

  /** The pieces have no commas, and joined with commas they are the text. */
  lemma {:induction false} SplitCommasIs(s: string)
    ensures JoinCommas(SplitCommas(s)) == s
    ensures forall i :: 0 <= i < |SplitCommas(s)| ==> All(SplitCommas(s)[i], NotComma)
    decreases |s|
  {
    hide SplitCommas, JoinCommas, Run;
    var k := Run(s, NotComma);
    SplitAtComma(s);
    if k < |s| {
      SplitCommasIs(s[k + 1..]);
      JoinFirst(s[..k], SplitCommas(s[k + 1..]));
      assert s == s[..k] + "," + s[k + 1..];
    } else {
      JoinFirst(s, []);
      assert s[..k] == s;
    }
  }

  // ----- tokens -----

  /** Two to ten upper-case letters, then one to five digits. */
  predicate IsErrorCode(code: string) {
    var letters := Run(code, IsUpper);
    2 <= letters <= 10 && 1 <= |code| - letters <= 5 && All(code[letters..], IsDigit)
  }

  lemma ErrorCodeIff(code: string)
    ensures IsErrorCode(code) <==>
              exists n: nat :: 2 <= n <= 10 && 1 <= |code| - n <= 5
                               && All(code[..n], IsUpper) && All(code[n..], IsDigit)
  {
    if n: nat :| 2 <= n <= 10 && 1 <= |code| - n <= 5 && All(code[..n], IsUpper) && All(code[n..], IsDigit) {
      assert IsDigit(code[n..][0]) && code[n..][0] == code[n];
      RunIff(code, IsUpper, n);
    }
  }

  datatype TokenError = TokenNotFound | InvalidToken | InvalidCode | EmptyCommand | ParseFailed

  datatype Token = Token(codes: seq<string>, raw: string)

  /** The pieces that are not blank, trimmed; nothing if one of them is no error code. */
  function ValidCodes(pieces: seq<string>): Option<seq<string>> {
    if pieces == [] then Some([]) else
      var rest := ValidCodes(pieces[..|pieces| - 1]);
      var code := TrimSpace(pieces[|pieces| - 1]);
      if rest.None? then None
      else if code == "" then rest
      else if IsErrorCode(code) then Some(rest.value + [code])
      else None
  }

  predicate Blank(piece: string) {
    TrimSpace(piece) == ""
  }

  /** A piece that is neither blank nor an error code with white space around it. */
  predicate Rejected(piece: string) {
    TrimSpace(piece) != "" && !IsErrorCode(TrimSpace(piece))
  }

  lemma ValidCodesNext(pieces: seq<string>, n: nat)
    requires n < |pieces|
    ensures var (before, after) := (ValidCodes(pieces[..n]), ValidCodes(pieces[..n + 1]));
            && (after.None? <==> before.None? || Rejected(pieces[n]))
            && (after.Some? ==>
                  after.value == before.value + if Blank(pieces[n]) then [] else [TrimSpace(pieces[n])])
  {
    hide TrimSpace, IsErrorCode;
    assert pieces[..n + 1][..n] == pieces[..n];
  }

  lemma NoPieces()
    ensures ValidCodes([]) == Some([])
  {
  }

  /** There are no codes exactly when a piece is rejected. */
  lemma {:induction false} RejectedIff(pieces: seq<string>, n: nat)
    requires n <= |pieces|
    ensures ValidCodes(pieces[..n]).None? <==> exists i :: 0 <= i < n && Rejected(pieces[i])
  {
    hide ValidCodes, Rejected;
    NoPieces();
    if n > 0 {
      RejectedIff(pieces, n - 1);
      ValidCodesNext(pieces, n - 1);
    }
  }

  /** The codes of the first `n` pieces are those that are not blank, trimmed, in order. */
  lemma {:induction false} ValidCodesPick(pieces: seq<string>, n: nat) returns (at: seq<nat>)
    requires n <= |pieces| && ValidCodes(pieces[..n]).Some?
    ensures var codes := ValidCodes(pieces[..n]).value;
            && Increasing(at, n) && |at| == |codes|
            && (forall i: nat {:trigger i in at} :: i < n ==> (i in at <==> !Blank(pieces[i])))
            && (forall k :: 0 <= k < |at| ==> at[k] < n && codes[k] == TrimSpace(pieces[at[k]]))
  {
    hide TrimSpace, ValidCodes, Blank, Increasing, TakenToo;
    NoPieces();
    NoIndexes();
    at := [];
    if n > 0 {
      ValidCodesNext(pieces, n - 1);
      var before := ValidCodesPick(pieces, n - 1);
      IncreasingOneMore(before, n - 1, !Blank(pieces[n - 1]));
      at := TakenToo(before, n - 1, !Blank(pieces[n - 1]));
    }
  }

  function ParsedCodes(codesStr: string): Option<seq<string>> {
    ValidCodes(SplitCommas(codesStr))
  }

  function Parsed(raw: string): Result<Token, TokenError> {
    var raw := TrimSpace(raw);
    var colon := Run(raw, NotColon);
    if colon == |raw| || raw[..colon] != PREFIX || raw[colon + 1..] == "" then
      Err(InvalidToken)
    else
      var codes := ParsedCodes(raw[colon + 1..]);
      if codes.None? then Err(InvalidCode)
      else if codes.value == [] then Err(InvalidToken)
      else Ok(Token(codes.value, raw))
  }

  /** The pieces between the commas behind the prefix. */
  function Pieces(raw: string): seq<string>
    requires "SESS:" <= TrimSpace(raw)
  {
    SplitCommas(TrimSpace(raw)[5..])
  }

  /** EXACT. A token is "SESS:" and pieces between commas, none rejected and not all blank. */
  lemma ParsedIff(raw: string)
    ensures Parsed(raw).Ok? <==>
              && "SESS:" <= TrimSpace(raw)
              && (forall p :: p in Pieces(raw) ==> !Rejected(p)) && (exists p :: p in Pieces(raw) && !Blank(p))
    ensures Parsed(raw).Ok? ==> Parsed(raw).value.raw == TrimSpace(raw)
    ensures Parsed(raw).Ok? ==> ValidCodes(Pieces(raw)) == Some(Parsed(raw).value.codes)
    ensures Parsed(raw) == Err(InvalidCode) <==>
              "SESS:" <= TrimSpace(raw) && exists p :: p in Pieces(raw) && Rejected(p)
    ensures Parsed(raw).Err? ==> Parsed(raw).error in {InvalidCode, InvalidToken}
  {
    hide TrimSpace, IsErrorCode, SplitCommas, ValidCodes, Rejected;
    var t := TrimSpace(raw);
    PrefixIff(t);
    if "SESS:" <= t {
      CodesOfPieces(Pieces(raw));
      if t[5..] == "" {
        EmptyPieces();
      }
    }
  }

  lemma CodesOfPieces(pieces: seq<string>)
    ensures ValidCodes(pieces).None? <==> exists p :: p in pieces && Rejected(p)
    ensures ValidCodes(pieces).Some? ==>
              (ValidCodes(pieces).value != [] <==> exists p :: p in pieces && !Blank(p))
  {
    hide TrimSpace, ValidCodes, Rejected;
    assert pieces[..|pieces|] == pieces;
    RejectedIff(pieces, |pieces|);
    if ValidCodes(pieces).Some? {
      var at := ValidCodesPick(pieces, |pieces|);
      if p :| p in pieces && !Blank(p) {
        var i :| 0 <= i < |pieces| && pieces[i] == p;
        assert i in at;
      }
      if at != [] {
        assert at[0] in at && pieces[at[0]] in pieces;
      }
    }
  }

  lemma PrefixIff(t: string)
    ensures var colon := Run(t, NotColon);
            "SESS:" <= t <==> colon < |t| && t[..colon] == "SESS"
    ensures "SESS:" <= t ==> Run(t, NotColon) == 4
  {
    hide Run;
    if "SESS:" <= t {
      assert t[..4] == "SESS" && t[4] == ':';
      RunIff(t, NotColon, 4);
    }
    var colon := Run(t, NotColon);
    assert colon < |t| ==> t[colon] == ':';
  }

  lemma EmptyPieces()
    ensures SplitCommas("") == [""] && !Rejected("") && TrimSpace("") == ""
  {
  }

  method ParseToken(raw: string) returns (r: Result<Token, TokenError>)
    ensures r == Parsed(raw)
  {
    var trimmed := TrimSpace(raw);
    if trimmed == "" {
      return Err(InvalidToken);
    }
    var colon := Run(trimmed, NotColon);
    if colon == |trimmed| {
      return Err(InvalidToken);
    }
    if trimmed[..colon] != PREFIX {
      return Err(InvalidToken);
    }
    var codesStr := trimmed[colon + 1..];
    if codesStr == "" {
      return Err(InvalidToken);
    }
    var pieces := SplitCommas(codesStr);
    var validCodes: seq<string> := [];
    for i := 0 to |pieces|
      invariant ValidCodes(pieces[..i]) == Some(validCodes)
    {
      assert pieces[..i + 1][..i] == pieces[..i];
      var code := TrimSpace(pieces[i]);
      if code == "" {
        continue;
      }
      if !IsErrorCode(code) {
        InvalidStays(pieces, i + 1);
        return Err(InvalidCode);
      }
      validCodes := validCodes + [code];
    }
    assert pieces[..|pieces|] == pieces;
    if |validCodes| == 0 {
      return Err(InvalidToken);
    }
    return Ok(Token(validCodes, trimmed));
  }

  lemma {:induction false} InvalidStays(pieces: seq<string>, n: nat)
    requires n <= |pieces| && ValidCodes(pieces[..n]).None?
    ensures ValidCodes(pieces).None?
    decreases |pieces| - n
  {
    if n == |pieces| {
      assert pieces[..n] == pieces;
    } else {
      assert pieces[..n + 1][..n] == pieces[..n];
      InvalidStays(pieces, n + 1);
    }
  }

  /** The token in a comment reaches from the first "SESS:" to the next blank. */
  function ParsedComment(text: string): Result<Token, TokenError> {
    var start := IndexOf(text, TOKEN_START);
    if start.None? then Err(TokenNotFound) else
      var tail := text[start.value..];
      Parsed(tail[..Run(tail, NotBlank)])
  }

  // ----- only error codes come out, and printed ones come back -----

  predicate AllErrorCodes(codes: seq<string>) {
    forall i :: 0 <= i < |codes| ==> IsErrorCode(codes[i])
  }

  lemma {:induction false} ValidCodesAreErrorCodes(pieces: seq<string>)
    ensures var r := ValidCodes(pieces); r.Some? ==> AllErrorCodes(r.value)
  {
    hide IsErrorCode;
    if pieces != [] {
      ValidCodesAreErrorCodes(pieces[..|pieces| - 1]);
    }
  }

  lemma ParsedHasErrorCodes(raw: string)
    ensures var r := Parsed(raw); r.Ok? ==> r.value.codes != [] && AllErrorCodes(r.value.codes)
  {
    hide IsErrorCode, TrimSpace, ValidCodes, SplitCommas;
    var trimmed := TrimSpace(raw);
    var colon := Run(trimmed, NotColon);
    if colon < |trimmed| {
      ValidCodesAreErrorCodes(SplitCommas(trimmed[colon + 1..]));
    }
  }

  predicate IsCodeChar(c: char) {
    IsUpper(c) || IsDigit(c)
  }

  lemma ErrorCodeChars(code: string)
    requires IsErrorCode(code)
    ensures code != "" && All(code, IsCodeChar)
  {
    var letters := Run(code, IsUpper);
    forall i | 0 <= i < |code|
      ensures IsCodeChar(code[i])
    {
      if i < letters {
        assert code[..letters][i] == code[i];
      } else {
        assert code[letters..][i - letters] == code[i];
      }
    }
  }

  lemma CodeCharsAreTrimmed(code: string)
    requires code != "" && All(code, IsCodeChar)
    ensures Trimmed(code) && All(code, NotComma)
  {
    assert IsCodeChar(code[0]) && IsCodeChar(code[|code| - 1]);
  }

  lemma {:induction false} SplitJoinedCodes(codes: seq<string>)
    requires codes != [] && AllErrorCodes(codes)
    ensures SplitCommas(JoinCommas(codes)) == codes
  {
    hide IsErrorCode;
    var first := codes[0];
    assert IsErrorCode(first);
    ErrorCodeChars(first);
    CodeCharsAreTrimmed(first);
    if |codes| == 1 {
      RunIs(first, "", NotComma);
      assert first + "" == first;
    } else {
      var tail := JoinCommas(codes[1..]);
      var s := first + "," + tail;
      SplitJoinedCodes(codes[1..]);
      RunIs(first, "," + tail, NotComma);
      assert s == first + ("," + tail);
      assert s[..|first|] == first && s[|first| + 1..] == tail;
      assert codes == [first] + codes[1..];
    }
  }

  lemma {:induction false} ErrorCodesAreValid(codes: seq<string>)
    requires AllErrorCodes(codes)
    ensures ValidCodes(codes) == Some(codes)
  {
    hide IsErrorCode, TrimSpace;
    if codes != [] {
      var n := |codes| - 1;
      ErrorCodesAreValid(codes[..n]);
      assert IsErrorCode(codes[n]);
      ErrorCodeChars(codes[n]);
      CodeCharsAreTrimmed(codes[n]);
      TrimTrimmed(codes[n]);
      assert codes == codes[..n] + [codes[n]];
    }
  }

  predicate IsTokenChar(c: char) {
    IsCodeChar(c) || c == ',' || c == ':'
  }

  lemma {:induction false} JoinedChars(codes: seq<string>)
    requires codes != [] && AllErrorCodes(codes)
    ensures JoinCommas(codes) != "" && All(JoinCommas(codes), IsTokenChar)
    ensures IsCodeChar(JoinCommas(codes)[|JoinCommas(codes)| - 1])
  {
    hide IsErrorCode;
    assert IsErrorCode(codes[0]);
    ErrorCodeChars(codes[0]);
    if |codes| > 1 {
      JoinedChars(codes[1..]);
    }
  }

  /** The token printed for a list of codes. */
  function TokenFor(codes: seq<string>): string {
    TOKEN_START + JoinCommas(codes)
  }

  lemma TokenShape(codes: seq<string>)
    requires codes != [] && AllErrorCodes(codes)
    ensures Trimmed(TokenFor(codes)) && All(TokenFor(codes), NotBlank)
  {
    hide JoinCommas, AllErrorCodes;
    JoinedChars(codes);
    var joined := JoinCommas(codes);
    var token := TokenFor(codes);
    assert token[|token| - 1] == joined[|joined| - 1];
    forall i | 0 <= i < |token|
      ensures NotBlank(token[i])
    {
      assert i >= 5 ==> token[i] == joined[i - 5] && IsTokenChar(joined[i - 5]);
    }
  }

  /** ROUND TRIP. The printed token parses back to the codes it was printed for, if and
      only if there are some and each is an error code. */
  lemma TokenRoundTrip(codes: seq<string>)
    ensures Parsed(TokenFor(codes)) == Ok(Token(codes, TokenFor(codes))) <==> codes != [] && AllErrorCodes(codes)
  {
    hide IsErrorCode, JoinCommas, SplitCommas, ValidCodes, TrimSpace, AllErrorCodes;
    var token := TokenFor(codes);
    if codes != [] && AllErrorCodes(codes) {
      TokenShape(codes);
      TrimTrimmed(token);
      JoinedChars(codes);
      RunIs(PREFIX, ":" + JoinCommas(codes), NotColon);
      assert token == PREFIX + (":" + JoinCommas(codes));
      assert token[..4] == PREFIX && token[5..] == JoinCommas(codes);
      SplitJoinedCodes(codes);
      ErrorCodesAreValid(codes);
    } else {
      ParsedHasErrorCodes(token);
    }
  }

  /** No occurrence of the marker can run into the marker that follows: no proper end of
      it is one of its beginnings. */
  lemma NoOverlap(before: string, tail: string, i: nat)
    requires i < |before| && !(TOKEN_START <= before[i..])
    ensures !(TOKEN_START <= (before + (TOKEN_START + tail))[i..])
  {
    var text := before + (TOKEN_START + tail);
    var own := |before| - i;
    if own >= 5 {
      assert text[i..][..5] == before[i..][..5];
    } else {
      assert text[i..][own] == 'S' && text[i..][own + 1] == 'E';
      assert TOKEN_START[1] == 'E' && TOKEN_START[3] == 'S' && TOKEN_START[4] == ':';
    }
  }

  lemma NoEarlierToken(before: string, tail: string)
    requires IndexOf(before, TOKEN_START).None?
    ensures IndexOf(before + (TOKEN_START + tail), TOKEN_START) == Some(|before|)
  {
    hide IndexOf;
    var text := before + (TOKEN_START + tail);
    assert text[|before|..] == TOKEN_START + tail;
    forall i | 0 <= i < |before|
      ensures !(TOKEN_START <= text[i..])
    {
      NoOverlap(before, tail, i);
    }
  }

  /** Embedded after any text without a token start and ended by a blank or the end of the
      comment, the printed token is found and parses back. */
  lemma CommentRoundTrip(before: string, codes: seq<string>, rest: string)
    requires codes != [] && AllErrorCodes(codes)
    requires IndexOf(before, TOKEN_START).None?
    requires rest == "" || !NotBlank(rest[0])
    ensures ParsedComment(before + TokenFor(codes) + rest) == Ok(Token(codes, TokenFor(codes)))
  {
    hide IsErrorCode, JoinCommas, AllErrorCodes, Parsed, IndexOf;
    var token := TokenFor(codes);
    var text := before + token + rest;
    assert text == before + (TOKEN_START + (JoinCommas(codes) + rest));
    NoEarlierToken(before, JoinCommas(codes) + rest);
    var tail := text[|before|..];
    assert tail == token + rest;
    TokenShape(codes);
    RunIs(token, rest, NotBlank);
    assert tail[..|token|] == token;
    TokenRoundTrip(codes);
  }
}
