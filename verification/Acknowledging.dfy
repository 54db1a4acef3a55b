/** Which commands acknowledge the codes of a poisoned session. */
module Acknowledging {
  import opened Wrappers
  import opened Collections
  import opened Text
  import opened UnpoisonToken

  /** What the shell parser finds in a command: the values assigned to KLACK and the
      comments, each in the order of the walk over the syntax tree. */
  datatype Syntax = Unparsable | Parsable(envValues: seq<string>, comments: seq<string>)

  type Shell = string -> Syntax

  datatype Source = EnvVar | Comment

  datatype Search = NotFound | Found(token: Token, source: Source)

  type Parser = string -> Result<Token, TokenError>

  /** The token of the first text that has one. */
  function FirstToken(texts: seq<string>, parse: Parser): Option<Token> {
    if texts == [] then None
    else if parse(texts[0]).Ok? then Some(parse(texts[0]).value)
    else FirstToken(texts[1..], parse)
  }

  lemma {:induction false} FirstTokenIs(texts: seq<string>, parse: Parser, n: nat)
    requires n < |texts| && parse(texts[n]).Ok?
    requires forall i :: 0 <= i < n ==> parse(texts[i]).Err?
    ensures FirstToken(texts, parse) == Some(parse(texts[n]).value)
  {
    if n > 0 {
      assert parse(texts[0]).Err?;
      forall i | 0 <= i < n - 1
        ensures parse(texts[1..][i]).Err?
      {
        assert texts[1..][i] == texts[i + 1];
      }
      FirstTokenIs(texts[1..], parse, n - 1);
    }
  }

  lemma {:induction false} NoTokenAtAll(texts: seq<string>, parse: Parser)
    requires forall i :: 0 <= i < |texts| ==> parse(texts[i]).Err?
    ensures FirstToken(texts, parse) == None
  {
    if texts != [] {
      assert parse(texts[0]).Err?;
      forall i | 0 <= i < |texts| - 1
        ensures parse(texts[1..][i]).Err?
      {
        assert texts[1..][i] == texts[i + 1];
      }
      NoTokenAtAll(texts[1..], parse);
    }
  }

  /** Environment assignments first, then comments. */
  function Parse(shell: Shell, command: string): Result<Search, TokenError> {
    var command := TrimSpace(command);
    if command == "" then Err(EmptyCommand) else
      var syntax := shell(command);
      if syntax.Unparsable? then Err(ParseFailed) else
        var env := FirstToken(syntax.envValues, Parsed);
        if env.Some? then Ok(Found(env.value, EnvVar)) else
          var comment := FirstToken(syntax.comments, ParsedComment);
          if comment.Some? then Ok(Found(comment.value, Comment)) else Ok(NotFound)
  }

  datatype Ack = Ack(acknowledged: bool, unacknowledged: seq<string>, source: Source)

  predicate IsNamed(code: string, named: seq<string>) {
    code in named
  }

  /** The poison codes the token does not name. */
  function Unnamed(poisonCodes: seq<string>, named: seq<string>): seq<string> {
    if poisonCodes == [] then [] else
      var c := poisonCodes[|poisonCodes| - 1];
      Unnamed(poisonCodes[..|poisonCodes| - 1], named) + if IsNamed(c, named) then [] else [c]
  }

  function Acknowledgment(shell: Shell, command: string, poisonCodes: seq<string>): Result<Ack, TokenError> {
    if poisonCodes == [] then Ok(Ack(true, [], EnvVar)) else
      match Parse(shell, command)
      case Err(e) => Err(e)
      case Ok(NotFound) => Ok(Ack(false, poisonCodes, EnvVar))
      case Ok(Found(token, source)) =>
        var unnamed := Unnamed(poisonCodes, token.codes);
        Ok(Ack(unnamed == [], unnamed, source))
  }

  method CheckUnpoisonAcknowledgmentFull(shell: Shell, command: string, poisonCodes: seq<string>)
    returns (r: Result<Ack, TokenError>)
    ensures r == Acknowledgment(shell, command, poisonCodes)
  {
    if |poisonCodes| == 0 {
      return Ok(Ack(true, [], EnvVar));
    }
    var search := Parse(shell, command);
    if search.Err? {
      return Err(search.error);
    }
    if search.value.NotFound? {
      return Ok(Ack(false, poisonCodes, EnvVar));
    }

    var acked: set<string> := {};
    var named := search.value.token.codes;
    for i := 0 to |named|
      invariant acked == set c | c in named[..i]
    {
      assert named[..i + 1] == named[..i] + [named[i]];
      acked := acked + {named[i]};
    }
    assert named[..|named|] == named;

    var unacked: seq<string> := [];
    for i := 0 to |poisonCodes|
      invariant unacked == Unnamed(poisonCodes[..i], named)
    {
      assert poisonCodes[..i + 1][..i] == poisonCodes[..i];
      if poisonCodes[i] !in acked {
        unacked := unacked + [poisonCodes[i]];
      }
    }
    assert poisonCodes[..|poisonCodes|] == poisonCodes;
    return Ok(Ack(|unacked| == 0, unacked, search.value.source));
  }

  /** The command carries a token that names every one of `codes`. */
  predicate Names(shell: Shell, command: string, codes: seq<string>) {
    match Parse(shell, command)
    case Ok(Found(token, _)) => forall c :: c in codes ==> c in token.codes
    case _ => false
  }

  lemma UnnamedLast(poisonCodes: seq<string>, named: seq<string>)
    ensures poisonCodes == [] ==> Unnamed(poisonCodes, named) == []
    ensures poisonCodes != [] ==>
              var c := poisonCodes[|poisonCodes| - 1];
              Unnamed(poisonCodes, named) ==
                Unnamed(poisonCodes[..|poisonCodes| - 1], named) + if IsNamed(c, named) then [] else [c]
  {
  }

  /** The missing codes are those of the poisoning that are not named, in order. */
  lemma {:induction false} UnnamedPick(poisonCodes: seq<string>, named: seq<string>) returns (at: seq<nat>)
    ensures var missing := Unnamed(poisonCodes, named);
            && Increasing(at, |poisonCodes|) && |at| == |missing|
            && (forall i: nat {:trigger i in at} :: i < |poisonCodes| ==>
                  (i in at <==> !IsNamed(poisonCodes[i], named)))
            && (forall k :: 0 <= k < |at| ==> at[k] < |poisonCodes| && missing[k] == poisonCodes[at[k]])
  {
    UnnamedLast(poisonCodes, named);
    hide IsNamed, Increasing, Unnamed, TakenToo;
    NoIndexes();
    at := [];
    if poisonCodes != [] {
      var n := |poisonCodes| - 1;
      var before := UnnamedPick(poisonCodes[..n], named);
      var taken := !IsNamed(poisonCodes[n], named);
      IncreasingOneMore(before, n, taken);
      at := TakenToo(before, n, taken);
    }
  }

  lemma {:induction false} UnnamedIsEmpty(poisonCodes: seq<string>, named: seq<string>)
    ensures Unnamed(poisonCodes, named) == [] <==> forall c :: c in poisonCodes ==> c in named
  {
    if poisonCodes != [] {
      var n := |poisonCodes| - 1;
      UnnamedIsEmpty(poisonCodes[..n], named);
      assert poisonCodes == poisonCodes[..n] + [poisonCodes[n]];
    }
  }

  /** A command acknowledges exactly when there is nothing to acknowledge or its token
      names a superset of the codes. */
  lemma AcknowledgedIffNamed(shell: Shell, command: string, codes: seq<string>)
    ensures var r := Acknowledgment(shell, command, codes);
            r.Ok? && r.value.acknowledged <==> codes == [] || Names(shell, command, codes)
    ensures Acknowledgment(shell, command, codes).Err? <==> codes != [] && Parse(shell, command).Err?
  {
    hide Parse, Unnamed;
    var search := Parse(shell, command);
    if search.Ok? && search.value.Found? {
      UnnamedIsEmpty(codes, search.value.token.codes);
    }
  }

  lemma {:induction false} FirstTokenHasErrorCodes(texts: seq<string>, comments: bool)
    ensures var t := FirstToken(texts, if comments then ParsedComment else Parsed);
            t.Some? ==> AllErrorCodes(t.value.codes)
  {
    hide Parsed, AllErrorCodes, IndexOf;
    if texts != [] {
      FirstTokenHasErrorCodes(texts[1..], comments);
      ParsedHasErrorCodes(texts[0]);
      var start := IndexOf(texts[0], TOKEN_START);
      if start.Some? {
        var tail := texts[0][start.value..];
        ParsedHasErrorCodes(tail[..Run(tail, NotBlank)]);
      }
    }
  }

  /** A code outside the error-code shape can never be acknowledged: no command, however
      the shell reads it, carries a token that names it. */
  lemma OnlyErrorCodesCanBeNamed(shell: Shell, command: string, codes: seq<string>)
    requires Names(shell, command, codes)
    ensures AllErrorCodes(codes)
  {
    hide IsErrorCode, Parsed, ParsedComment, TrimSpace, FirstToken;
    var syntax := shell(TrimSpace(command));
    FirstTokenHasErrorCodes(syntax.envValues, false);
    FirstTokenHasErrorCodes(syntax.comments, true);
    var token := Parse(shell, command).value.token;
    forall i | 0 <= i < |codes|
      ensures IsErrorCode(codes[i])
    {
      assert codes[i] in token.codes;
    }
  }

  /** What a command whose token does not name all the codes is told is missing: the codes that
      it does not name, or all of them when there is no token. */
  lemma MissingCodes(shell: Shell, command: string, codes: seq<string>, c: string)
    requires codes != [] && Parse(shell, command).Ok?
    ensures var r := Acknowledgment(shell, command, codes);
            var search := Parse(shell, command).value;
            r.Ok? && (c in r.value.unacknowledged <==>
                        c in codes && (search.NotFound? || c !in search.token.codes))
  {
    hide Parse, Unnamed;
    var search := Parse(shell, command).value;
    if search.Found? {
      var missing := Unnamed(codes, search.token.codes);
      var at := UnnamedPick(codes, search.token.codes);
      if c in missing {
        var k :| 0 <= k < |missing| && missing[k] == c;
        assert codes[at[k]] == c && at[k] in at;
      }
      if c in codes && c !in search.token.codes {
        var i :| 0 <= i < |codes| && codes[i] == c;
        assert i in at;
        var k :| 0 <= k < |at| && at[k] == i;
        assert missing[k] == c;
      }
    }
  }

  /** The printed token, assigned to KLACK ahead of any other token, acknowledges the codes. */
  lemma PrintedTokenAcknowledges(shell: Shell, command: string, codes: seq<string>, n: nat)
    requires codes != [] && AllErrorCodes(codes) && TrimSpace(command) != ""
    requires var syntax := shell(TrimSpace(command));
             && syntax.Parsable? && n < |syntax.envValues| && syntax.envValues[n] == TokenFor(codes)
             && forall i :: 0 <= i < n ==> Parsed(syntax.envValues[i]).Err?
    ensures Acknowledgment(shell, command, codes) == Ok(Ack(true, [], EnvVar))
  {
    hide AllErrorCodes, Parsed, TokenFor, TrimSpace, FirstToken, Unnamed, ParsedComment;
    TokenRoundTrip(codes);
    FirstTokenIs(shell(TrimSpace(command)).envValues, Parsed, n);
    UnnamedIsEmpty(codes, codes);
  }

  /** So does a comment that carries it, if no KLACK value and no earlier comment does. */
  lemma PrintedCommentAcknowledges(shell: Shell, command: string, codes: seq<string>, n: nat, before: string,
                                   rest: string)
    requires codes != [] && AllErrorCodes(codes) && TrimSpace(command) != ""
    requires IndexOf(before, TOKEN_START).None? && (rest == "" || !NotBlank(rest[0]))
    requires var syntax := shell(TrimSpace(command));
             && syntax.Parsable?
             && n < |syntax.comments| && syntax.comments[n] == before + TokenFor(codes) + rest
             && (forall i :: 0 <= i < |syntax.envValues| ==> Parsed(syntax.envValues[i]).Err?)
             && (forall i :: 0 <= i < n ==> ParsedComment(syntax.comments[i]).Err?)
    ensures Acknowledgment(shell, command, codes) == Ok(Ack(true, [], Comment))
  {
    hide AllErrorCodes, Parsed, TokenFor, TrimSpace, FirstToken, Unnamed, ParsedComment, IndexOf;
    CommentRoundTrip(before, codes, rest);
    NoTokenAtAll(shell(TrimSpace(command)).envValues, Parsed);
    FirstTokenIs(shell(TrimSpace(command)).comments, ParsedComment, n);
    UnnamedIsEmpty(codes, codes);
  }

  /** An attempt has one of the two markers somewhere. */
  lemma AttemptIff(command: string)
    ensures ContainsUnpoisonAttempt(command) <==>
              exists i: nat :: i <= |command| && ("KLACK=" <= command[i..] || "# SESS:" <= command[i..])
  {
    hide IndexOf;
    if i: nat :| i <= |command| && ("KLACK=" <= command[i..] || "# SESS:" <= command[i..]) {
      assert IndexOf(command, "KLACK=").None? ==> !("KLACK=" <= command[i..]);
      assert IndexOf(command, "# SESS:").None? ==> !("# SESS:" <= command[i..]);
    }
  }

  /** Markers of an attempt, for the lenient path. */
  predicate ContainsUnpoisonAttempt(command: string) {
    Contains(command, ENV_VAR_ASSIGNMENT) || Contains(command, COMMENT_START)
  }
}
