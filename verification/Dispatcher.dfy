/** Dispatching a hook: fast failure in poisoned sessions, acknowledgment, validation and
    poisoning. */
module Dispatcher {
  import opened Wrappers
  import opened Collections
  import opened Text
  import opened Executor
  import opened UnpoisonToken
  import opened Acknowledging
  import opened SessionTracker

  const POISONED_SESSION_VALIDATOR := "session-poisoned"
  const POISONED_SESSION_REFERENCE := "https://klaudiu.sh/SESS001"
  const MAX_COMMAND_LENGTH := 500

  /** Decides on an error of a hook with the given command: the error as it is, a warning
      in its place, or nothing. */
  type Checker = (string, ValidationError) -> Option<ValidationError>

  /** The moments at which a dispatch reads the clock. */
  datatype Times = Times(check: int, unpoison: int, record: int, again: int) {
    predicate Monotone() {
      check <= unpoison <= record <= again
    }
  }

  /** A hook and what the validators answer to it. `writes` holds the answers to the
      synthetic write hooks of a Bash command, if the command parses. */
  datatype Request = Request(
    sessionID: string,
    command: string,
    isBashPreToolUse: bool,
    main: seq<ValidationError>,
    writes: Option<seq<seq<ValidationError>>>,
    times: Times)

  datatype Setup = Setup(
    tracking: bool,
    maxAge: int,
    shell: Shell,
    checker: Option<Checker>,
    formatTime: int -> string)

  // ----- errors -----

  function Applied(checker: Option<Checker>, command: string, errors: seq<ValidationError>): seq<ValidationError> {
    if checker.None? then errors
    else if errors == [] then []
    else
      var last := checker.value(command, errors[|errors| - 1]);
      Applied(checker, command, errors[..|errors| - 1]) + if last.Some? then [last.value] else []
  }

  /** Error `e` of a hook leaves `x`: without a checker the error itself, else what the checker
      makes of it, if anything. */
  predicate Leaves(checker: Option<Checker>, command: string, e: ValidationError, x: ValidationError) {
    if checker.None? then x == e else checker.value(command, e) == Some(x)
  }

  lemma NothingApplied(checker: Option<Checker>, command: string)
    ensures Applied(checker, command, []) == []
  {
  }

  lemma AppliedLast(checker: Checker, command: string, errors: seq<ValidationError>)
    requires errors != []
    ensures var n := |errors| - 1;
            var last := checker(command, errors[n]);
            Applied(Some(checker), command, errors) ==
              Applied(Some(checker), command, errors[..n]) + if last.Some? then [last.value] else []
  {
  }

  /** What is left are the checker's answers, in order, to the errors it does not drop. */
  lemma {:induction false} AppliedPicks(checker: Checker, command: string, errors: seq<ValidationError>)
    returns (at: seq<nat>)
    ensures var left := Applied(Some(checker), command, errors);
            && Increasing(at, |errors|) && |at| == |left|
            && (forall i: nat {:trigger i in at} :: i < |errors| ==> (i in at <==> checker(command, errors[i]).Some?))
            && (forall k :: 0 <= k < |at| ==> at[k] < |errors| && checker(command, errors[at[k]]) == Some(left[k]))
  {
    hide Applied, Increasing, TakenToo;
    NoIndexes();
    NothingApplied(Some(checker), command);
    at := [];
    if errors != [] {
      var n := |errors| - 1;
      var before := AppliedPicks(checker, command, errors[..n]);
      AppliedLast(checker, command, errors);
      var taken := checker(command, errors[n]).Some?;
      IncreasingOneMore(before, n, taken);
      at := TakenToo(before, n, taken);
    }
  }

  lemma AppliedHas(checker: Option<Checker>, command: string, errors: seq<ValidationError>, x: ValidationError)
    ensures x in Applied(checker, command, errors) <==> exists e :: e in errors && Leaves(checker, command, e, x)
  {
    if checker.Some? {
      hide Applied;
      var left := Applied(checker, command, errors);
      var at := AppliedPicks(checker.value, command, errors);
      if x in left {
        var k :| 0 <= k < |left| && left[k] == x;
        assert errors[at[k]] in errors && Leaves(checker, command, errors[at[k]], x);
      }
      if e :| e in errors && Leaves(checker, command, e, x) {
        var i :| 0 <= i < |errors| && errors[i] == e;
        assert i in at;
        var k :| 0 <= k < |at| && at[k] == i;
        assert left[k] == x;
      }
    } else {
      assert x in errors ==> Leaves(checker, command, x, x);
    }
  }

  method ApplyExceptionChecking(checker: Option<Checker>, command: string, errors: seq<ValidationError>)
    returns (result: seq<ValidationError>)
    ensures result == Applied(checker, command, errors)
    ensures checker.None? ==> result == errors
    ensures checker.Some? ==>
              forall x :: x in result <==> exists e :: e in errors && checker.value(command, e) == Some(x)
  {
    if checker.None? {
      return errors;
    }
    forall x
      ensures x in Applied(checker, command, errors) <==>
                exists e :: e in errors && checker.value(command, e) == Some(x)
    {
      AppliedHas(checker, command, errors, x);
      assert forall e :: Leaves(checker, command, e, x) <==> checker.value(command, e) == Some(x);
    }
    result := [];
    for i := 0 to |errors|
      invariant result == Applied(checker, command, errors[..i])
    {
      assert errors[..i + 1][..i] == errors[..i];
      var modified := checker.value(command, errors[i]);
      if modified.Some? {
        result := result + [modified.value];
      }
    }
    assert errors[..|errors|] == errors;
  }

  /** Synthetic write hooks carry no command. */
  function AllApplied(checker: Option<Checker>, writes: seq<seq<ValidationError>>): seq<ValidationError> {
    if writes == [] then [] else
      AllApplied(checker, writes[..|writes| - 1]) + Applied(checker, "", writes[|writes| - 1])
  }

  function ValidationErrors(checker: Option<Checker>, req: Request): seq<ValidationError> {
    Applied(checker, req.command, req.main) +
    if req.isBashPreToolUse && req.writes.Some? then AllApplied(checker, req.writes.value) else []
  }

  lemma {:induction false} AllAppliedHas(checker: Option<Checker>, writes: seq<seq<ValidationError>>,
                                         x: ValidationError)
    ensures x in AllApplied(checker, writes) <==> exists w, e :: w in writes && e in w && Leaves(checker, "", e, x)
  {
    hide Applied, Leaves;
    if writes != [] {
      var n := |writes| - 1;
      AllAppliedHas(checker, writes[..n], x);
      AppliedHas(checker, "", writes[n], x);
      assert forall w :: w in writes <==> w in writes[..n] || w == writes[n];
    }
  }

  /** `x` is what is left of an error of the hook, or of a file write in its command. */
  ghost predicate Remains(checker: Option<Checker>, req: Request, x: ValidationError) {
    || (exists e :: e in req.main && Leaves(checker, req.command, e, x))
    || (req.isBashPreToolUse && req.writes.Some?
        && exists w, e :: w in req.writes.value && e in w && Leaves(checker, "", e, x))
  }

  lemma ErrorsRemain(checker: Option<Checker>, req: Request, x: ValidationError)
    ensures x in ValidationErrors(checker, req) <==> Remains(checker, req, x)
  {
    hide Applied, AllApplied, Leaves;
    AppliedHas(checker, req.command, req.main, x);
    if req.writes.Some? {
      AllAppliedHas(checker, req.writes.value, x);
    }
  }

  /** A hook blocks exactly when something that blocks is left of its errors. */
  lemma BlocksIffLeft(checker: Option<Checker>, req: Request)
    ensures ShouldBlock(ValidationErrors(checker, req)) <==>
              exists x: ValidationError :: x.shouldBlock && Remains(checker, req, x)
  {
    hide ValidationErrors, Remains;
    if ShouldBlock(ValidationErrors(checker, req)) {
      var x :| x in ValidationErrors(checker, req) && x.shouldBlock;
      ErrorsRemain(checker, req, x);
    }
    if x: ValidationError :| x.shouldBlock && Remains(checker, req, x) {
      ErrorsRemain(checker, req, x);
    }
  }

  predicate NotSlash(c: char) {
    c != '/'
  }

  /** What follows the last slash of a reference. */
  function CodeOf(reference: string): string
    decreases |reference|
  {
    var k := Run(reference, NotSlash);
    if k == |reference| then reference else CodeOf(reference[k + 1..])
  }

  /** `code` is the end of the reference, up to its last slash. */
  predicate LastSegment(reference: string, code: string) {
    var from := |reference| - |code|;
    && from >= 0 && reference[from..] == code && All(code, NotSlash)
    && (from > 0 ==> reference[from - 1] == '/')
  }

  lemma {:induction false} CodeOfIff(reference: string, code: string)
    ensures CodeOf(reference) == code <==> LastSegment(reference, code)
    decreases |reference|
  {
    var k := Run(reference, NotSlash);
    if k == |reference| {
      WholeSegment(reference, code);
    } else {
      var tail := reference[k + 1..];
      CodeOfIff(tail, code);
      TailSegment(reference, k, code);
    }
  }

  lemma WholeSegment(reference: string, code: string)
    requires All(reference, NotSlash)
    ensures LastSegment(reference, code) <==> code == reference
  {
    assert |code| < |reference| ==> NotSlash(reference[|reference| - |code| - 1]);
  }

  lemma TailSegment(reference: string, k: nat, code: string)
    requires k < |reference| && reference[k] == '/'
    ensures LastSegment(reference, code) <==> LastSegment(reference[k + 1..], code)
  {
    var from, tail := |reference| - |code|, reference[k + 1..];
    assert 0 <= from <= k && reference[from..] == code ==> code[k - from] == '/' && !NotSlash(code[k - from]);
    assert k < from <= |reference| ==> reference[from..] == tail[from - k - 1..];
  }

  /** The codes of the blocking errors that carry a reference. */
  function PoisonCodes(errors: seq<ValidationError>): seq<string> {
    if errors == [] then [] else
      var e := errors[|errors| - 1];
      PoisonCodes(errors[..|errors| - 1]) +
      if e.shouldBlock && e.reference != "" then [CodeOf(e.reference)] else []
  }

  predicate Poisons(e: ValidationError) {
    e.shouldBlock && e.reference != ""
  }

  lemma NoPoison()
    ensures PoisonCodes([]) == []
  {
  }

  lemma PoisonCodesLast(errors: seq<ValidationError>)
    requires errors != []
    ensures var (n, e) := (|errors| - 1, errors[|errors| - 1]);
            PoisonCodes(errors) == PoisonCodes(errors[..n]) + if Poisons(e) then [CodeOf(e.reference)] else []
  {
  }

  /** The codes are the last segments of the references of the errors that block, in order. */
  lemma {:induction false} PoisonCodesPick(errors: seq<ValidationError>) returns (at: seq<nat>)
    ensures Increasing(at, |errors|) && |at| == |PoisonCodes(errors)|
    ensures forall i: nat {:trigger i in at} :: i < |errors| ==>
              (i in at <==> errors[i].shouldBlock && errors[i].reference != "")
    ensures forall k :: 0 <= k < |at| ==>
              at[k] < |errors| && LastSegment(errors[at[k]].reference, PoisonCodes(errors)[k])
  {
    hide CodeOf, LastSegment, PoisonCodes, Increasing, TakenToo;
    NoIndexes();
    NoPoison();
    at := [];
    if errors != [] {
      var n := |errors| - 1;
      var before := PoisonCodesPick(errors[..n]);
      PoisonCodesLast(errors);
      CodeOfIff(errors[n].reference, CodeOf(errors[n].reference));
      IncreasingOneMore(before, n, Poisons(errors[n]));
      at := TakenToo(before, n, Poisons(errors[n]));
    }
  }

  method ExtractSessionPoisonCodes(errors: seq<ValidationError>) returns (codes: seq<string>)
    ensures codes == PoisonCodes(errors)
  {
    codes := [];
    for i := 0 to |errors|
      invariant codes == PoisonCodes(errors[..i])
    {
      assert errors[..i + 1][..i] == errors[..i];
      if errors[i].shouldBlock && errors[i].reference != "" {
        codes := codes + [CodeOf(errors[i].reference)];
      }
    }
    assert errors[..|errors|] == errors;
  }

  /** The message of the first blocking error that has one. */
  function PoisonMessage(errors: seq<ValidationError>): string {
    if errors == [] then ""
    else if errors[0].shouldBlock && errors[0].message != "" then errors[0].message
    else PoisonMessage(errors[1..])
  }

  predicate HasPoisonMessage(e: ValidationError) {
    e.shouldBlock && e.message != ""
  }

  /** It is the message of the first one that blocks and has one, or empty. */
  lemma {:induction false} PoisonMessageIsFirst(errors: seq<ValidationError>, i: nat)
    requires i <= |errors| && forall j :: 0 <= j < i ==> !HasPoisonMessage(errors[j])
    ensures i == |errors| ==> PoisonMessage(errors) == ""
    ensures i < |errors| && HasPoisonMessage(errors[i]) ==> PoisonMessage(errors) == errors[i].message
  {
    if i > 0 {
      assert !HasPoisonMessage(errors[0]);
      forall j | 0 <= j < i - 1
        ensures !HasPoisonMessage(errors[1..][j])
      {
        assert errors[1..][j] == errors[j + 1];
      }
      PoisonMessageIsFirst(errors[1..], i - 1);
    }
  }

  function JoinDisplay(codes: seq<string>): string {
    if codes == [] then ""
    else if |codes| == 1 then codes[0]
    else codes[0] + ", " + JoinDisplay(codes[1..])
  }

  function PoisonedSessionError(info: Info, formatTime: int -> string): ValidationError {
    var token := TokenFor(info.poisonCodes);
    var at := if info.poisonedAt.Some? then formatTime(info.poisonedAt.value) else "";
    var unpoison := map["unpoison" := "To unpoison: KLACK=\"" + token + "\" command  # or comment: # " + token];
    ValidationError(
      POISONED_SESSION_VALIDATOR,
      "Blocked: session poisoned by " + JoinDisplay(info.poisonCodes) + " at " + at,
      if info.poisonMessage != "" then unpoison["original_error" := "Original error: " + info.poisonMessage]
          else unpoison,
      true,
      POISONED_SESSION_REFERENCE,
      "Acknowledge violations to unpoison: KLACK=\"" + token + "\" your_command")
  }

  // ----- dispatching, as a function of the tracked sessions -----

  /** The command releases a session poisoned by `codes`: it acknowledges them, or it
      looks like an attempt and cannot be parsed. */
  predicate Released(shell: Shell, command: string, codes: seq<string>) {
    command != "" &&
    match Acknowledgment(shell, command, codes)
    case Err(_) => ContainsUnpoisonAttempt(command)
    case Ok(ack) => ack.acknowledged
  }

  datatype Outcome = Outcome(sessions: Sessions, errors: seq<ValidationError>, validated: bool)

  predicate Tracked(setup: Setup, req: Request) {
    setup.tracking && req.sessionID != ""
  }

  predicate FastFails(setup: Setup, m: Sessions, req: Request) {
    && Tracked(setup, req)
    && PoisonedAt(setup.maxAge, m, req.sessionID, req.times.check)
    && !Released(setup.shell, req.command, m[req.sessionID].poisonCodes)
  }

  function AfterValidation(setup: Setup, m: Sessions, req: Request, errors: seq<ValidationError>): Sessions {
    if !Tracked(setup, req) then m
    else if ShouldBlock(errors) then
      AfterPoison(m, req.sessionID, PoisonCodes(errors), PoisonMessage(errors), req.times.record)
    else
      AfterRecord(setup.maxAge, m, req.sessionID, req.times.record, req.times.again)
  }

  /** The sessions when a hook that does not fail fast reaches the validators. */
  function Admitted(setup: Setup, m: Sessions, req: Request): Sessions {
    if Tracked(setup, req) && PoisonedAt(setup.maxAge, m, req.sessionID, req.times.check)
    then AfterUnpoison(m, req.sessionID, req.times.unpoison)
    else m
  }

  function Dispatched(setup: Setup, m: Sessions, req: Request): Outcome {
    if FastFails(setup, m, req) then
      Outcome(m, [PoisonedSessionError(m[req.sessionID], setup.formatTime)], false)
    else
      var errors := ValidationErrors(setup.checker, req);
      Outcome(AfterValidation(setup, Admitted(setup, m, req), req, errors), errors, true)
  }

  /** The token printed for any error codes releases the session that is poisoned by them. */
  lemma PrintedTokenReleases(shell: Shell, command: string, codes: seq<string>, n: nat)
    requires codes != [] && AllErrorCodes(codes) && TrimSpace(command) != ""
    requires var syntax := shell(TrimSpace(command));
             && syntax.Parsable? && n < |syntax.envValues| && syntax.envValues[n] == TokenFor(codes)
             && forall i :: 0 <= i < n ==> Parsed(syntax.envValues[i]).Err?
    ensures Released(shell, command, codes)
  {
    hide Acknowledgment, TrimSpace, Parsed, TokenFor, AllErrorCodes, ContainsUnpoisonAttempt;
    PrintedTokenAcknowledges(shell, command, codes, n);
    TrimmedIsNotEmpty(command);
  }

  /** The error of a blocked command blocks, and the value it says to assign releases the session. */
  lemma HintReleases(shell: Shell, command: string, info: Info, formatTime: int -> string)
    requires info.poisonCodes != [] && AllErrorCodes(info.poisonCodes) && TrimSpace(command) != ""
    requires var syntax := shell(TrimSpace(command));
             syntax.Parsable? && |syntax.envValues| > 0 && syntax.envValues[0] == TokenFor(info.poisonCodes)
    ensures Released(shell, command, info.poisonCodes)
    ensures var (e, value) := (PoisonedSessionError(info, formatTime), shell(TrimSpace(command)).envValues[0]);
            && e.shouldBlock && e.validator == "session-poisoned" && e.reference == "https://klaudiu.sh/SESS001"
            && e.fixHint == "Acknowledge violations to unpoison: KLACK=\"" + value + "\" your_command"
            && "unpoison" in e.details
            && e.details["unpoison"] == "To unpoison: KLACK=\"" + value + "\" command  # or comment: # " + value
            && ("original_error" in e.details <==> info.poisonMessage != "")
  {
    hide Released, TokenFor, AllErrorCodes, TrimSpace, Parsed, JoinDisplay;
    PrintedTokenReleases(shell, command, info.poisonCodes, 0);
  }

  lemma TrimmedIsNotEmpty(command: string)
    ensures TrimSpace(command) != "" ==> command != ""
  {
  }

  /** A release of a session that has a code: its audit entry will not carry it. */
  lemma ReleaseWithCode()
    ensures Released(_ => Parsable([TokenFor(["GIT001"])], []), "ls", ["GIT001"])
  {
    hide TokenFor, Released;
    assert IsErrorCode("GIT001") by {
      assert "GIT001" == "GIT" + "001";
      RunIs("GIT", "001", IsUpper);
    }
    assert AllErrorCodes(["GIT001"]);
    assert Trimmed("ls");
    TrimTrimmed("ls");
    PrintedTokenReleases(_ => Parsable([TokenFor(["GIT001"])], []), "ls", ["GIT001"], 0);
  }

  // ----- the dispatcher -----

  datatype AuditAction = PoisonAction | UnpoisonAction

  datatype AuditEntry = AuditEntry(
    action: AuditAction,
    sessionID: string,
    poisonCodes: seq<string>,
    source: string,
    command: string,
    poisonMessage: string)

  function SourceName(source: Source): string {
    if source.EnvVar? then "env_var" else "comment"
  }

  /** Entries were only added, and none of an unpoisoning names a code. */
  predicate Logged(before: seq<AuditEntry>, after: seq<AuditEntry>) {
    && before <= after
    && forall i :: |before| <= i < |after| && after[i].action.UnpoisonAction? ==> after[i].poisonCodes == []
  }

  class Dispatcher {
    const setup: Setup
    const tracker: Tracker
    const auditing: bool
    var audit: seq<AuditEntry>

    ghost predicate Valid()
      reads this, tracker
    {
      tracker.Valid() && tracker.maxSessionAge == setup.maxAge
    }

    constructor (setup: Setup, auditing: bool)
      ensures Valid() && fresh(tracker) && tracker.Model() == map[] && audit == []
      ensures this.setup == setup && this.auditing == auditing && tracker.sessions == map[]
    {
      this.setup, this.auditing := setup, auditing;
      tracker := new Tracker(setup.maxAge);
      audit := [];
    }

    method LogSessionAuditEntry(action: AuditAction, req: Request, codes: seq<string>, source: string, message: string)
      modifies this`audit
      ensures audit == old(audit) + if !auditing then [] else
        [AuditEntry(action, req.sessionID, codes, source, Truncated(req.command), message)]
    {
      if !auditing {
        return;
      }
      audit := audit + [AuditEntry(action, req.sessionID, codes, source, Truncated(req.command), message)];
    }

    /** Unpoisons the session if the command releases it. The audit entry of an unpoisoning
        never carries the acknowledged codes: it reads the shared record after the tracker
        has cleared it. */
    method CheckUnpoisonAcknowledgment(req: Request, info: SessionInfo) returns (released: bool)
      requires Valid() && req.sessionID != ""
      requires req.sessionID in tracker.sessions && tracker.sessions[req.sessionID] == info
      modifies this`audit, tracker.sessions.Values
      ensures Valid()
      ensures released <==> Released(setup.shell, req.command, old(info.poisonCodes))
      ensures tracker.Model() ==
              if released then AfterUnpoison(old(tracker.Model()), req.sessionID, req.times.unpoison)
                  else old(tracker.Model())
      ensures Logged(old(audit), audit)
      ensures released && auditing ==>
                && |audit| == |old(audit)| + 1 && audit[|audit| - 1].action.UnpoisonAction?
                && audit[|audit| - 1].poisonCodes == []
                && audit[|audit| - 1].sessionID == req.sessionID
                && (audit[|audit| - 1].source == "lenient_fallback" <==>
                      Acknowledgment(setup.shell, req.command, old(info.poisonCodes)).Err?)
                && (audit[|audit| - 1].poisonCodes == old(info.poisonCodes) <==> old(info.poisonCodes) == [])
      ensures !released ==> audit == old(audit)
    {
      hide Acknowledgment, ContainsUnpoisonAttempt, AfterUnpoison, Tracker.Model, Truncated;
      if req.command == "" {
        return false;
      }
      var hasAttempt := ContainsUnpoisonAttempt(req.command);
      var result := CheckUnpoisonAcknowledgmentFull(setup.shell, req.command, info.poisonCodes);
      if result.Err? {
        if hasAttempt {
          Unpoison(req, info);
          LogSessionAuditEntry(UnpoisonAction, req, info.poisonCodes, "lenient_fallback", "");
          return true;
        }
        return false;
      }
      if !result.value.acknowledged {
        return false;
      }
      Unpoison(req, info);
      LogSessionAuditEntry(UnpoisonAction, req, info.poisonCodes, SourceName(result.value.source), "");
      return true;
    }

    /** After the tracker's call the record at hand is cleared, too. */
    method Unpoison(req: Request, info: SessionInfo)
      requires Valid() && req.sessionID != ""
      requires req.sessionID in tracker.sessions && tracker.sessions[req.sessionID] == info
      modifies tracker.sessions.Values
      ensures Valid()
      ensures tracker.Model() == AfterUnpoison(old(tracker.Model()), req.sessionID, req.times.unpoison)
      ensures info.poisonCodes == []
    {
      tracker.Unpoison(req.sessionID, req.times.unpoison);
      assert tracker.Model()[req.sessionID] == info.View();
    }

    method RunValidators(req: Request) returns (errors: seq<ValidationError>)
      ensures errors == ValidationErrors(setup.checker, req)
      ensures forall x :: x in errors <==> Remains(setup.checker, req, x)
    {
      forall x
        ensures x in ValidationErrors(setup.checker, req) <==> Remains(setup.checker, req, x)
      {
        ErrorsRemain(setup.checker, req, x);
      }
      hide Remains;
      errors := ApplyExceptionChecking(setup.checker, req.command, req.main);
      if req.isBashPreToolUse && req.writes.Some? {
        var writes := req.writes.value;
        var all: seq<ValidationError> := [];
        for i := 0 to |writes|
          invariant all == AllApplied(setup.checker, writes[..i])
        {
          assert writes[..i + 1][..i] == writes[..i];
          var more := ApplyExceptionChecking(setup.checker, "", writes[i]);
          all := all + more;
        }
        assert writes[..|writes|] == writes;
        errors := errors + all;
      }
    }

    /** Poisons the session on a blocking error, otherwise counts the command. */
    method RecordOutcome(req: Request, errors: seq<ValidationError>)
      requires Valid()
      modifies this`audit, tracker, tracker.sessions.Values
      ensures Valid() && fresh(tracker.sessions.Values - old(tracker.sessions.Values))
      ensures tracker.Model() == AfterValidation(setup, old(tracker.Model()), req, errors)
      ensures Logged(old(audit), audit)
      ensures audit == old(audit) +
                if !auditing || !Tracked(setup, req) || !ShouldBlock(errors) then []
                else [AuditEntry(PoisonAction, req.sessionID, PoisonCodes(errors), "", Truncated(req.command),
                                 PoisonMessage(errors))]
    {
      hide Tracker.Model, AfterPoison, AfterRecord, ShouldBlock, PoisonCodes, PoisonMessage;
      if !setup.tracking || req.sessionID == "" {
        return;
      }
      if ShouldBlock(errors) {
        var codes := ExtractSessionPoisonCodes(errors);
        var message := PoisonMessage(errors);
        tracker.Poison(req.sessionID, codes, message, req.times.record);
        LogSessionAuditEntry(PoisonAction, req, codes, "", message);
      } else {
        tracker.RecordCommand(req.sessionID, req.times.record, req.times.again);
      }
    }

    /** The fast failure of a poisoned session that the command does not release. */
    method Admit(req: Request) returns (failure: Option<ValidationError>)
      requires Valid()
      modifies this`audit, tracker.sessions.Values
      ensures Valid()
      ensures failure.Some? <==> FastFails(setup, old(tracker.Model()), req)
      ensures failure.Some? ==>
        && failure.value == PoisonedSessionError(old(tracker.Model())[req.sessionID], setup.formatTime)
        && tracker.Model() == old(tracker.Model())
      ensures failure.None? ==> tracker.Model() == Admitted(setup, old(tracker.Model()), req)
      ensures Logged(old(audit), audit)
    {
      hide Released, AfterUnpoison, PoisonedSessionError, Expired;
      if !setup.tracking || req.sessionID == "" {
        return None;
      }
      var poisoned, info := tracker.IsPoisoned(req.sessionID, req.times.check);
      if !poisoned {
        return None;
      }
      assert tracker.Model()[req.sessionID] == info.View();
      hide Tracker.Model;
      ghost var codes := info.poisonCodes;
      var released := CheckUnpoisonAcknowledgment(req, info);
      if released {
        return None;
      }
      assert tracker.Model() == old(tracker.Model());
      return Some(PoisonedSessionError(info.View(), setup.formatTime));
    }

    /** What is returned and what is tracked afterwards is the outcome of the dispatch; no
        audit entry of an unpoisoning names a code. */
    method Dispatch(req: Request) returns (errors: seq<ValidationError>)
      requires Valid()
      modifies this`audit, tracker, tracker.sessions.Values
      ensures Valid() && fresh(tracker.sessions.Values - old(tracker.sessions.Values))
      ensures var out := Dispatched(setup, old(tracker.Model()), req);
              tracker.Model() == out.sessions && errors == out.errors
      ensures !FastFails(setup, old(tracker.Model()), req) ==>
                forall x :: x in errors <==> Remains(setup.checker, req, x)
      ensures Logged(old(audit), audit)
    {
      hide Admitted, AfterValidation, ValidationErrors, PoisonedSessionError, FastFails, Tracker.Model, Remains;
      var failure := Admit(req);
      if failure.Some? {
        return [failure.value];
      }
      errors := RunValidators(req);
      RecordOutcome(req, errors);
    }
  }

  /** At most 500 characters of a command are kept, and three dots behind them say that there
      were more. */
  function Truncated(command: string): (s: string)
    ensures |command| <= 500 ==> s == command
    ensures |command| > 500 ==> |s| == 503 && s[..500] == command[..500] && s[500..] == "..."
  {
    if |command| > MAX_COMMAND_LENGTH then command[..MAX_COMMAND_LENGTH] + "..." else command
  }
}
