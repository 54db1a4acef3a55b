/** The poisoning protocol over whole runs of dispatches. */
module SessionRuns {
  import opened Text
  import opened Executor
  import opened UnpoisonToken
  import opened Acknowledging
  import opened SessionTracker
  import opened Dispatcher

  // ----- one dispatch -----

  predicate IsPoisoned(m: Sessions, id: string) {
    id in m && m[id].status.Poisoned?
  }

  /** Sound records: poisoned exactly when the time of poisoning is set, no activity in the
      future. */
  predicate Sound(m: Sessions, now: int) {
    forall id :: id in m ==> Consistent(m[id]) && m[id].lastActivity <= now
  }

  lemma PoisonedErrorBlocks(info: Info, formatTime: int -> string)
    ensures ShouldBlock([PoisonedSessionError(info, formatTime)])
  {
    var e := PoisonedSessionError(info, formatTime);
    assert e.shouldBlock && e in [e];
  }

  /** VERDICT. After every dispatch of a tracked session, whether it failed fast, was
      released, found the session expired or clean, the stored status is poisoned exactly
      when the returned errors block; and records stay sound. */
  lemma VerdictIsPoisonBit(setup: Setup, m: Sessions, req: Request)
    requires Sound(m, req.times.check) && req.times.Monotone()
    ensures var out := Dispatched(setup, m, req);
            && Sound(out.sessions, req.times.again)
            && (Tracked(setup, req) ==> (IsPoisoned(out.sessions, req.sessionID) <==> ShouldBlock(out.errors)))
  {
    hide Released, ValidationErrors, PoisonCodes, PoisonMessage, ShouldBlock, PoisonedSessionError;
    if FastFails(setup, m, req) {
      PoisonedErrorBlocks(m[req.sessionID], setup.formatTime);
    }
  }

  /** WHAT POISONS. A hook that reaches the validators leaves its session poisoned exactly when
      something that blocks is left of its errors or those of its file writes; what an exception
      turned into a warning does not. */
  lemma PoisonedIffLeft(setup: Setup, m: Sessions, req: Request)
    requires Sound(m, req.times.check) && req.times.Monotone()
    requires Tracked(setup, req) && Dispatched(setup, m, req).validated
    ensures IsPoisoned(Dispatched(setup, m, req).sessions, req.sessionID) <==>
              exists x: ValidationError :: x.shouldBlock && Remains(setup.checker, req, x)
  {
    hide Dispatched, IsPoisoned, Remains, Sound, ShouldBlock;
    VerdictIsPoisonBit(setup, m, req);
    BlocksIffLeft(setup.checker, req);
    ValidatedErrors(setup, m, req);
  }

  lemma ValidatedErrors(setup: Setup, m: Sessions, req: Request)
    requires Dispatched(setup, m, req).validated
    ensures Dispatched(setup, m, req).errors == ValidationErrors(setup.checker, req)
  {
    hide Released, ValidationErrors, AfterValidation;
  }

  // ----- runs -----

  /** A dispatch, or a cleanup of expired sessions that reads the clock for each of them. */
  datatype Event = Hook(req: Request) | Cleanup(from: int, until: int, clock: string -> int) {
    function From(): int {
      if Hook? then req.times.check else from
    }

    function Until(): int {
      if Hook? then req.times.again else until
    }

    /** All its clock readings lie in its time, in order. */
    ghost predicate Timed() {
      if Hook? then req.times.Monotone() else from <= until && forall id :: from <= clock(id) <= until
    }
  }

  function Next(setup: Setup, m: Sessions, e: Event): Sessions {
    match e
    case Hook(req) => Dispatched(setup, m, req).sessions
    case Cleanup(_, _, clock) => AfterCleanup(setup.maxAge, m, clock)
  }

  function After(setup: Setup, m: Sessions, events: seq<Event>): Sessions {
    if events == [] then m else Next(setup, After(setup, m, events[..|events| - 1]), events[|events| - 1])
  }

  /** The clock never goes back. */
  ghost predicate InOrder(start: int, events: seq<Event>) {
    && (forall i :: 0 <= i < |events| ==> start <= events[i].From() && events[i].Timed())
    && (forall i, j :: 0 <= i < j < |events| ==> events[i].Until() <= events[j].From())
  }

  function Now(start: int, events: seq<Event>): int {
    if events == [] then start else events[|events| - 1].Until()
  }

  lemma NextSound(setup: Setup, m: Sessions, e: Event, now: int)
    requires Sound(m, now) && now <= e.From() && e.Timed()
    ensures Sound(Next(setup, m, e), e.Until())
  {
    hide Dispatched;
    if e.Hook? {
      VerdictIsPoisonBit(setup, m, e.req);
    }
  }

  /** From sound records every run keeps them sound. */
  lemma {:induction false} RunSound(setup: Setup, m: Sessions, start: int, events: seq<Event>)
    requires Sound(m, start) && InOrder(start, events)
    ensures Sound(After(setup, m, events), Now(start, events))
  {
    hide Next, Sound;
    if events != [] {
      var n := |events| - 1;
      var before := events[..n];
      OrderedPrefix(start, events);
      RunSound(setup, m, start, before);
      NextSound(setup, After(setup, m, before), events[n], Now(start, before));
    }
  }

  // ----- counting commands -----

  /** The event is a hook of session `id` that reached the validators and passed. */
  predicate Passes(setup: Setup, m: Sessions, id: string, e: Event) {
    e.Hook? && e.req.sessionID == id && Dispatched(setup, m, e.req).validated
    && !ShouldBlock(Dispatched(setup, m, e.req).errors)
  }

  function CountIn(m: Sessions, id: string): nat {
    if id in m then m[id].commandCount else 0
  }

  /** How many of the events pass. */
  function Passed(setup: Setup, m: Sessions, id: string, events: seq<Event>): nat {
    if events == [] then 0 else
      var before := events[..|events| - 1];
      Passed(setup, m, id, before) +
      if Passes(setup, After(setup, m, before), id, events[|events| - 1]) then 1 else 0
  }

  lemma NextCounts(setup: Setup, m: Sessions, id: string, e: Event)
    requires setup.tracking && id != ""
    ensures var count := CountIn(m, id) + if Passes(setup, m, id, e) then 1 else 0;
            && CountIn(Next(setup, m, e), id) <= count
            && (setup.maxAge <= 0 ==> CountIn(Next(setup, m, e), id) == count)
  {
    hide Released, ValidationErrors, PoisonCodes, PoisonMessage, ShouldBlock, PoisonedSessionError;
    if e.Hook? && e.req.sessionID != id {
      OtherSessionsUntouched(setup, m, id, e.req);
    }
  }

  /** COUNTED. The count of a session never exceeds the number of its hooks that passed; where
      sessions do not expire it is that number, through poisonings and releases. */
  lemma {:induction false} CommandsAreCounted(setup: Setup, m: Sessions, id: string, events: seq<Event>)
    requires setup.tracking && id != ""
    ensures CountIn(After(setup, m, events), id) <= CountIn(m, id) + Passed(setup, m, id, events)
    ensures setup.maxAge <= 0 ==> CountIn(After(setup, m, events), id) == CountIn(m, id) + Passed(setup, m, id, events)
  {
    hide Next, Passes, CountIn;
    if events != [] {
      var before := events[..|events| - 1];
      CommandsAreCounted(setup, m, id, before);
      NextCounts(setup, After(setup, m, before), id, events[|events| - 1]);
    }
  }

  // ----- release -----

  /** Why a hook may reach the validators of a session poisoned at `since` by `codes`. */
  predicate Legitimate(setup: Setup, codes: seq<string>, since: int, req: Request) {
    || (codes == [] && req.command != "")
    || Names(setup.shell, req.command, codes)
    || (Parse(setup.shell, req.command).Err? && ContainsUnpoisonAttempt(req.command))
    || (setup.maxAge > 0 && req.times.check - since > setup.maxAge)
  }

  /** Session `id` still carries the poisoning, or was dropped for its age. */
  predicate Held(setup: Setup, m: Sessions, id: string, codes: seq<string>, since: int, now: int) {
    if id in m then m[id].status.Poisoned? && m[id].poisonCodes == codes && m[id].lastActivity == since
    else setup.maxAge > 0 && now - since > setup.maxAge
  }

  /** The event lets a hook of session `id` reach the validators. */
  predicate Validates(setup: Setup, m: Sessions, id: string, e: Event) {
    e.Hook? && e.req.sessionID == id && Dispatched(setup, m, e.req).validated
  }

  lemma ReleasedIff(setup: Setup, codes: seq<string>, since: int, req: Request)
    ensures Legitimate(setup, codes, since, req) <==>
              Released(setup.shell, req.command, codes) || (setup.maxAge > 0 && req.times.check - since > setup.maxAge)
  {
    hide Acknowledgment, ContainsUnpoisonAttempt;
    AcknowledgedIffNamed(setup.shell, req.command, codes);
    ParsedIsNotEmpty(setup.shell, req.command);
    if codes != [] && Parse(setup.shell, req.command).Err? {
      UnparsedIsError(setup.shell, req.command, codes);
    }
    AttemptIsNotEmpty(req.command);
  }

  lemma ParsedIsNotEmpty(shell: Shell, command: string)
    ensures Parse(shell, command).Ok? ==> command != ""
  {
    hide FirstToken;
  }

  lemma UnparsedIsError(shell: Shell, command: string, codes: seq<string>)
    requires codes != [] && Parse(shell, command).Err?
    ensures Acknowledgment(shell, command, codes).Err?
  {
    hide Parse;
  }

  lemma AttemptIsNotEmpty(command: string)
    ensures ContainsUnpoisonAttempt(command) ==> command != ""
  {
  }

  /** Other sessions' hooks, cleanups and blocked retries leave a poisoning as it is. */
  lemma OthersKeepHeld(setup: Setup, m: Sessions, id: string, codes: seq<string>, since: int, now: int, e: Event)
    requires setup.tracking && id != "" && Held(setup, m, id, codes, since, now)
    requires now <= e.From() && e.Timed() && !Validates(setup, m, id, e)
    ensures Held(setup, Next(setup, m, e), id, codes, since, e.Until())
  {
    hide Released, ValidationErrors, PoisonCodes, PoisonMessage, ShouldBlock, PoisonedSessionError, Counted;
    if e.Hook? && e.req.sessionID != id {
      OtherSessionsUntouched(setup, m, id, e.req);
    }
  }

  lemma OtherSessionsUntouched(setup: Setup, m: Sessions, id: string, req: Request)
    requires req.sessionID != id
    ensures var t := Dispatched(setup, m, req).sessions;
            (id in t <==> id in m) && (id in m ==> t[id] == m[id])
  {
    hide Released, ValidationErrors, PoisonCodes, PoisonMessage, ShouldBlock, PoisonedSessionError, Counted;
  }

  /** EXACT. A hook of a session that carries a poisoning reaches the validators if and only if
      its command or the age of the poisoning lets it. */
  lemma ReachesIffLegitimate(setup: Setup, m: Sessions, id: string, codes: seq<string>, since: int, now: int,
                             req: Request)
    requires setup.tracking && id != "" && Held(setup, m, id, codes, since, now)
    requires now <= req.times.check && req.sessionID == id
    ensures Validates(setup, m, id, Hook(req)) <==> Legitimate(setup, codes, since, req)
  {
    hide Legitimate, Released, AfterValidation, ValidationErrors, PoisonedSessionError;
    ReleasedIff(setup, codes, since, req);
    if setup.maxAge > 0 && req.times.check - since > setup.maxAge {
      AgedIsLegitimate(setup, codes, since, req);
    }
  }

  lemma AgedIsLegitimate(setup: Setup, codes: seq<string>, since: int, req: Request)
    requires setup.maxAge > 0 && req.times.check - since > setup.maxAge
    ensures Legitimate(setup, codes, since, req)
  {
  }

  /** The events up to the first `n` let no hook of session `id` reach the validators. */
  predicate Blocked(setup: Setup, m: Sessions, id: string, events: seq<Event>) {
    forall i :: 0 <= i < |events| ==> !Validates(setup, After(setup, m, events[..i]), id, events[i])
  }

  lemma OrderedPrefix(start: int, events: seq<Event>)
    requires InOrder(start, events) && events != []
    ensures var n := |events| - 1;
            InOrder(start, events[..n]) && Now(start, events[..n]) <= events[n].From() && events[n].Timed()
  {
  }

  lemma BlockedPrefix(setup: Setup, m: Sessions, id: string, events: seq<Event>)
    requires Blocked(setup, m, id, events) && events != []
    ensures Blocked(setup, m, id, events[..|events| - 1])
  {
    hide Validates, After;
    var before := events[..|events| - 1];
    forall i | 0 <= i < |before|
      ensures !Validates(setup, After(setup, m, before[..i]), id, before[i])
    {
      assert before[..i] == events[..i];
    }
  }

  lemma {:induction false} HeldThroughout(setup: Setup, m: Sessions, id: string, codes: seq<string>, since: int,
                                          start: int, events: seq<Event>)
    requires setup.tracking && id != "" && Held(setup, m, id, codes, since, start)
    requires InOrder(start, events) && Blocked(setup, m, id, events)
    ensures Held(setup, After(setup, m, events), id, codes, since, Now(start, events))
  {
    hide Next, Held, Validates, InOrder;
    if events != [] {
      var n := |events| - 1;
      var before := events[..n];
      OrderedPrefix(start, events);
      BlockedPrefix(setup, m, id, events);
      assert !Validates(setup, After(setup, m, events[..n]), id, events[n]);
      HeldThroughout(setup, m, id, codes, since, start, before);
      OthersKeepHeld(setup, After(setup, m, before), id, codes, since, Now(start, before), events[n]);
    }
  }

  /** RELEASE. Take a dispatch that poisons a session, any later events among which no hook
      of the session reaches the validators, and then a hook of the session. It reaches them if
      and only if its command names all the codes of the poisoning, or there are none and it has
      a command, or it is an attempt that does not parse, or the poisoning is older than the
      maximal session age. Retries that fail fast and other sessions change neither the codes
      nor the deadline. */
  lemma ReleaseIsLegitimate(setup: Setup, m: Sessions, poisoning: Request, events: seq<Event>, release: Request)
    requires Sound(m, poisoning.times.check) && poisoning.times.Monotone() && Tracked(setup, poisoning)
    requires Dispatched(setup, m, poisoning).validated && ShouldBlock(Dispatched(setup, m, poisoning).errors)
    requires release.sessionID == poisoning.sessionID
    requires var after := Dispatched(setup, m, poisoning).sessions;
             && InOrder(poisoning.times.again, events + [Hook(release)])
             && Blocked(setup, after, poisoning.sessionID, events)
    ensures var out := Dispatched(setup, m, poisoning);
            Validates(setup, After(setup, out.sessions, events), poisoning.sessionID, Hook(release)) <==>
            Legitimate(setup, PoisonCodes(out.errors), poisoning.times.record, release)
  {
    hide Validates, Released, ValidationErrors, PoisonCodes, PoisonMessage, Legitimate, After, ShouldBlock;
    var after := Dispatched(setup, m, poisoning).sessions;
    var codes := PoisonCodes(Dispatched(setup, m, poisoning).errors);
    var id, since, start := poisoning.sessionID, poisoning.times.record, poisoning.times.again;
    PoisoningIsHeld(setup, m, poisoning);
    var all := events + [Hook(release)];
    assert forall i :: 0 <= i < |events| ==> all[i] == events[i];
    assert all[|events|] == Hook(release);
    assert InOrder(start, events);
    HeldThroughout(setup, after, id, codes, since, start, events);
    assert Now(start, events) <= all[|events|].From();
    ReachesIffLegitimate(setup, After(setup, after, events), id, codes, since, Now(start, events), release);
  }

  lemma PoisoningIsHeld(setup: Setup, m: Sessions, req: Request)
    requires Tracked(setup, req) && Dispatched(setup, m, req).validated && ShouldBlock(Dispatched(setup, m, req).errors)
    ensures Held(setup, Dispatched(setup, m, req).sessions, req.sessionID,
                 PoisonCodes(Dispatched(setup, m, req).errors), req.times.record, req.times.again)
  {
    hide Released, ValidationErrors, PoisonMessage, PoisonCodes, ShouldBlock;
  }

  /** If one of the codes is no error code, no command can ever name them all: then the
      session is released only by age or by an attempt that does not parse. */
  lemma OddCodesOnlyAge(setup: Setup, codes: seq<string>, since: int, req: Request)
    requires !AllErrorCodes(codes) && Legitimate(setup, codes, since, req)
    ensures || (Parse(setup.shell, req.command).Err? && ContainsUnpoisonAttempt(req.command))
            || (setup.maxAge > 0 && req.times.check - since > setup.maxAge)
  {
    hide Parse, ContainsUnpoisonAttempt, IsErrorCode, Names;
    if Names(setup.shell, req.command, codes) {
      OnlyErrorCodesCanBeNamed(setup.shell, req.command, codes);
    }
  }

  /** A blocking error whose reference is a link to some "policy", such as
      "https://example.com/policy", poisons a session with such a code. */
  lemma OddCode(setup: Setup, e: ValidationError, link: string, since: int, req: Request)
    requires e.shouldBlock && e.reference == link + "/" + "policy"
    ensures PoisonCodes([e]) == ["policy"]
    ensures forall command :: !Names(setup.shell, command, ["policy"])
    ensures Legitimate(setup, ["policy"], since, req) ==>
              || (Parse(setup.shell, req.command).Err? && ContainsUnpoisonAttempt(req.command))
              || (setup.maxAge > 0 && req.times.check - since > setup.maxAge)
  {
    hide CodeOf, Parse, Names, ContainsUnpoisonAttempt, IsErrorCode, Legitimate;
    LastSegmentIs(link, "policy");
    assert [e][..0] == [];
    assert PoisonCodes([e]) == PoisonCodes([]) + [CodeOf(e.reference)];
    PolicyIsNoErrorCode();
    assert !IsErrorCode(["policy"][0]);
    forall command
      ensures !Names(setup.shell, command, ["policy"])
    {
      if Names(setup.shell, command, ["policy"]) {
        OnlyErrorCodesCanBeNamed(setup.shell, command, ["policy"]);
      }
    }
    if Legitimate(setup, ["policy"], since, req) {
      OddCodesOnlyAge(setup, ["policy"], since, req);
    }
  }

  lemma PolicyIsNoErrorCode()
    ensures !IsErrorCode("policy")
  {
    RunIs("", "policy", IsUpper);
    assert "" + "policy" == "policy";
  }

  lemma LastSegmentIs(link: string, segment: string)
    requires All(segment, NotSlash)
    ensures CodeOf(link + "/" + segment) == segment
  {
    CodeOfIff(link + "/" + segment, segment);
  }
}
