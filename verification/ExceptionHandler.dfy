/** The rate limiter and the handler that asks it, as objects. */
module ExceptionHandler {
  import opened Wrappers
  import opened RateLimit
  import opened RateLimitRuns

  datatype CheckResult = CheckResult(
    allowed: bool,
    reason: string,
    globalHourlyRemaining: int,
    globalDailyRemaining: int,
    codeHourlyRemaining: int,
    codeDailyRemaining: int)

  function Max0(n: int): int {
    if n > 0 then n else 0
  }

  /** What is left of a window: -1 when it is unlimited. */
  function Quota(cfg: Config, u: Usage, p: Period, scope: Scope): int {
    var limit := cfg.Limit(p, scope);
    if limit > 0 then limit - u.Counter(p, scope) else -1
  }

  /** What a denial says is left of a window: zero also when it is unlimited. */
  function Left(cfg: Config, u: Usage, p: Period, scope: Scope): int {
    Max0(cfg.Limit(p, scope) - u.Counter(p, scope))
  }

  /** The answer that denies: nothing is said of the code when a global limit is used up. */
  function Denial(cfg: Config, u: Usage, code: string): CheckResult {
    var global := GlobalExceeded(cfg, u);
    CheckResult(
      false, DenialReason(cfg, u, code),
      Left(cfg, u, Hourly, Global), Left(cfg, u, Daily, Global),
      if global then 0 else Left(cfg, u, Hourly, Code(code)), if global then 0 else Left(cfg, u, Daily, Code(code)))
  }

  /** The reason given for the first window found full: hours before days, the global
      limits before those of the code. */
  function DenialReason(cfg: Config, u: Usage, code: string): string {
    if Exceeded(cfg, u, Hourly, Global) then "global hourly limit exceeded"
    else if Exceeded(cfg, u, Daily, Global) then "global daily limit exceeded"
    else if Exceeded(cfg, u, Hourly, Code(code)) then "hourly limit exceeded for " + code
    else "daily limit exceeded for " + code
  }

  /** A denial names the first window that is full: hours before days, all codes before one. */
  lemma DenialNamesFirst(cfg: Config, u: Usage, code: string)
    requires !Allows(cfg, u, code)
    ensures var r := Denial(cfg, u, code).reason;
            && (Exceeded(cfg, u, Hourly, Global) ==> r == "global hourly limit exceeded")
            && (!Exceeded(cfg, u, Hourly, Global) && Exceeded(cfg, u, Daily, Global) ==>
                  r == "global daily limit exceeded")
            && (!GlobalExceeded(cfg, u) && Exceeded(cfg, u, Hourly, Code(code)) ==>
                  r == "hourly limit exceeded for " + code)
            && (!GlobalExceeded(cfg, u) && !Exceeded(cfg, u, Hourly, Code(code)) ==>
                  Exceeded(cfg, u, Daily, Code(code)) && r == "daily limit exceeded for " + code)
  {
    hide Exceeded;
    var p: Period :| Exceeded(cfg, u, p, Global) || Exceeded(cfg, u, p, Code(code));
    assert p == Hourly || p == Daily;
  }

  /** What an answer says is left of a window, for all codes or for the one at hand. */
  function Said(r: CheckResult, p: Period, global: bool): int {
    if global then (if p.Hourly? then r.globalHourlyRemaining else r.globalDailyRemaining)
    else if p.Hourly? then r.codeHourlyRemaining else r.codeDailyRemaining
  }

  predicate GlobalExceeded(cfg: Config, u: Usage) {
    Exceeded(cfg, u, Hourly, Global) || Exceeded(cfg, u, Daily, Global)
  }

  lemma LeftIsQuota(cfg: Config, u: Usage, p: Period, scope: Scope)
    ensures Left(cfg, u, p, scope) == Quota(cfg, u, p, scope) <==>
              0 < cfg.Limit(p, scope) && u.Counter(p, scope) <= cfg.Limit(p, scope)
  {
  }

  /** A denial tells what is left of a global window exactly when that is limited and not
      overrun. Of a window of the code it does so exactly when the window is limited and, if a
      global window is used up, used up to the last use itself, otherwise not overrun. */
  lemma DenialTellsQuota(cfg: Config, u: Usage, code: string, p: Period)
    requires !Allows(cfg, u, code)
    ensures Said(Denial(cfg, u, code), p, true) == Quota(cfg, u, p, Global) <==>
              0 < cfg.Limit(p, Global) && u.Counter(p, Global) <= cfg.Limit(p, Global)
    ensures Said(Denial(cfg, u, code), p, false) == Quota(cfg, u, p, Code(code)) <==>
              && 0 < cfg.Limit(p, Code(code))
              && if GlobalExceeded(cfg, u) then u.Counter(p, Code(code)) == cfg.Limit(p, Code(code))
                 else u.Counter(p, Code(code)) <= cfg.Limit(p, Code(code))
  {
    LeftIsQuota(cfg, u, p, Global);
    LeftIsQuota(cfg, u, p, Code(code));
  }

  /** Where handlers check one at a time no window is overrun: a denial tells what is left of
      a window exactly when it is limited, and of the code's only if no global window is used
      up or the code's is, too. */
  lemma DenialTellsQuotaInTurn(cfg: Config, u: Usage, log: seq<Event>, clock: int, code: string, p: Period)
    requires Idle(cfg, u, log, clock) && !Allows(cfg, u, code)
    ensures Said(Denial(cfg, u, code), p, true) == Quota(cfg, u, p, Global) <==> 0 < cfg.Limit(p, Global)
    ensures Said(Denial(cfg, u, code), p, false) == Quota(cfg, u, p, Code(code)) <==>
              && 0 < cfg.Limit(p, Code(code))
              && (GlobalExceeded(cfg, u) ==> Exceeded(cfg, u, p, Code(code)))
  {
    hide Denial, Quota, Idle, GlobalExceeded;
    DenialTellsQuota(cfg, u, code, p);
    if 0 < cfg.Limit(p, Global) {
      IdleNotOverrun(cfg, u, log, clock, p, Global);
    }
    if 0 < cfg.Limit(p, Code(code)) {
      IdleNotOverrun(cfg, u, log, clock, p, Code(code));
    }
  }

  lemma IdleNotOverrun(cfg: Config, u: Usage, log: seq<Event>, clock: int, p: Period, scope: Scope)
    requires Idle(cfg, u, log, clock) && cfg.Enabled() && 0 < cfg.Limit(p, scope)
    ensures u.Counter(p, scope) <= cfg.Limit(p, scope)
  {
    hide Count, Accurate, AddsUp;
    var seen :| Inv(cfg, 1, System(u, log, multiset{}, seen, clock));
    assert Within(cfg, 1, System(u, log, multiset{}, seen, clock), p, scope);
    AccurateCounter(u, log, seen, p, scope);
  }

  /** One use an hour, as many as one likes a day: after the first use the denial says that
      nothing is left for the day. */
  lemma UnlimitedDayUsedUp()
    ensures var cfg := OnlyLimit(Hourly, Global, 1);
            var u := Recorded(Fresh(0), "X", 0);
            && !Allows(cfg, u, "X") && cfg.Limit(Daily, Global) == 0
            && Denial(cfg, u, "X").globalDailyRemaining == 0 && Quota(cfg, u, Daily, Global) == -1
  {
    var cfg := OnlyLimit(Hourly, Global, 1);
    var u := Recorded(Fresh(0), "X", 0);
    OnlyLimitIs(Hourly, Global, 1, Hourly, Global);
    OnlyLimitIs(Hourly, Global, 1, Daily, Global);
    assert u.Counter(Hourly, Global) == 1;
    assert Exceeded(cfg, u, Hourly, Global);
  }

  /** One use an hour, and five an hour for the code: after the first use the denial says that
      nothing is left for the code, of which four uses are. */
  lemma CodeWindowNotTold()
    ensures var u := Recorded(Fresh(0), "X", 0);
            && !Allows(TIGHT, u, "X") && u.Counter(Hourly, Code("X")) == 1 && TIGHT.Limit(Hourly, Code("X")) == 5
            && Denial(TIGHT, u, "X").codeHourlyRemaining == 0 && Quota(TIGHT, u, Hourly, Code("X")) == 4
  {
    var u := Recorded(Fresh(0), "X", 0);
    assert u.Counter(Hourly, Global) == 1;
    assert Exceeded(TIGHT, u, Hourly, Global);
  }

  const TIGHT := Config(Some(RateConfig(Some(true), Some(1), Some(0))), map["X" := PolicyConfig(Some(5), Some(0))])

  class RateLimiter {
    const cfg: Config
    var hourlyUsage: map<string, int>
    var dailyUsage: map<string, int>
    var globalHourlyCount: int
    var globalDailyCount: int
    var hourStartTime: int
    var dayStartTime: int
    var lastUpdated: int

    /** Every use recorded since the state was last cleared. */
    ghost var log: seq<Event>

    function View(): Usage
      reads this
    {
      Usage(hourlyUsage, dailyUsage, globalHourlyCount, globalDailyCount, hourStartTime, dayStartTime)
    }

    constructor (cfg: Config, now: int)
      ensures this.cfg == cfg && View() == Fresh(now) && log == []
    {
      this.cfg := cfg;
      hourlyUsage, dailyUsage := map[], map[];
      globalHourlyCount, globalDailyCount := 0, 0;
      hourStartTime, dayStartTime := Hourly.Truncate(now), Daily.Truncate(now);
      lastUpdated := now;
      log := [];
    }

    method ResetIfExpired(now: int)
      modifies this
      ensures View() == Rolled(old(View()), now) && log == old(log)
    {
      var currentHour, currentDay := Hourly.Truncate(now), Daily.Truncate(now);
      if currentHour > hourStartTime {
        globalHourlyCount, hourlyUsage, hourStartTime := 0, map[], currentHour;
      }
      if currentDay > dayStartTime {
        globalDailyCount, dailyUsage, dayStartTime := 0, map[], currentDay;
      }
    }

    /** Allowed exactly when no positive limit of the current windows is used up; nothing
        is counted yet. */
    method Check(code: string, now: int) returns (r: CheckResult)
      modifies this
      ensures View() == Rolled(old(View()), now) && log == old(log)
      ensures r.allowed <==> Allows(cfg, View(), code)
      ensures !r.allowed ==> r == Denial(cfg, View(), code)
      ensures !cfg.Enabled() ==> r == CheckResult(true, "rate limiting disabled", -1, -1, -1, -1)
      ensures r.allowed && cfg.Enabled() ==> r.reason == "within rate limits"
      ensures r.allowed && cfg.Enabled() ==>
        && r.globalHourlyRemaining == Quota(cfg, View(), Hourly, Global) != 0
        && r.globalDailyRemaining == Quota(cfg, View(), Daily, Global) != 0
        && r.codeHourlyRemaining == Quota(cfg, View(), Hourly, Code(code)) != 0
        && r.codeDailyRemaining == Quota(cfg, View(), Daily, Code(code)) != 0
    {
      ResetIfExpired(now);
      if !cfg.Enabled() {
        return CheckResult(true, "rate limiting disabled", -1, -1, -1, -1);
      }

      var globalMaxHour, globalMaxDay := cfg.Limit(Hourly, Global), cfg.Limit(Daily, Global);
      if globalMaxHour > 0 && globalHourlyCount >= globalMaxHour {
        assert Exceeded(cfg, View(), Hourly, Global);
        return CheckResult(false, "global hourly limit exceeded", 0, Max0(globalMaxDay - globalDailyCount), 0, 0);
      }
      if globalMaxDay > 0 && globalDailyCount >= globalMaxDay {
        assert Exceeded(cfg, View(), Daily, Global);
        return CheckResult(false, "global daily limit exceeded", Max0(globalMaxHour - globalHourlyCount), 0, 0, 0);
      }

      var codeMaxHour, codeMaxDay := cfg.Limit(Hourly, Code(code)), cfg.Limit(Daily, Code(code));
      var codeHourlyUsage := Get(hourlyUsage, code);
      if codeMaxHour > 0 && codeHourlyUsage >= codeMaxHour {
        assert Exceeded(cfg, View(), Hourly, Code(code));
        return CheckResult(false, "hourly limit exceeded for " + code,
                           Max0(globalMaxHour - globalHourlyCount), Max0(globalMaxDay - globalDailyCount),
                           0, Max0(codeMaxDay - Get(dailyUsage, code)));
      }
      var codeDailyUsage := Get(dailyUsage, code);
      if codeMaxDay > 0 && codeDailyUsage >= codeMaxDay {
        assert Exceeded(cfg, View(), Daily, Code(code));
        return CheckResult(false, "daily limit exceeded for " + code,
                           Max0(globalMaxHour - globalHourlyCount), Max0(globalMaxDay - globalDailyCount),
                           Max0(codeMaxHour - codeHourlyUsage), 0);
      }

      return CheckResult(true, "within rate limits",
                         if globalMaxHour > 0 then globalMaxHour - globalHourlyCount else -1,
                         if globalMaxDay > 0 then globalMaxDay - globalDailyCount else -1,
                         if codeMaxHour > 0 then codeMaxHour - codeHourlyUsage else -1,
                         if codeMaxDay > 0 then codeMaxDay - codeDailyUsage else -1);
    }

    method Record(code: string, now: int)
      modifies this
      ensures View() == Recorded(old(View()), code, now)
      ensures log == old(log) + [Event(now, code)]
    {
      ResetIfExpired(now);
      globalHourlyCount := globalHourlyCount + 1;
      globalDailyCount := globalDailyCount + 1;
      hourlyUsage := hourlyUsage[code := Get(hourlyUsage, code) + 1];
      dailyUsage := dailyUsage[code := Get(dailyUsage, code) + 1];
      lastUpdated := now;
      log := log + [Event(now, code)];
    }

    method Reset(now: int)
      modifies this
      ensures View() == Fresh(now) && log == []
    {
      hourlyUsage, dailyUsage := map[], map[];
      globalHourlyCount, globalDailyCount := 0, 0;
      hourStartTime, dayStartTime := Hourly.Truncate(now), Daily.Truncate(now);
      lastUpdated := now;
      log := [];
    }
  }

  // ----- the handler -----

  datatype AuditEntry = AuditEntry(errorCode: string, allowed: bool, reason: string, denialReason: string)

  datatype ExceptionResult = ExceptionResult(allowed: bool, reason: string, entry: Option<AuditEntry>)

  /** `command` is empty when there is no hook context. */
  datatype CheckRequest = CheckRequest(command: string, validatorName: string, errorCode: string)

  datatype CheckResponse = CheckResponse(
    bypassed: bool,
    reason: string,
    errorCode: string,
    tokenReason: string,
    rateLimit: Option<CheckResult>)

  /** The token parser and the policies, which are not modelled: a pure function. */
  type Engine = CheckRequest -> ExceptionResult

  /** What the engine promises: an allowed result carries an entry, and an entry repeats
      the decision. */
  ghost predicate Honest(engine: Engine) {
    forall req: CheckRequest ::
      && (engine(req).allowed ==> engine(req).entry.Some?)
      && (engine(req).entry.Some? ==> engine(req).entry.value.allowed == engine(req).allowed)
  }

  function AllowedCodes(audit: seq<AuditEntry>): seq<string> {
    if audit == [] then [] else
      AllowedCodes(audit[..|audit| - 1]) +
      if audit[|audit| - 1].allowed then [audit[|audit| - 1].errorCode] else []
  }

  function Codes(log: seq<Event>): seq<string> {
    if log == [] then [] else Codes(log[..|log| - 1]) + [log[|log| - 1].code]
  }

  lemma AllowedCodesAppend(audit: seq<AuditEntry>, e: AuditEntry)
    ensures AllowedCodes(audit + [e]) == AllowedCodes(audit) + if e.allowed then [e.errorCode] else []
  {
    assert (audit + [e])[..|audit|] == audit;
  }

  lemma CodesAppend(log: seq<Event>, e: Event)
    ensures Codes(log + [e]) == Codes(log) + [e.code]
  {
    assert (log + [e])[..|log|] == log;
  }

  class Handler {
    const enabled: bool
    const engine: Engine
    const limiter: RateLimiter
    var audit: seq<AuditEntry>

    /** The latest moment any call has seen. */
    ghost var clock: int

    /** The limiter is in a reachable state of the one-at-a-time system with nobody in
        flight, and the allowed audit entries are the recorded uses, in order. */
    ghost predicate Valid()
      reads this, limiter
    {
      && Honest(engine)
      && Idle(limiter.cfg, limiter.View(), limiter.log, clock)
      && AllowedCodes(audit) == Codes(limiter.log)
    }

    /** The request got as far as a decision on a token. */
    predicate Decided(req: Option<CheckRequest>) {
      req.Some? && enabled && req.value.command != "" && engine(req.value).entry.Some?
    }

    constructor (enabled: bool, engine: Engine, cfg: Config, now: int)
      requires Honest(engine)
      ensures Valid() && fresh(limiter) && limiter.log == [] && audit == [] && limiter.cfg == cfg
    {
      this.enabled, this.engine := enabled, engine;
      limiter := new RateLimiter(cfg, now);
      audit := [];
      clock := now;
      new;
      StartInv(cfg, 1, now);
      assert Inv(limiter.cfg, 1, System(limiter.View(), limiter.log, multiset{}, now, clock));
    }

    /** A bypass is granted exactly when the engine allows the token and the limiter, at
        the time of the check, has room; then it is recorded at the (later) time of the
        record and audited as allowed. Every decided token is audited once. */
    method Check(req: Option<CheckRequest>, checkTime: int, recordTime: int) returns (resp: CheckResponse)
      requires Valid() && clock <= checkTime <= recordTime
      modifies this, limiter
      ensures Valid() && clock == recordTime
      ensures resp.bypassed <==>
        && req.Some? && enabled && req.value.command != ""
        && engine(req.value).allowed
        && Allows(limiter.cfg, Rolled(old(limiter.View()), checkTime), engine(req.value).entry.value.errorCode)
      ensures resp.bypassed ==>
        && limiter.log == old(limiter.log) + [Event(recordTime, resp.errorCode)]
        && resp.errorCode == engine(req.value).entry.value.errorCode
      ensures !resp.bypassed ==> limiter.log == old(limiter.log)
      ensures Decided(req) ==>
        && |audit| == |old(audit)| + 1 && old(audit) <= audit
        && audit[|audit| - 1].allowed == resp.bypassed
        && audit[|audit| - 1].errorCode == engine(req.value).entry.value.errorCode
      ensures !Decided(req) ==> audit == old(audit) && !resp.bypassed
      ensures req.None? ==> resp == CheckResponse(false, "no request provided", "", "", None)
      ensures req.Some? && !enabled ==> resp == CheckResponse(false, "exception system is disabled", "", "", None)
      ensures req.Some? && enabled && req.value.command == "" ==>
                resp == CheckResponse(false, "no command to parse", "", "", None)
      ensures req.Some? && enabled && req.value.command != "" ==>
                var result := engine(req.value);
                && (!result.allowed ==> resp == CheckResponse(false, result.reason, req.value.errorCode, "", None))
                && (result.allowed ==> resp.errorCode == result.entry.value.errorCode && resp.rateLimit.Some?)
                && (result.allowed && !resp.bypassed ==>
                      resp.reason == DenialReason(limiter.cfg, limiter.View(), resp.errorCode))
                && (resp.bypassed ==>
                      resp.reason == "exception allowed" && resp.tokenReason == result.entry.value.reason)
    {
      hide Idle, Honest, AllowedCodes, Codes, Allows, Rolled, Recorded;
      clock := recordTime;
      ghost var cfg, u, log := limiter.cfg, limiter.View(), limiter.log;
      IdleLater(cfg, u, log, old(clock), recordTime);
      if req.None? {
        return CheckResponse(false, "no request provided", "", "", None);
      }
      if !enabled {
        return CheckResponse(false, "exception system is disabled", "", "", None);
      }
      if req.value.command == "" {
        return CheckResponse(false, "no command to parse", "", "", None);
      }

      var result := engine(req.value);
      HonestAbout(engine, req.value);
      if !result.allowed {
        resp := HandlePolicyDenial(req.value, result);
        return;
      }

      var entry := result.entry.value;
      var rateLimit := limiter.Check(entry.errorCode, checkTime);
      if !rateLimit.allowed {
        IdleAfterDenial(cfg, u, log, old(clock), entry.errorCode, checkTime, recordTime);
        resp := HandleRateLimitDenial(entry, rateLimit);
        return;
      }
      IdleAfterBypass(cfg, u, log, old(clock), entry.errorCode, checkTime, recordTime);
      CodesAppend(log, Event(recordTime, entry.errorCode));
      resp := HandleAllowedException(entry, rateLimit, recordTime);
    }

    method HandlePolicyDenial(req: CheckRequest, result: ExceptionResult) returns (resp: CheckResponse)
      requires result.entry.Some? ==> !result.entry.value.allowed
      modifies this`audit
      ensures audit == old(audit) + if result.entry.Some? then [result.entry.value] else []
      ensures AllowedCodes(audit) == AllowedCodes(old(audit))
      ensures resp == CheckResponse(false, result.reason, req.errorCode, "", None)
    {
      if result.entry.Some? {
        AllowedCodesAppend(audit, result.entry.value);
        audit := audit + [result.entry.value];
      }
      return CheckResponse(false, result.reason, req.errorCode, "", None);
    }

    method HandleRateLimitDenial(entry: AuditEntry, rateLimit: CheckResult) returns (resp: CheckResponse)
      modifies this`audit
      ensures audit == old(audit) + [entry.(allowed := false, denialReason := rateLimit.reason)]
      ensures AllowedCodes(audit) == AllowedCodes(old(audit))
      ensures resp == CheckResponse(false, rateLimit.reason, entry.errorCode, "", Some(rateLimit))
    {
      var denied := entry.(allowed := false, denialReason := rateLimit.reason);
      AllowedCodesAppend(audit, denied);
      audit := audit + [denied];
      return CheckResponse(false, rateLimit.reason, entry.errorCode, "", Some(rateLimit));
    }

    method HandleAllowedException(entry: AuditEntry, rateLimit: CheckResult, now: int) returns (resp: CheckResponse)
      requires entry.allowed
      modifies this`audit, limiter
      ensures limiter.View() == Recorded(old(limiter.View()), entry.errorCode, now)
      ensures limiter.log == old(limiter.log) + [Event(now, entry.errorCode)]
      ensures audit == old(audit) + [entry]
      ensures AllowedCodes(audit) == AllowedCodes(old(audit)) + [entry.errorCode]
      ensures resp == CheckResponse(true, "exception allowed", entry.errorCode, entry.reason, Some(rateLimit))
    {
      limiter.Record(entry.errorCode, now);
      AllowedCodesAppend(audit, entry);
      audit := audit + [entry];
      return CheckResponse(true, "exception allowed", entry.errorCode, entry.reason, Some(rateLimit));
    }
  }

  lemma HonestAbout(engine: Engine, req: CheckRequest)
    requires Honest(engine)
    ensures engine(req).allowed ==> engine(req).entry.Some?
    ensures engine(req).entry.Some? ==> engine(req).entry.value.allowed == engine(req).allowed
  {
  }

  /** The limiter is where a run of one handler at a time can have brought it. */
  ghost predicate Idle(cfg: Config, u: Usage, log: seq<Event>, clock: int) {
    exists seen :: Inv(cfg, 1, System(u, log, multiset{}, seen, clock))
  }

  lemma IdleLater(cfg: Config, u: Usage, log: seq<Event>, clock: int, later: int)
    requires Idle(cfg, u, log, clock) && clock <= later
    ensures Idle(cfg, u, log, later)
  {
    hide Inv;
    var seen :| Inv(cfg, 1, System(u, log, multiset{}, seen, clock));
    NextKeepsInv(cfg, 1, System(u, log, multiset{}, seen, clock), Tick(later));
  }

  lemma IdleAfterDenial(cfg: Config, u: Usage, log: seq<Event>, clock: int, code: string, checkTime: int,
                        recordTime: int)
    requires Idle(cfg, u, log, clock) && clock <= checkTime <= recordTime
    requires !Allows(cfg, Rolled(u, checkTime), code)
    ensures Idle(cfg, Rolled(u, checkTime), log, recordTime)
  {
    hide Inv, Allows, Rolled;
    IdleLater(cfg, u, log, clock, checkTime);
    var seen :| Inv(cfg, 1, System(u, log, multiset{}, seen, checkTime));
    NextKeepsInv(cfg, 1, System(u, log, multiset{}, seen, checkTime), CheckFor(code));
    IdleLater(cfg, Rolled(u, checkTime), log, checkTime, recordTime);
  }

  lemma IdleAfterBypass(cfg: Config, u: Usage, log: seq<Event>, clock: int, code: string, checkTime: int,
                        recordTime: int)
    requires Idle(cfg, u, log, clock) && clock <= checkTime <= recordTime
    requires Allows(cfg, Rolled(u, checkTime), code)
    ensures Idle(cfg, Recorded(Rolled(u, checkTime), code, recordTime), log + [Event(recordTime, code)], recordTime)
  {
    hide Inv, Allows, Rolled, Recorded;
    IdleLater(cfg, u, log, clock, checkTime);
    var seen :| Inv(cfg, 1, System(u, log, multiset{}, seen, checkTime));
    var s := System(u, log, multiset{}, seen, checkTime);
    NextKeepsInv(cfg, 1, s, CheckFor(code));
    var checked := Next(cfg, s, CheckFor(code));
    NextKeepsInv(cfg, 1, checked, Tick(recordTime));
    var later := Next(cfg, checked, Tick(recordTime));
    NextKeepsInv(cfg, 1, later, RecordFor(code));
    var recorded := Next(cfg, later, RecordFor(code));
    assert multiset{} + multiset{code} - multiset{code} == multiset{};
    assert recorded == System(Recorded(Rolled(u, checkTime), code, recordTime),
                              log + [Event(recordTime, code)], multiset{}, recordTime, recordTime);
  }

  /** What a handler's validity means for its log: no positive limit was ever exceeded in
      any window. */
  lemma HandlerNeverExceeds(h: Handler, p: Period, start: int, scope: Scope)
    requires h.Valid() && h.limiter.cfg.Enabled() && h.limiter.cfg.Limit(p, scope) > 0
    ensures Count(h.limiter.log, p, start, scope) <= h.limiter.cfg.Limit(p, scope)
  {
    hide Count, Accurate, AddsUp;
    var cfg := h.limiter.cfg;
    var seen :| Inv(cfg, 1, System(h.limiter.View(), h.limiter.log, multiset{}, seen, h.clock));
    assert Within(cfg, 1, System(h.limiter.View(), h.limiter.log, multiset{}, seen, h.clock), p, scope);
  }
}
