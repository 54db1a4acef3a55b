/** Whole runs of handlers that check the limiter and later record a use, the two under
    separate lock acquisitions, with the clock moving on in between. */
module RateLimitRuns {
  import opened Wrappers
  import opened RateLimit

  // ----- per-code usage adds up -----

  ghost function SumOf(m: map<string, int>): int
    decreases |m|
  {
    if m == map[] then 0 else
      var k :| k in m;
      m[k] + SumOf(m - {k})
  }

  lemma {:induction false} SumRemoving(m: map<string, int>, k: string)
    requires k in m
    ensures SumOf(m) == m[k] + SumOf(m - {k})
    decreases |m|
  {
    var j :| j in m && SumOf(m) == m[j] + SumOf(m - {j});
    if j != k {
      SumRemoving(m - {j}, k);
      SumRemoving(m - {k}, j);
      assert m - {j} - {k} == m - {k} - {j};
    }
  }

  lemma SumUpdate(m: map<string, int>, k: string, v: int)
    ensures SumOf(m[k := v]) == SumOf(m) - Get(m, k) + v
  {
    var n := m[k := v];
    SumRemoving(n, k);
    assert n - {k} == m - {k};
    if k in m {
      SumRemoving(m, k);
    } else {
      assert m - {k} == m;
    }
  }

  ghost predicate AddsUp(u: Usage) {
    SumOf(u.hourlyUsage) == u.globalHourly && SumOf(u.dailyUsage) == u.globalDaily
  }

  /** The per-code counters of a window always sum to its global counter. */
  lemma RecordedAddsUp(u: Usage, code: string, now: int)
    requires AddsUp(u)
    ensures AddsUp(Rolled(u, now)) && AddsUp(Recorded(u, code, now))
  {
    var r := Rolled(u, now);
    SumUpdate(r.hourlyUsage, code, Get(r.hourlyUsage, code) + 1);
    SumUpdate(r.dailyUsage, code, Get(r.dailyUsage, code) + 1);
  }

  // ----- handlers in flight -----

  /** `pending` holds the codes of handlers that passed the check and have not recorded
      yet; `seen` is when the limiter last looked at the clock. */
  datatype System = System(usage: Usage, log: seq<Event>, pending: multiset<string>, seen: int, clock: int)

  datatype Move =
    | Tick(now: int)
    | CheckFor(code: string)
    | RecordFor(code: string)

  function Start(now: int): System {
    System(Fresh(now), [], multiset{}, now, now)
  }

  /** At most `k` handlers are in flight at once. */
  predicate Can(k: nat, s: System, m: Move) {
    match m
    case Tick(now) => s.clock <= now
    case CheckFor(_) => |s.pending| < k
    case RecordFor(code) => code in s.pending
  }

  function Next(cfg: Config, s: System, m: Move): System {
    match m
    case Tick(now) => s.(clock := now)
    case CheckFor(code) =>
      var u := Rolled(s.usage, s.clock);
      s.(usage := u, seen := s.clock,
         pending := if Allows(cfg, u, code) then s.pending + multiset{code} else s.pending)
    case RecordFor(code) =>
      s.(usage := Recorded(s.usage, code, s.clock), seen := s.clock,
         log := s.log + [Event(s.clock, code)], pending := s.pending - multiset{code})
  }

  function Waiting(s: System, scope: Scope): nat {
    if scope.Global? then |s.pending| else s.pending[scope.code]
  }

  /** The most a window may hold with `k` handlers in flight. */
  function Bound(cfg: Config, k: nat, p: Period, scope: Scope): int {
    cfg.Limit(p, scope) + k - 1
  }

  /** No window holds more than the bound, and in the current one the uses still waiting
      to be recorded are already paid for. */
  ghost predicate Within(cfg: Config, k: nat, s: System, p: Period, scope: Scope) {
    && (forall start :: Count(s.log, p, start, scope) <= Bound(cfg, k, p, scope))
    && Count(s.log, p, p.Truncate(s.clock), scope) + Waiting(s, scope) <= Bound(cfg, k, p, scope)
  }

  ghost predicate Limited(cfg: Config, k: nat, s: System) {
    cfg.Enabled() ==> forall p: Period, scope: Scope :: cfg.Limit(p, scope) > 0 ==> Within(cfg, k, s, p, scope)
  }

  ghost predicate Inv(cfg: Config, k: nat, s: System) {
    && s.seen <= s.clock && Accurate(s.usage, s.log, s.seen) && AddsUp(s.usage)
    && |s.pending| <= k
    && Limited(cfg, k, s)
  }

  lemma WaitingAtMost(s: System, scope: Scope)
    ensures Waiting(s, scope) <= |s.pending|
  {
    if scope.Code? && scope.code in s.pending {
      var c := scope.code;
      assert s.pending == multiset{}[c := s.pending[c]] + (s.pending - multiset{}[c := s.pending[c]]);
    }
  }

  lemma TickWithin(cfg: Config, k: nat, s: System, now: int, p: Period, scope: Scope)
    requires Inv(cfg, k, s) && s.clock <= now && cfg.Enabled() && cfg.Limit(p, scope) > 0
    ensures Within(cfg, k, s.(clock := now), p, scope)
  {
    hide Count, AddsUp;
    assert Within(cfg, k, s, p, scope);
    var t := s.(clock := now);
    WaitingAtMost(t, scope);
    assert Waiting(t, scope) == Waiting(s, scope);
    TruncateMonotone(p, s.clock, now);
    TruncateMonotone(p, s.seen, now);
    if p.Truncate(s.clock) < p.Truncate(now) {
      TruncateMonotone(p, s.seen, s.clock);
      NothingInLaterWindow(s.log, s.seen, p, p.Truncate(now), scope);
    }
  }

  lemma CheckWithin(cfg: Config, k: nat, s: System, code: string, p: Period, scope: Scope)
    requires Inv(cfg, k, s) && |s.pending| < k && cfg.Enabled() && cfg.Limit(p, scope) > 0
    ensures Within(cfg, k, Next(cfg, s, CheckFor(code)), p, scope)
  {
    hide Count, AddsUp, Rolled;
    assert Within(cfg, k, s, p, scope);
    RolledAccurate(s.usage, s.log, s.seen, s.clock);
    var u, t := Rolled(s.usage, s.clock), Next(cfg, s, CheckFor(code));
    WaitingAtMost(s, scope);
    assert u.Counter(p, scope) == Count(s.log, p, u.Start(p), scope);
    assert u.Start(p) == p.Truncate(s.clock);
    if Allows(cfg, u, code) && scope.Covers(code) {
      assert !Exceeded(cfg, u, p, Global) && !Exceeded(cfg, u, p, Code(code));
      assert Waiting(t, scope) == Waiting(s, scope) + 1;
    } else {
      assert Waiting(t, scope) == Waiting(s, scope);
    }
  }

  lemma RecordWithin(cfg: Config, k: nat, s: System, code: string, p: Period, scope: Scope)
    requires Inv(cfg, k, s) && code in s.pending && cfg.Enabled() && cfg.Limit(p, scope) > 0
    ensures Within(cfg, k, Next(cfg, s, RecordFor(code)), p, scope)
  {
    hide Count, AddsUp, Recorded;
    assert Within(cfg, k, s, p, scope);
    var e, t := Event(s.clock, code), Next(cfg, s, RecordFor(code));
    forall start
      ensures Count(t.log, p, start, scope) ==
              Count(s.log, p, start, scope) + if p.Truncate(s.clock) == start && scope.Covers(code) then 1 else 0
    {
      CountAppend(s.log, e, p, start, scope);
    }
    assert Waiting(t, scope) == Waiting(s, scope) - if scope.Covers(code) then 1 else 0;
  }

  lemma NextKeepsInv(cfg: Config, k: nat, s: System, m: Move)
    requires Inv(cfg, k, s) && Can(k, s, m)
    ensures Inv(cfg, k, Next(cfg, s, m))
  {
    hide Accurate, AddsUp, Within, Rolled, Recorded;
    var t := Next(cfg, s, m);
    match m {
      case Tick(now) =>
      case CheckFor(code) =>
        RolledAccurate(s.usage, s.log, s.seen, s.clock);
        RecordedAddsUp(s.usage, code, s.clock);
      case RecordFor(code) =>
        RecordedAccurate(s.usage, s.log, s.seen, code, s.clock);
        RecordedAddsUp(s.usage, code, s.clock);
    }
    if cfg.Enabled() {
      forall p: Period, scope: Scope | cfg.Limit(p, scope) > 0
        ensures Within(cfg, k, t, p, scope)
      {
        match m {
          case Tick(now) => TickWithin(cfg, k, s, now, p, scope);
          case CheckFor(code) => CheckWithin(cfg, k, s, code, p, scope);
          case RecordFor(code) => RecordWithin(cfg, k, s, code, p, scope);
        }
      }
    }
  }

  lemma StartInv(cfg: Config, k: nat, now: int)
    requires k >= 1
    ensures Inv(cfg, k, Start(now))
  {
    FreshAccurate(now);
  }

  // ----- runs -----

  predicate Runs(cfg: Config, k: nat, s: System, moves: seq<Move>)
    decreases |moves|
  {
    moves == [] || (Can(k, s, moves[0]) && Runs(cfg, k, Next(cfg, s, moves[0]), moves[1..]))
  }

  function After(cfg: Config, s: System, moves: seq<Move>): System
    decreases |moves|
  {
    if moves == [] then s else After(cfg, Next(cfg, s, moves[0]), moves[1..])
  }

  lemma {:induction false} RunKeepsInv(cfg: Config, k: nat, s: System, moves: seq<Move>)
    requires Inv(cfg, k, s) && Runs(cfg, k, s, moves)
    ensures Inv(cfg, k, After(cfg, s, moves))
    decreases |moves|
  {
    hide Inv, Can, Next;
    if moves != [] {
      NextKeepsInv(cfg, k, s, moves[0]);
      RunKeepsInv(cfg, k, Next(cfg, s, moves[0]), moves[1..]);
    }
  }

  /** OVERSHOOT. With at most `k` handlers between check and record, no hour or day window,
      past or present, holds more than `k - 1` uses over a positive limit, wherever the
      windows roll over in between. */
  lemma OvershootIsBounded(cfg: Config, k: nat, now: int, moves: seq<Move>, p: Period, start: int, scope: Scope)
    requires k >= 1 && Runs(cfg, k, Start(now), moves) && cfg.Enabled() && cfg.Limit(p, scope) > 0
    ensures Count(After(cfg, Start(now), moves).log, p, start, scope) <= cfg.Limit(p, scope) + k - 1
  {
    hide Runs, After, Accurate, AddsUp;
    StartInv(cfg, k, now);
    RunKeepsInv(cfg, k, Start(now), moves);
    assert Within(cfg, k, After(cfg, Start(now), moves), p, scope);
  }

  /** One handler at a time never exceeds a limit, even if the clock moves on between its
      check and its record. */
  lemma OneAtATimeNeverExceeds(cfg: Config, now: int, moves: seq<Move>, p: Period, start: int, scope: Scope)
    requires Runs(cfg, 1, Start(now), moves) && cfg.Enabled() && cfg.Limit(p, scope) > 0
    ensures Count(After(cfg, Start(now), moves).log, p, start, scope) <= cfg.Limit(p, scope)
  {
    hide Runs, After;
    OvershootIsBounded(cfg, 1, now, moves, p, start, scope);
  }

  /** In every reachable state the counters are the logged uses of the current windows,
      per-code counts sum to the global one, hours stay within days, and the day window
      is the one that holds the hour window. */
  lemma CountersAreExact(cfg: Config, k: nat, now: int, moves: seq<Move>, p: Period, scope: Scope)
    requires k >= 1 && Runs(cfg, k, Start(now), moves)
    ensures var s := After(cfg, Start(now), moves);
            && s.usage.Counter(p, scope) == Count(s.log, p, s.usage.Start(p), scope)
            && SumOf(s.usage.hourlyUsage) == s.usage.globalHourly
            && SumOf(s.usage.dailyUsage) == s.usage.globalDaily
            && s.usage.Counter(Hourly, scope) <= s.usage.Counter(Daily, scope)
            && s.usage.dayStart == Daily.Truncate(s.usage.hourStart)
  {
    hide Runs, After, Limited;
    StartInv(cfg, k, now);
    RunKeepsInv(cfg, k, Start(now), moves);
    var s := After(cfg, Start(now), moves);
    HourlyWithinDaily(s.usage, s.log, s.seen, scope);
  }

  // ----- the bound is tight -----

  function For<T>(here: bool, t: T, f: T): T {
    if here then t else f
  }

  /** Only the limit of `p` for `scope` is set. */
  function OnlyLimit(p: Period, scope: Scope, max: int): Config {
    var (hour, day) := (Some(For(p.Hourly?, max, 0)), Some(For(p.Daily?, max, 0)));
    match scope
    case Global => Config(Some(RateConfig(Some(true), hour, day)), map[])
    case Code(c) => Config(Some(RateConfig(Some(true), Some(0), Some(0))), map[c := PolicyConfig(hour, day)])
  }

  lemma OnlyLimitIs(p: Period, scope: Scope, max: int, q: Period, other: Scope)
    ensures OnlyLimit(p, scope, max).Enabled()
    ensures OnlyLimit(p, scope, max).Limit(q, other) == if q == p && other == scope then max else 0
  {
  }

  function CodeIn(scope: Scope): string {
    if scope.Global? then "X" else scope.code
  }

  /** `count` uses of the code recorded in the first window and `waiting` more checked. */
  ghost predicate At(k: nat, p: Period, scope: Scope, max: int, s: System, count: nat, waiting: nat) {
    && Inv(OnlyLimit(p, scope, max), k, s) && s.seen == s.clock == 0
    && Count(s.log, p, 0, scope) == count
    && |s.pending| == s.pending[CodeIn(scope)] == waiting
  }

  /** Below the one limit, the code is let through. */
  lemma LetThrough(k: nat, p: Period, scope: Scope, max: int, s: System, count: nat, waiting: nat)
    requires At(k, p, scope, max, s, count, waiting) && count < max
    ensures Allows(OnlyLimit(p, scope, max), Rolled(s.usage, 0), CodeIn(scope))
  {
    hide Count, Limited, AddsUp, Rolled, OnlyLimit, CodeIn;
    var cfg, u := OnlyLimit(p, scope, max), Rolled(s.usage, 0);
    RolledAccurate(s.usage, s.log, 0, 0);
    AccurateCounter(u, s.log, 0, p, scope);
    AccurateStart(u, s.log, 0, p);
    forall q: Period, other: Scope
      ensures !Exceeded(cfg, u, q, other)
    {
      hide Accurate;
      OnlyLimitIs(p, scope, max, q, other);
    }
  }

  lemma AccurateCounter(u: Usage, log: seq<Event>, last: int, p: Period, scope: Scope)
    requires Accurate(u, log, last)
    ensures u.Counter(p, scope) == Count(log, p, u.Start(p), scope)
  {
    hide Count;
  }

  lemma AccurateStart(u: Usage, log: seq<Event>, last: int, p: Period)
    requires Accurate(u, log, last) && last == 0
    ensures u.Start(p) == 0
  {
    hide Count;
  }

  lemma CheckOne(k: nat, p: Period, scope: Scope, max: int, s: System, count: nat, waiting: nat)
    requires At(k, p, scope, max, s, count, waiting) && count < max && waiting < k
    ensures Can(k, s, CheckFor(CodeIn(scope)))
    ensures At(k, p, scope, max, Next(OnlyLimit(p, scope, max), s, CheckFor(CodeIn(scope))), count, waiting + 1)
  {
    hide Count, Inv, Rolled, OnlyLimit, Allows, CodeIn;
    InvClock(OnlyLimit(p, scope, max), k, s);
    LetThrough(k, p, scope, max, s, count, waiting);
    NextKeepsInv(OnlyLimit(p, scope, max), k, s, CheckFor(CodeIn(scope)));
  }

  lemma InvClock(cfg: Config, k: nat, s: System)
    requires Inv(cfg, k, s)
    ensures s.seen <= s.clock && |s.pending| <= k
  {
    hide Limited, Accurate, AddsUp;
  }

  lemma RecordOne(k: nat, p: Period, scope: Scope, max: int, s: System, count: nat, waiting: nat)
    requires At(k, p, scope, max, s, count, waiting) && waiting > 0
    ensures Can(k, s, RecordFor(CodeIn(scope)))
    ensures At(k, p, scope, max, Next(OnlyLimit(p, scope, max), s, RecordFor(CodeIn(scope))), count + 1, waiting - 1)
  {
    hide Count, Limited, AddsUp, Recorded, Accurate, OnlyLimit;
    NextKeepsInv(OnlyLimit(p, scope, max), k, s, RecordFor(CodeIn(scope)));
    CountAppend(s.log, Event(0, CodeIn(scope)), p, 0, scope);
  }

  /** Fill the window one at a time but for one use, let `k` handlers check, then let them
      all record. */
  lemma Overshoot(k: nat, p: Period, scope: Scope, max: int, s: System, count: nat, waiting: nat, draining: bool)
    returns (moves: seq<Move>)
    requires k >= 1 && At(k, p, scope, max, s, count, waiting) && waiting <= k
    requires if draining then count + waiting == max + k - 1 else count < max && (count < max - 1 ==> waiting == 0)
    ensures Runs(OnlyLimit(p, scope, max), k, s, moves)
    ensures Count(After(OnlyLimit(p, scope, max), s, moves).log, p, 0, scope) == max + k - 1
    decreases !draining, if draining then 0 else max - count, if draining then waiting else k - waiting
  {
    hide Can, Next, Count, Inv, OnlyLimit, CodeIn;
    var cfg, check, record := OnlyLimit(p, scope, max), CheckFor(CodeIn(scope)), RecordFor(CodeIn(scope));
    if draining && waiting == 0 {
      moves := [];
    } else if draining || waiting == k {
      RecordOne(k, p, scope, max, s, count, waiting);
      var rest := Overshoot(k, p, scope, max, Next(cfg, s, record), count + 1, waiting - 1, true);
      moves := [record] + rest;
    } else if count < max - 1 {
      CheckOne(k, p, scope, max, s, count, waiting);
      var t := Next(cfg, s, check);
      RecordOne(k, p, scope, max, t, count, 1);
      var rest := Overshoot(k, p, scope, max, Next(cfg, t, record), count + 1, 0, false);
      moves := [check, record] + rest;
      assert moves[1..] == [record] + rest;
    } else {
      CheckOne(k, p, scope, max, s, count, waiting);
      var rest := Overshoot(k, p, scope, max, Next(cfg, s, check), count, waiting + 1, false);
      moves := [check] + rest;
    }
  }

  /** The overshoot of `k - 1` happens, in hours and in days, globally and for each code: the
      bound cannot be lowered. */
  lemma OvershootIsReached(k: nat, p: Period, scope: Scope, max: int)
    requires k >= 1 && max >= 1
    ensures exists moves :: OvershootsBy(k, p, scope, max, moves)
  {
    hide Runs, After, OnlyLimit;
    StartInv(OnlyLimit(p, scope, max), k, 0);
    var moves := Overshoot(k, p, scope, max, Start(0), 0, 0, false);
    OnlyLimitIs(p, scope, max, p, scope);
    assert OvershootsBy(k, p, scope, max, moves);
  }

  ghost predicate OvershootsBy(k: nat, p: Period, scope: Scope, max: int, moves: seq<Move>) {
    var cfg := OnlyLimit(p, scope, max);
    && cfg.Enabled() && cfg.Limit(p, scope) == max
    && Runs(cfg, k, Start(0), moves)
    && Count(After(cfg, Start(0), moves).log, p, 0, scope) == max + k - 1
  }
}
