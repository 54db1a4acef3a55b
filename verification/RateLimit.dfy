/** Rate limiting of exceptions: two windows, global and per-code counters, and a log
    of every recorded use that the counters are measured against. */
module RateLimit {
  import opened Wrappers

  // ----- time -----

  /** Nanoseconds. */
  const HOUR := 3_600_000_000_000
  const DAY := 24 * HOUR

  datatype Period = Hourly | Daily {
    function Length(): int {
      if Hourly? then HOUR else DAY
    }

    /** The start of the window `t` falls into. */
    function Truncate(t: int): (start: int)
      ensures start <= t < start + Length()
      ensures start % Length() == 0
    {
      t - t % Length()
    }
  }

  /** Every day boundary is an hour boundary. */
  lemma DayOfHour(t: int)
    ensures Daily.Truncate(Hourly.Truncate(t)) == Daily.Truncate(t)
  {
    var days, rest := t / DAY, t % DAY;
    var hours, minutes := rest / HOUR, rest % HOUR;
    HourRemainder(t, 24 * days + hours, minutes);
    DayRemainder(t - minutes, days, HOUR * hours);
  }

  lemma HourRemainder(t: int, q: int, r: int)
    requires 0 <= r < HOUR && t == HOUR * q + r
    ensures t % HOUR == r
  {
  }

  lemma DayRemainder(t: int, q: int, r: int)
    requires 0 <= r < DAY && t == DAY * q + r
    ensures t % DAY == r
  {
  }

  lemma TruncateMonotone(p: Period, a: int, b: int)
    requires a <= b
    ensures p.Truncate(a) <= p.Truncate(b)
  {
    if p.Hourly? {
    } else {
    }
  }

  // ----- configuration -----

  const DEFAULT_PER_HOUR := 10
  const DEFAULT_PER_DAY := 50

  datatype RateConfig = RateConfig(enabled: Option<bool>, maxPerHour: Option<int>, maxPerDay: Option<int>)

  datatype PolicyConfig = PolicyConfig(maxPerHour: Option<int>, maxPerDay: Option<int>)

  function Or<T>(o: Option<T>, default: T): T {
    if o.Some? then o.value else default
  }

  /** All uses, or the uses of one error code. */
  datatype Scope = Global | Code(code: string) {
    predicate Covers(c: string) {
      Global? || code == c
    }
  }

  datatype Config = Config(rate: Option<RateConfig>, policies: map<string, PolicyConfig>) {
    predicate Enabled() {
      rate.Some? ==> Or(rate.value.enabled, true)
    }

    /** The limit for a window; zero or less means unlimited. */
    function Limit(p: Period, scope: Scope): int {
      match scope
      case Global =>
        if p.Hourly? then
          if rate.None? then DEFAULT_PER_HOUR else Or(rate.value.maxPerHour, DEFAULT_PER_HOUR)
        else
          if rate.None? then DEFAULT_PER_DAY else Or(rate.value.maxPerDay, DEFAULT_PER_DAY)
      case Code(c) =>
        if c !in policies then 0
        else if p.Hourly? then Or(policies[c].maxPerHour, 0)
        else Or(policies[c].maxPerDay, 0)
    }
  }

  // ----- the limiter's state and operations, as functions -----

  datatype Usage = Usage(
    hourlyUsage: map<string, int>,
    dailyUsage: map<string, int>,
    globalHourly: int,
    globalDaily: int,
    hourStart: int,
    dayStart: int)
  {
    function Start(p: Period): int {
      if p.Hourly? then hourStart else dayStart
    }

    function Counter(p: Period, scope: Scope): int {
      match scope
      case Global => if p.Hourly? then globalHourly else globalDaily
      case Code(c) => Get(if p.Hourly? then hourlyUsage else dailyUsage, c)
    }
  }

  /** Reading a missing key of a counter map gives zero. */
  function Get(m: map<string, int>, k: string): int {
    if k in m then m[k] else 0
  }

  function Fresh(now: int): Usage {
    Usage(map[], map[], 0, 0, Hourly.Truncate(now), Daily.Truncate(now))
  }

  function RolledHour(u: Usage, now: int): Usage {
    if Hourly.Truncate(now) > u.hourStart
    then u.(globalHourly := 0, hourlyUsage := map[], hourStart := Hourly.Truncate(now))
    else u
  }

  function RolledDay(u: Usage, now: int): Usage {
    if Daily.Truncate(now) > u.dayStart
    then u.(globalDaily := 0, dailyUsage := map[], dayStart := Daily.Truncate(now))
    else u
  }

  function Rolled(u: Usage, now: int): Usage {
    RolledDay(RolledHour(u, now), now)
  }

  function Recorded(u: Usage, code: string, now: int): Usage {
    var r := Rolled(u, now);
    r.(globalHourly := r.globalHourly + 1,
       globalDaily := r.globalDaily + 1,
       hourlyUsage := r.hourlyUsage[code := Get(r.hourlyUsage, code) + 1],
       dailyUsage := r.dailyUsage[code := Get(r.dailyUsage, code) + 1])
  }

  predicate Exceeded(cfg: Config, u: Usage, p: Period, scope: Scope) {
    cfg.Limit(p, scope) > 0 && u.Counter(p, scope) >= cfg.Limit(p, scope)
  }

  /** Whether `u`, its windows current, lets another use of `code` pass. */
  predicate Allows(cfg: Config, u: Usage, code: string) {
    cfg.Enabled() ==> forall p: Period ::
      !Exceeded(cfg, u, p, Global) && !Exceeded(cfg, u, p, Code(code))
  }

  /** There is room under the limit, which limits only if it is positive. */
  predicate Free(limit: int, used: int) {
    limit <= 0 || used < limit
  }

  /** A use passes exactly when limiting was switched off or all four windows have room: ten an
      hour and fifty a day unless configured otherwise, no limit for a code without a policy. */
  lemma AllowsIff(cfg: Config, u: Usage, code: string)
    ensures Allows(cfg, u, code) <==>
              || (cfg.rate.Some? && cfg.rate.value.enabled == Some(false))
              || (&& Free(if cfg.rate.Some? && cfg.rate.value.maxPerHour.Some? then cfg.rate.value.maxPerHour.value
                          else 10, u.globalHourly)
                  && Free(if cfg.rate.Some? && cfg.rate.value.maxPerDay.Some? then cfg.rate.value.maxPerDay.value
                          else 50, u.globalDaily)
                  && (code in cfg.policies ==>
                        var policy := cfg.policies[code];
                        && (policy.maxPerHour.Some? ==> Free(policy.maxPerHour.value, Get(u.hourlyUsage, code)))
                        && (policy.maxPerDay.Some? ==> Free(policy.maxPerDay.value, Get(u.dailyUsage, code)))))
  {
    ExceededIff(cfg, u, Global);
    ExceededIff(cfg, u, Code(code));
    hide Exceeded;
    if Allows(cfg, u, code) && cfg.Enabled() {
      assert !Exceeded(cfg, u, Hourly, Global) && !Exceeded(cfg, u, Daily, Global);
    }
  }

  lemma ExceededIff(cfg: Config, u: Usage, scope: Scope)
    ensures forall p: Period :: Exceeded(cfg, u, p, scope) <==> !Free(cfg.Limit(p, scope), u.Counter(p, scope))
  {
  }

  // ----- the log -----

  datatype Event = Event(time: int, code: string)

  /** How many logged uses fall into the window of `p` starting at `start`. */
  function Count(log: seq<Event>, p: Period, start: int, scope: Scope): (n: nat)
    ensures n <= |log|
  {
    if log == [] then 0 else
      var e := log[|log| - 1];
      Count(log[..|log| - 1], p, start, scope) +
      if p.Truncate(e.time) == start && scope.Covers(e.code) then 1 else 0
  }

  /** Where the uses are that count in a window. */
  function UsesIn(log: seq<Event>, p: Period, start: int, scope: Scope): set<nat> {
    set i: nat | i < |log| && start <= log[i].time < start + p.Length() && (scope.Global? || scope.code == log[i].code)
  }

  /** The count is the number of uses from the start of the window to its end. */
  lemma {:induction false} CountIsUses(log: seq<Event>, p: Period, start: int, scope: Scope)
    requires start % p.Length() == 0
    ensures Count(log, p, start, scope) == |UsesIn(log, p, start, scope)|
  {
    if log != [] {
      var n := |log| - 1;
      CountIsUses(log[..n], p, start, scope);
      InWindow(p, log[n].time, start);
      var before := UsesIn(log[..n], p, start, scope);
      assert n !in before;
      assert UsesIn(log, p, start, scope) ==
             if p.Truncate(log[n].time) == start && scope.Covers(log[n].code) then before + {n} else before;
    }
  }

  lemma InWindow(p: Period, t: int, start: int)
    requires start % p.Length() == 0
    ensures p.Truncate(t) == start <==> start <= t < start + p.Length()
  {
    if start <= t < start + p.Length() {
      if p.Hourly? {
        HourRemainder(t, start / HOUR, t - start);
      } else {
        DayRemainder(t, start / DAY, t - start);
      }
    }
  }

  lemma CountAppend(log: seq<Event>, e: Event, p: Period, start: int, scope: Scope)
    ensures Count(log + [e], p, start, scope) ==
            Count(log, p, start, scope) + if p.Truncate(e.time) == start && scope.Covers(e.code) then 1 else 0
  {
    assert (log + [e])[..|log|] == log;
  }

  predicate LoggedBefore(log: seq<Event>, t: int) {
    forall i :: 0 <= i < |log| ==> log[i].time <= t
  }

  lemma {:induction false} NothingInLaterWindow(log: seq<Event>, t: int, p: Period, start: int, scope: Scope)
    requires LoggedBefore(log, t) && p.Truncate(t) < start
    ensures Count(log, p, start, scope) == 0
  {
    if log != [] {
      TruncateMonotone(p, log[|log| - 1].time, t);
      NothingInLaterWindow(log[..|log| - 1], t, p, start, scope);
    }
  }

  lemma {:induction false} HourWithinDay(log: seq<Event>, start: int, scope: Scope)
    requires start % HOUR == 0
    ensures Count(log, Hourly, start, scope) <= Count(log, Daily, Daily.Truncate(start), scope)
  {
    if log != [] {
      HourWithinDay(log[..|log| - 1], start, scope);
      DayOfHour(log[|log| - 1].time);
    }
  }

  /** The counters are exactly the logged uses in their windows, both windows are the
      ones that hold `last`, and nothing was logged after `last`. */
  ghost predicate Accurate(u: Usage, log: seq<Event>, last: int) {
    && LoggedBefore(log, last)
    && (forall p: Period :: u.Start(p) == p.Truncate(last))
    && (forall p: Period, scope: Scope :: u.Counter(p, scope) == Count(log, p, u.Start(p), scope))
  }

  lemma FreshAccurate(now: int)
    ensures Accurate(Fresh(now), [], now)
  {
    var u := Fresh(now);
    forall p: Period
      ensures u.Start(p) == p.Truncate(now)
    {
      assert p == Hourly || p == Daily;
    }
    var log: seq<Event> := [];
    forall p: Period, scope: Scope
      ensures u.Counter(p, scope) == Count(log, p, u.Start(p), scope)
    {
    }
    assert LoggedBefore(log, now);
    assert forall p: Period :: u.Start(p) == p.Truncate(now);
    assert Accurate(u, log, now);
  }

  lemma RolledCounters(u: Usage, now: int, p: Period, scope: Scope)
    requires forall q: Period :: u.Start(q) <= q.Truncate(now)
    ensures Rolled(u, now).Start(p) == p.Truncate(now)
    ensures Rolled(u, now).Counter(p, scope) == if u.Start(p) < p.Truncate(now) then 0 else u.Counter(p, scope)
  {
    assert u.Start(Hourly) <= Hourly.Truncate(now);
    assert u.Start(Daily) <= Daily.Truncate(now);
  }

  /** Sliding the windows forward keeps the counters accurate. */
  lemma RolledAccurate(u: Usage, log: seq<Event>, last: int, now: int)
    requires Accurate(u, log, last) && last <= now
    ensures Accurate(Rolled(u, now), log, now)
  {
    hide Count, Rolled;
    forall p: Period
      ensures u.Start(p) <= p.Truncate(now)
    {
      TruncateMonotone(p, last, now);
    }
    forall p: Period
      ensures Rolled(u, now).Start(p) == p.Truncate(now)
    {
      RolledCounters(u, now, p, Global);
    }
    forall p: Period, scope: Scope
      ensures Rolled(u, now).Counter(p, scope) == Count(log, p, p.Truncate(now), scope)
    {
      RolledCounters(u, now, p, scope);
      if u.Start(p) < p.Truncate(now) {
        NothingInLaterWindow(log, last, p, p.Truncate(now), scope);
      }
    }
  }

  /** Recording a use logs it and counts it in every window and scope it belongs to. */
  lemma RecordedAccurate(u: Usage, log: seq<Event>, last: int, code: string, now: int)
    requires Accurate(u, log, last) && last <= now
    ensures Accurate(Recorded(u, code, now), log + [Event(now, code)], now)
  {
    hide Count, Rolled;
    RolledAccurate(u, log, last, now);
    var r, t := Rolled(u, now), Recorded(u, code, now);
    forall p: Period
      ensures t.Start(p) == p.Truncate(now)
    {
      assert r.Start(p) == p.Truncate(now);
    }
    forall p: Period, scope: Scope
      ensures t.Counter(p, scope) == Count(log + [Event(now, code)], p, p.Truncate(now), scope)
    {
      assert r.Start(p) == p.Truncate(now);
      assert r.Counter(p, scope) == Count(log, p, r.Start(p), scope);
      CountAppend(log, Event(now, code), p, p.Truncate(now), scope);
    }
  }

  /** Hourly counts never exceed daily ones. */
  lemma HourlyWithinDaily(u: Usage, log: seq<Event>, last: int, scope: Scope)
    requires Accurate(u, log, last)
    ensures u.Counter(Hourly, scope) <= u.Counter(Daily, scope)
    ensures u.dayStart == Daily.Truncate(u.hourStart)
  {
    hide Count;
    assert u.Start(Hourly) == Hourly.Truncate(last) && u.Start(Daily) == Daily.Truncate(last);
    DayOfHour(last);
    HourWithinDay(log, u.hourStart, scope);
  }
}
