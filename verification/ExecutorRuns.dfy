/** What holds in every reachable state of the parallel executor, and over whole runs. */
module ExecutorRuns {
  import opened Executor

  // ----- invariants -----

  /** Every pool's count is the number of goroutines holding its permits, within its size. */
  ghost predicate PermitsCounted(vs: seq<Validator>, size: Pools, s: State)
    requires |s.pcs| == |vs|
  {
    forall c: Category ::
      && s.used.For(c) == Total(vs, s.pcs, Permits(c), |vs|)
      && (s.used.For(c) <= size.For(c) || s.used.For(c) == 0)
  }

  /** A permit was held by whoever runs or ran, so its pool has room for one. */
  predicate RanWithRoom(vs: seq<Validator>, size: Pools, s: State)
    requires |s.pcs| == |vs|
  {
    forall i :: 0 <= i < |vs| && (s.pcs[i].HoldsPermit() || s.pcs[i].Recorded()) ==> size.For(vs[i].category) > 0
  }

  predicate GroupCounted(vs: seq<Validator>, s: State)
    requires |s.pcs| == |vs|
  {
    s.waitGroup == Total(vs, s.pcs, Lives(), |vs|)
  }

  /** The mutex is held by exactly one goroutine or by none. */
  ghost predicate MutexHeldOnce(s: State) {
    && (s.mutex <==> exists i :: 0 <= i < |s.pcs| && s.pcs[i].HoldsMutex())
    && (forall i, j :: 0 <= i < |s.pcs| && 0 <= j < |s.pcs| && s.pcs[i].HoldsMutex() && s.pcs[j].HoldsMutex() ==>
        i == j)
  }

  /** Nobody appends to a slice that has moved on. */
  predicate ReadsCurrent(s: State) {
    forall i :: 0 <= i < |s.pcs| && s.pcs[i].Appending? ==> s.pcs[i].read == s.results
  }

  predicate ResultsCollected(vs: seq<Validator>, s: State)
    requires |s.pcs| == |vs|
  {
    multiset(s.results) == Collected(vs, s.pcs, |vs|)
  }

  predicate GivesUpOnlyWhenCancelled(s: State) {
    !s.cancelled ==> forall i :: 0 <= i < |s.pcs| ==> !s.pcs[i].GaveUp()
  }

  predicate ReturnsLast(s: State) {
    s.returned ==> forall i :: 0 <= i < |s.pcs| ==> s.pcs[i].Finished?
  }

  ghost predicate Inv(vs: seq<Validator>, size: Pools, s: State) {
    && |s.pcs| == |vs|
    && PermitsCounted(vs, size, s) && RanWithRoom(vs, size, s)
    && GroupCounted(vs, s)
    && MutexHeldOnce(s) && ReadsCurrent(s)
    && ResultsCollected(vs, s) && FailedOnly(vs, s)
    && GivesUpOnlyWhenCancelled(s) && ReturnsLast(s)
  }

  // ----- every step keeps them -----

  /** The goroutine an action moves, if any. */
  predicate Moves(a: Action) {
    a.Spawn? || a.Advance? || a.GiveUp?
  }

  lemma OneGoroutineMoves(vs: seq<Validator>, size: Pools, s: State, a: Action)
    requires |s.pcs| == |vs| && Enabled(vs, size, s, a)
    ensures var t := Do(vs, size, s, a);
            if Moves(a) then a.i < |vs| && t.pcs == s.pcs[a.i := t.pcs[a.i]] else t.pcs == s.pcs
  {
  }

  /** What a step does to the permits of one category. */
  lemma PermitsMove(vs: seq<Validator>, size: Pools, s: State, a: Action, c: Category)
    requires |s.pcs| == |vs| && Enabled(vs, size, s, a) && Moves(a)
    ensures var t := Do(vs, size, s, a);
            var held, holds := PermitOf(vs[a.i], s.pcs[a.i], c), PermitOf(vs[a.i], t.pcs[a.i], c);
            && t.used.For(c) - s.used.For(c) == holds - held
            && (holds > held ==> s.used.For(c) < size.For(c))
  {
    if a.Advance? && (s.pcs[a.i].Acquiring? || s.pcs[a.i].Releasing?) {
      assert Do(vs, size, s, a).used == s.used.With(vs[a.i].category, Do(vs, size, s, a).used.For(vs[a.i].category));
    } else {
      assert Do(vs, size, s, a).used == s.used;
    }
  }

  lemma KeepsPermitsOf(vs: seq<Validator>, size: Pools, s: State, a: Action, c: Category)
    requires |s.pcs| == |vs| && Enabled(vs, size, s, a) && Moves(a)
    requires s.used.For(c) == Total(vs, s.pcs, Permits(c), |vs|)
    requires s.used.For(c) <= size.For(c) || s.used.For(c) == 0
    ensures var t := Do(vs, size, s, a);
            && t.used.For(c) == Total(vs, t.pcs, Permits(c), |vs|)
            && (t.used.For(c) <= size.For(c) || t.used.For(c) == 0)
  {
    hide Total, Enabled, Do, PermitOf;
    var t := Do(vs, size, s, a);
    OneGoroutineMoves(vs, size, s, a);
    PermitsMove(vs, size, s, a, c);
    TotalUpdate(vs, s.pcs, Permits(c), |vs|, a.i, t.pcs[a.i]);
    PermitWeights(c);
    TotalAtLeast(vs, s.pcs, Permits(c), |vs|, a.i);
    TotalAtLeast(vs, t.pcs, Permits(c), |vs|, a.i);
  }

  lemma PermitWeights(c: Category)
    ensures forall v, pc :: Permits(c)(v, pc) == PermitOf(v, pc, c) && 0 <= PermitOf(v, pc, c) <= 1
  {
  }

  lemma KeepsPermits(vs: seq<Validator>, size: Pools, s: State, a: Action)
    requires |s.pcs| == |vs| && Enabled(vs, size, s, a) && PermitsCounted(vs, size, s)
    ensures PermitsCounted(vs, size, Do(vs, size, s, a))
  {
    hide Total, Permits;
    if Moves(a) {
      forall c: Category
        ensures Do(vs, size, s, a).used.For(c) == Total(vs, Do(vs, size, s, a).pcs, Permits(c), |vs|)
        ensures Do(vs, size, s, a).used.For(c) <= size.For(c) || Do(vs, size, s, a).used.For(c) == 0
      {
        hide Do, Enabled;
        KeepsPermitsOf(vs, size, s, a, c);
      }
    }
  }

  lemma KeepsRoom(vs: seq<Validator>, size: Pools, s: State, a: Action)
    requires |s.pcs| == |vs| && Enabled(vs, size, s, a)
    requires PermitsCounted(vs, size, s) && RanWithRoom(vs, size, s)
    ensures RanWithRoom(vs, size, Do(vs, size, s, a))
  {
    hide Total;
    OneGoroutineMoves(vs, size, s, a);
    if Moves(a) {
      TotalAtLeast(vs, s.pcs, Permits(vs[a.i].category), |vs|, a.i);
    }
  }

  lemma KeepsGroup(vs: seq<Validator>, size: Pools, s: State, a: Action)
    requires |s.pcs| == |vs| && Enabled(vs, size, s, a) && GroupCounted(vs, s)
    ensures GroupCounted(vs, Do(vs, size, s, a))
  {
    hide Total;
    OneGoroutineMoves(vs, size, s, a);
    if Moves(a) {
      TotalUpdate(vs, s.pcs, Lives(), |vs|, a.i, Do(vs, size, s, a).pcs[a.i]);
    }
  }

  /** What a step does to the mutex. */
  lemma MutexMoves(vs: seq<Validator>, size: Pools, s: State, a: Action)
    requires |s.pcs| == |vs| && Enabled(vs, size, s, a) && Moves(a)
    ensures var t := Do(vs, size, s, a);
            var held, holds := s.pcs[a.i].HoldsMutex(), t.pcs[a.i].HoldsMutex();
            if held == holds then t.mutex == s.mutex else t.mutex == holds && (s.mutex ==> held)
  {
  }

  lemma KeepsMutex(vs: seq<Validator>, size: Pools, s: State, a: Action)
    requires |s.pcs| == |vs| && Enabled(vs, size, s, a) && MutexHeldOnce(s)
    ensures MutexHeldOnce(Do(vs, size, s, a))
  {
    if Moves(a) {
      hide Do, Enabled;
      var t := Do(vs, size, s, a);
      OneGoroutineMoves(vs, size, s, a);
      MutexMoves(vs, size, s, a);
      HolderMoves(s, t, a.i);
    }
  }

  lemma HolderMoves(s: State, t: State, i: nat)
    requires MutexHeldOnce(s) && i < |s.pcs| == |t.pcs| && t.pcs == s.pcs[i := t.pcs[i]]
    requires var held, holds := s.pcs[i].HoldsMutex(), t.pcs[i].HoldsMutex();
             if held == holds then t.mutex == s.mutex else t.mutex == holds && (s.mutex ==> held)
    ensures MutexHeldOnce(t)
  {
    assert forall j :: 0 <= j < |s.pcs| && j != i ==> t.pcs[j] == s.pcs[j];
    if s.mutex && !s.pcs[i].HoldsMutex() {
      var j :| 0 <= j < |s.pcs| && s.pcs[j].HoldsMutex();
      assert t.pcs[j].HoldsMutex();
    }
    assert t.pcs[i].HoldsMutex() ==> t.mutex;
  }

  lemma KeepsReads(vs: seq<Validator>, size: Pools, s: State, a: Action)
    requires |s.pcs| == |vs| && Enabled(vs, size, s, a) && MutexHeldOnce(s) && ReadsCurrent(s)
    ensures ReadsCurrent(Do(vs, size, s, a))
  {
    OneGoroutineMoves(vs, size, s, a);
  }

  lemma KeepsResults(vs: seq<Validator>, size: Pools, s: State, a: Action)
    requires |s.pcs| == |vs| && Enabled(vs, size, s, a) && ReadsCurrent(s) && ResultsCollected(vs, s)
    requires FailedOnly(vs, s)
    ensures ResultsCollected(vs, Do(vs, size, s, a))
  {
    if Moves(a) {
      var t := Do(vs, size, s, a);
      OneGoroutineMoves(vs, size, s, a);
      ContributionMoves(vs, size, s, a);
      hide *;
      CollectedUpdate(vs, s.pcs, |vs|, a.i, t.pcs[a.i]);
      ResultsFollow(vs, s, t, a.i);
    }
  }

  /** What a step adds to the shared slice is what its goroutine adds to the collection. */
  lemma ContributionMoves(vs: seq<Validator>, size: Pools, s: State, a: Action)
    requires |s.pcs| == |vs| && Enabled(vs, size, s, a) && ReadsCurrent(s) && FailedOnly(vs, s) && Moves(a)
    ensures AddsOwn(vs[a.i], s, Do(vs, size, s, a), a.i)
  {
    hide Contribution;
    var v, pc := vs[a.i], s.pcs[a.i];
    if a.Advance? {
      NextRecords(v, a.i, s);
    }
    var next := Do(vs, size, s, a).pcs[a.i];
    if pc.Appending? {
      ContributionIs(v, pc);
      ContributionIs(v, next);
    } else {
      assert next.Recorded() == pc.Recorded() || v.verdict.passed;
      ContributionIs(v, pc);
      ContributionIs(v, next);
    }
  }

  lemma NextRecords(v: Validator, i: nat, s: State)
    requires i < |s.pcs| && !s.pcs[i].Unstarted? && !s.pcs[i].Finished?
    ensures var t, next := DoNext(v, i, s), DoNext(v, i, s).pcs[i];
            if s.pcs[i].Appending? then
              t.results == s.pcs[i].read + [ToValidationError(v)] && next.Recorded()
            else
              t.results == s.results && (next.Recorded() == s.pcs[i].Recorded() || v.verdict.passed)
  {
  }

  lemma ContributionIs(v: Validator, pc: Pc)
    ensures pc.Recorded() && !v.verdict.passed ==> Contribution(v, pc) == multiset{ToValidationError(v)}
    ensures !pc.Recorded() || v.verdict.passed ==> Contribution(v, pc) == multiset{}
  {
  }

  predicate AddsOwn(v: Validator, s: State, t: State, i: nat) {
    && i < |s.pcs| == |t.pcs|
    && (if s.pcs[i].Appending? then
          && t.results == s.results + [ToValidationError(v)]
          && Contribution(v, s.pcs[i]) == multiset{} && Contribution(v, t.pcs[i]) == multiset{ToValidationError(v)}
        else
          t.results == s.results && Contribution(v, t.pcs[i]) == Contribution(v, s.pcs[i]))
  }

  lemma DropCommon<T>(a: multiset<T>, b: multiset<T>, c: multiset<T>)
    requires a + c == b + c
    ensures a == b
  {
    forall e: T
      ensures a[e] == b[e]
    {
      assert (a + c)[e] == (b + c)[e];
    }
  }

  lemma ResultsFollow(vs: seq<Validator>, s: State, t: State, i: nat)
    requires i < |vs| == |s.pcs| == |t.pcs| && AddsOwn(vs[i], s, t, i) && ResultsCollected(vs, s)
    requires Collected(vs, t.pcs, |vs|) + Contribution(vs[i], s.pcs[i]) ==
              Collected(vs, s.pcs, |vs|) + Contribution(vs[i], t.pcs[i])
    ensures ResultsCollected(vs, t)
  {
    hide Collected, Contribution;
    if !s.pcs[i].Appending? {
      DropCommon(Collected(vs, t.pcs, |vs|), Collected(vs, s.pcs, |vs|), Contribution(vs[i], s.pcs[i]));
    }
  }

  /** Only a failed validator gets as far as the mutex. */
  predicate FailedOnly(vs: seq<Validator>, s: State)
    requires |s.pcs| == |vs|
  {
    forall i :: 0 <= i < |vs| && (s.pcs[i].Locking? || s.pcs[i].HoldsMutex()) ==> !vs[i].verdict.passed
  }

  lemma KeepsFailedOnly(vs: seq<Validator>, size: Pools, s: State, a: Action)
    requires |s.pcs| == |vs| && Enabled(vs, size, s, a) && FailedOnly(vs, s)
    ensures FailedOnly(vs, Do(vs, size, s, a))
  {
    OneGoroutineMoves(vs, size, s, a);
  }

  lemma KeepsGiveUps(vs: seq<Validator>, size: Pools, s: State, a: Action)
    requires |s.pcs| == |vs| && Enabled(vs, size, s, a) && GivesUpOnlyWhenCancelled(s)
    ensures GivesUpOnlyWhenCancelled(Do(vs, size, s, a))
  {
    OneGoroutineMoves(vs, size, s, a);
  }

  lemma KeepsReturn(vs: seq<Validator>, size: Pools, s: State, a: Action)
    requires |s.pcs| == |vs| && Enabled(vs, size, s, a) && GroupCounted(vs, s) && ReturnsLast(s)
    ensures ReturnsLast(Do(vs, size, s, a))
  {
    hide Total;
    OneGoroutineMoves(vs, size, s, a);
    if a.Return? {
      forall i | 0 <= i < |s.pcs|
        ensures s.pcs[i].Finished?
      {
        TotalAtLeast(vs, s.pcs, Lives(), |vs|, i);
      }
    }
  }

  lemma StepKeepsInv(vs: seq<Validator>, size: Pools, s: State, a: Action)
    requires Inv(vs, size, s) && Enabled(vs, size, s, a)
    ensures Inv(vs, size, Do(vs, size, s, a))
  {
    hide *;
    InvParts(vs, size, s);
    assert |Do(vs, size, s, a).pcs| == |vs|;
    KeepsPermits(vs, size, s, a);
    KeepsRoom(vs, size, s, a);
    KeepsGroup(vs, size, s, a);
    KeepsMutex(vs, size, s, a);
    KeepsReads(vs, size, s, a);
    KeepsResults(vs, size, s, a);
    KeepsFailedOnly(vs, size, s, a);
    KeepsGiveUps(vs, size, s, a);
    KeepsReturn(vs, size, s, a);
    InvFromParts(vs, size, Do(vs, size, s, a));
  }

  lemma InvParts(vs: seq<Validator>, size: Pools, s: State)
    requires Inv(vs, size, s)
    ensures |s.pcs| == |vs|
    ensures PermitsCounted(vs, size, s) && RanWithRoom(vs, size, s) && GroupCounted(vs, s)
    ensures MutexHeldOnce(s) && ReadsCurrent(s) && ResultsCollected(vs, s) && FailedOnly(vs, s)
    ensures GivesUpOnlyWhenCancelled(s) && ReturnsLast(s)
  {
  }

  lemma InvFromParts(vs: seq<Validator>, size: Pools, s: State)
    requires |s.pcs| == |vs|
    requires PermitsCounted(vs, size, s) && RanWithRoom(vs, size, s) && GroupCounted(vs, s)
    requires MutexHeldOnce(s) && ReadsCurrent(s) && ResultsCollected(vs, s) && FailedOnly(vs, s)
    requires GivesUpOnlyWhenCancelled(s) && ReturnsLast(s)
    ensures Inv(vs, size, s)
  {
  }

  lemma {:induction false} NobodyCounts(vs: seq<Validator>, pcs: seq<Pc>, w: Weight, n: nat)
    requires n <= |pcs| == |vs|
    requires forall i :: 0 <= i < n ==> w(vs[i], pcs[i]) == 0
    ensures Total(vs, pcs, w, n) == 0
  {
    if n > 0 {
      NobodyCounts(vs, pcs, w, n - 1);
    }
  }

  lemma {:induction false} NothingCollected(vs: seq<Validator>, pcs: seq<Pc>, n: nat)
    requires n <= |pcs| == |vs|
    requires forall i :: 0 <= i < n ==> !pcs[i].Recorded()
    ensures Collected(vs, pcs, n) == multiset{}
  {
    if n > 0 {
      NothingCollected(vs, pcs, n - 1);
    }
  }

  lemma InitInv(vs: seq<Validator>, size: Pools)
    requires |vs| > 0
    ensures Inv(vs, size, Init(|vs|))
  {
    hide Total, Collected;
    var s := Init(|vs|);
    assert forall i :: 0 <= i < |vs| ==> s.pcs[i] == Unstarted;
    forall c: Category
      ensures Total(vs, s.pcs, Permits(c), |vs|) == 0
    {
      forall i | 0 <= i < |vs|
        ensures Permits(c)(vs[i], s.pcs[i]) == 0
      {
        assert !s.pcs[i].HoldsPermit();
      }
      NobodyCounts(vs, s.pcs, Permits(c), |vs|);
    }
    NobodyCounts(vs, s.pcs, Lives(), |vs|);
    NothingCollected(vs, s.pcs, |vs|);
  }

  // ----- runs -----

  predicate Runs(vs: seq<Validator>, size: Pools, s: State, actions: seq<Action>)
    requires |s.pcs| == |vs|
    decreases |actions|
  {
    actions == [] || (Enabled(vs, size, s, actions[0]) && Runs(vs, size, Do(vs, size, s, actions[0]), actions[1..]))
  }

  function After(vs: seq<Validator>, size: Pools, s: State, actions: seq<Action>): (t: State)
    requires |s.pcs| == |vs| && Runs(vs, size, s, actions)
    ensures |t.pcs| == |vs|
    decreases |actions|
  {
    if actions == [] then s else After(vs, size, Do(vs, size, s, actions[0]), actions[1..])
  }

  lemma {:induction false} RunKeepsInv(vs: seq<Validator>, size: Pools, s: State, actions: seq<Action>)
    requires Inv(vs, size, s) && Runs(vs, size, s, actions)
    ensures Inv(vs, size, After(vs, size, s, actions))
    decreases |actions|
  {
    hide Inv, Enabled, Do;
    InvParts(vs, size, s);
    if actions != [] {
      StepKeepsInv(vs, size, s, actions[0]);
      RunKeepsInv(vs, size, Do(vs, size, s, actions[0]), actions[1..]);
    }
  }

  // ----- safety -----

  /** The goroutines that run a validator of category `c` right now. */
  function RunningIn(vs: seq<Validator>, pcs: seq<Pc>, c: Category, n: nat): (r: set<nat>)
    requires n <= |pcs| == |vs|
  {
    set i: nat | i < n && pcs[i].Running? && vs[i].category == c
  }

  lemma {:induction false} RunningHoldPermits(vs: seq<Validator>, pcs: seq<Pc>, c: Category, n: nat)
    requires n <= |pcs| == |vs|
    ensures |RunningIn(vs, pcs, c, n)| <= Total(vs, pcs, Permits(c), n)
  {
    if n > 0 {
      hide Permits;
      PermitWeights(c);
      RunningHoldPermits(vs, pcs, c, n - 1);
      var before := RunningIn(vs, pcs, c, n - 1);
      if pcs[n - 1].Running? && vs[n - 1].category == c {
        assert RunningIn(vs, pcs, c, n) == before + {n - 1};
      } else {
        assert RunningIn(vs, pcs, c, n) == before;
      }
    }
  }

  /** SAFETY. However the goroutines interleave, no more validators of a category run at
      once than its pool has permits. */
  lemma PoolsAreRespected(vs: seq<Validator>, size: Pools, actions: seq<Action>, c: Category)
    requires |vs| > 1 && Runs(vs, size, Init(|vs|), actions)
    ensures WithinPool(|RunningIn(vs, After(vs, size, Init(|vs|), actions).pcs, c, |vs|)|, size, c)
  {
    hide Runs, After, Total;
    InitInv(vs, size);
    RunKeepsInv(vs, size, Init(|vs|), actions);
    RunningHoldPermits(vs, After(vs, size, Init(|vs|), actions).pcs, c, |vs|);
  }

  /** A pool without permits, whatever its size says, has room for nobody. */
  predicate WithinPool(running: nat, size: Pools, c: Category) {
    running <= size.For(c) || running == 0
  }

  /** How many validators of a category may run at once. A validator alone is run directly,
      without a goroutine and without a permit. */
  ghost predicate MayRunAtOnce(vs: seq<Validator>, size: Pools, c: Category, running: nat) {
    if |vs| <= 1 then
      running == 0 || (running == 1 && |vs| == 1 && vs[0].category == c)
    else
      exists actions :: ReachesRunning(vs, size, actions, c, running)
  }

  ghost predicate ReachesRunning(vs: seq<Validator>, size: Pools, actions: seq<Action>, c: Category, running: nat) {
    && Runs(vs, size, Init(|vs|), actions)
    && |RunningIn(vs, After(vs, size, Init(|vs|), actions).pcs, c, |vs|)| == running
  }

  /** THE BOUND. The pools are respected exactly when there is not just one validator, or its
      pool has a permit. */
  lemma PoolsAreRespectedIff(vs: seq<Validator>, size: Pools)
    ensures (forall c: Category, running: nat :: MayRunAtOnce(vs, size, c, running) ==> WithinPool(running, size, c))
       <==> |vs| != 1 || size.For(vs[0].category) > 0
  {
    hide Runs, After;
    if |vs| == 1 {
      assert MayRunAtOnce(vs, size, vs[0].category, 1);
    } else if |vs| > 1 {
      forall c: Category, running: nat | MayRunAtOnce(vs, size, c, running)
        ensures WithinPool(running, size, c)
      {
        var actions :| ReachesRunning(vs, size, actions, c, running);
        PoolsAreRespected(vs, size, actions, c);
      }
    }
  }

  // ----- how many run at once -----

  function OfCategory(vs: seq<Validator>, c: Category, from: nat): set<nat> {
    set i: nat | from <= i < |vs| && vs[i].category == c
  }

  function PermitsFor(size: Pools, c: Category): int {
    match c
    case CPU => size.cpu
    case IO => size.io
    case Git => size.git
  }

  /** Every goroutine waits for a permit, but for those before `i` that run in category `c`. */
  ghost predicate Filling(vs: seq<Validator>, c: Category, s: State, i: nat) {
    && |s.pcs| == |vs| && i <= |vs| && !s.cancelled
    && (forall j :: i <= j < |vs| ==> s.pcs[j].Acquiring?)
    && (forall j :: 0 <= j < i ==> s.pcs[j].Acquiring? || (s.pcs[j].Running? && vs[j].category == c))
    && s.used.For(c) == |RunningIn(vs, s.pcs, c, |vs|)|
  }

  /** Goroutine `i` gets its permit and starts its validator. */
  lemma StartOne(vs: seq<Validator>, size: Pools, c: Category, s: State, i: nat) returns (t: State)
    requires Filling(vs, c, s, i) && i < |vs| && vs[i].category == c && s.used.For(c) < size.For(c)
    ensures Runs(vs, size, s, [Advance(i), Advance(i)]) && t == After(vs, size, s, [Advance(i), Advance(i)])
    ensures Filling(vs, c, t, i + 1)
    ensures |RunningIn(vs, t.pcs, c, |vs|)| == |RunningIn(vs, s.pcs, c, |vs|)| + 1
  {
    var u := Do(vs, size, s, Advance(i));
    t := Do(vs, size, u, Advance(i));
    assert Runs(vs, size, u, [Advance(i)]) && After(vs, size, u, [Advance(i)]) == t by {
      assert [Advance(i)][1..] == [];
    }
    assert [Advance(i), Advance(i)][1..] == [Advance(i)];
    assert t.pcs == s.pcs[i := Running];
    assert RunningIn(vs, t.pcs, c, |vs|) == RunningIn(vs, s.pcs, c, |vs|) + {i};
  }

  lemma {:induction false} RunConcat(vs: seq<Validator>, size: Pools, s: State, a: seq<Action>, b: seq<Action>)
    requires |s.pcs| == |vs| && Runs(vs, size, s, a) && Runs(vs, size, After(vs, size, s, a), b)
    ensures Runs(vs, size, s, a + b) && After(vs, size, s, a + b) == After(vs, size, After(vs, size, s, a), b)
    decreases |a|
  {
    hide Enabled, Do;
    if a == [] {
      assert a + b == b;
    } else {
      assert (a + b)[1..] == a[1..] + b;
      RunConcat(vs, size, Do(vs, size, s, a[0]), a[1..], b);
    }
  }

  lemma {:induction false} FillPool(vs: seq<Validator>, size: Pools, c: Category, s: State, i: nat, running: nat)
    returns (actions: seq<Action>)
    requires Filling(vs, c, s, i) && running <= size.For(c)
    requires var now := |RunningIn(vs, s.pcs, c, |vs|)|; now <= running <= now + |OfCategory(vs, c, i)|
    ensures |s.pcs| == |vs| && Runs(vs, size, s, actions)
    ensures |RunningIn(vs, After(vs, size, s, actions).pcs, c, |vs|)| == running
    decreases |vs| - i
  {
    hide Enabled, Do, RunningIn;
    actions := [];
    if |RunningIn(vs, s.pcs, c, |vs|)| < running {
      assert i < |vs| by {
        assert i >= |vs| ==> OfCategory(vs, c, i) == {};
      }
      if vs[i].category == c {
        assert OfCategory(vs, c, i) == OfCategory(vs, c, i + 1) + {i};
        var t := StartOne(vs, size, c, s, i);
        var rest := FillPool(vs, size, c, t, i + 1, running);
        RunConcat(vs, size, s, [Advance(i), Advance(i)], rest);
        actions := [Advance(i), Advance(i)] + rest;
      } else {
        assert OfCategory(vs, c, i) == OfCategory(vs, c, i + 1);
        actions := FillPool(vs, size, c, s, i + 1, running);
      }
    }
  }

  /** The first `k` goroutines are started, and none has moved. */
  ghost predicate Starting(vs: seq<Validator>, s: State, k: nat) {
    && |s.pcs| == |vs| && k <= |vs| && !s.cancelled && s.used == Pools(0, 0, 0)
    && (forall j :: 0 <= j < k ==> s.pcs[j].Acquiring?) && (forall j :: k <= j < |vs| ==> s.pcs[j].Unstarted?)
  }

  lemma {:induction false} SpawnAll(vs: seq<Validator>, size: Pools, s: State, k: nat) returns (actions: seq<Action>)
    requires Starting(vs, s, k)
    ensures |s.pcs| == |vs| && Runs(vs, size, s, actions) && Starting(vs, After(vs, size, s, actions), |vs|)
    decreases |vs| - k
  {
    actions := [];
    if k < |vs| {
      var rest := SpawnAll(vs, size, Do(vs, size, s, Spawn(k)), k + 1);
      actions := [Spawn(k)] + rest;
    }
  }

  lemma StartedIsFilling(vs: seq<Validator>, c: Category, s: State)
    requires Starting(vs, s, |vs|)
    ensures Filling(vs, c, s, 0) && RunningIn(vs, s.pcs, c, |vs|) == {}
  {
    assert RunningIn(vs, s.pcs, c, |vs|) == {};
  }

  /** EXACT. Of several validators, as many of a category can run at once as there are and its
      pool has permits, and no more. */
  lemma RunningAtOnceIff(vs: seq<Validator>, size: Pools, c: Category, running: nat)
    requires |vs| > 1
    ensures MayRunAtOnce(vs, size, c, running) <==>
              running == 0 || (running <= PermitsFor(size, c) && running <= |OfCategory(vs, c, 0)|)
  {
    hide Runs, After, Inv, RunningIn;
    if MayRunAtOnce(vs, size, c, running) {
      var actions :| ReachesRunning(vs, size, actions, c, running);
      PoolsAreRespected(vs, size, actions, c);
      RunningAreOf(vs, After(vs, size, Init(|vs|), actions).pcs, c);
    }
    if running == 0 || (running <= PermitsFor(size, c) && running <= |OfCategory(vs, c, 0)|) {
      InitStarts(vs);
      var spawns := SpawnAll(vs, size, Init(|vs|), 0);
      var s := After(vs, size, Init(|vs|), spawns);
      StartedIsFilling(vs, c, s);
      var actions: seq<Action> := [];
      if running > 0 {
        actions := FillPool(vs, size, c, s, 0, running);
      } else {
        NoActions(vs, size, s);
      }
      RunConcat(vs, size, Init(|vs|), spawns, actions);
      assert ReachesRunning(vs, size, spawns + actions, c, running);
    }
  }

  lemma InitStarts(vs: seq<Validator>)
    ensures Starting(vs, Init(|vs|), 0)
  {
  }

  lemma NoActions(vs: seq<Validator>, size: Pools, s: State)
    requires |s.pcs| == |vs|
    ensures Runs(vs, size, s, []) && After(vs, size, s, []) == s
  {
  }

  lemma RunningAreOf(vs: seq<Validator>, pcs: seq<Pc>, c: Category)
    requires |pcs| == |vs|
    ensures |RunningIn(vs, pcs, c, |vs|)| <= |OfCategory(vs, c, 0)|
  {
    var running, all := RunningIn(vs, pcs, c, |vs|), OfCategory(vs, c, 0);
    assert all == running + (all - running);
  }

  // ----- cancellation -----

  /** The validator has been started. */
  predicate WasStarted(pc: Pc) {
    pc.Running? || pc.Locking? || pc.HoldsMutex() || pc.Recorded()
  }

  /** Once the context is cancelled no validator is started any more. */
  lemma {:induction false} NoStartOnceCancelled(vs: seq<Validator>, size: Pools, s: State, actions: seq<Action>)
    requires |s.pcs| == |vs| && s.cancelled && Runs(vs, size, s, actions)
    ensures var t := After(vs, size, s, actions);
            t.cancelled && forall i :: 0 <= i < |vs| && WasStarted(t.pcs[i]) ==> WasStarted(s.pcs[i])
    decreases |actions|
  {
    if actions != [] {
      hide Enabled, Do, WasStarted;
      NoneStarts(vs, size, s, actions[0]);
      NoStartOnceCancelled(vs, size, Do(vs, size, s, actions[0]), actions[1..]);
    }
  }

  lemma NoneStarts(vs: seq<Validator>, size: Pools, s: State, a: Action)
    requires |s.pcs| == |vs| && s.cancelled && Enabled(vs, size, s, a)
    ensures var t := Do(vs, size, s, a);
            t.cancelled && forall i :: 0 <= i < |vs| && WasStarted(t.pcs[i]) ==> WasStarted(s.pcs[i])
  {
    OneGoroutineMoves(vs, size, s, a);
  }

  // ----- refinement of the sequential executor -----

  lemma ReturnedResults(vs: seq<Validator>, size: Pools, s: State)
    requires Inv(vs, size, s) && s.returned
    ensures multiset(s.results) <= multiset(Failures(vs))
    ensures !s.cancelled ==> multiset(s.results) == multiset(Failures(vs))
  {
    hide Collected, Failures, PermitsCounted, MutexHeldOnce, GroupCounted;
    CollectedWithinFailures(vs, s.pcs, |vs|);
    assert vs[..|vs|] == vs;
  }

  lemma SameErrorsBlockAlike(a: seq<ValidationError>, b: seq<ValidationError>)
    requires multiset(a) <= multiset(b)
    ensures ShouldBlock(a) ==> ShouldBlock(b)
  {
    if ShouldBlock(a) {
      var e :| e in a && e.shouldBlock;
      assert e in multiset(a);
      assert e in multiset(b);
    }
  }

  /** What the parallel executor may return. */
  ghost predicate MayReturn(vs: seq<Validator>, size: Pools, results: seq<ValidationError>, cancelled: bool) {
    if |vs| <= 1 then
      results == Failures(vs)
    else
      exists actions :: ReturnsWith(vs, size, actions, results, cancelled)
  }

  ghost predicate ReturnsWith(vs: seq<Validator>, size: Pools, actions: seq<Action>,
                              results: seq<ValidationError>, cancelled: bool)
  {
    && Runs(vs, size, Init(|vs|), actions)
    && var s := After(vs, size, Init(|vs|), actions);
       s.returned && s.results == results && s.cancelled == cancelled
  }

  /** REFINEMENT. Every interleaving returns a permutation of the sequential executor's
      errors, so the verdict is the same; when the context is cancelled on the way it
      returns some of them. */
  lemma ParallelRefinesSequential(vs: seq<Validator>, size: Pools, results: seq<ValidationError>, cancelled: bool)
    requires MayReturn(vs, size, results, cancelled)
    ensures multiset(results) <= multiset(Failures(vs))
    ensures ShouldBlock(results) ==> ShouldBlock(Failures(vs))
    ensures !cancelled ==>
              multiset(results) == multiset(Failures(vs)) && ShouldBlock(results) == ShouldBlock(Failures(vs))
    ensures forall e :: e in results ==> exists v :: v in vs && Reports(e, v)
    ensures !cancelled ==> (ShouldBlock(results) <==> exists v :: v in vs && Blocks(v))
  {
    hide Runs, After, Failures, ShouldBlock, Inv, Reports, Blocks;
    FailuresBlock(vs);
    FailuresAreReports(vs);
    if |vs| > 1 {
      var actions :| ReturnsWith(vs, size, actions, results, cancelled);
      InitInv(vs, size);
      RunKeepsInv(vs, size, Init(|vs|), actions);
      ReturnedResults(vs, size, After(vs, size, Init(|vs|), actions));
    }
    SameErrorsBlockAlike(results, Failures(vs));
    forall e | e in results
      ensures e in Failures(vs)
    {
      assert e in multiset(results) && e in multiset(Failures(vs));
    }
    if !cancelled {
      SameErrorsBlockAlike(Failures(vs), results);
    }
  }

  // ----- progress -----

  function Measure(vs: seq<Validator>, s: State): int
    requires |s.pcs| == |vs|
  {
    Total(vs, s.pcs, Steps(), |vs|) + (if s.cancelled then 0 else 1) + (if s.returned then 0 else 1)
  }

  lemma StepsDecrease(vs: seq<Validator>, size: Pools, s: State, a: Action)
    requires |s.pcs| == |vs| && Enabled(vs, size, s, a)
    ensures 0 <= Measure(vs, Do(vs, size, s, a)) < Measure(vs, s)
  {
    hide Total;
    var t := Do(vs, size, s, a);
    OneGoroutineMoves(vs, size, s, a);
    TotalAtLeast(vs, t.pcs, Steps(), |vs|, |vs|);
    if Moves(a) {
      TotalUpdate(vs, s.pcs, Steps(), |vs|, a.i, t.pcs[a.i]);
    }
  }

  lemma {:induction false} RunsAreShort(vs: seq<Validator>, size: Pools, s: State, actions: seq<Action>)
    requires |s.pcs| == |vs| && Runs(vs, size, s, actions)
    ensures |actions| <= Measure(vs, s)
    decreases |actions|
  {
    hide Enabled, Do;
    if actions != [] {
      hide Measure;
      StepsDecrease(vs, size, s, actions[0]);
      RunsAreShort(vs, size, Do(vs, size, s, actions[0]), actions[1..]);
    } else {
      hide Total;
      TotalAtLeast(vs, s.pcs, Steps(), |vs|, |vs|);
    }
  }

  predicate RoomForAll(vs: seq<Validator>, size: Pools) {
    forall i :: 0 <= i < |vs| ==> size.For(vs[i].category) > 0
  }

  /** In a state that has not returned, something other than a cancellation can happen. */
  lemma SomeStepIsEnabled(vs: seq<Validator>, size: Pools, s: State) returns (a: Action)
    requires Inv(vs, size, s) && !s.returned && RoomForAll(vs, size)
    ensures Enabled(vs, size, s, a) && !a.Cancel? && (Moves(a) ==> a.i < |vs|)
  {
    hide Total, Collected, ResultsCollected, RanWithRoom, FailedOnly, ReadsCurrent;
    if i :| 0 <= i < |vs| && s.pcs[i].Unstarted? {
      var first := FirstUnstarted(s.pcs, i);
      a := Spawn(first);
    } else if i :| 0 <= i < |vs| && !s.pcs[i].Acquiring? && !s.pcs[i].Locking? && !s.pcs[i].Finished? {
      a := Advance(i);
    } else if i :| 0 <= i < |vs| && s.pcs[i].Locking? {
      a := Advance(i);
    } else if i :| 0 <= i < |vs| && s.pcs[i].Acquiring? {
      NobodyCounts(vs, s.pcs, Permits(vs[i].category), |vs|);
      a := Advance(i);
    } else {
      NobodyCounts(vs, s.pcs, Lives(), |vs|);
      a := Return;
    }
  }

  lemma FirstUnstarted(pcs: seq<Pc>, n: nat) returns (i: nat)
    requires n < |pcs| && pcs[n].Unstarted?
    ensures i <= n && pcs[i].Unstarted? && forall j :: 0 <= j < i ==> !pcs[j].Unstarted?
  {
    i := 0;
    while !pcs[i].Unstarted?
      invariant i <= n && forall j :: 0 <= j < i ==> !pcs[j].Unstarted?
      decreases n - i
    {
      i := i + 1;
    }
  }

  /** PROGRESS. Any run is at most ten steps a validator and two more, and as long as
      every pool in use has a permit, a run that cannot go on has returned. */
  lemma EveryRunReturns(vs: seq<Validator>, size: Pools, actions: seq<Action>)
    requires |vs| > 0 && Runs(vs, size, Init(|vs|), actions)
    ensures |actions| <= 10 * |vs| + 2
    ensures var s := After(vs, size, Init(|vs|), actions);
            RoomForAll(vs, size) && !s.returned ==> exists a: Action :: !a.Cancel? && Enabled(vs, size, s, a)
  {
    hide Runs, After, Enabled, Total, RoomForAll;
    RunsAreShort(vs, size, Init(|vs|), actions);
    InitialSteps(vs, |vs|);
    InitInv(vs, size);
    RunKeepsInv(vs, size, Init(|vs|), actions);
    var s := After(vs, size, Init(|vs|), actions);
    if RoomForAll(vs, size) && !s.returned {
      var a := SomeStepIsEnabled(vs, size, s);
    }
  }

  lemma {:induction false} InitialSteps(vs: seq<Validator>, n: nat)
    requires n <= |vs|
    ensures Total(vs, Init(|vs|).pcs, Steps(), n) == 10 * n
  {
    if n > 0 {
      InitialSteps(vs, n - 1);
    }
  }

  /** The condition is needed: among several validators, one whose pool has no permit keeps
      every run that is not cancelled from returning. */
  lemma NoPermitNoReturn(vs: seq<Validator>, size: Pools, actions: seq<Action>)
    requires |vs| > 1 && Runs(vs, size, Init(|vs|), actions) && !RoomForAll(vs, size)
    ensures var s := After(vs, size, Init(|vs|), actions); s.returned ==> s.cancelled
  {
    hide Runs, After, PermitsCounted, GroupCounted, ResultsCollected, MutexHeldOnce;
    InitInv(vs, size);
    RunKeepsInv(vs, size, Init(|vs|), actions);
    var i :| 0 <= i < |vs| && size.For(vs[i].category) <= 0;
    var s := After(vs, size, Init(|vs|), actions);
    assert s.returned ==> s.pcs[i].Finished?;
  }

  /** With room for all, a run can be brought to its end without cancelling it. */
  lemma FinishRun(vs: seq<Validator>, size: Pools, s: State) returns (actions: seq<Action>)
    requires Inv(vs, size, s) && !s.cancelled && RoomForAll(vs, size)
    ensures |s.pcs| == |vs| && Runs(vs, size, s, actions)
    ensures After(vs, size, s, actions).returned && !After(vs, size, s, actions).cancelled
    decreases |s.pcs| == |vs|, if |s.pcs| == |vs| then Measure(vs, s) else 0
  {
    InvParts(vs, size, s);
    hide Inv, Enabled, Do, Measure, RoomForAll;
    if s.returned {
      actions := [];
    } else {
      var a := SomeStepIsEnabled(vs, size, s);
      StepKeepsInv(vs, size, s, a);
      StepsDecrease(vs, size, s, a);
      OnlyCancelCancels(vs, size, s, a);
      var rest := FinishRun(vs, size, Do(vs, size, s, a));
      actions := [a] + rest;
    }
  }

  /** RETURNING. Without cancellation the executor can return exactly when there is at most
      one validator, or every pool in use has a permit. */
  lemma ReturnsUncancelledIff(vs: seq<Validator>, size: Pools)
    ensures (exists results :: MayReturn(vs, size, results, false)) <==> |vs| <= 1 || RoomForAll(vs, size)
  {
    hide Runs, After, Inv, Failures, RoomForAll;
    if |vs| <= 1 {
      assert MayReturn(vs, size, Failures(vs), false);
    } else if RoomForAll(vs, size) {
      InitInv(vs, size);
      var actions := FinishRun(vs, size, Init(|vs|));
      assert ReturnsWith(vs, size, actions, After(vs, size, Init(|vs|), actions).results, false);
      assert MayReturn(vs, size, After(vs, size, Init(|vs|), actions).results, false);
    } else {
      forall results
        ensures !MayReturn(vs, size, results, false)
      {
        if MayReturn(vs, size, results, false) {
          var actions :| ReturnsWith(vs, size, actions, results, false);
          NoPermitNoReturn(vs, size, actions);
        }
      }
    }
  }

  // ----- the executor under an arbitrary scheduler -----

  function Actions(n: nat): set<Action> {
    (set i: nat | i < n :: Spawn(i)) + (set i: nat | i < n :: Advance(i)) +
    (set i: nat | i < n :: GiveUp(i)) + {Cancel, Return}
  }

  /** Runs the goroutines in any order the scheduler likes; terminates. The context may be
      cancelled at any time, but only if `mayCancel`. */
  method ParallelExecute(vs: seq<Validator>, size: Pools, mayCancel: bool)
    returns (results: seq<ValidationError>, cancelled: bool)
    requires |vs| > 1 ==> RoomForAll(vs, size)
    ensures multiset(results) <= multiset(Failures(vs))
    ensures !cancelled ==> multiset(results) == multiset(Failures(vs))
    ensures !cancelled ==> (ShouldBlock(results) <==> exists v :: v in vs && Blocks(v))
    ensures !mayCancel ==> !cancelled
  {
    hide Inv, Enabled, Do, Failures, Measure, RoomForAll, ShouldBlock, Blocks;
    FailuresBlock(vs);
    if |vs| == 0 {
      NoFailures(vs);
      return [], false;
    }
    if |vs| == 1 {
      OneFailure(vs);
      if !vs[0].verdict.passed {
        return [ToValidationError(vs[0])], false;
      }
      return [], false;
    }

    var s := Init(|vs|);
    InitInv(vs, size);
    while !s.returned
      invariant |s.pcs| == |vs| && Inv(vs, size, s) && (s.cancelled ==> mayCancel)
      decreases Measure(vs, s)
    {
      ghost var next := SomeStepIsEnabled(vs, size, s);
      assert next in Actions(|vs|);
      var a :| a in Actions(|vs|) && Enabled(vs, size, s, a) && (a.Cancel? ==> mayCancel);
      StepKeepsInv(vs, size, s, a);
      StepsDecrease(vs, size, s, a);
      OnlyCancelCancels(vs, size, s, a);
      s := Do(vs, size, s, a);
    }
    ReturnedResults(vs, size, s);
    if !s.cancelled {
      SameErrorsBlockAlike(s.results, Failures(vs));
      SameErrorsBlockAlike(Failures(vs), s.results);
    }
    return s.results, s.cancelled;
  }

  lemma OnlyCancelCancels(vs: seq<Validator>, size: Pools, s: State, a: Action)
    requires |s.pcs| == |vs| && Enabled(vs, size, s, a)
    ensures Do(vs, size, s, a).cancelled <==> s.cancelled || a.Cancel?
  {
  }

  lemma NoFailures(vs: seq<Validator>)
    requires vs == []
    ensures Failures(vs) == []
  {
  }

  lemma OneFailure(vs: seq<Validator>)
    requires |vs| == 1
    ensures Failures(vs) == if vs[0].verdict.passed then [] else [ToValidationError(vs[0])]
  {
    assert vs[..0] == [];
    NoFailures(vs[..0]);
  }
}
