/** Sequential and parallel execution of validators. The parallel executor is a step
    system: one goroutine per validator, three pools of permits, one mutex. */
module Executor {
  import opened Collections

  datatype Category = CPU | IO | Git

  /** What a deterministic validator answers in the hook context at hand. */
  datatype Verdict = Verdict(
    passed: bool,
    message: string,
    details: map<string, string>,
    shouldBlock: bool,
    reference: string,
    fixHint: string)

  datatype Validator = Validator(name: string, category: Category, verdict: Verdict)

  datatype ValidationError = ValidationError(
    validator: string,
    message: string,
    details: map<string, string>,
    shouldBlock: bool,
    reference: string,
    fixHint: string)

  function ToValidationError(v: Validator): ValidationError {
    ValidationError(v.name, v.verdict.message, v.verdict.details, v.verdict.shouldBlock,
                    v.verdict.reference, v.verdict.fixHint)
  }

  predicate ShouldBlock(errors: seq<ValidationError>) {
    exists e :: e in errors && e.shouldBlock
  }

  // ----- sequential execution -----

  /** The errors of the validators that fail, in order. */
  function Failures(vs: seq<Validator>): seq<ValidationError> {
    if vs == [] then [] else
      var v := vs[|vs| - 1];
      Failures(vs[..|vs| - 1]) + if v.verdict.passed then [] else [ToValidationError(v)]
  }

  /** `e` is what the failed validator `v` answered, field for field. */
  predicate Reports(e: ValidationError, v: Validator) {
    && !v.verdict.passed && e.validator == v.name && e.message == v.verdict.message
    && e.details == v.verdict.details && e.shouldBlock == v.verdict.shouldBlock
    && e.reference == v.verdict.reference && e.fixHint == v.verdict.fixHint
  }

  lemma FailuresOneMore(vs: seq<Validator>)
    requires vs != []
    ensures var (n, v) := (|vs| - 1, vs[|vs| - 1]);
            Failures(vs) == Failures(vs[..n]) + if v.verdict.passed then [] else [ToValidationError(v)]
  {
  }

  lemma NoneFailed()
    ensures Failures([]) == []
  {
  }

  /** The errors say, field for field and in order, what the validators that failed answered. */
  lemma {:induction false} FailuresReport(vs: seq<Validator>) returns (at: seq<nat>)
    ensures Increasing(at, |vs|) && |at| == |Failures(vs)|
    ensures forall i: nat {:trigger i in at} :: i < |vs| ==> (i in at <==> !vs[i].verdict.passed)
    ensures forall k :: 0 <= k < |at| ==> at[k] < |vs| && Reports(Failures(vs)[k], vs[at[k]])
  {
    hide Failures, Increasing, TakenToo;
    NoIndexes();
    NoneFailed();
    at := [];
    if vs != [] {
      var n := |vs| - 1;
      var before := FailuresReport(vs[..n]);
      FailuresOneMore(vs);
      IncreasingOneMore(before, n, !vs[n].verdict.passed);
      at := TakenToo(before, n, !vs[n].verdict.passed);
    }
  }

  lemma FailuresAreReports(vs: seq<Validator>)
    ensures forall e :: e in Failures(vs) ==> exists v :: v in vs && Reports(e, v)
  {
    hide Failures;
    var at := FailuresReport(vs);
    forall e | e in Failures(vs)
      ensures exists v :: v in vs && Reports(e, v)
    {
      var k :| 0 <= k < |at| && Failures(vs)[k] == e;
      assert vs[at[k]] in vs && at[k] in at;
    }
  }

  /** The validator failed and is to block. */
  predicate Blocks(v: Validator) {
    !v.verdict.passed && v.verdict.shouldBlock
  }

  /** The errors block exactly when a validator that failed says so: warnings do not. */
  lemma FailuresBlock(vs: seq<Validator>)
    ensures ShouldBlock(Failures(vs)) <==> exists v :: v in vs && Blocks(v)
  {
    hide Failures;
    var at := FailuresReport(vs);
    if v :| v in vs && Blocks(v) {
      var i :| 0 <= i < |vs| && vs[i] == v;
      assert i in at;
      var k :| 0 <= k < |at| && at[k] == i;
      assert Failures(vs)[k] in Failures(vs);
    }
    if e :| e in Failures(vs) && e.shouldBlock {
      var k :| 0 <= k < |at| && Failures(vs)[k] == e;
      assert vs[at[k]] in vs;
    }
  }

  /** How many of `n` validators are run: up to the first poll that finds the context done. */
  function Polled(done: nat -> bool, n: nat): (k: nat)
    ensures k <= n && (k < n ==> done(k))
    ensures forall i: nat :: i < k ==> !done(i)
  {
    if n == 0 then 0 else
      var k := Polled(done, n - 1);
      if k < n - 1 || done(n - 1) then k else n
  }

  /** `done(i)` is what polling the context answers before validator `i`. */
  method SequentialExecute(vs: seq<Validator>, done: nat -> bool) returns (errors: seq<ValidationError>)
    ensures errors == Failures(vs[..Polled(done, |vs|)])
    ensures ShouldBlock(errors) <==> exists v :: v in vs[..Polled(done, |vs|)] && Blocks(v)
    ensures forall e :: e in errors ==> exists v :: v in vs[..Polled(done, |vs|)] && Reports(e, v)
  {
    hide ShouldBlock, Blocks, Reports;
    FailuresBlock(vs[..Polled(done, |vs|)]);
    FailuresAreReports(vs[..Polled(done, |vs|)]);
    errors := [];
    for i := 0 to |vs|
      invariant errors == Failures(vs[..i])
      invariant forall j: nat :: j < i ==> !done(j)
    {
      if done(i) {
        return;
      }
      assert vs[..i + 1][..i] == vs[..i];
      if !vs[i].verdict.passed {
        errors := errors + [ToValidationError(vs[i])];
      }
    }
    assert vs[..|vs|] == vs;
  }

  // ----- the parallel executor as a step system -----

  datatype Pools = Pools(cpu: int, io: int, git: int) {
    /** The pool a category draws from. */
    function For(c: Category): int {
      match c
      case IO => io
      case Git => git
      case CPU => cpu
    }

    function With(c: Category, n: int): (p: Pools)
      ensures forall d :: p.For(d) == if d == c then n else For(d)
    {
      match c
      case IO => this.(io := n)
      case Git => this.(git := n)
      case CPU => this.(cpu := n)
    }
  }

  /** Where a goroutine is. `ran` remembers whether its validator was run to the end. */
  datatype Pc =
    | Unstarted
    | Acquiring                              // about to acquire a permit
    | Acquired                               // permit held, context not polled yet
    | Running                                // validating
    | Locking                                // validator failed, waiting for the mutex
    | Locked                                 // mutex held
    | Appending(read: seq<ValidationError>)  // has read the shared slice
    | Appended                               // has stored the longer slice
    | Releasing(ran: bool)                   // about to release the permit
    | Finishing(ran: bool)                   // about to leave the wait group
    | Finished(ran: bool)
  {
    predicate HoldsPermit() {
      !Unstarted? && !Acquiring? && !Finishing? && !Finished?
    }

    predicate HoldsMutex() {
      Locked? || Appending? || Appended?
    }

    predicate Live() {
      !Unstarted? && !Finished?
    }

    /** The validator ran and, if it failed, its error is in the shared slice. */
    predicate Recorded() {
      Appended? || ((Releasing? || Finishing? || Finished?) && ran)
    }

    predicate GaveUp() {
      (Releasing? || Finishing? || Finished?) && !ran
    }

    /** Steps still to go. */
    function Remaining(): nat {
      match this
      case Unstarted => 10
      case Acquiring => 9
      case Acquired => 8
      case Running => 7
      case Locking => 6
      case Locked => 5
      case Appending(_) => 4
      case Appended => 3
      case Releasing(_) => 2
      case Finishing(_) => 1
      case Finished(_) => 0
    }
  }

  datatype State = State(
    pcs: seq<Pc>,
    used: Pools,
    mutex: bool,
    waitGroup: int,
    results: seq<ValidationError>,
    cancelled: bool,
    returned: bool)

  datatype Action =
    | Spawn(i: nat)     // the caller adds to the wait group and starts goroutine i
    | Advance(i: nat)   // goroutine i takes its next step
    | GiveUp(i: nat)    // acquiring fails because the context is done
    | Cancel            // the context is cancelled from outside
    | Return            // the caller's wait ends

  function Init(n: nat): State {
    State(seq(n, _ => Unstarted), Pools(0, 0, 0), false, 0, [], false, false)
  }

  predicate Enabled(vs: seq<Validator>, size: Pools, s: State, a: Action)
    requires |s.pcs| == |vs|
  {
    match a
    case Spawn(i) => i < |vs| && s.pcs[i].Unstarted? && forall j :: 0 <= j < i ==> !s.pcs[j].Unstarted?
    case Advance(i) => i < |vs| && CanAdvance(vs[i], size, s, s.pcs[i])
    case GiveUp(i) => i < |vs| && s.pcs[i].Acquiring? && s.cancelled
    case Cancel => !s.cancelled && !s.returned
    case Return => !s.returned && s.waitGroup == 0 && forall j :: 0 <= j < |s.pcs| ==> !s.pcs[j].Unstarted?
  }

  predicate CanAdvance(v: Validator, size: Pools, s: State, pc: Pc) {
    match pc
    case Unstarted => false
    case Acquiring => s.used.For(v.category) < size.For(v.category)
    case Locking => !s.mutex
    case Finished(_) => false
    case _ => true
  }

  function Do(vs: seq<Validator>, size: Pools, s: State, a: Action): (t: State)
    requires |s.pcs| == |vs| && Enabled(vs, size, s, a)
    ensures |t.pcs| == |vs|
  {
    match a
    case Spawn(i) => s.(pcs := s.pcs[i := Acquiring], waitGroup := s.waitGroup + 1)
    case Advance(i) => DoNext(vs[i], i, s)
    case GiveUp(i) => s.(pcs := s.pcs[i := Finishing(false)])
    case Cancel => s.(cancelled := true)
    case Return => s.(returned := true)
  }

  function DoNext(v: Validator, i: nat, s: State): (t: State)
    requires i < |s.pcs| && !s.pcs[i].Unstarted? && !s.pcs[i].Finished?
    ensures |t.pcs| == |s.pcs|
  {
    var c := v.category;
    match s.pcs[i]
    case Acquiring => s.(pcs := s.pcs[i := Acquired], used := s.used.With(c, s.used.For(c) + 1))
    case Acquired => s.(pcs := s.pcs[i := if s.cancelled then Releasing(false) else Running])
    case Running => s.(pcs := s.pcs[i := if v.verdict.passed then Releasing(true) else Locking])
    case Locking => s.(pcs := s.pcs[i := Locked], mutex := true)
    case Locked => s.(pcs := s.pcs[i := Appending(s.results)])
    case Appending(read) => s.(pcs := s.pcs[i := Appended], results := read + [ToValidationError(v)])
    case Appended => s.(pcs := s.pcs[i := Releasing(true)], mutex := false)
    case Releasing(ran) =>
      s.(pcs := s.pcs[i := Finishing(ran)], used := s.used.With(c, s.used.For(c) - 1))
    case Finishing(ran) => s.(pcs := s.pcs[i := Finished(ran)], waitGroup := s.waitGroup - 1)
  }

  // ----- sums over the goroutines -----

  type Weight = (Validator, Pc) -> int

  function Total(vs: seq<Validator>, pcs: seq<Pc>, w: Weight, n: nat): int
    requires n <= |pcs| == |vs|
  {
    if n == 0 then 0 else Total(vs, pcs, w, n - 1) + w(vs[n - 1], pcs[n - 1])
  }

  lemma {:induction false} TotalUpdate(vs: seq<Validator>, pcs: seq<Pc>, w: Weight, n: nat, i: nat, pc: Pc)
    requires n <= |pcs| == |vs| && i < |pcs|
    ensures Total(vs, pcs[i := pc], w, n) ==
            Total(vs, pcs, w, n) + if i < n then w(vs[i], pc) - w(vs[i], pcs[i]) else 0
  {
    if n > 0 {
      TotalUpdate(vs, pcs, w, n - 1, i, pc);
    }
  }

  lemma {:induction false} TotalAtLeast(vs: seq<Validator>, pcs: seq<Pc>, w: Weight, n: nat, i: nat)
    requires n <= |pcs| == |vs|
    requires forall v, pc :: w(v, pc) >= 0
    ensures Total(vs, pcs, w, n) >= if i < n then w(vs[i], pcs[i]) else 0
  {
    if n > 0 {
      TotalAtLeast(vs, pcs, w, n - 1, i);
    }
  }

  function PermitOf(v: Validator, pc: Pc, c: Category): int {
    if pc.HoldsPermit() && v.category == c then 1 else 0
  }

  function Permits(c: Category): Weight {
    (v: Validator, pc: Pc) => PermitOf(v, pc, c)
  }

  function Lives(): Weight {
    (v: Validator, pc: Pc) => if pc.Live() then 1 else 0
  }

  function Steps(): Weight {
    (v: Validator, pc: Pc) => pc.Remaining()
  }

  /** The error of a failed validator, once it is recorded. */
  function Contribution(v: Validator, pc: Pc): multiset<ValidationError> {
    if pc.Recorded() && !v.verdict.passed then multiset{ToValidationError(v)} else multiset{}
  }

  /** The errors of the failed validators that are recorded, in any order. */
  function Collected(vs: seq<Validator>, pcs: seq<Pc>, n: nat): multiset<ValidationError>
    requires n <= |pcs| == |vs|
  {
    if n == 0 then multiset{} else Collected(vs, pcs, n - 1) + Contribution(vs[n - 1], pcs[n - 1])
  }

  lemma Swap<T>(a: multiset<T>, b: multiset<T>, c: multiset<T>)
    ensures a + b + c == a + c + b
  {
  }

  lemma {:induction false} CollectedUpdate(vs: seq<Validator>, pcs: seq<Pc>, n: nat, i: nat, pc: Pc)
    requires n <= |pcs| == |vs| && i < |pcs|
    ensures if i < n
            then Collected(vs, pcs[i := pc], n) + Contribution(vs[i], pcs[i]) ==
                Collected(vs, pcs, n) + Contribution(vs[i], pc)
            else Collected(vs, pcs[i := pc], n) == Collected(vs, pcs, n)
  {
    hide Contribution;
    if n > 0 {
      CollectedUpdate(vs, pcs, n - 1, i, pc);
      Swap(Collected(vs, pcs[i := pc], n - 1), Contribution(vs[n - 1], pcs[i := pc][n - 1]),
          Contribution(vs[i], pcs[i]));
      Swap(Collected(vs, pcs, n - 1), Contribution(vs[n - 1], pcs[n - 1]), Contribution(vs[i], pc));
    }
  }

  /** The error of a failed validator, whether or not it is recorded. */
  function Failing(v: Validator): multiset<ValidationError> {
    if v.verdict.passed then multiset{} else multiset{ToValidationError(v)}
  }

  lemma ContributionWithin(v: Validator, pc: Pc)
    ensures Contribution(v, pc) <= Failing(v)
    ensures pc.Recorded() ==> Contribution(v, pc) == Failing(v)
  {
  }

  lemma SumsWithin<T>(a: multiset<T>, b: multiset<T>, c: multiset<T>, d: multiset<T>)
    requires a <= b && c <= d
    ensures a + c <= b + d
  {
  }

  lemma FailuresLast(vs: seq<Validator>, n: nat)
    requires 0 < n <= |vs|
    ensures multiset(Failures(vs[..n])) == multiset(Failures(vs[..n - 1])) + Failing(vs[n - 1])
  {
    assert vs[..n][..n - 1] == vs[..n - 1];
  }

  /** The errors of the first `n` validators that fail. */
  function AllFailing(vs: seq<Validator>, n: nat): multiset<ValidationError>
    requires n <= |vs|
  {
    if n == 0 then multiset{} else AllFailing(vs, n - 1) + Failing(vs[n - 1])
  }

  lemma {:induction false} FailuresAre(vs: seq<Validator>, n: nat)
    requires n <= |vs|
    ensures multiset(Failures(vs[..n])) == AllFailing(vs, n)
  {
    if n > 0 {
      FailuresAre(vs, n - 1);
      FailuresLast(vs, n);
    }
  }

  lemma {:induction false} CollectedWithin(vs: seq<Validator>, pcs: seq<Pc>, n: nat)
    requires n <= |pcs| == |vs|
    ensures Collected(vs, pcs, n) <= AllFailing(vs, n)
  {
    if n > 0 {
      hide Contribution, Failing;
      CollectedWithin(vs, pcs, n - 1);
      ContributionWithin(vs[n - 1], pcs[n - 1]);
      SumsWithin(Collected(vs, pcs, n - 1), AllFailing(vs, n - 1), Contribution(vs[n - 1], pcs[n - 1]),
          Failing(vs[n - 1]));
    }
  }

  lemma {:induction false} CollectedAll(vs: seq<Validator>, pcs: seq<Pc>, n: nat)
    requires n <= |pcs| == |vs|
    requires forall i :: 0 <= i < n ==> pcs[i].Recorded()
    ensures Collected(vs, pcs, n) == AllFailing(vs, n)
  {
    if n > 0 {
      hide Contribution, Failing;
      CollectedAll(vs, pcs, n - 1);
      ContributionWithin(vs[n - 1], pcs[n - 1]);
    }
  }

  /** Recorded errors are errors of the sequential execution, all of them when every
      validator is recorded. */
  lemma CollectedWithinFailures(vs: seq<Validator>, pcs: seq<Pc>, n: nat)
    requires n <= |pcs| == |vs|
    ensures Collected(vs, pcs, n) <= multiset(Failures(vs[..n]))
    ensures (forall i :: 0 <= i < n ==> pcs[i].Recorded()) ==> Collected(vs, pcs, n) == multiset(Failures(vs[..n]))
  {
    hide Collected, Failures, AllFailing;
    FailuresAre(vs, n);
    CollectedWithin(vs, pcs, n);
    if forall i :: 0 <= i < n ==> pcs[i].Recorded() {
      CollectedAll(vs, pcs, n);
    }
  }
}
