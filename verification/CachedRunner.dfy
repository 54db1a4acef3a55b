/** The double-checked cache of the git runner: a read lock to look, a write lock to look
    again, ask the delegate and store. */
module CachedRunner {
  import opened Wrappers

  datatype Answer = Answer(text: string, error: Option<string>)

  /** Where a caller is. */
  datatype Pc =
    | Starting
    | Reading                          // read lock held
    | Looked(entry: Option<Answer>)    // has looked the key up, read lock still held
    | Missed                           // about to take the write lock
    | Writing                          // write lock held, not looked again yet
    | Asking                           // missed again, calling the delegate
    | Storing(answer: Answer)          // the delegate has answered
    | Leaving(answer: Answer)          // about to give the write lock back
    | Returned(answer: Answer)
  {
    predicate Reads() {
      Reading? || Looked?
    }

    predicate Writes() {
      Writing? || Asking? || Storing? || Leaving?
    }

    /** What the caller has found or stored in the cache. */
    function Seen(): Option<Answer> {
      match this
      case Looked(entry) => entry
      case Leaving(answer) => Some(answer)
      case Returned(answer) => Some(answer)
      case _ => None
    }

    function Remaining(): nat {
      match this
      case Starting => 8
      case Reading => 7
      case Looked(_) => 6
      case Missed => 5
      case Writing => 4
      case Asking => 3
      case Storing(_) => 2
      case Leaving(_) => 1
      case Returned(_) => 0
    }
  }

  /** `calls` is the history of the delegate: who was asked, and what came back. */
  datatype State = State(
    pcs: seq<Pc>,
    readers: set<nat>,
    writer: Option<nat>,
    cache: map<string, Answer>,
    calls: seq<(string, Answer)>)

  /** Caller `i` takes its next step; should that be a call of the delegate, it is answered
      with `answer`, which may differ from one call to the next. */
  datatype Action = Advance(i: nat, answer: Answer)

  function Init(n: nat): State {
    State(seq(n, _ => Starting), {}, None, map[], [])
  }

  predicate Enabled(keys: seq<string>, s: State, a: Action)
    requires |s.pcs| == |keys|
  {
    a.i < |keys| &&
    match s.pcs[a.i]
    case Starting => s.writer.None?
    case Missed => s.writer.None? && s.readers == {}
    case Returned(_) => false
    case _ => true
  }

  function Lookup(cache: map<string, Answer>, key: string): Option<Answer> {
    if key in cache then Some(cache[key]) else None
  }

  function Do(keys: seq<string>, s: State, a: Action): (t: State)
    requires |s.pcs| == |keys| && Enabled(keys, s, a)
    ensures |t.pcs| == |keys|
  {
    var (i, key) := (a.i, keys[a.i]);
    match s.pcs[i]
    case Starting => s.(pcs := s.pcs[i := Reading], readers := s.readers + {i})
    case Reading => s.(pcs := s.pcs[i := Looked(Lookup(s.cache, key))])
    case Looked(entry) =>
      s.(pcs := s.pcs[i := if entry.Some? then Returned(entry.value) else Missed], readers := s.readers - {i})
    case Missed => s.(pcs := s.pcs[i := Writing], writer := Some(i))
    case Writing => s.(pcs := s.pcs[i := if key in s.cache then Leaving(s.cache[key]) else Asking])
    case Asking => s.(pcs := s.pcs[i := Storing(a.answer)], calls := s.calls + [(key, a.answer)])
    case Storing(answer) => s.(pcs := s.pcs[i := Leaving(answer)], cache := s.cache[key := answer])
    case Leaving(answer) => s.(pcs := s.pcs[i := Returned(answer)], writer := None)
  }

  // ----- invariants -----

  ghost predicate LocksHeld(s: State) {
    && (forall i: nat :: i in s.readers <==> i < |s.pcs| && s.pcs[i].Reads())
    && (forall i :: 0 <= i < |s.pcs| ==> (s.writer == Some(i) <==> s.pcs[i].Writes()))
    && (s.writer.Some? ==> s.writer.value < |s.pcs| && s.readers == {})
  }

  /** The answer on its way into the cache, if any. */
  function Pending(keys: seq<string>, s: State): map<string, Answer>
    requires |s.pcs| == |keys|
  {
    if s.writer.Some? && s.writer.value < |keys| && s.pcs[s.writer.value].Storing?
    then map[keys[s.writer.value] := s.pcs[s.writer.value].answer] else map[]
  }

  /** The calls, one for each key, are what is in the cache or on its way there. */
  predicate CallsOnce(keys: seq<string>, s: State)
    requires |s.pcs| == |keys|
  {
    && (forall j, k :: 0 <= j < k < |s.calls| ==> s.calls[j].0 != s.calls[k].0)
    && (forall j :: 0 <= j < |s.calls| ==> Recorded(keys, s, s.calls[j]))
  }

  predicate Recorded(keys: seq<string>, s: State, call: (string, Answer))
    requires |s.pcs| == |keys|
  {
    if call.0 in s.cache then s.cache[call.0] == call.1
    else call.0 in Pending(keys, s) && Pending(keys, s)[call.0] == call.1
  }

  predicate CacheCalled(keys: seq<string>, s: State)
    requires |s.pcs| == |keys|
  {
    && (forall key :: key in s.cache ==> (key, s.cache[key]) in s.calls)
    && (forall key :: key in Pending(keys, s) ==> key !in s.cache && (key, Pending(keys, s)[key]) in s.calls)
  }

  /** Whoever asks has made sure that the key is not in the cache. */
  predicate AsksWhenMissing(keys: seq<string>, s: State)
    requires |s.pcs| == |keys|
  {
    forall i :: 0 <= i < |keys| && (s.pcs[i].Asking? || s.pcs[i].Storing?) ==> keys[i] !in s.cache
  }

  /** Whatever a caller has seen is what the cache holds. */
  predicate SeesCache(keys: seq<string>, s: State)
    requires |s.pcs| == |keys|
  {
    forall i :: 0 <= i < |keys| && s.pcs[i].Seen().Some? ==> Lookup(s.cache, keys[i]) == s.pcs[i].Seen()
  }

  ghost predicate Inv(keys: seq<string>, s: State) {
    && |s.pcs| == |keys|
    && LocksHeld(s) && CallsOnce(keys, s) && CacheCalled(keys, s) && AsksWhenMissing(keys, s) && SeesCache(keys, s)
  }

  lemma KeepsLocks(keys: seq<string>, s: State, a: Action)
    requires |s.pcs| == |keys| && LocksHeld(s) && Enabled(keys, s, a)
    ensures LocksHeld(Do(keys, s, a))
  {
  }

  lemma KeepsAsking(keys: seq<string>, s: State, a: Action)
    requires Inv(keys, s) && Enabled(keys, s, a)
    ensures AsksWhenMissing(keys, Do(keys, s, a)) && SeesCache(keys, Do(keys, s, a))
  {
    hide CallsOnce, CacheCalled;
  }

  lemma KeepsCalls(keys: seq<string>, s: State, a: Action)
    requires Inv(keys, s) && Enabled(keys, s, a)
    ensures CallsOnce(keys, Do(keys, s, a)) && CacheCalled(keys, Do(keys, s, a))
  {
    hide SeesCache, LocksHeld, Pending;
    var t := Do(keys, s, a);
    PendingMoves(keys, s, a);
    forall j | 0 <= j < |s.calls|
      ensures Recorded(keys, t, s.calls[j]) && (s.pcs[a.i].Asking? ==> s.calls[j].0 != keys[a.i])
    {
      assert Recorded(keys, s, s.calls[j]);
    }
  }

  lemma PendingMoves(keys: seq<string>, s: State, a: Action)
    requires Inv(keys, s) && Enabled(keys, s, a)
    ensures var p, q := Pending(keys, s), Pending(keys, Do(keys, s, a));
            if s.pcs[a.i].Asking? then p == map[] && q == map[keys[a.i] := a.answer]
            else if s.pcs[a.i].Storing? then p == map[keys[a.i] := s.pcs[a.i].answer] && q == map[]
            else q == p
  {
    hide CallsOnce, CacheCalled, AsksWhenMissing, SeesCache;
  }

  lemma StepKeepsInv(keys: seq<string>, s: State, a: Action)
    requires Inv(keys, s) && Enabled(keys, s, a)
    ensures Inv(keys, Do(keys, s, a))
  {
    hide LocksHeld, CallsOnce, CacheCalled, AsksWhenMissing, SeesCache, Enabled;
    KeepsLocks(keys, s, a);
    KeepsAsking(keys, s, a);
    KeepsCalls(keys, s, a);
  }

  // ----- runs -----

  predicate Runs(keys: seq<string>, s: State, actions: seq<Action>)
    requires |s.pcs| == |keys|
    decreases |actions|
  {
    actions == [] || (Enabled(keys, s, actions[0]) && Runs(keys, Do(keys, s, actions[0]), actions[1..]))
  }

  function After(keys: seq<string>, s: State, actions: seq<Action>): (t: State)
    requires |s.pcs| == |keys| && Runs(keys, s, actions)
    ensures |t.pcs| == |keys|
    decreases |actions|
  {
    if actions == [] then s else After(keys, Do(keys, s, actions[0]), actions[1..])
  }

  lemma {:induction false} RunKeepsInv(keys: seq<string>, s: State, actions: seq<Action>)
    requires Inv(keys, s) && Runs(keys, s, actions)
    ensures Inv(keys, After(keys, s, actions))
    decreases |actions|
  {
    hide Inv, Enabled;
    if actions != [] {
      assert |s.pcs| == |keys| by {
        InvLength(keys, s);
      }
      StepKeepsInv(keys, s, actions[0]);
      RunKeepsInv(keys, Do(keys, s, actions[0]), actions[1..]);
    }
  }

  lemma InvLength(keys: seq<string>, s: State)
    ensures Inv(keys, s) ==> |s.pcs| == |keys|
  {
    hide LocksHeld, CallsOnce, CacheCalled, AsksWhenMissing, SeesCache;
  }

  lemma InitInv(keys: seq<string>)
    ensures Inv(keys, Init(|keys|))
  {
  }

  /** ONCE. In every interleaving, whatever the delegate answers: it is called at most once
      for each key, whoever has returned got the answer of that call, so all who asked for a
      key got the same, and each key that someone returned with was asked for. */
  lemma DelegateCalledOnce(keys: seq<string>, actions: seq<Action>)
    requires Runs(keys, Init(|keys|), actions)
    ensures var s := After(keys, Init(|keys|), actions);
            && (forall j, k :: 0 <= j < k < |s.calls| ==> s.calls[j].0 != s.calls[k].0)
            && (forall i :: 0 <= i < |keys| && s.pcs[i].Returned? ==> (keys[i], s.pcs[i].answer) in s.calls)
            && (forall i, j :: 0 <= i < |keys| && 0 <= j < |keys| && keys[i] == keys[j] ==>
                  s.pcs[i].Returned? && s.pcs[j].Returned? ==> s.pcs[i].answer == s.pcs[j].answer)
  {
    InitInv(keys);
    RunKeepsInv(keys, Init(|keys|), actions);
    var s := After(keys, Init(|keys|), actions);
    assert Inv(keys, s);
    forall i | 0 <= i < |keys| && s.pcs[i].Returned?
      ensures Lookup(s.cache, keys[i]) == Some(s.pcs[i].answer)
    {
    }
  }

  // ----- hits -----

  /** The key of caller `i` is in the cache, and the caller has not missed it. */
  predicate Hits(keys: seq<string>, s: State, i: nat)
    requires i < |keys| == |s.pcs|
  {
    keys[i] in s.cache
    && (s.pcs[i].Starting? || s.pcs[i].Reading? || (s.pcs[i].Looked? && s.pcs[i].entry.Some?) || s.pcs[i].Returned?)
  }

  /** HIT. A caller that starts when its key is in the cache returns without ever waiting for the
      write lock or asking the delegate. */
  lemma {:induction false} HitStaysOut(keys: seq<string>, s: State, actions: seq<Action>, i: nat)
    requires i < |keys| == |s.pcs| && Runs(keys, s, actions) && Hits(keys, s, i)
    ensures var pc := After(keys, s, actions).pcs[i]; !pc.Missed? && !pc.Writes()
    ensures Hits(keys, After(keys, s, actions), i)
    decreases |actions|
  {
    if actions != [] {
      HitStaysOut(keys, Do(keys, s, actions[0]), actions[1..], i);
    }
  }

  // ----- progress -----

  function Total(pcs: seq<Pc>): nat {
    if pcs == [] then 0 else Total(pcs[..|pcs| - 1]) + pcs[|pcs| - 1].Remaining()
  }

  lemma {:induction false} TotalUpdate(pcs: seq<Pc>, i: nat, pc: Pc)
    requires i < |pcs|
    ensures Total(pcs[i := pc]) == Total(pcs) - pcs[i].Remaining() + pc.Remaining()
  {
    var n := |pcs| - 1;
    if i < n {
      TotalUpdate(pcs[..n], i, pc);
      assert pcs[i := pc][..n] == pcs[..n][i := pc];
    } else {
      assert pcs[i := pc][..n] == pcs[..n];
    }
  }

  lemma {:induction false} InitialTotal(n: nat)
    ensures Total(Init(n).pcs) == 8 * n
  {
    if n > 0 {
      InitialTotal(n - 1);
      assert Init(n).pcs[..n - 1] == Init(n - 1).pcs;
    }
  }

  lemma StepShortens(keys: seq<string>, s: State, a: Action)
    requires |s.pcs| == |keys| && Enabled(keys, s, a)
    ensures Total(Do(keys, s, a).pcs) < Total(s.pcs)
  {
    var t := Do(keys, s, a);
    assert t.pcs == s.pcs[a.i := t.pcs[a.i]];
    TotalUpdate(s.pcs, a.i, t.pcs[a.i]);
  }

  lemma {:induction false} RunsAreShort(keys: seq<string>, s: State, actions: seq<Action>)
    requires |s.pcs| == |keys| && Runs(keys, s, actions)
    ensures |actions| <= Total(s.pcs)
    decreases |actions|
  {
    if actions != [] {
      StepShortens(keys, s, actions[0]);
      RunsAreShort(keys, Do(keys, s, actions[0]), actions[1..]);
    }
  }

  /** Someone can always move until all have returned. */
  lemma SomeoneMoves(keys: seq<string>, s: State, i: nat) returns (a: Action)
    requires Inv(keys, s) && i < |keys| && !s.pcs[i].Returned?
    ensures Enabled(keys, s, a)
  {
    hide CallsOnce, CacheCalled, AsksWhenMissing, SeesCache;
    var any := Answer("", None);
    if s.writer.Some? {
      a := Advance(s.writer.value, any);
    } else if s.readers != {} {
      var j :| j in s.readers;
      a := Advance(j, any);
    } else {
      a := Advance(i, any);
    }
  }

  /** NO DEADLOCK. A run has at most eight steps for each caller, and as long as some caller
      has not returned it can go on. */
  lemma EveryCallerReturns(keys: seq<string>, actions: seq<Action>)
    requires Runs(keys, Init(|keys|), actions)
    ensures |actions| <= 8 * |keys|
    ensures var s := After(keys, Init(|keys|), actions);
            (forall i :: 0 <= i < |keys| ==> s.pcs[i].Returned?) <==> (forall a :: !Enabled(keys, s, a))
  {
    hide Inv, Runs, After, Init, Enabled;
    InitInv(keys);
    RunKeepsInv(keys, Init(|keys|), actions);
    InitialTotal(|keys|);
    RunsAreShort(keys, Init(|keys|), actions);
    StuckIffReturned(keys, After(keys, Init(|keys|), actions));
  }

  lemma StuckIffReturned(keys: seq<string>, s: State)
    requires Inv(keys, s)
    ensures |s.pcs| == |keys|
    ensures (forall i :: 0 <= i < |keys| ==> s.pcs[i].Returned?) <==> (forall a :: !Enabled(keys, s, a))
  {
    InvLength(keys, s);
    hide Inv;
    if i :| 0 <= i < |keys| && !s.pcs[i].Returned? {
      var a := SomeoneMoves(keys, s, i);
      assert Enabled(keys, s, a);
    }
  }

  /** ONE CALL PER KEY. When all have returned, the delegate has been called exactly once for
      each key that was asked for, and for no other. */
  lemma CallsAreKeys(keys: seq<string>, actions: seq<Action>, key: string)
    requires Runs(keys, Init(|keys|), actions)
    requires forall i :: 0 <= i < |keys| ==> After(keys, Init(|keys|), actions).pcs[i].Returned?
    ensures key in keys <==> exists j :: 0 <= j < |After(keys, Init(|keys|), actions).calls|
                                         && After(keys, Init(|keys|), actions).calls[j].0 == key
  {
    var s := After(keys, Init(|keys|), actions);
    DelegateCalledOnce(keys, actions);
    if key in keys {
      var i :| 0 <= i < |keys| && keys[i] == key;
      assert s.pcs[i].Returned?;
      var j :| 0 <= j < |s.calls| && s.calls[j] == (keys[i], s.pcs[i].answer);
    }
    CalledForSomeone(keys, Init(|keys|), actions);
  }

  predicate CalledFor(keys: seq<string>, s: State) {
    forall j :: 0 <= j < |s.calls| ==> s.calls[j].0 in keys
  }

  lemma {:induction false} CalledForSomeone(keys: seq<string>, s: State, actions: seq<Action>)
    requires |s.pcs| == |keys| && Runs(keys, s, actions) && CalledFor(keys, s)
    ensures CalledFor(keys, After(keys, s, actions))
    decreases |actions|
  {
    if actions != [] {
      assert keys[actions[0].i] in keys;
      CalledForSomeone(keys, Do(keys, s, actions[0]), actions[1..]);
    }
  }
}
