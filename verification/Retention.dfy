/** Snapshots, and what the retention policies mean, independently of any order in which
    an index is walked. */
module Retention {

  // ----- snapshots -----

  newtype byte = x: int | 0 <= x < 256

  type Bytes = seq<byte>

  /** The content hash and the snapshot ID are taken to be collision-free: each is a free
      constructor over what it is computed from. */
  datatype Hash = HashOf(content: Bytes)

  datatype SnapshotID = IDOf(nanos: int, hash: Hash)

  /** Where a snapshot's bytes are: the file named after its ID. */
  datatype StoragePath = NoPath | FullFile(id: SnapshotID)

  datatype StorageType = Full | Patch

  datatype Trigger = Manual | Automatic | BeforeInit | Migration

  datatype Metadata = Metadata(configHash: Hash, tag: string, description: string)

  datatype Snapshot = Snapshot(
    id: SnapshotID,
    sequenceNum: int,
    timestamp: int,
    configPath: string,
    trigger: Trigger,
    storageType: StorageType,
    storagePath: StoragePath,
    size: int,
    checksum: Hash,
    chainID: string,
    metadata: Metadata)

  // ----- chains and sizes -----

  function Chains(all: set<Snapshot>): set<string> {
    set s | s in all :: s.chainID
  }

  /** The oldest snapshot of chain `c` is older than that of chain `d`. */
  ghost predicate Older(all: set<Snapshot>, c: string, d: string) {
    exists s :: s in all && s.chainID == c && forall t :: t in all && t.chainID == d ==> s.timestamp < t.timestamp
  }

  /** The newest snapshot of chain `c` is newer than that of chain `d`. */
  ghost predicate Newer(all: set<Snapshot>, c: string, d: string) {
    exists s :: s in all && s.chainID == c && forall t :: t in all && t.chainID == d ==> s.timestamp > t.timestamp
  }

  /** No two chains tie for their oldest or their newest snapshot. */
  ghost predicate NoTies(all: set<Snapshot>) {
    forall c, d :: c in Chains(all) && d in Chains(all) && c != d ==>
      && (Older(all, c, d) || Older(all, d, c))
      && (Newer(all, c, d) || Newer(all, d, c))
  }

  ghost function OlderChains(all: set<Snapshot>, c: string): set<string> {
    set d | d in Chains(all) && Older(all, d, c)
  }

  ghost function NewerChains(all: set<Snapshot>, c: string): set<string> {
    set d | d in Chains(all) && Newer(all, d, c)
  }

  function InChains(all: set<Snapshot>, chains: set<string>): set<Snapshot> {
    set s | s in all && s.chainID in chains
  }

  ghost function SizeOf(all: set<Snapshot>): int {
    if all == {} then 0 else
      var s :| s in all;
      s.size + SizeOf(all - {s})
  }

  predicate NonNegative(all: set<Snapshot>) {
    forall s :: s in all ==> s.size >= 0
  }

  lemma {:induction false} SizeWithout(all: set<Snapshot>, s: Snapshot)
    requires s in all
    ensures SizeOf(all) == s.size + SizeOf(all - {s})
    decreases |all|
  {
    var t :| t in all && SizeOf(all) == t.size + SizeOf(all - {t});
    if t != s {
      SizeWithout(all - {t}, s);
      SizeWithout(all - {s}, t);
      assert all - {t} - {s} == all - {s} - {t};
    }
  }

  lemma {:induction false} SizeUnion(a: set<Snapshot>, b: set<Snapshot>)
    requires a !! b
    ensures SizeOf(a + b) == SizeOf(a) + SizeOf(b)
    decreases |a|
  {
    if a == {} {
      assert a + b == b;
    } else {
      var s :| s in a;
      SizeWithout(a, s);
      SizeWithout(a + b, s);
      assert a + b - {s} == (a - {s}) + b;
      SizeUnion(a - {s}, b);
    }
  }

  lemma {:induction false} SizeAtLeastZero(all: set<Snapshot>)
    requires NonNegative(all)
    ensures SizeOf(all) >= 0
    decreases |all|
  {
    if all != {} {
      var s :| s in all;
      SizeWithout(all, s);
      SizeAtLeastZero(all - {s});
    }
  }

  lemma SizeMonotone(part: set<Snapshot>, all: set<Snapshot>)
    requires part <= all && NonNegative(all)
    ensures SizeOf(part) <= SizeOf(all)
  {
    SizeUnion(part, all - part);
    assert part + (all - part) == all;
    SizeAtLeastZero(all - part);
  }

  // ----- the policies -----

  datatype Policy =
    | Count(maxBackups: int)
    | Age(maxAge: int)
    | Size(maxSize: int)
    | Composite(policies: seq<Policy>)

  /** The policy constructors reject limits that are not positive. */
  predicate Constructed(p: Policy) {
    match p
    case Count(n) => n > 0
    case Age(a) => a > 0
    case Size(m) => m > 0
    case Composite(ps) => forall i :: 0 <= i < |ps| ==> Constructed(ps[i])
  }

  /** Whether the snapshots of chain `c` are to be kept when `total` bytes are held. */
  ghost predicate Retains(p: Policy, all: set<Snapshot>, total: int, now: int, c: string) {
    match p
    case Count(n) => |NewerChains(all, c)| < n
    case Age(a) => forall s :: s in all && s.chainID == c ==> now - s.timestamp <= a
    case Size(m) => total - SizeOf(InChains(all, OlderChains(all, c))) <= m
    case Composite(ps) => forall i :: 0 <= i < |ps| ==> Retains(ps[i], all, total, now, c)
  }

  ghost function Kept(p: Policy, all: set<Snapshot>, now: int): set<Snapshot> {
    set s | s in all && Retains(p, all, SizeOf(all), now, s.chainID)
  }

  // ----- order of chains -----

  lemma OlderAsymmetric(all: set<Snapshot>, c: string, d: string)
    requires Older(all, c, d)
    ensures !Older(all, d, c)
  {
  }

  lemma NoTie(all: set<Snapshot>, c: string, d: string)
    requires NoTies(all) && c in Chains(all) && d in Chains(all) && c != d
    ensures Older(all, c, d) || Older(all, d, c)
    ensures Newer(all, c, d) || Newer(all, d, c)
  {
  }

  lemma OlderTransitive(all: set<Snapshot>, c: string, d: string, e: string)
    requires Older(all, c, d) && Older(all, d, e)
    ensures Older(all, c, e)
  {
    var s :| s in all && s.chainID == c && forall t :: t in all && t.chainID == d ==> s.timestamp < t.timestamp;
    var t :| t in all && t.chainID == d && forall u :: u in all && u.chainID == e ==> t.timestamp < u.timestamp;
    assert s.timestamp < t.timestamp;
    assert forall u :: u in all && u.chainID == e ==> s.timestamp < u.timestamp;
  }

  /** Among some chains there is an oldest. */
  lemma {:induction false} OldestOf(all: set<Snapshot>, chains: set<string>) returns (c: string)
    requires NoTies(all) && chains != {} && chains <= Chains(all)
    ensures c in chains && forall d :: d in chains && d != c ==> Older(all, c, d)
    decreases |chains|
  {
    hide Older, Newer;
    c :| c in chains;
    var rest := chains - {c};
    assert forall d :: d in chains ==> d == c || d in rest;
    if rest != {} {
      var e := OldestOf(all, rest);
      if Older(all, c, e) {
        forall d | d in chains && d != c
          ensures Older(all, c, d)
        {
          if d != e {
            OlderTransitive(all, c, e, d);
          }
        }
      } else {
        NoTie(all, c, e);
        c := e;
      }
    }
  }

  // ----- the size policy is minimal -----

  /** A set of chains that contains, with each chain, all older ones. */
  ghost predicate OldestFirst(all: set<Snapshot>, chains: set<string>) {
    chains <= Chains(all) && forall c, d :: c in chains && d in Chains(all) && Older(all, d, c) ==> d in chains
  }

  ghost function RemovedBySize(all: set<Snapshot>, maxSize: int): set<string> {
    set c | c in Chains(all) && !Retains(Size(maxSize), all, SizeOf(all), 0, c)
  }

  ghost function SizeAfter(all: set<Snapshot>, removed: set<string>): int {
    SizeOf(all) - SizeOf(InChains(all, removed))
  }

  lemma FewerChainsSmaller(all: set<Snapshot>, part: set<string>, chains: set<string>)
    requires NonNegative(all) && part <= chains
    ensures SizeOf(InChains(all, part)) <= SizeOf(InChains(all, chains))
  {
    SizeMonotone(InChains(all, part), InChains(all, chains));
  }

  lemma RemovedIsOldestFirst(all: set<Snapshot>, maxSize: int)
    requires NonNegative(all)
    ensures OldestFirst(all, RemovedBySize(all, maxSize))
  {
    hide Older, InChains, SizeOf;
    var removed := RemovedBySize(all, maxSize);
    forall c, d | c in removed && d in Chains(all) && Older(all, d, c)
      ensures d in removed
    {
      forall e | e in OlderChains(all, d)
        ensures e in OlderChains(all, c)
      {
        OlderTransitive(all, e, d, c);
      }
      FewerChainsSmaller(all, OlderChains(all, d), OlderChains(all, c));
    }
  }

  lemma RemovedIsEnough(all: set<Snapshot>, maxSize: int)
    requires NonNegative(all) && NoTies(all) && maxSize >= 0
    ensures SizeAfter(all, RemovedBySize(all, maxSize)) <= maxSize
  {
    hide Older, Newer, SizeOf;
    var removed := RemovedBySize(all, maxSize);
    var rest := Chains(all) - removed;
    if rest == {} {
      assert forall s :: s in all ==> s.chainID in Chains(all) && s.chainID !in rest;
      assert InChains(all, removed) == all;
    } else {
      var c := OldestOf(all, rest);
      RemovedIsOldestFirst(all, maxSize);
      OlderThanFirstKept(all, removed, c);
      assert c in Chains(all) && c !in removed;
    }
  }

  lemma OlderThanFirstKept(all: set<Snapshot>, removed: set<string>, c: string)
    requires OldestFirst(all, removed) && NoTies(all) && c in Chains(all) && c !in removed
    requires forall d :: d in Chains(all) - removed && d != c ==> Older(all, c, d)
    ensures OlderChains(all, c) == removed
  {
    hide Older, Newer;
    forall d | d in Chains(all)
      ensures d in OlderChains(all, c) <==> d in removed
    {
      if d in removed {
        NoTie(all, c, d);
      } else if d == c {
        if Older(all, c, c) {
          OlderAsymmetric(all, c, c);
        }
      } else {
        OlderAsymmetric(all, c, d);
      }
    }
  }

  /** MINIMAL. The chains the size policy removes are the shortest oldest-first run whose
      removal brings the total within the limit: it does, and no shorter one does. */
  lemma SizePolicyIsMinimal(all: set<Snapshot>, maxSize: int, fewer: set<string>)
    requires NonNegative(all) && NoTies(all) && maxSize >= 0
    ensures OldestFirst(all, RemovedBySize(all, maxSize))
    ensures SizeAfter(all, RemovedBySize(all, maxSize)) <= maxSize
    ensures OldestFirst(all, fewer) && fewer < RemovedBySize(all, maxSize) ==> SizeAfter(all, fewer) > maxSize
  {
    hide Older, Newer, SizeOf, InChains;
    RemovedIsOldestFirst(all, maxSize);
    RemovedIsEnough(all, maxSize);
    if OldestFirst(all, fewer) && fewer < RemovedBySize(all, maxSize) {
      var c :| c in RemovedBySize(all, maxSize) && c !in fewer;
      forall d | d in fewer
        ensures d in OlderChains(all, c)
      {
        NoTie(all, c, d);
      }
      FewerChainsSmaller(all, fewer, OlderChains(all, c));
    }
  }

  // ----- what a policy leaves behind -----

  /** `rest` is made of whole chains of `all`. */
  predicate WholeChains(rest: set<Snapshot>, all: set<Snapshot>) {
    rest <= all && forall s :: s in all && s.chainID in Chains(rest) ==> s in rest
  }

  lemma KeptWholeChains(p: Policy, all: set<Snapshot>, now: int)
    ensures WholeChains(Kept(p, all, now), all)
  {
    hide Retains;
  }

  /** How much `p` allows: at most so many chains, no snapshot older, at most so many bytes. */
  ghost predicate Meets(p: Policy, rest: set<Snapshot>, now: int) {
    match p
    case Count(n) => |Chains(rest)| <= n
    case Age(a) => forall s :: s in rest ==> now - s.timestamp <= a
    case Size(m) => SizeOf(rest) <= m
    case Composite(ps) => forall i :: 0 <= i < |ps| ==> Meets(ps[i], rest, now)
  }

  /** Every chain of `rest` is one that `p` keeps of `all`. */
  ghost predicate KeptOnly(p: Policy, all: set<Snapshot>, rest: set<Snapshot>, now: int) {
    WholeChains(rest, all) && forall c :: c in Chains(rest) ==> Retains(p, all, SizeOf(all), now, c)
  }

  /** Among some chains there is one that all others are newer than. */
  lemma {:induction false} LeastNewOf(all: set<Snapshot>, chains: set<string>) returns (c: string)
    requires NoTies(all) && chains != {} && chains <= Chains(all)
    ensures c in chains && forall d :: d in chains && d != c ==> Newer(all, d, c)
    decreases |chains|
  {
    hide Older, Newer;
    c :| c in chains;
    var rest := chains - {c};
    assert forall d :: d in chains ==> d == c || d in rest;
    if rest != {} {
      var e := LeastNewOf(all, rest);
      if Newer(all, e, c) {
        forall d | d in chains && d != c
          ensures Newer(all, d, c)
        {
          if d != e {
            NewerTransitive(all, d, e, c);
          }
        }
      } else {
        NoTie(all, c, e);
        c := e;
      }
    }
  }

  lemma NewerTransitive(all: set<Snapshot>, c: string, d: string, e: string)
    requires Newer(all, c, d) && Newer(all, d, e)
    ensures Newer(all, c, e)
  {
    var s :| s in all && s.chainID == c && forall t :: t in all && t.chainID == d ==> s.timestamp > t.timestamp;
    var t :| t in all && t.chainID == d && forall u :: u in all && u.chainID == e ==> t.timestamp > u.timestamp;
    assert s.timestamp > t.timestamp;
    assert forall u :: u in all && u.chainID == e ==> s.timestamp > u.timestamp;
  }

  lemma CountMet(n: int, all: set<Snapshot>, rest: set<Snapshot>, now: int)
    requires NoTies(all) && n > 0 && KeptOnly(Count(n), all, rest, now)
    ensures |Chains(rest)| <= n
  {
    hide Older, Newer;
    var chains := Chains(rest);
    if chains != {} {
      // The least new of the kept chains has all the others before it.
      var c := LeastNewOf(all, chains);
      assert chains - {c} <= NewerChains(all, c);
      SubsetSize(chains - {c}, NewerChains(all, c));
    }
  }

  lemma {:induction false} SubsetSize(a: set<string>, b: set<string>)
    requires a <= b
    ensures |a| <= |b|
    decreases |a|
  {
    if a != {} {
      var x :| x in a;
      SubsetSize(a - {x}, b - {x});
    }
  }

  lemma SizeMet(m: int, all: set<Snapshot>, rest: set<Snapshot>, now: int)
    requires NoTies(all) && NonNegative(all) && m > 0 && KeptOnly(Size(m), all, rest, now)
    ensures SizeOf(rest) <= m
  {
    hide Older, Newer, SizeOf;
    var removed := RemovedBySize(all, m);
    RemovedIsEnough(all, m);
    var gone := InChains(all, removed);
    forall s | s in rest
      ensures s in all - gone
    {
      assert s.chainID in Chains(rest);
      assert Retains(Size(m), all, SizeOf(all), now, s.chainID);
    }
    SizeUnion(all - gone, gone);
    assert all - gone + gone == all;
    SizeMonotone(rest, all - gone);
  }

  /** What consists of whole chains that `p` keeps is within all of its limits. */
  lemma {:induction false} KeptMeets(p: Policy, all: set<Snapshot>, rest: set<Snapshot>, now: int)
    requires NoTies(all) && NonNegative(all) && Constructed(p) && KeptOnly(p, all, rest, now)
    ensures Meets(p, rest, now)
  {
    hide NoTies, NonNegative, NewerChains, OlderChains, InChains, SizeOf;
    match p {
      case Count(n) => CountMet(n, all, rest, now);
      case Age(a) =>
        assert forall s :: s in rest ==> s in all && s.chainID in Chains(rest);
      case Size(m) => SizeMet(m, all, rest, now);
      case Composite(ps) =>
        forall i | 0 <= i < |ps|
          ensures Meets(ps[i], rest, now)
        {
          assert Constructed(ps[i]);
          assert KeptOnly(ps[i], all, rest, now);
          KeptMeets(ps[i], all, rest, now);
        }
    }
  }

  lemma RankBelowAll(rest: set<Snapshot>, c: string)
    requires c in Chains(rest)
    ensures |NewerChains(rest, c)| < |Chains(rest)|
  {
    assert c !in NewerChains(rest, c);
    SubsetSize(NewerChains(rest, c) + {c}, Chains(rest));
  }

  /** Within its limits, `p` keeps everything. */
  lemma {:induction false} MeetsKeepsAll(p: Policy, rest: set<Snapshot>, now: int, c: string)
    requires NonNegative(rest) && Meets(p, rest, now) && c in Chains(rest)
    ensures Retains(p, rest, SizeOf(rest), now, c)
  {
    hide NonNegative, NewerChains, OlderChains, InChains, SizeOf;
    match p {
      case Count(n) => RankBelowAll(rest, c);
      case Age(a) =>
      case Size(m) => SizeAtLeastZeroOf(rest, OlderChains(rest, c));
      case Composite(ps) =>
        forall i | 0 <= i < |ps|
          ensures Retains(ps[i], rest, SizeOf(rest), now, c)
        {
          MeetsKeepsAll(ps[i], rest, now, c);
        }
    }
  }

  lemma SizeAtLeastZeroOf(all: set<Snapshot>, chains: set<string>)
    requires NonNegative(all)
    ensures SizeOf(InChains(all, chains)) >= 0
  {
    SizeAtLeastZero(InChains(all, chains));
  }

  lemma KeptIsKeptOnly(p: Policy, all: set<Snapshot>, now: int)
    ensures KeptOnly(p, all, Kept(p, all, now), now)
  {
    hide Retains;
    KeptWholeChains(p, all, now);
  }

  /** BOUNDS AND IDEMPOTENCE. For every policy, however composed: what it leaves is made of
      whole chains, is within every limit, and applying the policy again leaves it as it
      is. */
  lemma RetentionSettles(p: Policy, all: set<Snapshot>, now: int)
    requires NoTies(all) && NonNegative(all) && Constructed(p)
    ensures var rest := Kept(p, all, now);
            && WholeChains(rest, all)
            && Meets(p, rest, now)
            && Kept(p, rest, now) == rest
  {
    hide NoTies, Retains, Meets, SizeOf;
    var rest := Kept(p, all, now);
    KeptWholeChains(p, all, now);
    KeptIsKeptOnly(p, all, now);
    KeptMeets(p, all, rest, now);
    forall s | s in rest
      ensures Retains(p, rest, SizeOf(rest), now, s.chainID)
    {
      MeetsKeepsAll(p, rest, now, s.chainID);
    }
  }

  // ----- which chains go -----

  function RemovedChains(all: set<Snapshot>, rest: set<Snapshot>): set<string> {
    Chains(all) - Chains(rest)
  }

  /** Chain `c` has a snapshot later than all those of chain `d`. */
  lemma NewerIs(all: set<Snapshot>, c: string, d: string)
    ensures Newer(all, c, d) <==>
              exists s :: s in all && s.chainID == c
                          && forall t :: t in all && t.chainID == d ==> t.timestamp < s.timestamp
  {
  }

  lemma NewerAsymmetric(all: set<Snapshot>, c: string, d: string)
    requires Newer(all, c, d)
    ensures !Newer(all, d, c)
  {
  }

  lemma KeptChains(p: Policy, all: set<Snapshot>, now: int)
    ensures forall c :: c in Chains(Kept(p, all, now)) <==> c in Chains(all) && Retains(p, all, SizeOf(all), now, c)
  {
    hide Retains, SizeOf;
  }

  /** Of two chains the newer one has fewer before it. */
  lemma FewerBefore(all: set<Snapshot>, c: string, d: string)
    requires NoTies(all) && c in Chains(all) && d in Chains(all) && Newer(all, c, d)
    ensures |NewerChains(all, c)| < |NewerChains(all, d)|
  {
    hide Older, Newer;
    forall e | e in NewerChains(all, c)
      ensures e in NewerChains(all, d)
    {
      NewerTransitive(all, e, c, d);
    }
    if Newer(all, c, c) {
      NewerAsymmetric(all, c, c);
    }
    SubsetSize(NewerChains(all, c) + {c}, NewerChains(all, d));
  }

  /** Among some chains there is one that is newer than all others. */
  lemma {:induction false} NewestOf(all: set<Snapshot>, chains: set<string>) returns (c: string)
    requires NoTies(all) && chains != {} && chains <= Chains(all)
    ensures c in chains && forall d :: d in chains && d != c ==> Newer(all, c, d)
    decreases |chains|
  {
    hide Older, Newer;
    c :| c in chains;
    var rest := chains - {c};
    assert forall d :: d in chains ==> d == c || d in rest;
    if rest != {} {
      var e := NewestOf(all, rest);
      if Newer(all, c, e) {
        forall d | d in chains && d != c
          ensures Newer(all, c, d)
        {
          if d != e {
            NewerTransitive(all, c, e, d);
          }
        }
      } else {
        NoTie(all, c, e);
        c := e;
      }
    }
  }

  /** NEWEST. A count policy keeps the newest chains, as many as it allows or all there are:
      every chain that stays has a snapshot later than all those of any chain that goes. */
  lemma CountKeepsNewest(n: int, all: set<Snapshot>, now: int)
    requires NoTies(all) && n > 0
    ensures var rest := Kept(Count(n), all, now);
            && |Chains(rest)| == (if |Chains(all)| < n then |Chains(all)| else n)
            && forall c, d :: c in Chains(rest) && d in RemovedChains(all, rest) ==>
                 exists s :: s in rest && s.chainID == c
                             && forall t :: t in all && t.chainID == d ==> t.timestamp < s.timestamp
  {
    hide Older, Newer, NewerChains;
    var rest := Kept(Count(n), all, now);
    KeptChains(Count(n), all, now);
    forall c, d | c in Chains(rest) && d in RemovedChains(all, rest)
      ensures exists s :: s in rest && s.chainID == c
                          && forall t :: t in all && t.chainID == d ==> t.timestamp < s.timestamp
    {
      NoTie(all, c, d);
      if Newer(all, d, c) {
        FewerBefore(all, d, c);
      }
      NewerIs(all, c, d);
      KeptWholeChains(Count(n), all, now);
    }
    KeptIsKeptOnly(Count(n), all, now);
    CountMet(n, all, rest, now);
    EnoughKept(n, all, rest, now);
    SubsetSize(Chains(rest), Chains(all));
  }

  /** If a chain goes, the newest of those that go has as many before it as are allowed. */
  lemma EnoughKept(n: int, all: set<Snapshot>, rest: set<Snapshot>, now: int)
    requires NoTies(all) && n > 0 && rest == Kept(Count(n), all, now)
    ensures |Chains(rest)| >= if |Chains(all)| < n then |Chains(all)| else n
  {
    hide Older, Newer;
    KeptChains(Count(n), all, now);
    var removed := RemovedChains(all, rest);
    if removed == {} {
      assert forall c :: c in Chains(all) ==> c !in removed;
      SubsetSize(Chains(all), Chains(rest));
    } else {
      var d := NewestOf(all, removed);
      forall c | c in NewerChains(all, d)
        ensures c in Chains(rest)
      {
        NewestIsBefore(all, removed, c, d);
      }
      SubsetSize(NewerChains(all, d), Chains(rest));
    }
  }

  lemma NewestIsBefore(all: set<Snapshot>, removed: set<string>, c: string, d: string)
    requires Newer(all, c, d) && d in removed && forall e :: e in removed && e != d ==> Newer(all, d, e)
    ensures c !in removed
  {
    hide Newer;
    if c in removed {
      NewerAsymmetric(all, c, d);
    }
  }

  /** An age policy removes exactly the chains that have a snapshot older than it allows. */
  lemma AgeRemovesOld(maxAge: int, all: set<Snapshot>, now: int, c: string)
    requires c in Chains(all)
    ensures c in RemovedChains(all, Kept(Age(maxAge), all, now)) <==>
              exists s :: s in all && s.chainID == c && now - s.timestamp > maxAge
  {
    hide SizeOf;
    KeptChains(Age(maxAge), all, now);
  }

  /** OLDEST. A size policy removes oldest chains: every chain that goes has a snapshot earlier
      than all those of any chain that stays. */
  lemma SizeRemovesOldest(maxSize: int, all: set<Snapshot>, now: int)
    requires NoTies(all) && NonNegative(all)
    ensures var rest := Kept(Size(maxSize), all, now);
            forall c, d :: c in Chains(rest) && d in RemovedChains(all, rest) ==>
              exists t :: t in all && t.chainID == d
                          && forall s :: s in rest && s.chainID == c ==> t.timestamp < s.timestamp
  {
    hide SizeOf, Newer, NonNegative, InChains;
    var rest := Kept(Size(maxSize), all, now);
    KeptChains(Size(maxSize), all, now);
    RemovedIsOldestFirst(all, maxSize);
    forall c, d | c in Chains(rest) && d in RemovedChains(all, rest)
      ensures exists t :: t in all && t.chainID == d
                          && forall s :: s in rest && s.chainID == c ==> t.timestamp < s.timestamp
    {
      assert d in RemovedBySize(all, maxSize) && c !in RemovedBySize(all, maxSize);
      NoTie(all, c, d);
      assert Older(all, d, c);
    }
  }

  /** A composite policy keeps what all its parts keep. */
  lemma CompositeKeepsCommon(ps: seq<Policy>, all: set<Snapshot>, now: int, s: Snapshot)
    ensures s in Kept(Composite(ps), all, now) <==>
              s in all && forall i :: 0 <= i < |ps| ==> s in Kept(ps[i], all, now)
  {
    hide SizeOf;
  }
}
