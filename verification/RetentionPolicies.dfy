/** The retention policies as the program computes them: grouping, sorting and walking. */
module RetentionPolicies {
  import opened Collections
  import opened Retention

  datatype Context = Context(all: seq<Snapshot>, chain: seq<Snapshot>, totalSize: int, now: int)

  function Elements(q: seq<Snapshot>): set<Snapshot> {
    set s | s in q
  }

  // ----- oldest, newest, groups -----

  const ZERO := Snapshot(IDOf(0, HashOf([])), 0, 0, "", Manual, Full, NoPath, 0, HashOf([]), "",
      Metadata(HashOf([]), "", ""))

  method GetOldestSnapshot(snapshots: seq<Snapshot>) returns (oldest: Snapshot)
    ensures snapshots == [] ==> oldest == ZERO
    ensures snapshots != [] ==> OldestIn(oldest, snapshots)
  {
    if |snapshots| == 0 {
      return ZERO;
    }
    oldest := snapshots[0];
    for i := 1 to |snapshots|
      invariant oldest in snapshots && forall j :: 0 <= j < i ==> oldest.timestamp <= snapshots[j].timestamp
    {
      if snapshots[i].timestamp < oldest.timestamp {
        oldest := snapshots[i];
      }
    }
  }

  method GetNewestSnapshot(snapshots: seq<Snapshot>) returns (newest: Snapshot)
    ensures snapshots == [] ==> newest == ZERO
    ensures snapshots != [] ==> NewestIn(newest, snapshots)
  {
    if |snapshots| == 0 {
      return ZERO;
    }
    newest := snapshots[0];
    for i := 1 to |snapshots|
      invariant newest in snapshots && forall j :: 0 <= j < i ==> newest.timestamp >= snapshots[j].timestamp
    {
      if snapshots[i].timestamp > newest.timestamp {
        newest := snapshots[i];
      }
    }
  }

  /** `group` lists the snapshots of chain `c`. */
  ghost predicate GroupOf(group: seq<Snapshot>, all: seq<Snapshot>, c: string) {
    group != [] && Unique(group) && forall s :: s in group <==> s in all && s.chainID == c
  }

  ghost predicate Grouped(chains: map<string, seq<Snapshot>>, all: seq<Snapshot>) {
    && chains.Keys == Chains(Elements(all))
    && forall c :: c in chains ==> GroupOf(chains[c], all, c)
  }

  method GroupByChain(snapshots: seq<Snapshot>) returns (chains: map<string, seq<Snapshot>>)
    requires Unique(snapshots)
    ensures Grouped(chains, snapshots)
  {
    hide Grouped;
    chains := map[];
    NothingGrouped(snapshots);
    for i := 0 to |snapshots|
      invariant Grouped(chains, snapshots[..i])
    {
      var s := snapshots[i];
      OneMoreGrouped(chains, snapshots[..i], s);
      assert snapshots[..i + 1] == snapshots[..i] + [s];
      chains := chains[s.chainID := (if s.chainID in chains then chains[s.chainID] else []) + [s]];
    }
    assert snapshots[..|snapshots|] == snapshots;
  }

  lemma NothingGrouped(snapshots: seq<Snapshot>)
    ensures Grouped(map[], snapshots[..0])
  {
  }

  lemma OneMoreGrouped(chains: map<string, seq<Snapshot>>, all: seq<Snapshot>, s: Snapshot)
    requires Grouped(chains, all) && s !in all
    ensures Grouped(chains[s.chainID := (if s.chainID in chains then chains[s.chainID] else []) + [s]], all + [s])
  {
    hide Unique;
    var id := s.chainID;
    var group := if id in chains then chains[id] else [];
    var next := chains[id := group + [s]];
    assert Elements(all + [s]) == Elements(all) + {s};
    assert id !in chains ==> forall t :: t in all ==> t in Elements(all) && t.chainID != id;
    assert id in chains ==> GroupOf(chains[id], all, id);
    UniqueAppend(group, s);
    forall c | c in next
      ensures GroupOf(next[c], all + [s], c)
    {
      if c != id {
        assert GroupOf(chains[c], all, c);
      }
    }
  }

  lemma UniqueAppend(group: seq<Snapshot>, s: Snapshot)
    ensures Unique(group) && s !in group ==> Unique(group + [s])
    ensures Unique<Snapshot>([])
  {
  }

  // ----- sorting chain IDs -----

  predicate Ascending(ids: seq<string>, key: map<string, int>) {
    && (forall i :: 0 <= i < |ids| ==> ids[i] in key)
    && forall i, j :: 0 <= i < j < |ids| ==> key[ids[i]] < key[ids[j]]
  }

  predicate SameKeyNever(key: map<string, int>) {
    forall c, d :: c in key && d in key && c != d ==> key[c] != key[d]
  }

  /** The library sort over the IDs in the order the map happened to yield them. */
  method SortByKey(ids: seq<string>, key: map<string, int>) returns (sorted: seq<string>)
    requires Unique(ids) && (forall c :: c in ids <==> c in key) && SameKeyNever(key)
    ensures Ascending(sorted, key) && forall c :: c in sorted <==> c in key
  {
    sorted := [];
    for i := 0 to |ids|
      invariant Ascending(sorted, key) && forall c :: c in sorted <==> c in ids[..i]
    {
      var id := ids[i];
      assert ids[..i + 1] == ids[..i] + [id];
      assert id !in sorted;
      forall j | 0 <= j < |sorted|
        ensures sorted[j] in sorted && sorted[j] != id
      {
      }
      sorted := Insert(sorted, id, (c, d) => c in key && d in key && key[c] < key[d]);
    }
    assert ids[..|ids|] == ids;
  }

  function Prefix(sorted: seq<string>, i: nat): set<string>
    requires i <= |sorted|
  {
    set c | c in sorted[..i]
  }

  /** The IDs in front of one in ascending order are those with smaller keys. */
  lemma Rank(sorted: seq<string>, key: map<string, int>, i: nat)
    requires Ascending(sorted, key) && (forall c :: c in sorted <==> c in key) && i < |sorted|
    ensures (set c | c in key && key[c] < key[sorted[i]]) == Prefix(sorted, i)
    ensures |Prefix(sorted, i)| == i
  {
    forall c | c in key
      ensures key[c] < key[sorted[i]] <==> c in sorted[..i]
    {
      var j :| 0 <= j < |sorted| && sorted[j] == c;
      if j < i {
        assert sorted[..i][j] == c;
      }
      if c in sorted[..i] {
        var k :| 0 <= k < i && sorted[..i][k] == c;
        assert sorted[k] == c;
      }
    }
    PrefixSize(sorted, key, i);
  }

  lemma {:induction false} PrefixSize(sorted: seq<string>, key: map<string, int>, i: nat)
    requires Ascending(sorted, key) && i <= |sorted|
    ensures |Prefix(sorted, i)| == i
  {
    if i > 0 {
      PrefixSize(sorted, key, i - 1);
      assert sorted[..i] == sorted[..i - 1] + [sorted[i - 1]];
      assert sorted[i - 1] !in sorted[..i - 1];
      assert Prefix(sorted, i) == Prefix(sorted, i - 1) + {sorted[i - 1]};
    }
  }

  /** The chains by age: each ID's key is the time of its chain's oldest snapshot. */
  ghost predicate OldestKeys(key: map<string, int>, all: set<Snapshot>) {
    && key.Keys == Chains(all)
    && forall c, d :: c in key && d in key ==> (Older(all, c, d) <==> key[c] < key[d])
  }

  /** The chains by recency: a newer chain has the smaller key. */
  ghost predicate NewestKeys(key: map<string, int>, all: set<Snapshot>) {
    && key.Keys == Chains(all)
    && forall c, d :: c in key && d in key ==> (Newer(all, c, d) <==> key[c] < key[d])
  }

  lemma OldestDecides(all: set<Snapshot>, c: string, d: string, s: Snapshot, t: Snapshot)
    requires s in all && s.chainID == c && forall u :: u in all && u.chainID == c ==> s.timestamp <= u.timestamp
    requires t in all && t.chainID == d && forall u :: u in all && u.chainID == d ==> t.timestamp <= u.timestamp
    ensures Older(all, c, d) <==> s.timestamp < t.timestamp
  {
    if s.timestamp < t.timestamp {
      assert forall u :: u in all && u.chainID == d ==> s.timestamp < u.timestamp;
    }
  }

  lemma NewestDecides(all: set<Snapshot>, c: string, d: string, s: Snapshot, t: Snapshot)
    requires s in all && s.chainID == c && forall u :: u in all && u.chainID == c ==> s.timestamp >= u.timestamp
    requires t in all && t.chainID == d && forall u :: u in all && u.chainID == d ==> t.timestamp >= u.timestamp
    ensures Newer(all, c, d) <==> s.timestamp > t.timestamp
  {
    if s.timestamp > t.timestamp {
      assert forall u :: u in all && u.chainID == d ==> s.timestamp > u.timestamp;
    }
  }

  predicate OldestIn(s: Snapshot, group: seq<Snapshot>) {
    s in group && forall t :: t in group ==> s.timestamp <= t.timestamp
  }

  predicate NewestIn(s: Snapshot, group: seq<Snapshot>) {
    s in group && forall t :: t in group ==> s.timestamp >= t.timestamp
  }

  method ChainsOldestFirst(chains: map<string, seq<Snapshot>>, ghost all: seq<Snapshot>)
    returns (sorted: seq<string>, ghost key: map<string, int>)
    requires Grouped(chains, all) && NoTies(Elements(all))
    ensures OldestKeys(key, Elements(all)) && Ascending(sorted, key) && forall c :: c in sorted <==> c in key
    ensures forall i, j :: 0 <= i < j < |sorted| ==> Older(Elements(all), sorted[i], sorted[j])
  {
    hide Older, Newer;
    var ids := KeysInAnyOrder(chains.Keys);
    var times: map<string, int> := map[];
    ghost var oldest: map<string, Snapshot> := map[];
    for i := 0 to |ids|
      invariant forall c :: c in times <==> c in ids[..i]
      invariant forall c :: c in times ==>
                c in oldest && times[c] == oldest[c].timestamp && OldestIn(oldest[c], chains[c])
    {
      assert ids[..i + 1] == ids[..i] + [ids[i]];
      var first := GetOldestSnapshot(chains[ids[i]]);
      times := times[ids[i] := first.timestamp];
      oldest := oldest[ids[i] := first];
    }
    assert ids[..|ids|] == ids;
    forall c, d | c in times && d in times
      ensures Older(Elements(all), c, d) <==> times[c] < times[d]
    {
      assert GroupOf(chains[c], all, c) && GroupOf(chains[d], all, d);
      OldestDecides(Elements(all), c, d, oldest[c], oldest[d]);
    }
    forall c, d | c in times && d in times && c != d
      ensures times[c] != times[d]
    {
      NoTie(Elements(all), c, d);
    }
    key := times;
    sorted := SortByKey(ids, times);
  }

  method ChainsNewestFirst(chains: map<string, seq<Snapshot>>, ghost all: seq<Snapshot>)
    returns (sorted: seq<string>, ghost key: map<string, int>)
    requires Grouped(chains, all) && NoTies(Elements(all))
    ensures NewestKeys(key, Elements(all)) && Ascending(sorted, key) && forall c :: c in sorted <==> c in key
    ensures forall i, j :: 0 <= i < j < |sorted| ==> Newer(Elements(all), sorted[i], sorted[j])
  {
    hide Older, Newer;
    var ids := KeysInAnyOrder(chains.Keys);
    var times: map<string, int> := map[];
    ghost var newest: map<string, Snapshot> := map[];
    for i := 0 to |ids|
      invariant forall c :: c in times <==> c in ids[..i]
      invariant forall c :: c in times ==>
                c in newest && times[c] == -newest[c].timestamp && NewestIn(newest[c], chains[c])
    {
      assert ids[..i + 1] == ids[..i] + [ids[i]];
      var last := GetNewestSnapshot(chains[ids[i]]);
      times := times[ids[i] := -last.timestamp];
      newest := newest[ids[i] := last];
    }
    assert ids[..|ids|] == ids;
    forall c, d | c in times && d in times
      ensures Newer(Elements(all), c, d) <==> times[c] < times[d]
    {
      assert GroupOf(chains[c], all, c) && GroupOf(chains[d], all, d);
      NewestDecides(Elements(all), c, d, newest[c], newest[d]);
    }
    forall c, d | c in times && d in times && c != d
      ensures times[c] != times[d]
    {
      NoTie(Elements(all), c, d);
    }
    key := times;
    sorted := SortByKey(ids, times);
  }

  // ----- the policies -----

  method FirstChains(sorted: seq<string>, maxBackups: nat) returns (keep: set<string>)
    ensures keep == Prefix(sorted, if |sorted| < maxBackups then |sorted| else maxBackups)
  {
    keep := {};
    var i := 0;
    while i < |sorted| && i < maxBackups
      invariant 0 <= i <= |sorted| && i <= maxBackups
      invariant keep == Prefix(sorted, i)
    {
      assert sorted[..i + 1] == sorted[..i] + [sorted[i]];
      keep := keep + {sorted[i]};
      i := i + 1;
    }
  }

  /** No chain has as many newer ones as there are chains. */
  lemma KeyCount(sorted: seq<string>, key: map<string, int>, c: string, all: seq<Snapshot>)
    requires NewestKeys(key, Elements(all)) && Ascending(sorted, key) && (forall d :: d in sorted <==> d in key)
    requires c in key
    ensures |NewerChains(Elements(all), c)| < |sorted|
  {
    hide Older, Newer;
    NewestRank(all, sorted, key, |sorted|, c);
    assert sorted[..|sorted|] == sorted;
  }

  method CountShouldRetain(maxBackups: int, snapshot: Snapshot, ctx: Context) returns (retain: bool)
    requires Unique(ctx.all) && NoTies(Elements(ctx.all)) && snapshot in ctx.all && maxBackups > 0
    ensures retain <==> Retains(Count(maxBackups), Elements(ctx.all), ctx.totalSize, ctx.now, snapshot.chainID)
  {
    hide Older, Newer, NoTies, Unique, Grouped, NewerChains;
    var chains := GroupByChain(ctx.all);
    var sorted, key := ChainsNewestFirst(chains, ctx.all);
    var keep := FirstChains(sorted, maxBackups);
    ghost var n := if |sorted| < maxBackups then |sorted| else maxBackups;
    retain := snapshot.chainID in keep;
    assert snapshot.chainID in Chains(Elements(ctx.all));
    NewestRank(ctx.all, sorted, key, n, snapshot.chainID);
    KeyCount(sorted, key, snapshot.chainID, ctx.all);
  }

  /** Among the first `n` chains, newest first, are those with fewer than `n` before them. */
  lemma NewestRank(all: seq<Snapshot>, sorted: seq<string>, key: map<string, int>, n: nat, c: string)
    requires NewestKeys(key, Elements(all)) && Ascending(sorted, key) && (forall d :: d in sorted <==> d in key)
    requires n <= |sorted| && c in key
    ensures c in sorted[..n] <==> |NewerChains(Elements(all), c)| < n
  {
    hide Older, Newer;
    var k :| 0 <= k < |sorted| && sorted[k] == c;
    Rank(sorted, key, k);
    assert NewerChains(Elements(all), c) == set d | d in key && key[d] < key[c];
    AscendingOnce(sorted, key, n, k);
  }

  lemma AscendingOnce(sorted: seq<string>, key: map<string, int>, n: nat, k: nat)
    requires Ascending(sorted, key) && n <= |sorted| && k < |sorted|
    ensures sorted[k] in sorted[..n] <==> k < n
  {
    if k < n {
      assert sorted[..n][k] == sorted[k];
    }
  }

  method AgeShouldRetain(maxAge: int, ghost snapshot: Snapshot, ctx: Context) returns (retain: bool)
    requires snapshot in ctx.all && GroupOf(ctx.chain, ctx.all, snapshot.chainID)
    ensures retain <==> Retains(Age(maxAge), Elements(ctx.all), ctx.totalSize, ctx.now, snapshot.chainID)
  {
    var oldest := GetOldestSnapshot(ctx.chain);
    retain := ctx.now - oldest.timestamp <= maxAge;
    assert oldest in Elements(ctx.all);
    assert forall s :: s in Elements(ctx.all) && s.chainID == snapshot.chainID ==> s in ctx.chain;
  }

  method SumSizes(snapshots: seq<Snapshot>) returns (total: int)
    requires Unique(snapshots)
    ensures total == SizeOf(Elements(snapshots))
  {
    hide SizeOf;
    total := 0;
    SizeOfNone();
    assert Elements(snapshots[..0]) == {};
    for i := 0 to |snapshots|
      invariant total == SizeOf(Elements(snapshots[..i]))
    {
      AddSize(snapshots, i);
      total := total + snapshots[i].size;
    }
    assert snapshots[..|snapshots|] == snapshots;
  }

  lemma SizeOfNone()
    ensures SizeOf({}) == 0
  {
  }

  lemma AddSize(snapshots: seq<Snapshot>, i: nat)
    requires i < |snapshots| && Unique(snapshots)
    ensures SizeOf(Elements(snapshots[..i + 1])) == SizeOf(Elements(snapshots[..i])) + snapshots[i].size
  {
    hide SizeOf;
    var s := snapshots[i];
    assert snapshots[..i + 1] == snapshots[..i] + [s];
    assert s !in snapshots[..i];
    SizeWithout(Elements(snapshots[..i + 1]), s);
    assert Elements(snapshots[..i + 1]) - {s} == Elements(snapshots[..i]);
  }

  lemma NextChainSize(all: set<Snapshot>, sorted: seq<string>, key: map<string, int>, i: nat)
    requires Ascending(sorted, key) && i < |sorted|
    ensures SizeOf(InChains(all, Prefix(sorted, i + 1))) ==
            SizeOf(InChains(all, Prefix(sorted, i))) + SizeOf(InChains(all, {sorted[i]}))
  {
    hide SizeOf;
    assert sorted[..i + 1] == sorted[..i] + [sorted[i]];
    assert sorted[i] !in sorted[..i];
    SizeUnion(InChains(all, Prefix(sorted, i)), InChains(all, {sorted[i]}));
    assert InChains(all, Prefix(sorted, i + 1)) == InChains(all, Prefix(sorted, i)) + InChains(all, {sorted[i]});
  }

  /** Walking the chains oldest first and stopping at the first total within the limit
      removes exactly the chains whose older ones do not suffice. */
  lemma WalkDecides(all: set<Snapshot>, sorted: seq<string>, key: map<string, int>, total: int, maxSize: int, n: nat,
                    i: nat)
    requires OldestKeys(key, all) && Ascending(sorted, key) && NonNegative(all)
    requires forall c :: c in sorted <==> c in key
    requires n <= |sorted| && i < |sorted|
    requires n < |sorted| ==> total - SizeOf(InChains(all, Prefix(sorted, n))) <= maxSize
    requires forall j :: 0 <= j < n ==> total - SizeOf(InChains(all, Prefix(sorted, j))) > maxSize
    ensures Retains(Size(maxSize), all, total, 0, sorted[i]) <==> i >= n
  {
    hide SizeOf, Older;
    Rank(sorted, key, i);
    assert OlderChains(all, sorted[i]) == Prefix(sorted, i);
    if i >= n {
      assert Prefix(sorted, n) <= Prefix(sorted, i) by {
        assert sorted[..n] == sorted[..i][..n];
      }
      FewerChainsSmaller(all, Prefix(sorted, n), Prefix(sorted, i));
    }
  }

  method SizeShouldRetain(maxSize: int, snapshot: Snapshot, ctx: Context) returns (retain: bool)
    requires Unique(ctx.all) && NoTies(Elements(ctx.all)) && NonNegative(Elements(ctx.all)) && snapshot in ctx.all
    ensures retain <==> Retains(Size(maxSize), Elements(ctx.all), ctx.totalSize, ctx.now, snapshot.chainID)
  {
    hide Older, Newer, NoTies, SizeOf, NonNegative, InChains;
    ghost var all := Elements(ctx.all);
    if ctx.totalSize <= maxSize {
      SizeAtLeastZeroOf(all, OlderChains(all, snapshot.chainID));
      return true;
    }
    var chains := GroupByChain(ctx.all);
    var sizes := ChainSizes(chains, ctx.all);
    var sorted, key := ChainsOldestFirst(chains, ctx.all);
    var remove, n := RemoveOldest(sorted, sizes, ctx.totalSize, maxSize, all, key);
    retain := snapshot.chainID !in remove;
    assert snapshot.chainID in Chains(all);
    ghost var i :| 0 <= i < |sorted| && sorted[i] == snapshot.chainID;
    WalkDecides(all, sorted, key, ctx.totalSize, maxSize, n, i);
    AscendingOnce(sorted, key, n, i);
  }

  /** Removes oldest chains until the size is within the limit. */
  method RemoveOldest(sorted: seq<string>, sizes: map<string, int>, totalSize: int, maxSize: int,
                      ghost all: set<Snapshot>, ghost key: map<string, int>)
    returns (remove: set<string>, ghost n: nat)
    requires Ascending(sorted, key) && forall c :: c in sorted ==> c in sizes && sizes[c] == SizeOf(InChains(all, {c}))
    ensures n <= |sorted| && remove == Prefix(sorted, n)
    ensures n < |sorted| ==> totalSize - SizeOf(InChains(all, Prefix(sorted, n))) <= maxSize
    ensures forall j :: 0 <= j < n ==> totalSize - SizeOf(InChains(all, Prefix(sorted, j))) > maxSize
  {
    hide SizeOf, InChains;
    var currentSize := totalSize;
    remove, n := {}, 0;
    NothingInNoChains(all);
    assert Prefix(sorted, 0) == {};
    for i := 0 to |sorted|
      invariant n == i && remove == Prefix(sorted, i)
      invariant currentSize == totalSize - SizeOf(InChains(all, Prefix(sorted, i)))
      invariant forall j :: 0 <= j < i ==> totalSize - SizeOf(InChains(all, Prefix(sorted, j))) > maxSize
    {
      if currentSize <= maxSize {
        return;
      }
      assert sorted[..i + 1] == sorted[..i] + [sorted[i]];
      NextChainSize(all, sorted, key, i);
      remove := remove + {sorted[i]};
      currentSize := currentSize - sizes[sorted[i]];
      n := i + 1;
    }
  }

  lemma NothingInNoChains(all: set<Snapshot>)
    ensures SizeOf(InChains(all, {})) == 0
  {
    assert InChains(all, {}) == {};
  }

  method ChainSizes(chains: map<string, seq<Snapshot>>, ghost all: seq<Snapshot>) returns (sizes: map<string, int>)
    requires Grouped(chains, all)
    ensures sizes.Keys == chains.Keys
    ensures forall c :: c in sizes ==> sizes[c] == SizeOf(InChains(Elements(all), {c}))
  {
    hide SizeOf;
    sizes := map[];
    var rest := chains.Keys;
    while rest != {}
      invariant rest <= chains.Keys && sizes.Keys == chains.Keys - rest
      invariant forall c :: c in sizes ==> sizes[c] == SizeOf(InChains(Elements(all), {c}))
      decreases |rest|
    {
      var c :| c in rest;
      assert GroupOf(chains[c], all, c);
      var total := SumSizes(chains[c]);
      assert Elements(chains[c]) == InChains(Elements(all), {c});
      sizes := sizes[c := total];
      rest := rest - {c};
    }
  }

  /** Every policy decides as it is specified, whatever order the maps are walked in: all
      snapshots of a chain get the same answer. */
  method ShouldRetain(p: Policy, snapshot: Snapshot, ctx: Context) returns (retain: bool)
    requires Constructed(p) && Unique(ctx.all) && NoTies(Elements(ctx.all)) && NonNegative(Elements(ctx.all))
    requires snapshot in ctx.all && GroupOf(ctx.chain, ctx.all, snapshot.chainID)
    ensures retain <==> Retains(p, Elements(ctx.all), ctx.totalSize, ctx.now, snapshot.chainID)
    decreases p
  {
    hide NoTies, NonNegative, GroupOf, NewerChains, OlderChains, InChains, SizeOf;
    match p {
      case Count(n) => retain := CountShouldRetain(n, snapshot, ctx);
      case Age(a) => retain := AgeShouldRetain(a, snapshot, ctx);
      case Size(m) => retain := SizeShouldRetain(m, snapshot, ctx);
      case Composite(ps) =>
        for i := 0 to |ps|
          invariant forall j :: 0 <= j < i ==>
                    Retains(ps[j], Elements(ctx.all), ctx.totalSize, ctx.now, snapshot.chainID)
        {
          assert Constructed(ps[i]);
          var one := ShouldRetain(ps[i], snapshot, ctx);
          if !one {
            return false;
          }
        }
        retain := true;
    }
  }
}
