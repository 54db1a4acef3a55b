/** The order in which the index lists snapshots: any order of the map it keeps them in. */
module SnapshotListing {
  import opened Collections
  import opened Retention
  import opened BackupStore
  import opened BackupManager
  import opened BackupFindings

  /** A listing of `all` as the index methods promise it: each snapshot once. */
  ghost predicate Enumerates(list: seq<Snapshot>, all: set<Snapshot>) {
    Unique(list) && forall s :: s in list <==> s in all
  }

  predicate NotLater(s: Snapshot, t: Snapshot) {
    s.timestamp <= t.timestamp
  }

  predicate NotBehind(s: Snapshot, t: Snapshot) {
    s.sequenceNum <= t.sequenceNum
  }

  /** Different snapshots of `all` are ordered one way and not the other. */
  ghost predicate Strict(all: set<Snapshot>, less: (Snapshot, Snapshot) -> bool) {
    forall s, t :: s in all && t in all && s != t ==> (less(s, t) <==> !less(t, s))
  }

  ghost predicate AlwaysSorted(all: set<Snapshot>, less: (Snapshot, Snapshot) -> bool) {
    forall list :: Enumerates(list, all) ==> SortedBy(list, less)
  }

  lemma {:induction false} Enumeration(all: set<Snapshot>) returns (list: seq<Snapshot>)
    ensures Enumerates(list, all)
    decreases |all|
  {
    list := [];
    if all != {} {
      var s :| s in all;
      var rest := Enumeration(all - {s});
      list := [s] + rest;
    }
  }

  /** Only what has at most one snapshot is listed in order whatever the map does. */
  lemma SortedIffAtMostOne(all: set<Snapshot>, less: (Snapshot, Snapshot) -> bool)
    requires Strict(all, less)
    ensures AlwaysSorted(all, less) <==> |all| <= 1
  {
    if |all| <= 1 {
      forall list | Enumerates(list, all)
        ensures |list| <= 1
      {
        if |list| >= 2 {
          TwoElements(all, list[0], list[1]);
        }
      }
    } else {
      var s :| s in all;
      assert |all - {s}| == |all| - 1;
      var t :| t in all - {s};
      var first, second := if less(s, t) then t else s, if less(s, t) then s else t;
      var rest := Enumeration(all - {s, t});
      var list := [first, second] + rest;
      assert Enumerates(list, all);
      assert !less(list[0], list[1]);
    }
  }

  lemma TwoElements(all: set<Snapshot>, s: Snapshot, t: Snapshot)
    requires s in all && t in all && s != t
    ensures |all| >= 2
  {
    assert |all - {s}| >= 1 by {
      assert t in all - {s};
    }
  }

  /** UNORDERED. With distinct times, the index is sure to be listed in chronological order if
      and only if it has at most one entry. */
  lemma ListIsChronological(index: map<SnapshotID, Snapshot>)
    requires DistinctTimes(index)
    ensures AlwaysSorted(Entries(index), NotLater) <==> |Entries(index)| <= 1
  {
    SortedIffAtMostOne(Entries(index), NotLater);
  }

  function ChainOf(index: map<SnapshotID, Snapshot>, chainID: string): set<Snapshot> {
    set s | s in Entries(index) && s.chainID == chainID
  }

  /** With distinct sequence numbers, a chain is sure to be listed in sequence order if and only
      if it has at most one snapshot. */
  lemma ChainIsInSequence(index: map<SnapshotID, Snapshot>, chainID: string)
    requires forall s, t :: s in ChainOf(index, chainID) && t in ChainOf(index, chainID) && s != t ==>
              s.sequenceNum != t.sequenceNum
    ensures AlwaysSorted(ChainOf(index, chainID), NotBehind) <==> |ChainOf(index, chainID)| <= 1
  {
    SortedIffAtMostOne(ChainOf(index, chainID), NotBehind);
  }

  /** In an index that the program wrote, every chain has at most one snapshot. */
  lemma ChainsAreSingle(store: Store, chainID: string)
    requires Orderly(store.index)
    ensures |ChainOf(store.index, chainID)| <= 1
  {
    hide Orderly;
    var chain := ChainOf(store.index, chainID);
    if chain != {} {
      var s :| s in chain;
      AloneInChain(store, s);
      assert chain == {s};
    }
  }

  /** A second snapshot, made later, and one that shares a chain with the first. */
  const LATER := NewSnapshot([2], OPTIONS, ChainName(2), 5)
  const NEXT := NewSnapshot([2], OPTIONS, ChainName(1), 5).(sequenceNum := 2)

  /** Listings that the index permits and that are in neither order. */
  lemma OutOfOrder()
    ensures Enumerates([LATER, ONLY], Entries(map[ONLY.id := ONLY, LATER.id := LATER]))
              && !SortedBy([LATER, ONLY], NotLater)
    ensures Enumerates([NEXT, ONLY], ChainOf(map[ONLY.id := ONLY, NEXT.id := NEXT], ChainName(1)))
    ensures !SortedBy([NEXT, ONLY], NotBehind)
  {
    hide ChainName;
    TwoEntries(ONLY, LATER);
    TwoEntries(ONLY, NEXT);
    assert !NotLater([LATER, ONLY][0], [LATER, ONLY][1]);
    assert !NotBehind([NEXT, ONLY][0], [NEXT, ONLY][1]);
  }

  lemma TwoEntries(s: Snapshot, t: Snapshot)
    requires s.id != t.id
    ensures Entries(map[s.id := s, t.id := t]) == {s, t}
  {
    var index := map[s.id := s, t.id := t];
    assert index[s.id] == s && index[t.id] == t;
  }
}
