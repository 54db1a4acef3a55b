/** The snapshot index, the files beside it, and what it means for them to agree. */
module BackupStore {
  import opened Wrappers
  import opened Collections
  import opened Text
  import opened Retention

  // ----- what is on disk -----

  datatype Store = Store(initialized: bool, files: map<StoragePath, Bytes>, index: map<SnapshotID, Snapshot>)

  function Entries(index: map<SnapshotID, Snapshot>): set<Snapshot> {
    set id | id in index :: index[id]
  }

  function EntryIDs(entries: set<Snapshot>): set<SnapshotID> {
    set s | s in entries :: s.id
  }

  function Paths(entries: set<Snapshot>): set<StoragePath> {
    set s | s in entries :: s.storagePath
  }

  /** A well-formed entry: the first of its own chain, named after its time and content. */
  predicate WellFormed(s: Snapshot) {
    && s.id == IDOf(s.timestamp, s.metadata.configHash)
    && s.storageType == Full && s.storagePath == FullFile(s.id) && s.sequenceNum == 1
    && s.checksum == s.metadata.configHash
    && ChainNumber(s.chainID).Some? && s.chainID == ChainName(ChainNumber(s.chainID).value)
  }

  /** The file of an entry holds bytes with the recorded hash and size. */
  predicate Backed(s: Snapshot, files: map<StoragePath, Bytes>) {
    s.storagePath in files && HashOf(files[s.storagePath]) == s.metadata.configHash && |files[s.storagePath]| == s.size
  }

  predicate NamedByID(index: map<SnapshotID, Snapshot>) {
    forall id :: id in index ==> index[id].id == id
  }

  /** What an index the program wrote always is. */
  predicate Orderly(index: map<SnapshotID, Snapshot>) {
    && NamedByID(index) && Distinct(index)
    && forall id :: id in index ==> WellFormed(index[id]) && index[id].size >= 0
  }

  /** The entries whose files are gone. */
  function Lost(store: Store): set<Snapshot> {
    set s | s in Entries(store.index) && s.storagePath !in store.files
  }

  /** Every entry whose file is not gone is backed by it. */
  predicate Coherent(store: Store) {
    Orderly(store.index) && forall id :: id in store.index ==>
      store.index[id].storagePath in store.files ==> Backed(store.index[id], store.files)
  }

  /** Every entry is backed. */
  predicate Agrees(store: Store) {
    Orderly(store.index) && forall id :: id in store.index ==> Backed(store.index[id], store.files)
  }

  lemma AgreesIffNoneLost(store: Store)
    ensures Agrees(store) <==> Coherent(store) && Lost(store) == {}
  {
    hide Orderly;
    forall id | id in store.index
      ensures store.index[id] in Lost(store) <==> store.index[id].storagePath !in store.files
    {
    }
    assert forall s :: s in Lost(store) ==> exists id :: id in store.index && store.index[id] == s;
  }

  /** No two entries share content or a chain. */
  predicate Distinct(index: map<SnapshotID, Snapshot>) {
    forall i, j :: i in index && j in index && i != j ==>
      index[i].metadata.configHash != index[j].metadata.configHash && index[i].chainID != index[j].chainID
  }

  const EMPTY := Store(false, map[], map[])

  // ----- chain names -----

  const CHAIN := "chain-"

  function ChainName(n: nat): string {
    CHAIN + Decimal(n)
  }

  /** The number scanned from a chain ID. */
  function ChainNumber(chainID: string): Option<nat> {
    if |chainID| < |CHAIN| || chainID[..|CHAIN|] != CHAIN then None
    else
      var rest := chainID[|CHAIN|..];
      var k := Text.Run(rest, IsDigit);
      if k == 0 then None else Some(DecimalValue(rest[..k]))
  }

  lemma ChainNameRoundTrip(n: nat)
    ensures ChainNumber(ChainName(n)) == Some(n)
  {
    DecimalRoundTrip(n);
    RunIs(Decimal(n), "", IsDigit);
    assert Decimal(n) + "" == Decimal(n);
    assert ChainName(n)[..|CHAIN|] == CHAIN && ChainName(n)[|CHAIN|..] == Decimal(n);
    assert Decimal(n)[..|Decimal(n)|] == Decimal(n);
  }

  // ----- the index -----

  class SnapshotIndex {
    var snapshots: map<SnapshotID, Snapshot>

    constructor (saved: map<SnapshotID, Snapshot>)
      ensures snapshots == saved
    {
      snapshots := saved;
    }

    method Add(snapshot: Snapshot)
      modifies this
      ensures snapshots == old(snapshots)[snapshot.id := snapshot]
    {
      snapshots := snapshots[snapshot.id := snapshot];
    }

    method Get(id: SnapshotID) returns (found: Option<Snapshot>)
      ensures found == if id in snapshots then Some(snapshots[id]) else None
    {
      found := if id in snapshots then Some(snapshots[id]) else None;
    }

    method Delete(id: SnapshotID) returns (ok: bool)
      modifies this
      ensures ok <==> id in old(snapshots)
      ensures snapshots == old(snapshots) - {id}
    {
      if id !in snapshots {
        return false;
      }
      snapshots := snapshots - {id};
      ok := true;
    }

    /** All entries, in whatever order the map yields them. */
    method List() returns (list: seq<Snapshot>)
      ensures forall s :: s in list <==> s in Entries(snapshots)
      ensures NamedByID(snapshots) ==> Unique(list)
    {
      list := [];
      var rest := snapshots.Keys;
      while rest != {}
        invariant rest <= snapshots.Keys
        invariant forall s :: s in list ==> exists id :: id in snapshots && id !in rest && snapshots[id] == s
        invariant forall id :: id in snapshots && id !in rest ==> snapshots[id] in list
        invariant NamedByID(snapshots) ==> Unique(list)
        decreases |rest|
      {
        var id :| id in rest;
        assert NamedByID(snapshots) ==> snapshots[id] !in list;
        rest := rest - {id};
        list := list + [snapshots[id]];
      }
    }

    /** Some entry whose content has this hash, if there is one. */
    method FindByHash(hash: Hash) returns (found: Option<Snapshot>)
      ensures found.Some? ==> found.value in Entries(snapshots) && found.value.metadata.configHash == hash
      ensures found.None? ==> forall s :: s in Entries(snapshots) ==> s.metadata.configHash != hash
    {
      var rest := snapshots.Keys;
      while rest != {}
        invariant rest <= snapshots.Keys
        invariant forall id :: id in snapshots && id !in rest ==> snapshots[id].metadata.configHash != hash
        decreases |rest|
      {
        var id :| id in rest;
        if snapshots[id].metadata.configHash == hash {
          return Some(snapshots[id]);
        }
        rest := rest - {id};
      }
      found := None;
    }

    method GetChain(chainID: string) returns (chain: seq<Snapshot>)
      ensures forall s :: s in chain <==> s in Entries(snapshots) && s.chainID == chainID
      ensures NamedByID(snapshots) ==> Unique(chain)
    {
      chain := [];
      var rest := snapshots.Keys;
      while rest != {}
        invariant rest <= snapshots.Keys
        invariant forall s :: s in chain ==>
                  s.chainID == chainID && exists id :: id in snapshots && id !in rest && snapshots[id] == s
        invariant forall id :: id in snapshots && id !in rest && snapshots[id].chainID == chainID ==>
                  snapshots[id] in chain
        invariant NamedByID(snapshots) ==> Unique(chain)
        decreases |rest|
      {
        var id :| id in rest;
        assert NamedByID(snapshots) ==> snapshots[id] !in chain;
        rest := rest - {id};
        if snapshots[id].chainID == chainID {
          chain := chain + [snapshots[id]];
        }
      }
    }
  }

  // ----- storage -----

  /** How a file write ends: a failed one may leave something else behind. */
  datatype Write = Done | Failed(left: Option<Bytes>)

  function Written<P(==)>(files: map<P, Bytes>, path: P, data: Bytes, w: Write): map<P, Bytes> {
    match w
    case Done => files[path := data]
    case Failed(None) => files
    case Failed(Some(left)) => files[path := left]
  }

  /** What the file system refuses during one call. */
  datatype Faults = Faults(
    indexUnreadable: bool,
    mkdir: bool,
    firstIndex: bool,
    index: bool,
    snapshot: Write,
    undeletable: set<StoragePath>,
    unreadable: set<StoragePath>,
    configUnreadable: bool,
    targetDir: bool,
    target: Write)

  class Storage {
    var initialized: bool
    var files: map<StoragePath, Bytes>
    var index: map<SnapshotID, Snapshot>

    constructor ()
      ensures State() == EMPTY
    {
      initialized, files, index := false, map[], map[];
    }

    ghost function State(): Store
      reads this
    {
      Store(initialized, files, index)
    }

    method Initialize(faults: Faults) returns (ok: bool)
      modifies this`initialized
      ensures initialized == (old(initialized) || !faults.mkdir)
      ensures ok <==> !faults.mkdir && !faults.firstIndex
    {
      if faults.mkdir {
        return false;
      }
      initialized := true;
      ok := !faults.firstIndex;
    }

    method Save(id: SnapshotID, data: Bytes, faults: Faults) returns (path: Option<StoragePath>)
      modifies this`files
      ensures path == if initialized && faults.snapshot == Done then Some(FullFile(id)) else None
      ensures files == if initialized then Written(old(files), FullFile(id), data, faults.snapshot) else old(files)
    {
      if !initialized {
        return None;
      }
      files := Written(files, FullFile(id), data, faults.snapshot);
      path := if faults.snapshot == Done then Some(FullFile(id)) else None;
    }

    method Load(path: StoragePath, faults: Faults) returns (data: Option<Bytes>)
      ensures data == if path in files && path !in faults.unreadable then Some(files[path]) else None
    {
      data := if path in files && path !in faults.unreadable then Some(files[path]) else None;
    }

    method Delete(path: StoragePath, faults: Faults) returns (ok: bool)
      modifies this`files
      ensures ok <==> path in old(files) && path !in faults.undeletable
      ensures files == if ok then old(files) - {path} else old(files)
    {
      if path !in files || path in faults.undeletable {
        return false;
      }
      files := files - {path};
      ok := true;
    }

    method SaveIndex(idx: SnapshotIndex, faults: Faults) returns (ok: bool)
      modifies this`index
      ensures ok <==> !faults.index
      ensures index == if ok then idx.snapshots else old(index)
    {
      if faults.index {
        return false;
      }
      index := idx.snapshots;
      ok := true;
    }

    method LoadIndex(faults: Faults) returns (idx: SnapshotIndex, ok: bool)
      ensures fresh(idx)
      ensures ok <==> !faults.indexUnreadable
      ensures ok ==> idx.snapshots == index
    {
      idx := new SnapshotIndex(if faults.indexUnreadable then map[] else index);
      ok := !faults.indexUnreadable;
    }
  }

  // ----- steps of the store -----

  datatype Event =
    | Saved(snapshot: Snapshot)
    | NotSaved(path: StoragePath)
    | Pruned(removed: set<Snapshot>)
    | Unsaved(deleted: set<Snapshot>)

  /** A backup that saved a new snapshot, one that saved none (a duplicate, or a failure that
      may have left something in a file no entry refers to), a retention pass, and one that
      deleted files but could not save the index. */
  ghost predicate Step(before: Store, after: Store, event: Event) {
    match event
    case Saved(s) =>
      && WellFormed(s) && Fresh(before.index, s)
      && after.index == before.index[s.id := s]
      && Elsewhere(before.files, after.files, s.storagePath) && Backed(s, after.files)
    case NotSaved(path) =>
      && after.index == before.index && Elsewhere(before.files, after.files, path)
      && path !in Paths(Entries(before.index))
    case Pruned(removed) =>
      && removed <= Entries(before.index) - Lost(before)
      && after.index == before.index - EntryIDs(removed) && after.files == before.files - Paths(removed)
    case Unsaved(deleted) =>
      && deleted <= Entries(before.index) - Lost(before)
      && after.index == before.index && after.files == before.files - Paths(deleted)
  }

  /** `s` repeats no content and no chain of the index. */
  predicate Fresh(index: map<SnapshotID, Snapshot>, s: Snapshot) {
    forall id :: id in index ==>
        index[id].metadata.configHash != s.metadata.configHash && index[id].chainID != s.chainID
  }

  /** Nothing changed but possibly the file at `path`. */
  predicate Elsewhere(before: map<StoragePath, Bytes>, after: map<StoragePath, Bytes>, path: StoragePath) {
    before - {path} == after - {path}
  }

  lemma ElsewhereSame(before: map<StoragePath, Bytes>, after: map<StoragePath, Bytes>, path: StoragePath,
                      other: StoragePath)
    requires Elsewhere(before, after, path) && other != path
    ensures other in after <==> other in before
    ensures other in before ==> after[other] == before[other]
  {
    assert other in before <==> other in before - {path};
    assert other in after <==> other in after - {path};
    assert other in before ==> (before - {path})[other] == before[other] && (after - {path})[other] == after[other];
  }

  /** New content gives a new ID, whatever the clock says. */
  lemma NewID(store: Store, s: Snapshot)
    requires Orderly(store.index) && WellFormed(s) && Fresh(store.index, s)
    ensures s.id !in store.index
  {
    hide ChainNumber, ChainName;
  }

  /** An entry is found under its ID, and its file is named after it. */
  lemma EntryIs(index: map<SnapshotID, Snapshot>, s: Snapshot)
    requires Orderly(index) && s in Entries(index)
    ensures s.id in index && index[s.id] == s && WellFormed(s) && s.size >= 0 && s.storagePath == FullFile(s.id)
  {
    hide ChainNumber, ChainName, Distinct;
  }

  // A saved snapshot.

  lemma SavedEntries(before: Store, after: Store, s: Snapshot)
    requires Orderly(before.index) && Step(before, after, Saved(s))
    ensures Entries(after.index) == Entries(before.index) + {s} && s !in Entries(before.index)
  {
    hide WellFormed, Elsewhere, Backed, Distinct;
    NewID(before, s);
    assert forall id :: id in before.index ==> after.index[id] == before.index[id];
    assert s == after.index[s.id];
  }

  lemma SavedOrderly(before: Store, after: Store, s: Snapshot)
    requires Orderly(before.index) && Step(before, after, Saved(s))
    ensures Orderly(after.index)
  {
    hide WellFormed, Elsewhere, Entries;
    NewID(before, s);
  }

  lemma SavedKeepsFiles(before: Store, after: Store, s: Snapshot)
    requires Coherent(before) && Step(before, after, Saved(s))
    ensures Coherent(after) && Lost(after) == Lost(before)
  {
    hide WellFormed, Orderly, Distinct, Fresh, Elsewhere, Backed;
    SavedEntries(before, after, s);
    SavedOrderly(before, after, s);
    forall t | t in Entries(before.index)
      ensures t.storagePath in after.files <==> t.storagePath in before.files
      ensures t.storagePath in after.files ==> Backed(t, after.files)
    {
      EntryIs(before.index, t);
      EntryIs(after.index, s);
      NewID(before, s);
      ElsewhereSame(before.files, after.files, s.storagePath, t.storagePath);
      BackedMoves(t, before.files, after.files);
    }
    BackedPresent(s, after.files);
    CoherentFrom(after);
  }

  lemma BackedMoves(t: Snapshot, before: map<StoragePath, Bytes>, after: map<StoragePath, Bytes>)
    requires t.storagePath in before && t.storagePath in after ==> after[t.storagePath] == before[t.storagePath]
    ensures t.storagePath in before && t.storagePath in after ==> (Backed(t, after) <==> Backed(t, before))
  {
  }

  lemma BackedPresent(s: Snapshot, files: map<StoragePath, Bytes>)
    ensures Backed(s, files) ==> s.storagePath in files
  {
  }

  lemma CoherentFrom(store: Store)
    requires Orderly(store.index)
    requires forall t :: t in Entries(store.index) && t.storagePath in store.files ==> Backed(t, store.files)
    ensures Coherent(store)
  {
    hide Orderly, Backed;
    forall id | id in store.index && store.index[id].storagePath in store.files
      ensures Backed(store.index[id], store.files)
    {
      assert store.index[id] in Entries(store.index);
    }
  }

  lemma CoherentEntry(store: Store, t: Snapshot)
    requires Coherent(store) && t in Entries(store.index)
    ensures t.storagePath in store.files ==> Backed(t, store.files)
  {
    hide Orderly, Backed;
  }

  // No new entry.

  lemma NotSavedKeepsFiles(before: Store, after: Store, path: StoragePath)
    requires Coherent(before) && Step(before, after, NotSaved(path))
    ensures Coherent(after) && Lost(after) == Lost(before)
  {
    hide Orderly, Elsewhere, Backed;
    forall t | t in Entries(before.index)
      ensures t.storagePath in after.files <==> t.storagePath in before.files
      ensures t.storagePath in after.files ==> Backed(t, after.files)
    {
      ElsewhereSame(before.files, after.files, path, t.storagePath);
      BackedMoves(t, before.files, after.files);
    }
    CoherentFrom(after);
  }

  // Deleted files.

  /** A deleted file is that of a deleted entry. */
  lemma PathsAreOwn(index: map<SnapshotID, Snapshot>, some: set<Snapshot>, t: Snapshot)
    requires Orderly(index) && some <= Entries(index) && t in Entries(index)
    ensures t.storagePath in Paths(some) <==> t in some
    ensures t.id in EntryIDs(some) <==> t in some
  {
    hide Orderly, WellFormed, Entries;
    EntryIs(index, t);
    forall s | s in some
      ensures s.id in index && index[s.id] == s && s.storagePath == FullFile(s.id)
    {
      EntryIs(index, s);
    }
  }

  lemma DeletedKeepsFiles(before: Store, files: map<StoragePath, Bytes>, deleted: set<Snapshot>, t: Snapshot)
    requires Coherent(before) && deleted <= Entries(before.index) && t in Entries(before.index)
    requires files == before.files - Paths(deleted)
    ensures t.storagePath in files <==> t.storagePath in before.files && t !in deleted
    ensures t.storagePath in files ==> Backed(t, files)
  {
    hide Orderly, Backed, Paths;
    PathsAreOwn(before.index, deleted, t);
    BackedMoves(t, before.files, files);
  }

  lemma UnsavedLoses(before: Store, after: Store, deleted: set<Snapshot>)
    requires Coherent(before) && Step(before, after, Unsaved(deleted))
    ensures Coherent(after) && Lost(after) == Lost(before) + deleted
  {
    hide Orderly, Backed, Paths;
    forall t | t in Entries(before.index)
      ensures t.storagePath in after.files <==> t.storagePath in before.files && t !in deleted
      ensures t.storagePath in after.files ==> Backed(t, after.files)
    {
      DeletedKeepsFiles(before, after.files, deleted, t);
    }
    CoherentFrom(after);
  }

  lemma PrunedEntries(before: Store, after: Store, removed: set<Snapshot>)
    requires Orderly(before.index) && Step(before, after, Pruned(removed))
    ensures Entries(after.index) == Entries(before.index) - removed && Orderly(after.index)
  {
    hide WellFormed, EntryIDs, Paths, Lost;
    forall id | id in before.index
      ensures id in after.index <==> before.index[id] !in removed
    {
      assert before.index[id] in Entries(before.index) && before.index[id].id == id;
      PathsAreOwn(before.index, removed, before.index[id]);
    }
    assert forall id :: id in after.index ==> id in before.index && after.index[id] == before.index[id];
    forall s | s in Entries(before.index)
      ensures s in Entries(after.index) <==> s !in removed
    {
      assert before.index[s.id] == s;
      if s in Entries(after.index) {
        assert after.index[s.id] == s;
      }
    }
  }

  lemma PrunedKeepsFiles(before: Store, after: Store, removed: set<Snapshot>)
    requires Coherent(before) && Step(before, after, Pruned(removed))
    ensures Coherent(after) && Lost(after) == Lost(before)
  {
    hide Orderly, Backed, Paths, EntryIDs;
    PrunedEntries(before, after, removed);
    forall t | t in Entries(before.index)
      ensures t.storagePath in after.files <==> t.storagePath in before.files && t !in removed
      ensures t.storagePath in after.files ==> Backed(t, after.files)
    {
      DeletedKeepsFiles(before, after.files, removed, t);
    }
    CoherentFrom(after);
  }

  // ----- what every step keeps -----

  /** A step keeps the store coherent, loses exactly the files of a pass that could not save
      its index, and accounts for every byte. */
  lemma StepKeeps(before: Store, after: Store, event: Event)
    requires Coherent(before) && Step(before, after, event)
    ensures Coherent(after) && Lost(after) == Lost(before) + Loss(event)
    ensures SizeOf(Entries(after.index)) == SizeOf(Entries(before.index)) + Gain(event)
  {
    hide Orderly, Coherent, Lost, SizeOf;
    CoherentIsOrderly(before);
    match event {
      case Saved(s) =>
        hide Step;
        SavedEntries(before, after, s);
        SavedKeepsFiles(before, after, s);
        SizeWithout(Entries(after.index), s);
        assert Entries(after.index) - {s} == Entries(before.index);
      case NotSaved(path) =>
        NotSavedKeepsFiles(before, after, path);
      case Pruned(removed) =>
        PrunedKeepsFiles(before, after, removed);
        PrunedEntries(before, after, removed);
        SizeUnion(Entries(after.index), removed);
        assert Entries(after.index) + removed == Entries(before.index);
      case Unsaved(deleted) =>
        UnsavedLoses(before, after, deleted);
    }
  }

  lemma CoherentIsOrderly(store: Store)
    requires Coherent(store)
    ensures Orderly(store.index)
  {
  }

  ghost function Gain(event: Event): int {
    match event
    case Saved(s) => s.size
    case NotSaved(_) => 0
    case Pruned(removed) => -SizeOf(removed)
    case Unsaved(_) => 0
  }

  function Loss(event: Event): set<Snapshot> {
    if event.Unsaved? then event.deleted else {}
  }

  // ----- runs -----

  ghost function TotalGain(events: seq<Event>): int {
    if events == [] then 0 else TotalGain(events[..|events| - 1]) + Gain(events[|events| - 1])
  }

  function TotalLoss(events: seq<Event>): set<Snapshot> {
    if events == [] then {} else TotalLoss(events[..|events| - 1]) + Loss(events[|events| - 1])
  }

  ghost predicate RunOf(states: seq<Store>, events: seq<Event>) {
    && |states| == |events| + 1 && states[0] == EMPTY
    && forall i :: 0 <= i < |events| ==> Step(states[i], states[i + 1], events[i])
  }

  /** CONSERVATION OVER RUNS. After any backups and retention passes, whatever writes and
      deletes fail: no two entries share content or a chain, each is the first of its chain,
      each is backed by its bytes except exactly those whose files a pass deleted without
      saving its index, and the bytes recorded are those saved less those freed. */
  lemma {:induction false} RunConserves(states: seq<Store>, events: seq<Event>)
    requires RunOf(states, events)
    ensures Coherent(states[|events|]) && Lost(states[|events|]) == TotalLoss(events)
    ensures SizeOf(Entries(states[|events|].index)) == TotalGain(events)
    ensures Agrees(states[|events|]) <==> TotalLoss(events) == {}
  {
    hide Step, SizeOf, Agrees, Gain, Coherent, Lost;
    var n := |events|;
    AgreesIffNoneLost(states[n]);
    if n == 0 {
      EmptyAgrees();
    } else {
      RunConserves(states[..n], events[..n - 1]);
      assert Step(states[n - 1], states[n], events[n - 1]);
      StepKeeps(states[n - 1], states[n], events[n - 1]);
    }
  }

  lemma EmptyAgrees()
    ensures Coherent(EMPTY) && Lost(EMPTY) == {} && SizeOf(Entries(EMPTY.index)) == 0
  {
    assert Entries(EMPTY.index) == {};
  }

  /** LOST FOR GOOD. An entry whose file is gone stays in the index without it in every later
      state: no pass can remove it, since deleting its file fails, and no backup brings its
      content back. */
  lemma {:induction false} LostForGood(states: seq<Store>, events: seq<Event>, i: nat)
    requires RunOf(states, events) && i <= |events|
    ensures Lost(states[i]) <= Lost(states[|events|])
  {
    hide *;
    RunPrefix(states, events, i);
    RunConserves(states, events);
    RunConserves(states[..i + 1], events[..i]);
    LossGrows(events, i);
  }

  lemma RunPrefix(states: seq<Store>, events: seq<Event>, i: nat)
    requires RunOf(states, events) && i <= |events|
    ensures |states| == |events| + 1 && RunOf(states[..i + 1], events[..i]) && states[..i + 1][i] == states[i]
  {
    hide Step;
  }

  lemma {:induction false} LossGrows(events: seq<Event>, i: nat)
    requires i <= |events|
    ensures TotalLoss(events[..i]) <= TotalLoss(events)
  {
    var n := |events|;
    if i < n {
      LossGrows(events[..n - 1], i);
      assert events[..n - 1][..i] == events[..i];
    } else {
      assert events[..n] == events;
    }
  }
}
