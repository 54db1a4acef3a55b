/** Creating backups without duplicates, and applying a retention policy to them. */
module BackupManager {
  import opened Wrappers
  import opened Collections
  import opened Text
  import opened Retention
  import opened RetentionPolicies
  import opened BackupStore

  datatype Error =
    | BackupDisabled | SnapshotNotFound | ConfigFileNotFound | ConfigUnreadable
    | InitializeFailed | IndexUnreadable | SaveFailed | IndexNotSaved
    | TargetPathRequired | ValidationFailed | ChecksumMismatch | BackupFailed(cause: Error)
    | ReconstructFailed | TargetDirFailed | WriteFailed

  /** The configuration files that backups are taken of. */
  class ConfigFiles {
    var contents: map<string, Bytes>

    constructor (initial: map<string, Bytes>)
      ensures contents == initial
    {
      contents := initial;
    }
  }

  datatype CreateOptions = CreateOptions(configPath: string, trigger: Trigger, tag: string, description: string)

  datatype RetentionResult = RetentionResult(
    snapshotsRemoved: nat, chainsRemoved: nat, bytesFreed: int, removed: seq<SnapshotID>)

  const NOTHING_REMOVED := RetentionResult(0, 0, 0, [])

  // ----- what a backup records -----

  function NewSnapshot(data: Bytes, opts: CreateOptions, chainID: string, now: int): Snapshot {
    var hash := HashOf(data);
    var id := IDOf(now, hash);
    Snapshot(id, 1, now, opts.configPath, opts.trigger, Full, FullFile(id), |data|, hash, chainID,
             Metadata(hash, opts.tag, opts.description))
  }

  ghost predicate Duplicate(index: map<SnapshotID, Snapshot>, data: Bytes) {
    exists s :: s in Entries(index) && s.metadata.configHash == HashOf(data)
  }

  /** What a backup of `data` does: nothing for content already held, otherwise a new entry
      in a chain of its own; a failure changes no entry and no file that an entry refers to. */
  ghost predicate BackedUp(before: Store, after: Store, data: Bytes, opts: CreateOptions, now: int,
                           r: Result<Snapshot, Error>)
  {
    if Duplicate(before.index, data) then
      && after.index == before.index && after.files == before.files
      && (r.Ok? ==> r.value in Entries(before.index) && r.value.metadata.configHash == HashOf(data))
    else if r.Ok? then
      && r.value == NewSnapshot(data, opts, r.value.chainID, now) && NewChain(before.index, r.value.chainID)
      && after.index == before.index[r.value.id := r.value]
      && after.files == before.files[r.value.storagePath := data]
    else
      after.index == before.index && Elsewhere(before.files, after.files, FullFile(IDOf(now, HashOf(data))))
  }

  predicate NewChain(index: map<SnapshotID, Snapshot>, chainID: string) {
    && ChainNumber(chainID).Some? && chainID == ChainName(ChainNumber(chainID).value)
    && forall id :: id in index ==> index[id].chainID != chainID
  }

  ghost function BackupEvent(before: Store, data: Bytes, now: int, r: Result<Snapshot, Error>): Event {
    if Duplicate(before.index, data) then NotSaved(NoPath)
    else if r.Ok? then Saved(r.value)
    else NotSaved(FullFile(IDOf(now, HashOf(data))))
  }

  /** A backup is a step of the store that leaves every older entry and its file alone. */
  lemma BackupIsStep(before: Store, after: Store, data: Bytes, opts: CreateOptions, now: int,
                     r: Result<Snapshot, Error>)
    requires Orderly(before.index) && BackedUp(before, after, data, opts, now, r)
    ensures Step(before, after, BackupEvent(before, data, now, r))
    ensures forall s :: s in Entries(before.index) ==>
              && s in Entries(after.index) && (s.storagePath in after.files <==> s.storagePath in before.files)
              && (s.storagePath in before.files ==> after.files[s.storagePath] == before.files[s.storagePath])
  {
    hide Step, BackedUp;
    EventFits(before, after, data, opts, now, r);
    EntriesKept(before, after, BackupEvent(before, data, now, r));
  }

  lemma OneHolder(index: map<SnapshotID, Snapshot>, s: Snapshot, t: Snapshot)
    requires Orderly(index) && s in Entries(index) && t in Entries(index)
    requires s.metadata.configHash == t.metadata.configHash
    ensures s == t
  {
    hide WellFormed;
  }

  /** An entry for this content has lost its file. */
  ghost predicate ContentLost(store: Store, data: Bytes) {
    exists s :: s in Lost(store) && s.metadata.configHash == HashOf(data)
  }

  /** A successful backup leaves an entry whose file holds exactly the content, even if the
      entry is an old one, exactly when no entry for this content had lost its file before. */
  lemma BackupHoldsContent(before: Store, after: Store, data: Bytes, opts: CreateOptions, now: int,
                           r: Result<Snapshot, Error>)
    requires Coherent(before) && BackedUp(before, after, data, opts, now, r)
    ensures Coherent(after) && Lost(after) == Lost(before)
    ensures r.Ok? ==>
              && r.value in Entries(after.index) && WellFormed(r.value)
              && ((r.value.storagePath in after.files && after.files[r.value.storagePath] == data)
                    <==> !ContentLost(before, data))
  {
    hide Orderly, WellFormed, Elsewhere, Step, BackedUp, Coherent, Lost;
    CoherentIsOrderly(before);
    var event := BackupEvent(before, data, now, r);
    BackupIsStep(before, after, data, opts, now, r);
    StepKeeps(before, after, event);
    CoherentIsOrderly(after);
    if r.Ok? {
      BackupEntry(before, after, data, opts, now, r);
      EntryIs(after.index, r.value);
      HeldUnlessLost(after, r.value, data);
      LostIfContentLost(after, r.value, data);
    }
  }

  /** What a new entry records of the file, the moment and the request. */
  lemma BackupRecords(before: Store, after: Store, data: Bytes, opts: CreateOptions, now: int,
                      r: Result<Snapshot, Error>)
    requires BackedUp(before, after, data, opts, now, r) && r.Ok? && !Duplicate(before.index, data)
    ensures var s := r.value;
            && s.configPath == opts.configPath && s.trigger == opts.trigger && s.timestamp == now
            && s.metadata.tag == opts.tag && s.metadata.description == opts.description
            && s.size == |data| && s.checksum == HashOf(data) && s.sequenceNum == 1
            && forall t :: t in Entries(before.index) ==> t.chainID != s.chainID
  {
    hide ChainNumber, ChainName, Duplicate;
  }

  lemma BackupEntry(before: Store, after: Store, data: Bytes, opts: CreateOptions, now: int, r: Result<Snapshot, Error>)
    requires BackedUp(before, after, data, opts, now, r) && r.Ok?
    ensures r.value in Entries(after.index) && r.value.metadata.configHash == HashOf(data)
  {
    hide NewChain;
    if !Duplicate(before.index, data) {
      assert after.index[r.value.id] == r.value;
    }
  }

  lemma LostIfContentLost(store: Store, s: Snapshot, data: Bytes)
    requires Orderly(store.index) && s in Entries(store.index) && s.metadata.configHash == HashOf(data)
    ensures s in Lost(store) <==> exists t :: t in Lost(store) && t.metadata.configHash == HashOf(data)
  {
    hide Orderly;
    forall t | t in Lost(store) && t.metadata.configHash == HashOf(data)
      ensures t == s
    {
      OneHolder(store.index, s, t);
    }
  }

  lemma HeldUnlessLost(store: Store, s: Snapshot, data: Bytes)
    requires Coherent(store) && s in Entries(store.index) && s.metadata.configHash == HashOf(data)
    ensures (s.storagePath in store.files && store.files[s.storagePath] == data) <==> s !in Lost(store)
  {
    hide Orderly;
    CoherentEntry(store, s);
  }

  lemma EventFits(before: Store, after: Store, data: Bytes, opts: CreateOptions, now: int, r: Result<Snapshot, Error>)
    requires Orderly(before.index) && BackedUp(before, after, data, opts, now, r)
    ensures Step(before, after, BackupEvent(before, data, now, r))
  {
    hide ChainNumber, ChainName, Distinct, Lost;
    assert forall s :: s in Entries(before.index) ==> WellFormed(s);
    if !Duplicate(before.index, data) {
      forall id | id in before.index
        ensures before.index[id].metadata.configHash != HashOf(data)
        ensures before.index[id].storagePath != FullFile(IDOf(now, HashOf(data)))
      {
        assert before.index[id] in Entries(before.index);
      }
    }
  }

  lemma EntriesKept(before: Store, after: Store, event: Event)
    requires Orderly(before.index) && Step(before, after, event) && (event.Saved? || event.NotSaved?)
    ensures forall s :: s in Entries(before.index) ==>
              && s in Entries(after.index) && (s.storagePath in after.files <==> s.storagePath in before.files)
              && (s.storagePath in before.files ==> after.files[s.storagePath] == before.files[s.storagePath])
  {
    hide ChainNumber, ChainName, Orderly, Elsewhere, Lost;
    var path := if event.Saved? then event.snapshot.storagePath else event.path;
    if event.Saved? {
      NewID(before, event.snapshot);
    }
    forall s | s in Entries(before.index)
      ensures s in Entries(after.index) && (s.storagePath in after.files <==> s.storagePath in before.files)
      ensures s.storagePath in before.files ==> after.files[s.storagePath] == before.files[s.storagePath]
    {
      EntryIs(before.index, s);
      ElsewhereSame(before.files, after.files, path, s.storagePath);
      assert s == after.index[s.id];
    }
  }

  // ----- what a retention pass does -----

  /** No two entries were made at the same time. */
  predicate DistinctTimes(index: map<SnapshotID, Snapshot>) {
    forall i, j :: i in index && j in index && i != j ==> index[i].timestamp != index[j].timestamp
  }

  ghost function Doomed(index: map<SnapshotID, Snapshot>, policy: Policy, now: int): set<Snapshot> {
    Entries(index) - Kept(policy, Entries(index), now)
  }

  /** The entries whose files exist and can be deleted. */
  ghost function Deletable(entries: set<Snapshot>, files: map<StoragePath, Bytes>,
                           undeletable: set<StoragePath>): set<Snapshot>
  {
    set s | s in entries && s.storagePath in files && s.storagePath !in undeletable
  }

  /** What a pass removes: what the policy does not keep and the file system lets it delete. */
  ghost function Going(store: Store, policy: Policy, now: int, faults: Faults): set<Snapshot> {
    Deletable(Doomed(store.index, policy, now), store.files, faults.undeletable)
  }

  /** A pass that found an index. If the shrunken index cannot be saved, the old one stays. */
  ghost predicate Applied(before: Store, after: Store, policy: Policy, now: int, faults: Faults,
                          r: Result<RetentionResult, Error>)
  {
    var gone := Going(before, policy, now, faults);
    && after.files == before.files - Paths(gone)
    && (r.Ok? <==> gone == {} || !faults.index)
    && (r.Err? ==> r.error == IndexNotSaved && after.index == before.index)
    && (r.Ok? ==>
          && after.index == before.index - EntryIDs(gone)
          && r.value.snapshotsRemoved == |gone| && r.value.chainsRemoved == |Chains(Doomed(before.index, policy, now))|
          && r.value.bytesFreed == SizeOf(gone)
          && Unique(r.value.removed) && forall id :: id in r.value.removed <==> id in EntryIDs(gone))
  }

  ghost function RetentionEvent(before: Store, policy: Policy, now: int, faults: Faults): Event {
    var gone := Going(before, policy, now, faults);
    if gone == {} || !faults.index then Pruned(gone) else Unsaved(gone)
  }

  /** A pass is a step of the store, also when it could not save the index. */
  lemma RetentionIsStep(before: Store, after: Store, policy: Policy, now: int, faults: Faults,
                        r: Result<RetentionResult, Error>)
    requires Applied(before, after, policy, now, faults, r)
    ensures Step(before, after, RetentionEvent(before, policy, now, faults))
  {
    hide Kept, SizeOf, Entries, Paths, EntryIDs;
  }

  /** CONSERVATION. A pass whose index was saved loses no file, whatever could not be deleted,
      and the bytes before are the bytes after and the bytes freed. */
  lemma RetentionConserves(before: Store, after: Store, policy: Policy, now: int, faults: Faults,
                           r: Result<RetentionResult, Error>)
    requires Coherent(before) && Applied(before, after, policy, now, faults, r) && r.Ok?
    ensures Coherent(after) && Lost(after) == Lost(before)
    ensures SizeOf(Entries(before.index)) == SizeOf(Entries(after.index)) + r.value.bytesFreed
  {
    hide Coherent, Lost, Kept, SizeOf, Entries, Paths, EntryIDs, Step, Going;
    RetentionIsStep(before, after, policy, now, faults, r);
    StepKeeps(before, after, RetentionEvent(before, policy, now, faults));
  }

  /** UNSAVED. A pass loses the files it deletes exactly when the index cannot be saved. Files
      and index agree afterwards if and only if no file was missing before and either nothing
      doomed can be deleted or the index can be saved. */
  lemma UnsavedIndexDisagrees(before: Store, after: Store, policy: Policy, now: int, faults: Faults,
                              r: Result<RetentionResult, Error>)
    requires Coherent(before) && Applied(before, after, policy, now, faults, r)
    ensures Coherent(after)
    ensures Lost(after) == Lost(before) + if faults.index then Going(before, policy, now, faults) else {}
    ensures Agrees(after) <==> Lost(before) == {} && (Going(before, policy, now, faults) == {} || !faults.index)
  {
    hide Coherent, Agrees, Lost, Kept, SizeOf, Entries, Paths, EntryIDs, Step, Going;
    RetentionIsStep(before, after, policy, now, faults, r);
    StepKeeps(before, after, RetentionEvent(before, policy, now, faults));
    AgreesIffNoneLost(after);
  }

  lemma DistinctTimesNoTies(store: Store)
    requires Orderly(store.index) && DistinctTimes(store.index)
    ensures NoTies(Entries(store.index))
  {
    hide WellFormed, Orderly;
    var all := Entries(store.index);
    forall c, d | c in Chains(all) && d in Chains(all) && c != d
      ensures Older(all, c, d) || Older(all, d, c)
      ensures Newer(all, c, d) || Newer(all, d, c)
    {
      var s :| s in all && s.chainID == c;
      var t :| t in all && t.chainID == d;
      AloneInChain(store, s);
      AloneInChain(store, t);
      EntryIs(store.index, s);
      EntryIs(store.index, t);
    }
  }

  lemma AloneInChain(store: Store, s: Snapshot)
    requires Orderly(store.index) && s in Entries(store.index)
    ensures forall u :: u in Entries(store.index) && u.chainID == s.chainID ==> u == s
  {
    hide ChainName, ChainNumber, WellFormed;
  }

  lemma RecordedSizes(store: Store)
    requires Orderly(store.index)
    ensures NonNegative(Entries(store.index))
  {
    hide ChainName, ChainNumber, WellFormed, Distinct;
  }

  /** Every doomed file is there and can be deleted. */
  ghost predicate AllDeletable(store: Store, policy: Policy, now: int, faults: Faults) {
    forall s :: s in Doomed(store.index, policy, now) ==>
        s.storagePath in store.files && s.storagePath !in faults.undeletable
  }

  /** SETTLES. When every doomed file can be deleted, what is left is what the policy keeps:
      whole chains, within all its limits, and a second pass would remove nothing. */
  lemma PassSettles(before: Store, after: Store, policy: Policy, now: int, faults: Faults,
                    r: Result<RetentionResult, Error>)
    requires Orderly(before.index) && DistinctTimes(before.index) && Constructed(policy)
    requires Applied(before, after, policy, now, faults, r) && r.Ok?
    requires AllDeletable(before, policy, now, faults)
    ensures Entries(after.index) == Kept(policy, Entries(before.index), now)
    ensures WholeChains(Entries(after.index), Entries(before.index)) && Meets(policy, Entries(after.index), now)
    ensures Doomed(after.index, policy, now) == {}
  {
    hide Orderly, NoTies, NonNegative, SizeOf, Entries, Meets, Retains, EntryIDs, Step, Going, AllDeletable, Lost;
    var all := Entries(before.index);
    var doomed := Doomed(before.index, policy, now);
    GoingOfDoomed(before, policy, now, faults);
    RetentionIsStep(before, after, policy, now, faults, r);
    PrunedEntries(before, after, doomed);
    assert all - doomed == Kept(policy, all, now);
    DistinctTimesNoTies(before);
    RecordedSizes(before);
    RetentionSettles(policy, all, now);
  }

  /** NEWEST. With a count policy, a pass that can delete all it should leaves the newest
      backups, as many as the policy allows or all there were. */
  lemma PassKeepsNewest(before: Store, after: Store, n: int, now: int, faults: Faults,
                        r: Result<RetentionResult, Error>)
    requires Orderly(before.index) && DistinctTimes(before.index) && n > 0
    requires Applied(before, after, Count(n), now, faults, r) && r.Ok?
    requires AllDeletable(before, Count(n), now, faults)
    ensures var (all, rest) := (Entries(before.index), Entries(after.index));
            && rest <= all && |rest| == (if |all| < n then |all| else n)
            && forall s, t :: s in rest && t in all - rest ==> t.timestamp < s.timestamp
  {
    hide Orderly, DistinctTimes, SizeOf, Entries, Step, Going, AllDeletable, Lost, Applied, NoTies, Kept;
    var (all, rest) := (Entries(before.index), Entries(after.index));
    PassSettles(before, after, Count(n), now, faults, r);
    assert rest == Kept(Count(n), all, now) && rest <= all;
    DistinctTimesNoTies(before);
    CountKeepsNewest(n, all, now);
    OneChainEach(before, all);
    OneChainEach(before, rest);
    forall s, t | s in rest && t in all - rest
      ensures t.timestamp < s.timestamp
    {
      AloneInChain(before, s);
      AloneInChain(before, t);
      assert t.chainID in Chains(rest) ==> t in rest;
      assert t.chainID in RemovedChains(all, rest);
      assert s.chainID in Chains(rest);
      var u :| u in rest && u.chainID == s.chainID
               && forall v :: v in all && v.chainID == t.chainID ==> v.timestamp < u.timestamp;
      assert u == s;
    }
  }

  lemma {:induction false} OneChainEach(store: Store, entries: set<Snapshot>)
    requires Orderly(store.index) && entries <= Entries(store.index)
    ensures |Chains(entries)| == |entries|
    decreases |entries|
  {
    hide WellFormed, Orderly, Entries;
    if entries != {} {
      var s :| s in entries;
      OneChainEach(store, entries - {s});
      AloneInChain(store, s);
      assert forall t :: t in entries && t.chainID == s.chainID ==> t == s;
      assert Chains(entries) == Chains(entries - {s}) + {s.chainID};
    } else {
      assert Chains(entries) == {};
    }
  }

  /** The reported number of chains removed is the number of chains that disappeared exactly
      when every doomed file could be deleted: chains whose deletion failed are counted. */
  lemma ChainsRemovedExact(before: Store, after: Store, policy: Policy, now: int, faults: Faults,
                           r: Result<RetentionResult, Error>)
    requires Orderly(before.index) && Applied(before, after, policy, now, faults, r) && r.Ok?
    ensures r.value.chainsRemoved == |Chains(Entries(before.index))| - |Chains(Entries(after.index))|
       <==> AllDeletable(before, policy, now, faults)
  {
    hide Orderly, Kept, SizeOf, Entries, EntryIDs, Chains, Step, Going, Doomed, AllDeletable, Lost;
    var all := Entries(before.index);
    var doomed := Doomed(before.index, policy, now);
    var gone := Going(before, policy, now, faults);
    GoingOfDoomed(before, policy, now, faults);
    RetentionIsStep(before, after, policy, now, faults, r);
    PrunedEntries(before, after, gone);
    OneChainEach(before, all);
    OneChainEach(before, doomed);
    OneChainEach(after, Entries(after.index));
    assert |all - gone| == |all| - |gone|;
    if gone != doomed {
      FewerElements(gone, doomed);
    }
  }

  lemma GoingOfDoomed(store: Store, policy: Policy, now: int, faults: Faults)
    ensures Going(store, policy, now, faults) <= Doomed(store.index, policy, now) <= Entries(store.index)
    ensures AllDeletable(store, policy, now, faults) <==>
              Going(store, policy, now, faults) == Doomed(store.index, policy, now)
  {
    hide Kept, Entries;
    if Going(store, policy, now, faults) == Doomed(store.index, policy, now) {
      assert forall s :: s in Doomed(store.index, policy, now) ==> s in Going(store, policy, now, faults);
    }
  }

  lemma IsNamedByID(index: map<SnapshotID, Snapshot>)
    requires Orderly(index)
    ensures NamedByID(index)
  {
  }

  lemma RemovableEntries(store: Store, toRemove: seq<Snapshot>, policy: Policy, now: int)
    requires Orderly(store.index) && Elements(toRemove) == Doomed(store.index, policy, now)
    ensures forall s :: s in toRemove ==>
              s.id in store.index && store.index[s.id] == s && s.storagePath == FullFile(s.id)
  {
    hide Kept, Orderly;
    forall s | s in toRemove
      ensures s.id in store.index && store.index[s.id] == s && s.storagePath == FullFile(s.id)
    {
      assert s in Elements(toRemove);
      EntryIs(store.index, s);
    }
  }

  lemma NothingToRemove(store: Store, policy: Policy, now: int, faults: Faults, list: seq<Snapshot>)
    requires list == [] && forall s :: s in list <==> s in Entries(store.index)
    ensures Applied(store, store, policy, now, faults, Ok(NOTHING_REMOVED))
  {
    hide Kept, Retains;
    var doomed := Doomed(store.index, policy, now);
    assert doomed == {} && Going(store, policy, now, faults) == {};
    assert Chains({}) == {} && Paths({}) == {} && EntryIDs({}) == {};
    assert store.files - {} == store.files && store.index - {} == store.index;
  }

  lemma NothingDeleted(files: map<StoragePath, Bytes>, undeletable: set<StoragePath>)
    ensures Deletable({}, files, undeletable) == {} && SizeOf({}) == 0 && Paths({}) == {} && EntryIDs({}) == {}
  {
  }

  lemma OneMoreDeletable(q: seq<Snapshot>, i: nat, files: map<StoragePath, Bytes>, undeletable: set<StoragePath>)
    requires i < |q|
    ensures Deletable(Elements(q[..i + 1]), files, undeletable) ==
            Deletable(Elements(q[..i]), files, undeletable) +
            (if q[i].storagePath !in files || q[i].storagePath in undeletable then {} else {q[i]})
  {
    assert q[..i + 1] == q[..i] + [q[i]];
  }

  lemma NotYetGone(q: seq<Snapshot>, i: nat, gone: set<Snapshot>, files: map<StoragePath, Bytes>,
                   undeletable: set<StoragePath>)
    requires i < |q| && Unique(q) && gone == Deletable(Elements(q[..i]), files, undeletable)
    requires forall s, t :: s in q && t in q && s.id == t.id ==> s == t
    requires forall s :: s in q ==> s.storagePath == FullFile(s.id)
    ensures q[i].id !in EntryIDs(gone) && q[i].storagePath !in Paths(gone) && q[i] !in gone
  {
    assert q[i] !in q[..i];
    forall s | s in gone
      ensures s.id != q[i].id
    {
      var k :| 0 <= k < i && q[..i][k] == s;
      assert s == q[k];
    }
  }

  /** The IDs and the bytes reported for what is gone. */
  ghost predicate Reports(ids: seq<SnapshotID>, freed: int, gone: set<Snapshot>) {
    freed == SizeOf(gone) && |ids| == |gone| && Unique(ids) && forall id :: id in ids <==> id in EntryIDs(gone)
  }

  lemma OneMoreReported(ids: seq<SnapshotID>, freed: int, gone: set<Snapshot>, s: Snapshot)
    requires Reports(ids, freed, gone) && s !in gone && s.id !in EntryIDs(gone)
    ensures Reports(ids + [s.id], freed + s.size, gone + {s})
  {
    hide SizeOf, EntryIDs;
    OneMoreGone(gone, s);
  }

  lemma NothingReported()
    ensures Reports([], 0, {})
  {
  }

  /** The files, the entries and the report once the snapshots of `q` have been gone through. */
  ghost predicate RemovedSoFar(q: seq<Snapshot>, oldFiles: map<StoragePath, Bytes>, oldIndex: map<SnapshotID, Snapshot>,
                               undeletable: set<StoragePath>, files: map<StoragePath, Bytes>,
                               index: map<SnapshotID, Snapshot>, freed: int, ids: seq<SnapshotID>)
  {
    var gone := Deletable(Elements(q), oldFiles, undeletable);
    files == oldFiles - Paths(gone) && index == oldIndex - EntryIDs(gone) && Reports(ids, freed, gone)
  }

  lemma NothingRemoved(files: map<StoragePath, Bytes>, index: map<SnapshotID, Snapshot>, undeletable: set<StoragePath>)
    ensures forall q: seq<Snapshot> :: q == [] ==> RemovedSoFar(q, files, index, undeletable, files, index, 0, [])
  {
    hide SizeOf, Paths, EntryIDs;
    NothingDeleted(files, undeletable);
    NothingReported();
    assert Elements([]) == {};
    assert files - {} == files && index - {} == index;
  }

  /** A snapshot that has not been gone through is listed, and its file is as it was. */
  lemma NotYetRemoved(q: seq<Snapshot>, i: nat, oldFiles: map<StoragePath, Bytes>, oldIndex: map<SnapshotID, Snapshot>,
                      undeletable: set<StoragePath>, files: map<StoragePath, Bytes>,
                      index: map<SnapshotID, Snapshot>, freed: int, ids: seq<SnapshotID>)
    requires i < |q| && Unique(q)
    requires forall s :: s in q ==> s.id in oldIndex && oldIndex[s.id] == s && s.storagePath == FullFile(s.id)
    requires RemovedSoFar(q[..i], oldFiles, oldIndex, undeletable, files, index, freed, ids)
    ensures q[i].id in index && (q[i].storagePath in files <==> q[i].storagePath in oldFiles)
  {
    hide SizeOf, Paths, EntryIDs, Deletable, Reports;
    NotYetGone(q, i, Deletable(Elements(q[..i]), oldFiles, undeletable), oldFiles, undeletable);
  }

  /** Going through one more removes it or leaves all as it is. */
  lemma OneMoreRemoved(q: seq<Snapshot>, i: nat, oldFiles: map<StoragePath, Bytes>, oldIndex: map<SnapshotID, Snapshot>,
                       undeletable: set<StoragePath>, files: map<StoragePath, Bytes>,
                       index: map<SnapshotID, Snapshot>, freed: int, ids: seq<SnapshotID>)
    requires i < |q| && Unique(q)
    requires forall s :: s in q ==> s.id in oldIndex && oldIndex[s.id] == s && s.storagePath == FullFile(s.id)
    requires RemovedSoFar(q[..i], oldFiles, oldIndex, undeletable, files, index, freed, ids)
    ensures if q[i].storagePath in files && q[i].storagePath !in undeletable
            then RemovedSoFar(q[..i + 1], oldFiles, oldIndex, undeletable,
                              files - {q[i].storagePath}, index - {q[i].id}, freed + q[i].size, ids + [q[i].id])
            else RemovedSoFar(q[..i + 1], oldFiles, oldIndex, undeletable, files, index, freed, ids)
  {
    hide SizeOf, Paths, EntryIDs, Deletable, Reports;
    var s, gone := q[i], Deletable(Elements(q[..i]), oldFiles, undeletable);
    NotYetGone(q, i, gone, oldFiles, undeletable);
    OneMoreDeletable(q, i, oldFiles, undeletable);
    assert (s.storagePath in files <==> s.storagePath in oldFiles) && gone + {} == gone;
    if s.storagePath in files && s.storagePath !in undeletable {
      OneMoreGone(gone, s);
      OneMoreReported(ids, freed, gone, s);
      assert oldFiles - Paths(gone) - {s.storagePath} == oldFiles - (Paths(gone) + {s.storagePath});
      assert oldIndex - EntryIDs(gone) - {s.id} == oldIndex - (EntryIDs(gone) + {s.id});
    }
  }

  lemma AllRemoved(q: seq<Snapshot>, oldFiles: map<StoragePath, Bytes>, oldIndex: map<SnapshotID, Snapshot>,
                   undeletable: set<StoragePath>, files: map<StoragePath, Bytes>,
                   index: map<SnapshotID, Snapshot>, freed: int, ids: seq<SnapshotID>)
    requires RemovedSoFar(q, oldFiles, oldIndex, undeletable, files, index, freed, ids)
    ensures var gone := Deletable(Elements(q), oldFiles, undeletable);
            && files == oldFiles - Paths(gone) && index == oldIndex - EntryIDs(gone)
            && freed == SizeOf(gone) && |ids| == |gone|
            && Unique(ids) && forall id :: id in ids <==> id in EntryIDs(gone)
  {
    hide SizeOf, Paths, EntryIDs, Deletable;
  }

  lemma OneMoreGone(gone: set<Snapshot>, s: Snapshot)
    requires s !in gone
    ensures SizeOf(gone + {s}) == SizeOf(gone) + s.size && |gone + {s}| == |gone| + 1
    ensures Paths(gone + {s}) == Paths(gone) + {s.storagePath} && EntryIDs(gone + {s}) == EntryIDs(gone) + {s.id}
  {
    SizeWithout(gone + {s}, s);
    assert gone + {s} - {s} == gone;
  }

  lemma FewerElements(a: set<Snapshot>, b: set<Snapshot>)
    requires a < b
    ensures |a| < |b|
  {
    assert b == a + (b - a) && |b - a| > 0;
  }

  class Manager {
    const storage: Storage
    const configs: ConfigFiles
    const enabled: bool

    constructor (storage: Storage, configs: ConfigFiles, enabled: bool)
      ensures this.storage == storage && this.configs == configs && this.enabled == enabled
    {
      this.storage, this.configs, this.enabled := storage, configs, enabled;
    }

    /** One more than the largest chain number in use: a name no entry's chain has. */
    method GenerateChainID(index: SnapshotIndex) returns (chainID: string)
      ensures ChainNumber(chainID).Some? && chainID == ChainName(ChainNumber(chainID).value)
      ensures forall s :: s in Entries(index.snapshots) ==> s.chainID != chainID
      ensures var n := ChainNumber(chainID).value;
              && n >= 1
              && (forall s :: s in Entries(index.snapshots) && ChainNumber(s.chainID).Some? ==>
                    ChainNumber(s.chainID).value < n)
              && (n > 1 ==> exists s :: s in Entries(index.snapshots) && ChainNumber(s.chainID) == Some(n - 1))
    {
      hide ChainNumber, ChainName;
      var snapshots := index.List();
      if |snapshots| == 0 {
        FirstChainName();
        return "chain-1";
      }
      var maxChainNum: nat := 0;
      for i := 0 to |snapshots|
        invariant forall j :: 0 <= j < i && ChainNumber(snapshots[j].chainID).Some? ==>
          ChainNumber(snapshots[j].chainID).value <= maxChainNum
        invariant maxChainNum > 0 ==> exists s :: s in snapshots && ChainNumber(s.chainID) == Some(maxChainNum)
      {
        var chainNum := ChainNumber(snapshots[i].chainID);
        if chainNum.Some? && chainNum.value > maxChainNum {
          maxChainNum := chainNum.value;
        }
      }
      chainID := ChainName(maxChainNum + 1);
      ChainNameRoundTrip(maxChainNum + 1);
      forall s | s in Entries(index.snapshots)
        ensures s.chainID != chainID
        ensures ChainNumber(s.chainID).Some? ==> ChainNumber(s.chainID).value < maxChainNum + 1
      {
        var k :| 0 <= k < |snapshots| && snapshots[k] == s;
      }
    }

    lemma FirstChainName()
      ensures ChainNumber("chain-1") == Some(1) && "chain-1" == ChainName(1)
    {
      ChainNameRoundTrip(1);
      assert Decimal(1) == "1";
      assert ChainName(1) == "chain-1";
    }

    /** One more than the largest number of the chain, which is at least zero. */
    method GetNextSequenceNumber(index: SnapshotIndex, chainID: string) returns (next: int)
      ensures next >= 1
      ensures forall s :: s in Entries(index.snapshots) && s.chainID == chainID ==> s.sequenceNum < next
      ensures next > 1 ==>
                exists s :: s in Entries(index.snapshots) && s.chainID == chainID && s.sequenceNum == next - 1
    {
      var chain := index.GetChain(chainID);
      if |chain| == 0 {
        return 1;
      }
      var maxSeq := 0;
      for i := 0 to |chain|
        invariant maxSeq >= 0 && forall j :: 0 <= j < i ==> chain[j].sequenceNum <= maxSeq
        invariant maxSeq > 0 ==> exists s :: s in chain && s.sequenceNum == maxSeq
      {
        if chain[i].sequenceNum > maxSeq {
          maxSeq := chain[i].sequenceNum;
        }
      }
      next := maxSeq + 1;
    }

    /** Whether a backup of the file at `path` succeeds. */
    ghost predicate Succeeds(path: string, faults: Faults)
      reads this, storage, configs
    {
      && enabled && path in configs.contents && !faults.configUnreadable
      && (storage.initialized || (!faults.mkdir && !faults.firstIndex)) && !faults.indexUnreadable
      && (Duplicate(storage.index, configs.contents[path]) || (faults.snapshot == Done && !faults.index))
    }

    method CreateBackup(opts: CreateOptions, now: int, faults: Faults) returns (r: Result<Snapshot, Error>)
      modifies storage
      ensures r.Ok? <==> old(Succeeds(opts.configPath, faults))
      ensures !enabled ==> r == Err(BackupDisabled) && storage.State() == old(storage.State())
      ensures r.Ok? ==> !faults.configUnreadable && !faults.indexUnreadable
      ensures (r.Ok? || old(storage.initialized)) ==> storage.initialized
      ensures opts.configPath in configs.contents ==>
                BackedUp(old(storage.State()), storage.State(), configs.contents[opts.configPath], opts, now, r)
      ensures opts.configPath !in configs.contents ==>
                storage.State() == old(storage.State())
                    && r == Err(if enabled then ConfigFileNotFound else BackupDisabled)
    {
      hide ChainNumber, ChainName, Entries;
      if !enabled {
        return Err(BackupDisabled);
      }
      if opts.configPath !in configs.contents {
        return Err(ConfigFileNotFound);
      }
      if faults.configUnreadable {
        return Err(ConfigUnreadable);
      }
      var data := configs.contents[opts.configPath];
      if !storage.initialized {
        var initialized := storage.Initialize(faults);
        if !initialized {
          return Err(InitializeFailed);
        }
      }
      var index, loaded := storage.LoadIndex(faults);
      if !loaded {
        return Err(IndexUnreadable);
      }
      var contentHash := HashOf(data);
      var existing := index.FindByHash(contentHash);
      if existing.Some? {
        return Ok(existing.value);
      }
      r := SaveNew(index, data, opts, now, faults);
    }

    method SaveNew(index: SnapshotIndex, data: Bytes, opts: CreateOptions, now: int, faults: Faults)
      returns (r: Result<Snapshot, Error>)
      requires storage.initialized && index.snapshots == storage.index && !Duplicate(storage.index, data)
      modifies storage`files, storage`index, index
      ensures BackedUp(old(storage.State()), storage.State(), data, opts, now, r)
      ensures r.Ok? <==> faults.snapshot == Done && !faults.index
    {
      hide ChainNumber, ChainName;
      var contentHash := HashOf(data);
      var id := IDOf(now, contentHash);
      var chainID := GenerateChainID(index);
      var seqNum := GetNextSequenceNumber(index, chainID);
      forall id | id in index.snapshots
        ensures index.snapshots[id].chainID != chainID
      {
        assert index.snapshots[id] in Entries(index.snapshots);
      }
      var path := storage.Save(id, data, faults);
      if path.None? {
        return Err(SaveFailed);
      }
      var metadata := Metadata(contentHash, opts.tag, opts.description);
      var snapshot := Snapshot(id, seqNum, now, opts.configPath, opts.trigger, Full, path.value, |data|,
                               contentHash, chainID, metadata);
      index.Add(snapshot);
      var saved := storage.SaveIndex(index, faults);
      if !saved {
        return Err(IndexNotSaved);
      }
      r := Ok(snapshot);
    }

    method ChooseRemovals(index: SnapshotIndex, allSnapshots: seq<Snapshot>, policy: Policy, now: int)
      returns (toRemove: seq<Snapshot>, removedChains: set<string>)
      requires Constructed(policy) && NamedByID(index.snapshots)
      requires Unique(allSnapshots) && forall s :: s in allSnapshots <==> s in Entries(index.snapshots)
      requires NoTies(Entries(index.snapshots)) && NonNegative(Entries(index.snapshots))
      ensures Unique(toRemove) && Elements(toRemove) == Doomed(index.snapshots, policy, now)
      ensures removedChains == Chains(Elements(toRemove))
    {
      hide Entries, NoTies, NonNegative, SizeOf, Retains, NamedByID, Constructed;
      var totalSize := SumSizes(allSnapshots);
      assert Elements(allSnapshots) == Entries(index.snapshots);
      toRemove, removedChains := [], {};
      assert Chains(Elements(toRemove)) == {};
      for i := 0 to |allSnapshots|
        invariant Unique(toRemove) && removedChains == Chains(Elements(toRemove))
        invariant forall s :: s in toRemove <==>
          s in allSnapshots[..i] && !Retains(policy, Entries(index.snapshots), totalSize, now, s.chainID)
      {
        var snapshot := allSnapshots[i];
        assert allSnapshots[..i + 1] == allSnapshots[..i] + [snapshot];
        assert snapshot !in allSnapshots[..i];
        var chain := index.GetChain(snapshot.chainID);
        assert GroupOf(chain, allSnapshots, snapshot.chainID);
        var retain := ShouldRetain(policy, snapshot, Context(allSnapshots, chain, totalSize, now));
        if !retain {
          assert Chains(Elements(toRemove + [snapshot])) == Chains(Elements(toRemove)) + {snapshot.chainID};
          toRemove := toRemove + [snapshot];
          removedChains := removedChains + {snapshot.chainID};
        }
      }
      assert allSnapshots[..|allSnapshots|] == allSnapshots;
    }

    /** Deletes one snapshot from storage and index; a failure leaves its file and its entry. */
    method RemoveOne(index: SnapshotIndex, snapshot: Snapshot, faults: Faults) returns (removed: bool)
      requires snapshot.id in index.snapshots
      modifies index, storage`files
      ensures removed <==> snapshot.storagePath in old(storage.files) && snapshot.storagePath !in faults.undeletable
      ensures storage.files == if removed then old(storage.files) - {snapshot.storagePath} else old(storage.files)
      ensures index.snapshots == if removed then old(index.snapshots) - {snapshot.id} else old(index.snapshots)
    {
      removed := storage.Delete(snapshot.storagePath, faults);
      if removed {
        removed := index.Delete(snapshot.id);
      }
    }

    /** Deletes what can be deleted: after a failure the rest goes on. */
    method RemoveAll(index: SnapshotIndex, toRemove: seq<Snapshot>, faults: Faults)
      returns (freed: int, ids: seq<SnapshotID>)
      requires Unique(toRemove)
      requires forall s :: s in toRemove ==> s.id in index.snapshots && index.snapshots[s.id] == s
      requires forall s :: s in toRemove ==> s.storagePath == FullFile(s.id)
      modifies index, storage`files
      ensures var gone := Deletable(Elements(toRemove), old(storage.files), faults.undeletable);
              && storage.files == old(storage.files) - Paths(gone)
              && index.snapshots == old(index.snapshots) - EntryIDs(gone)
              && freed == SizeOf(gone) && |ids| == |gone|
              && Unique(ids) && forall id :: id in ids <==> id in EntryIDs(gone)
    {
      hide RemovedSoFar, Unique, Deletable, Paths, EntryIDs, SizeOf, Elements;
      freed, ids := 0, [];
      NothingRemoved(storage.files, index.snapshots, faults.undeletable);
      for i := 0 to |toRemove|
        invariant RemovedSoFar(toRemove[..i], old(storage.files), old(index.snapshots), faults.undeletable,
                               storage.files, index.snapshots, freed, ids)
      {
        var snapshot := toRemove[i];
        ghost var files, entries := storage.files, index.snapshots;
        NotYetRemoved(toRemove, i, old(storage.files), old(index.snapshots), faults.undeletable, files, entries,
            freed, ids);
        OneMoreRemoved(toRemove, i, old(storage.files), old(index.snapshots), faults.undeletable, files, entries,
            freed, ids);
        var removed := RemoveOne(index, snapshot, faults);
        if !removed {
          continue;
        }
        freed := freed + snapshot.size;
        ids := ids + [snapshot.id];
      }
      assert toRemove[..|toRemove|] == toRemove;
      AllRemoved(toRemove, old(storage.files), old(index.snapshots), faults.undeletable,
                 storage.files, index.snapshots, freed, ids);
    }

    method ApplyRetention(policy: Policy, now: int, faults: Faults) returns (r: Result<RetentionResult, Error>)
      requires Constructed(policy) && Orderly(storage.index) && DistinctTimes(storage.index)
      modifies storage
      ensures storage.initialized == old(storage.initialized)
      ensures !enabled ==> r == Err(BackupDisabled) && storage.State() == old(storage.State())
      ensures enabled && !storage.initialized ==> r == Ok(NOTHING_REMOVED) && storage.State() == old(storage.State())
      ensures enabled && storage.initialized && faults.indexUnreadable ==>
                r == Err(IndexUnreadable) && storage.State() == old(storage.State())
      ensures enabled && storage.initialized && !faults.indexUnreadable ==>
                Applied(old(storage.State()), storage.State(), policy, now, faults, r)
    {
      hide Orderly, DistinctTimes, Entries, Kept, SizeOf, Applied, Doomed, Elements, Chains, Unique, NoTies,
          NonNegative, NamedByID;
      if !enabled {
        return Err(BackupDisabled);
      }
      if !storage.initialized {
        return Ok(NOTHING_REMOVED);
      }
      var index, loaded := storage.LoadIndex(faults);
      if !loaded {
        return Err(IndexUnreadable);
      }
      assert NamedByID(index.snapshots) by {
        IsNamedByID(storage.index);
      }
      var allSnapshots := index.List();
      if |allSnapshots| == 0 {
        NothingToRemove(storage.State(), policy, now, faults, allSnapshots);
        return Ok(NOTHING_REMOVED);
      }
      DistinctTimesNoTies(storage.State());
      RecordedSizes(storage.State());
      var toRemove, removedChains := ChooseRemovals(index, allSnapshots, policy, now);
      RemovableEntries(storage.State(), toRemove, policy, now);
      r := RemoveAndSave(index, toRemove, removedChains, policy, now, faults);
    }

    method RemoveAndSave(index: SnapshotIndex, toRemove: seq<Snapshot>, removedChains: set<string>,
                         ghost policy: Policy, ghost now: int, faults: Faults)
      returns (r: Result<RetentionResult, Error>)
      requires index.snapshots == storage.index && Unique(toRemove)
      requires Elements(toRemove) == Doomed(storage.index, policy, now) && removedChains == Chains(Elements(toRemove))
      requires forall s :: s in toRemove ==> s.id in index.snapshots && index.snapshots[s.id] == s
      requires forall s :: s in toRemove ==> s.storagePath == FullFile(s.id)
      modifies index, storage`files, storage`index
      ensures Applied(old(storage.State()), storage.State(), policy, now, faults, r)
    {
      hide SizeOf, Paths, EntryIDs, Deletable, Elements, Doomed, Chains, Unique;
      var freed, ids := RemoveAll(index, toRemove, faults);
      if |ids| > 0 {
        var saved := storage.SaveIndex(index, faults);
        if !saved {
          return Err(IndexNotSaved);
        }
      } else {
        NothingDeleted(old(storage.files), faults.undeletable);
        assert Going(old(storage.State()), policy, now, faults) == {};
        assert old(storage.index) - {} == old(storage.index);
      }
      r := Ok(RetentionResult(|ids|, |removedChains|, freed, ids));
    }
  }
}
