/** Restoring a snapshot over a configuration file, with a backup of what was there. */
module BackupRestore {
  import opened Wrappers
  import opened Retention
  import opened BackupStore
  import opened BackupManager

  datatype RestoreOptions = RestoreOptions(targetPath: string, backupBeforeRestore: bool, force: bool, validate: bool)

  datatype RestoreResult = RestoreResult(
    restoredPath: string, backup: Option<Snapshot>, bytesRestored: nat, checksumVerified: bool)

  function Target(snapshot: Snapshot, opts: RestoreOptions): string {
    if opts.targetPath != "" then opts.targetPath else snapshot.configPath
  }

  /** Whether the snapshot's bytes can be read. */
  predicate Readable(snapshot: Snapshot, files: map<StoragePath, Bytes>, faults: Faults) {
    snapshot.storageType == Full && snapshot.storagePath in files && snapshot.storagePath !in faults.unreadable
  }

  /** Whether they can be read and are what the index recorded. */
  predicate Sound(snapshot: Snapshot, files: map<StoragePath, Bytes>, faults: Faults) {
    Readable(snapshot, files, faults) && HashOf(files[snapshot.storagePath]) == snapshot.metadata.configHash
  }

  /** A backup of the target is taken first. */
  predicate BacksUp(opts: RestoreOptions) {
    opts.backupBeforeRestore && !opts.force
  }

  /** Some entry's file holds `data`. */
  ghost predicate Recoverable(store: Store, data: Bytes) {
    exists s :: s in Entries(store.index) && Holds(s, store.files, data)
  }

  predicate Holds(s: Snapshot, files: map<StoragePath, Bytes>, data: Bytes) {
    s.storageType == Full && s.storagePath in files && files[s.storagePath] == data
  }

  /** The backup that is taken of `data` at time `now`, the entry already holding it if there
      is one, can be read under `faults`. */
  ghost predicate BackupReadable(store: Store, data: Bytes, now: int, faults: Faults) {
    if Duplicate(store.index, data) then
      forall s :: s in Entries(store.index) && s.metadata.configHash == HashOf(data) ==>
          Readable(s, store.files, faults)
    else
      FullFile(IDOf(now, HashOf(data))) !in faults.unreadable
  }

  /** Every entry is still there, and its file is as it was. */
  ghost predicate EntriesStay(before: Store, after: Store) {
    forall s :: s in Entries(before.index) ==>
      && s in Entries(after.index) && (s.storagePath in after.files <==> s.storagePath in before.files)
      && (s.storagePath in before.files ==> after.files[s.storagePath] == before.files[s.storagePath])
  }

  lemma EntriesAllStay(store: Store)
    ensures EntriesStay(store, store)
  {
  }

  /** `s` is the entry a backup of `data` reports. */
  ghost predicate Reported(before: Store, after: Store, data: Bytes, now: int, s: Snapshot) {
    && s in Entries(after.index) && s.metadata.configHash == HashOf(data)
    && if Duplicate(before.index, data) then s in Entries(before.index)
       else s.storageType == Full && s.storagePath == FullFile(IDOf(now, HashOf(data)))
            && s.storagePath in after.files && after.files[s.storagePath] == data
  }

  lemma ReportedIn(before: Store, after: Store, data: Bytes, now: int, s: Snapshot)
    requires Reported(before, after, data, now, s)
    ensures s in Entries(after.index)
  {
  }

  lemma BackupReported(before: Store, after: Store, data: Bytes, opts: CreateOptions, now: int,
                       r: Result<Snapshot, Error>)
    requires BackedUp(before, after, data, opts, now, r)
    ensures r.Ok? ==> Reported(before, after, data, now, r.value)
    ensures Coherent(before) ==>
              && Coherent(after) && Lost(after) == Lost(before) && EntriesStay(before, after)
              && (r.Ok? ==> (Holds(r.value, after.files, data) <==> !ContentLost(before, data)))
  {
    hide Coherent, Lost, Entries, Duplicate, NewChain, Orderly, ChainName, ChainNumber;
    if r.Ok? {
      BackupEntry(before, after, data, opts, now, r);
    }
    if Coherent(before) {
      hide BackedUp;
      CoherentIsOrderly(before);
      BackupIsStep(before, after, data, opts, now, r);
      BackupHoldsContent(before, after, data, opts, now, r);
    }
  }

  /** The reported backup can be read back exactly when the entry holding the content can. */
  lemma BackupIsReadable(before: Store, after: Store, data: Bytes, now: int, s: Snapshot, faults: Faults)
    requires Coherent(before) && Coherent(after) && EntriesStay(before, after) && Reported(before, after, data, now, s)
    ensures Readable(s, after.files, faults) <==> BackupReadable(before, data, now, faults)
    ensures Readable(s, after.files, faults) ==> Sound(s, after.files, faults) && after.files[s.storagePath] == data
  {
    hide Coherent, Duplicate, Entries;
    EntryReads(after, s);
    if Duplicate(before.index, data) {
      CoherentIsOrderly(before);
      forall t | t in Entries(before.index) && t.metadata.configHash == HashOf(data)
        ensures t == s
      {
        OneHolder(before.index, s, t);
      }
    }
  }

  /** HOME. Restored without a target, what a backup of a file reports goes back to that file if
      and only if no entry already held the same content for another file. */
  lemma BackupGoesHome(before: Store, after: Store, data: Bytes, create: CreateOptions, now: int,
                       r: Result<Snapshot, Error>, opts: RestoreOptions)
    requires Orderly(before.index) && BackedUp(before, after, data, create, now, r) && r.Ok? && opts.targetPath == ""
    ensures Target(r.value, opts) == create.configPath <==>
              forall s :: s in Entries(before.index) && s.metadata.configHash == HashOf(data) ==>
                s.configPath == create.configPath
  {
    hide Orderly, NewChain, Entries;
    if Duplicate(before.index, data) {
      forall s | s in Entries(before.index) && s.metadata.configHash == HashOf(data)
        ensures s == r.value
      {
        OneHolder(before.index, s, r.value);
      }
    }
  }

  lemma HeldIsDuplicate(store: Store, s: Snapshot, data: Bytes)
    requires s in Entries(store.index) && s.metadata.configHash == HashOf(data)
    ensures Duplicate(store.index, data)
  {
  }

  lemma EntryReads(store: Store, s: Snapshot)
    requires Coherent(store) && s in Entries(store.index)
    ensures s.storageType == Full
    ensures s.storagePath in store.files ==> Backed(s, store.files)
  {
    hide Orderly, ChainName, ChainNumber;
    CoherentIsOrderly(store);
    EntryIs(store.index, s);
    CoherentEntry(store, s);
  }

  class Restorer {
    const manager: Manager

    constructor (manager: Manager)
      ensures this.manager == manager
    {
      this.manager := manager;
    }

    ghost function Stored(): Store
      reads this, manager, manager.storage
    {
      manager.storage.State()
    }

    /** Everything before the target is touched goes well. */
    ghost predicate Prepares(snapshot: Snapshot, opts: RestoreOptions, faults: Faults)
      reads this, manager, manager.storage, manager.configs
    {
      && (opts.validate ==> Sound(snapshot, manager.storage.files, faults))
      && (BacksUp(opts) && Target(snapshot, opts) in manager.configs.contents ==>
            manager.Succeeds(Target(snapshot, opts), faults))
    }

    /** When a restore succeeds. */
    ghost predicate Restores(snapshot: Snapshot, opts: RestoreOptions, faults: Faults)
      reads this, manager, manager.storage, manager.configs
    {
      && Target(snapshot, opts) != "" && Prepares(snapshot, opts, faults)
      && Readable(snapshot, manager.storage.files, faults) && !faults.targetDir && faults.target == Done
    }

    method ValidateSnapshot(snapshot: Snapshot, faults: Faults) returns (ok: bool)
      ensures ok <==> Sound(snapshot, manager.storage.files, faults)
      ensures ok <==>
                && snapshot.storageType == Full && snapshot.storagePath in manager.storage.files
                && snapshot.storagePath !in faults.unreadable
                && HashOf(manager.storage.files[snapshot.storagePath]) == snapshot.metadata.configHash
    {
      var content := manager.storage.Load(snapshot.storagePath, faults);
      if content.None? {
        return false;
      }
      if HashOf(content.value) != snapshot.metadata.configHash {
        return false;
      }
      if snapshot.storageType == Patch {
        return false;
      }
      ok := true;
    }

    method ReconstructSnapshot(snapshot: Snapshot, faults: Faults) returns (content: Option<Bytes>)
      ensures content.Some? <==> Readable(snapshot, manager.storage.files, faults)
      ensures content.Some? <==>
                && snapshot.storageType == Full && snapshot.storagePath in manager.storage.files
                && snapshot.storagePath !in faults.unreadable
      ensures content.Some? ==> content.value == manager.storage.files[snapshot.storagePath]
    {
      if snapshot.storageType == Full {
        content := manager.storage.Load(snapshot.storagePath, faults);
      } else {
        content := None;
      }
    }

    /** The first steps: everything that can fail while the target is still untouched. */
    method Prepare(snapshot: Snapshot, opts: RestoreOptions, now: int, faults: Faults)
      returns (r: Result<Option<Snapshot>, Error>)
      requires Target(snapshot, opts) != ""
      modifies manager.storage
      ensures r.Ok? <==> old(Prepares(snapshot, opts, faults))
      ensures opts.validate && !old(Sound(snapshot, manager.storage.files, faults)) ==>
                r == Err(ValidationFailed) && Stored() == old(Stored())
      ensures r.Err? ==> r.error == ValidationFailed || r.error.BackupFailed?
      ensures old(manager.storage.initialized) ==> manager.storage.initialized
      ensures !BacksUp(opts) ==> Stored() == old(Stored())
      ensures r.Ok? ==> (r.value.Some? <==> BacksUp(opts) && Target(snapshot, opts) in manager.configs.contents)
      ensures r.Ok? && BacksUp(opts) && Target(snapshot, opts) in manager.configs.contents ==>
                && manager.storage.initialized && manager.enabled && r.value.Some?
                && Reported(old(Stored()), Stored(), manager.configs.contents[Target(snapshot, opts)], now,
                    r.value.value)
      ensures old(Coherent(Stored())) ==>
                && Coherent(Stored()) && Lost(Stored()) == old(Lost(Stored()))
                && EntriesStay(old(Stored()), Stored())
      ensures r.Ok? && BacksUp(opts) && Target(snapshot, opts) in manager.configs.contents
              && old(Coherent(Stored())) ==>
                var data := manager.configs.contents[Target(snapshot, opts)];
                (Holds(r.value.value, manager.storage.files, data) <==> !ContentLost(old(Stored()), data))
    {
      hide Coherent, Entries, BackedUp, Lost, EntriesStay, Duplicate, Reported, WellFormed;
      var targetPath := Target(snapshot, opts);
      EntriesAllStay(Stored());
      if opts.validate {
        var ok := ValidateSnapshot(snapshot, faults);
        if !ok {
          return Err(ValidationFailed);
        }
      }
      if opts.backupBeforeRestore && !opts.force {
        if targetPath in manager.configs.contents {
          var create := CreateOptions(targetPath, Manual, "before-restore",
              "Automatic backup before restoring snapshot");
          ghost var before := Stored();
          var backup := manager.CreateBackup(create, now, faults);
          BackupReported(before, Stored(), manager.configs.contents[targetPath], create, now, backup);
          if backup.Err? {
            return Err(BackupFailed(backup.error));
          }
          return Ok(Some(backup.value));
        }
      }
      r := Ok(None);
    }

    /** The last steps: reading the snapshot and overwriting the target. */
    method WriteTarget(snapshot: Snapshot, opts: RestoreOptions, backup: Option<Snapshot>, faults: Faults)
      returns (r: Result<RestoreResult, Error>)
      requires Target(snapshot, opts) != ""
      modifies manager.configs
      ensures r.Ok? <==> (
                && Readable(snapshot, manager.storage.files, faults)
                && (opts.validate ==> Sound(snapshot, manager.storage.files, faults))
                && !faults.targetDir && faults.target == Done)
      ensures r.Err? ==> r.error in {ReconstructFailed, ChecksumMismatch, TargetDirFailed, WriteFailed}
      ensures r.Err? && r.error != WriteFailed ==> manager.configs.contents == old(manager.configs.contents)
      ensures manager.configs.contents - {Target(snapshot, opts)} ==
                old(manager.configs.contents) - {Target(snapshot, opts)}
      ensures r.Ok? ==>
                var content := manager.storage.files[snapshot.storagePath];
                && manager.configs.contents == old(manager.configs.contents)[Target(snapshot, opts) := content]
                && r.value == RestoreResult(Target(snapshot, opts), backup, |content|, opts.validate)
    {
      var targetPath := Target(snapshot, opts);
      var content := ReconstructSnapshot(snapshot, faults);
      if content.None? {
        return Err(ReconstructFailed);
      }
      if opts.validate && HashOf(content.value) != snapshot.metadata.configHash {
        return Err(ChecksumMismatch);
      }
      if faults.targetDir {
        return Err(TargetDirFailed);
      }
      manager.configs.contents := Written(manager.configs.contents, targetPath, content.value, faults.target);
      if faults.target != Done {
        return Err(WriteFailed);
      }
      r := Ok(RestoreResult(targetPath, backup, |content.value|, opts.validate));
    }

    /** RESTORE. It succeeds exactly when every step can, and then the target holds exactly the
        snapshot's bytes and nothing else moved; any failure before the write leaves the target
        alone; and once a backup was asked for and the write was reached, whether or not it
        succeeded, some entry holds the bytes the target had, even when the backup reused an old
        entry. Without a backup the store is as it was, so those bytes can be had only if an
        entry held them before. */
    method RestoreSnapshot(snapshot: Snapshot, opts: RestoreOptions, now: int, faults: Faults)
      returns (r: Result<RestoreResult, Error>)
      modifies manager.storage, manager.configs
      ensures old(Coherent(Stored()) && snapshot in Entries(manager.storage.index)) ==>
                (r.Ok? <==> old(Restores(snapshot, opts, faults)))
      ensures old(manager.storage.initialized) ==> manager.storage.initialized
      ensures opts.validate && Target(snapshot, opts) != "" && !old(Sound(snapshot, manager.storage.files, faults)) ==>
                r == Err(ValidationFailed) && Stored() == old(Stored())
      ensures r.Err? && r.error != WriteFailed ==> manager.configs.contents == old(manager.configs.contents)
      ensures r.Err? && r.error == WriteFailed ==>
                manager.configs.contents - {Target(snapshot, opts)} ==
                    old(manager.configs.contents) - {Target(snapshot, opts)}
      ensures !BacksUp(opts) ==> Stored() == old(Stored())
      ensures r.Ok? ==>
                && r.value.restoredPath == (if opts.targetPath == "" then snapshot.configPath else opts.targetPath)
                && (r.value.backup.Some? <==> opts.backupBeforeRestore && !opts.force
                                              && r.value.restoredPath in old(manager.configs.contents))
      ensures old(Coherent(Stored())) ==>
                Coherent(Stored()) && Lost(Stored()) == old(Lost(Stored())) && EntriesStay(old(Stored()), Stored())
      ensures old(Coherent(Stored()) && snapshot in Entries(manager.storage.index)) && r.Ok? ==>
                && snapshot.storagePath in old(manager.storage.files)
                && manager.configs.contents ==
                   old(manager.configs.contents)
                     [Target(snapshot, opts) := old(manager.storage.files)[snapshot.storagePath]]
                && r.value.restoredPath == Target(snapshot, opts)
                && r.value.bytesRestored == snapshot.size && r.value.checksumVerified == opts.validate
      ensures old(Agrees(Stored())) && BacksUp(opts) && Target(snapshot, opts) in old(manager.configs.contents)
              && (r.Ok? || r.error == WriteFailed) ==>
                Recoverable(Stored(), old(manager.configs.contents)[Target(snapshot, opts)])
      ensures r.Ok? && BacksUp(opts) && Target(snapshot, opts) in old(manager.configs.contents) ==>
                manager.storage.initialized && manager.enabled
      ensures r.Ok? && BacksUp(opts) && Target(snapshot, opts) in old(manager.configs.contents) ==>
                var data, backup := old(manager.configs.contents)[Target(snapshot, opts)], r.value.backup;
                && backup.Some? && Reported(old(Stored()), Stored(), data, now, backup.value)
                && (old(Coherent(Stored())) ==>
                      (Holds(backup.value, manager.storage.files, data) <==> !ContentLost(old(Stored()), data)))
    {
      hide Coherent, Entries, Lost, Duplicate, Agrees;
      ghost var before := Stored();
      AgreesIffNoneLost(before);
      EntriesAllStay(before);
      if Coherent(before) && snapshot in Entries(before.index) {
        EntryReads(before, snapshot);
      }
      var targetPath := Target(snapshot, opts);
      if targetPath == "" {
        return Err(TargetPathRequired);
      }
      var prepared := Prepare(snapshot, opts, now, faults);
      if prepared.Err? {
        return Err(prepared.error);
      }
      r := WriteTarget(snapshot, opts, prepared.value, faults);
    }

    /** Restores the entry with this ID. */
    method RestoreByID(id: SnapshotID, opts: RestoreOptions, now: int, faults: Faults)
      returns (r: Result<RestoreResult, Error>)
      modifies manager.storage, manager.configs
      ensures old(Coherent(Stored())) ==>
                (r.Ok? <==> (
                   && manager.enabled && old(manager.storage.initialized) && !faults.indexUnreadable
                   && old(id in manager.storage.index && Restores(manager.storage.index[id], opts, faults))))
      ensures !manager.enabled ==> r == Err(BackupDisabled)
      ensures manager.enabled && !old(manager.storage.initialized) ==> r == Err(SnapshotNotFound)
      ensures manager.enabled && !faults.indexUnreadable && id !in old(manager.storage.index) ==>
                r == Err(SnapshotNotFound)
      ensures r.Err? && r.error != WriteFailed ==> manager.configs.contents == old(manager.configs.contents)
      ensures old(Coherent(Stored())) ==> Coherent(Stored()) && Lost(Stored()) == old(Lost(Stored()))
      ensures old(Coherent(Stored())) && r.Ok? ==>
                && id in old(manager.storage.index)
                && var s := old(manager.storage.index)[id];
                   && s.storagePath in old(manager.storage.files)
                   && manager.configs.contents ==
                      old(manager.configs.contents)[Target(s, opts) := old(manager.storage.files)[s.storagePath]]
                   && (BacksUp(opts) && Target(s, opts) in old(manager.configs.contents) && old(Agrees(Stored())) ==>
                         Recoverable(Stored(), old(manager.configs.contents)[Target(s, opts)]))
    {
      hide Coherent, Agrees, Lost, Recoverable, Restores, Duplicate, EntriesStay, Reported;
      if !manager.enabled {
        return Err(BackupDisabled);
      }
      if !manager.storage.initialized {
        return Err(SnapshotNotFound);
      }
      var index, loaded := manager.storage.LoadIndex(faults);
      if !loaded {
        return Err(IndexUnreadable);
      }
      var snapshot := index.Get(id);
      if snapshot.None? {
        return Err(SnapshotNotFound);
      }
      assert snapshot.value in Entries(manager.storage.index);
      r := RestoreSnapshot(snapshot.value, opts, now, faults);
    }

    /** The later faults let the backup reported by an earlier restore be restored. */
    ghost predicate Undoes(data: Bytes, undo: RestoreOptions, now: int, later: Faults)
      reads this, manager, manager.storage
    {
      && BackupReadable(Stored(), data, now, later) && !later.targetDir && later.target == Done
      && (BacksUp(undo) ==> !later.configUnreadable && !later.indexUnreadable)
    }

    /** UNDO. Restoring the reported backup over the same target puts every configuration file
        back as it was, at any later time and with any options, and this succeeds exactly when
        the restore does and the backup can be read and written back. */
    method RestoreAndUndo(snapshot: Snapshot, opts: RestoreOptions, undo: RestoreOptions, now: int, later: int,
                          faults: Faults, laterFaults: Faults)
      returns (undone: bool)
      requires Coherent(Stored()) && snapshot in Entries(manager.storage.index)
      requires BacksUp(opts) && Target(snapshot, opts) in manager.configs.contents
      requires undo.targetPath == Target(snapshot, opts)
      modifies manager.storage, manager.configs
      ensures Coherent(Stored()) && Lost(Stored()) == old(Lost(Stored()))
      ensures undone <==> (
                && old(Restores(snapshot, opts, faults))
                && old(Undoes(manager.configs.contents[Target(snapshot, opts)], undo, now, laterFaults)))
      ensures undone ==> manager.configs.contents == old(manager.configs.contents)
    {
      hide Coherent, Entries, Lost, Recoverable, Duplicate, BackupReadable, Reported;
      ghost var before := Stored();
      ghost var data := manager.configs.contents[Target(snapshot, opts)];
      EntryReads(before, snapshot);
      var restored := RestoreSnapshot(snapshot, opts, now, faults);
      if restored.Err? {
        return false;
      }
      ghost var between := Stored();
      var backup := restored.value.backup.value;
      BackupIsReadable(before, between, data, now, backup, laterFaults);
      HeldIsDuplicate(between, snapshot, manager.configs.contents[undo.targetPath]);
      assert Restores(backup, undo, laterFaults) <==> old(Undoes(data, undo, now, laterFaults)) by {
        assert Prepares(backup, undo, laterFaults) <==>
          && (undo.validate ==> Sound(backup, between.files, laterFaults))
          && (BacksUp(undo) ==> !laterFaults.configUnreadable && !laterFaults.indexUnreadable);
      }
      assert backup in Entries(between.index) by {
        ReportedIn(before, between, data, now, backup);
      }
      var back := RestoreSnapshot(backup, undo, later, laterFaults);
      undone := back.Ok?;
    }
  }
}
