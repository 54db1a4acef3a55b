/** What goes wrong with backups, on concrete stores. */
module BackupFindings {
  import opened Wrappers
  import opened Retention
  import opened BackupStore
  import opened BackupManager
  import opened BackupRestore

  const FINE := Faults(false, false, false, false, Done, {}, {}, false, false, Done)
  const DATA: Bytes := [1]
  const OPTIONS := CreateOptions("config.toml", Manual, "", "")

  /** The first snapshot of a fresh store, made at time 0. */
  const ONLY := NewSnapshot(DATA, OPTIONS, ChainName(1), 0)

  /** The store that holds it. */
  const HELD := Store(true, map[ONLY.storagePath := DATA], map[ONLY.id := ONLY])

  /** The store after its file was deleted and the index was not saved. */
  const UNSAVED := Store(true, map[], map[ONLY.id := ONLY])

  lemma OnlyFits()
    ensures WellFormed(ONLY) && Backed(ONLY, HELD.files) && Step(EMPTY, HELD, Saved(ONLY))
    ensures Entries(HELD.index) == {ONLY} && Coherent(HELD) && Lost(HELD) == {}
  {
    ChainNameRoundTrip(1);
    assert HELD.index[ONLY.id] == ONLY;
    assert HELD.files - {ONLY.storagePath} == EMPTY.files - {ONLY.storagePath};
    assert EMPTY.index[ONLY.id := ONLY] == HELD.index;
  }

  lemma TooOld(all: set<Snapshot>, s: Snapshot, maxAge: int, now: int)
    requires s in all && now - s.timestamp > maxAge
    ensures !Retains(Age(maxAge), all, SizeOf(all), now, s.chainID)
  {
    hide SizeOf;
  }

  lemma OnlyIsDoomed()
    ensures Doomed(HELD.index, Age(1), 10) == {ONLY}
  {
    OnlyFits();
    hide ChainName, SizeOf;
    TooOld({ONLY}, ONLY, 1, 10);
  }

  /** A pass that cannot save the index leaves an entry without its file, in a store that two
      steps from an empty one reach; a later backup of the same content succeeds by reusing
      that entry, and nothing holds the content. */
  lemma BackupOfNothing()
    ensures Applied(HELD, UNSAVED, Age(1), 10, FINE.(index := true), Err(IndexNotSaved))
    ensures RunOf([EMPTY, HELD, UNSAVED], [Saved(ONLY), Unsaved({ONLY})])
    ensures BackedUp(UNSAVED, UNSAVED, DATA, OPTIONS, 20, Ok(ONLY))
    ensures ONLY in Lost(UNSAVED) && UNSAVED.files == map[] && !Agrees(UNSAVED)
  {
    OnlyFits();
    OnlyIsDoomed();
    hide NewSnapshot, ChainName, SizeOf, Kept, Doomed;
    assert ONLY.metadata.configHash == HashOf(DATA);
    assert Going(HELD, Age(1), 10, FINE.(index := true)) == {ONLY};
    assert Paths({ONLY}) == {ONLY.storagePath};
    assert HELD.files - {ONLY.storagePath} == map[];
    assert Entries(UNSAVED.index) == {ONLY};
    assert !Backed(ONLY, UNSAVED.files);
  }

  /** A pass whose only doomed file resists reports one removed chain, though none went. */
  lemma NoChainRemoved()
    ensures Applied(HELD, HELD, Age(1), 10, FINE.(undeletable := {ONLY.storagePath}), Ok(RetentionResult(0, 1, 0, [])))
  {
    OnlyFits();
    OnlyIsDoomed();
    hide NewSnapshot, ChainName, Kept, Doomed;
    assert Going(HELD, Age(1), 10, FINE.(undeletable := {ONLY.storagePath})) == {};
    assert Chains({ONLY}) == {ONLY.chainID};
    assert Paths({}) == {} && EntryIDs({}) == {};
    assert HELD.files - {} == HELD.files && HELD.index - {} == HELD.index;
  }

  /** A backup of a second file with the same content reports the entry of the first, and
      restored without a target it goes there. */
  lemma RestoredElsewhere(opts: RestoreOptions)
    requires opts.targetPath == ""
    ensures BackedUp(HELD, HELD, DATA, OPTIONS.(configPath := "other.toml"), 20, Ok(ONLY))
    ensures Target(ONLY, opts) == "config.toml"
  {
    OnlyFits();
    hide ChainName;
    assert ONLY.metadata.configHash == HashOf(DATA);
  }
}
