/** Saving a session to a file and loading it again
    (src/core/session/session_persistence.cpp, SaveToFile, LoadFromFile, WasLastShutdownClean). */
module SessionFiles {
  import opened Common
  import opened Snapshots
  import opened Json
  import opened SessionDocument
  import opened DocumentLaws
  import opened SessionSerializer
  import opened AtomicFileStores
  import opened CrashSafety

  // What a crash can leave: when the file held the session `was`, the old or the new session under the
  // faults that SurvivesFaults describes; and with a rename that works, from a valid file or none, what was
  // loaded before or the new session.
  method SaveToFile(stod: Stod, store: AtomicFileStore, x: SessionSnapshot, f: Faults, ghost was: SessionSnapshot)
    returns (ok: bool)
    modifies store
    ensures store.State() == AfterWrite(old(store.State()), Serialized(x), true, f)
    ensures ok == WriteResult(old(store.State()), Serialized(x), true, f).success
    ensures ok <==>
      !f.directoryFails && !f.openFails && f.writeFailsAt.None? && !(f.renameFails && f.removeFails)
    ensures !f.renameFails && ok ==> store.target == Some(Serialized(x))
    ensures |old(store.history)| <= |store.history|
    ensures ReadsVersion(stod, 1) && was.schemaVersion == 1 && x.schemaVersion == 1
            && old(store.target) == Some(Serialized(was)) && SurvivesFaults(stod, old(store.State()), was, x, true, f)
            ==> forall i | |old(store.history)| <= i < |store.history| :: LoadsEither(stod, store.history[i], was, x)
    ensures ReadsVersion(stod, 1) && x.schemaVersion == 1 && !f.renameFails && HoldsNoTornFile(stod, old(store.State()))
            ==> forall i | |old(store.history)| <= i < |store.history| ::
                  Loaded(stod, store.history[i]) == Loaded(stod, old(store.State()))
                  || Loaded(stod, store.history[i]) == Some(Named(x))
  {
    hide Serialized, LoadsEither, ReadsVersion, WriteStates, WriteResult, Loaded, HoldsNoTornFile,
      Named, SurvivesFaults;
    ghost var before := store.State();
    var json := Serialize(x);
    var result := store.AtomicWriteFile(json, true, f);
    ok := result.success;
    if ReadsVersion(stod, 1) && x.schemaVersion == 1 {
      ghost var n := |old(store.history)|;
      forall i | n <= i < |store.history| && was.schemaVersion == 1 && before.target == Some(Serialized(was))
                 && SurvivesFaults(stod, before, was, x, true, f)
        ensures LoadsEither(stod, store.history[i], was, x)
      {
        SaveCrashSafe(stod, before, was, x, true, f, i - n);
      }
      forall i | n <= i < |store.history| && !f.renameFails && HoldsNoTornFile(stod, before)
        ensures Loaded(stod, store.history[i]) == Loaded(stod, before)
          || Loaded(stod, store.history[i]) == Some(Named(x))
      {
        RenameSafe(stod, before, x, f, i - n);
      }
    }
  }

  // The file is a valid session document, or there is none.
  predicate HoldsNoTornFile(stod: Stod, d: Disk) {
    d.target.Some? ==> IsValidSessionDocument(stod, d.target.value)
  }

  lemma RenameSafe(stod: Stod, d: Disk, x: SessionSnapshot, f: Faults, i: nat)
    requires ReadsVersion(stod, 1) && x.schemaVersion == 1 && !f.renameFails && HoldsNoTornFile(stod, d)
    requires i < |WriteStates(d, Serialized(x), true, f)|
    ensures var s := WriteStates(d, Serialized(x), true, f)[i];
      Loaded(stod, s) == Loaded(stod, d) || Loaded(stod, s) == Some(Named(x))
  {
    hide Serialized, Loaded, WriteStates, ReadsVersion, IsValidSessionDocument;
    SaveRenameSafe(stod, d, x, true, f, i);
  }

  method LoadFromFile(stod: Stod, store: AtomicFileStore) returns (x: Option<SessionSnapshot>)
    ensures x == Loaded(stod, store.State())
  {
    var result := store.ReadFileWithBackupRecovery(text => IsValidSessionDocument(stod, text));
    if !result.success {
      return None;
    }
    x := Deserialize(stod, result.content);
  }

  method WasLastShutdownClean(stod: Stod, store: AtomicFileStore) returns (clean: bool)
    ensures clean == (Loaded(stod, store.State()).None? || Loaded(stod, store.State()).value.cleanShutdown)
  {
    var x := LoadFromFile(stod, store);
    clean := x.None? || x.value.cleanShutdown;
  }
}
