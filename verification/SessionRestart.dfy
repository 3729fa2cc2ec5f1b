/** A session across a crash: saved, cut short anywhere, loaded, restored into a new session and captured again. */
module SessionRestart {
  import opened Common
  import opened Tabs
  import opened Snapshots
  import opened Json
  import opened SessionSpec
  import opened SessionInvariant
  import opened SessionFaces
  import opened FocusQueues
  import opened CaptureRestore
  import opened SessionDocument
  import opened DocumentLaws
  import opened AtomicFileStores
  import opened CrashSafety

  // The capture of a new session that x was restored into.
  function Restarted(x: SessionSnapshot, clean: bool): SessionSnapshot {
    Captured(AfterRestore(EMPTY_SESSION, x), ItemsAfterRestore(EMPTY_SESSION, [], x), clean)
  }

  lemma {:induction false} CapturedIds(tabs: seq<Tab>)
    requires forall i | 0 <= i < |tabs| :: tabs[i].id != ""
    ensures forall i | 0 <= i < |CapturedTabs(tabs)| :: CapturedTabs(tabs)[i].id != ""
  {
    if tabs != [] {
      CapturedIds(tabs[..|tabs| - 1]);
    }
  }

  lemma {:induction false} SavedIds(items: seq<FocusItem>, tabs: seq<Tab>)
    requires forall i | 0 <= i < |items| :: items[i].id != ""
    ensures forall i | 0 <= i < |SavedItems(items, tabs)| :: SavedItems(items, tabs)[i].id != ""
  {
    if items != [] {
      SavedIds(items[..|items| - 1], tabs);
    }
  }

  // No record of a capture lacks an id, so writing and reading it loses nothing.
  lemma CapturedNamed(s: Session, items: seq<FocusItem>, clean: bool)
    requires Valid(s) && ValidItems(items)
    ensures Named(Captured(s, items, clean)) == Captured(s, items, clean)
  {
    hide EngineAgrees, WellFormedRecords, WithIds, CapturedTabs, SavedItems, CapturedActive;
    CapturedIds(s.tabs);
    SavedIds(items, s.tabs);
    WithIdsSame(CapturedTabs(s.tabs), TabRecordId);
    WithIdsSame(SavedItems(items, s.tabs), ItemRecordId);
  }

  ghost predicate IsCapture(x: SessionSnapshot) {
    exists s, items, clean :: Valid(s) && ValidItems(items) && x == Captured(s, items, clean)
  }

  lemma CaptureIsNamed(x: SessionSnapshot)
    requires IsCapture(x)
    ensures Named(x) == x && x.schemaVersion == 1
  {
    hide Valid, ValidItems, Named;
    var s, items, clean :| Valid(s) && ValidItems(items) && x == Captured(s, items, clean);
    CapturedNamed(s, items, clean);
  }

  lemma RestartIsNormal(x: SessionSnapshot, clean: bool)
    ensures Restarted(x, clean) == NormalForm(x, clean)
  {
    hide NormalForm, Captured, AfterRestore, ItemsAfterRestore;
    CaptureOfRestore(x, clean);
  }

  // What a start of the browser after a crash anywhere in a save comes to: the normal form of the capture that
  // was in the file or of the one that was being saved.
  lemma RestartAfterCrash(stod: Stod, d: Disk, a: SessionSnapshot, b: SessionSnapshot, keepBackup: bool, f: Faults,
      i: nat, clean: bool)
    requires ReadsVersion(stod, 1) && IsCapture(a) && IsCapture(b)
    requires d.target == Some(Serialized(a)) && i < |WriteStates(d, Serialized(b), keepBackup, f)|
    requires SurvivesFaults(stod, d, a, b, keepBackup, f)
    ensures var x := Loaded(stod, WriteStates(d, Serialized(b), keepBackup, f)[i]);
      && x.Some?
      && (Restarted(x.value, clean) == NormalForm(a, clean) || Restarted(x.value, clean) == NormalForm(b, clean))
  {
    hide Serialized, WriteStates, SurvivesFaults, Loaded, Named, Restarted, NormalForm;
    CaptureIsNamed(a);
    CaptureIsNamed(b);
    SaveCrashSafe(stod, d, a, b, keepBackup, f, i);
    RestartIsNormal(a, clean);
    RestartIsNormal(b, clean);
  }

  // ---------- Private tabs do not come back ----------

  // Every tab is persistent and none has the id of a private tab of the other list.
  ghost predicate NothingPrivateOf(restored: seq<Tab>, tabs: seq<Tab>) {
    && (forall i | 0 <= i < |restored| :: !restored[i].isEphemeral)
    && (forall i, k | 0 <= i < |restored| && 0 <= k < |tabs| && tabs[k].isEphemeral :: restored[i].id != tabs[k].id)
  }

  lemma RestoredAreRecords(x: SessionSnapshot)
    ensures var r := AfterRestore(EMPTY_SESSION, x).tabs;
      forall i | 0 <= i < |r| :: !r[i].isEphemeral && exists j :: 0 <= j < |x.tabs| && x.tabs[j].id == r[i].id
  {
    hide AfterRestore, ShowsFaces, OpenedFace;
    if x.tabs == [] {
      NothingRestored(x);
    } else {
      var s, faces := AfterRestore(EMPTY_SESSION, x), RestoredFaces(x.tabs);
      RestoreShows(x);
      ShownFaces(s, faces, ShownAmong(faces, Target(x)));
      forall i | 0 <= i < |s.tabs|
        ensures !s.tabs[i].isEphemeral && exists j :: 0 <= j < |x.tabs| && x.tabs[j].id == s.tabs[i].id
      {
        assert Faces(s.tabs)[i] == faces[i];
        assert FirstRecords(x.tabs)[i] in x.tabs;
      }
    }
  }

  lemma NothingRestored(x: SessionSnapshot)
    requires x.tabs == []
    ensures AfterRestore(EMPTY_SESSION, x).tabs == []
  {
  }

  // Restoring the capture of a session brings back none of its private tabs.
  lemma CaptureBringsNothingPrivate(s: Session, items: seq<FocusItem>, clean: bool)
    requires UniqueIds(s.tabs)
    ensures NothingPrivateOf(AfterRestore(EMPTY_SESSION, Captured(s, items, clean)).tabs, s.tabs)
  {
    hide AfterRestore, CapturedTabs, CapturedActive, SavedItems;
    var x := Captured(s, items, clean);
    RestoredAreRecords(x);
    var r := AfterRestore(EMPTY_SESSION, x).tabs;
    forall i, k | 0 <= i < |r| && 0 <= k < |s.tabs| && s.tabs[k].isEphemeral
      ensures r[i].id != s.tabs[k].id
    {
      hide *;
      var j :| 0 <= j < |x.tabs| && x.tabs[j].id == r[i].id;
      var at := RecordIsPersistent(s, j);
      DifferentTabs(s.tabs, at, k);
    }
  }

  lemma RecordIsPersistent(s: Session, j: nat) returns (at: nat)
    requires j < |CapturedTabs(s.tabs)|
    ensures at < |s.tabs| && !s.tabs[at].isEphemeral && s.tabs[at].id == CapturedTabs(s.tabs)[j].id
  {
    hide CapturedTabs;
    CapturedTabsHeld(s.tabs);
    at := Positions(s.tabs, IsPersistentTab)[j];
    assert HoldsTab(CapturedTabs(s.tabs)[j], s.tabs[at]);
  }

  lemma DifferentTabs(tabs: seq<Tab>, i: nat, k: nat)
    requires UniqueIds(tabs) && i < |tabs| && k < |tabs| && tabs[i].isEphemeral != tabs[k].isEphemeral
    ensures tabs[i].id != tabs[k].id
  {
  }

  // After a crash anywhere in the save of one session over another, whatever fails: the restarted session has no
  // private tab of the session that it is loaded from, unless nothing can be loaded or it comes from the backup
  // there was before.
  lemma NoPrivateTabComesBack(stod: Stod, d: Disk, old': Session, oldItems: seq<FocusItem>, new': Session,
      newItems: seq<FocusItem>, clean: bool, keepBackup: bool, f: Faults, i: nat)
    requires ReadsVersion(stod, 1)
    requires Valid(old') && ValidItems(oldItems) && Valid(new') && ValidItems(newItems)
    requires d.target == Some(Serialized(Captured(old', oldItems, clean)))
    requires i < |WriteStates(d, Serialized(Captured(new', newItems, clean)), keepBackup, f)|
    ensures var s := WriteStates(d, Serialized(Captured(new', newItems, clean)), keepBackup, f)[i];
      var x := Loaded(stod, s);
      || x == None || x == Loaded(stod, BackupOnly(d))
      || NothingPrivateOf(AfterRestore(EMPTY_SESSION, x.value).tabs, old'.tabs)
      || NothingPrivateOf(AfterRestore(EMPTY_SESSION, x.value).tabs, new'.tabs)
  {
    hide Serialized, WriteStates, Loaded, Named, AfterRestore, Captured, NothingPrivateOf, ValidItems;
    var a, b := Captured(old', oldItems, clean), Captured(new', newItems, clean);
    assert IsCapture(a) && IsCapture(b);
    CaptureIsNamed(a);
    CaptureIsNamed(b);
    LoadsOneOf(stod, d, a, b, keepBackup, f, i);
    ValidIsUnique(old');
    ValidIsUnique(new');
    hide Valid;
    CaptureBringsNothingPrivate(old', oldItems, clean);
    CaptureBringsNothingPrivate(new', newItems, clean);
  }
}
