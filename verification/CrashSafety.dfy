/** What a process crash at any point of a save can leave behind, for arbitrary contents and
    then for session documents. */
module CrashSafety {
  import opened Common
  import opened Snapshots
  import opened Json
  import opened SessionDocument
  import opened DocumentLaws
  import opened AtomicFileStores

  // ---------- The states of a write ----------

  // A state before the replacement: the target is untouched, and so is the backup until its copy starts.
  ghost predicate BeforeReplace(d: Disk, s: Disk) {
    && s.target == d.target
    && (s.bak == d.bak
        || (d.target.Some? && exists j | 0 <= j <= |d.target.value| :: s.bak == Some(d.target.value[..j])))
  }

  // A state of the copying fallback: some first part of the content is in the target.
  ghost predicate DuringFallback(c: Disk, content: string, s: Disk) {
    s.bak == c.bak && exists j | 0 <= j <= |content| :: s.target == Some(content[..j])
  }

  // The disk when the backup phase is over.
  ghost function BackedUp(d: Disk, content: string, keepBackup: bool, f: Faults): Disk {
    var p := Prepared(d, content);
    Last(p, BackupPhase(p, keepBackup, f))
  }

  lemma BackupStatesBefore(d: Disk, content: string, keepBackup: bool, f: Faults)
    ensures var p := Prepared(d, content);
      && (forall i | 0 <= i < |BackupPhase(p, keepBackup, f)| :: BeforeReplace(d, BackupPhase(p, keepBackup, f)[i]))
      && BeforeReplace(d, BackedUp(d, content, keepBackup, f))
  {
  }

  // Each state of a write is before the replacement, or of the fallback, or the renamed one.
  lemma StatesClassified(d: Disk, content: string, keepBackup: bool, f: Faults, i: nat)
    requires i < |WriteStates(d, content, keepBackup, f)|
    ensures var s := WriteStates(d, content, keepBackup, f)[i]; var c := BackedUp(d, content, keepBackup, f);
      || BeforeReplace(d, s)
      || (Reaches(content, f) && !f.renameFails && s.target == Some(content) && s.bak == c.bak)
      || (Reaches(content, f) && f.renameFails && (DuringFallback(c, content, s) || s == c || s == c.(tmp := None)))
  {
    if Reaches(content, f) {
      var p := Prepared(d, content);
      var head := [d] + TmpStates(d, content, |content|);
      var backup := BackupPhase(p, keepBackup, f);
      var c := Last(p, backup);
      var tail := ReplacePhase(c, content, f);
      BackupStatesBefore(d, content, keepBackup, f);
      assert WriteStates(d, content, keepBackup, f) == head + backup + tail;
      if i >= |head| + |backup| {
        var s := tail[i - |head| - |backup|];
        assert WriteStates(d, content, keepBackup, f)[i] == s;
        ReplaceClassified(c, content, f, i - |head| - |backup|);
      } else if i >= |head| {
        assert WriteStates(d, content, keepBackup, f)[i] == backup[i - |head|];
      }
    }
  }

  lemma ReplaceClassified(c: Disk, content: string, f: Faults, i: nat)
    requires i < |ReplacePhase(c, content, f)|
    ensures var s := ReplacePhase(c, content, f)[i];
      if f.renameFails then DuringFallback(c, content, s) || s == c.(tmp := None)
      else s.target == Some(content) && s.bak == c.bak
  {
    if f.renameFails {
      var copied := FallbackStates(c, content, Copied(content, f.fallback));
      if i < |copied| {
        assert copied[i] == c.(target := Some(content[..i]));
      }
    }
  }

  // ---------- Reported success ----------

  // The fallback copy brings the whole content to the target.
  predicate Arrives(content: string, o: CopyOutcome) {
    o.Completes? || (o.Torn? && o.n >= |content|)
  }

  // A write that reaches the replacement ends where the replacement ends.
  lemma AfterWriteIs(d: Disk, content: string, keepBackup: bool, f: Faults)
    requires Reaches(content, f)
    ensures var c := BackedUp(d, content, keepBackup, f);
      AfterWrite(d, content, keepBackup, f) == Last(c, ReplacePhase(c, content, f))
  {
    var p := Prepared(d, content);
    var backup := BackupPhase(p, keepBackup, f);
    var head := [d] + TmpStates(d, content, |content|);
    var tail := ReplacePhase(Last(p, backup), content, f);
    assert content[..|content|] == content;
    assert Last(d, head) == p;
    LastOfAppend(d, head, backup);
    LastOfAppend(d, head + backup, tail);
  }

  lemma ReplaceEnds(c: Disk, content: string, f: Faults)
    ensures var r := Last(c, ReplacePhase(c, content, f));
      r.target == Some(content)
      <==> !f.renameFails || Arrives(content, f.fallback) || (f.fallback.Untouched? && c.target == Some(content))
  {
    if f.renameFails {
      var n := Copied(content, f.fallback);
      var copied := FallbackStates(c, content, n);
      LastOfAppend(c, copied, if f.removeFails then [] else [Last(c, copied).(tmp := None)]);
      assert n > 0 ==> Last(c, copied).target == Some(content[..n - 1]);
      assert n > 0 ==> (content[..n - 1] == content <==> n - 1 == |content|);
    }
  }

  // A write that reports success has written the content, except when the rename fails, the fallback
  // copy falls short and the temporary file is then removed without error: that error code hides the
  // copy's.
  lemma SuccessMeansWritten(d: Disk, content: string, keepBackup: bool, f: Faults)
    ensures var written := AfterWrite(d, content, keepBackup, f).target == Some(content);
      WriteResult(d, content, keepBackup, f).success && !written
      <==> && Reaches(content, f) && f.renameFails && !f.removeFails && !Arrives(content, f.fallback)
           && !(f.fallback.Untouched? && d.target == Some(content))
  {
    hide AfterWrite, ReplacePhase, BackedUp;
    if Reaches(content, f) {
      var c := BackedUp(d, content, keepBackup, f);
      BackupStatesBefore(d, content, keepBackup, f);
      AfterWriteIs(d, content, keepBackup, f);
      ReplaceEnds(c, content, f);
    }
  }

  // One such write: nothing of the content arrives and success is reported.
  lemma SuccessWithoutContent()
    ensures var f := Faults(false, false, None, false, Completes, true, Torn(0), false);
      var d := Disk(Some("old"), None, None);
      WriteResult(d, "new", true, f).success && AfterWrite(d, "new", true, f).target == Some("")
  {
    var f := Faults(false, false, None, false, Completes, true, Torn(0), false);
    SuccessMeansWritten(Disk(Some("old"), None, None), "new", true, f);
    var p := Prepared(Disk(Some("old"), None, None), "new");
    var c := Last(p, BackupPhase(p, true, f));
    assert FallbackStates(c, "new", 1)[0] == c.(target := Some("new"[..0]));
  }

  // ---------- The rename path ----------

  // A recovery that gives one of two contents.
  ghost predicate RecoversEither(valid: string -> bool, d: Disk, a: string, b: string) {
    var r := Recovered(valid, d);
    r.success && (r.content == a || r.content == b)
  }

  // The target is valid, or there is none yet.
  predicate IsSound(valid: string -> bool, d: Disk) {
    d.target.Some? ==> valid(d.target.value)
  }

  // From a sound disk, with a rename that works, every state of a write recovers exactly what the disk
  // recovered before or the new content, and is sound again.
  lemma RenamePathSafe(valid: string -> bool, d: Disk, content: string, keepBackup: bool, f: Faults, i: nat)
    requires IsSound(valid, d) && valid(content) && !f.renameFails
    requires i < |WriteStates(d, content, keepBackup, f)|
    ensures var s := WriteStates(d, content, keepBackup, f)[i];
      && IsSound(valid, s)
      && (Recovered(valid, s) == Recovered(valid, d) || Recovered(valid, s) == FileReadResult(true, Primary, content))
  {
    StatesClassified(d, content, keepBackup, f, i);
  }

  // A save that is cut short, and what it leaves.
  datatype Save = Save(content: string, keepBackup: bool, faults: Faults, crashAt: nat)

  function AfterSave(d: Disk, s: Save): Disk {
    var states := WriteStates(d, s.content, s.keepBackup, s.faults);
    if s.crashAt < |states| then states[s.crashAt] else Last(d, states)
  }

  function AfterSaves(d: Disk, saves: seq<Save>): Disk
    decreases |saves|
  {
    if saves == [] then d else AfterSaves(AfterSave(d, saves[0]), saves[1..])
  }

  // Over any sequence of saves and crashes on the rename path, recovery gives what it gave at first or
  // one of the contents saved since, in full.
  lemma {:induction false} RunsSafe(valid: string -> bool, d: Disk, saves: seq<Save>)
    requires IsSound(valid, d)
    requires forall k | 0 <= k < |saves| :: valid(saves[k].content) && !saves[k].faults.renameFails
    ensures var r := AfterSaves(d, saves);
      && IsSound(valid, r)
      && (Recovered(valid, r) == Recovered(valid, d)
          || exists k | 0 <= k < |saves| :: Recovered(valid, r) == FileReadResult(true, Primary, saves[k].content))
    decreases |saves|
  {
    if saves != [] {
      hide Recovered, IsSound;
      var s := saves[0];
      var states := WriteStates(d, s.content, s.keepBackup, s.faults);
      var i := if s.crashAt < |states| then s.crashAt else |states| - 1;
      assert states != [];
      RenamePathSafe(valid, d, s.content, s.keepBackup, s.faults, i);
      RunsSafe(valid, AfterSave(d, s), saves[1..]);
      var r := AfterSaves(d, saves);
      if k :| 0 <= k < |saves[1..]| && Recovered(valid, r) == FileReadResult(true, Primary, saves[1..][k].content) {
        assert saves[k + 1] == saves[1..][k];
      }
    }
  }

  ghost predicate SafeThroughout(valid: string -> bool, d: Disk, content: string, keepBackup: bool, f: Faults) {
    forall i | 0 <= i < |WriteStates(d, content, keepBackup, f)| ::
      RecoversEither(valid, WriteStates(d, content, keepBackup, f)[i], Recovered(valid, d).content, content)
  }

  const NO_FAULTS := Faults(false, false, None, false, Completes, false, Completes, false)

  // An invalid target is copied over the backup.
  predicate SpoilsBackup(valid: string -> bool, d: Disk, content: string, keepBackup: bool, f: Faults) {
    && d.target.Some? && !valid(d.target.value)
    && Reaches(content, f) && keepBackup && !f.backup.Untouched?
  }

  // On the rename path a disk that reads well stays readable throughout a save exactly when the save does
  // not copy an invalid target over the backup that was still good; of a copy that breaks off this asks
  // that nothing is not a valid content.
  lemma SafeWhenTargetValid(valid: string -> bool, d: Disk, content: string, keepBackup: bool, f: Faults)
    requires valid(content) && Recovered(valid, d).success && !f.renameFails
    requires f.backup.Torn? ==> !valid("")
    ensures SafeThroughout(valid, d, content, keepBackup, f) <==> !SpoilsBackup(valid, d, content, keepBackup, f)
  {
    hide WriteStates;
    if SpoilsBackup(valid, d, content, keepBackup, f) {
      var text := d.target.value;
      var j := if f.backup.Completes? then |text| else 0;
      var n := OverwrittenBackup(d, content, f, j);
      assert text[..|text|] == text && text[..0] == "";
      assert !Recovered(valid, WriteStates(d, content, true, f)[n]).success;
    } else {
      forall i | 0 <= i < |WriteStates(d, content, keepBackup, f)|
        ensures RecoversEither(valid, WriteStates(d, content, keepBackup, f)[i], Recovered(valid, d).content, content)
      {
        StatesClassified(d, content, keepBackup, f, i);
        if d.target.Some? && !valid(d.target.value) {
          BackupKept(d, content, keepBackup, f, i);
        }
      }
    }
  }

  // The state of a save when j characters of the target have replaced the backup.
  lemma OverwrittenBackup(d: Disk, content: string, f: Faults, j: nat) returns (n: nat)
    requires Reaches(content, f) && d.target.Some? && j < Copied(d.target.value, f.backup)
    ensures n < |WriteStates(d, content, true, f)|
    ensures WriteStates(d, content, true, f)[n] == Disk(d.target, Some(content), Some(d.target.value[..j]))
  {
    var p := Prepared(d, content);
    var head := [d] + TmpStates(d, content, |content|);
    var backup := BackupPhase(p, true, f);
    assert backup[j] == p.(bak := Some(d.target.value[..j]));
    assert WriteStates(d, content, true, f) == head + backup + ReplacePhase(Last(p, backup), content, f);
    n := |head| + j;
  }

  // A save that makes no backup leaves the one there was.
  lemma BackupKept(d: Disk, content: string, keepBackup: bool, f: Faults, i: nat)
    requires !Reaches(content, f) || !keepBackup || f.backup.Untouched? || d.target.None?
    requires i < |WriteStates(d, content, keepBackup, f)|
    ensures WriteStates(d, content, keepBackup, f)[i].bak == d.bak
  {
    if Reaches(content, f) {
      var p := Prepared(d, content);
      var head := [d] + TmpStates(d, content, |content|);
      assert BackupPhase(p, keepBackup, f) == [];
      assert WriteStates(d, content, keepBackup, f) == head + [] + ReplacePhase(p, content, f);
    }
  }

  // ---------- Saving sessions ----------

  // LoadFromFile.
  function Loaded(stod: Stod, d: Disk): Option<SessionSnapshot> {
    var r := Recovered(text => IsValidSessionDocument(stod, text), d);
    if r.success then Deserialized(stod, r.content) else None
  }

  ghost predicate LoadsEither(stod: Stod, d: Disk, a: SessionSnapshot, b: SessionSnapshot) {
    Loaded(stod, d) == Some(Named(a)) || Loaded(stod, d) == Some(Named(b))
  }

  lemma LoadsDocument(stod: Stod, d: Disk, x: SessionSnapshot, n: nat)
    requires ReadsVersion(stod, 1) && x.schemaVersion == 1 && n <= |Serialized(x)|
    ensures d.target == Some(Serialized(x)[..n]) && n + 1 >= |Serialized(x)| ==> Loaded(stod, d) == Some(Named(x))
    ensures d.target == Some(Serialized(x)[..n]) && n + 1 < |Serialized(x)|
            ==> Loaded(stod, d) == Loaded(stod, d.(target := None))
  {
    hide Serialized, Named, ParseJson, IsValidTree, ReadTree;
    TornDocuments(stod, x, n);
  }

  lemma LoadsWhole(stod: Stod, d: Disk, x: SessionSnapshot)
    requires ReadsVersion(stod, 1) && x.schemaVersion == 1
    ensures d.target == Some(Serialized(x)) ==> Loaded(stod, d) == Some(Named(x))
    ensures d.target.None? && d.bak == Some(Serialized(x)) ==> Loaded(stod, d) == Some(Named(x))
  {
    hide Serialized, Named, ParseJson, IsValidTree, ReadTree, Deserialized;
    RoundTrip(stod, x);
    RoundTripValid(stod, x);
  }

  lemma RoundTripValid(stod: Stod, x: SessionSnapshot)
    requires ReadsVersion(stod, 1) && x.schemaVersion == 1
    ensures IsValidSessionDocument(stod, Serialized(x))
  {
    hide Serialized, ParseJson;
    RoundTrip(stod, x);
  }

  // Only the target and the backup matter to a load.
  lemma LoadIgnoresTmp(stod: Stod, a: Disk, b: Disk)
    requires a.target == b.target && a.bak == b.bak
    ensures Loaded(stod, a) == Loaded(stod, b)
  {
  }

  // A save on the rename path, the first one included: a crash anywhere leaves what was loaded before or
  // the new session.
  lemma SaveRenameSafe(stod: Stod, d: Disk, x: SessionSnapshot, keepBackup: bool, f: Faults, i: nat)
    requires ReadsVersion(stod, 1) && x.schemaVersion == 1 && !f.renameFails
    requires IsSound(text => IsValidSessionDocument(stod, text), d)
      && i < |WriteStates(d, Serialized(x), keepBackup, f)|
    ensures var s := WriteStates(d, Serialized(x), keepBackup, f)[i];
      Loaded(stod, s) == Loaded(stod, d) || Loaded(stod, s) == Some(Named(x))
  {
    hide Serialized, Named, WriteStates, Recovered, IsSound, IsValidSessionDocument, Deserialized, ReadsVersion;
    RoundTrip(stod, x);
    RoundTripValid(stod, x);
    RenamePathSafe(text => IsValidSessionDocument(stod, text), d, Serialized(x), keepBackup, f, i);
  }

  // The disk as the fallback's first truncation leaves it: only the backup can be read.
  function BackupOnly(d: Disk): Disk {
    d.(target := None)
  }

  // The backup that this save would fall back on reads as the old or the new session.  When a backup is
  // asked for that depends on how far its copy gets: one that completes, or lacks no more than the last
  // line break, is the old session; one that never starts leaves the backup there was.
  ghost predicate BackupServes(stod: Stod, d: Disk, a: SessionSnapshot, b: SessionSnapshot,
      keepBackup: bool, f: Faults) {
    if !keepBackup || f.backup.Untouched? then LoadsEither(stod, BackupOnly(d), a, b)
    else f.backup.Completes? || f.backup.n + 1 >= |Serialized(a)|
  }

  lemma BackupLoads(stod: Stod, d: Disk, a: SessionSnapshot, b: SessionSnapshot, keepBackup: bool, f: Faults)
    requires ReadsVersion(stod, 1) && a.schemaVersion == 1 && d.target == Some(Serialized(a))
    ensures LoadsEither(stod, BackupOnly(BackedUp(d, Serialized(b), keepBackup, f)), a, b)
       <==> BackupServes(stod, d, a, b, keepBackup, f)
  {
    hide Serialized, Named, Loaded, ReadsVersion;
    var c := BackedUp(d, Serialized(b), keepBackup, f);
    if !keepBackup || f.backup.Untouched? {
      LoadIgnoresTmp(stod, BackupOnly(c), BackupOnly(d));
    } else {
      var text := Serialized(a);
      var n := Copied(text, f.backup) - 1;
      assert c.bak == Some(text[..n]);
      BackupPrefixLoads(stod, BackupOnly(c), a, n);
    }
  }

  lemma BackupPrefixLoads(stod: Stod, d: Disk, x: SessionSnapshot, n: nat)
    requires ReadsVersion(stod, 1) && x.schemaVersion == 1 && n <= |Serialized(x)|
    requires d.target.None? && d.bak == Some(Serialized(x)[..n])
    ensures Loaded(stod, d) == if n + 1 >= |Serialized(x)| then Some(Named(x)) else None
  {
    hide Serialized, Named, ParseJson, IsValidTree, ReadTree;
    TornDocuments(stod, x, n);
  }

  ghost predicate SaveSafe(stod: Stod, d: Disk, a: SessionSnapshot, b: SessionSnapshot, keepBackup: bool, f: Faults) {
    forall i | 0 <= i < |WriteStates(d, Serialized(b), keepBackup, f)| ::
      LoadsEither(stod, WriteStates(d, Serialized(b), keepBackup, f)[i], a, b)
  }

  // The save never gets to the fallback, the fallback never starts to copy, or the backup serves.
  ghost predicate SurvivesFaults(stod: Stod, d: Disk, a: SessionSnapshot, b: SessionSnapshot,
      keepBackup: bool, f: Faults) {
    !Reaches(Serialized(b), f) || !f.renameFails || f.fallback.Untouched? || BackupServes(stod, d, a, b, keepBackup, f)
  }

  // A crash anywhere in the save of a session leaves the old or the new session to be loaded.
  lemma SaveCrashSafe(stod: Stod, d: Disk, a: SessionSnapshot, b: SessionSnapshot, keepBackup: bool, f: Faults, i: nat)
    requires ReadsVersion(stod, 1) && a.schemaVersion == 1 && b.schemaVersion == 1
    requires d.target == Some(Serialized(a)) && i < |WriteStates(d, Serialized(b), keepBackup, f)|
    requires SurvivesFaults(stod, d, a, b, keepBackup, f)
    ensures LoadsEither(stod, WriteStates(d, Serialized(b), keepBackup, f)[i], a, b)
  {
    hide Serialized, Named, Loaded, WriteStates, ReadsVersion, BackupServes;
    var text := Serialized(b);
    var s := WriteStates(d, text, keepBackup, f)[i];
    var c := BackedUp(d, text, keepBackup, f);
    StatesClassified(d, text, keepBackup, f, i);
    LoadsWhole(stod, s, a);
    LoadsWhole(stod, s, b);
    BackupLoads(stod, d, a, b, keepBackup, f);
    if f.renameFails && f.fallback.Untouched? {
      UntouchedTarget(d, text, keepBackup, f, i);
    } else if s.target != d.target && s.target != Some(text) {
      assert c.target == d.target by { BackupStatesBefore(d, text, keepBackup, f); }
      var j :| 0 <= j <= |text| && s.target == Some(text[..j]);
      LoadsDocument(stod, s, b, j);
      LoadIgnoresTmp(stod, BackupOnly(s), BackupOnly(c));
    }
  }

  // A fallback that fails before it touches the target leaves it alone.
  lemma UntouchedTarget(d: Disk, content: string, keepBackup: bool, f: Faults, i: nat)
    requires f.renameFails && f.fallback.Untouched? && i < |WriteStates(d, content, keepBackup, f)|
    ensures WriteStates(d, content, keepBackup, f)[i].target == d.target
  {
    if Reaches(content, f) {
      var p := Prepared(d, content);
      var head := [d] + TmpStates(d, content, |content|);
      var backup := BackupPhase(p, keepBackup, f);
      var tail := ReplacePhase(Last(p, backup), content, f);
      assert WriteStates(d, content, keepBackup, f) == head + backup + tail;
      assert Last(p, backup).target == d.target;
    }
  }

  // A save is safe throughout exactly under these faults: the condition is on the disk before the save
  // and on what the file system does to it.
  lemma SaveSafeExactly(stod: Stod, d: Disk, a: SessionSnapshot, b: SessionSnapshot, keepBackup: bool, f: Faults)
    requires ReadsVersion(stod, 1) && a.schemaVersion == 1 && b.schemaVersion == 1 && d.target == Some(Serialized(a))
    ensures SaveSafe(stod, d, a, b, keepBackup, f) <==> SurvivesFaults(stod, d, a, b, keepBackup, f)
  {
    hide Serialized, Named, Loaded, ReadsVersion, BackupServes, WriteStates;
    var text := Serialized(b);
    if SurvivesFaults(stod, d, a, b, keepBackup, f) {
      forall i | 0 <= i < |WriteStates(d, text, keepBackup, f)|
        ensures LoadsEither(stod, WriteStates(d, text, keepBackup, f)[i], a, b)
      {
        SaveCrashSafe(stod, d, a, b, keepBackup, f, i);
      }
    } else {
      var i := FirstTruncation(d, text, keepBackup, f);
      var s := WriteStates(d, text, keepBackup, f)[i];
      assert text[..0] == "";
      DocumentNotTiny(b);
      LoadsDocument(stod, s, b, 0);
      BackupLoads(stod, d, a, b, keepBackup, f);
      LoadIgnoresTmp(stod, BackupOnly(s), BackupOnly(BackedUp(d, text, keepBackup, f)));
      assert !LoadsEither(stod, s, a, b);
    }
  }

  function FirstTruncation(d: Disk, content: string, keepBackup: bool, f: Faults): (i: nat)
    requires Reaches(content, f) && f.renameFails && !f.fallback.Untouched?
    ensures i < |WriteStates(d, content, keepBackup, f)|
    ensures var c := Last(Prepared(d, content), BackupPhase(Prepared(d, content), keepBackup, f));
      WriteStates(d, content, keepBackup, f)[i] == c.(target := Some(content[..0]))
  {
    var p := Prepared(d, content);
    var backup := BackupPhase(p, keepBackup, f);
    var head := [d] + TmpStates(d, content, |content|);
    var c := Last(p, backup);
    assert FallbackStates(c, content, Copied(content, f.fallback))[0] == c.(target := Some(content[..0]));
    assert WriteStates(d, content, keepBackup, f) == head + backup + ReplacePhase(c, content, f);
    |head| + |backup|
  }

  lemma DocumentNotTiny(x: SessionSnapshot)
    ensures |Serialized(x)| > 1
  {
    hide Member;
    assert |"{\n"| == 2;
  }

  // A save that finds an invalid file, as a crash in the fallback leaves it, with the session in the backup:
  // it is safe throughout exactly when it makes no copy of that file.
  lemma SaveOverTornExactly(stod: Stod, d: Disk, a: SessionSnapshot, b: SessionSnapshot, keepBackup: bool, f: Faults)
    requires ReadsVersion(stod, 1) && b.schemaVersion == 1 && Loaded(stod, d) == Some(Named(a))
    requires d.target.Some? && !IsValidSessionDocument(stod, d.target.value)
    ensures SaveSafe(stod, d, a, b, keepBackup, f)
       <==> !Reaches(Serialized(b), f) || !keepBackup || f.backup.Untouched?
  {
    hide Serialized, Named, Loaded, ReadsVersion, WriteStates, IsValidSessionDocument;
    var text := Serialized(b);
    if !Reaches(text, f) || !keepBackup || f.backup.Untouched? {
      forall i | 0 <= i < |WriteStates(d, text, keepBackup, f)|
        ensures LoadsEither(stod, WriteStates(d, text, keepBackup, f)[i], a, b)
      {
        BackupStillLoads(stod, d, a, b, keepBackup, f, i);
      }
    } else {
      var n := OverwrittenBackup(d, text, f, 0);
      var s := WriteStates(d, text, true, f)[n];
      assert d.target.value[..0] == "";
      NothingLoads(stod, s, b);
      assert !LoadsEither(stod, s, a, b);
    }
  }

  // The target is invalid and the backup empty: there is nothing to load.
  lemma NothingLoads(stod: Stod, s: Disk, x: SessionSnapshot)
    requires ReadsVersion(stod, 1) && x.schemaVersion == 1
    requires s.target.Some? && !IsValidSessionDocument(stod, s.target.value) && s.bak == Some("")
    ensures Loaded(stod, s) == None
  {
    hide IsValidSessionDocument, ReadsVersion, Deserialized;
    EmptyInvalid(stod, x);
  }

  lemma EmptyInvalid(stod: Stod, x: SessionSnapshot)
    requires ReadsVersion(stod, 1) && x.schemaVersion == 1
    ensures !IsValidSessionDocument(stod, "")
  {
    hide Serialized, ReadsVersion, IsValidSessionDocument, Deserialized;
    DocumentNotTiny(x);
    TornDocuments(stod, x, 0);
    assert Serialized(x)[..0] == "";
  }

  lemma BackupStillLoads(stod: Stod, d: Disk, a: SessionSnapshot, b: SessionSnapshot,
      keepBackup: bool, f: Faults, i: nat)
    requires ReadsVersion(stod, 1) && b.schemaVersion == 1 && Loaded(stod, d) == Some(Named(a))
    requires d.target.Some? && !IsValidSessionDocument(stod, d.target.value)
    requires !Reaches(Serialized(b), f) || !keepBackup || f.backup.Untouched?
    requires i < |WriteStates(d, Serialized(b), keepBackup, f)|
    ensures LoadsEither(stod, WriteStates(d, Serialized(b), keepBackup, f)[i], a, b)
  {
    hide Serialized, Named, Loaded, ReadsVersion, WriteStates, IsValidSessionDocument;
    var text := Serialized(b);
    var s := WriteStates(d, text, keepBackup, f)[i];
    StatesClassified(d, text, keepBackup, f, i);
    BackupKept(d, text, keepBackup, f, i);
    BackupStatesBefore(d, text, keepBackup, f);
    LoadsWhole(stod, s, b);
    LoadIgnoresTarget(stod, d, s);
    if s.target != d.target && s.target != Some(text) {
      var j :| 0 <= j <= |text| && s.target == Some(text[..j]);
      LoadsDocument(stod, s, b, j);
      LoadIgnoresTarget(stod, d, BackupOnly(s));
    }
  }

  // An invalid target is not looked at.
  lemma LoadIgnoresTarget(stod: Stod, d: Disk, s: Disk)
    requires s.bak == d.bak && d.target.Some? && !IsValidSessionDocument(stod, d.target.value)
    ensures s.target == d.target || s.target.None? ==> Loaded(stod, s) == Loaded(stod, d)
  {
    hide IsValidSessionDocument, Deserialized;
  }

  // Whatever fails and wherever the save is cut short: what can be loaded is the old session, the new one or the
  // one of the backup there was, or nothing.
  lemma LoadsOneOf(stod: Stod, d: Disk, a: SessionSnapshot, b: SessionSnapshot, keepBackup: bool, f: Faults, i: nat)
    requires ReadsVersion(stod, 1) && a.schemaVersion == 1 && b.schemaVersion == 1
    requires d.target == Some(Serialized(a)) && i < |WriteStates(d, Serialized(b), keepBackup, f)|
    ensures Loaded(stod, WriteStates(d, Serialized(b), keepBackup, f)[i])
      in {None, Some(Named(a)), Some(Named(b)), Loaded(stod, BackupOnly(d))}
  {
    hide Serialized, Named, Loaded, WriteStates, ReadsVersion;
    var text := Serialized(b);
    var s := WriteStates(d, text, keepBackup, f)[i];
    var c := BackedUp(d, text, keepBackup, f);
    StatesClassified(d, text, keepBackup, f, i);
    LoadsWhole(stod, s, a);
    LoadsWhole(stod, s, b);
    BackupStatesBefore(d, text, keepBackup, f);
    if s.target != d.target && s.target != Some(text) {
      var j :| 0 <= j <= |text| && s.target == Some(text[..j]);
      LoadsDocument(stod, s, b, j);
      BackupOrPrefix(stod, d, a, BackupOnly(s));
    }
  }

  lemma BackupOrPrefix(stod: Stod, d: Disk, a: SessionSnapshot, s: Disk)
    requires ReadsVersion(stod, 1) && a.schemaVersion == 1 && d.target == Some(Serialized(a)) && s.target.None?
    requires s.bak == d.bak || exists j :: 0 <= j <= |d.target.value| && s.bak == Some(d.target.value[..j])
    ensures Loaded(stod, s) in {None, Some(Named(a)), Loaded(stod, BackupOnly(d))}
  {
    hide Serialized, Named, Loaded, ReadsVersion;
    if s.bak == d.bak {
      LoadIgnoresTmp(stod, s, BackupOnly(d));
    } else {
      var j :| 0 <= j <= |d.target.value| && s.bak == Some(d.target.value[..j]);
      BackupPrefixLoads(stod, s, a, j);
    }
  }

  // Saving with a backup: a crash at any point leaves the old or the new session, whatever fails,
  // unless both the rename and the copy to the backup fail.
  lemma SessionSurvives(stod: Stod, d: Disk, a: SessionSnapshot, b: SessionSnapshot, f: Faults, i: nat)
    requires ReadsVersion(stod, 1) && a.schemaVersion == 1 && b.schemaVersion == 1
    requires d.target == Some(Serialized(a)) && i < |WriteStates(d, Serialized(b), true, f)|
    requires !f.renameFails || f.backup.Completes?
    ensures LoadsEither(stod, WriteStates(d, Serialized(b), true, f)[i], a, b)
  {
    hide Serialized, Named, Loaded, WriteStates, ReadsVersion;
    SaveCrashSafe(stod, d, a, b, true, f, i);
  }

  // When the rename fails and both copies break off at once, neither session is left, and the save
  // reports success.
  lemma BothSessionsLost(stod: Stod, a: SessionSnapshot, b: SessionSnapshot)
    requires ReadsVersion(stod, 1) && a.schemaVersion == 1 && b.schemaVersion == 1
    ensures var f := Faults(false, false, None, false, Torn(0), true, Torn(0), false);
      var d := Disk(Some(Serialized(a)), None, None);
      && Loaded(stod, d) == Some(Named(a))
      && WriteResult(d, Serialized(b), true, f).success
      && Loaded(stod, AfterWrite(d, Serialized(b), true, f)) == None
  {
    hide Serialized, Named, Loaded, ReadsVersion, AfterWrite;
    var f := Faults(false, false, None, false, Torn(0), true, Torn(0), false);
    var d := Disk(Some(Serialized(a)), None, None);
    var text := Serialized(b);
    LoadsWhole(stod, d, a);
    var c := BackedUp(d, text, true, f);
    AfterWriteIs(d, text, true, f);
    var r := AfterWrite(d, text, true, f);
    assert c.bak == Some(Serialized(a)[..0]);
    assert FallbackStates(c, text, 1)[0] == c.(target := Some(text[..0]));
    assert r == Disk(Some(text[..0]), None, Some(Serialized(a)[..0]));
    DocumentNotTiny(a);
    DocumentNotTiny(b);
    LoadsDocument(stod, r, b, 0);
    BackupPrefixLoads(stod, r.(target := None), a, 0);
  }
  // A save that breaks off in the fallback still leaves the old session in the backup; the next save, with no
  // fault at all, copies the torn file over it, and a crash there leaves neither session.
  lemma NextSaveLosesBoth(stod: Stod, a: SessionSnapshot, b: SessionSnapshot)
    requires ReadsVersion(stod, 1) && a.schemaVersion == 1 && b.schemaVersion == 1
    ensures var d := Disk(Some(Serialized(a)), None, None);
      exists i, j ::
        var first := Save(Serialized(b), true, NO_FAULTS.(renameFails := true), i);
        var second := Save(Serialized(b), true, NO_FAULTS, j);
        && Loaded(stod, AfterSave(d, first)) == Some(Named(a))
        && Loaded(stod, AfterSaves(d, [first, second])) == None
  {
    hide Serialized, Named, Loaded, ReadsVersion, WriteStates, IsValidSessionDocument;
    var d, text, f := Disk(Some(Serialized(a)), None, None), Serialized(b), NO_FAULTS.(renameFails := true);
    var i := FirstTruncation(d, text, true, f);
    var first := Save(text, true, f, i);
    var torn := AfterSave(d, first);
    assert torn == Disk(Some(""), Some(text), Some(Serialized(a))) by {
      FaultlessBackup(d, text, f);
      assert text[..0] == "";
    }
    EmptyInvalid(stod, b);
    LoadsWhole(stod, BackupOnly(torn), a);
    LoadIgnoresTarget(stod, torn, BackupOnly(torn));
    var j := OverwrittenBackup(torn, text, NO_FAULTS, 0);
    var second := Save(text, true, NO_FAULTS, j);
    assert AfterSave(torn, second) == Disk(Some(""), Some(text), Some(""));
    NothingLoads(stod, AfterSave(torn, second), b);
    SavesInTurn(d, first, second);
  }

  lemma FaultlessBackup(d: Disk, content: string, f: Faults)
    requires d.target.Some? && f.backup.Completes?
    ensures BackedUp(d, content, true, f) == Disk(d.target, Some(content), d.target)
  {
    assert d.target.value[..|d.target.value|] == d.target.value;
  }

  lemma SavesInTurn(d: Disk, x: Save, y: Save)
    ensures AfterSaves(d, [x, y]) == AfterSave(AfterSave(d, x), y)
  {
    hide AfterSave;
    assert [x, y][1..] == [y] && [y][1..] == [];
    assert AfterSaves(AfterSave(d, x), [y]) == AfterSave(AfterSave(d, x), y);
  }
}
