/** Writing a file through a temporary one and reading it back with recovery
    (src/core/storage/atomic_file_store.cpp, POSIX branch).  A process crash leaves the disk in
    one of the states a write passes through, so those states are what is described here. */
module AtomicFileStores {
  import opened Common

  // The contents of target, target.tmp and target.bak; None when there is no such file.
  datatype Disk = Disk(target: Option<string>, tmp: Option<string>, bak: Option<string>)

  // What becomes of a copy that overwrites its destination: it completes, it fails before touching the
  // destination, or it fails with the first n bytes written.
  datatype CopyOutcome = Completes | Untouched | Torn(n: nat)

  // What the file system does to one write.
  datatype Faults = Faults(
    directoryFails: bool,
    openFails: bool,
    writeFailsAt: Option<nat>,
    cleanupFails: bool,
    backup: CopyOutcome,
    renameFails: bool,
    fallback: CopyOutcome,
    removeFails: bool)

  datatype WriteError = NoError | DirectoryError | OpenError | WriteError | ReplaceError

  datatype AtomicWriteResult = AtomicWriteResult(success: bool, error: WriteError, backupCreated: bool)

  // How much of the content reaches the temporary file.
  function Written(content: string, f: Faults): (n: nat)
    ensures n <= |content|
  {
    if f.writeFailsAt.None? then |content| else Min(f.writeFailsAt.value, |content|)
  }

  function TmpStates(d: Disk, content: string, n: nat): (r: seq<Disk>)
    requires n <= |content|
    ensures |r| == n + 1 && forall j | 0 <= j <= n :: r[j] == d.(tmp := Some(content[..j]))
  {
    seq(n + 1, j requires 0 <= j <= n => d.(tmp := Some(content[..j])))
  }

  // How far a copy of `source` gets: one past the last prefix length reached, 0 when untouched.
  function Copied(source: string, o: CopyOutcome): (n: nat)
    ensures n <= |source| + 1
  {
    match o
    case Completes => |source| + 1
    case Untouched => 0
    case Torn(n) => Min(n, |source|) + 1
  }

  function BackupStates(d: Disk, source: string, n: nat): (r: seq<Disk>)
    requires n <= |source| + 1
    ensures |r| == n && forall j | 0 <= j < n :: r[j] == d.(bak := Some(source[..j]))
  {
    seq(n, j requires 0 <= j < n => d.(bak := Some(source[..j])))
  }

  function FallbackStates(d: Disk, source: string, n: nat): (r: seq<Disk>)
    requires n <= |source| + 1
    ensures |r| == n && forall j | 0 <= j < n :: r[j] == d.(target := Some(source[..j]))
  {
    seq(n, j requires 0 <= j < n => d.(target := Some(source[..j])))
  }

  function Last(d: Disk, states: seq<Disk>): Disk {
    if states == [] then d else states[|states| - 1]
  }

  // The states from `d` on while the target is copied over the backup.
  function BackupPhase(d: Disk, keepBackup: bool, f: Faults): seq<Disk> {
    if keepBackup && d.target.Some? then BackupStates(d, d.target.value, Copied(d.target.value, f.backup)) else []
  }

  // The states after that: a rename, or the copying fallback and the removal of the temporary file.
  function ReplacePhase(d: Disk, content: string, f: Faults): seq<Disk> {
    if !f.renameFails then [d.(target := Some(content), tmp := None)]
    else
      var copied := FallbackStates(d, content, Copied(content, f.fallback));
      copied + (if f.removeFails then [] else [Last(d, copied).(tmp := None)])
  }

  predicate Reaches(content: string, f: Faults) {
    !f.directoryFails && !f.openFails && f.writeFailsAt.None?
  }

  // The disk when the temporary file is complete.
  function Prepared(d: Disk, content: string): Disk {
    d.(tmp := Some(content))
  }

  // Every state the disk passes through, the first and the last included.
  function WriteStates(d: Disk, content: string, keepBackup: bool, f: Faults): seq<Disk> {
    if f.directoryFails || f.openFails then [d]
    else
      var n := Written(content, f);
      var tmp := TmpStates(d, content, n);
      if f.writeFailsAt.Some? then [d] + tmp + (if f.cleanupFails then [] else [d.(tmp := None)])
      else
        var p := Prepared(d, content);
        var backup := BackupPhase(p, keepBackup, f);
        [d] + tmp + backup + ReplacePhase(Last(p, backup), content, f)
  }

  function AfterWrite(d: Disk, content: string, keepBackup: bool, f: Faults): Disk {
    Last(d, WriteStates(d, content, keepBackup, f))
  }

  function WriteResult(d: Disk, content: string, keepBackup: bool, f: Faults): AtomicWriteResult {
    if f.directoryFails then AtomicWriteResult(false, DirectoryError, false)
    else if f.openFails then AtomicWriteResult(false, OpenError, false)
    else if f.writeFailsAt.Some? then AtomicWriteResult(false, WriteError.WriteError, false)
    else
      var backed := keepBackup && d.target.Some? && f.backup.Completes?;
      if !f.renameFails || !f.removeFails then AtomicWriteResult(true, NoError, backed)
      else AtomicWriteResult(false, ReplaceError, backed)
  }

  lemma LastOfAppend(d: Disk, a: seq<Disk>, b: seq<Disk>)
    ensures Last(d, a + b) == Last(Last(d, a), b)
  {
  }

  // What a write answers, fault by fault.
  ghost predicate Reports(d: Disk, keepBackup: bool, f: Faults, r: AtomicWriteResult) {
    var there := !f.directoryFails && !f.openFails && f.writeFailsAt.None?;
    && (r.success <==> there && !(f.renameFails && f.removeFails))
    && (r.error == NoError <==> r.success)
    && (r.error == DirectoryError <==> f.directoryFails)
    && (r.error == OpenError <==> !f.directoryFails && f.openFails)
    && (r.error == WriteError.WriteError <==> !f.directoryFails && !f.openFails && f.writeFailsAt.Some?)
    && (r.error == ReplaceError <==> there && f.renameFails && f.removeFails)
    && (r.backupCreated <==> there && keepBackup && d.target.Some? && f.backup.Completes?)
  }

  // What it has done by then: with a working rename it succeeds exactly when the content is in the target and
  // the temporary file gone; a backup that it reports is the old file; a write that does not get to the old
  // file leaves it and its backup alone.
  ghost predicate Leaves(d: Disk, content: string, f: Faults, r: AtomicWriteResult, after: Disk) {
    var there := !f.directoryFails && !f.openFails && f.writeFailsAt.None?;
    && (!f.renameFails && r.success ==> after.target == Some(content) && after.tmp == None)
    && (!f.renameFails && !r.success ==> after.target == d.target && after.bak == d.bak)
    && (r.backupCreated ==> after.bak == d.target)
    && (!there ==> after.target == d.target && after.bak == d.bak)
    && (f.writeFailsAt.Some? && r.error == WriteError.WriteError && !f.cleanupFails ==> after == d.(tmp := None))
    && (there && (!f.renameFails || !f.removeFails) ==> after.tmp == None)
  }

  lemma WriteReports(d: Disk, content: string, keepBackup: bool, f: Faults)
    ensures var r, after := WriteResult(d, content, keepBackup, f), AfterWrite(d, content, keepBackup, f);
      Reports(d, keepBackup, f, r) && Leaves(d, content, f, r, after)
  {
    if Reaches(content, f) {
      var p := Prepared(d, content);
      var backup := BackupPhase(p, keepBackup, f);
      var head := [d] + TmpStates(d, content, |content|);
      assert d.target.Some? ==> d.target.value[..|d.target.value|] == d.target.value;
      assert content[..|content|] == content;
      LastOfAppend(d, head, backup);
      LastOfAppend(d, head + backup, ReplacePhase(Last(p, backup), content, f));
    }
  }

  // ---------- Reading ----------

  datatype ReadRecoverySource = NoSource | Primary | Backup

  datatype FileReadResult = FileReadResult(success: bool, source: ReadRecoverySource, content: string)

  function Recovered(valid: string -> bool, d: Disk): FileReadResult {
    if d.target.Some? && valid(d.target.value) then FileReadResult(true, Primary, d.target.value)
    else if d.bak.Some? && valid(d.bak.value) then FileReadResult(true, Backup, d.bak.value)
    else FileReadResult(false, NoSource, "")
  }

  class AtomicFileStore {
    var target: Option<string>
    var tmp: Option<string>
    var bak: Option<string>
    // Every state since the store was set up, each where a crash could happen.
    ghost var history: seq<Disk>

    ghost function State(): Disk
      reads this
    {
      Disk(target, tmp, bak)
    }

    constructor (target: Option<string>, tmp: Option<string>, bak: Option<string>)
      ensures State() == Disk(target, tmp, bak) && history == []
    {
      this.target, this.tmp, this.bak, history := target, tmp, bak, [];
    }

    method WriteTmp(content: string, n: nat)
      requires n <= |content|
      modifies this
      ensures history == old(history) + TmpStates(old(State()), content, n)
      ensures State() == old(State()).(tmp := Some(content[..n]))
    {
      ghost var start := State();
      ghost var states := TmpStates(start, content, n);
      tmp := Some("");
      history := history + [State()];
      for j := 0 to n
        invariant State() == start.(tmp := Some(content[..j]))
        invariant history == old(history) + states[..j + 1]
      {
        tmp := Some(content[..j + 1]);
        history := history + [State()];
      }
    }

    method CopyTargetToBackup(o: CopyOutcome)
      requires target.Some?
      modifies this
      ensures history == old(history) + BackupStates(old(State()), old(target).value, Copied(old(target).value, o))
      ensures State() == Last(old(State()), BackupStates(old(State()), old(target).value, Copied(old(target).value, o)))
    {
      ghost var start := State();
      var source := target.value;
      var n := Copied(source, o);
      ghost var states := BackupStates(start, source, n);
      for j := 0 to n
        invariant State() == Last(start, states[..j]) && target == Some(source)
        invariant tmp == start.tmp && target == start.target
        invariant history == old(history) + states[..j]
      {
        bak := Some(source[..j]);
        history := history + [State()];
      }
      assert states[..n] == states;
    }

    method CopyTmpToTarget(content: string, o: CopyOutcome)
      requires tmp == Some(content)
      modifies this
      ensures history == old(history) + FallbackStates(old(State()), content, Copied(content, o))
      ensures State() == Last(old(State()), FallbackStates(old(State()), content, Copied(content, o)))
    {
      ghost var start := State();
      var n := Copied(content, o);
      ghost var states := FallbackStates(start, content, n);
      for j := 0 to n
        invariant State() == Last(start, states[..j])
        invariant tmp == start.tmp && bak == start.bak
        invariant history == old(history) + states[..j]
      {
        target := Some(content[..j]);
        history := history + [State()];
      }
      assert states[..n] == states;
    }

    method AtomicWriteFile(content: string, keepBackup: bool, f: Faults) returns (result: AtomicWriteResult)
      modifies this
      ensures history == old(history) + WriteStates(old(State()), content, keepBackup, f)
      ensures State() == AfterWrite(old(State()), content, keepBackup, f)
      ensures result == WriteResult(old(State()), content, keepBackup, f)
      ensures Reports(old(State()), keepBackup, f, result) && Leaves(old(State()), content, f, result, State())
    {
      hide TmpStates, BackupStates, FallbackStates, Reports, Leaves, BackupPhase, ReplacePhase;
      ghost var start := State();
      WriteReports(start, content, keepBackup, f);
      result := AtomicWriteResult(false, NoError, false);
      history := history + [State()];
      if f.directoryFails {
        return result.(error := DirectoryError);
      }
      if f.openFails {
        return result.(error := OpenError);
      }
      WriteTmp(content, Written(content, f));
      if f.writeFailsAt.Some? {
        if !f.cleanupFails {
          tmp := None;
          history := history + [State()];
        }
        return result.(error := WriteError.WriteError);
      }
      assert content[..|content|] == content;
      result := BackUpAndReplace(content, keepBackup, f);
    }

    // The part from the backup on, when the temporary file is complete.
    method BackUpAndReplace(content: string, keepBackup: bool, f: Faults) returns (result: AtomicWriteResult)
      requires tmp == Some(content)
      modifies this
      ensures var before := old(State()); var backup := BackupPhase(before, keepBackup, f);
        var tail := ReplacePhase(Last(before, backup), content, f);
        && history == old(history) + backup + tail
        && State() == Last(Last(before, backup), tail)
        && var backed := keepBackup && before.target.Some? && f.backup.Completes?;
           result == if !f.renameFails || !f.removeFails then AtomicWriteResult(true, NoError, backed)
                     else AtomicWriteResult(false, ReplaceError, backed)
    {
      hide BackupStates, FallbackStates, ReplacePhase;
      result := AtomicWriteResult(false, NoError, false);
      ghost var before := State();
      if target.Some? && keepBackup {
        CopyTargetToBackup(f.backup);
        if f.backup.Completes? {
          result := result.(backupCreated := true);
        }
      }
      assert State() == Last(before, BackupPhase(before, keepBackup, f)) && tmp == Some(content);
      Replace(content, f);
      if !f.renameFails || !f.removeFails {
        return result.(success := true);
      }
      result := result.(error := ReplaceError);
    }

    // rename(2), or the fallback.
    method Replace(content: string, f: Faults)
      requires tmp == Some(content)
      modifies this
      ensures history == old(history) + ReplacePhase(old(State()), content, f)
      ensures State() == Last(old(State()), ReplacePhase(old(State()), content, f))
    {
      if !f.renameFails {
        target := tmp;
        tmp := None;
        history := history + [State()];
        return;
      }
      CopyTmpToTarget(content, f.fallback);
      if !f.removeFails {
        tmp := None;
        history := history + [State()];
      }
    }

    method ReadFileWithBackupRecovery(valid: string -> bool) returns (result: FileReadResult)
      ensures result == Recovered(valid, State())
      ensures result.source == Primary <==> target.Some? && valid(target.value)
      ensures result.source == Backup <==>
        !(target.Some? && valid(target.value)) && bak.Some? && valid(bak.value)
      ensures result.success <==> result.source != NoSource
      ensures result.source == Primary ==> result.content == target.value
      ensures result.source == Backup ==> result.content == bak.value
    {
      if target.Some? && valid(target.value) {
        return FileReadResult(true, Primary, target.value);
      }
      if bak.Some? && valid(bak.value) {
        return FileReadResult(true, Backup, bak.value);
      }
      result := FileReadResult(false, NoSource, "");
    }
  }
}
