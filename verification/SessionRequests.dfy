/** What the engine is asked to load: exactly what the accepted calls of a run asked for, in order. */
module SessionRequests {
  import opened Common
  import opened Tabs
  import opened SessionSpec
  import opened SessionInvariant
  import opened SessionRuns

  // The request that a command is, if it is one.
  function Asking(c: EngineCommand): seq<Request> {
    match c
    case NavigateTo(id, url) => [ToUrl(id, url)]
    case History(id, direction) => [InHistory(id, direction)]
    case _ => []
  }

  function Requests(log: seq<EngineCommand>): seq<Request> {
    if log == [] then [] else Requests(log[..|log| - 1]) + Asking(log[|log| - 1])
  }

  lemma RequestsSnoc(log: seq<EngineCommand>, c: EngineCommand)
    ensures Requests(log + [c]) == Requests(log) + Asking(c)
  {
    assert (log + [c])[..|log|] == log;
  }

  // A command that asks for nothing.
  lemma QuietSnoc(log: seq<EngineCommand>, c: EngineCommand)
    requires !c.NavigateTo? && !c.History?
    ensures Requests(log + [c]) == Requests(log)
  {
    RequestsSnoc(log, c);
  }

  // An engine that refused nothing was asked for every request in its log.
  lemma {:induction false} EngineHeardAll(log: seq<EngineCommand>)
    ensures Replay(log).refused == 0 ==> Replay(log).asked == Requests(log)
  {
    if log != [] {
      EngineHeardAll(log[..|log| - 1]);
    }
  }

  // The request that a call makes when it is accepted: of a tab that is there and not discarded, for a url that is
  // not empty.
  function AcceptedBy(s: Session, op: SessionOp): seq<Request> {
    match op
    case DoNavigate(id, url) => if url != "" && IsLoaded(s, id) then [ToUrl(id, url)] else []
    case DoHistory(id, command) => if IsLoaded(s, id) then [InHistory(id, command)] else []
    case _ => []
  }

  function Accepted(s: Session, ops: seq<SessionOp>): seq<Request>
    decreases |ops|
  {
    if ops == [] then [] else AcceptedBy(s, ops[0]) + Accepted(Step(s, ops[0]), ops[1..])
  }

  // ---------- One step ----------

  lemma MadeActiveAsks(s: Session, k: nat)
    requires k < |s.tabs|
    ensures Requests(MadeActive(Woken(s, k), k).commands) == Requests(s.commands)
  {
    hide Requests;
    QuietSnoc(s.commands, Create(s.tabs[k].id, s.tabs[k].isEphemeral));
    QuietSnoc(s.commands, Resume(s.tabs[k].id));
    QuietSnoc(Woken(s, k).commands, Activate(s.tabs[k].id));
  }

  lemma ActivateAsks(s: Session, id: TabId)
    ensures Requests(AfterActivate(s, id).commands) == Requests(s.commands)
  {
    hide Requests;
    var i := IndexOf(s.tabs, id);
    if i < |s.tabs| && s.activeTabId != Some(id) {
      MadeActiveAsks(s, i);
      assert AfterActivate(s, id).commands == MadeActive(Woken(s, i), i).commands;
    }
  }

  lemma OpenAsks(s: Session, tab: Tab, activate: bool)
    ensures Requests(AfterOpen(s, tab, activate).commands) == Requests(s.commands)
  {
    hide Requests, Opens;
    QuietSnoc(s.commands, Create(tab.id, tab.isEphemeral));
    QuietSnoc(s.commands + [Create(tab.id, tab.isEphemeral)], Activate(tab.id));
  }

  lemma CloseAsks(s: Session, id: TabId, policy: CloseActivationPolicy)
    ensures Requests(AfterClose(s, id, policy).commands) == Requests(s.commands)
  {
    hide Requests, Remembered, ScanLeft, MadeActive, Woken;
    var i := IndexOf(s.tabs, id);
    if i < |s.tabs| {
      QuietSnoc(s.commands, Close(id));
      var removed := Removed(s, i);
      if removed.tabs != [] {
        MadeActiveAsks(removed, ScanLeft(removed.tabs, Min(i, |removed.tabs| - 1), 0));
      }
    }
  }

  lemma PreparedAsks(s: Session, i: nat, c: EngineCommand)
    requires i < |s.tabs|
    ensures Requests(Prepared(s, i).commands) == Requests(s.commands)
    ensures Requests(Prepared(s, i).commands + [c]) == Requests(s.commands) + Asking(c)
  {
    hide Requests;
    QuietSnoc(s.commands, Resume(s.tabs[i].id));
    RequestsSnoc(Prepared(s, i).commands, c);
  }

  lemma RequestAsks(s: Session, op: SessionOp)
    requires op.DoNavigate? || op.DoHistory?
    ensures Requests(Step(s, op).commands) == Requests(s.commands) + AcceptedBy(s, op)
  {
    hide Requests;
    var i := IndexOf(s.tabs, op.id);
    if i < |s.tabs| {
      PreparedAsks(s, i, if op.DoNavigate? then NavigateTo(op.id, op.url) else History(op.id, op.command));
    }
  }

  lemma LifecycleAsks(s: Session, id: TabId)
    ensures Requests(AfterSuspend(s, id).commands) == Requests(s.commands)
    ensures Requests(AfterResume(s, id).commands) == Requests(s.commands)
    ensures Requests(AfterDiscard(s, id).commands) == Requests(s.commands)
  {
    hide Requests;
    QuietSnoc(s.commands, Suspend(id));
    QuietSnoc(s.commands, Close(id));
    if IsLoaded(s, id) {
      PreparedAsks(s, IndexOf(s.tabs, id), Close(id));
    }
  }

  lemma StepAsks(s: Session, op: SessionOp)
    ensures Requests(Step(s, op).commands) == Requests(s.commands) + AcceptedBy(s, op)
  {
    hide Requests, AfterOpen, AfterClose, AfterActivate, AfterSuspend, AfterResume, AfterDiscard, AfterNavigate,
      AfterHistory;
    match op
    case DoOpen(tab, activate) => OpenAsks(s, tab, activate);
    case DoClose(id, policy) => CloseAsks(s, id, policy);
    case DoReopen(mode) =>
      var k := NewestMatch(s.closedTabs, mode);
      if k > 0 { OpenAsks(Unstacked(s, k), RestoredTab(s.closedTabs[k - 1], s.restored + 1), true); }
    case DoPurgeClosed =>
    case DoCycle(forward, filter) =>
      var k := CycleTarget(s.tabs, s.activeTabId, forward, filter);
      if k < |s.tabs| { ActivateAsks(s, s.tabs[k].id); }
    case DoActivate(id) => ActivateAsks(s, id);
    case DoNavigate(_, _) => RequestAsks(s, op);
    case DoHistory(_, _) => RequestAsks(s, op);
    case DoSuspend(id) => LifecycleAsks(s, id);
    case DoResume(id) => LifecycleAsks(s, id);
    case DoDiscard(id) => LifecycleAsks(s, id);
    case DoEvent(event) =>
  }

  // ---------- Whole runs ----------

  lemma {:induction false} RunAsks(s: Session, ops: seq<SessionOp>)
    ensures Requests(Run(s, ops).commands) == Requests(s.commands) + Accepted(s, ops)
    decreases |ops|
  {
    if ops != [] {
      hide Step, Requests, AcceptedBy;
      var t := Step(s, ops[0]);
      StepAsks(s, ops[0]);
      RunAsks(t, ops[1..]);
      assert Accepted(s, ops) == AcceptedBy(s, ops[0]) + Accepted(t, ops[1..]);
    }
  }

  // Over any run the engine was asked for the urls and the history moves of the accepted calls, all of them, for the
  // tabs they name, in the order of the calls, and for nothing else.
  lemma EngineAskedAsAccepted(ops: seq<SessionOp>)
    ensures Replay(Run(EMPTY_SESSION, ops).commands).asked == Accepted(EMPTY_SESSION, ops)
  {
    hide Run, Replay, Requests, Accepted;
    EngineRefinement(ops);
    EngineHeardAll(Run(EMPTY_SESSION, ops).commands);
    RunAsks(EMPTY_SESSION, ops);
    NothingAsked();
  }

  lemma NothingAsked()
    ensures Requests(EMPTY_SESSION.commands) == []
  {
  }
}
