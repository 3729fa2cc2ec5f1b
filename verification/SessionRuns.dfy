/** Whole runs of a BrowserSession: any sequence of user calls and engine events. */
module SessionRuns {
  import opened Common
  import opened Tabs
  import opened SessionSpec
  import opened SessionInvariant

  datatype SessionOp =
    | DoOpen(tab: Tab, activate: bool)
    | DoClose(id: TabId, policy: CloseActivationPolicy)
    | DoReopen(mode: ClosedTabMode)
    | DoPurgeClosed
    | DoCycle(forward: bool, filter: Tab -> bool)
    | DoActivate(id: TabId)
    | DoNavigate(id: TabId, url: string)
    | DoHistory(id: TabId, command: HistoryCommand)
    | DoSuspend(id: TabId)
    | DoResume(id: TabId)
    | DoDiscard(id: TabId)
    | DoEvent(event: EngineEvent)

  function Step(s: Session, op: SessionOp): Session {
    match op
    case DoOpen(tab, activate) => AfterOpen(s, tab, activate)
    case DoClose(id, policy) => AfterClose(s, id, policy)
    case DoReopen(mode) => AfterReopen(s, mode)
    case DoPurgeClosed => AfterPurgeClosed(s)
    case DoCycle(forward, filter) => AfterCycle(s, forward, filter)
    case DoActivate(id) => AfterActivate(s, id)
    case DoNavigate(id, url) => AfterNavigate(s, id, url)
    case DoHistory(id, command) => AfterHistory(s, id, command)
    case DoSuspend(id) => AfterSuspend(s, id)
    case DoResume(id) => AfterResume(s, id)
    case DoDiscard(id) => AfterDiscard(s, id)
    case DoEvent(event) => AfterEvent(s, event)
  }

  function Run(s: Session, ops: seq<SessionOp>): Session
    decreases |ops|
  {
    if ops == [] then s else Run(Step(s, ops[0]), ops[1..])
  }

  lemma {:induction false} RunSnoc(s: Session, ops: seq<SessionOp>, op: SessionOp)
    ensures Run(s, ops + [op]) == Step(Run(s, ops), op)
    decreases |ops|
  {
    hide Step;
    if ops == [] {
      assert ([] + [op])[1..] == [];
    } else {
      assert (ops + [op])[1..] == ops[1..] + [op];
      RunSnoc(Step(s, ops[0]), ops[1..], op);
    }
  }

  lemma RunOfTwo(s: Session, first: SessionOp, second: SessionOp)
    ensures Run(s, [first, second]) == Step(Step(s, first), second)
  {
    hide Step;
    assert [first, second][1..] == [second] && [second][1..] == [];
    assert Run(Step(Step(s, first), second), []) == Step(Step(s, first), second);
  }

  lemma StepKeeps(s: Session, op: SessionOp)
    requires Valid(s)
    ensures Valid(Step(s, op))
  {
    hide Valid, AfterOpen, AfterClose, AfterReopen, AfterPurgeClosed, AfterCycle, AfterActivate, AfterNavigate,
         AfterHistory, AfterSuspend, AfterResume, AfterDiscard, AfterEvent;
    match op
    case DoOpen(tab, activate) => OpenKeeps(s, tab, activate);
    case DoClose(id, policy) => CloseKeeps(s, id, policy);
    case DoReopen(mode) => ReopenKeeps(s, mode);
    case DoPurgeClosed => PurgeClosedKeeps(s);
    case DoCycle(forward, filter) => CycleKeeps(s, forward, filter);
    case DoActivate(id) => ActivateKeeps(s, id);
    case DoNavigate(id, url) => NavigateKeeps(s, id, url);
    case DoHistory(id, command) => HistoryKeeps(s, id, command);
    case DoSuspend(id) => SuspendKeeps(s, id);
    case DoResume(id) => ResumeKeeps(s, id);
    case DoDiscard(id) => DiscardKeeps(s, id);
    case DoEvent(event) => EventKeeps(s, event);
  }

  lemma {:induction false} RunKeeps(s: Session, ops: seq<SessionOp>)
    requires Valid(s)
    ensures Valid(Run(s, ops))
    decreases |ops|
  {
    if ops != [] {
      StepKeeps(s, ops[0]);
      RunKeeps(Step(s, ops[0]), ops[1..]);
    }
  }

  // After any run from a new session, the engine that executed the commands holds exactly the loaded
  // tabs, has suspended exactly the Suspended ones, shows the active one and refused nothing.
  lemma {:induction false} EngineRefinement(ops: seq<SessionOp>)
    ensures var s := Run(EMPTY_SESSION, ops); var e := Replay(s.commands);
      && e.refused == 0
      && e.active == s.activeTabId
      && (forall id :: id in e.live <==> IsLoaded(s, id))
      && (forall id :: id in e.suspended <==> HasTab(s.tabs, id) && s.tabs[IndexOf(s.tabs, id)].lifecycle == Suspended)
      && (forall id :: id in e.private <==> IsLoaded(s, id) && s.tabs[IndexOf(s.tabs, id)].isEphemeral)
  {
    RunKeeps(EMPTY_SESSION, ops);
    var s := Run(EMPTY_SESSION, ops);
    forall id, v ensures id in IdsOf(s.tabs, v) <==> HasTab(s.tabs, id) && InView(s.tabs[IndexOf(s.tabs, id)], v) {
      var k := IndexOf(s.tabs, id);
      if k < |s.tabs| {
        IdsAt(s.tabs, k);
      }
    }
  }

  // In every reachable state ids are unique, exactly the session's active tab is marked Active, and
  // the closed-tab stack holds at most 25 records, none of them blank.
  lemma {:induction false} LifecycleSafety(ops: seq<SessionOp>)
    ensures var s := Run(EMPTY_SESSION, ops);
      && UniqueIds(s.tabs)
      && (forall i | 0 <= i < |s.tabs| :: s.tabs[i].lifecycle == Active <==> s.activeTabId == Some(s.tabs[i].id))
      && (s.activeTabId.Some? ==> HasTab(s.tabs, s.activeTabId.value))
      && |s.closedTabs| <= 25
      && (forall i | 0 <= i < |s.closedTabs| :: !IsBlankOrNewTabUrl(s.closedTabs[i].url))
  {
    RunKeeps(EMPTY_SESSION, ops);
  }

  // ---------- A non-empty session shows a tab ----------

  predicate ShowsSomething(s: Session) {
    s.tabs != [] ==> s.activeTabId.Some?
  }

  lemma StepShows(s: Session, op: SessionOp)
    requires Valid(s) && ShowsSomething(s)
    requires op.DoClose? ==> op.policy == ActivateFallback
    ensures ShowsSomething(Step(s, op))
  {
    hide Valid, Remembered, ScanLeft, OpeningUrl, Demoted, VisibleIndices, NextPosition;
  }

  // With the default close policy a session that has tabs always has an active one.
  lemma {:induction false} AlwaysAnActiveTab(ops: seq<SessionOp>)
    requires forall i | 0 <= i < |ops| :: ops[i].DoClose? ==> ops[i].policy == ActivateFallback
    ensures ShowsSomething(Run(EMPTY_SESSION, ops))
  {
    RunShows(EMPTY_SESSION, ops);
  }

  lemma {:induction false} RunShows(s: Session, ops: seq<SessionOp>)
    requires Valid(s) && ShowsSomething(s)
    requires forall i | 0 <= i < |ops| :: ops[i].DoClose? ==> ops[i].policy == ActivateFallback
    ensures ShowsSomething(Run(s, ops))
    decreases |ops|
  {
    if ops != [] {
      StepKeeps(s, ops[0]);
      StepShows(s, ops[0]);
      RunShows(Step(s, ops[0]), ops[1..]);
    }
  }
}
