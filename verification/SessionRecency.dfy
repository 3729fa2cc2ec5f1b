/** Activation numbers are recency: over any run, the numbers the tabs carry order the
    loaded tabs exactly as the last activations in the command log do. */
module SessionRecency {
  import opened Common
  import opened Tabs
  import opened SessionSpec
  import opened SessionInvariant
  import opened SessionRuns

  // When the engine last showed the surface that `id` has now: one past the position of that command
  // in the log, or 0 when the surface was never shown.
  function LastShown(log: seq<EngineCommand>, id: TabId): (n: nat)
    ensures n <= |log|
  {
    if log == [] then 0
    else
      match log[|log| - 1]
      case Activate(x) => if x == id then |log| else LastShown(log[..|log| - 1], id)
      case Create(x, _) => if x == id then 0 else LastShown(log[..|log| - 1], id)
      case Close(x) => if x == id then 0 else LastShown(log[..|log| - 1], id)
      case _ => LastShown(log[..|log| - 1], id)
  }

  predicate Loaded(t: Tab) {
    t.lifecycle != Discarded
  }

  // One tab's number is in range, and 0 exactly when its surface was never shown.
  predicate Stamped(t: Tab, last: nat, log: seq<EngineCommand>) {
    && t.lastActivatedSequence <= last
    && (Loaded(t) ==> (t.lastActivatedSequence == 0 <==> LastShown(log, t.id) == 0))
  }

  // Two loaded tabs are numbered in the order they were last shown.
  predicate InStep(a: Tab, b: Tab, log: seq<EngineCommand>) {
    Loaded(a) && Loaded(b) ==>
      (a.lastActivatedSequence < b.lastActivatedSequence <==> LastShown(log, a.id) < LastShown(log, b.id))
  }

  // The activation numbers of all tabs but number x agree with the log.
  ghost predicate TracksExcept(tabs: seq<Tab>, last: nat, log: seq<EngineCommand>, x: nat) {
    && (forall i | 0 <= i < |tabs| && i != x :: Stamped(tabs[i], last, log))
    && (forall i, j {:trigger InStep(tabs[i], tabs[j], log)} |
          0 <= i < |tabs| && 0 <= j < |tabs| && i != x && j != x :: InStep(tabs[i], tabs[j], log))
  }

  ghost predicate Tracks(s: Session) {
    TracksExcept(s.tabs, s.lastActivated, s.commands, |s.tabs|)
  }

  predicate Resets(c: EngineCommand, id: TabId) {
    (c.Activate? || c.Create? || c.Close?) && c.id == id
  }

  lemma LastShownSnoc(log: seq<EngineCommand>, c: EngineCommand, id: TabId)
    ensures !Resets(c, id) ==> LastShown(log + [c], id) == LastShown(log, id)
    ensures c == Activate(id) ==> LastShown(log + [c], id) == |log| + 1
    ensures Resets(c, id) && !c.Activate? ==> LastShown(log + [c], id) == 0
  {
    assert (log + [c])[..|log|] == log;
  }

  // A command about tab x, or about no tab's surface, leaves the others in step.
  lemma EmitTracks(tabs: seq<Tab>, last: nat, log: seq<EngineCommand>, x: nat, c: EngineCommand)
    requires TracksExcept(tabs, last, log, x)
    requires forall i | 0 <= i < |tabs| && i != x && Loaded(tabs[i]) :: !Resets(c, tabs[i].id)
    ensures TracksExcept(tabs, last, log + [c], x)
  {
    forall i | 0 <= i < |tabs| && i != x ensures Stamped(tabs[i], last, log + [c]) {
      LastShownSnoc(log, c, tabs[i].id);
      assert Stamped(tabs[i], last, log);
    }
    forall i, j | 0 <= i < |tabs| && 0 <= j < |tabs| && i != x && j != x
      ensures InStep(tabs[i], tabs[j], log + [c])
    {
      LastShownSnoc(log, c, tabs[i].id);
      LastShownSnoc(log, c, tabs[j].id);
      assert InStep(tabs[i], tabs[j], log);
    }
  }

  // Tabs that keep id and number, and are loaded only if they were before, stay in step.
  lemma SimilarTracks(tabs: seq<Tab>, last: nat, log: seq<EngineCommand>, x: nat, r: seq<Tab>)
    requires TracksExcept(tabs, last, log, x) && |r| == |tabs|
    requires forall i | 0 <= i < |tabs| && i != x :: r[i].id == tabs[i].id
               && r[i].lastActivatedSequence == tabs[i].lastActivatedSequence && (Loaded(r[i]) ==> Loaded(tabs[i]))
    ensures TracksExcept(r, last, log, x)
  {
    forall i | 0 <= i < |r| && i != x ensures Stamped(r[i], last, log) {
      assert Stamped(tabs[i], last, log);
    }
    forall i, j | 0 <= i < |r| && 0 <= j < |r| && i != x && j != x ensures InStep(r[i], r[j], log) {
      assert InStep(tabs[i], tabs[j], log);
    }
  }

  lemma MadeActiveTracks(s: Session, i: nat)
    requires i < |s.tabs| && UniqueIds(s.tabs)
    requires TracksExcept(s.tabs, s.lastActivated, s.commands, i)
    ensures Tracks(MadeActive(s, i))
  {
    var r := MadeActive(s, i);
    var c := Activate(s.tabs[i].id);
    EmitTracks(s.tabs, s.lastActivated, s.commands, i, c);
    LastShownSnoc(s.commands, c, s.tabs[i].id);
    forall j | 0 <= j < |r.tabs| ensures Stamped(r.tabs[j], r.lastActivated, r.commands) {
      assert j != i ==> Stamped(s.tabs[j], s.lastActivated, r.commands);
    }
    forall j, k | 0 <= j < |r.tabs| && 0 <= k < |r.tabs| ensures InStep(r.tabs[j], r.tabs[k], r.commands) {
      LastShownSnoc(s.commands, c, r.tabs[j].id);
      LastShownSnoc(s.commands, c, r.tabs[k].id);
      assert j != i ==> Stamped(s.tabs[j], s.lastActivated, r.commands);
      assert k != i ==> Stamped(s.tabs[k], s.lastActivated, r.commands);
      assert j != i && k != i ==> InStep(s.tabs[j], s.tabs[k], r.commands);
    }
  }

  lemma WokenTracks(s: Session, i: nat)
    requires i < |s.tabs| && UniqueIds(s.tabs) && Tracks(s)
    ensures TracksExcept(s.tabs, s.lastActivated, Woken(s, i).commands, i)
  {
    match s.tabs[i].lifecycle
    case Discarded => EmitTracks(s.tabs, s.lastActivated, s.commands, i, Create(s.tabs[i].id, s.tabs[i].isEphemeral));
    case Suspended => EmitTracks(s.tabs, s.lastActivated, s.commands, i, Resume(s.tabs[i].id));
    case _ =>
  }

  lemma RemovalUnique(tabs: seq<Tab>, i: nat)
    requires UniqueIds(tabs) && i < |tabs|
    ensures UniqueIds(WithoutIndex(tabs, i))
  {
    var r := WithoutIndex(tabs, i);
    assert forall j | 0 <= j < |r| :: r[j] == tabs[if j < i then j else j + 1];
  }

  lemma ActivateTracks(s: Session, id: TabId)
    requires UniqueIds(s.tabs) && Tracks(s)
    ensures Tracks(AfterActivate(s, id))
  {
    hide Stamped, InStep;
    var i := IndexOf(s.tabs, id);
    if i < |s.tabs| && s.activeTabId != Some(id) {
      var r := Woken(s, i).(tabs := Demoted(s.tabs, s.activeTabId));
      WokenTracks(s, i);
      SimilarTracks(s.tabs, s.lastActivated, r.commands, i, r.tabs);
      assert forall j | 0 <= j < |r.tabs| :: r.tabs[j].id == s.tabs[j].id;
      MadeActiveTracks(r, i);
    }
  }

  // A new surface that is not shown yet has number 0.
  lemma CreateTracks(s: Session, t: Tab)
    requires Tracks(s) && t.lastActivatedSequence == 0 && !HasTab(s.tabs, t.id)
    ensures TracksExcept(s.tabs + [t], s.lastActivated, s.commands + [Create(t.id, t.isEphemeral)], |s.tabs| + 1)
  {
    var c, r := Create(t.id, t.isEphemeral), s.tabs + [t];
    var log := s.commands + [c];
    EmitTracks(s.tabs, s.lastActivated, s.commands, |s.tabs|, c);
    LastShownSnoc(s.commands, c, t.id);
    hide LastShown;
    forall i | 0 <= i < |r| ensures Stamped(r[i], s.lastActivated, log) {
      assert i < |s.tabs| ==> r[i] == s.tabs[i];
    }
    forall i, j | 0 <= i < |r| && 0 <= j < |r| ensures InStep(r[i], r[j], log) {
      assert i < |s.tabs| ==> r[i] == s.tabs[i] && Stamped(s.tabs[i], s.lastActivated, log);
      assert j < |s.tabs| ==> r[j] == s.tabs[j] && Stamped(s.tabs[j], s.lastActivated, log);
      assert i < |s.tabs| && j < |s.tabs| ==> InStep(s.tabs[i], s.tabs[j], log);
    }
  }

  // The session between the creation of a surface and its activation.
  ghost function Created(s: Session, tab: Tab): Session {
    s.(tabs := Demoted(s.tabs, s.activeTabId) + [OpenedTab(tab, true, 0)],
       commands := s.commands + [Create(tab.id, tab.isEphemeral)])
  }

  lemma OpenIsCreateThenActivate(s: Session, tab: Tab)
    requires Opens(s, tab)
    ensures AfterOpen(s, tab, true) == MadeActive(Created(s, tab), |s.tabs|)
  {
    assert AfterOpen(s, tab, true).tabs == MadeActive(Created(s, tab), |s.tabs|).tabs;
  }

  lemma CreatedTracks(s: Session, tab: Tab)
    requires UniqueIds(s.tabs) && Tracks(s) && Opens(s, tab)
    ensures TracksExcept(Created(s, tab).tabs, s.lastActivated, Created(s, tab).commands, |s.tabs|)
    ensures UniqueIds(Created(s, tab).tabs)
  {
    hide Stamped, InStep;
    var r := Created(s, tab);
    var base := Demoted(s.tabs, s.activeTabId);
    EmitTracks(s.tabs, s.lastActivated, s.commands, |s.tabs|, Create(tab.id, tab.isEphemeral));
    SimilarTracks(s.tabs, s.lastActivated, r.commands, |s.tabs|, base);
    AppendTracks(base, s.lastActivated, r.commands, OpenedTab(tab, true, 0));
    assert forall j | 0 <= j < |s.tabs| :: r.tabs[j].id == s.tabs[j].id;
  }

  lemma AppendTracks(tabs: seq<Tab>, last: nat, log: seq<EngineCommand>, t: Tab)
    requires TracksExcept(tabs, last, log, |tabs|)
    ensures TracksExcept(tabs + [t], last, log, |tabs|)
  {
    hide Stamped, InStep;
    var r := tabs + [t];
    forall i | 0 <= i < |tabs| ensures Stamped(r[i], last, log) {
      assert r[i] == tabs[i];
    }
    forall i, j | 0 <= i < |tabs| && 0 <= j < |tabs| ensures InStep(r[i], r[j], log) {
      assert InStep(tabs[i], tabs[j], log);
    }
  }

  lemma OpenActiveTracks(s: Session, tab: Tab)
    requires UniqueIds(s.tabs) && Tracks(s) && Opens(s, tab)
    ensures Tracks(AfterOpen(s, tab, true))
  {
    CreatedTracks(s, tab);
    MadeActiveTracks(Created(s, tab), |s.tabs|);
    OpenIsCreateThenActivate(s, tab);
  }

  // A tab that opens in the background keeps the number its caller gave it.
  predicate OpensUnstamped(s: Session, tab: Tab, activate: bool) {
    Opens(s, tab) && s.tabs != [] && !activate ==> tab.lastActivatedSequence == 0
  }

  // Numbers stay recency exactly when that number is 0.
  lemma OpenTracksExactly(s: Session, tab: Tab, activate: bool)
    requires UniqueIds(s.tabs) && Tracks(s)
    ensures Tracks(AfterOpen(s, tab, activate)) <==> OpensUnstamped(s, tab, activate)
  {
    if Opens(s, tab) {
      if s.tabs == [] || activate {
        OpenActiveTracks(s, tab);
      } else if tab.lastActivatedSequence == 0 {
        CreateTracks(s, OpenedTab(tab, false, 0));
      } else {
        var r := AfterOpen(s, tab, activate);
        LastShownSnoc(s.commands, Create(tab.id, tab.isEphemeral), tab.id);
        assert !Stamped(r.tabs[|s.tabs|], r.lastActivated, r.commands);
      }
    }
  }

  // The loaded tabs are numbered in the order they were last shown: all that the discard order rests on.
  ghost predicate InOrder(s: Session) {
    forall i, j | 0 <= i < |s.tabs| && 0 <= j < |s.tabs| :: InStep(s.tabs[i], s.tabs[j], s.commands)
  }

  // The number that a background open brings is 0, or below that of every loaded tab.
  predicate OpensLowest(s: Session, tab: Tab, activate: bool) {
    Opens(s, tab) && s.tabs != [] && !activate && tab.lastActivatedSequence != 0 ==>
      forall i | 0 <= i < |s.tabs| && Loaded(s.tabs[i]) :: tab.lastActivatedSequence < s.tabs[i].lastActivatedSequence
  }

  // That order, which asks less than Tracks, is kept by an open exactly then.
  lemma OpenKeepsOrderExactly(s: Session, tab: Tab, activate: bool)
    requires UniqueIds(s.tabs) && Tracks(s)
    ensures InOrder(AfterOpen(s, tab, activate)) <==> OpensLowest(s, tab, activate)
  {
    if OpensUnstamped(s, tab, activate) {
      OpenTracksExactly(s, tab, activate);
    } else {
      StampedOrder(s, tab);
    }
  }

  lemma StampedOrder(s: Session, tab: Tab)
    requires UniqueIds(s.tabs) && Tracks(s) && Opens(s, tab) && s.tabs != [] && tab.lastActivatedSequence != 0
    ensures InOrder(AfterOpen(s, tab, false)) <==> OpensLowest(s, tab, false)
  {
    var r, c, n := AfterOpen(s, tab, false), Create(tab.id, tab.isEphemeral), |s.tabs|;
    EmitTracks(s.tabs, s.lastActivated, s.commands, n, c);
    LastShownSnoc(s.commands, c, tab.id);
    hide LastShown;
    assert r.commands == s.commands + [c];
    forall i | 0 <= i < n
      ensures r.tabs[i] == s.tabs[i] && Stamped(r.tabs[i], s.lastActivated, r.commands)
    {
      assert Stamped(s.tabs[i], s.lastActivated, r.commands);
    }
    if OpensLowest(s, tab, false) {
      forall i, j | 0 <= i < |r.tabs| && 0 <= j < |r.tabs|
        ensures InStep(r.tabs[i], r.tabs[j], r.commands)
      {
        assert i < n && j < n ==> InStep(s.tabs[i], s.tabs[j], r.commands);
      }
    } else {
      var i :| 0 <= i < n && Loaded(s.tabs[i]) && tab.lastActivatedSequence >= s.tabs[i].lastActivatedSequence;
      assert !InStep(r.tabs[i], r.tabs[n], r.commands) || !InStep(r.tabs[n], r.tabs[i], r.commands);
    }
  }

  lemma RemovalTracks(s: Session, i: nat)
    requires UniqueIds(s.tabs) && Tracks(s) && i < |s.tabs|
    ensures TracksExcept(WithoutIndex(s.tabs, i), s.lastActivated, s.commands + [Close(s.tabs[i].id)], |s.tabs| - 1)
  {
    hide Stamped, InStep;
    var log := s.commands + [Close(s.tabs[i].id)];
    EmitTracks(s.tabs, s.lastActivated, s.commands, i, Close(s.tabs[i].id));
    var rest := WithoutIndex(s.tabs, i);
    forall j | 0 <= j < |rest| ensures Stamped(rest[j], s.lastActivated, log) {
      assert rest[j] == s.tabs[if j < i then j else j + 1];
    }
    forall j, k | 0 <= j < |rest| && 0 <= k < |rest| ensures InStep(rest[j], rest[k], log) {
      var j', k' := if j < i then j else j + 1, if k < i then k else k + 1;
      assert rest[j] == s.tabs[j'] && rest[k] == s.tabs[k'] && InStep(s.tabs[j'], s.tabs[k'], log);
    }
  }

  lemma FallbackTracks(s: Session, preferred: nat)
    requires UniqueIds(s.tabs) && Tracks(s)
    ensures Tracks(AfterFallback(s, preferred))
  {
    if s.tabs != [] {
      var k := ScanLeft(s.tabs, Min(preferred, |s.tabs| - 1), 0);
      WokenTracks(s, k);
      MadeActiveTracks(Woken(s, k), k);
    }
  }

  lemma CloseTracks(s: Session, id: TabId, policy: CloseActivationPolicy)
    requires UniqueIds(s.tabs) && Tracks(s)
    ensures Tracks(AfterClose(s, id, policy))
  {
    hide TracksExcept, AfterFallback, Remembered;
    var i := IndexOf(s.tabs, id);
    if i < |s.tabs| {
      RemovalTracks(s, i);
      RemovalUnique(s.tabs, i);
      if s.activeTabId == Some(id) && policy == ActivateFallback {
        FallbackTracks(Removed(s, i), i);
      }
    }
  }

  lemma ReopenTracks(s: Session, mode: ClosedTabMode)
    requires UniqueIds(s.tabs) && Tracks(s)
    ensures Tracks(AfterReopen(s, mode))
  {
    hide TracksExcept, Decimal, AfterOpen;
    var k := NewestMatch(s.closedTabs, mode);
    if k > 0 {
      OpenTracksExactly(Unstacked(s, k), RestoredTab(s.closedTabs[k - 1], s.restored + 1), true);
    }
  }

  lemma CycleTracks(s: Session, forward: bool, filter: Tab -> bool)
    requires UniqueIds(s.tabs) && Tracks(s)
    ensures Tracks(AfterCycle(s, forward, filter))
  {
    hide Tracks, AfterActivate;
    var k := CycleTarget(s.tabs, s.activeTabId, forward, filter);
    if k < |s.tabs| {
      ActivateTracks(s, s.tabs[k].id);
    }
  }

  lemma PreparedTracks(s: Session, i: nat)
    requires Tracks(s) && i < |s.tabs|
    ensures Tracks(Prepared(s, i))
  {
    if s.tabs[i].lifecycle == Suspended {
      EmitTracks(s.tabs, s.lastActivated, s.commands, |s.tabs|, Resume(s.tabs[i].id));
      SimilarTracks(s.tabs, s.lastActivated, s.commands + [Resume(s.tabs[i].id)], |s.tabs|,
                    s.tabs[i := s.tabs[i].(lifecycle := Background)]);
    }
  }

  // Navigation commands reset nothing; they follow the preparation of the tab.
  lemma CommandTracks(s: Session, id: TabId, c: EngineCommand)
    requires Tracks(s) && IsLoaded(s, id) && (c.NavigateTo? || c.History?)
    ensures Tracks(Emit(Prepared(s, IndexOf(s.tabs, id)), c))
  {
    var p := Prepared(s, IndexOf(s.tabs, id));
    PreparedTracks(s, IndexOf(s.tabs, id));
    EmitTracks(p.tabs, p.lastActivated, p.commands, |p.tabs|, c);
  }

  lemma DiscardTracks(s: Session, id: TabId)
    requires UniqueIds(s.tabs) && Tracks(s)
    ensures Tracks(AfterDiscard(s, id))
  {
    if CanUnload(s, id) {
      var i := IndexOf(s.tabs, id);
      var r := s.tabs[i := s.tabs[i].(lifecycle := Discarded)];
      SimilarTracks(s.tabs, s.lastActivated, s.commands, |s.tabs|, r);
      EmitTracks(r, s.lastActivated, s.commands, |s.tabs|, Close(id));
    }
  }

  lemma NavigateTracks(s: Session, id: TabId, url: string)
    requires UniqueIds(s.tabs) && Tracks(s)
    ensures Tracks(AfterNavigate(s, id, url))
  {
    if url != "" && IsLoaded(s, id) {
      var p := Emit(Prepared(s, IndexOf(s.tabs, id)), NavigateTo(id, url));
      CommandTracks(s, id, NavigateTo(id, url));
      SimilarTracks(p.tabs, p.lastActivated, p.commands, |p.tabs|, AfterNavigate(s, id, url).tabs);
    }
  }

  lemma SuspendTracks(s: Session, id: TabId)
    requires UniqueIds(s.tabs) && Tracks(s)
    ensures Tracks(AfterSuspend(s, id))
  {
    EmitTracks(s.tabs, s.lastActivated, s.commands, |s.tabs|, Suspend(id));
    SimilarTracks(s.tabs, s.lastActivated, s.commands + [Suspend(id)], |s.tabs|, AfterSuspend(s, id).tabs);
  }

  lemma EventTracks(s: Session, e: EngineEvent)
    requires UniqueIds(s.tabs) && Tracks(s)
    ensures Tracks(AfterEvent(s, e))
  {
    if IsLoaded(s, e.tabId) {
      var i := IndexOf(s.tabs, e.tabId);
      SimilarTracks(s.tabs, s.lastActivated, s.commands, |s.tabs|, s.tabs[i := Updated(s.tabs[i], e)]);
    }
  }

  predicate StepUnstamped(s: Session, op: SessionOp) {
    op.DoOpen? ==> OpensUnstamped(s, op.tab, op.activate)
  }

  lemma StepTracksExactly(s: Session, op: SessionOp)
    requires Valid(s) && Tracks(s)
    ensures Tracks(Step(s, op)) <==> StepUnstamped(s, op)
  {
    hide Valid, AfterOpen, AfterClose, AfterReopen, AfterCycle, AfterActivate, AfterNavigate, AfterSuspend,
         AfterDiscard, AfterEvent, UniqueIds, AfterPurgeClosed, AfterHistory, AfterResume, Tracks;
    ValidIsUnique(s);
    match op
    case DoOpen(tab, activate) => OpenTracksExactly(s, tab, activate);
    case DoClose(id, policy) => CloseTracks(s, id, policy);
    case DoReopen(mode) => ReopenTracks(s, mode);
    case DoPurgeClosed => PlainStepTracks(s, op);
    case DoCycle(forward, filter) => CycleTracks(s, forward, filter);
    case DoActivate(id) => ActivateTracks(s, id);
    case DoNavigate(id, url) => NavigateTracks(s, id, url);
    case DoHistory(_, _) => PlainStepTracks(s, op);
    case DoSuspend(id) => SuspendTracks(s, id);
    case DoResume(_) => PlainStepTracks(s, op);
    case DoDiscard(id) => DiscardTracks(s, id);
    case DoEvent(event) => EventTracks(s, event);
  }

  lemma PlainStepTracks(s: Session, op: SessionOp)
    requires UniqueIds(s.tabs) && Tracks(s) && (op.DoPurgeClosed? || op.DoHistory? || op.DoResume?)
    ensures Tracks(Step(s, op))
  {
    hide UniqueIds;
    match op
    case DoPurgeClosed =>
    case DoHistory(id, command) => if IsLoaded(s, id) { CommandTracks(s, id, History(id, command)); }
    case DoResume(id) => if IsLoaded(s, id) { PreparedTracks(s, IndexOf(s.tabs, id)); }
  }

  // No step of the run opens a tab in the background with a number of the caller's.
  predicate RunUnstamped(s: Session, ops: seq<SessionOp>)
    decreases |ops|
  {
    ops == [] || (StepUnstamped(s, ops[0]) && RunUnstamped(Step(s, ops[0]), ops[1..]))
  }

  ghost predicate TracksThroughout(s: Session, ops: seq<SessionOp>)
    decreases |ops|
  {
    Tracks(s) && (ops != [] ==> TracksThroughout(Step(s, ops[0]), ops[1..]))
  }

  // Numbers are recency after every step of a run exactly when no step opens a tab in the background with
  // a number of the caller's.
  lemma {:induction false} RunTracksExactly(s: Session, ops: seq<SessionOp>)
    requires Valid(s) && Tracks(s)
    ensures TracksThroughout(s, ops) <==> RunUnstamped(s, ops)
    ensures RunUnstamped(s, ops) ==> Tracks(Run(s, ops)) && Valid(Run(s, ops))
    decreases |ops|
  {
    if ops != [] {
      hide Tracks, Valid, Step, StepUnstamped;
      StepTracksExactly(s, ops[0]);
      StepKeeps(s, ops[0]);
      if Tracks(Step(s, ops[0])) {
        RunTracksExactly(Step(s, ops[0]), ops[1..]);
      }
    }
  }

  // After any such run, a loaded tab with a smaller activation number was shown earlier, and one with
  // number 0 was never shown since its surface was created.
  lemma {:induction false} SequenceIsRecency(ops: seq<SessionOp>, i: nat, j: nat)
    requires RunUnstamped(EMPTY_SESSION, ops)
    requires var tabs := Run(EMPTY_SESSION, ops).tabs;
      i < |tabs| && j < |tabs| && Loaded(tabs[i]) && Loaded(tabs[j])
    ensures var s := Run(EMPTY_SESSION, ops);
      && (s.tabs[i].lastActivatedSequence < s.tabs[j].lastActivatedSequence
          <==> LastShown(s.commands, s.tabs[i].id) < LastShown(s.commands, s.tabs[j].id))
      && (s.tabs[i].lastActivatedSequence == 0 <==> LastShown(s.commands, s.tabs[i].id) == 0)
  {
    RunTracksExactly(EMPTY_SESSION, ops);
    var s := Run(EMPTY_SESSION, ops);
    assert InStep(s.tabs[i], s.tabs[j], s.commands) && Stamped(s.tabs[i], s.lastActivated, s.commands);
  }

  const SHOWN := NewTab("a", "https://a.test/", "A", None, false)
  const UNSEEN := NewTab("b", "https://b.test/", "B", None, false).(lastActivatedSequence := 9)

  // A tab that was never shown but opened in the background with number 9 passes for the most recent one.
  lemma StampedPassesForRecent()
    ensures var s := Run(EMPTY_SESSION, [DoOpen(SHOWN, true), DoOpen(UNSEEN, false)]);
      && |s.tabs| == 2 && Loaded(s.tabs[0]) && Loaded(s.tabs[1])
      && s.tabs[0].lastActivatedSequence < s.tabs[1].lastActivatedSequence
      && LastShown(s.commands, s.tabs[0].id) > 0 == LastShown(s.commands, s.tabs[1].id)
  {
    hide Step, Run, OpeningUrl;
    RunOfTwo(EMPTY_SESSION, DoOpen(SHOWN, true), DoOpen(UNSEEN, false));
    OpenedInTurn();
    var log := [Create("a", false)] + [Activate("a")];
    LastShownSnoc([Create("a", false)], Activate("a"), "a");
    LastShownSnoc(log, Create("b", false), "a");
    LastShownSnoc(log, Create("b", false), "b");
  }

  lemma OpenedInTurn()
    ensures Step(Step(EMPTY_SESSION, DoOpen(SHOWN, true)), DoOpen(UNSEEN, false))
         == EMPTY_SESSION.(tabs := [OpenedTab(SHOWN, true, 1), OpenedTab(UNSEEN, false, 0)], activeTabId := Some("a"),
                           lastActivated := 1,
                           commands := [Create("a", false)] + [Activate("a")] + [Create("b", false)])
  {
    hide OpenedTab;
    PlainUrls();
    var s1 := Step(EMPTY_SESSION, DoOpen(SHOWN, true));
    assert s1 == EMPTY_SESSION.(tabs := [OpenedTab(SHOWN, true, 1)], activeTabId := Some("a"), lastActivated := 1,
                                commands := [Create("a", false)] + [Activate("a")]) by {
      hide OpeningUrl;
    }
    FirstTab();
    hide OpeningUrl;
    assert !HasTab(s1.tabs, "b");
  }

  lemma FirstTab()
    ensures OpenedTab(SHOWN, true, 1).id == "a" && "a" != "b"
  {
  }

  lemma PlainUrls()
    ensures OpeningUrl(SHOWN) == SHOWN.url != "" && OpeningUrl(UNSEEN) == UNSEEN.url != ""
  {
    assert SHOWN.url[8] == 'a' && UNSEEN.url[8] == 'b' && LEGACY_PLACEHOLDER_URL[8] == 'e';
  }
}
