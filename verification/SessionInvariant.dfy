/** What holds after every BrowserSession call: the lifecycle invariant and the
    agreement of the session with a synchronous engine that replays its commands. */
module SessionInvariant {
  import opened Common
  import opened Tabs
  import opened SessionSpec

  // ---------- The lifecycle invariant ----------

  ghost predicate WellFormedTabs(tabs: seq<Tab>, active: Option<TabId>) {
    && UniqueIds(tabs)
    && (forall i | 0 <= i < |tabs| :: tabs[i].id != "")
    && (forall i | 0 <= i < |tabs| :: tabs[i].lifecycle == Active <==> active == Some(tabs[i].id))
    && (active.Some? ==> HasTab(tabs, active.value))
  }

  ghost predicate WellFormedRecords(closed: seq<ClosedTabRecord>) {
    && |closed| <= MAX_CLOSED_TABS
    && (forall i | 0 <= i < |closed| :: !IsBlankOrNewTabUrl(closed[i].url))
  }

  ghost predicate WellFormed(s: Session) {
    WellFormedTabs(s.tabs, s.activeTabId) && WellFormedRecords(s.closedTabs)
  }

  // ---------- The abstract engine ----------

  // What a tab was asked to load, or which way to go in its history.
  datatype Request = ToUrl(id: TabId, url: string) | InHistory(id: TabId, direction: HistoryCommand)

  /** A synchronous engine: the tabs it holds, which of them are private and which are
      suspended, the tab it shows, its ephemeral mode, what it was asked for in order, and how
      many commands it had to refuse. */
  datatype Engine = Engine(
    live: set<TabId>,
    private: set<TabId>,
    suspended: set<TabId>,
    active: Option<TabId>,
    ephemeralMode: bool,
    asked: seq<Request>,
    refused: nat)

  const NEW_ENGINE := Engine({}, {}, {}, None, false, [], 0)

  // A command makes sense only for a live tab (a second close is harmless), only on an awake tab
  // when it shows or navigates it, and the private context may go only when no private tab is left.
  predicate Accepts(e: Engine, c: EngineCommand) {
    match c
    case Create(id, _) => id !in e.live
    case Close(_) => true
    case Activate(id) => id in e.live && id !in e.suspended
    case NavigateTo(id, _) => id in e.live && id !in e.suspended
    case History(id, _) => id in e.live && id !in e.suspended
    case Suspend(id) => id in e.live && id !in e.suspended && e.active != Some(id)
    case Resume(id) => id in e.suspended
    case SetEphemeralMode(_) => true
    case PurgeEphemeralContext => e.private == {} && !e.ephemeralMode
  }

  function Execute(e: Engine, c: EngineCommand): Engine {
    if !Accepts(e, c) then e.(refused := e.refused + 1)
    else
      match c
      case Create(id, isEphemeral) =>
        e.(live := e.live + {id}, private := if isEphemeral then e.private + {id} else e.private)
      case Close(id) =>
        e.(live := e.live - {id}, private := e.private - {id}, suspended := e.suspended - {id},
           active := if e.active == Some(id) then None else e.active)
      case Activate(id) => e.(active := Some(id))
      case NavigateTo(id, url) => e.(asked := e.asked + [ToUrl(id, url)])
      case History(id, direction) => e.(asked := e.asked + [InHistory(id, direction)])
      case Suspend(id) => e.(suspended := e.suspended + {id})
      case Resume(id) => e.(suspended := e.suspended - {id})
      case SetEphemeralMode(enabled) => e.(ephemeralMode := enabled)
      case PurgeEphemeralContext => e
  }

  function Replay(commands: seq<EngineCommand>): Engine {
    if commands == [] then NEW_ENGINE
    else Execute(Replay(commands[..|commands| - 1]), commands[|commands| - 1])
  }

  lemma ReplaySnoc(commands: seq<EngineCommand>, c: EngineCommand)
    ensures Replay(commands + [c]) == Execute(Replay(commands), c)
  {
    assert (commands + [c])[..|commands|] == commands;
  }

  // ---------- Reading the engine state off the session ----------

  // The three sets of tabs an engine keeps.
  datatype View = LiveTabs | PrivateTabs | SuspendedTabs

  predicate InView(t: Tab, v: View) {
    match v
    case LiveTabs => t.lifecycle != Discarded
    case PrivateTabs => t.lifecycle != Discarded && t.isEphemeral
    case SuspendedTabs => t.lifecycle == Suspended
  }

  function IdsOf(tabs: seq<Tab>, v: View): set<TabId> {
    set i | 0 <= i < |tabs| && InView(tabs[i], v) :: tabs[i].id
  }

  // The engine shows exactly what the tab list says and has refused nothing.
  ghost predicate Shows(e: Engine, tabs: seq<Tab>, active: Option<TabId>) {
    && e.live == IdsOf(tabs, LiveTabs)
    && e.private == IdsOf(tabs, PrivateTabs)
    && e.suspended == IdsOf(tabs, SuspendedTabs)
    && e.active == active
    && e.refused == 0
  }

  ghost predicate EngineAgrees(s: Session) {
    Shows(Replay(s.commands), s.tabs, s.activeTabId)
  }

  ghost predicate Valid(s: Session) {
    WellFormed(s) && EngineAgrees(s)
  }

  lemma ValidIsUnique(s: Session)
    requires Valid(s)
    ensures UniqueIds(s.tabs)
  {
  }

  // ---------- How the id sets follow the three list updates ----------

  lemma IdsAfterUpdate(tabs: seq<Tab>, i: nat, t: Tab, v: View)
    requires UniqueIds(tabs) && i < |tabs| && t.id == tabs[i].id
    ensures IdsOf(tabs[i := t], v) == if InView(t, v) then IdsOf(tabs, v) + {t.id} else IdsOf(tabs, v) - {t.id}
  {
    var r := tabs[i := t];
    forall id | id in IdsOf(tabs, v) && id != t.id ensures id in IdsOf(r, v) {
      var j :| 0 <= j < |tabs| && InView(tabs[j], v) && tabs[j].id == id;
      assert r[j] == tabs[j];
    }
    forall id | id in IdsOf(r, v) && id != t.id ensures id in IdsOf(tabs, v) {
      var j :| 0 <= j < |r| && InView(r[j], v) && r[j].id == id;
      assert r[j] == tabs[j];
    }
    assert r[i] == t;
  }

  lemma IdsAfterAppend(tabs: seq<Tab>, t: Tab, v: View)
    ensures IdsOf(tabs + [t], v) == if InView(t, v) then IdsOf(tabs, v) + {t.id} else IdsOf(tabs, v)
  {
    var r := tabs + [t];
    forall id | id in IdsOf(tabs, v) ensures id in IdsOf(r, v) {
      var j :| 0 <= j < |tabs| && InView(tabs[j], v) && tabs[j].id == id;
      assert r[j] == tabs[j];
    }
    assert r[|tabs|] == t;
  }

  lemma IdsAfterRemoval(tabs: seq<Tab>, i: nat, v: View)
    requires UniqueIds(tabs) && i < |tabs|
    ensures IdsOf(WithoutIndex(tabs, i), v) == IdsOf(tabs, v) - {tabs[i].id}
  {
    var r := WithoutIndex(tabs, i);
    forall id | id in IdsOf(tabs, v) && id != tabs[i].id ensures id in IdsOf(r, v) {
      var j :| 0 <= j < |tabs| && InView(tabs[j], v) && tabs[j].id == id;
      assert r[if j < i then j else j - 1] == tabs[j];
    }
    forall id | id in IdsOf(r, v) ensures id in IdsOf(tabs, v) && id != tabs[i].id {
      var j :| 0 <= j < |r| && InView(r[j], v) && r[j].id == id;
      assert r[j] == tabs[if j < i then j else j + 1];
    }
  }

  lemma IdsAt(tabs: seq<Tab>, i: nat)
    requires UniqueIds(tabs) && i < |tabs|
    ensures forall v :: tabs[i].id in IdsOf(tabs, v) <==> InView(tabs[i], v)
  {
  }

  // Replacing tab i moves its id in or out of each of the engine's sets.
  lemma ShowsAfterUpdate(e: Engine, tabs: seq<Tab>, active: Option<TabId>, i: nat, t: Tab, e': Engine)
    requires Shows(e, tabs, active) && UniqueIds(tabs) && i < |tabs| && t.id == tabs[i].id
    requires e'.live == if InView(t, LiveTabs) then e.live + {t.id} else e.live - {t.id}
    requires e'.private == if InView(t, PrivateTabs) then e.private + {t.id} else e.private - {t.id}
    requires e'.suspended == if InView(t, SuspendedTabs) then e.suspended + {t.id} else e.suspended - {t.id}
    requires e'.refused == 0
    ensures Shows(e', tabs[i := t], e'.active)
  {
    IdsAfterUpdate(tabs, i, t, LiveTabs);
    IdsAfterUpdate(tabs, i, t, PrivateTabs);
    IdsAfterUpdate(tabs, i, t, SuspendedTabs);
  }

  // ---------- Demotion, waking and activation ----------

  lemma DemotedWellFormed(tabs: seq<Tab>, active: Option<TabId>)
    requires WellFormedTabs(tabs, active)
    ensures WellFormedTabs(Demoted(tabs, active), None)
    ensures forall i | 0 <= i < |tabs| :: tabs[i].lifecycle != Active ==> Demoted(tabs, active)[i] == tabs[i]
  {
    var r := Demoted(tabs, active);
    assert forall i | 0 <= i < |r| :: r[i].id == tabs[i].id;
  }

  // Demoting the active tab leaves its engine surface alone.
  lemma DemotedShows(e: Engine, tabs: seq<Tab>, active: Option<TabId>)
    requires WellFormedTabs(tabs, active) && Shows(e, tabs, active)
    ensures Shows(e, Demoted(tabs, active), active)
  {
    if active.Some? {
      var i := IndexOf(tabs, active.value);
      IdsAt(tabs, i);
      ShowsAfterUpdate(e, tabs, active, i, tabs[i].(lifecycle := Background), e);
    }
  }

  lemma MadeActiveWellFormed(s: Session, i: nat)
    requires i < |s.tabs| && WellFormedTabs(s.tabs, None)
    ensures var r := MadeActive(s, i); WellFormedTabs(r.tabs, r.activeTabId)
  {
    var r := MadeActive(s, i);
    assert r.tabs[i].id == r.activeTabId.value;
    assert forall j | 0 <= j < |r.tabs| :: r.tabs[j].id == s.tabs[j].id;
  }

  // Suspending, resuming, discarding and re-creating a tab: the command matches the lifecycle change.
  ghost predicate Transition(t: Tab, l: TabLifecycle, c: EngineCommand) {
    match c
    case Suspend(id) => id == t.id && t.lifecycle == Background && l == Suspended
    case Resume(id) => id == t.id && t.lifecycle == Suspended && l == Background
    case Close(id) => id == t.id && (t.lifecycle == Background || t.lifecycle == Suspended) && l == Discarded
    case Create(id, p) => id == t.id && p == t.isEphemeral && t.lifecycle == Discarded && l == Background
    case _ => false
  }

  lemma TransitionShows(e: Engine, tabs: seq<Tab>, shown: Option<TabId>, i: nat, l: TabLifecycle, c: EngineCommand)
    requires UniqueIds(tabs) && i < |tabs| && Shows(e, tabs, shown)
    requires Transition(tabs[i], l, c)
    requires c.Suspend? || c.Close? ==> shown != Some(tabs[i].id)
    ensures Shows(Execute(e, c), tabs[i := tabs[i].(lifecycle := l)], shown)
  {
    IdsAt(tabs, i);
    ShowsAfterUpdate(e, tabs, shown, i, tabs[i].(lifecycle := l), Execute(e, c));
  }

  // In the engine, a woken tab is an awake tab in the background.
  lemma WokenShows(s: Session, i: nat, shown: Option<TabId>)
    requires i < |s.tabs| && WellFormedTabs(s.tabs, None)
    requires Shows(Replay(s.commands), s.tabs, shown)
    ensures Shows(Replay(Woken(s, i).commands), s.tabs[i := s.tabs[i].(lifecycle := Background)], shown)
  {
    var t := s.tabs[i];
    match t.lifecycle {
      case Discarded =>
        ReplaySnoc(s.commands, Create(t.id, t.isEphemeral));
        TransitionShows(Replay(s.commands), s.tabs, shown, i, Background, Create(t.id, t.isEphemeral));
      case Suspended =>
        ReplaySnoc(s.commands, Resume(t.id));
        TransitionShows(Replay(s.commands), s.tabs, shown, i, Background, Resume(t.id));
      case Background =>
        assert s.tabs[i := t.(lifecycle := Background)] == s.tabs;
      case Active =>
    }
  }

  // Waking tab i and showing it, from a list in which no tab is marked active.
  lemma WokenAndActive(s: Session, i: nat, shown: Option<TabId>)
    requires i < |s.tabs| && WellFormedTabs(s.tabs, None)
    requires Shows(Replay(s.commands), s.tabs, shown)
    ensures EngineAgrees(MadeActive(Woken(s, i), i))
  {
    hide IdsOf;
    var w := Woken(s, i);
    var r := MadeActive(w, i);
    var awake := s.tabs[i := s.tabs[i].(lifecycle := Background)];
    WokenShows(s, i, shown);
    ReplaySnoc(w.commands, Activate(s.tabs[i].id));
    assert UniqueIds(awake) by {
      assert forall j | 0 <= j < |awake| :: awake[j].id == s.tabs[j].id;
    }
    IdsAt(awake, i);
    ShowsAfterUpdate(Replay(w.commands), awake, shown, i, r.tabs[i], Replay(r.commands));
    assert awake[i := r.tabs[i]] == r.tabs;
  }

  // ---------- One lemma per call ----------

  lemma OpenWellFormed(s: Session, tab: Tab, activate: bool)
    requires WellFormed(s)
    ensures WellFormed(AfterOpen(s, tab, activate))
  {
    if Opens(s, tab) {
      var r := AfterOpen(s, tab, activate);
      DemotedWellFormed(s.tabs, s.activeTabId);
      var n := |s.tabs|;
      assert r.tabs[n].id == tab.id;
      assert forall j | 0 <= j < n :: r.tabs[j].id == s.tabs[j].id && s.tabs[j].id != tab.id;
      if s.activeTabId.Some? {
        var a := IndexOf(s.tabs, s.activeTabId.value);
        assert r.tabs[a].id == s.activeTabId.value;
      }
    }
  }

  lemma CreateShows(e: Engine, tabs: seq<Tab>, active: Option<TabId>, t: Tab)
    requires Shows(e, tabs, active) && !HasTab(tabs, t.id) && (t.lifecycle == Active || t.lifecycle == Background)
    ensures var e' := Execute(e, Create(t.id, t.isEphemeral));
      Shows(e', tabs + [t], active) && Shows(Execute(e', Activate(t.id)), tabs + [t], Some(t.id))
  {
    IdsAfterAppend(tabs, t, LiveTabs);
    IdsAfterAppend(tabs, t, PrivateTabs);
    IdsAfterAppend(tabs, t, SuspendedTabs);
    assert forall v :: t.id !in IdsOf(tabs, v);
  }

  lemma OpenAgrees(s: Session, tab: Tab, activate: bool)
    requires Valid(s)
    ensures EngineAgrees(AfterOpen(s, tab, activate))
  {
    hide IdsOf, Execute, Demoted, OpeningUrl, WellFormedTabs, WellFormedRecords;
    if Opens(s, tab) {
      var active := s.tabs == [] || activate;
      var base := if active then Demoted(s.tabs, s.activeTabId) else s.tabs;
      assert !HasTab(base, tab.id) by {
        assert forall j | 0 <= j < |base| :: base[j].id == s.tabs[j].id;
      }
      DemotedShows(Replay(s.commands), s.tabs, s.activeTabId);
      CreateShows(Replay(s.commands), base, s.activeTabId, OpenedTab(tab, active, s.lastActivated + 1));
      ReplaySnoc(s.commands, Create(tab.id, tab.isEphemeral));
      ReplaySnoc(s.commands + [Create(tab.id, tab.isEphemeral)], Activate(tab.id));
    }
  }

  lemma OpenKeeps(s: Session, tab: Tab, activate: bool)
    requires Valid(s)
    ensures Valid(AfterOpen(s, tab, activate))
  {
    OpenWellFormed(s, tab, activate);
    OpenAgrees(s, tab, activate);
  }

  lemma RemovalWellFormed(tabs: seq<Tab>, active: Option<TabId>, i: nat)
    requires WellFormedTabs(tabs, active) && i < |tabs|
    ensures WellFormedTabs(WithoutIndex(tabs, i), if active == Some(tabs[i].id) then None else active)
  {
    var r := WithoutIndex(tabs, i);
    assert forall j | 0 <= j < |r| :: r[j] == tabs[if j < i then j else j + 1];
    if active.Some? && active != Some(tabs[i].id) {
      var a := IndexOf(tabs, active.value);
      assert r[if a < i then a else a - 1] == tabs[a];
    }
  }

  lemma RemovalAgrees(s: Session, i: nat)
    requires Valid(s) && i < |s.tabs|
    ensures Shows(Replay(s.commands + [Close(s.tabs[i].id)]), WithoutIndex(s.tabs, i),
                  if s.activeTabId == Some(s.tabs[i].id) then None else s.activeTabId)
  {
    IdsAfterRemoval(s.tabs, i, LiveTabs);
    IdsAfterRemoval(s.tabs, i, PrivateTabs);
    IdsAfterRemoval(s.tabs, i, SuspendedTabs);
    ReplaySnoc(s.commands, Close(s.tabs[i].id));
  }

  lemma WakingKeeps(s: Session, k: nat)
    requires Valid(s) && s.activeTabId.None? && k < |s.tabs|
    ensures Valid(MadeActive(Woken(s, k), k))
  {
    hide IdsOf, Replay;
    MadeActiveWellFormed(Woken(s, k), k);
    WokenAndActive(s, k, None);
  }

  lemma FallbackKeeps(s: Session, preferred: nat)
    requires Valid(s) && s.activeTabId.None?
    ensures Valid(AfterFallback(s, preferred))
  {
    hide Valid, ScanLeft, MadeActive, Woken;
    if s.tabs != [] {
      WakingKeeps(s, ScanLeft(s.tabs, Min(preferred, |s.tabs| - 1), 0));
    }
  }

  lemma RememberedKeep(closed: seq<ClosedTabRecord>, t: Tab)
    requires WellFormedRecords(closed)
    ensures WellFormedRecords(Remembered(closed, t))
  {
  }

  lemma RemovedKeeps(s: Session, i: nat)
    requires Valid(s) && i < |s.tabs|
    ensures Valid(Removed(s, i))
  {
    hide IdsOf, Replay, WellFormedTabs, Remembered;
    RemovalWellFormed(s.tabs, s.activeTabId, i);
    RemovalAgrees(s, i);
    RememberedKeep(s.closedTabs, s.tabs[i]);
  }

  lemma CloseKeeps(s: Session, id: TabId, policy: CloseActivationPolicy)
    requires Valid(s)
    ensures Valid(AfterClose(s, id, policy))
  {
    hide Valid, AfterFallback;
    var i := IndexOf(s.tabs, id);
    if i < |s.tabs| {
      RemovedKeeps(s, i);
      if s.activeTabId == Some(id) && policy == ActivateFallback {
        FallbackKeeps(Removed(s, i), i);
      }
    }
  }

  lemma UnstackedKeeps(s: Session, k: nat)
    requires Valid(s) && 0 < k <= |s.closedTabs|
    ensures Valid(Unstacked(s, k))
  {
    hide IdsOf, Replay, WellFormedTabs;
    var u := Unstacked(s, k);
    assert forall j | 0 <= j < |u.closedTabs| :: u.closedTabs[j] == s.closedTabs[if j < k - 1 then j else j + 1];
  }

  lemma ReopenKeeps(s: Session, mode: ClosedTabMode)
    requires Valid(s)
    ensures Valid(AfterReopen(s, mode))
  {
    hide AfterOpen, RestoredTab, Unstacked, Valid;
    var k := NewestMatch(s.closedTabs, mode);
    if k > 0 {
      UnstackedKeeps(s, k);
      OpenKeeps(Unstacked(s, k), RestoredTab(s.closedTabs[k - 1], s.restored + 1), true);
    }
  }

  lemma {:induction false} PersistentRecordsKept(closed: seq<ClosedTabRecord>)
    ensures |PersistentRecords(closed)| <= |closed|
    ensures forall x | x in PersistentRecords(closed) :: x in closed && !x.isEphemeral
  {
    if closed != [] {
      PersistentRecordsKept(closed[..|closed| - 1]);
    }
  }

  lemma PurgeClosedKeeps(s: Session)
    requires Valid(s)
    ensures Valid(AfterPurgeClosed(s))
  {
    hide IdsOf, Replay, WellFormedTabs, PersistentRecords;
    PersistentRecordsKept(s.closedTabs);
    var r := PersistentRecords(s.closedTabs);
    assert forall i | 0 <= i < |r| :: r[i] in r;
  }

  lemma ActivateKeeps(s: Session, id: TabId)
    requires Valid(s)
    ensures Valid(AfterActivate(s, id))
  {
    var i := IndexOf(s.tabs, id);
    if i < |s.tabs| && s.activeTabId != Some(id) {
      DemotedWellFormed(s.tabs, s.activeTabId);
      DemotedShows(Replay(s.commands), s.tabs, s.activeTabId);
      var demoted := s.(tabs := Demoted(s.tabs, s.activeTabId));
      assert s.tabs[i].lifecycle != Active && demoted.tabs[i] == s.tabs[i];
      assert Woken(demoted, i) == Woken(s, i).(tabs := demoted.tabs);
      MadeActiveWellFormed(Woken(demoted, i), i);
      WokenAndActive(demoted, i, s.activeTabId);
    }
  }

  lemma CycleKeeps(s: Session, forward: bool, filter: Tab -> bool)
    requires Valid(s)
    ensures Valid(AfterCycle(s, forward, filter))
  {
    hide Valid, AfterActivate;
    var k := CycleTarget(s.tabs, s.activeTabId, forward, filter);
    if k < |s.tabs| {
      ActivateKeeps(s, s.tabs[k].id);
    }
  }

  // Changing one tab without changing its id, or whether it is the active one.
  lemma UpdateWellFormed(tabs: seq<Tab>, active: Option<TabId>, i: nat, t: Tab)
    requires WellFormedTabs(tabs, active) && i < |tabs|
    requires t.id == tabs[i].id && (t.lifecycle == Active <==> tabs[i].lifecycle == Active)
    ensures WellFormedTabs(tabs[i := t], active)
  {
    var r := tabs[i := t];
    assert forall j | 0 <= j < |r| :: r[j].id == tabs[j].id;
    if active.Some? {
      assert r[IndexOf(tabs, active.value)].id == active.value;
    }
  }

  // A tab update that keeps id, privacy flag and lifecycle is invisible to the engine.
  lemma QuietUpdateKeeps(s: Session, i: nat, t: Tab)
    requires Valid(s) && i < |s.tabs|
    requires t.id == s.tabs[i].id && t.isEphemeral == s.tabs[i].isEphemeral && t.lifecycle == s.tabs[i].lifecycle
    ensures Valid(s.(tabs := s.tabs[i := t]))
  {
    UpdateWellFormed(s.tabs, s.activeTabId, i, t);
    IdsAt(s.tabs, i);
    ShowsAfterUpdate(Replay(s.commands), s.tabs, s.activeTabId, i, t, Replay(s.commands));
  }

  // Suspend, resume and discard: one command and one lifecycle change of a tab that is not active.
  lemma LifecycleKeeps(s: Session, i: nat, l: TabLifecycle, c: EngineCommand)
    requires Valid(s) && i < |s.tabs|
    requires Transition(s.tabs[i], l, c) && !c.Create?
    ensures Valid(WithLifecycle(Emit(s, c), i, l))
  {
    UpdateWellFormed(s.tabs, s.activeTabId, i, s.tabs[i].(lifecycle := l));
    ReplaySnoc(s.commands, c);
    TransitionShows(Replay(s.commands), s.tabs, s.activeTabId, i, l, c);
  }

  lemma PreparedKeeps(s: Session, i: nat)
    requires Valid(s) && i < |s.tabs|
    ensures Valid(Prepared(s, i))
    ensures Prepared(s, i).tabs[i].id == s.tabs[i].id
    ensures Prepared(s, i).tabs[i].lifecycle != Suspended
    ensures s.tabs[i].lifecycle != Discarded ==> Prepared(s, i).tabs[i].lifecycle != Discarded
  {
    if s.tabs[i].lifecycle == Suspended {
      LifecycleKeeps(s, i, Background, Resume(s.tabs[i].id));
    }
  }

  // A request to a loaded, awake tab leaves the engine's tabs alone and is accepted.
  lemma CommandKeeps(s: Session, i: nat, c: EngineCommand)
    requires Valid(s) && i < |s.tabs| && (s.tabs[i].lifecycle == Active || s.tabs[i].lifecycle == Background)
    requires (c.NavigateTo? || c.History?) && c.id == s.tabs[i].id
    ensures Valid(Emit(s, c))
  {
    ReplaySnoc(s.commands, c);
    IdsAt(s.tabs, i);
  }

  lemma NavigateKeeps(s: Session, id: TabId, url: string)
    requires Valid(s)
    ensures Valid(AfterNavigate(s, id, url))
  {
    if url != "" && IsLoaded(s, id) {
      var i := IndexOf(s.tabs, id);
      PreparedKeeps(s, i);
      var p := Prepared(s, i);
      var t := p.tabs[i].(pendingUrl := Some(url), navigationState := Requested,
        lastError := None, rendererCrashed := false);
      QuietUpdateKeeps(p, i, t);
      CommandKeeps(p.(tabs := p.tabs[i := t]), i, NavigateTo(id, url));
    }
  }

  lemma HistoryKeeps(s: Session, id: TabId, command: HistoryCommand)
    requires Valid(s)
    ensures Valid(AfterHistory(s, id, command))
  {
    if IsLoaded(s, id) {
      var i := IndexOf(s.tabs, id);
      PreparedKeeps(s, i);
      CommandKeeps(Prepared(s, i), i, History(id, command));
    }
  }

  lemma SuspendKeeps(s: Session, id: TabId)
    requires Valid(s)
    ensures Valid(AfterSuspend(s, id))
  {
    var i := IndexOf(s.tabs, id);
    if CanUnload(s, id) && s.tabs[i].lifecycle != Suspended {
      LifecycleKeeps(s, i, Suspended, Suspend(id));
    }
  }

  lemma ResumeKeeps(s: Session, id: TabId)
    requires Valid(s)
    ensures Valid(AfterResume(s, id))
  {
    if IsLoaded(s, id) {
      PreparedKeeps(s, IndexOf(s.tabs, id));
    }
  }

  lemma DiscardKeeps(s: Session, id: TabId)
    requires Valid(s)
    ensures Valid(AfterDiscard(s, id))
  {
    if CanUnload(s, id) {
      LifecycleKeeps(s, IndexOf(s.tabs, id), Discarded, Close(id));
    }
  }

  lemma EventKeeps(s: Session, e: EngineEvent)
    requires Valid(s)
    ensures Valid(AfterEvent(s, e))
  {
    if IsLoaded(s, e.tabId) {
      var i := IndexOf(s.tabs, e.tabId);
      QuietUpdateKeeps(s, i, Updated(s.tabs[i], e));
    }
  }
}
