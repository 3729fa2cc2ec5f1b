/** What every BrowserSession call does, as functions from one session value to the
    next (src/core/session/browser_session.cpp).  The class in BrowserSession.dfy is
    proved against these functions; SessionRuns.dfy proves what they keep. */
module SessionSpec {
  import opened Common
  import opened Tabs

  datatype ClosedTabRecord = ClosedTabRecord(
    url: string,
    title: string,
    workspaceId: Option<WorkspaceId>,
    isEphemeral: bool)

  datatype ClosedTabMode = PersistentOnly | EphemeralOnly | Any

  datatype CloseActivationPolicy = ActivateFallback | DoNotActivateFallback

  // Commands the session and the privacy orchestrator send through the engine port.
  datatype EngineCommand =
    | Create(id: TabId, isEphemeral: bool)
    | Close(id: TabId)
    | Activate(id: TabId)
    | NavigateTo(id: TabId, url: string)
    | History(id: TabId, direction: HistoryCommand)
    | Suspend(id: TabId)
    | Resume(id: TabId)
    | SetEphemeralMode(enabled: bool)
    | PurgeEphemeralContext

  datatype HistoryCommand = GoBack | GoForward | Reload

  datatype EngineEvent =
    | NavigationStarted(tabId: TabId, url: string)
    | NavigationCommitted(tabId: TabId, url: string)
    | NavigationFailed(tabId: TabId, url: string, errorText: string)
    | TitleChanged(tabId: TabId, title: string)
    | RendererCrashed(tabId: TabId, reason: string)

  datatype Session = Session(
    tabs: seq<Tab>,
    closedTabs: seq<ClosedTabRecord>,
    activeTabId: Option<TabId>,
    lastActivated: nat,
    restored: nat,
    commands: seq<EngineCommand>)

  const EMPTY_SESSION := Session([], [], None, 0, 0, [])

  const MAX_CLOSED_TABS: nat := 25

  function Emit(s: Session, c: EngineCommand): Session {
    s.(commands := s.commands + [c])
  }

  // DemoteActiveTab
  function Demoted(tabs: seq<Tab>, active: Option<TabId>): (r: seq<Tab>)
    ensures |r| == |tabs|
    ensures forall i | 0 <= i < |tabs| :: r[i].id == tabs[i].id
  {
    if active.None? then tabs
    else
      var i := IndexOf(tabs, active.value);
      if i < |tabs| && tabs[i].lifecycle == Active then tabs[i := tabs[i].(lifecycle := Background)] else tabs
  }

  // Re-creates a discarded tab in the engine, resumes a suspended one.
  function Woken(s: Session, i: nat): Session
    requires i < |s.tabs|
  {
    match s.tabs[i].lifecycle
    case Discarded => Emit(s, Create(s.tabs[i].id, s.tabs[i].isEphemeral))
    case Suspended => Emit(s, Resume(s.tabs[i].id))
    case _ => s
  }

  // Marks tab i active, stamps it with the next activation number and tells the engine.
  function MadeActive(s: Session, i: nat): Session
    requires i < |s.tabs|
  {
    var t := s.tabs[i].(lifecycle := Active, lastActivatedSequence := s.lastActivated + 1);
    Emit(s.(tabs := s.tabs[i := t], activeTabId := Some(t.id), lastActivated := s.lastActivated + 1), Activate(t.id))
  }

  predicate Opens(s: Session, tab: Tab) {
    tab.id != "" && OpeningUrl(tab) != "" && !HasTab(s.tabs, tab.id)
  }

  // The tab as it enters the list; `stamp` is its activation number when it opens active.
  function OpenedTab(tab: Tab, active: bool, stamp: nat): Tab {
    tab.(url := OpeningUrl(tab),
         lifecycle := if active then Active else Background,
         lastActivatedSequence := if active then stamp else tab.lastActivatedSequence,
         pendingUrl := Some(OpeningUrl(tab)),
         navigationState := Requested,
         lastError := None,
         rendererCrashed := false,
         hasCommittedNavigation := false)
  }

  function AfterOpen(s: Session, tab: Tab, activate: bool): Session {
    if !Opens(s, tab) then s
    else if s.tabs == [] || activate then
      s.(tabs := Demoted(s.tabs, s.activeTabId) + [OpenedTab(tab, true, s.lastActivated + 1)],
         activeTabId := Some(tab.id),
         lastActivated := s.lastActivated + 1,
         commands := s.commands + [Create(tab.id, tab.isEphemeral)] + [Activate(tab.id)])
    else
      s.(tabs := s.tabs + [OpenedTab(tab, false, 0)],
         commands := s.commands + [Create(tab.id, tab.isEphemeral)])
  }

  function ClosedRecord(t: Tab): ClosedTabRecord {
    ClosedTabRecord(t.url, t.title, t.workspaceId, t.isEphemeral)
  }

  // The closed-tab stack after remembering t: blank tabs are not kept, the oldest record makes room.
  function Remembered(closed: seq<ClosedTabRecord>, t: Tab): seq<ClosedTabRecord> {
    if IsBlankOrNewTabUrl(t.url) then closed
    else
      var grown := closed + [ClosedRecord(t)];
      if |grown| > MAX_CLOSED_TABS then grown[1..] else grown
  }

  // ActivateAfterClose's scan: going left from `start` with wrap-around, `offset` positions already
  // seen.  Gives the first tab that is not discarded, or `start` when every tab is.
  function ScanLeft(tabs: seq<Tab>, start: nat, offset: nat): (k: nat)
    requires start < |tabs| && offset <= |tabs|
    ensures k < |tabs|
    decreases |tabs| - offset
  {
    if offset == |tabs| then start
    else
      var index := (start + |tabs| - offset) % |tabs|;
      if tabs[index].lifecycle != Discarded then index else ScanLeft(tabs, start, offset + 1)
  }

  function AfterFallback(s: Session, preferred: nat): Session {
    if s.tabs == [] then s
    else
      var k := ScanLeft(s.tabs, Min(preferred, |s.tabs| - 1), 0);
      MadeActive(Woken(s, k), k)
  }

  function WithoutIndex<T>(xs: seq<T>, i: nat): seq<T>
    requires i < |xs|
  {
    xs[..i] + xs[i + 1..]
  }

  // The session without tab i, and without an active tab if i was it.
  function Removed(s: Session, i: nat): Session
    requires i < |s.tabs|
  {
    Emit(s.(tabs := WithoutIndex(s.tabs, i),
            closedTabs := Remembered(s.closedTabs, s.tabs[i]),
            activeTabId := if s.activeTabId == Some(s.tabs[i].id) then None else s.activeTabId),
         Close(s.tabs[i].id))
  }

  function AfterClose(s: Session, id: TabId, policy: CloseActivationPolicy): Session {
    var i := IndexOf(s.tabs, id);
    if i == |s.tabs| then s
    else if s.activeTabId == Some(id) && policy == ActivateFallback then AfterFallback(Removed(s, i), i)
    else Removed(s, i)
  }

  predicate ModeMatches(mode: ClosedTabMode, r: ClosedTabRecord) {
    match mode
    case PersistentOnly => !r.isEphemeral
    case EphemeralOnly => r.isEphemeral
    case Any => true
  }

  // One past the position of the newest record of the mode; 0 when there is none.
  function NewestMatch(closed: seq<ClosedTabRecord>, mode: ClosedTabMode): (k: nat)
    ensures k <= |closed|
    ensures k > 0 ==> ModeMatches(mode, closed[k - 1])
    ensures forall j | k <= j < |closed| :: !ModeMatches(mode, closed[j])
  {
    if closed == [] then 0
    else if ModeMatches(mode, closed[|closed| - 1]) then |closed|
    else NewestMatch(closed[..|closed| - 1], mode)
  }

  function RestoredId(n: nat): TabId {
    "restored-" + Decimal(n)
  }

  function RestoredTab(r: ClosedTabRecord, n: nat): Tab {
    NewTab(RestoredId(n), r.url, if r.title == "" then r.url else r.title, r.workspaceId, r.isEphemeral)
  }

  // The session when the record has left the stack and the restored tab is about to be opened.
  function Unstacked(s: Session, k: nat): Session
    requires 0 < k <= |s.closedTabs|
  {
    s.(closedTabs := WithoutIndex(s.closedTabs, k - 1), restored := s.restored + 1)
  }

  function AfterReopen(s: Session, mode: ClosedTabMode): Session {
    var k := NewestMatch(s.closedTabs, mode);
    if k == 0 then s
    else AfterOpen(Unstacked(s, k), RestoredTab(s.closedTabs[k - 1], s.restored + 1), true)
  }

  function ReopenResult(s: Session, mode: ClosedTabMode): Option<TabId> {
    var k := NewestMatch(s.closedTabs, mode);
    if k > 0 && Opens(Unstacked(s, k), RestoredTab(s.closedTabs[k - 1], s.restored + 1))
    then Some(RestoredId(s.restored + 1)) else None
  }

  function PersistentRecords(closed: seq<ClosedTabRecord>): seq<ClosedTabRecord> {
    if closed == [] then []
    else
      var rest := PersistentRecords(closed[..|closed| - 1]);
      if closed[|closed| - 1].isEphemeral then rest else rest + [closed[|closed| - 1]]
  }

  function AfterPurgeClosed(s: Session): Session {
    s.(closedTabs := PersistentRecords(s.closedTabs))
  }

  function AfterActivate(s: Session, id: TabId): Session {
    var i := IndexOf(s.tabs, id);
    if i == |s.tabs| || s.activeTabId == Some(id) then s
    else MadeActive(Woken(s, i).(tabs := Demoted(s.tabs, s.activeTabId)), i)
  }

  // Positions of the tabs a filter lets through, in tab order.
  function VisibleIndices(tabs: seq<Tab>, filter: Tab -> bool): (r: seq<nat>)
    ensures forall j | 0 <= j < |r| :: r[j] < |tabs| && filter(tabs[r[j]])
    ensures forall j, k | 0 <= j < k < |r| :: r[j] < r[k]
    ensures forall i: nat | i < |tabs| && filter(tabs[i]) :: i in r
  {
    if tabs == [] then []
    else
      var n := |tabs| - 1;
      VisibleIndices(tabs[..n], filter) + (if filter(tabs[n]) then [n] else [])
  }

  // First position in `visible` that holds tab `id`, or |visible|.
  function VisiblePosition(tabs: seq<Tab>, visible: seq<nat>, id: TabId): (p: nat)
    requires forall j | 0 <= j < |visible| :: visible[j] < |tabs|
    ensures p <= |visible|
    ensures p < |visible| ==> tabs[visible[p]].id == id
    ensures forall j | 0 <= j < p :: tabs[visible[j]].id != id
  {
    if visible == [] then 0
    else if tabs[visible[0]].id == id then 0
    else 1 + VisiblePosition(tabs, visible[1..], id)
  }

  // Which of n > 0 visible tabs comes next from position p (p == n: the active tab is not visible).
  function NextPosition(n: nat, p: nat, forward: bool): (q: nat)
    requires 0 < n && p <= n
    ensures q < n
  {
    if p == n then 0
    else if forward then (p + 1) % n
    else (p + n - 1) % n
  }

  // The position of the tab a cycle step turns to, or |tabs| when no tab is visible.
  function CycleTarget(tabs: seq<Tab>, active: Option<TabId>, forward: bool, filter: Tab -> bool): (k: nat)
    ensures k <= |tabs|
  {
    var visible := VisibleIndices(tabs, filter);
    if visible == [] then |tabs|
    else if |visible| == 1 then visible[0]
    else
      var p := if active.None? then |visible| else VisiblePosition(tabs, visible, active.value);
      visible[NextPosition(|visible|, p, forward)]
  }

  function AfterCycle(s: Session, forward: bool, filter: Tab -> bool): Session {
    var k := CycleTarget(s.tabs, s.activeTabId, forward, filter);
    if k == |s.tabs| then s else AfterActivate(s, s.tabs[k].id)
  }

  // PrepareTabForNavigationCommand once the tab is known to be there and not discarded.
  function Prepared(s: Session, i: nat): (r: Session)
    requires i < |s.tabs|
    ensures |r.tabs| == |s.tabs|
  {
    if s.tabs[i].lifecycle == Suspended
    then Emit(s.(tabs := s.tabs[i := s.tabs[i].(lifecycle := Background)]), Resume(s.tabs[i].id))
    else s
  }

  predicate IsLoaded(s: Session, id: TabId) {
    var i := IndexOf(s.tabs, id);
    i < |s.tabs| && s.tabs[i].lifecycle != Discarded
  }

  function AfterNavigate(s: Session, id: TabId, url: string): Session {
    if url == "" || !IsLoaded(s, id) then s
    else
      var i := IndexOf(s.tabs, id);
      var p := Prepared(s, i);
      var t := p.tabs[i].(pendingUrl := Some(url), navigationState := Requested,
        lastError := None, rendererCrashed := false);
      Emit(p.(tabs := p.tabs[i := t]), NavigateTo(id, url))
  }

  function AfterHistory(s: Session, id: TabId, command: HistoryCommand): Session {
    if !IsLoaded(s, id) then s
    else Emit(Prepared(s, IndexOf(s.tabs, id)), History(id, command))
  }

  function WithLifecycle(s: Session, i: nat, l: TabLifecycle): Session
    requires i < |s.tabs|
  {
    s.(tabs := s.tabs[i := s.tabs[i].(lifecycle := l)])
  }

  // Suspending and discarding are refused for missing, discarded and active tabs.
  predicate CanUnload(s: Session, id: TabId) {
    IsLoaded(s, id) && s.tabs[IndexOf(s.tabs, id)].lifecycle != Active
  }

  function AfterSuspend(s: Session, id: TabId): Session {
    var i := IndexOf(s.tabs, id);
    if !CanUnload(s, id) || s.tabs[i].lifecycle == Suspended then s
    else WithLifecycle(Emit(s, Suspend(id)), i, Suspended)
  }

  function AfterResume(s: Session, id: TabId): Session {
    if !IsLoaded(s, id) then s else Prepared(s, IndexOf(s.tabs, id))
  }

  function AfterDiscard(s: Session, id: TabId): Session {
    if !CanUnload(s, id) then s
    else WithLifecycle(Emit(s, Close(id)), IndexOf(s.tabs, id), Discarded)
  }

  function TextOr(text: string, default: string): string {
    if text == "" then default else text
  }

  // The field updates of the five engine event handlers.
  function Updated(t: Tab, e: EngineEvent): Tab {
    match e
    case NavigationStarted(_, url) =>
      t.(pendingUrl := Some(url), navigationState := Loading, lastError := None, rendererCrashed := false)
    case NavigationCommitted(_, url) =>
      t.(url := url, pendingUrl := None, navigationState := Idle, lastError := None, rendererCrashed := false,
         hasCommittedNavigation := true)
    case NavigationFailed(_, url, text) =>
      t.(pendingUrl := Some(url), navigationState := Failed, lastError := Some(TextOr(text, "navigation failed")),
         rendererCrashed := false)
    case TitleChanged(_, title) => t.(title := title)
    case RendererCrashed(_, reason) =>
      t.(rendererCrashed := true, navigationState := Failed, lastError := Some(TextOr(reason, "renderer crashed")))
  }

  function AfterEvent(s: Session, e: EngineEvent): Session {
    if !IsLoaded(s, e.tabId) then s
    else
      var i := IndexOf(s.tabs, e.tabId);
      s.(tabs := s.tabs[i := Updated(s.tabs[i], e)])
  }
}
