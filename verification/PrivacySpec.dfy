/** The private-mode calls as functions from one desktop state to the next
    (src/core/session/session_privacy_orchestrator.cpp), and the runs they make up. */
module PrivacySpec {
  import opened Common
  import opened Tabs
  import opened SessionSpec
  import opened ProfileManagers
  import FocusControllers
  import FocusQueues

  datatype Desktop = Desktop(
    session: Session,
    profiles: Profiles,
    privateTabs: nat,
    persistentTabs: nat)

  const NEW_DESKTOP := Desktop(EMPTY_SESSION, NEW_PROFILES, 0, 0)

  predicate IsPrivate(d: Desktop) {
    EphemeralActive(d.profiles)
  }

  // CanActivateTab and IsTabVisible: the tabs of the current mode.
  predicate OfMode(t: Tab, private: bool) {
    t.isEphemeral == private
  }

  predicate CanActivate(d: Desktop, id: TabId) {
    var i := IndexOf(d.session.tabs, id);
    i < |d.session.tabs| && OfMode(d.session.tabs[i], IsPrivate(d))
  }

  const PRIVATE_PREFIX := "private-tab-"

  function PrivateTabId(n: nat): TabId {
    PRIVATE_PREFIX + Decimal(n)
  }

  function PrivateTab(n: nat): Tab {
    NewTab(PrivateTabId(n), LEGACY_PLACEHOLDER_URL, "Private Tab", None, true)
  }

  function DefaultTab(n: nat): Tab {
    NewTab("tab-" + Decimal(n), LEGACY_PLACEHOLDER_URL, "New Tab", None, false)
  }

  function AfterActivateTab(d: Desktop, id: TabId): Desktop {
    if CanActivate(d, id) then d.(session := AfterActivate(d.session, id)) else d
  }

  // Opens the next private tab and shows it.
  function WithPrivateTab(d: Desktop): Desktop {
    d.(session := AfterOpen(d.session, PrivateTab(d.privateTabs + 1), true), privateTabs := d.privateTabs + 1)
  }

  // First position of a tab of the mode, or |tabs|.
  function FirstOfMode(tabs: seq<Tab>, private: bool): (k: nat)
    ensures k <= |tabs|
    ensures k < |tabs| ==> tabs[k].isEphemeral == private
    ensures forall j | 0 <= j < k :: tabs[j].isEphemeral != private
  {
    if tabs == [] then 0
    else if tabs[0].isEphemeral == private then 0
    else 1 + FirstOfMode(tabs[1..], private)
  }

  // In private mode: only private tabs close; when the shown one goes, another private tab takes over.
  function AfterPrivateClose(d: Desktop, id: TabId): Desktop {
    if !CanActivate(d, id) then d
    else
      var closed := d.(session := AfterClose(d.session, id, DoNotActivateFallback));
      if d.session.activeTabId != Some(id) then closed
      else
        var k := FirstOfMode(closed.session.tabs, true);
        if k < |closed.session.tabs| then closed.(session := AfterActivate(closed.session, closed.session.tabs[k].id))
        else WithPrivateTab(closed)
  }

  function AfterCloseTab(d: Desktop, id: TabId): Desktop {
    if IsPrivate(d) then AfterPrivateClose(d, id)
    else d.(session := AfterClose(d.session, id, ActivateFallback))
  }

  function AfterCloseActive(d: Desktop): Desktop {
    if d.session.activeTabId.None? then d else AfterCloseTab(d, d.session.activeTabId.value)
  }

  // In private mode only private tabs can be closed.
  predicate Closes(d: Desktop, id: TabId) {
    if IsPrivate(d) then CanActivate(d, id) else HasTab(d.session.tabs, id)
  }

  function ModeOfRecords(d: Desktop): ClosedTabMode {
    if IsPrivate(d) then EphemeralOnly else PersistentOnly
  }

  function AfterReopenClosed(d: Desktop): Desktop {
    d.(session := AfterReopen(d.session, ModeOfRecords(d)))
  }

  function AfterEnter(d: Desktop): Desktop {
    var created := AfterCreateEphemeral(d.profiles);
    WithPrivateTab(d.(profiles := AfterSetActive(created, EphemeralId(created.ephemeralCounter)),
                      session := Emit(d.session, SetEphemeralMode(true))))
  }

  // The ids of the private tabs, in tab order.
  function EphemeralIds(tabs: seq<Tab>): (r: seq<TabId>)
    ensures forall i | 0 <= i < |tabs| && tabs[i].isEphemeral :: tabs[i].id in r
    ensures forall j | 0 <= j < |r| :: exists i :: 0 <= i < |tabs| && tabs[i].isEphemeral && tabs[i].id == r[j]
  {
    if tabs == [] then []
    else
      var n := |tabs| - 1;
      EphemeralIds(tabs[..n]) + (if tabs[n].isEphemeral then [tabs[n].id] else [])
  }

  function AfterCloses(s: Session, ids: seq<TabId>): Session {
    if ids == [] then s else AfterClose(AfterCloses(s, ids[..|ids| - 1]), ids[|ids| - 1], DoNotActivateFallback)
  }

  // Steps 1 to 4 of leaving private mode: every trace of the private session goes.
  function AfterWipe(d: Desktop): Desktop {
    var closed := AfterCloses(d.session, EphemeralIds(d.session.tabs));
    d.(session := AfterPurgeClosed(Emit(Emit(closed, SetEphemeralMode(false)), PurgeEphemeralContext)),
       profiles := AfterPurge(AfterSetActive(d.profiles, DEFAULT_ID)))
  }

  // Step 6: only then is a persistent tab shown.
  function AfterRestorePersistent(d: Desktop): Desktop {
    if d.session.tabs == [] then
      d.(session := AfterOpen(d.session, DefaultTab(d.persistentTabs + 1), true),
         persistentTabs := d.persistentTabs + 1)
    else
      var k := FirstOfMode(d.session.tabs, false);
      if k < |d.session.tabs| then d.(session := AfterActivate(d.session, d.session.tabs[k].id)) else d
  }

  function AfterExit(d: Desktop): Desktop {
    AfterRestorePersistent(AfterWipe(d))
  }

  // ---------- Runs ----------

  datatype DesktopOp =
    | EnterPrivate
    | ExitPrivate
    | CloseTheTab(id: TabId)
    | CloseTheActiveTab
    | ActivateTheTab(id: TabId)
    | ReopenAClosedTab
    | OpenATab(tab: Tab, activate: bool)
    | CycleVisible(forward: bool)
    | ActivateFocus(items: seq<FocusQueues.FocusItem>, itemId: string)
    | SuspendTheTab(id: TabId)
    | ResumeTheTab(id: TabId)
    | DiscardTheTab(id: TabId)
    | NavigateTheTab(id: TabId, url: string)
    | HistoryOfTab(id: TabId, command: HistoryCommand)
    | Engine(event: EngineEvent)
    | CreateAProfile(profileId: string, kind: ProfileType)
    | SelectAProfile(profileId: string)
    | RemoveAProfile(profileId: string)

  function DesktopStep(d: Desktop, op: DesktopOp): Desktop {
    match op
    case EnterPrivate => AfterEnter(d)
    case ExitPrivate => AfterExit(d)
    case CloseTheTab(id) => AfterCloseTab(d, id)
    case CloseTheActiveTab => AfterCloseActive(d)
    case ActivateTheTab(id) => AfterActivateTab(d, id)
    case ReopenAClosedTab => AfterReopenClosed(d)
    case OpenATab(tab, activate) => d.(session := AfterOpen(d.session, tab, activate))
    case CycleVisible(forward) =>
      var private := IsPrivate(d);
      d.(session := AfterCycle(d.session, forward, t => OfMode(t, private)))
    case ActivateFocus(items, itemId) => d.(session := FocusControllers.AfterActivateItem(d.session, items, itemId))
    case SuspendTheTab(id) => d.(session := AfterSuspend(d.session, id))
    case ResumeTheTab(id) => d.(session := AfterResume(d.session, id))
    case DiscardTheTab(id) => d.(session := AfterDiscard(d.session, id))
    case NavigateTheTab(id, url) => d.(session := AfterNavigate(d.session, id, url))
    case HistoryOfTab(id, command) => d.(session := AfterHistory(d.session, id, command))
    case Engine(event) => d.(session := AfterEvent(d.session, event))
    case CreateAProfile(id, kind) => d.(profiles := AfterCreate(d.profiles, id, kind))
    case SelectAProfile(id) => d.(profiles := AfterSetActive(d.profiles, id))
    case RemoveAProfile(id) => d.(profiles := AfterRemove(d.profiles, id))
  }

  function DesktopRun(d: Desktop, ops: seq<DesktopOp>): Desktop
    decreases |ops|
  {
    if ops == [] then d else DesktopRun(DesktopStep(d, ops[0]), ops[1..])
  }

  // Ids that only the orchestrator hands out.
  predicate IsReserved(id: TabId) {
    PRIVATE_PREFIX <= id
  }

  predicate IsProfileOp(op: DesktopOp) {
    op.CreateAProfile? || op.SelectAProfile? || op.RemoveAProfile?
  }

  // Callers open tabs of the current mode, under ids of their own; they turn to profiles in normal mode,
  // and leave it to the orchestrator to select an ephemeral one.
  predicate Permitted(d: Desktop, op: DesktopOp) {
    && (op.OpenATab? ==> OfMode(op.tab, IsPrivate(d)) && !IsReserved(op.tab.id))
    && (IsProfileOp(op) ==> !IsPrivate(d))
    && (op.SelectAProfile? && op.profileId in d.profiles.known ==> d.profiles.known[op.profileId] == Persistent)
  }

  predicate PermittedRun(d: Desktop, ops: seq<DesktopOp>)
    decreases |ops|
  {
    ops == [] || (Permitted(d, ops[0]) && PermittedRun(DesktopStep(d, ops[0]), ops[1..]))
  }
}
