/** Private mode keeps the two worlds apart: what holds in each mode after any run, and
    that a private session leaves the persistent tabs as they were. */
module PrivateMode {
  import opened Common
  import opened Tabs
  import opened SessionSpec
  import opened SessionInvariant
  import opened SessionFaces
  import opened ProfileManagers
  import opened PrivacySpec
  import FocusControllers
  import FocusQueues

  // ---------- The engine's ephemeral flag ----------

  function ModeFlag(s: Session): bool {
    Replay(s.commands).ephemeralMode
  }

  lemma FlagSnoc(log: seq<EngineCommand>, c: EngineCommand)
    ensures Replay(log + [c]).ephemeralMode == if c.SetEphemeralMode? then c.enabled else Replay(log).ephemeralMode
  {
    ReplaySnoc(log, c);
  }

  lemma MadeActiveFlag(s: Session, k: nat)
    requires k < |s.tabs|
    ensures ModeFlag(MadeActive(Woken(s, k), k)) == ModeFlag(s)
  {
    hide Replay;
    var w := Woken(s, k);
    FlagSnoc(s.commands, Create(s.tabs[k].id, s.tabs[k].isEphemeral));
    FlagSnoc(s.commands, Resume(s.tabs[k].id));
    FlagSnoc(w.commands, Activate(s.tabs[k].id));
  }

  lemma ActivateFlag(s: Session, id: TabId)
    ensures ModeFlag(AfterActivate(s, id)) == ModeFlag(s)
  {
    hide Replay;
    var i := IndexOf(s.tabs, id);
    if i < |s.tabs| && s.activeTabId != Some(id) {
      MadeActiveFlag(s, i);
      assert AfterActivate(s, id).commands == MadeActive(Woken(s, i), i).commands;
    }
  }

  lemma OpenFlag(s: Session, tab: Tab, activate: bool)
    ensures ModeFlag(AfterOpen(s, tab, activate)) == ModeFlag(s)
  {
    hide Replay, Opens;
    FlagSnoc(s.commands, Create(tab.id, tab.isEphemeral));
    FlagSnoc(s.commands + [Create(tab.id, tab.isEphemeral)], Activate(tab.id));
  }

  lemma CloseFlag(s: Session, id: TabId, policy: CloseActivationPolicy)
    ensures ModeFlag(AfterClose(s, id, policy)) == ModeFlag(s)
  {
    hide Replay, Remembered, ScanLeft, MadeActive, Woken;
    var i := IndexOf(s.tabs, id);
    if i < |s.tabs| {
      FlagSnoc(s.commands, Close(id));
      var removed := Removed(s, i);
      if removed.tabs != [] {
        MadeActiveFlag(removed, ScanLeft(removed.tabs, Min(i, |removed.tabs| - 1), 0));
      }
    }
  }

  lemma PreparedFlag(s: Session, i: nat)
    requires i < |s.tabs|
    ensures ModeFlag(Prepared(s, i)) == ModeFlag(s)
  {
    hide Replay;
    FlagSnoc(s.commands, Resume(s.tabs[i].id));
  }

  lemma QuietFlag(s: Session, id: TabId, url: string, command: HistoryCommand)
    ensures ModeFlag(AfterSuspend(s, id)) == ModeFlag(AfterResume(s, id)) == ModeFlag(AfterDiscard(s, id))
         == ModeFlag(AfterNavigate(s, id, url)) == ModeFlag(AfterHistory(s, id, command)) == ModeFlag(s)
  {
    hide Replay;
    FlagSnoc(s.commands, Suspend(id));
    FlagSnoc(s.commands, Close(id));
    var i := IndexOf(s.tabs, id);
    if i < |s.tabs| {
      PreparedFlag(s, i);
      FlagSnoc(Prepared(s, i).commands, NavigateTo(id, url));
      FlagSnoc(Prepared(s, i).commands, History(id, command));
    }
  }

  // ---------- What holds in each mode ----------

  // Session, profiles and engine agree with each other.
  ghost predicate Sound(d: Desktop) {
    Valid(d.session) && ValidProfiles(d.profiles) && "" !in d.profiles.known && ModeFlag(d.session) == IsPrivate(d)
  }

  // In private mode a private tab is shown.  In normal mode there is no private tab and no private
  // closed-tab record, and a session with tabs shows one.
  ghost predicate InMode(faces: seq<Face>, closed: seq<ClosedTabRecord>, active: Option<TabId>, private: bool) {
    if private then exists i :: 0 <= i < |faces| && active == Some(faces[i].id) && faces[i].isEphemeral
    else
      && (forall i | 0 <= i < |faces| :: !faces[i].isEphemeral)
      && (forall i | 0 <= i < |closed| :: !closed[i].isEphemeral)
      && (faces != [] ==> active.Some?)
  }

  ghost predicate Issued(id: TabId, n: nat) {
    exists k: nat :: 0 < k <= n && id == PrivateTabId(k)
  }

  // Reserved ids in use are ones the orchestrator has handed out.
  ghost predicate ReservedIssued(faces: seq<Face>, n: nat) {
    forall i | 0 <= i < |faces| && IsReserved(faces[i].id) :: Issued(faces[i].id, n)
  }

  ghost predicate ModeSafe(d: Desktop) {
    && Sound(d)
    && InMode(Faces(d.session.tabs), d.session.closedTabs, d.session.activeTabId, IsPrivate(d))
    && ReservedIssued(Faces(d.session.tabs), d.privateTabs)
  }

  // What one private-mode step may do to the persistent world: nothing to its tabs, and forget its
  // oldest closed-tab records.
  ghost predicate Spares(s: Session, r: Session) {
    && PersistentFaces(Faces(r.tabs)) == PersistentFaces(Faces(s.tabs))
    && IsSuffix(PersistentRecords(r.closedTabs), PersistentRecords(s.closedTabs))
  }

  lemma SparesTwice(a: Session, b: Session, c: Session)
    requires Spares(a, b) && Spares(b, c)
    ensures Spares(a, c)
  {
    SuffixTransitive(PersistentRecords(c.closedTabs), PersistentRecords(b.closedTabs), PersistentRecords(a.closedTabs));
  }

  // ---------- Names ----------

  lemma NextPrivateIdIsFresh(faces: seq<Face>, n: nat)
    requires ReservedIssued(faces, n)
    ensures forall i | 0 <= i < |faces| :: faces[i].id != PrivateTabId(n + 1)
  {
    forall i | 0 <= i < |faces| ensures faces[i].id != PrivateTabId(n + 1) {
      if faces[i].id == PrivateTabId(n + 1) {
        assert IsReserved(faces[i].id);
        var k: nat :| 0 < k <= n && faces[i].id == PrivateTabId(k);
        CounterNamesDistinct(PRIVATE_PREFIX, k, n + 1);
      }
    }
  }

  lemma IssuedLonger(faces: seq<Face>, n: nat)
    requires ReservedIssued(faces, n)
    ensures ReservedIssued(faces, n + 1)
  {
    hide IsReserved;
    forall i | 0 <= i < |faces| && IsReserved(faces[i].id) ensures Issued(faces[i].id, n + 1) {
      var k: nat :| 0 < k <= n && faces[i].id == PrivateTabId(k);
    }
  }

  lemma NotReserved(id: TabId)
    requires id != "" && id[0] != 'p'
    ensures !IsReserved(id)
  {
    assert PRIVATE_PREFIX[0] == 'p';
  }

  // ---------- Calls that only touch the session ----------

  lemma SessionOnly(d: Desktop, r: Session)
    requires Sound(d) && Valid(r) && ModeFlag(r) == ModeFlag(d.session)
    ensures Sound(d.(session := r)) && IsPrivate(d.(session := r)) == IsPrivate(d)
  {
  }

  // Showing a tab of the mode, or leaving the shown tab as it is, with all faces and records kept.
  lemma ShowSafe(d: Desktop, r: Session)
    requires ModeSafe(d) && Valid(r) && ModeFlag(r) == ModeFlag(d.session)
    requires Faces(r.tabs) == Faces(d.session.tabs) && r.closedTabs == d.session.closedTabs
    requires r.activeTabId == d.session.activeTabId
          || exists i ::
               0 <= i < |r.tabs| && r.activeTabId == Some(r.tabs[i].id) && r.tabs[i].isEphemeral == IsPrivate(d)
    ensures ModeSafe(d.(session := r)) && Spares(d.session, r)
  {
    hide Valid;
    SessionOnly(d, r);
    if r.activeTabId != d.session.activeTabId {
      var i :| 0 <= i < |r.tabs| && r.activeTabId == Some(r.tabs[i].id) && r.tabs[i].isEphemeral == IsPrivate(d);
      assert Faces(r.tabs)[i] == FaceOf(r.tabs[i]);
    }
  }

  lemma ActivateSafe(d: Desktop, id: TabId)
    requires ModeSafe(d) && CanActivate(d, id)
    ensures ModeSafe(d.(session := AfterActivate(d.session, id))) && Spares(d.session, AfterActivate(d.session, id))
  {
    hide Valid, ModeFlag, AfterActivate;
    var s := d.session;
    ActivateKeeps(s, id);
    ActivateFlag(s, id);
    ActivateFaces(s, id);
    var r := AfterActivate(s, id);
    var i := IndexOf(s.tabs, id);
    assert FaceOf(r.tabs[i]) == Faces(r.tabs)[i] == Faces(s.tabs)[i] == FaceOf(s.tabs[i]);
    ShowSafe(d, r);
  }

  lemma AppendInMode(faces: seq<Face>, closed: seq<ClosedTabRecord>, active: Option<TabId>, private: bool, f: Face,
                     shown: bool)
    requires InMode(faces, closed, active, private) && f.isEphemeral == private && (faces == [] ==> shown)
    ensures InMode(faces + [f], closed, if shown then Some(f.id) else active, private)
  {
    var r := faces + [f];
    assert r[|faces|] == f;
    if private && !shown {
      var i :| 0 <= i < |faces| && active == Some(faces[i].id) && faces[i].isEphemeral;
      assert r[i] == faces[i];
    }
  }

  lemma AppendIssued(faces: seq<Face>, f: Face, n: nat)
    requires ReservedIssued(faces, n) && (IsReserved(f.id) ==> Issued(f.id, n))
    ensures ReservedIssued(faces + [f], n)
  {
    hide IsReserved, Issued;
    var r := faces + [f];
    assert forall i | 0 <= i < |faces| :: r[i] == faces[i];
  }

  // Opening a tab of the mode under an id that is not reserved.
  lemma OpenSafe(d: Desktop, tab: Tab, activate: bool)
    requires ModeSafe(d) && OfMode(tab, IsPrivate(d)) && !IsReserved(tab.id)
    ensures ModeSafe(d.(session := AfterOpen(d.session, tab, activate)))
    ensures IsPrivate(d) ==> Spares(d.session, AfterOpen(d.session, tab, activate))
  {
    hide Valid, ModeFlag, AfterOpen, IsReserved, OpeningUrl, InMode, ReservedIssued, Opens, Spares;
    var s := d.session;
    var r := AfterOpen(s, tab, activate);
    OpenKeeps(s, tab, activate);
    OpenFlag(s, tab, activate);
    OpenFaces(s, tab, activate);
    SessionOnly(d, r);
    if Opens(s, tab) {
      var f := OpenedFace(tab);
      AppendInMode(Faces(s.tabs), s.closedTabs, s.activeTabId, IsPrivate(d), f, s.tabs == [] || activate);
      AppendIssued(Faces(s.tabs), f, d.privateTabs);
      if IsPrivate(d) {
        SparesAppend(s, r, f);
      }
    } else {
      RefusedOpen(s, tab, activate);
      SparesSelf(s);
    }
  }

  lemma SparesAppend(s: Session, r: Session, f: Face)
    requires Faces(r.tabs) == Faces(s.tabs) + [f] && r.closedTabs == s.closedTabs && f.isEphemeral
    ensures Spares(s, r)
  {
    PersistentAppend(Faces(s.tabs), f);
  }

  lemma RefusedOpen(s: Session, tab: Tab, activate: bool)
    ensures !Opens(s, tab) ==> AfterOpen(s, tab, activate) == s
  {
  }

  lemma PrivateTabOpens(s: Session, issued: nat)
    requires ReservedIssued(Faces(s.tabs), issued)
    ensures Opens(s, PrivateTab(issued + 1))
  {
    NextPrivateIdIsFresh(Faces(s.tabs), issued);
    assert forall i | 0 <= i < |s.tabs| :: Faces(s.tabs)[i].id == s.tabs[i].id;
  }

  // Opening the next private tab shows it, whatever was shown before.
  lemma PrivateTabSafe(d: Desktop)
    requires Sound(d) && IsPrivate(d) && ReservedIssued(Faces(d.session.tabs), d.privateTabs)
    ensures ModeSafe(WithPrivateTab(d)) && IsPrivate(WithPrivateTab(d)) && Spares(d.session, WithPrivateTab(d).session)
  {
    hide Valid, ModeFlag, AfterOpen, IsReserved, OpeningUrl, ReservedIssued, Opens;
    var s := d.session;
    var tab := PrivateTab(d.privateTabs + 1);
    var f := OpenedFace(tab);
    PrivateTabOpens(s, d.privateTabs);
    OpenKeeps(s, tab, true);
    OpenFlag(s, tab, true);
    OpenFaces(s, tab, true);
    SessionOnly(d, AfterOpen(s, tab, true));
    PersistentAppend(Faces(s.tabs), f);
    IssuedLonger(Faces(s.tabs), d.privateTabs);
    assert Issued(tab.id, d.privateTabs + 1);
    AppendIssued(Faces(s.tabs), f, d.privateTabs + 1);
    assert (Faces(s.tabs) + [f])[|s.tabs|] == f;
  }

  // ---------- Closing ----------

  // Closing a private tab without fallback spares the persistent world.
  lemma QuietCloseSpares(s: Session, id: TabId)
    requires HasTab(s.tabs, id) && s.tabs[IndexOf(s.tabs, id)].isEphemeral
    ensures Spares(s, AfterClose(s, id, DoNotActivateFallback))
  {
    hide AfterClose;
    var i := IndexOf(s.tabs, id);
    QuietCloseFaces(s, id);
    PersistentWithout(Faces(s.tabs), i);
    RememberedRecords(s.closedTabs, s.tabs[i]);
  }

  lemma WithoutIssued(faces: seq<Face>, i: nat, n: nat)
    requires ReservedIssued(faces, n) && i < |faces|
    ensures ReservedIssued(WithoutIndex(faces, i), n)
  {
    hide IsReserved, Issued;
    var r := WithoutIndex(faces, i);
    assert forall j | 0 <= j < |r| :: r[j] == faces[if j < i then j else j + 1];
  }

  lemma PrivateCloseSafe(d: Desktop, id: TabId)
    requires ModeSafe(d) && IsPrivate(d)
    ensures ModeSafe(AfterPrivateClose(d, id)) && IsPrivate(AfterPrivateClose(d, id))
    ensures Spares(d.session, AfterPrivateClose(d, id).session)
  {
    hide Valid, ModeFlag, AfterClose, WithPrivateTab, AfterActivate, Spares, ReservedIssued;
    if CanActivate(d, id) {
      var s := d.session;
      var c := AfterClose(s, id, DoNotActivateFallback);
      var closed := d.(session := c);
      var i := IndexOf(s.tabs, id);
      CloseKeeps(s, id, DoNotActivateFallback);
      CloseFlag(s, id, DoNotActivateFallback);
      QuietCloseFaces(s, id);
      QuietCloseSpares(s, id);
      SessionOnly(d, c);
      WithoutIssued(Faces(s.tabs), i, d.privateTabs);
      if s.activeTabId != Some(id) {
        StillShown(Faces(s.tabs), s.activeTabId, i);
      } else {
        var k := FirstOfMode(c.tabs, true);
        if k < |c.tabs| {
          ReshowSafe(closed, k);
          SparesTwice(s, c, AfterActivate(c, c.tabs[k].id));
        } else {
          PrivateTabSafe(closed);
          SparesTwice(s, c, WithPrivateTab(closed).session);
        }
      }
    } else {
      SparesSelf(d.session);
    }
  }

  lemma SparesSelf(s: Session)
    ensures Spares(s, s)
  {
  }

  lemma StillShown(faces: seq<Face>, active: Option<TabId>, i: nat)
    requires i < |faces| && active != Some(faces[i].id)
    requires exists j :: 0 <= j < |faces| && active == Some(faces[j].id) && faces[j].isEphemeral
    ensures var r := WithoutIndex(faces, i);
      exists j :: 0 <= j < |r| && active == Some(r[j].id) && r[j].isEphemeral
  {
    var j :| 0 <= j < |faces| && active == Some(faces[j].id) && faces[j].isEphemeral;
    var r := WithoutIndex(faces, i);
    assert r[if j < i then j else j - 1] == faces[j];
  }

  // Private tab k takes over when no tab is shown.
  lemma ReshowSafe(d: Desktop, k: nat)
    requires Sound(d) && IsPrivate(d) && ReservedIssued(Faces(d.session.tabs), d.privateTabs)
    requires k < |d.session.tabs| && d.session.tabs[k].isEphemeral
    ensures var r := AfterActivate(d.session, d.session.tabs[k].id);
      ModeSafe(d.(session := r)) && IsPrivate(d.(session := r)) && Spares(d.session, r)
  {
    hide Valid, ModeFlag, AfterActivate, ReservedIssued;
    var s := d.session;
    var id := s.tabs[k].id;
    var r := AfterActivate(s, id);
    ActivateKeeps(s, id);
    ActivateFlag(s, id);
    ActivateFaces(s, id);
    SessionOnly(d, r);
    assert Faces(r.tabs)[k].id == id && Faces(r.tabs)[k].isEphemeral;
  }

  lemma NormalCloseSafe(d: Desktop, id: TabId)
    requires ModeSafe(d) && !IsPrivate(d)
    ensures ModeSafe(d.(session := AfterClose(d.session, id, ActivateFallback)))
  {
    hide ModeFlag, AfterClose, ReservedIssued, Valid, ValidProfiles, Remembered, IsReserved;
    var s := d.session;
    if HasTab(s.tabs, id) {
      var i := IndexOf(s.tabs, id);
      var r := AfterClose(s, id, ActivateFallback);
      CloseKeeps(s, id, ActivateFallback);
      CloseFlag(s, id, ActivateFallback);
      CloseFaces(s, id);
      SessionOnly(d, r);
      WithoutIssued(Faces(s.tabs), i, d.privateTabs);
      var faces, rest := Faces(s.tabs), Faces(r.tabs);
      assert forall j | 0 <= j < |rest| :: rest[j] == faces[if j < i then j else j + 1];
      NormalRecords(s.closedTabs, s.tabs[i]);
    } else {
      assert AfterClose(s, id, ActivateFallback) == s by { MissingClose(s, id); }
    }
  }

  lemma MissingClose(s: Session, id: TabId)
    requires !HasTab(s.tabs, id)
    ensures AfterClose(s, id, ActivateFallback) == s
  {
  }

  lemma NormalRecords(closed: seq<ClosedTabRecord>, t: Tab)
    requires !t.isEphemeral && forall i | 0 <= i < |closed| :: !closed[i].isEphemeral
    ensures forall i | 0 <= i < |Remembered(closed, t)| :: !Remembered(closed, t)[i].isEphemeral
  {
  }

  // ---------- Reopening, cycling, focus items, engine events ----------

  lemma UnstackedSafe(d: Desktop, k: nat)
    requires ModeSafe(d) && 0 < k <= |d.session.closedTabs| && d.session.closedTabs[k - 1].isEphemeral == IsPrivate(d)
    ensures var u := Unstacked(d.session, k); ModeSafe(d.(session := u)) && (IsPrivate(d) ==> Spares(d.session, u))
  {
    hide Valid, ModeFlag, ReservedIssued;
    var s := d.session;
    var u := Unstacked(s, k);
    UnstackedKeeps(s, k);
    assert ModeFlag(u) == ModeFlag(s) by { SameLogFlag(s, u); }
    SessionOnly(d, u);
    assert forall j | 0 <= j < |u.closedTabs| :: u.closedTabs[j] == s.closedTabs[if j < k - 1 then j else j + 1];
    if IsPrivate(d) {
      RecordsWithout(s.closedTabs, k - 1);
    }
  }

  lemma SameLogFlag(s: Session, r: Session)
    requires s.commands == r.commands
    ensures ModeFlag(s) == ModeFlag(r)
  {
  }

  lemma ReopenSafe(d: Desktop)
    requires ModeSafe(d)
    ensures ModeSafe(AfterReopenClosed(d)) && (IsPrivate(d) ==> Spares(d.session, AfterReopenClosed(d).session))
  {
    hide ModeSafe, Spares, AfterOpen, IsReserved, Unstacked;
    var mode := if IsPrivate(d) then EphemeralOnly else PersistentOnly;
    var k := NewestMatch(d.session.closedTabs, mode);
    if k > 0 {
      var u := Unstacked(d.session, k);
      var tab := RestoredTab(d.session.closedTabs[k - 1], d.session.restored + 1);
      UnstackedSafe(d, k);
      NotReserved(tab.id);
      OpenSafe(d.(session := u), tab, true);
      if IsPrivate(d) {
        SparesTwice(d.session, u, AfterOpen(u, tab, true));
      }
    } else {
      SparesSelf(d.session);
    }
  }

  lemma CycleTargetVisible(tabs: seq<Tab>, active: Option<TabId>, forward: bool, filter: Tab -> bool)
    ensures var k := CycleTarget(tabs, active, forward, filter); k < |tabs| ==> filter(tabs[k])
  {
  }

  lemma CycleSafe(d: Desktop, forward: bool)
    requires ModeSafe(d)
    ensures ModeSafe(DesktopStep(d, CycleVisible(forward)))
    ensures Spares(d.session, DesktopStep(d, CycleVisible(forward)).session)
  {
    hide Spares, AfterActivate, CycleTarget, InMode, ReservedIssued, EngineAgrees, ModeFlag;
    var s, private := d.session, IsPrivate(d);
    var k := CycleTarget(s.tabs, s.activeTabId, forward, t => OfMode(t, private));
    CycleTargetVisible(s.tabs, s.activeTabId, forward, t => OfMode(t, private));
    if k < |s.tabs| {
      assert IndexOf(s.tabs, s.tabs[k].id) == k;
      ActivateSafe(d, s.tabs[k].id);
    } else {
      SparesSelf(s);
    }
  }

  lemma PrivateShown(d: Desktop)
    requires ModeSafe(d) && IsPrivate(d)
    ensures FocusControllers.EphemeralTabActive(d.session)
  {
    hide EngineAgrees, ReservedIssued;
    var s := d.session;
    var i :| 0 <= i < |s.tabs| && s.activeTabId == Some(Faces(s.tabs)[i].id) && Faces(s.tabs)[i].isEphemeral;
    assert IndexOf(s.tabs, s.tabs[i].id) == i;
  }

  // The focus queue is no way out of private mode, and brings only persistent tabs to normal mode.
  lemma FocusSafe(d: Desktop, items: seq<FocusQueues.FocusItem>, itemId: string)
    requires ModeSafe(d)
    ensures var r := FocusControllers.AfterActivateItem(d.session, items, itemId);
      ModeSafe(d.(session := r)) && (IsPrivate(d) ==> r == d.session)
  {
    hide ModeSafe, AfterOpen, AfterActivate, IsReserved;
    var s := d.session;
    if IsPrivate(d) {
      PrivateShown(d);
    } else if FocusControllers.CanActivateItem(s, items, itemId) {
      var item := items[FocusQueues.ItemIndex(items, itemId)];
      var target := FocusControllers.TargetTab(s, item);
      if target.Some? {
        ActivateSafe(d, target.value);
      } else {
        var tab := FocusControllers.FocusTab(s, item);
        FocusControllers.FocusTabOpens(s, item);
        NotReserved(tab.id);
        OpenSafe(d, tab, true);
      }
    }
  }

  lemma QuietSafe(d: Desktop, id: TabId, url: string, command: HistoryCommand)
    requires ModeSafe(d)
    ensures forall r | r in [AfterSuspend(d.session, id), AfterResume(d.session, id), AfterDiscard(d.session, id),
                            AfterNavigate(d.session, id, url), AfterHistory(d.session, id, command)] ::
              ModeSafe(d.(session := r)) && Spares(d.session, r)
  {
    hide Valid, ModeFlag, ModeSafe, Spares, AfterSuspend, AfterResume, AfterDiscard, AfterNavigate,
      AfterHistory, IsPrivate;
    var s := d.session;
    SafeIsValid(d);
    SuspendKeeps(s, id);
    ResumeKeeps(s, id);
    DiscardKeeps(s, id);
    NavigateKeeps(s, id, url);
    HistoryKeeps(s, id, command);
    QuietFlag(s, id, url, command);
    QuietFaces(s, id, url, command);
    forall r | r in [AfterSuspend(s, id), AfterResume(s, id), AfterDiscard(s, id), AfterNavigate(s, id, url),
                     AfterHistory(s, id, command)]
      ensures ModeSafe(d.(session := r)) && Spares(s, r)
    {
      ShowSafe(d, r);
    }
  }

  lemma SafeIsValid(d: Desktop)
    requires ModeSafe(d)
    ensures Valid(d.session)
  {
  }

  lemma SafeParts(d: Desktop)
    requires ModeSafe(d)
    ensures Valid(d.session) && ValidProfiles(d.profiles) && ReservedIssued(Faces(d.session.tabs), d.privateTabs)
  {
  }

  lemma EventSafe(d: Desktop, e: EngineEvent)
    requires ModeSafe(d)
    ensures ModeSafe(d.(session := AfterEvent(d.session, e)))
    ensures HasTab(d.session.tabs, e.tabId) && d.session.tabs[IndexOf(d.session.tabs, e.tabId)].isEphemeral
            ==> Spares(d.session, AfterEvent(d.session, e))
    ensures !HasTab(d.session.tabs, e.tabId) ==> Spares(d.session, AfterEvent(d.session, e))
  {
    hide Valid, ValidProfiles, ModeFlag, AfterEvent, ReservedIssued, InMode, Spares;
    var s := d.session;
    var r := AfterEvent(s, e);
    EventKeeps(s, e);
    EventLog(s, e);
    SameLogFlag(s, r);
    EventFaces(s, e);
    SessionOnly(d, r);
    EventInMode(d, e);
    EventSpares(s, e);
  }

  lemma EventInMode(d: Desktop, e: EngineEvent)
    requires ModeSafe(d)
    ensures var r := AfterEvent(d.session, e);
      && InMode(Faces(r.tabs), r.closedTabs, r.activeTabId, IsPrivate(d))
      && ReservedIssued(Faces(r.tabs), d.privateTabs)
  {
    hide Valid, ValidProfiles, ModeFlag, AfterEvent, Issued, IsReserved;
    var s := d.session;
    var r := AfterEvent(s, e);
    EventFaces(s, e);
    EventLog(s, e);
    var faces, faces' := Faces(s.tabs), Faces(r.tabs);
    assert forall j | 0 <= j < |faces| :: faces'[j].id == faces[j].id && faces'[j].isEphemeral == faces[j].isEphemeral;
    if IsPrivate(d) {
      var j :| 0 <= j < |faces| && s.activeTabId == Some(faces[j].id) && faces[j].isEphemeral;
      assert faces'[j].isEphemeral;
    }
  }

  lemma EventSpares(s: Session, e: EngineEvent)
    requires Valid(s)
    ensures HasTab(s.tabs, e.tabId) && s.tabs[IndexOf(s.tabs, e.tabId)].isEphemeral ==> Spares(s, AfterEvent(s, e))
    ensures !HasTab(s.tabs, e.tabId) ==> Spares(s, AfterEvent(s, e))
  {
    hide Valid, AfterEvent, PersistentFaces;
    var r := AfterEvent(s, e);
    EventFaces(s, e);
    EventLog(s, e);
    var faces, faces' := Faces(s.tabs), Faces(r.tabs);
    var i := IndexOf(s.tabs, e.tabId);
    if i < |s.tabs| {
      assert faces' == faces[i := faces'[i]];
      if faces[i].isEphemeral {
        PersistentUpdate(faces, i, faces'[i]);
      }
    } else {
      assert faces' == faces;
    }
  }

  lemma EventLog(s: Session, e: EngineEvent)
    ensures AfterEvent(s, e).commands == s.commands
  {
  }

  // ---------- Entering and leaving ----------

  // Commands about the ephemeral mode leave the engine's tabs alone; the private context may be
  // purged because no private tab is left and the mode is off.
  lemma ModeCommandKeeps(s: Session, c: EngineCommand)
    requires Valid(s)
    requires c.SetEphemeralMode?
          || (c.PurgeEphemeralContext? && !ModeFlag(s) && forall i | 0 <= i < |s.tabs| :: !s.tabs[i].isEphemeral)
    ensures Valid(Emit(s, c))
    ensures ModeFlag(Emit(s, c)) == if c.SetEphemeralMode? then c.enabled else ModeFlag(s)
  {
    hide WellFormedTabs, WellFormedRecords;
    ReplaySnoc(s.commands, c);
    if c.PurgeEphemeralContext? {
      assert IdsOf(s.tabs, PrivateTabs) == {};
    }
  }

  lemma EnteredProfiles(p: Profiles)
    requires ValidProfiles(p)
    ensures var created := AfterCreateEphemeral(p);
      var r := AfterSetActive(created, EphemeralId(created.ephemeralCounter));
      ValidProfiles(r) && EphemeralActive(r)
  {
    hide EphemeralId;
  }

  lemma EnterSafe(d: Desktop)
    requires ModeSafe(d)
    ensures ModeSafe(AfterEnter(d)) && IsPrivate(AfterEnter(d)) && Spares(d.session, AfterEnter(d).session)
  {
    hide Valid, ModeFlag, ReservedIssued, EphemeralId, WithPrivateTab, InMode;
    var created := AfterCreateEphemeral(d.profiles);
    var entered := d.(profiles := AfterSetActive(created, EphemeralId(created.ephemeralCounter)),
                      session := Emit(d.session, SetEphemeralMode(true)));
    EnteredProfiles(d.profiles);
    ModeCommandKeeps(d.session, SetEphemeralMode(true));
    SparesSelf(d.session);
    PrivateTabSafe(entered);
  }

  // Each face of b is a face of a.
  ghost predicate FacesFrom(a: seq<Face>, b: seq<Face>) {
    forall j | 0 <= j < |b| :: b[j] in a
  }

  // Closing private tabs one by one: nothing else goes, and no tab with one of the ids stays.
  lemma {:induction false} ClosesSpare(s: Session, ids: seq<TabId>)
    requires Valid(s)
    requires forall id, i | id in ids && 0 <= i < |s.tabs| && s.tabs[i].id == id :: s.tabs[i].isEphemeral
    ensures var r := AfterCloses(s, ids);
      && Valid(r) && ModeFlag(r) == ModeFlag(s) && Spares(s, r)
      && FacesFrom(Faces(s.tabs), Faces(r.tabs))
      && (forall j | 0 <= j < |r.tabs| :: r.tabs[j].id !in ids)
      && r.activeTabId in {s.activeTabId, None}
  {
    hide Valid, ModeFlag, AfterClose;
    if ids == [] {
      SparesSelf(s);
    } else {
      var n := |ids| - 1;
      assert forall id | id in ids[..n] :: id in ids;
      assert ids[n] in ids;
      ClosesSpare(s, ids[..n]);
      CloseOneMore(s, AfterCloses(s, ids[..n]), ids);
    }
  }

  lemma CloseOneMore(s: Session, m: Session, ids: seq<TabId>)
    requires ids != [] && Valid(m) && Spares(s, m) && FacesFrom(Faces(s.tabs), Faces(m.tabs))
    requires forall i | 0 <= i < |s.tabs| && s.tabs[i].id == ids[|ids| - 1] :: s.tabs[i].isEphemeral
    requires forall j | 0 <= j < |m.tabs| :: m.tabs[j].id !in ids[..|ids| - 1]
    ensures var r := AfterClose(m, ids[|ids| - 1], DoNotActivateFallback);
      && Valid(r) && ModeFlag(r) == ModeFlag(m) && Spares(s, r)
      && FacesFrom(Faces(s.tabs), Faces(r.tabs))
      && (forall j | 0 <= j < |r.tabs| :: r.tabs[j].id !in ids)
      && r.activeTabId in {m.activeTabId, None}
  {
    hide ModeFlag, AfterClose, Valid, Spares;
    var n := |ids| - 1;
    var id := ids[n];
    var r := AfterClose(m, id, DoNotActivateFallback);
    CloseKeeps(m, id, DoNotActivateFallback);
    CloseFlag(m, id, DoNotActivateFallback);
    if HasTab(m.tabs, id) {
      var i := IndexOf(m.tabs, id);
      OneFewer(m, id);
      assert Faces(m.tabs)[i] in Faces(s.tabs);
      QuietCloseSpares(m, id);
      SparesTwice(s, m, r);
      assert forall j | 0 <= j < |r.tabs| :: r.tabs[j].id !in ids[..n];
    } else {
      MissingQuietClose(m, id);
    }
    assert forall x | x in ids :: x in ids[..n] || x == id;
  }

  lemma OneFewer(m: Session, id: TabId)
    requires Valid(m) && HasTab(m.tabs, id)
    ensures var r := AfterClose(m, id, DoNotActivateFallback); var i := IndexOf(m.tabs, id);
      && |r.tabs| == |m.tabs| - 1
      && (forall j | 0 <= j < |r.tabs| :: Faces(r.tabs)[j] == Faces(m.tabs)[if j < i then j else j + 1])
      && (forall j | 0 <= j < |r.tabs| :: r.tabs[j].id == m.tabs[if j < i then j else j + 1].id != id)
      && r.activeTabId in {m.activeTabId, None}
  {
    hide AfterClose, EngineAgrees, WellFormedRecords;
    var i := IndexOf(m.tabs, id);
    QuietCloseFaces(m, id);
    var r := AfterClose(m, id, DoNotActivateFallback);
    forall j | 0 <= j < |r.tabs|
      ensures Faces(r.tabs)[j] == Faces(m.tabs)[if j < i then j else j + 1]
      ensures r.tabs[j].id == m.tabs[if j < i then j else j + 1].id != id
    {
      assert Faces(r.tabs)[j] == WithoutIndex(Faces(m.tabs), i)[j];
    }
  }

  lemma MissingQuietClose(s: Session, id: TabId)
    requires !HasTab(s.tabs, id)
    ensures AfterClose(s, id, DoNotActivateFallback) == s
  {
  }

  // After the wipe no private tab, record, profile or mode is left, and the engine has dropped its
  // private context after its last private tab.
  lemma WipeClean(d: Desktop)
    requires Sound(d)
    ensures var r := AfterWipe(d);
      && Sound(r) && !IsPrivate(r) && Spares(d.session, r.session)
      && (forall i | 0 <= i < |r.session.tabs| :: !r.session.tabs[i].isEphemeral)
      && (forall i | 0 <= i < |r.session.closedTabs| :: !r.session.closedTabs[i].isEphemeral)
      && FacesFrom(Faces(d.session.tabs), Faces(r.session.tabs))
  {
    hide ModeFlag, AfterCloses, Valid, AfterSetActive, AfterPurge, ValidProfiles;
    ClosedIsPersistent(d);
    WipeTail(d, AfterCloses(d.session, EphemeralIds(d.session.tabs)));
  }

  lemma ClosedIsPersistent(d: Desktop)
    requires Valid(d.session)
    ensures var r := AfterCloses(d.session, EphemeralIds(d.session.tabs));
      && Valid(r) && ModeFlag(r) == ModeFlag(d.session) && Spares(d.session, r)
      && FacesFrom(Faces(d.session.tabs), Faces(r.tabs))
      && (forall i | 0 <= i < |r.tabs| :: !r.tabs[i].isEphemeral)
  {
    hide ModeFlag, AfterCloses, EngineAgrees, Spares;
    var s := d.session;
    var ids := EphemeralIds(s.tabs);
    forall id, i | id in ids && 0 <= i < |s.tabs| && s.tabs[i].id == id ensures s.tabs[i].isEphemeral {
      var j :| 0 <= j < |ids| && ids[j] == id;
      var k :| 0 <= k < |s.tabs| && s.tabs[k].isEphemeral && s.tabs[k].id == ids[j];
    }
    ClosesSpare(s, ids);
    var closed := AfterCloses(s, ids);
    forall i | 0 <= i < |closed.tabs| ensures !closed.tabs[i].isEphemeral {
      assert Faces(closed.tabs)[i] in Faces(s.tabs);
      var j :| 0 <= j < |s.tabs| && Faces(s.tabs)[j] == Faces(closed.tabs)[i];
    }
  }

  lemma WipeTail(d: Desktop, closed: Session)
    requires ValidProfiles(d.profiles) && "" !in d.profiles.known && Valid(closed)
    requires forall i | 0 <= i < |closed.tabs| :: !closed.tabs[i].isEphemeral
    requires closed == AfterCloses(d.session, EphemeralIds(d.session.tabs))
    requires Spares(d.session, closed)
    ensures var r := AfterWipe(d);
      && Sound(r) && !IsPrivate(r) && Spares(d.session, r.session) && r.session.tabs == closed.tabs
      && (forall i | 0 <= i < |r.session.closedTabs| :: !r.session.closedTabs[i].isEphemeral)
  {
    hide Valid, ModeFlag, AfterCloses;
    var off := Emit(closed, SetEphemeralMode(false));
    var purged := Emit(off, PurgeEphemeralContext);
    ModeCommandKeeps(closed, SetEphemeralMode(false));
    ModeCommandKeeps(off, PurgeEphemeralContext);
    PurgeClosedKeeps(purged);
    SameLogFlag(purged, AfterPurgeClosed(purged));
    PurgeLeavesPersistent(AfterSetActive(d.profiles, DEFAULT_ID));
    hide PersistentRecords;
    PersistentRecordsKept(closed.closedTabs);
    PurgedRecords(closed.closedTabs);
    RecordsArePersistent(closed.closedTabs);
  }

  lemma RecordsArePersistent(records: seq<ClosedTabRecord>)
    ensures var r := PersistentRecords(records); forall i | 0 <= i < |r| :: !r[i].isEphemeral
  {
    var r := PersistentRecords(records);
    assert forall i | 0 <= i < |r| :: r[i] in r;
  }

  lemma RestoreSafe(d: Desktop)
    requires Sound(d) && !IsPrivate(d)
    requires forall i | 0 <= i < |d.session.tabs| :: !d.session.tabs[i].isEphemeral
    requires forall i | 0 <= i < |d.session.closedTabs| :: !d.session.closedTabs[i].isEphemeral
    requires ReservedIssued(Faces(d.session.tabs), d.privateTabs)
    ensures ModeSafe(AfterRestorePersistent(d)) && !IsPrivate(AfterRestorePersistent(d))
    ensures d.session.tabs != [] ==> Spares(d.session, AfterRestorePersistent(d).session)
  {
    hide Valid, ModeFlag, AfterOpen, AfterActivate, ReservedIssued, IsReserved;
    var s := d.session;
    var r := AfterRestorePersistent(d).session;
    if s.tabs == [] {
      var tab := DefaultTab(d.persistentTabs + 1);
      assert Faces(s.tabs) == [];
      assert ReservedIssued(Faces(s.tabs), d.privateTabs);
      NotReserved(tab.id);
      DefaultTabOpens(s, d.persistentTabs + 1);
      OpenKeeps(s, tab, true);
      OpenFlag(s, tab, true);
      OpenFaces(s, tab, true);
      SessionOnly(d, r);
      AppendIssued([], OpenedFace(tab), d.privateTabs);
    } else {
      var k := FirstOfMode(s.tabs, false);
      assert k == 0;
      ActivateKeeps(s, s.tabs[k].id);
      ActivateFlag(s, s.tabs[k].id);
      ActivateFaces(s, s.tabs[k].id);
      SessionOnly(d, r);
      FirstPresent(s.tabs);
    }
  }

  lemma DefaultTabOpens(s: Session, n: nat)
    requires s.tabs == []
    ensures Opens(s, DefaultTab(n))
  {
  }

  lemma FirstPresent(tabs: seq<Tab>)
    requires tabs != []
    ensures HasTab(tabs, tabs[0].id)
  {
  }

  lemma FromIssued(a: seq<Face>, b: seq<Face>, n: nat)
    requires ReservedIssued(a, n) && FacesFrom(a, b)
    ensures ReservedIssued(b, n)
  {
    hide IsReserved, Issued;
    forall j | 0 <= j < |b| && IsReserved(b[j].id) ensures Issued(b[j].id, n) {
      assert b[j] in a;
      var i :| 0 <= i < |a| && a[i] == b[j];
    }
  }

  lemma ExitSafe(d: Desktop)
    requires ModeSafe(d)
    ensures ModeSafe(AfterExit(d)) && !IsPrivate(AfterExit(d))
    ensures PersistentFaces(Faces(d.session.tabs)) != [] ==> Spares(d.session, AfterExit(d).session)
  {
    hide Sound, ReservedIssued, AfterWipe, AfterRestorePersistent;
    var w := AfterWipe(d);
    WipeClean(d);
    WipeCounters(d);
    FromIssued(Faces(d.session.tabs), Faces(w.session.tabs), d.privateTabs);
    RestoreSafe(w);
    if w.session.tabs != [] {
      SparesTwice(d.session, w.session, AfterExit(d).session);
    } else {
      assert PersistentFaces(Faces(w.session.tabs)) == [];
    }
  }

  lemma WipeCounters(d: Desktop)
    ensures AfterWipe(d).privateTabs == d.privateTabs
  {
  }

  // ---------- Whole runs ----------

  lemma DesktopStepSafe(d: Desktop, op: DesktopOp)
    requires ModeSafe(d) && Permitted(d, op)
    ensures ModeSafe(DesktopStep(d, op))
  {
    hide ModeSafe, AfterOpen, AfterCycle, AfterSuspend, AfterResume, AfterDiscard, AfterNavigate, AfterHistory,
      AfterEvent, AfterActivate, AfterClose, AfterEnter, AfterExit, AfterReopenClosed, AfterPrivateClose, IsReserved;
    match op
    case EnterPrivate => EnterSafe(d);
    case ExitPrivate => ExitSafe(d);
    case CloseTheTab(id) => if IsPrivate(d) { PrivateCloseSafe(d, id); } else { NormalCloseSafe(d, id); }
    case CloseTheActiveTab =>
      if d.session.activeTabId.Some? {
        var id := d.session.activeTabId.value;
        if IsPrivate(d) { PrivateCloseSafe(d, id); } else { NormalCloseSafe(d, id); }
      }
    case ActivateTheTab(id) => if CanActivate(d, id) { ActivateSafe(d, id); }
    case ReopenAClosedTab => ReopenSafe(d);
    case OpenATab(tab, activate) => OpenSafe(d, tab, activate);
    case CycleVisible(forward) => CycleSafe(d, forward);
    case ActivateFocus(items, itemId) => FocusSafe(d, items, itemId);
    case SuspendTheTab(id) => QuietSafe(d, id, "", Reload);
    case ResumeTheTab(id) => QuietSafe(d, id, "", Reload);
    case DiscardTheTab(id) => QuietSafe(d, id, "", Reload);
    case NavigateTheTab(id, url) => QuietSafe(d, id, url, Reload);
    case HistoryOfTab(id, command) => QuietSafe(d, id, "", command);
    case Engine(event) => EventSafe(d, event);
    case CreateAProfile(_, _) => ProfilesSafe(d, op);
    case SelectAProfile(_) => ProfilesSafe(d, op);
    case RemoveAProfile(_) => ProfilesSafe(d, op);
  }

  // In normal mode the profiles can change without anything else.
  lemma ProfilesSafe(d: Desktop, op: DesktopOp)
    requires ModeSafe(d) && Permitted(d, op) && IsProfileOp(op)
    ensures ModeSafe(DesktopStep(d, op))
  {
    hide SessionInvariant.Valid, InMode, ReservedIssued, ModeFlag;
    var p := DesktopStep(d, op).profiles;
    assert ValidProfiles(p) && !EphemeralActive(p);
  }

  lemma {:induction false} DesktopRunSafe(d: Desktop, ops: seq<DesktopOp>)
    requires ModeSafe(d) && PermittedRun(d, ops)
    ensures ModeSafe(DesktopRun(d, ops))
    decreases |ops|
  {
    hide ModeSafe, DesktopStep;
    if ops != [] {
      DesktopStepSafe(d, ops[0]);
      DesktopRunSafe(DesktopStep(d, ops[0]), ops[1..]);
    }
  }

  // After any run of permitted calls on a new desktop: in private mode a private tab is active and the
  // engine is in ephemeral mode; otherwise no private tab and no private closed-tab record exists.
  lemma {:induction false} ModeSafety(ops: seq<DesktopOp>)
    requires PermittedRun(NEW_DESKTOP, ops)
    ensures var d := DesktopRun(NEW_DESKTOP, ops); var s := d.session;
      && Valid(s)
      && Replay(s.commands).ephemeralMode == IsPrivate(d)
      && (if IsPrivate(d) then FocusControllers.EphemeralTabActive(s)
          else
            && (forall i | 0 <= i < |s.tabs| :: !s.tabs[i].isEphemeral)
            && (forall i | 0 <= i < |s.closedTabs| :: !s.closedTabs[i].isEphemeral)
            && (s.tabs != [] ==> s.activeTabId.Some?))
  {
    hide DesktopRun, PermittedRun, Issued;
    assert ModeSafe(NEW_DESKTOP);
    DesktopRunSafe(NEW_DESKTOP, ops);
    var d := DesktopRun(NEW_DESKTOP, ops);
    if IsPrivate(d) {
      PrivateShown(d);
    } else {
      assert forall i | 0 <= i < |d.session.tabs| :: Faces(d.session.tabs)[i] == FaceOf(d.session.tabs[i]);
    }
  }

  // A step inside a private session: anything but leaving it, and engine events only for tabs that are
  // private (or gone).
  predicate InsidePrivate(d: Desktop, op: DesktopOp) {
    && op != ExitPrivate
    && (op.Engine? ==> var i := IndexOf(d.session.tabs, op.event.tabId);
          i == |d.session.tabs| || d.session.tabs[i].isEphemeral)
  }

  predicate PrivateRun(d: Desktop, ops: seq<DesktopOp>)
    decreases |ops|
  {
    ops == [] || (Permitted(d, ops[0]) && InsidePrivate(d, ops[0]) && PrivateRun(DesktopStep(d, ops[0]), ops[1..]))
  }

  lemma PrivateStepSpares(d: Desktop, op: DesktopOp)
    requires ModeSafe(d) && IsPrivate(d) && Permitted(d, op) && InsidePrivate(d, op)
    ensures Spares(d.session, DesktopStep(d, op).session) && IsPrivate(DesktopStep(d, op))
  {
    hide ModeSafe, Spares, AfterOpen, AfterCycle, AfterSuspend, AfterResume, AfterDiscard, AfterNavigate, AfterHistory,
         AfterEvent, AfterActivate, AfterClose, AfterEnter, AfterExit, AfterPrivateClose, IsReserved;
    SparesSelf(d.session);
    match op
    case EnterPrivate => EnterSafe(d);
    case CloseTheTab(id) => PrivateCloseSafe(d, id);
    case CloseTheActiveTab => if d.session.activeTabId.Some? { PrivateCloseSafe(d, d.session.activeTabId.value); }
    case ActivateTheTab(id) => if CanActivate(d, id) { ActivateSafe(d, id); }
    case ReopenAClosedTab => ReopenSafe(d);
    case OpenATab(tab, activate) => OpenSafe(d, tab, activate);
    case CycleVisible(forward) => CycleSafe(d, forward);
    case ActivateFocus(items, itemId) => FocusSafe(d, items, itemId);
    case SuspendTheTab(id) => QuietSafe(d, id, "", Reload);
    case ResumeTheTab(id) => QuietSafe(d, id, "", Reload);
    case DiscardTheTab(id) => QuietSafe(d, id, "", Reload);
    case NavigateTheTab(id, url) => QuietSafe(d, id, url, Reload);
    case HistoryOfTab(id, command) => QuietSafe(d, id, "", command);
    case Engine(event) => EventSafe(d, event);
    case CreateAProfile(_, _) =>
    case SelectAProfile(_) =>
    case RemoveAProfile(_) =>
  }

  lemma {:induction false} PrivateRunSpares(d: Desktop, ops: seq<DesktopOp>)
    requires ModeSafe(d) && IsPrivate(d) && PrivateRun(d, ops)
    ensures ModeSafe(DesktopRun(d, ops)) && Spares(d.session, DesktopRun(d, ops).session)
    decreases |ops|
  {
    hide ModeSafe, Spares, DesktopStep, Permitted, InsidePrivate;
    if ops == [] {
      SparesSelf(d.session);
    } else {
      var e := DesktopStep(d, ops[0]);
      DesktopStepSafe(d, ops[0]);
      PrivateStepSpares(d, ops[0]);
      PrivateRunSpares(e, ops[1..]);
      SparesTwice(d.session, e.session, DesktopRun(d, ops).session);
    }
  }

  // The desktop after entering private mode, any private run, and leaving again.
  function PrivateEpisode(d: Desktop, ops: seq<DesktopOp>): Desktop {
    AfterExit(DesktopRun(AfterEnter(d), ops))
  }

  // A private session that starts from normal mode with at least one tab leaves exactly the tabs there
  // were, in order, with the same id, url, title and workspace, and a suffix of the closed-tab records.
  lemma {:induction false} PrivateNonInterference(d: Desktop, ops: seq<DesktopOp>)
    requires ModeSafe(d) && !IsPrivate(d) && d.session.tabs != []
    requires PrivateRun(AfterEnter(d), ops)
    ensures var r := PrivateEpisode(d, ops);
      && Faces(r.session.tabs) == Faces(d.session.tabs)
      && IsSuffix(r.session.closedTabs, d.session.closedTabs)
      && ModeSafe(r) && !IsPrivate(r)
  {
    hide Sound, ReservedIssued, AfterEnter, AfterExit, DesktopRun, PrivateRun;
    var s := d.session;
    var m := DesktopRun(AfterEnter(d), ops);
    var r := AfterExit(m);
    EnterSafe(d);
    PrivateRunSpares(AfterEnter(d), ops);
    SparesTwice(s, AfterEnter(d).session, m.session);
    PersistentOfPersistent(Faces(s.tabs));
    assert PersistentFaces(Faces(m.session.tabs)) == Faces(s.tabs);
    ExitSafe(m);
    SparesTwice(s, m.session, r.session);
    PersistentOfPersistent(Faces(r.session.tabs));
    RecordsOfPersistent(s.closedTabs);
    RecordsOfPersistent(r.session.closedTabs);
  }

  lemma {:induction false} RecordsOfPersistent(closed: seq<ClosedTabRecord>)
    requires forall i | 0 <= i < |closed| :: !closed[i].isEphemeral
    ensures PersistentRecords(closed) == closed
  {
    if closed != [] {
      var n := |closed| - 1;
      RecordsOfPersistent(closed[..n]);
      assert closed == closed[..n] + [closed[n]];
    }
  }
}
