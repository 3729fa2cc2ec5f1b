/** BrowserSession as the source has it: an object that edits its tab list, closed-tab
    stack, active id and counters in place (src/core/session/browser_session.cpp).  Every
    method is proved to produce the session value SessionSpec gives it. */
module Browser {
  import opened Common
  import opened Tabs
  import opened SessionSpec
  import opened SessionInvariant

  class BrowserSession {
    var tabs: seq<Tab>
    var closedTabs: seq<ClosedTabRecord>
    var activeTabId: Option<TabId>
    var lastActivatedCounter: nat
    var restoredCounter: nat
    // What the engine port has been asked to do, in order.
    ghost var commands: seq<EngineCommand>

    ghost function State(): Session
      reads this
    {
      Session(tabs, closedTabs, activeTabId, lastActivatedCounter, restoredCounter, commands)
    }

    ghost predicate Valid()
      reads this
    {
      SessionInvariant.Valid(State())
    }

    constructor ()
      ensures Valid() && State() == EMPTY_SESSION
    {
      tabs, closedTabs, activeTabId, lastActivatedCounter, restoredCounter, commands := [], [], None, 0, 0, [];
    }

    method FindMutable(id: TabId) returns (k: nat)
      ensures k == IndexOf(tabs, id)
    {
      k := 0;
      while k < |tabs| && tabs[k].id != id
        invariant k <= |tabs|
        invariant forall j | 0 <= j < k :: tabs[j].id != id
      {
        k := k + 1;
      }
    }

    method DemoteActiveTab()
      modifies this`tabs
      ensures tabs == Demoted(old(tabs), activeTabId)
    {
      if activeTabId.None? {
        return;
      }
      var k := FindMutable(activeTabId.value);
      if k < |tabs| && tabs[k].lifecycle == Active {
        tabs := tabs[k := tabs[k].(lifecycle := Background)];
      }
    }

    // The lines every activation ends with: lifecycle, stamp, active id, engine command.
    method MarkActive(k: nat)
      requires k < |tabs|
      modifies this
      ensures State() == MadeActive(old(State()), k)
    {
      lastActivatedCounter := lastActivatedCounter + 1;
      tabs := tabs[k := tabs[k].(lifecycle := Active, lastActivatedSequence := lastActivatedCounter)];
      activeTabId := Some(tabs[k].id);
      commands := commands + [Activate(tabs[k].id)];
    }

    method OpenTab(newTab: Tab, activate: bool) returns (ok: bool)
      requires Valid()
      modifies this
      ensures Valid() && State() == AfterOpen(old(State()), newTab, activate)
      ensures ok == Opens(old(State()), newTab)
    {
      hide SessionInvariant.Valid;
      ghost var before := State();
      hide OpeningUrl, Demoted;
      var tab := newTab.(url := OpeningUrl(newTab));
      OpenKeeps(before, newTab, activate);
      if tab.id == "" || tab.url == "" {
        assert !Opens(before, newTab);
        return false;
      }
      var found := FindMutable(tab.id);
      if found < |tabs| {
        return false;
      }
      assert Opens(before, newTab);

      var shouldActivate := tabs == [] || activate;
      if shouldActivate {
        DemoteActiveTab();
        lastActivatedCounter := lastActivatedCounter + 1;
        tab := tab.(lifecycle := Active, lastActivatedSequence := lastActivatedCounter);
        activeTabId := Some(tab.id);
      } else {
        tab := tab.(lifecycle := Background);
      }
      tab := tab.(pendingUrl := Some(tab.url), navigationState := Requested, lastError := None,
                  rendererCrashed := false, hasCommittedNavigation := false);
      assert tab == OpenedTab(newTab, shouldActivate, if shouldActivate then lastActivatedCounter else 0);
      tabs := tabs + [tab];
      commands := commands + [Create(tab.id, tab.isEphemeral)];
      if shouldActivate {
        commands := commands + [Activate(activeTabId.value)];
      }
      ok := true;
      assert commands == AfterOpen(before, newTab, activate).commands;
      assert tabs == AfterOpen(before, newTab, activate).tabs;
    }

    method ActivateAfterClose(preferred: nat)
      requires Valid() && activeTabId.None?
      modifies this
      ensures Valid() && State() == AfterFallback(old(State()), preferred)
    {
      hide SessionInvariant.Valid;
      ghost var before := State();
      FallbackKeeps(before, preferred);
      if tabs == [] {
        return;
      }
      var start := Min(preferred, |tabs| - 1);
      var offset := 0;
      while offset < |tabs|
        invariant 0 <= offset <= |tabs|
        invariant State() == before
        invariant ScanLeft(tabs, start, 0) == ScanLeft(tabs, start, offset)
        invariant offset > 0 ==> tabs[start].lifecycle == Discarded
      {
        ModOnce(start + |tabs| - offset, |tabs|);
        var index := (start + |tabs| - offset) % |tabs|;
        if tabs[index].lifecycle != Discarded {
          if tabs[index].lifecycle == Suspended {
            commands := commands + [Resume(tabs[index].id)];
          }
          MarkActive(index);
          return;
        }
        offset := offset + 1;
      }
      // Every tab is discarded: re-create the one at the start of the scan.
      commands := commands + [Create(tabs[start].id, tabs[start].isEphemeral)];
      MarkActive(start);
    }

    method CloseTab(id: TabId, policy: CloseActivationPolicy) returns (ok: bool)
      requires Valid()
      modifies this
      ensures Valid() && State() == AfterClose(old(State()), id, policy)
      ensures ok == HasTab(old(tabs), id)
    {
      hide SessionInvariant.Valid;
      ghost var before := State();
      var k := FindMutable(id);
      if k == |tabs| {
        return false;
      }
      if !IsBlankOrNewTabUrl(tabs[k].url) {
        closedTabs := closedTabs + [
          ClosedTabRecord(tabs[k].url, tabs[k].title, tabs[k].workspaceId, tabs[k].isEphemeral)];
        if |closedTabs| > 25 {
          closedTabs := closedTabs[1..];
        }
      }
      var wasActive := activeTabId == Some(id);
      commands := commands + [Close(id)];
      tabs := tabs[..k] + tabs[k + 1..];
      if wasActive {
        activeTabId := None;
        if policy == ActivateFallback {
          ghost var removed := State();
          CloseKeeps(before, id, DoNotActivateFallback);
          assert removed == AfterClose(before, id, DoNotActivateFallback);
          ActivateAfterClose(k);
        }
      }
      ok := true;
      CloseKeeps(before, id, policy);
    }

    method ReopenLastClosedTab(mode: ClosedTabMode) returns (restored: Option<TabId>)
      requires Valid()
      modifies this
      ensures Valid() && State() == AfterReopen(old(State()), mode)
      ensures restored == ReopenResult(old(State()), mode)
    {
      hide SessionInvariant.Valid;
      ghost var before := State();
      hide AfterOpen, Opens;
      var k := |closedTabs|;
      while k > 0
        invariant 0 <= k <= |closedTabs|
        invariant State() == before
        invariant forall j | k <= j < |closedTabs| :: !ModeMatches(mode, closedTabs[j])
      {
        var record := closedTabs[k - 1];
        if (mode == PersistentOnly && record.isEphemeral) || (mode == EphemeralOnly && !record.isEphemeral) {
          k := k - 1;
          continue;
        }
        assert NewestMatch(closedTabs, mode) == k;
        closedTabs := closedTabs[..k - 1] + closedTabs[k..];
        restoredCounter := restoredCounter + 1;
        UnstackedKeeps(before, k);
        var id := "restored-" + Decimal(restoredCounter);
        var ok := OpenTab(
          NewTab(id, record.url, if record.title == "" then record.url else record.title, record.workspaceId,
                 record.isEphemeral),
          true);
        return if ok then Some(id) else None;
      }
      return None;
    }

    method PurgeEphemeralClosedTabs()
      requires Valid()
      modifies this
      ensures Valid() && State() == AfterPurgeClosed(old(State()))
    {
      hide SessionInvariant.Valid;
      ghost var before := State();
      PurgeClosedKeeps(before);
      var kept: seq<ClosedTabRecord> := [];
      for i := 0 to |closedTabs|
        invariant State() == before
        invariant kept == PersistentRecords(closedTabs[..i])
      {
        assert closedTabs[..i + 1][..i] == closedTabs[..i];
        if !closedTabs[i].isEphemeral {
          kept := kept + [closedTabs[i]];
        }
      }
      assert closedTabs[..|closedTabs|] == closedTabs;
      closedTabs := kept;
    }

    method ActivateTab(id: TabId) returns (ok: bool)
      requires Valid()
      modifies this
      ensures Valid() && State() == AfterActivate(old(State()), id)
      ensures ok == HasTab(old(tabs), id)
    {
      hide SessionInvariant.Valid;
      ghost var before := State();
      ActivateKeeps(before, id);
      var k := FindMutable(id);
      if k == |tabs| {
        return false;
      }
      if activeTabId == Some(id) {
        return true;
      }
      if tabs[k].lifecycle == Discarded {
        commands := commands + [Create(tabs[k].id, tabs[k].isEphemeral)];
      } else if tabs[k].lifecycle == Suspended {
        commands := commands + [Resume(id)];
      }
      DemoteActiveTab();
      MarkActive(k);
      ok := true;
    }

    method CollectVisible(filter: Tab -> bool) returns (visible: seq<nat>)
      ensures visible == VisibleIndices(tabs, filter)
    {
      visible := [];
      for i := 0 to |tabs|
        invariant visible == VisibleIndices(tabs[..i], filter)
      {
        assert tabs[..i + 1][..i] == tabs[..i];
        if filter(tabs[i]) {
          visible := visible + [i];
        }
      }
      assert tabs[..|tabs|] == tabs;
    }

    method FindVisible(visible: seq<nat>, id: TabId) returns (position: nat)
      requires forall j | 0 <= j < |visible| :: visible[j] < |tabs|
      ensures position == VisiblePosition(tabs, visible, id)
    {
      position := 0;
      while position < |visible| && tabs[visible[position]].id != id
        invariant position <= |visible|
        invariant forall j | 0 <= j < position :: tabs[visible[j]].id != id
      {
        position := position + 1;
      }
    }

    // Where a cycle step goes; |tabs| when no tab is visible.
    method FindCycleTarget(forward: bool, filter: Tab -> bool) returns (k: nat)
      ensures k == CycleTarget(tabs, activeTabId, forward, filter)
    {
      hide VisibleIndices, VisiblePosition;
      var visible := CollectVisible(filter);
      if visible == [] {
        return |tabs|;
      }
      if |visible| == 1 {
        return visible[0];
      }
      var position := |visible|;
      if activeTabId.Some? {
        position := FindVisible(visible, activeTabId.value);
      }
      var next := 0;
      if position < |visible| {
        next := if forward then (position + 1) % |visible| else (position + |visible| - 1) % |visible|;
      }
      k := visible[next];
    }

    method CycleTab(forward: bool, filter: Tab -> bool) returns (ok: bool)
      requires Valid()
      modifies this
      ensures Valid() && State() == AfterCycle(old(State()), forward, filter)
      ensures ok <==> VisibleIndices(old(tabs), filter) != []
    {
      hide SessionInvariant.Valid, AfterActivate;
      if tabs == [] {
        return false;
      }
      var target := FindCycleTarget(forward, filter);
      if target == |tabs| {
        return false;
      }
      ok := ActivateTab(tabs[target].id);
    }

    method PrepareTabForNavigationCommand(id: TabId) returns (ok: bool)
      requires Valid()
      modifies this
      ensures ok == IsLoaded(old(State()), id)
      ensures Valid() && State() == if ok then Prepared(old(State()), IndexOf(old(tabs), id)) else old(State())
    {
      hide SessionInvariant.Valid;
      ghost var before := State();
      var k := FindMutable(id);
      if k == |tabs| || tabs[k].lifecycle == Discarded {
        return false;
      }
      PreparedKeeps(before, k);
      if tabs[k].lifecycle == Suspended {
        commands := commands + [Resume(id)];
        tabs := tabs[k := tabs[k].(lifecycle := Background)];
      }
      ok := true;
    }

    method Navigate(id: TabId, url: string) returns (ok: bool)
      requires Valid()
      modifies this
      ensures Valid() && State() == AfterNavigate(old(State()), id, url)
      ensures ok == (url != "" && IsLoaded(old(State()), id))
    {
      hide SessionInvariant.Valid;
      ghost var before := State();
      NavigateKeeps(before, id, url);
      if url == "" {
        return false;
      }
      var k := FindMutable(id);
      if k == |tabs| || tabs[k].lifecycle == Discarded {
        return false;
      }
      if tabs[k].lifecycle == Suspended {
        commands := commands + [Resume(id)];
        tabs := tabs[k := tabs[k].(lifecycle := Background)];
      }
      tabs := tabs[k := tabs[k].(pendingUrl := Some(url), navigationState := Requested, lastError := None,
                                 rendererCrashed := false)];
      commands := commands + [NavigateTo(id, url)];
      ok := true;
    }

    method GoBackForwardOrReload(id: TabId, command: HistoryCommand) returns (ok: bool)
      requires Valid()
      modifies this
      ensures Valid() && State() == AfterHistory(old(State()), id, command)
      ensures ok == IsLoaded(old(State()), id)
    {
      hide SessionInvariant.Valid;
      HistoryKeeps(State(), id, command);
      ok := PrepareTabForNavigationCommand(id);
      if ok {
        commands := commands + [History(id, command)];
      }
    }

    method SuspendTab(id: TabId) returns (ok: bool)
      requires Valid()
      modifies this
      ensures Valid() && State() == AfterSuspend(old(State()), id)
      ensures ok == CanUnload(old(State()), id)
    {
      hide SessionInvariant.Valid;
      SuspendKeeps(State(), id);
      var k := FindMutable(id);
      if k == |tabs| || tabs[k].lifecycle == Discarded || tabs[k].lifecycle == Active {
        return false;
      }
      if tabs[k].lifecycle == Suspended {
        return true;
      }
      commands := commands + [Suspend(id)];
      tabs := tabs[k := tabs[k].(lifecycle := Suspended)];
      ok := true;
    }

    method ResumeTab(id: TabId) returns (ok: bool)
      requires Valid()
      modifies this
      ensures Valid() && State() == AfterResume(old(State()), id)
      ensures ok == IsLoaded(old(State()), id)
    {
      hide SessionInvariant.Valid;
      ResumeKeeps(State(), id);
      var k := FindMutable(id);
      if k == |tabs| || tabs[k].lifecycle == Discarded {
        return false;
      }
      if tabs[k].lifecycle != Suspended {
        return true;
      }
      commands := commands + [Resume(id)];
      tabs := tabs[k := tabs[k].(lifecycle := Background)];
      ok := true;
    }

    method DiscardTab(id: TabId) returns (ok: bool)
      requires Valid()
      modifies this
      ensures Valid() && State() == AfterDiscard(old(State()), id)
      ensures ok == CanUnload(old(State()), id)
    {
      hide SessionInvariant.Valid;
      DiscardKeeps(State(), id);
      var k := FindMutable(id);
      if k == |tabs| || tabs[k].lifecycle == Discarded || tabs[k].lifecycle == Active {
        return false;
      }
      commands := commands + [Close(id)];
      tabs := tabs[k := tabs[k].(lifecycle := Discarded)];
      ok := true;
    }

    // The five engine event handlers.
    method OnEngineEvent(event: EngineEvent)
      requires Valid()
      modifies this
      ensures Valid() && State() == AfterEvent(old(State()), event)
    {
      hide SessionInvariant.Valid;
      EventKeeps(State(), event);
      var k := FindMutable(event.tabId);
      if k == |tabs| || tabs[k].lifecycle == Discarded {
        return;
      }
      var t := tabs[k];
      match event {
        case NavigationStarted(_, url) =>
          t := t.(pendingUrl := Some(url), navigationState := Loading, lastError := None, rendererCrashed := false);
        case NavigationCommitted(_, url) =>
          t := t.(url := url, pendingUrl := None, navigationState := Idle, lastError := None, rendererCrashed := false);
          t := t.(hasCommittedNavigation := true);
        case NavigationFailed(_, url, errorText) =>
          t := t.(pendingUrl := Some(url), navigationState := Failed, rendererCrashed := false);
          t := t.(lastError := Some(if errorText == "" then "navigation failed" else errorText));
        case TitleChanged(_, title) =>
          t := t.(title := title);
        case RendererCrashed(_, reason) =>
          t := t.(rendererCrashed := true, navigationState := Failed);
          t := t.(lastError := Some(if reason == "" then "renderer crashed" else reason));
      }
      tabs := tabs[k := t];
    }
  }
}
