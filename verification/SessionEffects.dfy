/** What each BrowserSession call does to the tab it names, field by field, and that it does nothing else. */
module SessionEffects {
  import opened Common
  import opened Tabs
  import opened SessionSpec

  // k is the tab with this id, the first one if there are several.
  predicate IsTab(tabs: seq<Tab>, k: nat, id: TabId) {
    k < |tabs| && tabs[k].id == id && forall j | 0 <= j < k :: tabs[j].id != id
  }

  // Who a tab is and what it shows.
  predicate SamePage(a: Tab, b: Tab) {
    && a.id == b.id && a.url == b.url && a.title == b.title && a.workspaceId == b.workspaceId
    && a.isEphemeral == b.isEphemeral && a.isPlayingAudio == b.isPlayingAudio
    && a.hasCommittedNavigation == b.hasCommittedNavigation
  }

  // How its navigation stands.
  predicate SameNavigation(a: Tab, b: Tab) {
    && a.pendingUrl == b.pendingUrl && a.navigationState == b.navigationState && a.lastError == b.lastError
    && a.rendererCrashed == b.rendererCrashed
  }

  // Nothing but tab k and the log has changed.
  predicate OnlyTab(s: Session, r: Session, k: nat) {
    && |r.tabs| == |s.tabs| && (forall j | 0 <= j < |s.tabs| && j != k :: r.tabs[j] == s.tabs[j])
    && r.closedTabs == s.closedTabs && r.activeTabId == s.activeTabId
    && r.lastActivated == s.lastActivated && r.restored == s.restored
  }

  // Its surface is there.
  predicate IsUp(s: Session, k: nat, id: TabId) {
    IsTab(s.tabs, k, id) && s.tabs[k].lifecycle != Discarded
  }

  predicate NoneUp(s: Session, id: TabId) {
    forall k: nat | k < |s.tabs| :: !IsUp(s, k, id)
  }

  // What wakes a suspended tab.
  function Waking(t: Tab): seq<EngineCommand> {
    if t.lifecycle == Suspended then [Resume(t.id)] else []
  }

  function AwakeAs(t: Tab): TabLifecycle {
    if t.lifecycle == Suspended then Background else t.lifecycle
  }

  // ---------- Navigation ----------

  // An accepted navigation wakes the tab if need be, sends exactly the url it was called with, and leaves that url
  // requested on this tab; otherwise nothing happens.
  lemma NavigateDoes(s: Session, id: TabId, url: string, k: nat)
    ensures var r := AfterNavigate(s, id, url);
      && (url == "" || NoneUp(s, id) ==> r == s)
      && (url != "" && IsUp(s, k, id) ==>
            && OnlyTab(s, r, k) && r.commands == s.commands + Waking(s.tabs[k]) + [NavigateTo(id, url)]
            && SamePage(s.tabs[k], r.tabs[k]) && r.tabs[k].lastActivatedSequence == s.tabs[k].lastActivatedSequence
            && r.tabs[k].lifecycle == AwakeAs(s.tabs[k])
            && r.tabs[k].pendingUrl == Some(url) && r.tabs[k].navigationState == Requested
            && r.tabs[k].lastError == None && !r.tabs[k].rendererCrashed)
  {
    FirstIsIndex(s, id, k);
  }

  lemma FirstIsIndex(s: Session, id: TabId, k: nat)
    ensures IsTab(s.tabs, k, id) ==> IndexOf(s.tabs, id) == k
    ensures NoneUp(s, id) ==> !IsLoaded(s, id)
    ensures IsUp(s, k, id) ==> IsLoaded(s, id)
  {
    var i := IndexOf(s.tabs, id);
    assert i < |s.tabs| ==> IsTab(s.tabs, i, id);
    assert IsLoaded(s, id) ==> IsUp(s, i, id);
  }

  // A history command goes to the tab after waking it, and changes nothing else.
  lemma HistoryDoes(s: Session, id: TabId, command: HistoryCommand, k: nat)
    ensures var r := AfterHistory(s, id, command);
      && (NoneUp(s, id) ==> r == s)
      && (IsUp(s, k, id) ==>
            && OnlyTab(s, r, k) && r.commands == s.commands + Waking(s.tabs[k]) + [History(id, command)]
            && r.tabs[k] == s.tabs[k].(lifecycle := AwakeAs(s.tabs[k])))
  {
    FirstIsIndex(s, id, k);
  }

  // ---------- Suspending, resuming, discarding ----------

  // An accepted suspend suspends a background tab, once; active, missing and discarded tabs are left alone.
  lemma SuspendDoes(s: Session, id: TabId, k: nat)
    ensures var r := AfterSuspend(s, id);
      && (NoneUp(s, id) || (IsUp(s, k, id) && s.tabs[k].lifecycle != Background) ==> r == s)
      && (IsUp(s, k, id) && s.tabs[k].lifecycle == Background ==>
            && OnlyTab(s, r, k) && r.commands == s.commands + [Suspend(id)]
            && r.tabs[k] == s.tabs[k].(lifecycle := Suspended))
  {
    FirstIsIndex(s, id, k);
  }

  // An accepted resume brings a suspended tab to the background; a tab that is awake stays as it is.
  lemma ResumeDoes(s: Session, id: TabId, k: nat)
    ensures var r := AfterResume(s, id);
      && (NoneUp(s, id) || (IsUp(s, k, id) && s.tabs[k].lifecycle != Suspended) ==> r == s)
      && (IsUp(s, k, id) && s.tabs[k].lifecycle == Suspended ==>
            && OnlyTab(s, r, k) && r.commands == s.commands + [Resume(id)]
            && r.tabs[k] == s.tabs[k].(lifecycle := Background))
  {
    FirstIsIndex(s, id, k);
  }

  // An accepted discard closes the surface of a background or suspended tab and keeps the tab.
  lemma DiscardDoes(s: Session, id: TabId, k: nat)
    ensures var r := AfterDiscard(s, id);
      && (NoneUp(s, id) || (IsUp(s, k, id) && s.tabs[k].lifecycle == Active) ==> r == s)
      && (IsUp(s, k, id) && s.tabs[k].lifecycle != Active ==>
            && OnlyTab(s, r, k) && r.commands == s.commands + [Close(id)]
            && r.tabs[k] == s.tabs[k].(lifecycle := Discarded))
  {
    FirstIsIndex(s, id, k);
  }

  // ---------- Engine events ----------

  // An event changes the navigation of the tab it names, and its url or title when it brings one; it sends nothing.
  lemma EventDoes(s: Session, e: EngineEvent, k: nat)
    ensures var r := AfterEvent(s, e);
      && r.commands == s.commands
      && (NoneUp(s, e.tabId) ==> r == s)
      && (IsUp(s, k, e.tabId) ==>
            && OnlyTab(s, r, k)
            && r.tabs[k].lifecycle == s.tabs[k].lifecycle
            && r.tabs[k].lastActivatedSequence == s.tabs[k].lastActivatedSequence
            && IsTold(e, s.tabs[k], r.tabs[k]))
  {
    FirstIsIndex(s, e.tabId, k);
  }

  // The tab after the event: a committed url is the url shown, a failed or started one is pending, a crash is marked,
  // and an error without a text gets one.
  predicate IsTold(e: EngineEvent, a: Tab, b: Tab) {
    match e
    case NavigationStarted(_, url) =>
      SamePage(a, b) && b.pendingUrl == Some(url) && b.navigationState == Loading && b.lastError == None
      && !b.rendererCrashed
    case NavigationCommitted(_, url) =>
      SamePage(a.(url := url, hasCommittedNavigation := true), b) && b.pendingUrl == None && b.navigationState == Idle
      && b.lastError == None && !b.rendererCrashed
    case NavigationFailed(_, url, text) =>
      SamePage(a, b) && b.pendingUrl == Some(url) && b.navigationState == Failed && !b.rendererCrashed
      && b.lastError == Some(if text == "" then "navigation failed" else text)
    case TitleChanged(_, title) =>
      SamePage(a.(title := title), b) && SameNavigation(a, b)
    case RendererCrashed(_, reason) =>
      SamePage(a, b) && b.pendingUrl == a.pendingUrl && b.navigationState == Failed && b.rendererCrashed
      && b.lastError == Some(if reason == "" then "renderer crashed" else reason)
  }

  // ---------- Opening, closing and showing ----------

  // A tab opens at its own url, unless that is the old placeholder under one of its three titles: then at the new-tab
  // page of its mode.
  lemma OpensAt(tab: Tab)
    ensures var synthetic := tab.url == "https://example.com/"
                             && (tab.title == "New Tab" || tab.title == "New tab" || tab.title == "Private Tab");
      OpeningUrl(tab) ==
      if !synthetic then tab.url
      else if tab.isEphemeral then "about:blank" else "https://newtab.openbrowser.invalid/"
  {
  }

  // The tab that was shown, if it still is, goes to the background; nothing else about the tabs changes.
  predicate Hidden(a: Tab, b: Tab, active: Option<TabId>) {
    && SamePage(a, b) && SameNavigation(a, b) && a.lastActivatedSequence == b.lastActivatedSequence
    && b.lifecycle == if active == Some(a.id) && a.lifecycle == Active then Background else a.lifecycle
  }

  // A new tab comes last, with the fields it brings, its opening url requested, and nothing of an earlier life; it is
  // shown when asked for or when it is the first one.
  lemma OpenDoes(s: Session, tab: Tab, activate: bool)
    requires UniqueIds(s.tabs)
    ensures var r := AfterOpen(s, tab, activate); var shown := s.tabs == [] || activate;
      && (tab.id == "" || OpeningUrl(tab) == "" || HasTab(s.tabs, tab.id) ==> r == s)
      && (tab.id != "" && OpeningUrl(tab) != "" && !HasTab(s.tabs, tab.id) ==>
            && |r.tabs| == |s.tabs| + 1
            && (forall j | 0 <= j < |s.tabs| ::
                  if shown then Hidden(s.tabs[j], r.tabs[j], s.activeTabId) else r.tabs[j] == s.tabs[j])
            && IsOpened(tab, r.tabs[|s.tabs|])
            && r.tabs[|s.tabs|].lifecycle == (if shown then Active else Background)
            && r.tabs[|s.tabs|].lastActivatedSequence
               == (if shown then s.lastActivated + 1 else tab.lastActivatedSequence)
            && r.activeTabId == (if shown then Some(tab.id) else s.activeTabId)
            && r.closedTabs == s.closedTabs && r.restored == s.restored
            && r.lastActivated == (if shown then s.lastActivated + 1 else s.lastActivated)
            && r.commands
               == s.commands + [Create(tab.id, tab.isEphemeral)] + (if shown then [Activate(tab.id)] else []))
  {
    hide OpeningUrl;
    DemotedHidden(s.tabs, s.activeTabId);
  }

  predicate IsOpened(tab: Tab, t: Tab) {
    && t.id == tab.id && t.url == OpeningUrl(tab) && t.title == tab.title && t.workspaceId == tab.workspaceId
    && t.isEphemeral == tab.isEphemeral && t.isPlayingAudio == tab.isPlayingAudio
    && t.pendingUrl == Some(OpeningUrl(tab)) && t.navigationState == Requested && t.lastError == None
    && !t.rendererCrashed && !t.hasCommittedNavigation
  }

  lemma DemotedHidden(tabs: seq<Tab>, active: Option<TabId>)
    requires UniqueIds(tabs)
    ensures forall j | 0 <= j < |tabs| :: Hidden(tabs[j], Demoted(tabs, active)[j], active)
  {
  }

  // Showing a tab gives it the next number and the engine the command, after waking it; the tab shown before goes to
  // the background.  Nothing happens for a missing tab and for the one that is shown.
  lemma ActivateDoes(s: Session, id: TabId, k: nat)
    requires UniqueIds(s.tabs)
    ensures var r := AfterActivate(s, id);
      && ((forall j | 0 <= j < |s.tabs| :: s.tabs[j].id != id) || s.activeTabId == Some(id) ==> r == s)
      && (IsTab(s.tabs, k, id) && s.activeTabId != Some(id) ==>
            && |r.tabs| == |s.tabs|
            && (forall j | 0 <= j < |s.tabs| && j != k :: Hidden(s.tabs[j], r.tabs[j], s.activeTabId))
            && r.tabs[k] == s.tabs[k].(lifecycle := Active, lastActivatedSequence := s.lastActivated + 1)
            && r.activeTabId == Some(id) && r.lastActivated == s.lastActivated + 1
            && r.closedTabs == s.closedTabs && r.restored == s.restored
            && r.commands == s.commands
                 + (if s.tabs[k].lifecycle == Discarded then [Create(id, s.tabs[k].isEphemeral)] else Waking(s.tabs[k]))
                 + [Activate(id)])
  {
    hide Hidden, UniqueIds, Demoted, IsTab;
    FirstIsIndex(s, id, k);
    DemotedHidden(s.tabs, s.activeTabId);
    if IsTab(s.tabs, k, id) && s.activeTabId != Some(id) {
      OtherStays(s.tabs, s.activeTabId, id, k);
      var demoted := Demoted(s.tabs, s.activeTabId);
      assert AfterActivate(s, id).tabs
          == demoted[k := s.tabs[k].(lifecycle := Active, lastActivatedSequence := s.lastActivated + 1)];
    } else {
      NoTabIsNone(s.tabs, id);
    }
  }

  lemma OtherStays(tabs: seq<Tab>, active: Option<TabId>, id: TabId, k: nat)
    requires IsTab(tabs, k, id) && active != Some(id)
    ensures k < |tabs| && tabs[k].id == id && Demoted(tabs, active)[k] == tabs[k]
  {
  }

  lemma NoTabIsNone(tabs: seq<Tab>, id: TabId)
    ensures (forall j | 0 <= j < |tabs| :: tabs[j].id != id) ==> IndexOf(tabs, id) == |tabs|
  {
  }

  // Closing without fallback takes out exactly this tab and remembers it last, unless it is blank or a new-tab page;
  // of more than 25 records the oldest goes.
  lemma CloseDoes(s: Session, id: TabId, k: nat)
    ensures var r := AfterClose(s, id, DoNotActivateFallback);
      && ((forall j | 0 <= j < |s.tabs| :: s.tabs[j].id != id) ==> r == s)
      && (IsTab(s.tabs, k, id) ==>
            var t := s.tabs[k];
            var record := ClosedTabRecord(t.url, t.title, t.workspaceId, t.isEphemeral);
            && r.tabs == s.tabs[..k] + s.tabs[k + 1..] && r.commands == s.commands + [Close(id)]
            && r.activeTabId == (if s.activeTabId == Some(id) then None else s.activeTabId)
            && r.lastActivated == s.lastActivated && r.restored == s.restored
            && r.closedTabs ==
               if t.url == "" || t.url == "about:blank" || t.url == "https://newtab.openbrowser.invalid/"
               then s.closedTabs
               else if |s.closedTabs| < 25 then s.closedTabs + [record]
               else s.closedTabs[1..] + [record])
  {
    FirstIsIndex(s, id, k);
  }

  // A purge of the closed tabs leaves the persistent records, all of them, in order, and nothing else changes.
  lemma PurgeDoes(s: Session)
    ensures var r := AfterPurgeClosed(s); var at := Positions(s.closedTabs, IsPersistentRecord);
      && r == s.(closedTabs := r.closedTabs)
      && |r.closedTabs| == |at| && forall j | 0 <= j < |at| :: r.closedTabs[j] == s.closedTabs[at[j]]
  {
    PersistentRecordsAt(s.closedTabs);
  }

  predicate IsPersistentRecord(r: ClosedTabRecord) {
    !r.isEphemeral
  }

  lemma {:induction false} PersistentRecordsAt(closed: seq<ClosedTabRecord>)
    ensures var r, at := PersistentRecords(closed), Positions(closed, IsPersistentRecord);
      |r| == |at| && forall j | 0 <= j < |at| :: r[j] == closed[at[j]]
  {
    if closed != [] {
      PersistentRecordsAt(closed[..|closed| - 1]);
    }
  }
}
