/** The tab record and the internal URLs (src/core/tabs/tab.h,
    src/core/navigation/internal_urls.h). */
module Tabs {
  import opened Common

  type TabId = string
  type WorkspaceId = string

  datatype TabLifecycle = Active | Background | Suspended | Discarded

  datatype NavigationState = Idle | Requested | Loading | Failed

  datatype Tab = Tab(
    id: TabId,
    url: string,
    title: string,
    lifecycle: TabLifecycle,
    workspaceId: Option<WorkspaceId>,
    pendingUrl: Option<string>,
    navigationState: NavigationState,
    lastError: Option<string>,
    rendererCrashed: bool,
    hasCommittedNavigation: bool,
    lastActivatedSequence: nat,
    isPlayingAudio: bool,
    isEphemeral: bool)

  // The tab a caller builds by naming only the fields it cares about.
  function NewTab(id: TabId, url: string, title: string, workspaceId: Option<WorkspaceId>, isEphemeral: bool): Tab {
    Tab(id, url, title, Active, workspaceId, None, Idle, None, false, false, 0, false, isEphemeral)
  }

  const NEW_TAB_URL := "https://newtab.openbrowser.invalid/"
  const PRIVATE_NEW_TAB_URL := "about:blank"
  const LEGACY_PLACEHOLDER_URL := "https://example.com/"

  predicate IsBlankOrNewTabUrl(url: string) {
    url == "" || url == PRIVATE_NEW_TAB_URL || url == NEW_TAB_URL
  }

  predicate IsLegacySyntheticNewTab(url: string, title: string) {
    url == LEGACY_PLACEHOLDER_URL && (title == "New Tab" || title == "New tab" || title == "Private Tab")
  }

  // The URL a tab is opened with: a legacy placeholder becomes the new-tab page of its mode.
  function OpeningUrl(tab: Tab): string {
    if IsLegacySyntheticNewTab(tab.url, tab.title)
    then if tab.isEphemeral then PRIVATE_NEW_TAB_URL else NEW_TAB_URL
    else tab.url
  }

  // First position of the tab with this id, or |tabs| when there is none.
  function IndexOf(tabs: seq<Tab>, id: TabId): (k: nat)
    ensures k <= |tabs|
    ensures k < |tabs| ==> tabs[k].id == id
    ensures forall j | 0 <= j < k :: tabs[j].id != id
  {
    if tabs == [] then 0
    else if tabs[0].id == id then 0
    else 1 + IndexOf(tabs[1..], id)
  }

  predicate HasTab(tabs: seq<Tab>, id: TabId) {
    IndexOf(tabs, id) < |tabs|
  }

  ghost predicate UniqueIds(tabs: seq<Tab>) {
    forall i, j | 0 <= i < j < |tabs| :: tabs[i].id != tabs[j].id
  }
}
