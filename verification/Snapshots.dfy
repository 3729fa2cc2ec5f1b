/** The saved form of a session (src/core/session/session_persistence.h). */
module Snapshots {
  import opened Common
  import opened Tabs
  import FocusQueues

  datatype SessionTabRecord = SessionTabRecord(
    id: TabId,
    url: string,
    title: string,
    workspaceId: Option<WorkspaceId>,
    lifecycle: TabLifecycle)

  // A saved focus item has the fields of a queued one.
  type FocusItemRecord = FocusQueues.FocusItem

  datatype SessionSnapshot = SessionSnapshot(
    schemaVersion: nat,
    cleanShutdown: bool,
    activeTabId: Option<TabId>,
    tabs: seq<SessionTabRecord>,
    focusItems: seq<FocusItemRecord>)
}
