/** Capturing a session, restoring it into a new one and capturing again
    (src/core/session/session_persistence.cpp, CaptureSnapshot and RestoreSession). */
module CaptureRestore {
  import opened Common
  import opened Tabs
  import opened Snapshots
  import opened SessionSpec
  import opened SessionInvariant
  import opened SessionFaces
  import opened FocusQueues
  import opened FocusControllers
  import opened Browser

  // ---------- Capture ----------

  function RecordOf(t: Tab): SessionTabRecord {
    SessionTabRecord(t.id, t.url, t.title, t.workspaceId, t.lifecycle)
  }

  function CapturedTabs(tabs: seq<Tab>): seq<SessionTabRecord> {
    if tabs == [] then []
    else
      var n := |tabs| - 1;
      CapturedTabs(tabs[..n]) + (if tabs[n].isEphemeral then [] else [RecordOf(tabs[n])])
  }

  function CapturedActive(s: Session): Option<TabId> {
    if s.activeTabId.None? then None
    else if HasTab(s.tabs, s.activeTabId.value) && !s.tabs[IndexOf(s.tabs, s.activeTabId.value)].isEphemeral
    then s.activeTabId
    else if CapturedTabs(s.tabs) != [] then Some(CapturedTabs(s.tabs)[0].id)
    else None
  }

  // Items bound to a private tab are not saved.
  predicate IsSaved(item: FocusItem, tabs: seq<Tab>) {
    item.tabId.Some? && HasTab(tabs, item.tabId.value) ==> !tabs[IndexOf(tabs, item.tabId.value)].isEphemeral
  }

  function SavedItems(items: seq<FocusItem>, tabs: seq<Tab>): seq<FocusItem> {
    if items == [] then []
    else
      var n := |items| - 1;
      SavedItems(items[..n], tabs) + (if IsSaved(items[n], tabs) then [items[n]] else [])
  }

  function Captured(s: Session, items: seq<FocusItem>, clean: bool): SessionSnapshot {
    SessionSnapshot(1, clean, CapturedActive(s), CapturedTabs(s.tabs), SavedItems(items, s.tabs))
  }

  // ---------- What a capture holds ----------

  predicate IsPersistentTab(t: Tab) {
    !t.isEphemeral
  }

  // The tab id of the item names a private tab: the first tab with that id is one.
  predicate NamesPrivate(item: FocusItem, tabs: seq<Tab>) {
    exists k :: 0 <= k < |tabs| && item.tabId == Some(tabs[k].id) && tabs[k].isEphemeral
                && forall j | 0 <= j < k :: tabs[j].id != tabs[k].id
  }

  predicate HoldsTab(r: SessionTabRecord, t: Tab) {
    r.id == t.id && r.url == t.url && r.title == t.title && r.workspaceId == t.workspaceId && r.lifecycle == t.lifecycle
  }

  ghost predicate HoldsTabs(records: seq<SessionTabRecord>, tabs: seq<Tab>) {
    var at := Positions(tabs, IsPersistentTab);
    |records| == |at| && forall j | 0 <= j < |at| :: HoldsTab(records[j], tabs[at[j]])
  }

  ghost predicate HoldsItems(saved: seq<FocusItem>, items: seq<FocusItem>, tabs: seq<Tab>) {
    var at := Positions(items, item => !NamesPrivate(item, tabs));
    |saved| == |at| && forall j | 0 <= j < |at| :: saved[j] == items[at[j]]
  }

  // The active tab when it is persistent, else the first persistent tab; none when none is active.
  ghost predicate HoldsActive(active: Option<TabId>, s: Session) {
    var at := Positions(s.tabs, IsPersistentTab);
    active ==
    if s.activeTabId.None? then None
    else if exists k: nat :: ShowsPersistent(s, k) then s.activeTabId
    else if at == [] then None
    else Some(s.tabs[at[0]].id)
  }

  // The first tab with the active id is tab k, and it is persistent.
  predicate ShowsPersistent(s: Session, k: nat) {
    && k < |s.tabs| && s.activeTabId == Some(s.tabs[k].id) && !s.tabs[k].isEphemeral
    && forall j | 0 <= j < k :: s.tabs[j].id != s.tabs[k].id
  }

  // A capture holds the persistent tabs, in order and with all that is saved of them, and nothing of the
  // private ones.
  ghost predicate HoldsPersistentPart(x: SessionSnapshot, s: Session, items: seq<FocusItem>, clean: bool) {
    && x.schemaVersion == 1 && x.cleanShutdown == clean
    && HoldsTabs(x.tabs, s.tabs) && HoldsActive(x.activeTabId, s) && HoldsItems(x.focusItems, items, s.tabs)
  }

  lemma {:induction false} CapturedTabsHeld(tabs: seq<Tab>)
    ensures HoldsTabs(CapturedTabs(tabs), tabs)
  {
    if tabs != [] {
      var n := |tabs| - 1;
      CapturedTabsHeld(tabs[..n]);
      assert HoldsTab(RecordOf(tabs[n]), tabs[n]);
      hide RecordOf, HoldsTab;
      var at, records := Positions(tabs[..n], IsPersistentTab), CapturedTabs(tabs[..n]);
      var allAt, all := Positions(tabs, IsPersistentTab), CapturedTabs(tabs);
      assert allAt == (if tabs[n].isEphemeral then at else at + [n]);
      hide Positions, CapturedTabs;
      forall j | 0 <= j < |allAt| ensures HoldsTab(all[j], tabs[allAt[j]]) {
        if j < |at| {
          assert HoldsTab(records[j], tabs[..n][at[j]]);
        }
      }
    }
  }

  lemma SavedUnlessPrivate(item: FocusItem, tabs: seq<Tab>)
    ensures IsSaved(item, tabs) <==> !NamesPrivate(item, tabs)
  {
    if NamesPrivate(item, tabs) {
      var k :| 0 <= k < |tabs| && item.tabId == Some(tabs[k].id) && tabs[k].isEphemeral
               && forall j | 0 <= j < k :: tabs[j].id != tabs[k].id;
      assert IndexOf(tabs, item.tabId.value) == k;
    }
  }

  lemma {:induction false} SavedItemsHeld(items: seq<FocusItem>, tabs: seq<Tab>)
    ensures HoldsItems(SavedItems(items, tabs), items, tabs)
  {
    if items != [] {
      hide IsSaved, NamesPrivate;
      var n := |items| - 1;
      SavedItemsHeld(items[..n], tabs);
      SavedUnlessPrivate(items[n], tabs);
    }
  }

  lemma CapturedActiveHeld(s: Session)
    ensures HoldsActive(CapturedActive(s), s)
  {
    CapturedTabsHeld(s.tabs);
    if k: nat :| ShowsPersistent(s, k) {
      assert IndexOf(s.tabs, s.activeTabId.value) == k;
    } else if s.activeTabId.Some? && HasTab(s.tabs, s.activeTabId.value) {
      var k := IndexOf(s.tabs, s.activeTabId.value);
      assert !ShowsPersistent(s, k);
    }
  }

  lemma CaptureHoldsPersistentPart(s: Session, items: seq<FocusItem>, clean: bool)
    ensures HoldsPersistentPart(Captured(s, items, clean), s, items, clean)
  {
    hide CapturedTabs, SavedItems, CapturedActive, HoldsTabs, HoldsItems, HoldsActive;
    CapturedTabsHeld(s.tabs);
    SavedItemsHeld(items, s.tabs);
    CapturedActiveHeld(s);
  }

  // ---------- Restore ----------

  function AfterEnqueues(items: seq<FocusItem>, added: seq<FocusItem>): seq<FocusItem> {
    if added == [] then items else AfterEnqueue(AfterEnqueues(items, added[..|added| - 1]), added[|added| - 1])
  }

  predicate HasRecord(records: seq<SessionTabRecord>, id: TabId) {
    exists i :: 0 <= i < |records| && records[i].id == id
  }

  // The tab to end up with: the saved active one if it is saved as a tab, else the first.
  function Target(x: SessionSnapshot): TabId
    requires x.tabs != []
  {
    if x.activeTabId.Some? && HasRecord(x.tabs, x.activeTabId.value) then x.activeTabId.value else x.tabs[0].id
  }

  function TitleOf(r: SessionTabRecord): string {
    if r.title == "" then r.url else r.title
  }

  function TabOf(r: SessionTabRecord): Tab {
    NewTab(r.id, r.url, TitleOf(r), r.workspaceId, false)
  }

  function AfterRestoreTab(s: Session, r: SessionTabRecord, target: TabId): Session {
    if HasTab(s.tabs, r.id) then s else AfterOpen(s, TabOf(r), r.id == target)
  }

  function AfterRestoreTabs(s: Session, records: seq<SessionTabRecord>, target: TabId): Session {
    if records == [] then s
    else AfterRestoreTab(AfterRestoreTabs(s, records[..|records| - 1], target), records[|records| - 1], target)
  }

  function AfterRestore(s: Session, x: SessionSnapshot): Session {
    if x.tabs == [] then s else AfterActivate(AfterRestoreTabs(s, x.tabs, Target(x)), Target(x))
  }

  function ItemsAfterRestore(s: Session, items: seq<FocusItem>, x: SessionSnapshot): seq<FocusItem> {
    var queued := AfterEnqueues(items, x.focusItems);
    if x.tabs == [] then queued else Synchronized(queued, AfterRestore(s, x).tabs)
  }

  // ---------- The normal form ----------

  predicate DistinctRecords(records: seq<SessionTabRecord>) {
    && (forall i, j | 0 <= i < j < |records| :: records[i].id != records[j].id)
    && (forall i | 0 <= i < |records| :: records[i].id != "")
  }

  // The records that open a tab: those with an id and a url, of several with one id the first.
  function FirstRecords(records: seq<SessionTabRecord>): (k: seq<SessionTabRecord>)
    ensures DistinctRecords(k)
    ensures forall i | 0 <= i < |k| :: k[i].url != "" && k[i] in records
  {
    if records == [] then []
    else
      var n := |records| - 1;
      var rest := FirstRecords(records[..n]);
      if records[n].id != "" && records[n].url != "" && !HasRecord(rest, records[n].id) then
        rest + [records[n]]
      else
        rest
  }

  // What the saved tabs look like when they are open.
  function RestoredFaces(records: seq<SessionTabRecord>): (r: seq<Face>)
    ensures |r| == |FirstRecords(records)|
    ensures forall i | 0 <= i < |r| :: r[i] == OpenedFace(TabOf(FirstRecords(records)[i])) && !r[i].isEphemeral
    ensures forall i | 0 <= i < |r| :: r[i].id == FirstRecords(records)[i].id
  {
    var k := FirstRecords(records);
    seq(|k|, i requires 0 <= i < |k| => OpenedFace(TabOf(k[i])))
  }

  predicate HasFace(faces: seq<Face>, id: TabId) {
    exists i :: 0 <= i < |faces| && faces[i].id == id
  }

  // The tab shown once these are open: the target if it is among them, else the first.
  function ShownAmong(faces: seq<Face>, target: TabId): Option<TabId> {
    if faces == [] then None
    else if HasFace(faces, target) then Some(target)
    else Some(faces[0].id)
  }

  function FaceRecord(f: Face, shown: Option<TabId>): SessionTabRecord {
    SessionTabRecord(f.id, f.url, f.title, f.workspaceId, if shown == Some(f.id) then Active else Background)
  }

  function FaceRecords(faces: seq<Face>, shown: Option<TabId>): (r: seq<SessionTabRecord>)
    ensures |r| == |faces|
    ensures forall i | 0 <= i < |faces| :: r[i] == FaceRecord(faces[i], shown)
  {
    seq(|faces|, i requires 0 <= i < |faces| => FaceRecord(faces[i], shown))
  }

  // An item that names no open tab loses its tab id.
  function Cleared(items: seq<FocusItem>, faces: seq<Face>): (r: seq<FocusItem>)
    ensures |r| == |items|
    ensures forall i | 0 <= i < |items| :: r[i] ==
              if items[i].tabId.Some? && !HasFace(faces, items[i].tabId.value) then items[i].(tabId := None)
              else items[i]
  {
    seq(|items|, i requires 0 <= i < |items| =>
      if items[i].tabId.Some? && !HasFace(faces, items[i].tabId.value) then items[i].(tabId := None) else items[i])
  }

  function NormalForm(x: SessionSnapshot, clean: bool): SessionSnapshot {
    var items := AfterEnqueues([], x.focusItems);
    if x.tabs == [] then SessionSnapshot(1, clean, None, [], items)
    else
      var faces := RestoredFaces(x.tabs);
      var shown := ShownAmong(faces, Target(x));
      SessionSnapshot(1, clean, shown, FaceRecords(faces, shown), Cleared(items, faces))
  }

  // ---------- Restoring into an empty session ----------

  // The restored session shows exactly these faces, the right one of them, and none is suspended.
  ghost predicate ShowsFaces(s: Session, faces: seq<Face>, shown: Option<TabId>) {
    && Valid(s) && Faces(s.tabs) == faces && s.activeTabId == shown
    && forall i | 0 <= i < |s.tabs| :: s.tabs[i].lifecycle == Active || s.tabs[i].lifecycle == Background
  }

  lemma AwakeAfterOpen(s: Session, tab: Tab, activate: bool)
    requires forall i | 0 <= i < |s.tabs| :: s.tabs[i].lifecycle == Active || s.tabs[i].lifecycle == Background
    ensures var r := AfterOpen(s, tab, activate);
      forall i | 0 <= i < |r.tabs| :: r.tabs[i].lifecycle == Active || r.tabs[i].lifecycle == Background
  {
  }

  lemma HasFaceIsHasRecord(records: seq<SessionTabRecord>, id: TabId)
    ensures HasFace(RestoredFaces(records), id) <==> HasRecord(FirstRecords(records), id)
  {
    var k, faces := FirstRecords(records), RestoredFaces(records);
    if i :| 0 <= i < |k| && k[i].id == id {
      assert faces[i].id == id;
    }
    if i :| 0 <= i < |faces| && faces[i].id == id {
      assert k[i].id == id;
    }
  }

  // One more record opens one more tab exactly when it has an id and a url and its id is new.
  lemma RestoredFacesSnoc(records: seq<SessionTabRecord>)
    requires records != []
    ensures var n := |records| - 1; var faces, r := RestoredFaces(records[..n]), records[n];
      RestoredFaces(records)
      == if r.id != "" && r.url != "" && !HasFace(faces, r.id) then faces + [OpenedFace(TabOf(r))] else faces
  {
    hide OpenedFace;
    var n := |records| - 1;
    HasFaceIsHasRecord(records[..n], records[n].id);
  }

  lemma {:induction false} RestoreTabsShows(records: seq<SessionTabRecord>, target: TabId)
    ensures ShowsFaces(AfterRestoreTabs(EMPTY_SESSION, records, target), RestoredFaces(records),
                       ShownAmong(RestoredFaces(records), target))
  {
    hide Valid, OpeningUrl, ShowsFaces, AfterRestoreTab, ShownAmong;
    if records == [] {
      EmptyShows();
      assert RestoredFaces([]) == [];
      NoneShown(target);
    } else {
      var n := |records| - 1;
      RestoreTabsShows(records[..n], target);
      RestoredFacesSnoc(records);
      RestoreOneShows(AfterRestoreTabs(EMPTY_SESSION, records[..n], target), RestoredFaces(records[..n]),
        records[n], target);
    }
  }

  lemma EmptyShows()
    ensures ShowsFaces(EMPTY_SESSION, [], None)
  {
    assert Faces([]) == [];
  }

  lemma RestoreOneShows(s: Session, faces: seq<Face>, r: SessionTabRecord, target: TabId)
    requires ShowsFaces(s, faces, ShownAmong(faces, target))
    ensures var more :=
      if r.id != "" && r.url != "" && !HasFace(faces, r.id) then faces + [OpenedFace(TabOf(r))] else faces;
      ShowsFaces(AfterRestoreTab(s, r, target), more, ShownAmong(more, target))
  {
    hide Valid, AfterOpen, OpeningUrl;
    HasFaceIsHasTab(s.tabs, r.id);
    if !HasTab(s.tabs, r.id) {
      var tab := TabOf(r);
      OpenKeeps(s, tab, r.id == target);
      OpenFaces(s, tab, r.id == target);
      AwakeAfterOpen(s, tab, r.id == target);
      TabOfOpens(s, r);
      if r.id != "" && r.url != "" {
        ShownAppend(faces, OpenedFace(tab), target);
      }
    }
  }

  lemma TabOfOpens(s: Session, r: SessionTabRecord)
    requires !HasTab(s.tabs, r.id)
    ensures Opens(s, TabOf(r)) <==> r.id != "" && r.url != ""
  {
  }

  lemma ShownAppend(faces: seq<Face>, f: Face, target: TabId)
    ensures ShownAmong(faces + [f], target)
         == if faces == [] || f.id == target then Some(f.id) else ShownAmong(faces, target)
  {
    var r := faces + [f];
    assert r[|faces|] == f;
    if HasFace(faces, target) {
      var i :| 0 <= i < |faces| && faces[i].id == target;
      assert r[i].id == target;
    }
    if HasFace(r, target) && f.id != target {
      var i :| 0 <= i < |r| && r[i].id == target;
      assert faces[i].id == target;
    }
  }

  lemma HasFaceIsHasTab(tabs: seq<Tab>, id: TabId)
    ensures HasFace(Faces(tabs), id) <==> HasTab(tabs, id)
  {
    if HasTab(tabs, id) {
      assert Faces(tabs)[IndexOf(tabs, id)].id == id;
    }
  }

  lemma RestoreShows(x: SessionSnapshot)
    requires x.tabs != []
    ensures var faces := RestoredFaces(x.tabs);
      ShowsFaces(AfterRestore(EMPTY_SESSION, x), faces, ShownAmong(faces, Target(x)))
  {
    hide ShowsFaces, AfterRestoreTabs;
    var target := Target(x);
    RestoreTabsShows(x.tabs, target);
    TargetIsActive(AfterRestoreTabs(EMPTY_SESSION, x.tabs, target), RestoredFaces(x.tabs), target);
  }

  // The closing ActivateTab call finds the target shown already, or not there at all.
  lemma TargetIsActive(s: Session, faces: seq<Face>, target: TabId)
    requires ShowsFaces(s, faces, ShownAmong(faces, target))
    ensures AfterActivate(s, target) == s
  {
    hide Valid;
    HasFaceIsHasTab(s.tabs, target);
  }

  // ---------- Capturing it again ----------

  lemma {:induction false} CapturedPersistent(tabs: seq<Tab>)
    requires forall i | 0 <= i < |tabs| :: !tabs[i].isEphemeral
    ensures |CapturedTabs(tabs)| == |tabs|
    ensures forall i | 0 <= i < |tabs| :: CapturedTabs(tabs)[i] == RecordOf(tabs[i])
  {
    if tabs != [] {
      CapturedPersistent(tabs[..|tabs| - 1]);
    }
  }

  lemma {:induction false} AllSaved(items: seq<FocusItem>, tabs: seq<Tab>)
    requires forall i | 0 <= i < |tabs| :: !tabs[i].isEphemeral
    ensures SavedItems(items, tabs) == items
  {
    if items != [] {
      var n := |items| - 1;
      AllSaved(items[..n], tabs);
      assert items == items[..n] + [items[n]];
    }
  }

  lemma CaptureOfShown(s: Session, faces: seq<Face>, shown: Option<TabId>)
    requires ShowsFaces(s, faces, shown) && forall i | 0 <= i < |faces| :: !faces[i].isEphemeral
    ensures CapturedTabs(s.tabs) == FaceRecords(faces, shown)
    ensures CapturedActive(s) == shown
    ensures forall i | 0 <= i < |s.tabs| :: !s.tabs[i].isEphemeral
  {
    hide EngineAgrees, WellFormedRecords;
    assert forall i | 0 <= i < |s.tabs| :: faces[i] == FaceOf(s.tabs[i]);
    CapturedPersistent(s.tabs);
    assert CapturedTabs(s.tabs) == FaceRecords(faces, shown);
  }

  // Capturing what any snapshot was restored to gives the snapshot's normal form.
  lemma CaptureOfRestore(x: SessionSnapshot, clean: bool)
    ensures Captured(AfterRestore(EMPTY_SESSION, x), ItemsAfterRestore(EMPTY_SESSION, [], x), clean)
        == NormalForm(x, clean)
  {
    hide ShowsFaces, AfterEnqueues, CapturedActive;
    var items := ItemsAfterRestore(EMPTY_SESSION, [], x);
    if x.tabs == [] {
      AllSaved(items, []);
      EmptyCapture();
    } else {
      hide AfterRestore, CapturedTabs;
      var s := AfterRestore(EMPTY_SESSION, x);
      var faces := RestoredFaces(x.tabs);
      RestoreShows(x);
      CaptureOfShown(s, faces, ShownAmong(faces, Target(x)));
      AllSaved(items, s.tabs);
      ShownFaces(s, faces, ShownAmong(faces, Target(x)));
      forall id ensures HasFace(faces, id) <==> HasTab(s.tabs, id) {
        HasFaceIsHasTab(s.tabs, id);
      }
      assert items == Cleared(AfterEnqueues([], x.focusItems), faces);
    }
  }

  lemma EmptyCapture()
    ensures CapturedActive(EMPTY_SESSION) == None && CapturedTabs(EMPTY_SESSION.tabs) == []
  {
  }

  lemma ShownFaces(s: Session, faces: seq<Face>, shown: Option<TabId>)
    requires ShowsFaces(s, faces, shown)
    ensures Faces(s.tabs) == faces
  {
  }

  // ---------- The normal form is stable ----------

  lemma {:induction false} EnqueuesKeepValid(items: seq<FocusItem>)
    ensures ValidItems(AfterEnqueues([], items))
  {
    if items != [] {
      EnqueuesKeepValid(items[..|items| - 1]);
    }
  }

  lemma {:induction false} EnqueuesOfValid(items: seq<FocusItem>)
    requires ValidItems(items)
    ensures AfterEnqueues([], items) == items
  {
    if items != [] {
      var n := |items| - 1;
      EnqueuesOfValid(items[..n]);
      assert items == items[..n] + [items[n]];
    }
  }

  // Faces of opened tabs: a url that is not empty nor a placeholder, and a title.
  predicate Settled(f: Face) {
    f.url != "" && f.title != "" && !f.isEphemeral && !IsLegacySyntheticNewTab(f.url, f.title)
  }

  lemma OpenedSettled(r: SessionTabRecord)
    requires r.url != ""
    ensures Settled(OpenedFace(TabOf(r)))
  {
  }

  lemma RestoredSettled(records: seq<SessionTabRecord>)
    ensures forall i | 0 <= i < |RestoredFaces(records)| :: Settled(RestoredFaces(records)[i])
  {
    hide Settled, OpenedFace, FirstRecords;
    var k := FirstRecords(records);
    forall i | 0 <= i < |k|
      ensures Settled(OpenedFace(TabOf(k[i])))
    {
      OpenedSettled(k[i]);
    }
  }

  lemma {:induction false} AllFirst(records: seq<SessionTabRecord>)
    requires DistinctRecords(records) && forall i | 0 <= i < |records| :: records[i].url != ""
    ensures FirstRecords(records) == records
  {
    if records != [] {
      hide DistinctRecords, HasRecord;
      var n := |records| - 1;
      NewRecord(records, n);
      AllFirst(records[..n]);
      assert FirstRecords(records) == records[..n] + [records[n]];
      assert records == records[..n] + [records[n]];
    }
  }

  lemma NewRecord(records: seq<SessionTabRecord>, n: nat)
    requires DistinctRecords(records) && n < |records|
    ensures !HasRecord(records[..n], records[n].id) && records[n].id != "" && DistinctRecords(records[..n])
  {
  }

  lemma RestoredOfSettled(faces: seq<Face>, shown: Option<TabId>)
    requires forall i | 0 <= i < |faces| :: Settled(faces[i])
    requires DistinctRecords(FaceRecords(faces, shown))
    ensures RestoredFaces(FaceRecords(faces, shown)) == faces
  {
    var records := FaceRecords(faces, shown);
    AllFirst(records);
    forall i | 0 <= i < |faces|
      ensures OpenedFace(TabOf(records[i])) == faces[i]
    {
      assert Settled(faces[i]);
    }
    assert RestoredFaces(records) == faces;
  }

  lemma RestoredDistinct(records: seq<SessionTabRecord>, shown: Option<TabId>)
    ensures DistinctRecords(FaceRecords(RestoredFaces(records), shown))
  {
    hide OpenedFace;
  }

  lemma ShownIsTarget(faces: seq<Face>, target: TabId, clean: bool, items: seq<FocusItem>)
    requires faces != []
    ensures var shown := ShownAmong(faces, target);
      var x := SessionSnapshot(1, clean, shown, FaceRecords(faces, shown), items);
      Some(Target(x)) == shown && ShownAmong(faces, Target(x)) == shown
  {
    var shown := ShownAmong(faces, target);
    if HasFace(faces, target) {
      var i :| 0 <= i < |faces| && faces[i].id == target;
      assert FaceRecords(faces, shown)[i].id == target;
    } else {
      assert faces[0].id == shown.value;
      assert FaceRecords(faces, shown)[0].id == shown.value;
    }
  }

  lemma ClearedTwice(items: seq<FocusItem>, faces: seq<Face>)
    requires ValidItems(items)
    ensures ValidItems(Cleared(items, faces)) && Cleared(Cleared(items, faces), faces) == Cleared(items, faces)
  {
    var c := Cleared(items, faces);
    assert forall i | 0 <= i < |c| :: c[i].id == items[i].id && c[i].url == items[i].url;
  }

  lemma NormalFormStable(x: SessionSnapshot, clean: bool)
    ensures NormalForm(NormalForm(x, clean), clean) == NormalForm(x, clean)
  {
    hide Settled, Target, ShownAmong, ValidItems;
    var items := AfterEnqueues([], x.focusItems);
    EnqueuesKeepValid(x.focusItems);
    if x.tabs == [] {
      EnqueuesOfValid(items);
    } else {
      var faces := RestoredFaces(x.tabs);
      ClearedTwice(items, faces);
      EnqueuesOfValid(Cleared(items, faces));
      RestoredSettled(x.tabs);
      RestoredDistinct(x.tabs, ShownAmong(faces, Target(x)));
      RestoredOfSettled(faces, ShownAmong(faces, Target(x)));
      if faces != [] {
        ShownIsTarget(faces, Target(x), clean, Cleared(items, faces));
      } else {
        NoneShown(Target(x));
      }
    }
  }

  lemma NoneShown(target: TabId)
    ensures ShownAmong([], target) == None
  {
  }

  // ---------- The round trips of a session ----------

  // Capture, restore into a new session, capture: the normal form of the first capture.  Doing it once
  // more changes nothing.
  lemma CaptureRestoreRoundTrip(s: Session, items: seq<FocusItem>, clean: bool)
    ensures var first := Captured(s, items, clean);
      var second := Captured(AfterRestore(EMPTY_SESSION, first), ItemsAfterRestore(EMPTY_SESSION, [], first), clean);
      var third := Captured(AfterRestore(EMPTY_SESSION, second), ItemsAfterRestore(EMPTY_SESSION, [], second), clean);
      second == NormalForm(first, clean) && third == second
  {
    hide AfterRestore, ItemsAfterRestore, Captured, NormalForm;
    var first := Captured(s, items, clean);
    CaptureOfRestore(first, clean);
    CaptureOfRestore(NormalForm(first, clean), clean);
    NormalFormStable(first, clean);
  }

  // For tabs with urls that are no placeholders the normal form keeps every record that opens a tab, in
  // order, with its id, url, defaulted title and workspace, the active tab or else the first one, and
  // every queued item, less the tab ids that name no such record.
  lemma NormalFormKeeps(x: SessionSnapshot, clean: bool)
    requires x.tabs != [] && ValidItems(x.focusItems)
    requires forall i | 0 <= i < |x.tabs| :: !IsLegacySyntheticNewTab(x.tabs[i].url, TitleOf(x.tabs[i]))
    ensures var n, k := NormalForm(x, clean), FirstRecords(x.tabs);
      && |n.tabs| == |k|
      && (forall i | 0 <= i < |k| :: n.tabs[i] == k[i].(title := TitleOf(k[i]),
            lifecycle := if Some(k[i].id) == n.activeTabId then Active else Background))
      && n.activeTabId == (if HasRecord(k, Target(x)) then Some(Target(x)) else if k == [] then None else Some(k[0].id))
      && |n.focusItems| == |x.focusItems|
      && (forall i | 0 <= i < |x.focusItems| :: n.focusItems[i] ==
            var item := x.focusItems[i];
            if item.tabId.Some? && !HasRecord(k, item.tabId.value) then item.(tabId := None) else item)
  {
    hide ValidItems, IsLegacySyntheticNewTab, FirstRecords, Target, HasRecord, HasFace;
    EnqueuesOfValid(x.focusItems);
    var faces, k := RestoredFaces(x.tabs), FirstRecords(x.tabs);
    forall id
      ensures HasFace(faces, id) <==> HasRecord(k, id)
    {
      HasFaceIsHasRecord(x.tabs, id);
    }
    NoneAmong(Target(x));
    forall i | 0 <= i < |k|
      ensures faces[i] == Face(k[i].id, k[i].url, TitleOf(k[i]), k[i].workspaceId, false)
    {
      assert k[i] in x.tabs;
      assert !IsLegacySyntheticNewTab(k[i].url, TitleOf(k[i]));
    }
  }

  lemma NoneAmong(id: TabId)
    ensures !HasRecord([], id) && !HasFace([], id)
  {
  }

  // Every record of a snapshot without repeated or missing ids and urls opens a tab.
  lemma NothingSkipped(x: SessionSnapshot)
    ensures FirstRecords(x.tabs) == x.tabs
       <==> DistinctRecords(x.tabs) && forall i | 0 <= i < |x.tabs| :: x.tabs[i].url != ""
  {
    if DistinctRecords(x.tabs) && forall i | 0 <= i < |x.tabs| :: x.tabs[i].url != "" {
      AllFirst(x.tabs);
    }
  }

  // ---------- The calls ----------

  class SessionPersistence {

    static method CaptureSnapshot(session: BrowserSession, queue: FocusQueue, clean: bool) returns (x: SessionSnapshot)
      ensures x == Captured(session.State(), queue.items, clean)
      ensures HoldsPersistentPart(x, session.State(), queue.items, clean)
    {
      hide HoldsPersistentPart;
      CaptureHoldsPersistentPart(session.State(), queue.items, clean);
      var tabs: seq<SessionTabRecord> := [];
      for i := 0 to |session.tabs|
        invariant tabs == CapturedTabs(session.tabs[..i])
      {
        assert session.tabs[..i + 1][..i] == session.tabs[..i];
        var tab := session.tabs[i];
        if tab.isEphemeral {
          continue;
        }
        tabs := tabs + [SessionTabRecord(tab.id, tab.url, tab.title, tab.workspaceId, tab.lifecycle)];
      }
      assert session.tabs[..|session.tabs|] == session.tabs;

      var active: Option<TabId> := None;
      if session.activeTabId.Some? {
        var k := session.FindMutable(session.activeTabId.value);
        if k < |session.tabs| && !session.tabs[k].isEphemeral {
          active := session.activeTabId;
        } else if tabs != [] {
          active := Some(tabs[0].id);
        }
      }

      var items := CaptureItems(session, queue);
      x := SessionSnapshot(1, clean, active, tabs, items);
    }

    static method CaptureItems(session: BrowserSession, queue: FocusQueue) returns (items: seq<FocusItem>)
      ensures items == SavedItems(queue.items, session.tabs)
    {
      items := [];
      for i := 0 to |queue.items|
        invariant items == SavedItems(queue.items[..i], session.tabs)
      {
        assert queue.items[..i + 1][..i] == queue.items[..i];
        var item := queue.items[i];
        if item.tabId.Some? {
          var k := session.FindMutable(item.tabId.value);
          if k < |session.tabs| && session.tabs[k].isEphemeral {
            continue;
          }
        }
        items := items + [item];
      }
      assert queue.items[..|queue.items|] == queue.items;
    }

    static method RestoreItems(queue: FocusQueue, added: seq<FocusItem>)
      requires queue.Valid()
      modifies queue
      ensures queue.Valid() && queue.items == AfterEnqueues(old(queue.items), added)
    {
      hide ValidItems;
      ghost var before := queue.items;
      for i := 0 to |added|
        invariant queue.Valid() && queue.items == AfterEnqueues(before, added[..i])
      {
        assert added[..i + 1][..i] == added[..i];
        var known := queue.Contains(added[i].id);
        if !known {
          var ok := queue.Enqueue(added[i]);
        }
      }
      assert added[..|added|] == added;
    }

    static method FindTarget(x: SessionSnapshot) returns (target: TabId)
      requires x.tabs != []
      ensures target == Target(x)
    {
      if x.activeTabId.Some? {
        for i := 0 to |x.tabs|
          invariant forall j | 0 <= j < i :: x.tabs[j].id != x.activeTabId.value
        {
          if x.tabs[i].id == x.activeTabId.value {
            return x.tabs[i].id;
          }
        }
      }
      target := x.tabs[0].id;
    }

    static method RestoreTabs(session: BrowserSession, records: seq<SessionTabRecord>, target: TabId)
      requires session.Valid()
      modifies session
      ensures session.Valid() && session.State() == AfterRestoreTabs(old(session.State()), records, target)
    {
      hide SessionInvariant.Valid, AfterOpen;
      ghost var before := session.State();
      for i := 0 to |records|
        invariant session.Valid() && session.State() == AfterRestoreTabs(before, records[..i], target)
      {
        assert records[..i + 1][..i] == records[..i];
        var r := records[i];
        var k := session.FindMutable(r.id);
        if k < |session.tabs| {
          continue;
        }
        var ok := session.OpenTab(NewTab(r.id, r.url, if r.title == "" then r.url else r.title, r.workspaceId, false),
                                  r.id == target);
      }
      assert records[..|records|] == records;
    }

    static method RestoreSession(session: BrowserSession, queue: FocusQueue, x: SessionSnapshot) returns (ok: bool)
      requires session.Valid() && queue.Valid()
      modifies session, queue
      ensures session.Valid() && queue.Valid() && ok
      ensures session.State() == AfterRestore(old(session.State()), x)
      ensures queue.items == ItemsAfterRestore(old(session.State()), old(queue.items), x)
    {
      hide SessionInvariant.Valid, ValidItems, AfterRestoreTabs, AfterActivate, AfterEnqueues, Target;
      RestoreItems(queue, x.focusItems);
      if x.tabs == [] {
        return true;
      }
      var target := FindTarget(x);
      RestoreTabs(session, x.tabs, target);
      var shown := session.ActivateTab(target);
      FocusSessionController.SynchronizeTabClosures(session, queue);
      ok := true;
    }
  }
}
