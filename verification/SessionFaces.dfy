/** What a user sees of a session: the faces of its tabs.  Lifecycle changes do not show in
    them, so each call has a short description in terms of faces. */
module SessionFaces {
  import opened Common
  import opened Tabs
  import opened SessionSpec
  import opened SessionInvariant

  datatype Face = Face(id: TabId, url: string, title: string, workspaceId: Option<WorkspaceId>, isEphemeral: bool)

  function FaceOf(t: Tab): Face {
    Face(t.id, t.url, t.title, t.workspaceId, t.isEphemeral)
  }

  function Faces(tabs: seq<Tab>): (r: seq<Face>)
    ensures |r| == |tabs|
    ensures forall i | 0 <= i < |tabs| :: r[i] == FaceOf(tabs[i])
  {
    seq(|tabs|, i requires 0 <= i < |tabs| => FaceOf(tabs[i]))
  }

  // The faces of the tabs that are not private, in order.
  function PersistentFaces(faces: seq<Face>): seq<Face> {
    if faces == [] then []
    else
      var n := |faces| - 1;
      PersistentFaces(faces[..n]) + (if faces[n].isEphemeral then [] else [faces[n]])
  }

  lemma PersistentAppend(faces: seq<Face>, f: Face)
    ensures PersistentFaces(faces + [f]) == PersistentFaces(faces) + (if f.isEphemeral then [] else [f])
  {
    assert (faces + [f])[..|faces|] == faces;
  }

  lemma {:induction false} PersistentWithout(faces: seq<Face>, i: nat)
    requires i < |faces| && faces[i].isEphemeral
    ensures PersistentFaces(WithoutIndex(faces, i)) == PersistentFaces(faces)
  {
    var n := |faces| - 1;
    if i == n {
      assert WithoutIndex(faces, i) == faces[..n];
    } else {
      PersistentWithout(faces[..n], i);
      assert WithoutIndex(faces, i) == WithoutIndex(faces[..n], i) + [faces[n]];
      PersistentAppend(WithoutIndex(faces[..n], i), faces[n]);
    }
  }

  lemma {:induction false} PersistentUpdate(faces: seq<Face>, i: nat, f: Face)
    requires i < |faces| && faces[i].isEphemeral && f.isEphemeral
    ensures PersistentFaces(faces[i := f]) == PersistentFaces(faces)
  {
    var n := |faces| - 1;
    if i == n {
      assert faces[i := f][..n] == faces[..n];
    } else {
      assert faces[i := f][..n] == faces[..n][i := f];
      PersistentUpdate(faces[..n], i, f);
    }
  }

  lemma {:induction false} PersistentOfPersistent(faces: seq<Face>)
    requires forall i | 0 <= i < |faces| :: !faces[i].isEphemeral
    ensures PersistentFaces(faces) == faces
  {
    if faces != [] {
      var n := |faces| - 1;
      PersistentOfPersistent(faces[..n]);
      assert faces == faces[..n] + [faces[n]];
    }
  }

  // ---------- The calls, seen from outside ----------

  lemma DemotedFaces(tabs: seq<Tab>, active: Option<TabId>)
    ensures Faces(Demoted(tabs, active)) == Faces(tabs)
  {
  }

  lemma MadeActiveFaces(s: Session, k: nat)
    requires k < |s.tabs|
    ensures var r := MadeActive(Woken(s, k), k);
      Faces(r.tabs) == Faces(s.tabs) && r.activeTabId == Some(s.tabs[k].id) && r.closedTabs == s.closedTabs
  {
  }

  lemma ActivateFaces(s: Session, id: TabId)
    ensures var r := AfterActivate(s, id);
      && Faces(r.tabs) == Faces(s.tabs) && r.closedTabs == s.closedTabs
      && r.activeTabId == if HasTab(s.tabs, id) then Some(id) else s.activeTabId
  {
    DemotedFaces(s.tabs, s.activeTabId);
  }

  function OpenedFace(tab: Tab): Face {
    Face(tab.id, OpeningUrl(tab), tab.title, tab.workspaceId, tab.isEphemeral)
  }

  lemma OpenFaces(s: Session, tab: Tab, activate: bool)
    ensures var r := AfterOpen(s, tab, activate);
      && Faces(r.tabs) == Faces(s.tabs) + (if Opens(s, tab) then [OpenedFace(tab)] else [])
      && r.closedTabs == s.closedTabs
      && r.activeTabId == if Opens(s, tab) && (s.tabs == [] || activate) then Some(tab.id) else s.activeTabId
  {
    hide OpeningUrl;
    DemotedFaces(s.tabs, s.activeTabId);
  }

  lemma RemovedFaces(s: Session, i: nat)
    requires i < |s.tabs|
    ensures Faces(Removed(s, i).tabs) == WithoutIndex(Faces(s.tabs), i)
  {
    hide Remembered;
    assert WithoutIndex(Faces(s.tabs), i) == Faces(WithoutIndex(s.tabs, i));
  }

  lemma QuietCloseFaces(s: Session, id: TabId)
    requires HasTab(s.tabs, id)
    ensures var r := AfterClose(s, id, DoNotActivateFallback); var i := IndexOf(s.tabs, id);
      && Faces(r.tabs) == WithoutIndex(Faces(s.tabs), i)
      && r.closedTabs == Remembered(s.closedTabs, s.tabs[i])
      && r.activeTabId == if s.activeTabId == Some(id) then None else s.activeTabId
  {
    hide Remembered, Faces;
    RemovedFaces(s, IndexOf(s.tabs, id));
  }

  lemma FallbackFaces(s: Session, preferred: nat)
    ensures var r := AfterFallback(s, preferred);
      && Faces(r.tabs) == Faces(s.tabs) && r.closedTabs == s.closedTabs
      && (s.tabs != [] ==> r.activeTabId.Some?)
  {
    hide MadeActive, Woken;
    if s.tabs != [] {
      MadeActiveFaces(s, ScanLeft(s.tabs, Min(preferred, |s.tabs| - 1), 0));
    }
  }

  lemma CloseFaces(s: Session, id: TabId)
    requires HasTab(s.tabs, id)
    ensures var r := AfterClose(s, id, ActivateFallback); var i := IndexOf(s.tabs, id);
      && Faces(r.tabs) == WithoutIndex(Faces(s.tabs), i)
      && r.closedTabs == Remembered(s.closedTabs, s.tabs[i])
      && (r.tabs != [] && s.activeTabId.Some? ==> r.activeTabId.Some?)
  {
    hide Remembered, AfterFallback, Faces;
    var i := IndexOf(s.tabs, id);
    RemovedFaces(s, i);
    FallbackFaces(Removed(s, i), i);
    assert AfterClose(s, id, ActivateFallback).tabs != [] ==> Removed(s, i).tabs != [] by { FacesEmpty(s, id); }
  }

  lemma FacesEmpty(s: Session, id: TabId)
    requires HasTab(s.tabs, id)
    ensures |AfterClose(s, id, ActivateFallback).tabs| == |Removed(s, IndexOf(s.tabs, id)).tabs|
  {
  }

  // Suspending, resuming, discarding and navigating change no face, no active tab and no record.
  lemma QuietFaces(s: Session, id: TabId, url: string, command: HistoryCommand)
    ensures forall r | r in [AfterSuspend(s, id), AfterResume(s, id), AfterDiscard(s, id), AfterNavigate(s, id, url),
                            AfterHistory(s, id, command)] ::
              Faces(r.tabs) == Faces(s.tabs) && r.activeTabId == s.activeTabId && r.closedTabs == s.closedTabs
  {
  }

  lemma EventFaces(s: Session, e: EngineEvent)
    ensures var r := AfterEvent(s, e); var i := IndexOf(s.tabs, e.tabId);
      && r.activeTabId == s.activeTabId && r.closedTabs == s.closedTabs
      && |r.tabs| == |s.tabs|
      && (forall j | 0 <= j < |s.tabs| && j != i :: r.tabs[j] == s.tabs[j])
      && (i < |s.tabs| ==> r.tabs[i].id == s.tabs[i].id && r.tabs[i].isEphemeral == s.tabs[i].isEphemeral)
  {
  }

  // ---------- Closed-tab records that are not private ----------

  ghost predicate IsSuffix<T>(a: seq<T>, b: seq<T>) {
    |a| <= |b| && b[|b| - |a|..] == a
  }

  lemma SuffixTransitive<T>(a: seq<T>, b: seq<T>, c: seq<T>)
    requires IsSuffix(a, b) && IsSuffix(b, c)
    ensures IsSuffix(a, c)
  {
  }

  lemma RecordsAppend(closed: seq<ClosedTabRecord>, r: ClosedTabRecord)
    ensures PersistentRecords(closed + [r]) == PersistentRecords(closed) + (if r.isEphemeral then [] else [r])
  {
    assert (closed + [r])[..|closed|] == closed;
  }

  lemma {:induction false} RecordsWithout(closed: seq<ClosedTabRecord>, k: nat)
    requires k < |closed| && closed[k].isEphemeral
    ensures PersistentRecords(WithoutIndex(closed, k)) == PersistentRecords(closed)
  {
    var n := |closed| - 1;
    if k == n {
      assert WithoutIndex(closed, k) == closed[..n];
    } else {
      RecordsWithout(closed[..n], k);
      assert WithoutIndex(closed, k) == WithoutIndex(closed[..n], k) + [closed[n]];
      RecordsAppend(WithoutIndex(closed[..n], k), closed[n]);
    }
  }

  // Dropping the oldest record drops at most the oldest persistent one.
  lemma {:induction false} RecordsTail(closed: seq<ClosedTabRecord>)
    requires closed != []
    ensures IsSuffix(PersistentRecords(closed[1..]), PersistentRecords(closed))
  {
    var n := |closed| - 1;
    if n > 0 {
      RecordsTail(closed[..n]);
      assert closed[1..] == closed[..n][1..] + [closed[n]];
      RecordsAppend(closed[..n][1..], closed[n]);
    }
  }

  lemma RememberedRecords(closed: seq<ClosedTabRecord>, t: Tab)
    requires t.isEphemeral
    ensures IsSuffix(PersistentRecords(Remembered(closed, t)), PersistentRecords(closed))
  {
    RecordsAppend(closed, ClosedRecord(t));
    RecordsTail(closed + [ClosedRecord(t)]);
  }

  lemma {:induction false} PurgedRecords(closed: seq<ClosedTabRecord>)
    ensures PersistentRecords(PersistentRecords(closed)) == PersistentRecords(closed)
  {
    if closed != [] {
      var n := |closed| - 1;
      PurgedRecords(closed[..n]);
      if !closed[n].isEphemeral {
        RecordsAppend(PersistentRecords(closed[..n]), closed[n]);
      }
    }
  }
}
