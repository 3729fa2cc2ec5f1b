/** Which tab is shown when private mode is entered, when a private tab goes and when private mode is left. */
module PrivateChoice {
  import opened Common
  import opened Tabs
  import opened SessionSpec
  import opened SessionInvariant
  import opened SessionFaces
  import opened ProfileManagers
  import opened PrivacySpec
  import opened PrivateMode

  // The last tab is new and shown: this one, with nothing else in the list changed for the user.
  predicate ShowsNewTab(s: Session, r: Session, id: TabId, url: string, title: string, private: bool) {
    && Faces(r.tabs) == Faces(s.tabs) + [Face(id, url, title, None, private)] && r.activeTabId == Some(id)
  }

  predicate ShowsPrivateTab(s: Session, r: Session, n: nat) {
    ShowsNewTab(s, r, "private-tab-" + Decimal(n), "about:blank", "Private Tab", true)
  }

  // A private tab opens blank, a default one at the new-tab page.
  lemma OpenedBlank(n: nat)
    ensures OpenedFace(PrivateTab(n)) == Face("private-tab-" + Decimal(n), "about:blank", "Private Tab", None, true)
    ensures OpenedFace(DefaultTab(n))
         == Face("tab-" + Decimal(n), "https://newtab.openbrowser.invalid/", "New Tab", None, false)
  {
  }

  lemma PrivateTabShown(d: Desktop)
    requires ReservedIssued(Faces(d.session.tabs), d.privateTabs)
    ensures WithPrivateTab(d).privateTabs == d.privateTabs + 1
    ensures ShowsPrivateTab(d.session, WithPrivateTab(d).session, d.privateTabs + 1)
  {
    hide AfterOpen, OpenedFace, Opens, ReservedIssued;
    PrivateTabOpens(d.session, d.privateTabs);
    OpenFaces(d.session, PrivateTab(d.privateTabs + 1), true);
    OpenedBlank(d.privateTabs + 1);
  }

  // Entering private mode shows a new blank private tab under the next number and selects a new ephemeral profile.
  lemma EnterShows(d: Desktop)
    requires ModeSafe(d)
    ensures var r := AfterEnter(d);
      && ShowsPrivateTab(d.session, r.session, d.privateTabs + 1)
      && r.profiles.activeId == "ephemeral-" + Decimal(d.profiles.ephemeralCounter + 1)
      && r.profiles.activeId in r.profiles.known && r.profiles.known[r.profiles.activeId] == Ephemeral
  {
    hide WithPrivateTab, ReservedIssued, Valid, ShowsPrivateTab;
    var created := AfterCreateEphemeral(d.profiles);
    var entered := d.(profiles := AfterSetActive(created, EphemeralId(created.ephemeralCounter)),
                      session := Emit(d.session, SetEphemeralMode(true)));
    PrivateTabShown(entered);
    OnlySession(entered);
    SameFaces(d.session, entered.session, WithPrivateTab(entered).session, d.privateTabs + 1);
  }

  lemma OnlySession(d: Desktop)
    ensures WithPrivateTab(d).profiles == d.profiles
  {
  }

  lemma SameFaces(s: Session, e: Session, r: Session, n: nat)
    requires e.tabs == s.tabs && ShowsPrivateTab(e, r, n)
    ensures ShowsPrivateTab(s, r, n)
  {
  }

  // k is the first private tab with another id.
  predicate IsNextPrivate(tabs: seq<Tab>, id: TabId, k: nat) {
    && k < |tabs| && tabs[k].isEphemeral && tabs[k].id != id
    && forall j | 0 <= j < k :: !tabs[j].isEphemeral || tabs[j].id == id
  }

  // In private mode only private tabs close, and closing one that is not shown leaves the shown one.
  lemma PrivateCloseLeaves(d: Desktop, id: TabId, i: nat)
    requires ModeSafe(d) && IsPrivate(d)
    ensures var s, r := d.session, AfterPrivateClose(d, id);
      && ((forall j | 0 <= j < |s.tabs| && s.tabs[j].id == id :: !s.tabs[j].isEphemeral) ==> r == d)
      && (i < |s.tabs| && s.tabs[i].id == id && s.tabs[i].isEphemeral && s.activeTabId != Some(id) ==>
            r.session.activeTabId == s.activeTabId && Faces(r.session.tabs) == WithoutIndex(Faces(s.tabs), i))
  {
    hide AfterClose, WithPrivateTab, AfterActivate;
    SafeIsUnique(d);
    hide ModeSafe;
    OnlyOne(d.session.tabs, id, i);
    if HasTab(d.session.tabs, id) {
      QuietCloseFaces(d.session, id);
    }
  }

  lemma SafeIsUnique(d: Desktop)
    requires ModeSafe(d)
    ensures UniqueIds(d.session.tabs) && ReservedIssued(Faces(d.session.tabs), d.privateTabs)
  {
  }

  lemma OnlyOne(tabs: seq<Tab>, id: TabId, i: nat)
    requires UniqueIds(tabs)
    ensures i < |tabs| && tabs[i].id == id ==> IndexOf(tabs, id) == i
  {
  }

  // When the shown private tab closes, the first of the other private tabs is shown, or a new blank one when there is
  // no other.
  lemma PrivateCloseShows(d: Desktop, i: nat, k: nat)
    requires ModeSafe(d) && IsPrivate(d)
    requires i < |d.session.tabs| && d.session.tabs[i].isEphemeral
    requires d.session.activeTabId == Some(d.session.tabs[i].id)
    ensures var s, id := d.session, d.session.tabs[i].id; var r := AfterPrivateClose(d, id);
      && (IsNextPrivate(s.tabs, id, k) ==>
            r.session.activeTabId == Some(s.tabs[k].id) && Faces(r.session.tabs) == WithoutIndex(Faces(s.tabs), i))
      && ((forall j | 0 <= j < |s.tabs| :: !s.tabs[j].isEphemeral || j == i) ==>
            ShowsPrivateTab(AfterClose(s, id, DoNotActivateFallback), r.session, d.privateTabs + 1))
  {
    hide *;
    var s, id := d.session, d.session.tabs[i].id;
    SafeIsUnique(d);
    OnlyOne(s.tabs, id, i);
    var closed := d.(session := AfterClose(s, id, DoNotActivateFallback));
    var rest := closed.session.tabs;
    PresentAt(s.tabs, i);
    QuietCloseFaces(s, id);
    RestOfFaces(s.tabs, rest, i);
    FirstAmongRest(s.tabs, rest, i);
    PrivateCanClose(d, i);
    PrivateCloseIs(d, id);
    var n := FirstOfMode(rest, true);
    if n < |rest| {
      var l := if n < i then n else n + 1;
      OthersGoOn(s.tabs, id, i, k, l);
      ActivateFaces(closed.session, rest[n].id);
      PresentAt(rest, n);
    } else {
      NoOther(s.tabs, i, k);
      FacesLength(s.tabs);
      WithoutIssued(Faces(s.tabs), i, d.privateTabs);
      PrivateTabShown(closed);
    }
  }

  lemma FacesLength(tabs: seq<Tab>)
    ensures |Faces(tabs)| == |tabs|
  {
  }

  lemma PrivateCanClose(d: Desktop, i: nat)
    requires IsPrivate(d) && i < |d.session.tabs| && d.session.tabs[i].isEphemeral
    requires IndexOf(d.session.tabs, d.session.tabs[i].id) == i
    ensures CanActivate(d, d.session.tabs[i].id)
  {
  }

  lemma OthersGoOn(tabs: seq<Tab>, id: TabId, i: nat, k: nat, l: nat)
    requires i < |tabs| && tabs[i].id == id && IsNextPrivate(tabs, id, l)
    ensures IsNextPrivate(tabs, id, k) ==> k == l
    ensures !(forall j | 0 <= j < |tabs| :: !tabs[j].isEphemeral || j == i)
  {
    assert tabs[l].isEphemeral && l != i;
  }

  lemma NoOther(tabs: seq<Tab>, i: nat, k: nat)
    requires i < |tabs| && forall j | 0 <= j < |tabs| :: !tabs[j].isEphemeral || j == i
    ensures !IsNextPrivate(tabs, tabs[i].id, k)
  {
  }

  lemma PrivateCloseIs(d: Desktop, id: TabId)
    requires CanActivate(d, id) && d.session.activeTabId == Some(id)
    ensures var closed := d.(session := AfterClose(d.session, id, DoNotActivateFallback));
      var k := FirstOfMode(closed.session.tabs, true);
      AfterPrivateClose(d, id) ==
      if k < |closed.session.tabs| then closed.(session := AfterActivate(closed.session, closed.session.tabs[k].id))
      else WithPrivateTab(closed)
  {
    hide AfterClose, WithPrivateTab, AfterActivate, FirstOfMode;
  }

  lemma PresentAt(tabs: seq<Tab>, n: nat)
    requires n < |tabs|
    ensures HasTab(tabs, tabs[n].id)
  {
  }

  // The rest is the list without tab i, as far as faces go.
  ghost predicate IsRest(tabs: seq<Tab>, rest: seq<Tab>, i: nat) {
    && i < |tabs| == |rest| + 1
    && forall j | 0 <= j < |rest| :: FaceOf(rest[j]) == FaceOf(tabs[if j < i then j else j + 1])
  }

  lemma RestOfFaces(tabs: seq<Tab>, rest: seq<Tab>, i: nat)
    requires i < |tabs| && Faces(rest) == WithoutIndex(Faces(tabs), i)
    ensures IsRest(tabs, rest, i)
  {
    var faces := Faces(tabs);
    assert |Faces(rest)| == |faces| - 1;
    forall j | 0 <= j < |rest|
      ensures FaceOf(rest[j]) == FaceOf(tabs[if j < i then j else j + 1])
    {
      assert Faces(rest)[j] == faces[if j < i then j else j + 1];
    }
  }

  // The first private tab of the rest is the first other private tab of the list.
  lemma FirstAmongRest(tabs: seq<Tab>, rest: seq<Tab>, i: nat)
    requires UniqueIds(tabs) && IsRest(tabs, rest, i)
    ensures var n := FirstOfMode(rest, true);
      && (n < |rest| ==> IsNextPrivate(tabs, tabs[i].id, if n < i then n else n + 1)
                         && rest[n].id == tabs[if n < i then n else n + 1].id)
      && (n == |rest| ==> forall j | 0 <= j < |tabs| :: !tabs[j].isEphemeral || j == i)
  {
    var n := FirstOfMode(rest, true);
    hide FirstOfMode;
    forall j: nat | j < |tabs| && j != i
      ensures rest[if j < i then j else j - 1].isEphemeral == tabs[j].isEphemeral
      ensures rest[if j < i then j else j - 1].id == tabs[j].id
    {
      RestAt(tabs, rest, i, j);
    }
    hide IsRest;
  }

  lemma RestAt(tabs: seq<Tab>, rest: seq<Tab>, i: nat, j: nat)
    requires IsRest(tabs, rest, i) && j < |tabs| && j != i
    ensures var k := if j < i then j else j - 1; k < |rest| && FaceOf(rest[k]) == FaceOf(tabs[j])
  {
  }

  predicate IsPersistentFace(f: Face) {
    !f.isEphemeral
  }

  lemma {:induction false} PersistentFacesAt(faces: seq<Face>)
    ensures var r, at := PersistentFaces(faces), Positions(faces, IsPersistentFace);
      |r| == |at| && forall j | 0 <= j < |at| :: r[j] == faces[at[j]]
  {
    if faces != [] {
      PersistentFacesAt(faces[..|faces| - 1]);
    }
  }

  // Leaving private mode shows the first persistent tab of the list, or a new default tab when there is none.
  lemma ExitShows(d: Desktop)
    requires ModeSafe(d)
    ensures var r := AfterExit(d); var at := Positions(Faces(d.session.tabs), IsPersistentFace);
      && r.profiles.activeId == "default"
      && (at != [] ==> r.session.activeTabId == Some(d.session.tabs[at[0]].id)
                       && |r.session.tabs| == |at|
                       && forall j | 0 <= j < |at| :: FaceOf(r.session.tabs[j]) == FaceOf(d.session.tabs[at[j]]))
      && (at == [] ==> ShowsNewTab(EMPTY_SESSION, r.session, "tab-" + Decimal(d.persistentTabs + 1),
                                   "https://newtab.openbrowser.invalid/", "New Tab", false))
  {
    hide *;
    var w := AfterWipe(d);
    WipeFaces(d);
    WipeCounts(d);
    PersistentFacesAt(Faces(d.session.tabs));
    ExitIs(d);
    if w.session.tabs == [] {
      RestoreOpens(w);
    } else {
      RestoreShowsFirst(w);
      SameFacesAt(AfterExit(d).session.tabs, w.session.tabs);
    }
    SameFacesAt(w.session.tabs, w.session.tabs);
    SameFacesAt(d.session.tabs, d.session.tabs);
  }

  lemma SameFacesAt(a: seq<Tab>, b: seq<Tab>)
    requires Faces(a) == Faces(b)
    ensures |a| == |b| == |Faces(a)| && forall j | 0 <= j < |a| :: FaceOf(a[j]) == FaceOf(b[j]) == Faces(a)[j]
    ensures forall j | 0 <= j < |a| :: a[j].id == b[j].id == Faces(a)[j].id
  {
    assert forall j | 0 <= j < |a| :: FaceOf(a[j]) == Faces(a)[j] == Faces(b)[j] == FaceOf(b[j]);
  }

  lemma WipeFaces(d: Desktop)
    requires ModeSafe(d)
    ensures var w := AfterWipe(d);
      && Faces(w.session.tabs) == PersistentFaces(Faces(d.session.tabs))
      && forall i | 0 <= i < |w.session.tabs| :: !w.session.tabs[i].isEphemeral
  {
    hide ModeSafe, AfterWipe, PersistentFaces;
    SafeIsSound(d);
    WipeClean(d);
    PersistentOfPersistent(Faces(AfterWipe(d).session.tabs));
  }

  lemma ExitIs(d: Desktop)
    ensures AfterExit(d) == AfterRestorePersistent(AfterWipe(d))
  {
  }

  lemma SafeIsSound(d: Desktop)
    requires ModeSafe(d)
    ensures Sound(d)
  {
  }

  lemma RestoreOpens(d: Desktop)
    requires d.session.tabs == []
    ensures ShowsNewTab(EMPTY_SESSION, AfterRestorePersistent(d).session, "tab-" + Decimal(d.persistentTabs + 1),
                        "https://newtab.openbrowser.invalid/", "New Tab", false)
  {
    hide AfterOpen, OpenedFace, Opens;
    DefaultTabOpens(d.session, d.persistentTabs + 1);
    OpenFaces(d.session, DefaultTab(d.persistentTabs + 1), true);
    OpenedBlank(d.persistentTabs + 1);
    assert Faces(EMPTY_SESSION.tabs) == Faces(d.session.tabs) == [];
  }

  lemma RestoreShowsFirst(d: Desktop)
    requires d.session.tabs != [] && forall i | 0 <= i < |d.session.tabs| :: !d.session.tabs[i].isEphemeral
    ensures var r := AfterRestorePersistent(d).session;
      Faces(r.tabs) == Faces(d.session.tabs) && r.activeTabId == Some(d.session.tabs[0].id)
  {
    hide AfterActivate, Faces;
    FirstPersistent(d.session.tabs);
    FirstPresent(d.session.tabs);
    ActivateFaces(d.session, d.session.tabs[0].id);
  }

  lemma FirstPersistent(tabs: seq<Tab>)
    requires tabs != [] && !tabs[0].isEphemeral
    ensures FirstOfMode(tabs, false) == 0
  {
  }

  lemma WipeCounts(d: Desktop)
    requires ModeSafe(d)
    ensures AfterWipe(d).persistentTabs == d.persistentTabs
    ensures AfterWipe(d).profiles.activeId == "default"
    ensures AfterExit(d).profiles == AfterWipe(d).profiles
  {
    hide AfterCloses, Valid, ReservedIssued, InMode, ModeFlag;
  }
}
