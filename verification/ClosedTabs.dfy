/** Laws of the closed-tab stack: which record a reopen takes, what it restores, and
    when a record is lost because its generated id is already in use. */
module ClosedTabs {
  import opened Common
  import opened Tabs
  import opened SessionSpec
  import opened SessionInvariant
  import opened SessionRuns

  // k is the position of the newest record of the mode.
  ghost predicate IsNewest(closed: seq<ClosedTabRecord>, mode: ClosedTabMode, k: nat) {
    && k < |closed| && ModeMatches(mode, closed[k])
    && forall j | k < j < |closed| :: !ModeMatches(mode, closed[j])
  }

  // A reopen takes the newest record of its mode off the stack, keeps all others in order, and
  // leaves the stack alone when there is none.
  lemma ReopenTakesNewest(s: Session, mode: ClosedTabMode, k: nat)
    ensures IsNewest(s.closedTabs, mode, k)
            ==> AfterReopen(s, mode).closedTabs == s.closedTabs[..k] + s.closedTabs[k + 1..]
    ensures (forall r | r in s.closedTabs :: !ModeMatches(mode, r)) ==> AfterReopen(s, mode) == s
  {
    var n := NewestMatch(s.closedTabs, mode);
    assert n > 0 ==> s.closedTabs[n - 1] in s.closedTabs;
    if IsNewest(s.closedTabs, mode, k) {
      assert n == k + 1;
    }
  }

  // A remembered record can always be opened again, with its own url unless that is a placeholder.
  lemma RestoredTabOpens(r: ClosedTabRecord, n: nat)
    requires !IsBlankOrNewTabUrl(r.url)
    ensures var t := RestoredTab(r, n);
      t.id != "" && OpeningUrl(t) != "" && (OpeningUrl(t) == r.url <==> !IsLegacySyntheticNewTab(r.url, r.title))
  {
  }

  // Reopening succeeds exactly when a record of the mode is there and no tab has taken the next
  // restored-N id.  Otherwise a matching record leaves the stack and no tab appears.
  lemma ReopenSucceedsWhen(s: Session, mode: ClosedTabMode)
    requires WellFormedRecords(s.closedTabs)
    ensures ReopenResult(s, mode).Some?
            <==> (exists r | r in s.closedTabs :: ModeMatches(mode, r)) && !HasTab(s.tabs, RestoredId(s.restored + 1))
    ensures ReopenResult(s, mode).None? && (exists r | r in s.closedTabs :: ModeMatches(mode, r))
            ==> exists k: nat :: IsNewest(s.closedTabs, mode, k) && AfterReopen(s, mode) == Unstacked(s, k + 1)
  {
    hide RestoredId, AfterOpen, OpeningUrl, IsBlankOrNewTabUrl;
    var k := NewestMatch(s.closedTabs, mode);
    if exists r | r in s.closedTabs :: ModeMatches(mode, r) {
      var r :| r in s.closedTabs && ModeMatches(mode, r);
      var j :| 0 <= j < |s.closedTabs| && s.closedTabs[j] == r;
      assert k > 0;
    }
    if k > 0 {
      var r := s.closedTabs[k - 1];
      assert r in s.closedTabs && ModeMatches(mode, r);
      RestoredTabOpens(r, s.restored + 1);
      assert IsNewest(s.closedTabs, mode, k - 1);
      RefusedOpen(Unstacked(s, k), RestoredTab(r, s.restored + 1));
    }
  }

  const NAMESAKE := NewTab("restored-1", "https://a.test/", "A", None, false)
  const VISITED := NewTab("b", "https://b.test/", "B", None, false)
  const CLOSED_ONE :=
    Run(EMPTY_SESSION, [DoOpen(NAMESAKE, true), DoOpen(VISITED, false)] + [DoClose("b", ActivateFallback)])

  // A user tab called restored-1 makes the first reopen of a run lose its record.
  lemma RecordLost()
    ensures CLOSED_ONE.closedTabs == [ClosedTabRecord("https://b.test/", "B", None, false)]
    ensures ReopenResult(CLOSED_ONE, Any) == None
    ensures Step(CLOSED_ONE, DoReopen(Any)) == CLOSED_ONE.(closedTabs := [], restored := 1)
  {
    hide OpeningUrl, Run, AfterReopen, ReopenResult, OpenedTab, RestoredId;
    RunSnoc(EMPTY_SESSION, [DoOpen(NAMESAKE, true), DoOpen(VISITED, false)], DoClose("b", ActivateFallback));
    RunOfTwo(EMPTY_SESSION, DoOpen(NAMESAKE, true), DoOpen(VISITED, false));
    OneClosed();
    NamesakeTakesId();
    LastRecordLost(CLOSED_ONE, ClosedTabRecord("https://b.test/", "B", None, false));
  }

  lemma NamesakeTakesId()
    ensures HasTab([OpenedTab(NAMESAKE, true, 1)], RestoredId(1))
  {
    assert Decimal(1) == "1" && RestoredId(1) == "restored-1";
  }

  lemma LastRecordLost(s: Session, record: ClosedTabRecord)
    requires s.closedTabs == [record] && HasTab(s.tabs, RestoredId(s.restored + 1))
    ensures ReopenResult(s, Any) == None && AfterReopen(s, Any) == s.(closedTabs := [], restored := s.restored + 1)
  {
    hide AfterOpen;
    assert NewestMatch(s.closedTabs, Any) == 1;
    assert Unstacked(s, 1) == s.(closedTabs := [], restored := s.restored + 1);
    RefusedOpen(Unstacked(s, 1), RestoredTab(record, s.restored + 1));
  }

  lemma OneClosed()
    ensures var s := Step(Step(Step(EMPTY_SESSION, DoOpen(NAMESAKE, true)), DoOpen(VISITED, false)),
                          DoClose("b", ActivateFallback));
      s.tabs == [OpenedTab(NAMESAKE, true, 1)] && s.restored == 0
      && s.closedTabs == [ClosedTabRecord("https://b.test/", "B", None, false)]
  {
    PlainUrls();
    hide OpeningUrl;
    var s1 := Step(EMPTY_SESSION, DoOpen(NAMESAKE, true));
    assert s1.tabs == [OpenedTab(NAMESAKE, true, 1)] && s1.activeTabId == Some("restored-1") && s1.closedTabs == [];
    assert "restored-1"[0] == 'r' && "b"[0] == 'b';
    assert IndexOf(s1.tabs, "b") == 1;
    var s2 := Step(s1, DoOpen(VISITED, false));
    assert s2.tabs == [OpenedTab(NAMESAKE, true, 1), OpenedTab(VISITED, false, 0)]
      && s2.activeTabId == Some("restored-1");
    assert IndexOf(s2.tabs, "b") == 1;
    assert WithoutIndex(s2.tabs, 1) == [OpenedTab(NAMESAKE, true, 1)];
    assert !IsBlankOrNewTabUrl(VISITED.url) by { assert VISITED.url[8] == 'b'; }
  }

  lemma PlainUrls()
    ensures OpeningUrl(NAMESAKE) == NAMESAKE.url != "" && OpeningUrl(VISITED) == VISITED.url != ""
  {
    assert NAMESAKE.url[8] == 'a' && VISITED.url[8] == 'b' && LEGACY_PLACEHOLDER_URL[8] == 'e';
  }

  // Closing a tab and reopening in its mode restores url, defaulted title, workspace and privacy flag
  // in a new active tab at the end, and leaves the stack as it was but for the oldest record of a full
  // stack.
  lemma CloseThenReopen(s: Session, id: TabId, policy: CloseActivationPolicy, mode: ClosedTabMode)
    requires WellFormedRecords(s.closedTabs) && HasTab(s.tabs, id)
    requires var t := s.tabs[IndexOf(s.tabs, id)];
      !IsBlankOrNewTabUrl(t.url) && ModeMatches(mode, ClosedRecord(t))
    requires !HasTab(AfterClose(s, id, policy).tabs, RestoredId(s.restored + 1))
    ensures var t := s.tabs[IndexOf(s.tabs, id)];
      var r := AfterReopen(AfterClose(s, id, policy), mode);
      && r.tabs != []
      && var u := r.tabs[|r.tabs| - 1];
      && r.activeTabId == Some(u.id) && u.id == RestoredId(s.restored + 1) && u.lifecycle == Active
      && u.title == (if t.title == "" then t.url else t.title)
      && u.workspaceId == t.workspaceId && u.isEphemeral == t.isEphemeral
      && (u.url == t.url <==> !IsLegacySyntheticNewTab(t.url, t.title))
      && r.closedTabs == (if |s.closedTabs| == MAX_CLOSED_TABS then s.closedTabs[1..] else s.closedTabs)
  {
    hide AfterClose, AfterOpen, RestoredId, OpeningUrl, IsLegacySyntheticNewTab, Remembered, ModeMatches, WithoutIndex;
    var t := s.tabs[IndexOf(s.tabs, id)];
    var c := AfterClose(s, id, policy);
    CloseRemembers(s, id, policy);
    NewestIsLast(s.closedTabs, t, mode);
    RestoredTabOpens(ClosedRecord(t), s.restored + 1);
    OpenAppends(Unstacked(c, |c.closedTabs|), RestoredTab(ClosedRecord(t), s.restored + 1));
  }

  // Right after a tab is remembered its record is the newest, and taking it off undoes the push.
  lemma NewestIsLast(closed: seq<ClosedTabRecord>, t: Tab, mode: ClosedTabMode)
    requires WellFormedRecords(closed) && !IsBlankOrNewTabUrl(t.url) && ModeMatches(mode, ClosedRecord(t))
    ensures var grown := Remembered(closed, t); var n := |grown|;
      && n > 0 && grown[n - 1] == ClosedRecord(t) && NewestMatch(grown, mode) == n
      && WithoutIndex(grown, n - 1) == (if |closed| == MAX_CLOSED_TABS then closed[1..] else closed)
  {
  }

  lemma RefusedOpen(s: Session, tab: Tab)
    ensures !Opens(s, tab) ==> AfterOpen(s, tab, true) == s
  {
  }

  lemma OpenAppends(s: Session, tab: Tab)
    requires Opens(s, tab)
    ensures var r := AfterOpen(s, tab, true);
      && |r.tabs| == |s.tabs| + 1 && r.tabs[|s.tabs|] == OpenedTab(tab, true, s.lastActivated + 1)
      && r.activeTabId == Some(tab.id) && r.closedTabs == s.closedTabs
  {
  }

  lemma CloseRemembers(s: Session, id: TabId, policy: CloseActivationPolicy)
    requires HasTab(s.tabs, id)
    ensures var r := AfterClose(s, id, policy);
      && r.closedTabs == Remembered(s.closedTabs, s.tabs[IndexOf(s.tabs, id)])
      && r.restored == s.restored
  {
  }
}
