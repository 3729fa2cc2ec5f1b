/** Which tab a session turns to: the fallback after closing the active tab and the
    cyclic order of CycleTab, described without the scans that find them. */
module SessionChoice {
  import opened Common
  import opened Tabs
  import opened SessionSpec
  import opened SessionInvariant

  // ---------- The fallback after a close ----------

  // The scan of n tabs from `start` meets each position at exactly one offset.
  lemma ScanVisitsOnce(n: nat, start: nat, offset: nat, j: nat)
    requires start < n && offset < n && j < n
    ensures (start + n - offset) % n == j <==> offset == (if j <= start then start - j else start + n - j)
  {
    ModOnce(start + n - offset, n);
  }

  ghost predicate DiscardedIn(tabs: seq<Tab>, lo: int, hi: int) {
    forall j | 0 <= j < |tabs| && lo <= j < hi :: tabs[j].lifecycle == Discarded
  }

  // k is the nearest loaded tab at or left of start; failing that the last loaded tab of the list;
  // failing that start itself.
  ghost predicate IsFallback(tabs: seq<Tab>, start: nat, k: nat)
    requires start < |tabs|
  {
    && k < |tabs|
    && (if tabs[k].lifecycle == Discarded then k == start && DiscardedIn(tabs, 0, |tabs|)
        else if k <= start then DiscardedIn(tabs, k + 1, start + 1)
        else DiscardedIn(tabs, 0, start + 1) && DiscardedIn(tabs, k + 1, |tabs|))
  }

  lemma {:induction false} ScanFinds(tabs: seq<Tab>, start: nat, offset: nat)
    requires start < |tabs| && offset <= |tabs|
    requires if offset <= start then DiscardedIn(tabs, start - offset + 1, start + 1)
             else DiscardedIn(tabs, 0, start + 1) && DiscardedIn(tabs, start + |tabs| - offset + 1, |tabs|)
    ensures IsFallback(tabs, start, ScanLeft(tabs, start, offset))
    decreases |tabs| - offset
  {
    var n := |tabs|;
    if offset < n {
      var index := if offset <= start then start - offset else start + n - offset;
      ScanVisitsOnce(n, start, offset, index);
      if tabs[index].lifecycle == Discarded {
        ScanFinds(tabs, start, offset + 1);
      }
    }
  }

  // What the engine is told when tab t is woken.
  function WakeCommands(t: Tab): seq<EngineCommand> {
    match t.lifecycle
    case Discarded => [Create(t.id, t.isEphemeral)]
    case Suspended => [Resume(t.id)]
    case _ => []
  }

  lemma FallbackActivates(s: Session, preferred: nat)
    requires s.tabs != []
    ensures var start := Min(preferred, |s.tabs| - 1);
      var k := ScanLeft(s.tabs, start, 0);
      var r := AfterFallback(s, preferred);
      && IsFallback(s.tabs, start, k)
      && r.activeTabId == Some(s.tabs[k].id)
      && r.commands == s.commands + WakeCommands(s.tabs[k]) + [Activate(s.tabs[k].id)]
  {
    ScanFinds(s.tabs, Min(preferred, |s.tabs| - 1), 0);
  }

  // r is s after closing active tab i and turning to tab k of the rest: the engine closes i, wakes k
  // and shows it; a surface is re-created exactly when every remaining tab is discarded.
  ghost predicate TurnedTo(s: Session, i: nat, r: Session, k: nat)
    requires i < |s.tabs| && |s.tabs| > 1
  {
    var rest := WithoutIndex(s.tabs, i);
    && IsFallback(rest, Min(i, |rest| - 1), k)
    && r.activeTabId == Some(rest[k].id)
    && r.commands == s.commands + [Close(s.tabs[i].id)] + WakeCommands(rest[k]) + [Activate(rest[k].id)]
    && ((exists c | c in WakeCommands(rest[k]) :: c.Create?) <==> DiscardedIn(rest, 0, |rest|))
  }

  // Closing the active tab turns to the fallback of the remaining tabs.
  lemma CloseActivatesFallback(s: Session, id: TabId)
    requires HasTab(s.tabs, id) && s.activeTabId == Some(id) && |s.tabs| > 1
    ensures exists k: nat :: TurnedTo(s, IndexOf(s.tabs, id), AfterClose(s, id, ActivateFallback), k)
  {
    hide AfterFallback, ScanLeft, Remembered;
    var i := IndexOf(s.tabs, id);
    var rest := WithoutIndex(s.tabs, i);
    FallbackActivates(Removed(s, i), i);
    var k := ScanLeft(rest, Min(i, |rest| - 1), 0);
    assert rest[k].lifecycle == Discarded ==> WakeCommands(rest[k])[0].Create?;
    assert TurnedTo(s, i, AfterClose(s, id, ActivateFallback), k);
  }

  // ---------- Cycling ----------

  predicate SameTab(a: Tab, b: Tab) {
    b == a.(lifecycle := b.lifecycle, lastActivatedSequence := b.lastActivatedSequence)
  }

  ghost predicate SameTabs(a: seq<Tab>, b: seq<Tab>) {
    |a| == |b| && forall i | 0 <= i < |a| :: SameTab(a[i], b[i])
  }

  // A filter that looks at what a tab is, not at whether it is shown.
  ghost predicate Stable(filter: Tab -> bool) {
    forall a, b | SameTab(a, b) :: filter(a) == filter(b)
  }

  lemma {:induction false} SameTabsVisible(a: seq<Tab>, b: seq<Tab>, filter: Tab -> bool)
    requires Stable(filter) && SameTabs(a, b)
    ensures VisibleIndices(a, filter) == VisibleIndices(b, filter)
  {
    if a != [] {
      var n := |a| - 1;
      SameTabsVisible(a[..n], b[..n], filter);
      assert SameTab(a[n], b[n]);
    }
  }

  lemma ActivateSameTabs(s: Session, id: TabId)
    ensures SameTabs(s.tabs, AfterActivate(s, id).tabs)
  {
    var r := AfterActivate(s, id).tabs;
    var d := Demoted(s.tabs, s.activeTabId);
    assert SameTabs(s.tabs, d);
    forall i | 0 <= i < |r| ensures SameTab(s.tabs[i], r[i]) {
      assert SameTab(s.tabs[i], d[i]);
    }
  }

  // Activating a tab that is there makes it the active one.
  lemma ActivateReaches(s: Session, id: TabId)
    requires HasTab(s.tabs, id)
    ensures AfterActivate(s, id).activeTabId == Some(id)
  {
  }

  function Cycled(s: Session, forward: bool, filter: Tab -> bool, steps: nat): Session {
    if steps == 0 then s else AfterCycle(Cycled(s, forward, filter, steps - 1), forward, filter)
  }

  // The place `steps` further on, or back, around a ring of n.
  function Around(n: nat, p: nat, steps: nat, forward: bool): nat
    requires p < n && steps <= n
  {
    if forward then (if p + steps < n then p + steps else p + steps - n)
    else (if steps <= p then p - steps else p + n - steps)
  }

  // The active tab is the p-th visible one.
  ghost predicate ActiveAt(s: Session, filter: Tab -> bool, p: nat) {
    var visible := VisibleIndices(s.tabs, filter);
    p < |visible| && s.activeTabId == Some(s.tabs[visible[p]].id)
  }

  lemma PositionOfActive(s: Session, filter: Tab -> bool, p: nat)
    requires UniqueIds(s.tabs) && ActiveAt(s, filter, p)
    ensures VisiblePosition(s.tabs, VisibleIndices(s.tabs, filter), s.activeTabId.value) == p
  {
    var visible := VisibleIndices(s.tabs, filter);
    var q := VisiblePosition(s.tabs, visible, s.activeTabId.value);
    assert visible[p] == visible[q];
  }

  lemma NextIsAround(n: nat, p: nat, forward: bool)
    requires p < n
    ensures (if n == 1 then 0 else NextPosition(n, p, forward)) == Around(n, p, 1, forward)
  {
    ModOnce(p + 1, n);
    ModOnce(p + n - 1, n);
  }

  lemma CycleStep(s: Session, forward: bool, filter: Tab -> bool, p: nat)
    requires UniqueIds(s.tabs) && ActiveAt(s, filter, p)
    ensures var visible := VisibleIndices(s.tabs, filter);
      AfterCycle(s, forward, filter) == AfterActivate(s, s.tabs[visible[Around(|visible|, p, 1, forward)]].id)
  {
    PositionOfActive(s, filter, p);
    NextIsAround(|VisibleIndices(s.tabs, filter)|, p, forward);
  }

  // s' is s with another tab shown: the p-th visible one.
  ghost predicate Turned(s: Session, s': Session, filter: Tab -> bool, p: nat) {
    && SameTabs(s.tabs, s'.tabs)
    && VisibleIndices(s'.tabs, filter) == VisibleIndices(s.tabs, filter)
    && ActiveAt(s', filter, p)
  }

  lemma SameTabsUnique(a: seq<Tab>, b: seq<Tab>)
    requires UniqueIds(a) && SameTabs(a, b)
    ensures UniqueIds(b)
  {
    assert forall i | 0 <= i < |a| :: b[i].id == a[i].id;
  }

  lemma CycleOnce(s: Session, forward: bool, filter: Tab -> bool, p: nat)
    requires UniqueIds(s.tabs) && Stable(filter) && ActiveAt(s, filter, p)
    ensures Turned(s, AfterCycle(s, forward, filter), filter, Around(|VisibleIndices(s.tabs, filter)|, p, 1, forward))
  {
    var visible := VisibleIndices(s.tabs, filter);
    var k := visible[Around(|visible|, p, 1, forward)];
    CycleStep(s, forward, filter, p);
    var r := AfterActivate(s, s.tabs[k].id);
    ActivateSameTabs(s, s.tabs[k].id);
    SameTabsVisible(s.tabs, r.tabs, filter);
    ActivateReaches(s, s.tabs[k].id);
    assert r.tabs[k].id == s.tabs[k].id;
  }

  lemma TurnedTwice(a: Session, b: Session, c: Session, filter: Tab -> bool, p: nat, q: nat)
    requires Turned(a, b, filter, p) && Turned(b, c, filter, q)
    ensures Turned(a, c, filter, q)
  {
    hide VisibleIndices;
    forall i | 0 <= i < |a.tabs| ensures SameTab(a.tabs[i], c.tabs[i]) {
      assert SameTab(a.tabs[i], b.tabs[i]) && SameTab(b.tabs[i], c.tabs[i]);
    }
  }

  // k <= n cycle steps move the active tab k places around the ring of the n visible tabs.
  lemma {:induction false} CycleMoves(s: Session, forward: bool, filter: Tab -> bool, p: nat, steps: nat)
    requires UniqueIds(s.tabs) && Stable(filter) && ActiveAt(s, filter, p)
    requires steps <= |VisibleIndices(s.tabs, filter)|
    ensures Turned(s, Cycled(s, forward, filter, steps), filter,
      Around(|VisibleIndices(s.tabs, filter)|, p, steps, forward))
    decreases steps
  {
    hide AfterCycle, VisibleIndices, Stable, UniqueIds;
    if steps > 0 {
      var n := |VisibleIndices(s.tabs, filter)|;
      var r := Cycled(s, forward, filter, steps - 1);
      CycleMoves(s, forward, filter, p, steps - 1);
      SameTabsUnique(s.tabs, r.tabs);
      CycleOnce(r, forward, filter, Around(n, p, steps - 1, forward));
      TurnedTwice(s, r, AfterCycle(r, forward, filter), filter, Around(n, p, steps - 1, forward),
                  Around(n, p, steps, forward));
    }
  }

  lemma CycleReaches(s: Session, filter: Tab -> bool, p: nat, steps: nat)
    requires UniqueIds(s.tabs) && Stable(filter) && ActiveAt(s, filter, p)
    requires steps <= |VisibleIndices(s.tabs, filter)|
    ensures var visible := VisibleIndices(s.tabs, filter);
      Cycled(s, true, filter, steps).activeTabId == Some(s.tabs[visible[Around(|visible|, p, steps, true)]].id)
  {
    CycleMoves(s, true, filter, p, steps);
  }

  // Of the first n forward steps exactly the k-th ends on tab id.
  ghost predicate ShownOnlyAfter(s: Session, filter: Tab -> bool, id: TabId, n: nat, k: nat) {
    k < n && forall j: nat | j < n :: Cycled(s, true, filter, j).activeTabId == Some(id) <==> j == k
  }

  // Going forward over n visible tabs shows each of them exactly once and comes back to the start.
  lemma CycleIsAPermutation(s: Session, filter: Tab -> bool, p: nat, q: nat)
    requires UniqueIds(s.tabs) && Stable(filter) && ActiveAt(s, filter, p)
    requires q < |VisibleIndices(s.tabs, filter)|
    ensures var visible := VisibleIndices(s.tabs, filter);
      && Cycled(s, true, filter, |visible|).activeTabId == s.activeTabId
      && exists k: nat :: ShownOnlyAfter(s, filter, s.tabs[visible[q]].id, |visible|, k)
  {
    hide AfterCycle, Cycled, Stable;
    var visible := VisibleIndices(s.tabs, filter);
    var n := |visible|;
    CycleReaches(s, filter, p, n);
    var k := if p <= q then q - p else q + n - p;
    forall j: nat | j < n
      ensures Cycled(s, true, filter, j).activeTabId == Some(s.tabs[visible[q]].id) <==> j == k
    {
      CycleReaches(s, filter, p, j);
      var a := Around(n, p, j, true);
      assert a == q <==> j == k;
      assert a != q ==> visible[a] != visible[q];
    }
    assert ShownOnlyAfter(s, filter, s.tabs[visible[q]].id, n, k);
  }

  // A step back undoes a step forward, and the other way round.
  lemma BackwardUndoesForward(s: Session, forward: bool, filter: Tab -> bool, p: nat)
    requires UniqueIds(s.tabs) && Stable(filter) && ActiveAt(s, filter, p)
    ensures AfterCycle(AfterCycle(s, forward, filter), !forward, filter).activeTabId == s.activeTabId
  {
    hide AfterCycle, Stable, VisibleIndices;
    var n := |VisibleIndices(s.tabs, filter)|;
    var r := AfterCycle(s, forward, filter);
    CycleOnce(s, forward, filter, p);
    SameTabsUnique(s.tabs, r.tabs);
    CycleOnce(r, !forward, filter, Around(n, p, 1, forward));
  }
}
