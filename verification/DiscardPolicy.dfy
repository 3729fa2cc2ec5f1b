/** Which background tabs are given up under memory pressure, and what is left
    (src/core/session/tab_discard_policy.cpp). */
module DiscardPolicy {
  import opened Common
  import opened Tabs
  import opened SessionSpec
  import opened SessionInvariant
  import opened SessionRecency
  import opened Browser
  import FocusQueues

  datatype MemoryPressureLevel = NoPressure | Moderate | Critical

  datatype TabDiscardConfig = TabDiscardConfig(
    maxAliveBackgroundTabs: nat,
    protectFocusQueueNow: bool,
    protectPlayingAudio: bool)

  datatype Candidate = Candidate(id: TabId, lruSequence: nat, index: nat)

  // ---------- Selection ----------

  // A loaded tab that is not the active one.
  predicate InBackground(t: Tab, active: Option<TabId>) {
    t.lifecycle != Discarded && active != Some(t.id)
  }

  predicate Mentions(item: FocusQueues.FocusItem, t: Tab) {
    item.state == FocusQueues.Now && (item.tabId == Some(t.id) || (item.url != "" && item.url == t.url))
  }

  predicate IsProtected(t: Tab, config: TabDiscardConfig, queue: Option<seq<FocusQueues.FocusItem>>) {
    || (config.protectPlayingAudio && t.isPlayingAudio)
    || (config.protectFocusQueueNow && queue.Some? && exists i | 0 <= i < |queue.value| :: Mentions(queue.value[i], t))
  }

  predicate IsEligible(t: Tab, active: Option<TabId>, config: TabDiscardConfig,
      queue: Option<seq<FocusQueues.FocusItem>>) {
    InBackground(t, active) && !IsProtected(t, config, queue)
  }

  function CandidateAt(tabs: seq<Tab>, i: nat): Candidate
    requires i < |tabs|
  {
    Candidate(tabs[i].id, tabs[i].lastActivatedSequence, i)
  }

  function Eligible(tabs: seq<Tab>, active: Option<TabId>, config: TabDiscardConfig,
                    queue: Option<seq<FocusQueues.FocusItem>>): (r: seq<Candidate>)
    ensures |r| <= |tabs|
    ensures forall c :: c in r <==>
              c.index < |tabs| && c == CandidateAt(tabs, c.index) && IsEligible(tabs[c.index], active, config, queue)
    ensures forall i, j | 0 <= i < j < |r| :: r[i].index < r[j].index
  {
    if tabs == [] then []
    else
      var n := |tabs| - 1;
      var rest := Eligible(tabs[..n], active, config, queue);
      if IsEligible(tabs[n], active, config, queue) then rest + [CandidateAt(tabs, n)] else rest
  }

  function CountBackground(tabs: seq<Tab>, active: Option<TabId>): (n: nat)
    ensures n <= |tabs|
  {
    if tabs == [] then 0
    else CountBackground(tabs[..|tabs| - 1], active) + (if InBackground(tabs[|tabs| - 1], active) then 1 else 0)
  }

  function CountProtected(tabs: seq<Tab>, active: Option<TabId>, config: TabDiscardConfig,
                          queue: Option<seq<FocusQueues.FocusItem>>): nat
  {
    if tabs == [] then 0
    else
      var t := tabs[|tabs| - 1];
      CountProtected(tabs[..|tabs| - 1], active, config, queue)
      + (if InBackground(t, active) && IsProtected(t, config, queue) then 1 else 0)
  }

  // Least recently activated first, tab order among equals.
  predicate Before(a: Candidate, b: Candidate) {
    if a.lruSequence != b.lruSequence then a.lruSequence < b.lruSequence else a.index < b.index
  }

  ghost predicate Ordered(cs: seq<Candidate>) {
    forall i, j | 0 <= i < j < |cs| :: Before(cs[i], cs[j])
  }

  function Inserted(cs: seq<Candidate>, c: Candidate): (r: seq<Candidate>)
    ensures |r| == |cs| + 1
  {
    if cs == [] || Before(c, cs[0]) then [c] + cs else [cs[0]] + Inserted(cs[1..], c)
  }

  // std::sort with the policy's comparison.
  function Sorted(cs: seq<Candidate>): (r: seq<Candidate>)
    ensures |r| == |cs|
  {
    if cs == [] then [] else Inserted(Sorted(cs[..|cs| - 1]), cs[|cs| - 1])
  }

  lemma {:induction false} InsertedKeeps(cs: seq<Candidate>, c: Candidate)
    ensures multiset(Inserted(cs, c)) == multiset(cs) + multiset{c}
  {
    if cs != [] && !Before(c, cs[0]) {
      InsertedKeeps(cs[1..], c);
      assert cs == [cs[0]] + cs[1..];
    }
  }

  lemma {:induction false} InsertedOrdered(cs: seq<Candidate>, c: Candidate)
    requires Ordered(cs) && forall i | 0 <= i < |cs| :: cs[i].index != c.index
    ensures Ordered(Inserted(cs, c))
  {
    if cs != [] && !Before(c, cs[0]) {
      var rest := Inserted(cs[1..], c);
      InsertedOrdered(cs[1..], c);
      InsertedKeeps(cs[1..], c);
      forall j | 0 <= j < |rest| ensures Before(cs[0], rest[j]) {
        assert rest[j] in multiset(rest);
        assert rest[j] == c || rest[j] in cs[1..];
      }
    }
  }

  // Sorting orders candidates with different tab positions and loses none.
  lemma {:induction false} SortedIsSort(cs: seq<Candidate>)
    requires forall i, j | 0 <= i < j < |cs| :: cs[i].index != cs[j].index
    ensures Ordered(Sorted(cs)) && multiset(Sorted(cs)) == multiset(cs)
  {
    if cs != [] {
      var n := |cs| - 1;
      var rest := Sorted(cs[..n]);
      SortedIsSort(cs[..n]);
      assert cs == cs[..n] + [cs[n]];
      forall i | 0 <= i < |rest| ensures rest[i].index != cs[n].index {
        assert rest[i] in multiset(rest);
        assert rest[i] in cs[..n];
      }
      InsertedKeeps(rest, cs[n]);
      InsertedOrdered(rest, cs[n]);
    }
  }

  // The number of loaded background tabs the policy aims for.
  function Limit(config: TabDiscardConfig, pressure: MemoryPressureLevel): nat {
    match pressure
    case NoPressure => config.maxAliveBackgroundTabs
    case Moderate => config.maxAliveBackgroundTabs / 2
    case Critical => 0
  }

  function DiscardCount(eligible: nat, background: nat, config: TabDiscardConfig,
      pressure: MemoryPressureLevel): (n: nat)
    ensures n <= eligible
  {
    match pressure
    case Critical => eligible
    case _ => if background > Limit(config, pressure) then Min(eligible, background - Limit(config, pressure)) else 0
  }

  function Ranked(s: Session, config: TabDiscardConfig, queue: Option<seq<FocusQueues.FocusItem>>): seq<Candidate> {
    Sorted(Eligible(s.tabs, s.activeTabId, config, queue))
  }

  function Selected(s: Session, config: TabDiscardConfig, queue: Option<seq<FocusQueues.FocusItem>>,
                    pressure: MemoryPressureLevel): seq<TabId>
  {
    var ranked := Ranked(s, config, queue);
    var n := DiscardCount(|ranked|, CountBackground(s.tabs, s.activeTabId), config, pressure);
    seq(n, i requires 0 <= i < n => ranked[i].id)
  }

  // ---------- What the selection means ----------

  lemma {:induction false} BackgroundIsEligibleOrProtected(tabs: seq<Tab>, active: Option<TabId>,
      config: TabDiscardConfig, queue: Option<seq<FocusQueues.FocusItem>>)
    ensures CountBackground(tabs, active)
         == |Eligible(tabs, active, config, queue)| + CountProtected(tabs, active, config, queue)
  {
    if tabs != [] {
      BackgroundIsEligibleOrProtected(tabs[..|tabs| - 1], active, config, queue);
    }
  }

  // The candidates at a lower pressure are the first ones at a higher pressure.
  lemma LowerPressureIsPrefix(s: Session, config: TabDiscardConfig, queue: Option<seq<FocusQueues.FocusItem>>)
    ensures Selected(s, config, queue, NoPressure) <= Selected(s, config, queue, Moderate)
    ensures Selected(s, config, queue, Moderate) <= Selected(s, config, queue, Critical)
  {
  }

  // Every ranked candidate is a different eligible tab of the session and every eligible tab is ranked.
  lemma RankedIsEligible(s: Session, config: TabDiscardConfig, queue: Option<seq<FocusQueues.FocusItem>>)
    ensures var ranked := Ranked(s, config, queue);
      && (forall k | 0 <= k < |ranked| ::
            && ranked[k].index < |s.tabs|
            && ranked[k] == CandidateAt(s.tabs, ranked[k].index)
            && IsEligible(s.tabs[ranked[k].index], s.activeTabId, config, queue))
      && (forall k, l | 0 <= k < l < |ranked| :: ranked[k].index != ranked[l].index)
      && (forall i: nat | i < |s.tabs| && IsEligible(s.tabs[i], s.activeTabId, config, queue) ::
            exists k | 0 <= k < |ranked| :: ranked[k].index == i)
  {
    hide IsEligible, Sorted;
    var eligible := Eligible(s.tabs, s.activeTabId, config, queue);
    var ranked := Ranked(s, config, queue);
    SortedIsSort(eligible);
    forall k | 0 <= k < |ranked| ensures ranked[k] in eligible {
      assert ranked[k] in multiset(ranked);
    }
    forall i: nat | i < |s.tabs| && IsEligible(s.tabs[i], s.activeTabId, config, queue)
      ensures exists k | 0 <= k < |ranked| :: ranked[k].index == i
    {
      var c := CandidateAt(s.tabs, i);
      assert c in eligible;
      assert c in multiset(ranked);
      var k :| 0 <= k < |ranked| && ranked[k] == c;
    }
    forall k, l | 0 <= k < l < |ranked| ensures ranked[k].index != ranked[l].index {
      assert Before(ranked[k], ranked[l]);
    }
  }

  // What is selected first was activated longest ago: in a run whose tabs carry true activation
  // numbers, of two ranked candidates the earlier one was shown earlier, or both were never shown
  // and it comes first in the tab list.
  lemma RankedByRecency(s: Session, config: TabDiscardConfig, queue: Option<seq<FocusQueues.FocusItem>>, k: nat, l: nat)
    requires Tracks(s) && k < l < |Ranked(s, config, queue)|
    ensures var a, b := Ranked(s, config, queue)[k], Ranked(s, config, queue)[l];
      var shownA, shownB := LastShown(s.commands, a.id), LastShown(s.commands, b.id);
      shownA < shownB || (shownA == shownB && a.index < b.index)
  {
    var ranked := Ranked(s, config, queue);
    SortedIsSort(Eligible(s.tabs, s.activeTabId, config, queue));
    RankedIsEligible(s, config, queue);
    var i, j := ranked[k].index, ranked[l].index;
    assert Before(ranked[k], ranked[l]);
    assert InStep(s.tabs[i], s.tabs[j], s.commands) && InStep(s.tabs[j], s.tabs[i], s.commands);
  }

  // ---------- Enforcement ----------

  function AfterDiscards(s: Session, ids: seq<TabId>): Session {
    if ids == [] then s else AfterDiscard(AfterDiscards(s, ids[..|ids| - 1]), ids[|ids| - 1])
  }

  function AfterEnforce(s: Session, config: TabDiscardConfig, queue: Option<seq<FocusQueues.FocusItem>>,
                        pressure: MemoryPressureLevel): Session
  {
    AfterDiscards(s, Selected(s, config, queue, pressure))
  }

  ghost predicate Distinct(ids: seq<TabId>) {
    forall i, j | 0 <= i < j < |ids| :: ids[i] != ids[j]
  }

  // The list of tabs with exactly the named ones discarded.
  ghost predicate DiscardedExactly(tabs: seq<Tab>, r: seq<Tab>, ids: seq<TabId>) {
    && |r| == |tabs|
    && forall i | 0 <= i < |tabs| :: r[i] == if tabs[i].id in ids then tabs[i].(lifecycle := Discarded) else tabs[i]
  }

  // Discarding a list of different unloadable tabs succeeds each time, discards exactly them and
  // takes each out of the count of loaded background tabs.
  lemma {:induction false} DiscardsSucceed(s: Session, ids: seq<TabId>)
    requires Valid(s) && Distinct(ids)
    requires forall k | 0 <= k < |ids| :: CanUnload(s, ids[k])
    ensures var r := AfterDiscards(s, ids);
      && Valid(r) && r.activeTabId == s.activeTabId
      && DiscardedExactly(s.tabs, r.tabs, ids)
      && CountBackground(r.tabs, r.activeTabId) == CountBackground(s.tabs, s.activeTabId) - |ids|
    ensures ids != [] ==> CanUnload(AfterDiscards(s, ids[..|ids| - 1]), ids[|ids| - 1])
  {
    if ids != [] {
      var n := |ids| - 1;
      var m := AfterDiscards(s, ids[..n]);
      DiscardsSucceed(s, ids[..n]);
      DiscardOne(s, m, ids);
    }
  }

  lemma DiscardOne(s: Session, m: Session, ids: seq<TabId>)
    requires ids != [] && Valid(s) && Valid(m) && Distinct(ids) && CanUnload(s, ids[|ids| - 1])
    requires m.activeTabId == s.activeTabId && DiscardedExactly(s.tabs, m.tabs, ids[..|ids| - 1])
    ensures CanUnload(m, ids[|ids| - 1])
    ensures var r := AfterDiscard(m, ids[|ids| - 1]);
      && Valid(r) && r.activeTabId == s.activeTabId
      && DiscardedExactly(s.tabs, r.tabs, ids)
      && CountBackground(r.tabs, r.activeTabId) == CountBackground(m.tabs, m.activeTabId) - 1
  {
    hide EngineAgrees, CountBackground;
    var n := |ids| - 1;
    var id := ids[n];
    var i := IndexOf(s.tabs, id);
    assert id !in ids[..n];
    assert forall j | 0 <= j < |m.tabs| :: m.tabs[j].id == s.tabs[j].id;
    assert IndexOf(m.tabs, id) == i && m.tabs[i] == s.tabs[i];
    DiscardKeeps(m, id);
    var r := AfterDiscard(m, id);
    forall j | 0 <= j < |s.tabs|
      ensures r.tabs[j] == if s.tabs[j].id in ids then s.tabs[j].(lifecycle := Discarded) else s.tabs[j]
    {
      assert s.tabs[j].id in ids <==> s.tabs[j].id in ids[..n] || s.tabs[j].id == id;
    }
    CountAfterDiscard(m.tabs, m.activeTabId, i);
  }

  lemma {:induction false} CountAfterDiscard(tabs: seq<Tab>, active: Option<TabId>, i: nat)
    requires i < |tabs| && InBackground(tabs[i], active)
    ensures CountBackground(tabs[i := tabs[i].(lifecycle := Discarded)], active) == CountBackground(tabs, active) - 1
  {
    var r := tabs[i := tabs[i].(lifecycle := Discarded)];
    var n := |tabs| - 1;
    if i == n {
      assert r[..n] == tabs[..n];
    } else {
      assert r[..n] == tabs[..n][i := tabs[i].(lifecycle := Discarded)];
      CountAfterDiscard(tabs[..n], active, i);
    }
  }

  lemma SelectedUnloadable(s: Session, config: TabDiscardConfig, queue: Option<seq<FocusQueues.FocusItem>>,
                           pressure: MemoryPressureLevel)
    requires WellFormed(s)
    ensures var ids := Selected(s, config, queue, pressure);
      && Distinct(ids)
      && (forall k | 0 <= k < |ids| :: CanUnload(s, ids[k])
            && IsEligible(s.tabs[IndexOf(s.tabs, ids[k])], s.activeTabId, config, queue))
  {
    hide Ranked;
    RankedIsEligible(s, config, queue);
    var ranked := Ranked(s, config, queue);
    var ids := Selected(s, config, queue, pressure);
    forall k | 0 <= k < |ids|
      ensures CanUnload(s, ids[k]) && IsEligible(s.tabs[IndexOf(s.tabs, ids[k])], s.activeTabId, config, queue)
    {
      assert s.tabs[ranked[k].index].id == ids[k];
      assert IndexOf(s.tabs, ids[k]) == ranked[k].index;
    }
    forall k, l | 0 <= k < l < |ids| ensures ids[k] != ids[l] {
      assert s.tabs[ranked[k].index].id == ids[k] && s.tabs[ranked[l].index].id == ids[l];
    }
  }

  lemma DiscardStep(s: Session, config: TabDiscardConfig, queue: Option<seq<FocusQueues.FocusItem>>,
      pressure: MemoryPressureLevel, i: nat)
    requires Valid(s) && i < |Selected(s, config, queue, pressure)|
    ensures var ids := Selected(s, config, queue, pressure); var m := AfterDiscards(s, ids[..i]);
      CanUnload(m, ids[i]) && AfterDiscards(s, ids[..i + 1]) == AfterDiscard(m, ids[i])
  {
    hide Valid, Selected, DiscardedExactly, IsEligible, CountBackground, CanUnload, AfterDiscard;
    var ids := Selected(s, config, queue, pressure);
    ValidIsWellFormed(s);
    SelectedUnloadable(s, config, queue, pressure);
    DiscardsSucceed(s, ids[..i + 1]);
    assert ids[..i + 1][..i] == ids[..i];
  }

  // Enforcing the policy discards exactly the selected tabs, every one of them eligible, and leaves
  // max(protected, min(loaded, limit)) background tabs loaded.
  lemma EnforceReachesLimit(s: Session, config: TabDiscardConfig, queue: Option<seq<FocusQueues.FocusItem>>,
                            pressure: MemoryPressureLevel)
    requires Valid(s)
    ensures var ids := Selected(s, config, queue, pressure);
      var r := AfterEnforce(s, config, queue, pressure);
      && Valid(r) && DiscardedExactly(s.tabs, r.tabs, ids)
      && (forall i | 0 <= i < |s.tabs| && s.tabs[i].id in ids :: IsEligible(s.tabs[i], s.activeTabId, config, queue))
      && CountBackground(r.tabs, r.activeTabId)
         == Max(CountProtected(s.tabs, s.activeTabId, config, queue),
                Min(CountBackground(s.tabs, s.activeTabId), Limit(config, pressure)))
  {
    hide Valid, Selected, AfterDiscards, InBackground;
    var ids := Selected(s, config, queue, pressure);
    assert WellFormed(s) by { ValidIsWellFormed(s); }
    SelectedUnloadable(s, config, queue, pressure);
    DiscardsSucceed(s, ids);
    BackgroundIsEligibleOrProtected(s.tabs, s.activeTabId, config, queue);
    SelectedSize(s, config, queue, pressure);
    forall i | 0 <= i < |s.tabs| && s.tabs[i].id in ids ensures IsEligible(s.tabs[i], s.activeTabId, config, queue) {
      var k :| 0 <= k < |ids| && ids[k] == s.tabs[i].id;
      assert IndexOf(s.tabs, ids[k]) == i;
    }
  }

  lemma SelectedSize(s: Session, config: TabDiscardConfig, queue: Option<seq<FocusQueues.FocusItem>>,
                     pressure: MemoryPressureLevel)
    ensures |Selected(s, config, queue, pressure)|
         == DiscardCount(|Eligible(s.tabs, s.activeTabId, config, queue)|, CountBackground(s.tabs, s.activeTabId),
                         config, pressure)
  {
  }

  lemma ValidIsWellFormed(s: Session)
    requires Valid(s)
    ensures WellFormed(s)
  {
  }

  // A tab that enforcing must leave alone: shown or given up already, playing under that protection, or named by a
  // Now item, by its id or by its url, under that one.
  predicate IsSpared(t: Tab, active: Option<TabId>, config: TabDiscardConfig,
      queue: Option<seq<FocusQueues.FocusItem>>) {
    || active == Some(t.id) || t.lifecycle == Discarded
    || (config.protectPlayingAudio && t.isPlayingAudio)
    || (config.protectFocusQueueNow && queue.Some? && exists i | 0 <= i < |queue.value| ::
          && queue.value[i].state == FocusQueues.Now
          && (queue.value[i].tabId == Some(t.id) || (t.url != "" && queue.value[i].url == t.url)))
  }

  lemma EligibleUnlessSpared(t: Tab, active: Option<TabId>, config: TabDiscardConfig,
      queue: Option<seq<FocusQueues.FocusItem>>)
    ensures IsEligible(t, active, config, queue) <==> !IsSpared(t, active, config, queue)
  {
    if queue.Some? {
      assert forall i | 0 <= i < |queue.value| ::
        Mentions(queue.value[i], t) <==>
          && queue.value[i].state == FocusQueues.Now
          && (queue.value[i].tabId == Some(t.id) || (t.url != "" && queue.value[i].url == t.url));
    }
  }

  // Enforcing leaves every such tab as it was, and under critical pressure discards every other one.
  lemma SparedSurvive(s: Session, config: TabDiscardConfig, queue: Option<seq<FocusQueues.FocusItem>>,
      pressure: MemoryPressureLevel, i: nat)
    requires Valid(s) && i < |s.tabs|
    ensures var r := AfterEnforce(s, config, queue, pressure);
      && |r.tabs| == |s.tabs|
      && (IsSpared(s.tabs[i], s.activeTabId, config, queue) ==> r.tabs[i] == s.tabs[i])
      && (pressure == Critical && !IsSpared(s.tabs[i], s.activeTabId, config, queue) ==>
            r.tabs[i] == s.tabs[i].(lifecycle := Discarded))
  {
    hide Valid, AfterEnforce, IsEligible, IsSpared, CountBackground, CountProtected, Ranked, Selected;
    EligibleUnlessSpared(s.tabs[i], s.activeTabId, config, queue);
    EnforceReachesLimit(s, config, queue, pressure);
    if pressure == Critical && !IsSpared(s.tabs[i], s.activeTabId, config, queue) {
      CriticalSelectsAll(s, config, queue, i);
    }
  }

  lemma CriticalSelectsAll(s: Session, config: TabDiscardConfig, queue: Option<seq<FocusQueues.FocusItem>>, i: nat)
    requires i < |s.tabs| && IsEligible(s.tabs[i], s.activeTabId, config, queue)
    ensures s.tabs[i].id in Selected(s, config, queue, Critical)
  {
    hide IsEligible, Ranked;
    RankedIsEligible(s, config, queue);
    var ranked, ids := Ranked(s, config, queue), Selected(s, config, queue, Critical);
    var k :| 0 <= k < |ranked| && ranked[k].index == i;
    assert |ids| == |ranked| && ids[k] == ranked[k].id;
  }

  predicate LoadedInBackground(t: Tab, active: Option<TabId>) {
    t.lifecycle != Discarded && active != Some(t.id)
  }

  lemma {:induction false} CountsArePositions(tabs: seq<Tab>, active: Option<TabId>, config: TabDiscardConfig,
      queue: Option<seq<FocusQueues.FocusItem>>)
    ensures CountBackground(tabs, active) == |Positions(tabs, t => LoadedInBackground(t, active))|
    ensures CountProtected(tabs, active, config, queue)
         == |Positions(tabs, t => LoadedInBackground(t, active) && IsSpared(t, active, config, queue))|
  {
    if tabs != [] {
      hide IsEligible, IsSpared, IsProtected;
      var n := |tabs| - 1;
      CountsArePositions(tabs[..n], active, config, queue);
      ProtectedIsSpared(tabs[n], active, config, queue);
    }
  }

  lemma ProtectedIsSpared(t: Tab, active: Option<TabId>, config: TabDiscardConfig,
      queue: Option<seq<FocusQueues.FocusItem>>)
    ensures InBackground(t, active) <==> LoadedInBackground(t, active)
    ensures InBackground(t, active) ==> (IsProtected(t, config, queue) <==> IsSpared(t, active, config, queue))
  {
    EligibleUnlessSpared(t, active, config, queue);
  }

  // How many loaded background tabs enforcing leaves: as many as the configured number, half of it under moderate
  // pressure and none under critical pressure, but no more than there were and no fewer than the spared ones.
  lemma EnforceLeaves(s: Session, config: TabDiscardConfig, queue: Option<seq<FocusQueues.FocusItem>>,
      pressure: MemoryPressureLevel)
    requires Valid(s)
    ensures var r := AfterEnforce(s, config, queue, pressure); var active := s.activeTabId;
      var aim := if pressure == NoPressure then config.maxAliveBackgroundTabs
                 else if pressure == Moderate then config.maxAliveBackgroundTabs / 2 else 0;
      var before := |Positions(s.tabs, t => LoadedInBackground(t, active))|;
      var spared := |Positions(s.tabs, t => LoadedInBackground(t, active) && IsSpared(t, active, config, queue))|;
      && r.activeTabId == active
      && |Positions(r.tabs, t => LoadedInBackground(t, active))| == Max(spared, Min(before, aim))
  {
    hide Valid, Selected, IsSpared, CountBackground, CountProtected, Positions, LoadedInBackground, IsEligible;
    EnforceReachesLimit(s, config, queue, pressure);
    EnforceKeepsShown(s, config, queue, pressure);
    CountsArePositions(s.tabs, s.activeTabId, config, queue);
    CountsArePositions(AfterEnforce(s, config, queue, pressure).tabs, s.activeTabId, config, queue);
  }

  lemma EnforceKeepsShown(s: Session, config: TabDiscardConfig, queue: Option<seq<FocusQueues.FocusItem>>,
      pressure: MemoryPressureLevel)
    requires Valid(s)
    ensures AfterEnforce(s, config, queue, pressure).activeTabId == s.activeTabId
  {
    hide Valid, Selected, AfterDiscards, InBackground, IsEligible;
    ValidIsWellFormed(s);
    SelectedUnloadable(s, config, queue, pressure);
    DiscardsSucceed(s, Selected(s, config, queue, pressure));
  }

  // ---------- The policy object ----------

  class TabDiscardPolicy {
    var config: TabDiscardConfig

    constructor (config: TabDiscardConfig)
      ensures this.config == config
    {
      this.config := config;
    }

    ghost function ItemsOf(queue: FocusQueues.FocusQueue?): Option<seq<FocusQueues.FocusItem>>
      reads queue
    {
      if queue == null then None else Some(queue.items)
    }

    method IsNow(queue: FocusQueues.FocusQueue, t: Tab) returns (now: bool)
      ensures now <==> exists i | 0 <= i < |queue.items| :: Mentions(queue.items[i], t)
    {
      for i := 0 to |queue.items|
        invariant forall j | 0 <= j < i :: !Mentions(queue.items[j], t)
      {
        var item := queue.items[i];
        if item.state == FocusQueues.Now {
          if item.tabId.Some? && item.tabId.value == t.id {
            return true;
          }
          if item.url != "" && item.url == t.url {
            return true;
          }
        }
      }
      now := false;
    }

    // The first loop of the selection: the eligible tabs, and how many are loaded in the background.
    method CollectEligible(tabs: seq<Tab>, active: Option<TabId>, queue: FocusQueues.FocusQueue?)
      returns (eligible: seq<Candidate>, background: nat)
      ensures eligible == Eligible(tabs, active, config, ItemsOf(queue))
      ensures background == CountBackground(tabs, active)
    {
      hide Mentions;
      ghost var items := ItemsOf(queue);
      eligible, background := [], 0;
      for i := 0 to |tabs|
        invariant eligible == Eligible(tabs[..i], active, config, items)
        invariant background == CountBackground(tabs[..i], active)
      {
        assert tabs[..i + 1][..i] == tabs[..i];
        var tab := tabs[i];
        if tab.lifecycle == Discarded || active == Some(tab.id) {
          continue;
        }
        background := background + 1;
        if config.protectPlayingAudio && tab.isPlayingAudio {
          continue;
        }
        if config.protectFocusQueueNow && queue != null {
          var now := IsNow(queue, tab);
          if now {
            continue;
          }
        }
        eligible := eligible + [Candidate(tab.id, tab.lastActivatedSequence, i)];
      }
      assert tabs[..|tabs|] == tabs;
    }

    method SelectDiscardCandidates(session: BrowserSession, queue: FocusQueues.FocusQueue?,
        pressure: MemoryPressureLevel)
      returns (selected: seq<TabId>)
      ensures selected == Selected(session.State(), config, ItemsOf(queue), pressure)
    {
      hide Eligible, CountBackground;
      var eligible, background := CollectEligible(session.tabs, session.activeTabId, queue);
      if eligible == [] {
        return [];
      }
      var ranked := Sorted(eligible);
      var count := 0;
      match pressure {
        case Critical =>
          count := |ranked|;
        case Moderate =>
          var target := config.maxAliveBackgroundTabs / 2;
          if background > target {
            count := Min(|ranked|, background - target);
          }
        case NoPressure =>
          if background > config.maxAliveBackgroundTabs {
            count := Min(|ranked|, background - config.maxAliveBackgroundTabs);
          }
      }
      selected := [];
      for i := 0 to count
        invariant |selected| == i
        invariant forall j | 0 <= j < i :: selected[j] == ranked[j].id
      {
        selected := selected + [ranked[i].id];
      }
    }

    method Enforce(session: BrowserSession, queue: FocusQueues.FocusQueue?, pressure: MemoryPressureLevel)
      returns (discarded: nat)
      requires session.Valid()
      modifies session
      ensures session.Valid()
      ensures session.State() == AfterEnforce(old(session.State()), config, ItemsOf(queue), pressure)
      ensures discarded == |Selected(old(session.State()), config, ItemsOf(queue), pressure)|
    {
      ghost var before := session.State();
      assert AfterDiscards(before, []) == before;
      hide SessionInvariant.Valid, AfterDiscards, AfterDiscard, CanUnload, Selected, WellFormedTabs, WellFormedRecords;
      var candidates := SelectDiscardCandidates(session, queue, pressure);
      discarded := 0;
      assert candidates[..0] == [];
      for i := 0 to |candidates|
        invariant session.Valid()
        invariant session.State() == AfterDiscards(before, candidates[..i])
        invariant discarded == i
      {
        DiscardStep(before, config, ItemsOf(queue), pressure, i);
        var ok := session.DiscardTab(candidates[i]);
        if ok {
          discarded := discarded + 1;
        }
      }
      assert candidates[..|candidates|] == candidates;
    }
  }
}
