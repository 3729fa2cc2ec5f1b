/** The bridge between the focus queue and the session
    (src/core/session/focus_session_controller.cpp). */
module FocusControllers {
  import opened Common
  import opened Tabs
  import opened SessionSpec
  import opened SessionInvariant
  import opened SessionFaces
  import opened Browser
  import opened FocusQueues

  // ---------- Generated tab ids ----------

  // The n-th id tried for the tab of an item: the plain one, then numbered ones.
  function FocusTabId(itemId: string, n: nat): TabId {
    var base := "focus-tab-" + itemId;
    if n == 0 then base else base + "-" + Decimal(n)
  }

  lemma FocusTabIdsDistinct(itemId: string, m: nat, n: nat)
    requires m < n
    ensures FocusTabId(itemId, m) != FocusTabId(itemId, n)
  {
    var base := "focus-tab-" + itemId;
    if m == 0 {
      assert |FocusTabId(itemId, n)| > |base|;
    } else if FocusTabId(itemId, m) == FocusTabId(itemId, n) {
      CounterNamesDistinct(base + "-", m, n);
    }
  }

  ghost function TriedIds(itemId: string, n: nat): set<TabId> {
    set m | 0 <= m < n :: FocusTabId(itemId, m)
  }

  lemma {:induction false} TriedIdsCount(itemId: string, n: nat)
    ensures |TriedIds(itemId, n)| == n
  {
    if n > 0 {
      hide FocusTabId;
      TriedIdsCount(itemId, n - 1);
      forall m: nat | m < n - 1 ensures FocusTabId(itemId, m) != FocusTabId(itemId, n - 1) {
        FocusTabIdsDistinct(itemId, m, n - 1);
      }
      assert FocusTabId(itemId, n - 1) !in TriedIds(itemId, n - 1);
      assert TriedIds(itemId, n) == TriedIds(itemId, n - 1) + {FocusTabId(itemId, n - 1)};
    }
  }

  ghost function TabIds(tabs: seq<Tab>): set<TabId> {
    set i | 0 <= i < |tabs| :: tabs[i].id
  }

  lemma {:induction false} TabIdsCount(tabs: seq<Tab>)
    ensures |TabIds(tabs)| <= |tabs|
  {
    if tabs != [] {
      var n := |tabs| - 1;
      TabIdsCount(tabs[..n]);
      assert TabIds(tabs) == TabIds(tabs[..n]) + {tabs[n].id};
    } else {
      assert TabIds(tabs) == {};
    }
  }

  lemma SubsetSize(a: set<TabId>, b: set<TabId>)
    requires a <= b
    ensures |a| <= |b|
  {
    assert b == a + (b - a);
  }

  // No more ids can be taken than there are tabs, so the search for a free one ends.
  lemma TakenBound(tabs: seq<Tab>, itemId: string, n: nat)
    requires forall m: nat | m < n :: HasTab(tabs, FocusTabId(itemId, m))
    ensures n <= |tabs|
  {
    TriedIdsCount(itemId, n);
    TabIdsCount(tabs);
    forall id | id in TriedIds(itemId, n) ensures id in TabIds(tabs) {
      var m: nat :| m < n && id == FocusTabId(itemId, m);
      assert tabs[IndexOf(tabs, FocusTabId(itemId, m))].id == id;
    }
    SubsetSize(TriedIds(itemId, n), TabIds(tabs));
  }

  // The first untaken number from n on.
  function FirstFree(tabs: seq<Tab>, itemId: string, n: nat): (k: nat)
    requires forall m: nat | m < n :: HasTab(tabs, FocusTabId(itemId, m))
    ensures k >= n && !HasTab(tabs, FocusTabId(itemId, k))
    ensures forall m: nat | m < k :: HasTab(tabs, FocusTabId(itemId, m))
    decreases |tabs| - n
  {
    if HasTab(tabs, FocusTabId(itemId, n)) then
      TakenBound(tabs, itemId, n + 1);
      FirstFree(tabs, itemId, n + 1)
    else n
  }

  lemma FirstFreeIs(tabs: seq<Tab>, itemId: string, n: nat)
    requires !HasTab(tabs, FocusTabId(itemId, n)) && forall m: nat | m < n :: HasTab(tabs, FocusTabId(itemId, m))
    ensures FirstFree(tabs, itemId, 0) == n
  {
    hide HasTab, FocusTabId;
    var k := FirstFree(tabs, itemId, 0);
    assert k <= n && n <= k;
  }

  // ---------- The calls ----------

  // The tab id an item is shown in when it is activated now.
  function TargetTab(s: Session, item: FocusItem): Option<TabId> {
    if item.tabId.Some? && IsLoaded(s, item.tabId.value) && !s.tabs[IndexOf(s.tabs, item.tabId.value)].isEphemeral
    then item.tabId else None
  }

  predicate EphemeralTabActive(s: Session) {
    s.activeTabId.Some? && HasTab(s.tabs, s.activeTabId.value)
    && s.tabs[IndexOf(s.tabs, s.activeTabId.value)].isEphemeral
  }

  predicate CanActivateItem(s: Session, items: seq<FocusItem>, itemId: string) {
    HasItem(items, itemId) && items[ItemIndex(items, itemId)].url != "" && !EphemeralTabActive(s)
  }

  // An item can be activated exactly when the queue has it, it has a url and the tab that is shown is no private one.
  lemma CanActivateExactly(s: Session, items: seq<FocusItem>, itemId: string)
    requires UniqueIds(s.tabs) && ValidItems(items)
    ensures CanActivateItem(s, items, itemId) <==>
      && (exists i :: 0 <= i < |items| && items[i].id == itemId && items[i].url != "")
      && (forall k | 0 <= k < |s.tabs| && s.activeTabId == Some(s.tabs[k].id) :: !s.tabs[k].isEphemeral)
  {
    var i := ItemIndex(items, itemId);
    assert i < |items| ==> items[i].id == itemId;
    if s.activeTabId.Some? {
      var k := IndexOf(s.tabs, s.activeTabId.value);
      assert k < |s.tabs| ==> s.tabs[k].id == s.activeTabId.value;
    }
  }

  function FocusTab(s: Session, item: FocusItem): Tab {
    NewTab(FocusTabId(item.id, FirstFree(s.tabs, item.id, 0)), item.url, "Focus Tab", item.workspaceId, false)
  }

  function AfterActivateItem(s: Session, items: seq<FocusItem>, itemId: string): Session {
    if !CanActivateItem(s, items, itemId) then s
    else
      var item := items[ItemIndex(items, itemId)];
      var target := TargetTab(s, item);
      if target.Some? then AfterActivate(s, target.value) else AfterOpen(s, FocusTab(s, item), true)
  }

  function ItemsAfterActivateItem(s: Session, items: seq<FocusItem>, itemId: string): seq<FocusItem> {
    if !CanActivateItem(s, items, itemId) then items
    else
      var item := items[ItemIndex(items, itemId)];
      if TargetTab(s, item).Some? then items else AfterSetTabId(items, itemId, Some(FocusTab(s, item).id))
  }

  lemma FocusTabOpens(s: Session, item: FocusItem)
    requires item.url != ""
    ensures Opens(s, FocusTab(s, item))
    ensures FocusTab(s, item).id[0] == 'f'
  {
    var id := FocusTab(s, item).id;
    assert id[0] == 'f';
  }

  // Activating an item shows it: afterwards the active tab is loaded, persistent and the one the item
  // is bound to.  No other item is touched.
  lemma ActivationBindsItem(s: Session, items: seq<FocusItem>, itemId: string)
    requires Valid(s) && CanActivateItem(s, items, itemId)
    ensures var r := AfterActivateItem(s, items, itemId);
      var q := ItemsAfterActivateItem(s, items, itemId); var k := ItemIndex(items, itemId);
      && r.activeTabId.Some? && q[k].tabId == r.activeTabId
      && IsLoaded(r, r.activeTabId.value) && !EphemeralTabActive(r)
      && q == items[k := items[k].(tabId := q[k].tabId)]
  {
    var item := items[ItemIndex(items, itemId)];
    var target := TargetTab(s, item);
    if target.Some? {
      ActivateKeeps(s, target.value);
      ActivateShows(s, target.value);
    } else {
      var t := FocusTab(s, item);
      FocusTabOpens(s, item);
      OpenKeeps(s, t, true);
      OpenShows(s, t);
    }
  }

  // An item whose tab is loaded and persistent shows that tab: no tab is opened and the queue stays as it is.
  lemma BoundTabShown(s: Session, items: seq<FocusItem>, itemId: string, j: nat)
    requires Valid(s) && CanActivateItem(s, items, itemId) && j < |s.tabs|
    requires items[ItemIndex(items, itemId)].tabId == Some(s.tabs[j].id)
    requires s.tabs[j].lifecycle != Discarded && !s.tabs[j].isEphemeral
    ensures var r := AfterActivateItem(s, items, itemId);
      && r.activeTabId == Some(s.tabs[j].id) && Faces(r.tabs) == Faces(s.tabs)
      && ItemsAfterActivateItem(s, items, itemId) == items
  {
    hide AfterActivate, EngineAgrees, WellFormedRecords;
    assert IndexOf(s.tabs, s.tabs[j].id) == j;
    ActivateFaces(s, s.tabs[j].id);
  }

  // Any other item opens a tab of its own url and workspace, last, under an id that starts with its own, and is bound
  // to it.
  lemma UnboundItemOpens(s: Session, items: seq<FocusItem>, itemId: string)
    requires Valid(s) && CanActivateItem(s, items, itemId)
    requires var item := items[ItemIndex(items, itemId)];
      forall j | 0 <= j < |s.tabs| && item.tabId == Some(s.tabs[j].id) ::
        s.tabs[j].lifecycle == Discarded || s.tabs[j].isEphemeral
    ensures var r, k := AfterActivateItem(s, items, itemId), ItemIndex(items, itemId);
      && r.activeTabId.Some? && "focus-tab-" + itemId <= r.activeTabId.value
      && Faces(r.tabs)
         == Faces(s.tabs) + [Face(r.activeTabId.value, items[k].url, "Focus Tab", items[k].workspaceId, false)]
      && ItemsAfterActivateItem(s, items, itemId) == items[k := items[k].(tabId := r.activeTabId)]
  {
    hide AfterOpen, AfterActivate, EngineAgrees, WellFormedRecords, Opens;
    var item := items[ItemIndex(items, itemId)];
    assert TargetTab(s, item).None?;
    var t := FocusTab(s, item);
    FocusTabOpens(s, item);
    OpenFaces(s, t, true);
    FocusTabFace(s, item);
  }

  lemma FocusTabFace(s: Session, item: FocusItem)
    ensures var t := FocusTab(s, item);
      OpenedFace(t) == Face(t.id, item.url, "Focus Tab", item.workspaceId, false) && "focus-tab-" + item.id <= t.id
  {
    assert "Focus Tab"[0] == 'F' && "New Tab"[0] == 'N' && "New tab"[0] == 'N' && "Private Tab"[0] == 'P';
  }

  lemma ActivateShows(s: Session, id: TabId)
    requires HasTab(s.tabs, id) && Valid(AfterActivate(s, id)) && !s.tabs[IndexOf(s.tabs, id)].isEphemeral
    requires Valid(s)
    ensures var r := AfterActivate(s, id);
      r.activeTabId == Some(id) && IsLoaded(r, id) && !EphemeralTabActive(r)
  {
    hide EngineAgrees;
    var r := AfterActivate(s, id);
    var k := IndexOf(s.tabs, id);
    assert r.tabs[k].id == id && !r.tabs[k].isEphemeral;
    assert IndexOf(r.tabs, id) == k;
  }

  lemma OpenShows(s: Session, t: Tab)
    requires Opens(s, t) && !t.isEphemeral && Valid(AfterOpen(s, t, true))
    ensures var r := AfterOpen(s, t, true);
      r.activeTabId == Some(t.id) && IsLoaded(r, t.id) && !EphemeralTabActive(r)
  {
    hide EngineAgrees;
    var r := AfterOpen(s, t, true);
    var k := |s.tabs|;
    assert r.tabs[k].id == t.id;
    assert IndexOf(r.tabs, t.id) == k;
  }

  // The items with every tab id that no tab of the session has cleared.
  function Synchronized(items: seq<FocusItem>, tabs: seq<Tab>): (r: seq<FocusItem>)
    ensures |r| == |items|
    ensures forall i | 0 <= i < |items| ::
              r[i] ==
              if items[i].tabId.Some? && !HasTab(tabs, items[i].tabId.value) then items[i].(tabId := None)
              else items[i]
  {
    seq(|items|, i requires 0 <= i < |items| =>
      if items[i].tabId.Some? && !HasTab(tabs, items[i].tabId.value) then items[i].(tabId := None) else items[i])
  }

  // The queue item for the active tab, if it is a persistent tab with a url; `queued` is the length of
  // the queue, used to name the item when the caller gives no id.
  function ActiveItem(s: Session, queued: nat, itemId: string, state: FocusState): Option<FocusItem> {
    if s.activeTabId.None? || !HasTab(s.tabs, s.activeTabId.value) then None
    else
      var t := s.tabs[IndexOf(s.tabs, s.activeTabId.value)];
      if t.url == "" || t.isEphemeral then None
      else
        var id := if itemId == "" then "focus-" + t.id + "-" + Decimal(queued + 1) else itemId;
        Some(FocusItem(id, t.url, Some(t.id), t.workspaceId, state))
  }

  // The item for the tab that is shown has its url, its id and its workspace, the state asked for, and the id given
  // or one made from the tab's and the length of the queue; there is none for a private tab or one without a url.
  lemma ActiveItemIs(s: Session, queued: nat, itemId: string, state: FocusState, k: nat)
    ensures s.activeTabId.None? ==> ActiveItem(s, queued, itemId, state) == None
    ensures k < |s.tabs| && s.activeTabId == Some(s.tabs[k].id)
            && (forall j | 0 <= j < k :: s.tabs[j].id != s.tabs[k].id)
      ==> var t := s.tabs[k]; var item := ActiveItem(s, queued, itemId, state);
          if t.isEphemeral || t.url == "" then item == None
          else && item.Some? && item.value.url == t.url && item.value.tabId == Some(t.id)
               && item.value.workspaceId == t.workspaceId && item.value.state == state
               && item.value.id == if itemId != "" then itemId else "focus-" + t.id + "-" + Decimal(queued + 1)
  {
    if k < |s.tabs| && s.activeTabId == Some(s.tabs[k].id) && forall j | 0 <= j < k :: s.tabs[j].id != s.tabs[k].id {
      assert IndexOf(s.tabs, s.tabs[k].id) == k;
    }
  }

  lemma RefusedItem(items: seq<FocusItem>, item: FocusItem)
    ensures HasItem(items, item.id) ==> !FocusQueues.Accepts(items, item) && AfterEnqueue(items, item) == items
  {
  }

  class FocusSessionController {

    static method EnqueueActiveTab(session: BrowserSession, queue: FocusQueue, itemId: string, state: FocusState)
      returns (ok: bool)
      requires session.Valid() && queue.Valid()
      modifies queue
      ensures queue.Valid()
      ensures var item := ActiveItem(session.State(), |old(queue.items)|, itemId, state);
        && queue.items == (if item.Some? then AfterEnqueue(old(queue.items), item.value) else old(queue.items))
        && ok == (item.Some? && FocusQueues.Accepts(old(queue.items), item.value))
    {
      hide SessionInvariant.Valid, ValidItems, AfterEnqueue, FocusQueues.Accepts;
      if session.activeTabId.None? {
        return false;
      }
      var k := session.FindMutable(session.activeTabId.value);
      if k == |session.tabs| {
        return false;
      }
      var tab := session.tabs[k];
      if tab.url == "" || tab.isEphemeral {
        return false;
      }
      var id := itemId;
      if id == "" {
        id := "focus-" + session.activeTabId.value + "-" + Decimal(|queue.items| + 1);
      }
      var known := queue.Contains(id);
      if known {
        RefusedItem(queue.items, FocusItem(id, tab.url, session.activeTabId, tab.workspaceId, state));
        return false;
      }
      ok := queue.Enqueue(FocusItem(id, tab.url, session.activeTabId, tab.workspaceId, state));
    }

    static method ActivateFocusItem(session: BrowserSession, queue: FocusQueue, itemId: string) returns (ok: bool)
      requires session.Valid() && queue.Valid()
      modifies session, queue
      ensures session.Valid() && queue.Valid()
      ensures session.State() == AfterActivateItem(old(session.State()), old(queue.items), itemId)
      ensures queue.items == ItemsAfterActivateItem(old(session.State()), old(queue.items), itemId)
      ensures ok == CanActivateItem(old(session.State()), old(queue.items), itemId)
    {
      hide SessionInvariant.Valid, AfterOpen, AfterActivate, Opens, ValidItems;
      var q := queue.FindIndex(itemId);
      if q == |queue.items| || queue.items[q].url == "" {
        return false;
      }
      var item := queue.items[q];
      if session.activeTabId.Some? {
        var a := session.FindMutable(session.activeTabId.value);
        if a < |session.tabs| && session.tabs[a].isEphemeral {
          return false;
        }
      }
      if item.tabId.Some? {
        var k := session.FindMutable(item.tabId.value);
        if k < |session.tabs| && !session.tabs[k].isEphemeral && session.tabs[k].lifecycle != Discarded {
          ok := session.ActivateTab(item.tabId.value);
          return;
        }
      }
      FocusTabOpens(session.State(), item);
      var id := FindFreeId(session, itemId);
      ok := session.OpenTab(NewTab(id, item.url, "Focus Tab", item.workspaceId, false), true);
      var bound := queue.SetTabId(itemId, Some(id));
    }

    static method FindFreeId(session: BrowserSession, itemId: string) returns (id: TabId)
      ensures id == FocusTabId(itemId, FirstFree(session.tabs, itemId, 0))
    {
      id := "focus-tab-" + itemId;
      assert id == FocusTabId(itemId, 0);
      ghost var tried := 0;
      var suffix := 1;
      var k := session.FindMutable(id);
      while k < |session.tabs|
        invariant id == FocusTabId(itemId, tried) && k == IndexOf(session.tabs, id) && suffix == tried + 1
        invariant forall m: nat | m < tried :: HasTab(session.tabs, FocusTabId(itemId, m))
        invariant tried <= |session.tabs|
        decreases |session.tabs| - tried
      {
        TakenBound(session.tabs, itemId, tried + 1);
        id := "focus-tab-" + itemId + "-" + Decimal(suffix);
        suffix := suffix + 1;
        tried := tried + 1;
        k := session.FindMutable(id);
      }
      FirstFreeIs(session.tabs, itemId, tried);
    }

    static method SynchronizeTabClosures(session: BrowserSession, queue: FocusQueue)
      requires queue.Valid()
      modifies queue
      ensures queue.Valid() && queue.items == Synchronized(old(queue.items), session.tabs)
      ensures |queue.items| == |old(queue.items)|
      ensures forall i | 0 <= i < |queue.items| :: var item := old(queue.items)[i];
                queue.items[i] ==
                if forall k | 0 <= k < |session.tabs| :: item.tabId != Some(session.tabs[k].id)
                then item.(tabId := None) else item
    {
      ghost var before := queue.items;
      ghost var after := Synchronized(before, session.tabs);
      var i := 0;
      while i < |queue.items|
        invariant 0 <= i <= |queue.items| == |before|
        invariant queue.Valid()
        invariant forall j | 0 <= j < |before| :: queue.items[j] == if j < i then after[j] else before[j]
      {
        var item := queue.items[i];
        if item.tabId.Some? {
          var k := session.FindMutable(item.tabId.value);
          if k == |session.tabs| {
            assert ItemIndex(queue.items, item.id) == i;
            var found := queue.SetTabId(item.id, None);
          }
        }
        i := i + 1;
      }
    }

    static method IsActiveTabInFocusQueue(session: BrowserSession, queue: FocusQueue) returns (found: bool)
      ensures found <==>
                && session.activeTabId.Some? && !EphemeralTabActive(session.State())
                && exists i | 0 <= i < |queue.items| ::
                     || queue.items[i].tabId == session.activeTabId
                     || var k := IndexOf(session.tabs, session.activeTabId.value);
                        k < |session.tabs| && session.tabs[k].url != "" && queue.items[i].url == session.tabs[k].url
    {
      if session.activeTabId.None? {
        return false;
      }
      var k := session.FindMutable(session.activeTabId.value);
      if k < |session.tabs| && session.tabs[k].isEphemeral {
        return false;
      }
      for i := 0 to |queue.items|
        invariant forall j | 0 <= j < i ::
          queue.items[j].tabId != session.activeTabId &&
          !(k < |session.tabs| && session.tabs[k].url != "" && queue.items[j].url == session.tabs[k].url)
      {
        var item := queue.items[i];
        if item.tabId.Some? && item.tabId.value == session.activeTabId.value {
          return true;
        }
        if k < |session.tabs| && session.tabs[k].url != "" && item.url == session.tabs[k].url {
          return true;
        }
      }
      found := false;
    }
  }
}
