/** The focus queue: an ordered list of items with unique ids, edited in place
    (src/core/focus_queue/focus_queue.cpp). */
module FocusQueues {
  import opened Common
  import opened Tabs

  datatype FocusState = Now | Next | Later | Paused

  datatype FocusItem = FocusItem(
    id: string,
    url: string,
    tabId: Option<TabId>,
    workspaceId: Option<WorkspaceId>,
    state: FocusState)

  // First position of the item with this id, or |items| when there is none.
  function ItemIndex(items: seq<FocusItem>, id: string): (k: nat)
    ensures k <= |items|
    ensures k < |items| ==> items[k].id == id
    ensures forall j | 0 <= j < k :: items[j].id != id
  {
    if items == [] then 0
    else if items[0].id == id then 0
    else 1 + ItemIndex(items[1..], id)
  }

  predicate HasItem(items: seq<FocusItem>, id: string) {
    ItemIndex(items, id) < |items|
  }

  ghost predicate ValidItems(items: seq<FocusItem>) {
    && (forall i, j | 0 <= i < j < |items| :: items[i].id != items[j].id)
    && (forall i | 0 <= i < |items| :: items[i].id != "" && items[i].url != "")
  }

  predicate Accepts(items: seq<FocusItem>, item: FocusItem) {
    item.id != "" && item.url != "" && !HasItem(items, item.id)
  }

  function AfterEnqueue(items: seq<FocusItem>, item: FocusItem): seq<FocusItem> {
    if Accepts(items, item) then items + [item] else items
  }

  function AfterRemove(items: seq<FocusItem>, id: string): seq<FocusItem> {
    var k := ItemIndex(items, id);
    if k == |items| then items else items[..k] + items[k + 1..]
  }

  function AfterSetTabId(items: seq<FocusItem>, id: string, tabId: Option<TabId>): (r: seq<FocusItem>)
    ensures |r| == |items|
  {
    var k := ItemIndex(items, id);
    if k == |items| then items else items[k := items[k].(tabId := tabId)]
  }

  function AfterSetState(items: seq<FocusItem>, id: string, state: FocusState): (r: seq<FocusItem>)
    ensures |r| == |items|
  {
    var k := ItemIndex(items, id);
    if k == |items| then items else items[k := items[k].(state := state)]
  }

  // The list with element `from` taken out and put back at place `to`.
  function Moved(items: seq<FocusItem>, from: nat, to: nat): (r: seq<FocusItem>)
    requires from < |items| && to < |items|
    ensures |r| == |items|
  {
    var rest := items[..from] + items[from + 1..];
    rest[..to] + [items[from]] + rest[to..]
  }

  function AfterMove(items: seq<FocusItem>, id: string, to: nat): (r: seq<FocusItem>)
    ensures |r| == |items|
  {
    var k := ItemIndex(items, id);
    if to >= |items| || k == |items| then items else Moved(items, k, to)
  }

  function Demoted(item: FocusItem): FocusItem {
    if item.state == Now then item.(state := Next) else item
  }

  function AllDemoted(items: seq<FocusItem>): (r: seq<FocusItem>)
    ensures |r| == |items|
    ensures forall i | 0 <= i < |items| :: r[i] == Demoted(items[i])
  {
    seq(|items|, i requires 0 <= i < |items| => Demoted(items[i]))
  }

  function AfterPromote(items: seq<FocusItem>, id: string): (r: seq<FocusItem>)
    ensures |r| == |items|
  {
    var k := ItemIndex(items, id);
    if k == |items| then items
    else Moved(AllDemoted(items)[k := items[k].(state := Now)], k, 0)
  }

  // Where each element of the old list stands after a move: the moved one at `to`, the others in
  // their old order.  No element is lost or doubled.
  function MovedFrom(n: nat, from: nat, to: nat, j: nat): (i: nat)
    requires from < n && to < n && j < n
    ensures i < n
  {
    if j == to then from
    else
      var rank := if j < to then j else j - 1;
      if rank < from then rank else rank + 1
  }

  lemma MovedAt(items: seq<FocusItem>, from: nat, to: nat, j: nat)
    requires from < |items| && to < |items| && j < |items|
    ensures Moved(items, from, to)[j] == items[MovedFrom(|items|, from, to, j)]
  {
  }

  lemma MoveKeepsOrder(n: nat, from: nat, to: nat, j: nat, k: nat)
    requires from < n && to < n && j < k < n && j != to && k != to
    ensures MovedFrom(n, from, to, j) < MovedFrom(n, from, to, k)
    ensures MovedFrom(n, from, to, j) != from && MovedFrom(n, from, to, k) != from
  {
  }

  lemma MovePermutes(items: seq<FocusItem>, from: nat, to: nat)
    requires from < |items| && to < |items|
    ensures multiset(Moved(items, from, to)) == multiset(items)
  {
    var rest := items[..from] + items[from + 1..];
    assert items == items[..from] + [items[from]] + items[from + 1..];
    assert rest == rest[..to] + rest[to..];
    calc {
      multiset(Moved(items, from, to));
      multiset(rest[..to]) + multiset([items[from]]) + multiset(rest[to..]);
      multiset(rest) + multiset([items[from]]);
      multiset(items);
    }
  }

  lemma MovedValid(items: seq<FocusItem>, from: nat, to: nat)
    requires ValidItems(items) && from < |items| && to < |items|
    ensures ValidItems(Moved(items, from, to))
  {
    var r := Moved(items, from, to);
    forall j | 0 <= j < |r| ensures r[j] == items[MovedFrom(|items|, from, to, j)] {
      MovedAt(items, from, to, j);
    }
  }

  // Promoting an item makes it the one and only Now item, at the front; every other item keeps its
  // place in line, its id, url, tab and workspace, and stops being Now.
  lemma PromoteLeavesOneNow(items: seq<FocusItem>, id: string)
    requires ValidItems(items) && HasItem(items, id)
    ensures var r := AfterPromote(items, id); var k := ItemIndex(items, id);
      && ValidItems(r)
      && r[0] == items[k].(state := Now)
      && (forall j | 0 < j < |r| ::
            var was := items[if j <= k then j - 1 else j];
            r[j] == was.(state := if was.state == Now then Next else was.state))
      && (forall j | 0 <= j < |r| :: r[j].state == Now <==> j == 0)
  {
    hide Moved;
    var k := ItemIndex(items, id);
    var marked := AllDemoted(items)[k := items[k].(state := Now)];
    MarkedValid(items, k);
    MovedValid(marked, k, 0);
    forall j | 0 <= j < |items|
      ensures AfterPromote(items, id)[j] == if j == 0 then marked[k] else marked[if j <= k then j - 1 else j]
    {
      MovedAt(marked, k, 0, j);
    }
  }

  lemma MarkedValid(items: seq<FocusItem>, k: nat)
    requires ValidItems(items) && k < |items|
    ensures var marked := AllDemoted(items)[k := items[k].(state := Now)];
      ValidItems(marked) && ItemIndex(marked, items[k].id) == k
  {
    var marked := AllDemoted(items)[k := items[k].(state := Now)];
    assert forall j | 0 <= j < |marked| :: marked[j].id == items[j].id && marked[j].url == items[j].url;
    var m := ItemIndex(marked, items[k].id);
    assert marked[k].id == items[k].id;
  }

  // An item is queued last exactly when it has an id and a url and no item has the id.
  lemma EnqueueDoes(items: seq<FocusItem>, item: FocusItem)
    ensures AfterEnqueue(items, item) ==
      if item.id != "" && item.url != "" && forall i | 0 <= i < |items| :: items[i].id != item.id
      then items + [item] else items
  {
    var k := ItemIndex(items, item.id);
  }

  // A removal takes out the item with the id, wherever it is, and keeps all others as they are and in order.
  lemma RemoveDoes(items: seq<FocusItem>, id: string, k: nat)
    requires ValidItems(items)
    ensures var r := AfterRemove(items, id);
      && (forall j | 0 <= j < |r| :: r[j].id != id)
      && ((forall i | 0 <= i < |items| :: items[i].id != id) ==> r == items)
      && (k < |items| && items[k].id == id ==> r == items[..k] + items[k + 1..])
  {
    var i := ItemIndex(items, id);
    var r := AfterRemove(items, id);
    if i < |items| {
      assert forall j | 0 <= j < |r| :: r[j] == items[if j < i then j else j + 1];
      assert k < |items| && items[k].id == id ==> k == i;
    }
  }

  // Setting the tab id or the state changes that field of the item with the id and nothing else.
  lemma SetDoes(items: seq<FocusItem>, id: string, tabId: Option<TabId>, state: FocusState)
    requires ValidItems(items)
    ensures forall i | 0 <= i < |items| ::
      && AfterSetTabId(items, id, tabId)[i] == (if items[i].id == id then items[i].(tabId := tabId) else items[i])
      && AfterSetState(items, id, state)[i] == (if items[i].id == id then items[i].(state := state) else items[i])
  {
    var k := ItemIndex(items, id);
    assert forall i | 0 <= i < |items| :: items[i].id == id <==> i == k;
  }

  class FocusQueue {
    var items: seq<FocusItem>

    ghost predicate Valid()
      reads this
    {
      ValidItems(items)
    }

    constructor ()
      ensures Valid() && items == []
    {
      items := [];
    }

    method FindIndex(id: string) returns (k: nat)
      ensures k == ItemIndex(items, id)
    {
      k := 0;
      while k < |items| && items[k].id != id
        invariant k <= |items|
        invariant forall j | 0 <= j < k :: items[j].id != id
      {
        k := k + 1;
      }
    }

    method Contains(id: string) returns (found: bool)
      ensures found == HasItem(items, id)
    {
      var k := FindIndex(id);
      found := k < |items|;
    }

    method Enqueue(item: FocusItem) returns (ok: bool)
      requires Valid()
      modifies this
      ensures Valid() && items == AfterEnqueue(old(items), item)
      ensures ok == Accepts(old(items), item)
    {
      if item.id == "" || item.url == "" {
        return false;
      }
      var known := Contains(item.id);
      if known {
        return false;
      }
      items := items + [item];
      ok := true;
    }

    method Remove(id: string) returns (ok: bool)
      requires Valid()
      modifies this
      ensures Valid() && items == AfterRemove(old(items), id)
      ensures ok == HasItem(old(items), id)
    {
      var k := FindIndex(id);
      if k == |items| {
        return false;
      }
      items := items[..k] + items[k + 1..];
      assert forall j | 0 <= j < |items| :: items[j] == old(items)[if j < k then j else j + 1];
      ok := true;
    }

    method Move(id: string, newIndex: nat) returns (ok: bool)
      requires Valid()
      modifies this
      ensures Valid() && items == AfterMove(old(items), id, newIndex)
      ensures ok == (newIndex < |old(items)| && HasItem(old(items), id))
    {
      if newIndex >= |items| {
        return false;
      }
      var oldIndex := FindIndex(id);
      if oldIndex == |items| {
        return false;
      }
      MovedValid(items, oldIndex, newIndex);
      if oldIndex == newIndex {
        assert Moved(items, oldIndex, newIndex) == items;
        return true;
      }
      var item := items[oldIndex];
      items := items[..oldIndex] + items[oldIndex + 1..];
      items := items[..newIndex] + [item] + items[newIndex..];
      ok := true;
    }

    method SetState(id: string, state: FocusState) returns (ok: bool)
      requires Valid()
      modifies this
      ensures Valid() && items == AfterSetState(old(items), id, state)
      ensures ok == HasItem(old(items), id)
    {
      var k := FindIndex(id);
      if k == |items| {
        return false;
      }
      items := items[k := items[k].(state := state)];
      ok := true;
    }

    method SetTabId(id: string, tabId: Option<TabId>) returns (ok: bool)
      requires Valid()
      modifies this
      ensures Valid() && items == AfterSetTabId(old(items), id, tabId)
      ensures ok == HasItem(old(items), id)
    {
      var k := FindIndex(id);
      if k == |items| {
        return false;
      }
      items := items[k := items[k].(tabId := tabId)];
      ok := true;
    }

    // The loop of PromoteToNow: no item stays Now.
    method DemoteNow()
      modifies this
      ensures items == AllDemoted(old(items))
    {
      var k := 0;
      while k < |items|
        invariant 0 <= k <= |items| == |old(items)|
        invariant forall j | 0 <= j < |items| :: items[j] == if j < k then Demoted(old(items)[j]) else old(items)[j]
      {
        if items[k].state == Now {
          items := items[k := items[k].(state := Next)];
        }
        k := k + 1;
      }
    }

    method PromoteToNow(id: string) returns (ok: bool)
      requires Valid()
      modifies this
      ensures Valid() && items == AfterPromote(old(items), id)
      ensures ok == HasItem(old(items), id)
    {
      hide Moved, ValidItems, ItemIndex;
      var selected := FindIndex(id);
      if selected == |items| {
        return false;
      }
      MarkedValid(items, selected);
      ghost var marked := AllDemoted(items)[selected := items[selected].(state := Now)];
      DemoteNow();
      items := items[selected := items[selected].(state := Now)];
      assert items == marked;
      ok := Move(id, 0);
    }
  }
}
