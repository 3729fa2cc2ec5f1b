/** What is read from any document, also one that the serializer did not print: which documents are accepted, and
    which field takes what from which member (src/core/session/session_persistence.cpp,
    src/core/storage/json_helper.cpp). */
module DocumentReading {
  import opened Common
  import opened Tabs
  import opened Snapshots
  import opened Json
  import opened SessionDocument
  import FocusQueues

  // ---------- Members ----------

  // The first member with this name has this value; later ones of the same name count for nothing.
  predicate IsFirst(members: seq<(string, JsonValue)>, name: string, k: nat) {
    k < |members| && members[k].0 == name && forall j | 0 <= j < k :: members[j].0 != name
  }

  ghost predicate Has(v: JsonValue, name: string, m: JsonValue) {
    v.JObject? && exists k: nat :: IsFirst(v.obj_val, name, k) && v.obj_val[k].1 == m
  }

  lemma {:induction false} FirstIsFound(members: seq<(string, JsonValue)>, name: string, k: nat)
    requires IsFirst(members, name, k)
    ensures FindMember(members, name) == Some(members[k].1)
  {
    if k > 0 {
      assert IsFirst(members[1..], name, k - 1) by {
        assert forall j | 0 <= j < k - 1 :: members[1..][j] == members[j + 1];
      }
      FirstIsFound(members[1..], name, k - 1);
    }
  }

  lemma {:induction false} FoundIsFirst(members: seq<(string, JsonValue)>, name: string) returns (k: nat)
    requires FindMember(members, name).Some?
    ensures IsFirst(members, name, k) && FindMember(members, name) == Some(members[k].1)
  {
    if members[0].0 == name {
      k := 0;
    } else {
      k := FoundIsFirst(members[1..], name);
      k := k + 1;
      assert forall j | 0 < j < k :: members[j] == members[1..][j - 1];
    }
  }

  lemma FindExactly(v: JsonValue, name: string, m: JsonValue)
    ensures Find(v, name) == Some(m) <==> Has(v, name, m)
  {
    hide FindMember;
    if Find(v, name) == Some(m) {
      var k := FoundIsFirst(v.obj_val, name);
    }
    if Has(v, name, m) {
      var k: nat :| IsFirst(v.obj_val, name, k) && v.obj_val[k].1 == m;
      FirstIsFound(v.obj_val, name, k);
    }
  }

  // A text member, or nothing in its place.
  ghost predicate HasText(v: JsonValue, name: string, text: string) {
    Has(v, name, JString(text)) || (text == "" && forall t: string :: !Has(v, name, JString(t)))
  }

  ghost predicate HasOptionalText(v: JsonValue, name: string, text: Option<string>) {
    if text.Some? then Has(v, name, JString(text.value)) else forall t: string :: !Has(v, name, JString(t))
  }

  lemma TextsAreRead(v: JsonValue, name: string)
    ensures HasText(v, name, GetString(v, name)) && HasOptionalText(v, name, GetOptionalString(v, name))
  {
    hide Find, Has;
    forall t: string ensures Find(v, name) == Some(JString(t)) <==> Has(v, name, JString(t)) {
      FindExactly(v, name, JString(t));
    }
  }

  // ---------- Which documents are accepted ----------

  // An object of version 1 that says how the session ended, which tab was shown, and has both arrays.
  ghost predicate IsAccepted(root: JsonValue, version: real, clean: bool, active: Option<string>,
                             tabs: seq<JsonValue>, items: seq<JsonValue>) {
    && Has(root, "schema_version", JNumber(version)) && 1.0 <= version < 2.0
    && Has(root, "clean_shutdown", JBool(clean))
    && Has(root, "active_tab_id", if active.Some? then JString(active.value) else JNull)
    && Has(root, "tabs", JArray(tabs))
    && Has(root, "focus_items", JArray(items))
  }

  // Which record is made of which object.
  ghost predicate IsTabOf(t: SessionTabRecord, v: JsonValue) {
    && HasText(v, "id", t.id) && HasText(v, "url", t.url) && HasText(v, "title", t.title)
    && HasOptionalText(v, "workspace_id", t.workspaceId)
    && t.lifecycle == if Has(v, "lifecycle", JString("Active")) then Active
                      else if Has(v, "lifecycle", JString("Suspended")) then Suspended
                      else if Has(v, "lifecycle", JString("Discarded")) then Discarded
                      else Background
  }

  ghost predicate IsItemOf(item: FocusItemRecord, v: JsonValue) {
    && HasText(v, "id", item.id) && HasText(v, "url", item.url) && HasOptionalText(v, "tab_id", item.tabId)
    && HasOptionalText(v, "workspace_id", item.workspaceId)
    && item.state == if Has(v, "state", JString("Now")) then FocusQueues.Now
                     else if Has(v, "state", JString("Later")) then FocusQueues.Later
                     else if Has(v, "state", JString("Paused")) then FocusQueues.Paused
                     else FocusQueues.Next
  }

  ghost predicate HasId(v: JsonValue) {
    v.JObject? && exists id: string :: id != "" && Has(v, "id", JString(id))
  }

  lemma TabIsRead(v: JsonValue)
    ensures IsTabOf(ReadTab(v), v)
  {
    hide Find, Has, HasText, HasOptionalText;
    TextsAreRead(v, "id");
    TextsAreRead(v, "url");
    TextsAreRead(v, "title");
    TextsAreRead(v, "workspace_id");
    FindExactly(v, "lifecycle", JString("Active"));
    FindExactly(v, "lifecycle", JString("Suspended"));
    FindExactly(v, "lifecycle", JString("Discarded"));
  }

  lemma ItemIsRead(v: JsonValue)
    ensures IsItemOf(ReadItem(v), v)
  {
    hide Find, Has, HasText, HasOptionalText;
    TextsAreRead(v, "id");
    TextsAreRead(v, "url");
    TextsAreRead(v, "tab_id");
    TextsAreRead(v, "workspace_id");
    FindExactly(v, "state", JString("Now"));
    FindExactly(v, "state", JString("Later"));
    FindExactly(v, "state", JString("Paused"));
  }

  lemma IdExactly(v: JsonValue)
    ensures HasId(v) <==> v.JObject? && GetString(v, "id") != ""
  {
    hide Find, Has;
    forall t: string ensures Find(v, "id") == Some(JString(t)) <==> Has(v, "id", JString(t)) {
      FindExactly(v, "id", JString(t));
    }
  }

  // The records are those of the objects with an id, in their order.
  ghost predicate AreTabsOf(records: seq<SessionTabRecord>, vs: seq<JsonValue>) {
    var at := Positions(vs, HasId);
    |records| == |at| && forall j | 0 <= j < |at| :: IsTabOf(records[j], vs[at[j]])
  }

  ghost predicate AreItemsOf(records: seq<FocusItemRecord>, vs: seq<JsonValue>) {
    var at := Positions(vs, HasId);
    |records| == |at| && forall j | 0 <= j < |at| :: IsItemOf(records[j], vs[at[j]])
  }

  lemma {:induction false} TabsAreRead(vs: seq<JsonValue>)
    ensures AreTabsOf(ReadAll(vs, ReadTab, TabRecordId), vs)
  {
    if vs != [] {
      var n := |vs| - 1;
      TabsAreRead(vs[..n]);
      assert ReadTab(vs[n]).id == GetString(vs[n], "id");
      hide HasId, IsTabOf, ReadTab, GetString;
      IdExactly(vs[n]);
      TabIsRead(vs[n]);
      var at, read := Positions(vs[..n], HasId), ReadAll(vs[..n], ReadTab, TabRecordId);
      var allAt, all := Positions(vs, HasId), ReadAll(vs, ReadTab, TabRecordId);
      assert allAt == (if HasId(vs[n]) then at + [n] else at);
      assert all == (if HasId(vs[n]) then read + [ReadTab(vs[n])] else read);
      hide Positions, ReadAll;
      forall j | 0 <= j < |allAt| ensures IsTabOf(all[j], vs[allAt[j]]) {
        if j < |at| {
          assert IsTabOf(read[j], vs[..n][at[j]]);
        }
      }
    }
  }

  lemma {:induction false} ItemsAreRead(vs: seq<JsonValue>)
    ensures AreItemsOf(ReadAll(vs, ReadItem, ItemRecordId), vs)
  {
    if vs != [] {
      var n := |vs| - 1;
      ItemsAreRead(vs[..n]);
      assert ReadItem(vs[n]).id == GetString(vs[n], "id");
      hide HasId, IsItemOf, ReadItem, GetString;
      IdExactly(vs[n]);
      ItemIsRead(vs[n]);
      var at, read := Positions(vs[..n], HasId), ReadAll(vs[..n], ReadItem, ItemRecordId);
      var allAt, all := Positions(vs, HasId), ReadAll(vs, ReadItem, ItemRecordId);
      assert allAt == (if HasId(vs[n]) then at + [n] else at);
      assert all == (if HasId(vs[n]) then read + [ReadItem(vs[n])] else read);
      hide Positions, ReadAll;
      forall j | 0 <= j < |allAt| ensures IsItemOf(all[j], vs[allAt[j]]) {
        if j < |at| {
          assert IsItemOf(read[j], vs[..n][at[j]]);
        }
      }
    }
  }

  // ---------- The reader ----------

  function ActiveTree(active: Option<string>): JsonValue {
    if active.Some? then JString(active.value) else JNull
  }

  lemma AcceptedByLookup(root: JsonValue, version: real, clean: bool, active: Option<string>,
      tabs: seq<JsonValue>, items: seq<JsonValue>)
    ensures IsAccepted(root, version, clean, active, tabs, items) <==>
      && Find(root, "schema_version") == Some(JNumber(version)) && 1.0 <= version < 2.0
      && Find(root, "clean_shutdown") == Some(JBool(clean))
      && Find(root, "active_tab_id") == Some(ActiveTree(active))
      && Find(root, "tabs") == Some(JArray(tabs)) && Find(root, "focus_items") == Some(JArray(items))
  {
    hide Find, Has;
    FindExactly(root, "schema_version", JNumber(version));
    FindExactly(root, "clean_shutdown", JBool(clean));
    FindExactly(root, "active_tab_id", ActiveTree(active));
    FindExactly(root, "tabs", JArray(tabs));
    FindExactly(root, "focus_items", JArray(items));
  }

  // A text is accepted exactly when it parses to such an object.
  lemma AcceptedExactly(stod: Stod, text: string)
    ensures Deserialized(stod, text).Some? <==>
      exists root, version, clean, active, tabs, items ::
        ParseJson(stod, text) == Some(root) && IsAccepted(root, version, clean, active, tabs, items)
  {
    hide ParseJson, Find, IsAccepted, ReadTree;
    var parsed := ParseJson(stod, text);
    if parsed.Some? && IsValidTree(parsed.value) {
      var root := parsed.value;
      var version := Find(root, "schema_version").value.num_val;
      var clean := Find(root, "clean_shutdown").value.bool_val;
      var active := GetOptionalString(root, "active_tab_id");
      var tabs, items := ArrayMembers(root, "tabs"), ArrayMembers(root, "focus_items");
      AcceptedByLookup(root, version, clean, active, tabs, items);
      assert IsAccepted(root, version, clean, active, tabs, items);
    }
    if root, version, clean, active, tabs, items :|
      parsed == Some(root) && IsAccepted(root, version, clean, active, tabs, items)
    {
      AcceptedIsValid(root, version, clean, active, tabs, items);
    }
  }

  lemma AcceptedIsValid(root: JsonValue, version: real, clean: bool, active: Option<string>, tabs: seq<JsonValue>,
      items: seq<JsonValue>)
    requires IsAccepted(root, version, clean, active, tabs, items)
    ensures IsValidTree(root) && GetSizeT(root, "schema_version", 1) == 1
    ensures GetBool(root, "clean_shutdown", false) == clean && GetOptionalString(root, "active_tab_id") == active
    ensures ArrayMembers(root, "tabs") == tabs && ArrayMembers(root, "focus_items") == items
  {
    AcceptedByLookup(root, version, clean, active, tabs, items);
    assert root.JObject?;
    hide Find, Has;
    assert version.Floor == 1;
  }

  // What is read from an accepted one is in its members: a member that is missing or no text counts as an empty text
  // or as none, and an enumerator that is not named as its default.
  lemma ReadIsInMembers(stod: Stod, text: string, root: JsonValue, version: real, clean: bool, active: Option<string>,
      tabs: seq<JsonValue>, items: seq<JsonValue>)
    requires ParseJson(stod, text) == Some(root) && IsAccepted(root, version, clean, active, tabs, items)
    ensures var x := Deserialized(stod, text);
      && x.Some? && x.value.schemaVersion == 1 && x.value.cleanShutdown == clean && x.value.activeTabId == active
      && AreTabsOf(x.value.tabs, tabs) && AreItemsOf(x.value.focusItems, items)
  {
    hide ParseJson, IsValidTree, IsAccepted, AreTabsOf, AreItemsOf, ArrayMembers, ReadAll;
    AcceptedIsValid(root, version, clean, active, tabs, items);
    TabsAreRead(tabs);
    ItemsAreRead(items);
  }
}
