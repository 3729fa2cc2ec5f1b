/** Serialize and Deserialize as the source runs them: one buffer that grows, and loops over
    the parsed arrays (src/core/session/session_persistence.cpp). */
module SessionSerializer {
  import opened Common
  import opened Snapshots
  import opened Json
  import opened JsonParsers
  import opened SessionDocument
  import FocusQueues

  // Appends a member; whatever is appended next stands where the member's tail stands.
  method AppendMember(out0: string, indent: string, name: string, value: string) returns (out: string)
    ensures forall k :: out + k == out0 + Member(indent, name, value, k)
  {
    out := out0 + (indent + "\"" + name + "\": ") + value;
    forall k ensures out + k == out0 + Member(indent, name, value, k) {
      calc {
        out + k;
        out0 + ((indent + "\"" + name + "\": ") + (value + k));
        out0 + Member(indent, name, value, k);
      }
    }
  }

  method AppendQuoted(out0: string, indent: string, name: string, value: string) returns (out: string)
    ensures forall k :: out + k == out0 + Member(indent, name, Quote(value), k)
  {
    var quoted := EscapeJsonString(value, "");
    assert quoted == Quote(value);
    out := AppendMember(out0, indent, name, quoted);
  }

  method AppendOptional(out0: string, indent: string, name: string, value: Option<string>) returns (out: string)
    ensures forall k :: out + k == out0 + Member(indent, name, OptionalText(value), k)
  {
    if value.Some? {
      out := AppendQuoted(out0, indent, name, value.value);
    } else {
      out := AppendMember(out0, indent, name, "null");
    }
  }

  lemma Regroup(a: string, b: string, c: string)
    ensures (a + b) + c == a + (b + c)
  {
  }

  method AppendTab(out0: string, t: SessionTabRecord) returns (out: string)
    ensures forall k :: out + k == out0 + TabText(t, k)
  {
    hide Member, Quote, OptionalText, LifecycleName;
    var o0 := out0 + "    {\n";
    var o1 := AppendQuoted(o0, FIELD, "id", t.id);
    var o2 := AppendQuoted(o1 + COMMA, FIELD, "url", t.url);
    var o3 := AppendQuoted(o2 + COMMA, FIELD, "title", t.title);
    var o4 := AppendOptional(o3 + COMMA, FIELD, "workspace_id", t.workspaceId);
    var o5 := AppendQuoted(o4 + COMMA, FIELD, "lifecycle", LifecycleName(t.lifecycle));
    out := o5 + "\n    }";
    forall k ensures out + k == out0 + TabText(t, k) {
      var m5 := Member(FIELD, "lifecycle", Quote(LifecycleName(t.lifecycle)), "\n    }" + k);
      var m4 := Member(FIELD, "workspace_id", OptionalText(t.workspaceId), COMMA + m5);
      var m3 := Member(FIELD, "title", Quote(t.title), COMMA + m4);
      var m2 := Member(FIELD, "url", Quote(t.url), COMMA + m3);
      Regroup(o5, "\n    }", k);
      Regroup(o4, COMMA, m5);
      Regroup(o3, COMMA, m4);
      Regroup(o2, COMMA, m3);
      Regroup(o1, COMMA, m2);
      Regroup(out0, "    {\n", Member(FIELD, "id", Quote(t.id), COMMA + m2));
    }
  }

  method AppendItem(out0: string, item: FocusItemRecord) returns (out: string)
    ensures forall k :: out + k == out0 + ItemText(item, k)
  {
    hide Member, Quote, OptionalText, FocusStateName;
    var o0 := out0 + "    {\n";
    var o1 := AppendQuoted(o0, FIELD, "id", item.id);
    var o2 := AppendQuoted(o1 + COMMA, FIELD, "url", item.url);
    var o3 := AppendOptional(o2 + COMMA, FIELD, "tab_id", item.tabId);
    var o4 := AppendOptional(o3 + COMMA, FIELD, "workspace_id", item.workspaceId);
    var o5 := AppendQuoted(o4 + COMMA, FIELD, "state", FocusStateName(item.state));
    out := o5 + "\n    }";
    forall k ensures out + k == out0 + ItemText(item, k) {
      var m5 := Member(FIELD, "state", Quote(FocusStateName(item.state)), "\n    }" + k);
      var m4 := Member(FIELD, "workspace_id", OptionalText(item.workspaceId), COMMA + m5);
      var m3 := Member(FIELD, "tab_id", OptionalText(item.tabId), COMMA + m4);
      var m2 := Member(FIELD, "url", Quote(item.url), COMMA + m3);
      Regroup(o5, "\n    }", k);
      Regroup(o4, COMMA, m5);
      Regroup(o3, COMMA, m4);
      Regroup(o2, COMMA, m3);
      Regroup(o1, COMMA, m2);
      Regroup(out0, "    {\n", Member(FIELD, "id", Quote(item.id), COMMA + m2));
    }
  }

  method AppendTabs(out0: string, tabs: seq<SessionTabRecord>, ghost k: string) returns (out: string)
    ensures out + k == out0 + ListText(tabs, TabText, k)
  {
    hide TabText;
    out := out0;
    for i := 0 to |tabs|
      invariant out + ListText(tabs[i..], TabText, k) == out0 + ListText(tabs, TabText, k)
    {
      ghost var rest := ListText(tabs[i + 1..], TabText, k);
      assert tabs[i..][1..] == tabs[i + 1..];
      var withTab := AppendTab(out, tabs[i]);
      var separated := if i + 1 < |tabs| then withTab + "," else withTab;
      out := separated + "\n";
      assert "," + "\n" == COMMA;
      assert out == withTab + (if i + 1 < |tabs| then COMMA else "\n");
      Regroup(withTab, if i + 1 < |tabs| then COMMA else "\n", rest);
    }
    assert tabs[|tabs|..] == [];
  }

  method AppendItems(out0: string, items: seq<FocusItemRecord>, ghost k: string) returns (out: string)
    ensures out + k == out0 + ListText(items, ItemText, k)
  {
    hide ItemText;
    out := out0;
    for i := 0 to |items|
      invariant out + ListText(items[i..], ItemText, k) == out0 + ListText(items, ItemText, k)
    {
      ghost var rest := ListText(items[i + 1..], ItemText, k);
      assert items[i..][1..] == items[i + 1..];
      var withTab := AppendItem(out, items[i]);
      var separated := if i + 1 < |items| then withTab + "," else withTab;
      out := separated + "\n";
      assert "," + "\n" == COMMA;
      assert out == withTab + (if i + 1 < |items| then COMMA else "\n");
      Regroup(withTab, if i + 1 < |items| then COMMA else "\n", rest);
    }
    assert items[|items|..] == [];
  }

  method Serialize(x: SessionSnapshot) returns (out: string)
    ensures out == Serialized(x)
  {
    hide Member, OptionalText, ListText, Decimal;
    var clean := if x.cleanShutdown then "true" else "false";
    ghost var m5 := Member("  ", "focus_items", "[\n", ListText(x.focusItems, ItemText, "  ]\n}"));
    ghost var m4 := Member("  ", "tabs", "[\n", ListText(x.tabs, TabText, "  ],\n" + m5));
    ghost var m3 := Member("  ", "active_tab_id", OptionalText(x.activeTabId), COMMA + m4);
    ghost var m2 := Member("  ", "clean_shutdown", clean, COMMA + m3);

    var o1 := AppendMember("{\n", "  ", "schema_version", Decimal(x.schemaVersion));
    Regroup(o1, COMMA, m2);
    var o2 := AppendMember(o1 + COMMA, "  ", "clean_shutdown", clean);
    Regroup(o2, COMMA, m3);
    var o3 := AppendOptional(o2 + COMMA, "  ", "active_tab_id", x.activeTabId);
    Regroup(o3, COMMA, m4);
    var o4 := AppendMember(o3 + COMMA, "  ", "tabs", "[\n");
    var o5 := AppendTabs(o4, x.tabs, "  ],\n" + m5);
    Regroup(o5, "  ],\n", m5);
    var o6 := AppendMember(o5 + "  ],\n", "  ", "focus_items", "[\n");
    var o7 := AppendItems(o6, x.focusItems, "  ]\n}");
    out := o7 + "  ]\n";
    out := out + "}\n";
    assert out == (o7 + "  ]\n}") + "\n";
  }

  method ReadTabArray(vs: seq<JsonValue>) returns (tabs: seq<SessionTabRecord>)
    ensures tabs == ReadAll(vs, ReadTab, TabRecordId)
  {
    hide ReadTab;
    tabs := [];
    for i := 0 to |vs|
      invariant tabs == ReadAll(vs[..i], ReadTab, TabRecordId)
    {
      assert vs[..i + 1][..i] == vs[..i];
      if !vs[i].JObject? {
        continue;
      }
      var record := ReadTab(vs[i]);
      if record.id != "" {
        tabs := tabs + [record];
      }
    }
    assert vs[..|vs|] == vs;
  }

  method ReadItemArray(vs: seq<JsonValue>) returns (items: seq<FocusItemRecord>)
    ensures items == ReadAll(vs, ReadItem, ItemRecordId)
  {
    hide ReadItem;
    items := [];
    for i := 0 to |vs|
      invariant items == ReadAll(vs[..i], ReadItem, ItemRecordId)
    {
      assert vs[..i + 1][..i] == vs[..i];
      if !vs[i].JObject? {
        continue;
      }
      var record := ReadItem(vs[i]);
      if record.id != "" {
        items := items + [record];
      }
    }
    assert vs[..|vs|] == vs;
  }

  method Deserialize(stod: Stod, text: string) returns (x: Option<SessionSnapshot>)
    ensures x == Deserialized(stod, text)
  {
    var parser := new JsonParser(stod, text);
    var root := parser.Parse();
    if root.None? || !IsValidTree(root.value) {
      return None;
    }
    var tabs := ReadTabArray(ArrayMembers(root.value, "tabs"));
    var items := ReadItemArray(ArrayMembers(root.value, "focus_items"));
    x := Some(SessionSnapshot(GetSizeT(root.value, "schema_version", 1), GetBool(root.value, "clean_shutdown", false),
                              GetOptionalString(root.value, "active_tab_id"), tabs, items));
  }
}
