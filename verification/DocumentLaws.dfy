/** The round trip from a snapshot through its text and back, and the detection of cut-off
    texts. */
module DocumentLaws {
  import opened Common
  import opened Tabs
  import opened Snapshots
  import opened Json
  import opened JsonLaws
  import opened SessionDocument
  import FocusQueues

  // ---------- The text parses to the tree ----------

  // What std::stod makes of a printed version number: of 1 a number that truncates to 1, of any other
  // either nothing, as when it is out of range, or a number that does not.
  predicate ReadsVersion(stod: Stod, version: nat) {
    var r := stod(Decimal(version));
    if version == 1 then r.Some? && r.value.Floor == 1 else r.None? || (r.value >= 0.0 && r.value.Floor != 1)
  }

  lemma KeyReads(name: string, k: string)
    requires Plain(name)
    ensures ParseString("\"" + (name + ("\": " + k))) == Got(name, ": " + k)
  {
    PlainEscaped(name);
    assert "\"" + (name + ("\": " + k)) == Quote(name) + (": " + k);
    QuoteReads(name, ": " + k);
  }

  // One member is read and added; what follows its value decides how to go on.  A value that cannot be read
  // fails the whole object.
  lemma MemberReads(stod: Stod, indent: string, name: string, value: string, k: string, v: Parse<JsonValue>,
                    acc: seq<(string, JsonValue)>)
    requires AllSpace(indent) && Plain(name)
    requires ParseValue(stod, value + k) == v
    ensures ParseMembers(stod, Member(indent, name, value, k), acc)
         == if v.Fail? then Fail else MembersTail(stod, v.rest, acc + [(name, v.value)])
  {
    hide SkipSpace, ParseString, ParseValue, MembersTail, Plain, AllSpace;
    var r := "\"" + (name + ("\": " + (value + k)));
    SpaceBeforeMembers(stod, indent, r, acc);
    KeyReads(name, value + k);
    assert SkipSpace(r) == r by { NoSpace(r); }
    var t := ": " + (value + k);
    assert SkipSpace(t) == t by { NoSpace(t); }
    assert t[1..] == " " + (value + k);
    assert AllSpace(" ") by { OneSpace(); }
    SpaceBeforeValue(stod, " ", value + k);
  }

  lemma NoSpace(r: string)
    requires r != "" && !IsSpace(r[0])
    ensures SkipSpace(r) == r
  {
  }

  lemma OneSpace()
    ensures AllSpace(" ") && AllSpace("\n") && AllSpace("  ") && AllSpace(FIELD) && AllSpace("    ") && AllSpace("")
  {
  }

  lemma CommaGoesOn(stod: Stod, k: string, acc: seq<(string, JsonValue)>)
    ensures MembersTail(stod, COMMA + k, acc) == ParseMembers(stod, k, acc)
  {
    hide ParseMembers;
    var r := COMMA + k;
    NoSpace(r);
    assert r[1..] == "\n" + k;
    OneSpace();
    SpaceBeforeMembers(stod, "\n", k, acc);
  }

  lemma BraceEnds(stod: Stod, w: string, k: string, acc: seq<(string, JsonValue)>)
    requires AllSpace(w)
    ensures MembersTail(stod, w + ("}" + k), acc) == Got(JObject(acc), k)
  {
    SkipAllSpace(w, "}" + k);
    NoSpace("}" + k);
    assert ("}" + k)[1..] == k;
  }

  lemma OptionalReads(stod: Stod, s: Option<string>, k: string)
    ensures ParseValue(stod, OptionalText(s) + k) == Got(OptionalTree(s), k)
  {
    if s.Some? {
      QuoteValue(stod, s.value, k);
    } else {
      WordReads(stod, "null", JNull, k);
    }
  }

  lemma WordReads(stod: Stod, word: string, v: JsonValue, k: string)
    requires (word == "null" && v == JNull)
      || (word == "true" && v == JBool(true))
      || (word == "false" && v == JBool(false))
    ensures ParseValue(stod, word + k) == Got(v, k)
  {
    var r := word + k;
    assert r[0] == word[0];
    NoSpace(r);
    assert word <= r && r[|word|..] == k;
  }

  // An object that opens with a line break and a member.
  lemma ObjectOpens(stod: Stod, w: string, indent: string, name: string, value: string, k: string)
    requires AllSpace(w) && AllSpace(indent)
    ensures ParseValue(stod, (w + "{\n") + Member(indent, name, value, k))
         == ParseMembers(stod, Member(indent, name, value, k), [])
  {
    hide ParseMembers, ParseString, ParseNumber, ParseArray, ParseWord, AllSpace;
    var m := Member(indent, name, value, k);
    var inner := "\"" + (name + ("\": " + (value + k)));
    var r := "{\n" + m;
    assert (w + "{\n") + m == w + r;
    SpaceBeforeValue(stod, w, r);
    NoSpace(r);
    assert r[1..] == "\n" + m;
    OneSpace();
    SkipAllSpace("\n", m);
    SkipAllSpace(indent, inner);
    NoSpace(inner);
    SpaceBeforeMembers(stod, indent, inner, []);
  }

  lemma PlainKeys()
    ensures forall name | name in ["id", "url", "title", "workspace_id", "lifecycle", "tab_id", "state"] :: Plain(name)
    ensures forall name | name in ["schema_version", "clean_shutdown", "active_tab_id", "tabs", "focus_items"] ::
      Plain(name)
  {
  }

  // The members of one record, from the second on.
  lemma QuotedMember(stod: Stod, name: string, s: string, k: string, acc: seq<(string, JsonValue)>)
    requires Plain(name)
    ensures ParseMembers(stod, Member(FIELD, name, Quote(s), COMMA + k), acc)
         == ParseMembers(stod, k, acc + [(name, JString(s))])
  {
    hide ParseMembers, ParseValue, Quote, Member, Plain, COMMA, FIELD;
    QuoteValue(stod, s, COMMA + k);
    OneSpace();
    MemberReads(stod, FIELD, name, Quote(s), COMMA + k, Got(JString(s), COMMA + k), acc);
    CommaGoesOn(stod, k, acc + [(name, JString(s))]);
  }

  lemma OptionalMember(stod: Stod, indent: string, name: string, s: Option<string>,
      k: string, acc: seq<(string, JsonValue)>)
    requires Plain(name) && AllSpace(indent)
    ensures ParseMembers(stod, Member(indent, name, OptionalText(s), COMMA + k), acc)
         == ParseMembers(stod, k, acc + [(name, OptionalTree(s))])
  {
    hide ParseMembers, ParseValue, OptionalText, Member, Plain, COMMA, AllSpace;
    OptionalReads(stod, s, COMMA + k);
    MemberReads(stod, indent, name, OptionalText(s), COMMA + k, Got(OptionalTree(s), COMMA + k), acc);
    CommaGoesOn(stod, k, acc + [(name, OptionalTree(s))]);
  }

  lemma LastMember(stod: Stod, name: string, s: string, k: string, acc: seq<(string, JsonValue)>)
    requires Plain(name)
    ensures ParseMembers(stod, Member(FIELD, name, Quote(s), "\n    }" + k), acc)
         == Got(JObject(acc + [(name, JString(s))]), k)
  {
    hide ParseMembers, ParseValue, Quote, Member, Plain;
    QuoteValue(stod, s, "\n    }" + k);
    OneSpace();
    MemberReads(stod, FIELD, name, Quote(s), "\n    }" + k, Got(JString(s), "\n    }" + k), acc);
    assert "\n    }" + k == "\n    " + ("}" + k);
    BraceEnds(stod, "\n    ", k, acc + [(name, JString(s))]);
  }

  lemma TabReads(stod: Stod, t: SessionTabRecord, k: string)
    ensures ParseValue(stod, TabText(t, k)) == Got(TabTree(t), k)
  {
    hide ParseMembers, ParseValue, Member, Quote, OptionalText, OptionalTree, Plain, LifecycleName;
    PlainKeys();
    OneSpace();
    var m5 := Member(FIELD, "lifecycle", Quote(LifecycleName(t.lifecycle)), "\n    }" + k);
    var m4 := Member(FIELD, "workspace_id", OptionalText(t.workspaceId), COMMA + m5);
    var m3 := Member(FIELD, "title", Quote(t.title), COMMA + m4);
    var m2 := Member(FIELD, "url", Quote(t.url), COMMA + m3);
    ObjectOpens(stod, "    ", FIELD, "id", Quote(t.id), COMMA + m2);
    assert "    " + "{\n" == "    {\n";
    var a1 := [("id", JString(t.id))];
    var a2 := a1 + [("url", JString(t.url))];
    var a3 := a2 + [("title", JString(t.title))];
    var a4 := a3 + [("workspace_id", OptionalTree(t.workspaceId))];
    QuotedMember(stod, "id", t.id, m2, []);
    assert [] + a1 == a1;
    QuotedMember(stod, "url", t.url, m3, a1);
    QuotedMember(stod, "title", t.title, m4, a2);
    OptionalMember(stod, FIELD, "workspace_id", t.workspaceId, m5, a3);
    LastMember(stod, "lifecycle", LifecycleName(t.lifecycle), k, a4);
    assert a4 + [("lifecycle", JString(LifecycleName(t.lifecycle)))] == TabTree(t).obj_val;
  }

  lemma ItemReads(stod: Stod, item: FocusItemRecord, k: string)
    ensures ParseValue(stod, ItemText(item, k)) == Got(ItemTree(item), k)
  {
    hide ParseMembers, ParseValue, Member, Quote, OptionalText, OptionalTree, Plain, FocusStateName;
    PlainKeys();
    OneSpace();
    var m5 := Member(FIELD, "state", Quote(FocusStateName(item.state)), "\n    }" + k);
    var m4 := Member(FIELD, "workspace_id", OptionalText(item.workspaceId), COMMA + m5);
    var m3 := Member(FIELD, "tab_id", OptionalText(item.tabId), COMMA + m4);
    var m2 := Member(FIELD, "url", Quote(item.url), COMMA + m3);
    ObjectOpens(stod, "    ", FIELD, "id", Quote(item.id), COMMA + m2);
    assert "    " + "{\n" == "    {\n";
    var a1 := [("id", JString(item.id))];
    var a2 := a1 + [("url", JString(item.url))];
    var a3 := a2 + [("tab_id", OptionalTree(item.tabId))];
    var a4 := a3 + [("workspace_id", OptionalTree(item.workspaceId))];
    QuotedMember(stod, "id", item.id, m2, []);
    assert [] + a1 == a1;
    QuotedMember(stod, "url", item.url, m3, a1);
    OptionalMember(stod, FIELD, "tab_id", item.tabId, m4, a2);
    OptionalMember(stod, FIELD, "workspace_id", item.workspaceId, m5, a3);
    LastMember(stod, "state", FocusStateName(item.state), k, a4);
    assert a4 + [("state", JString(FocusStateName(item.state)))] == ItemTree(item).obj_val;
  }

  lemma BracketEnds(stod: Stod, k: string, acc: seq<JsonValue>)
    ensures ItemsTail(stod, "\n" + ("  ]" + k), acc) == Got(JArray(acc), k)
  {
    var r := "]" + k;
    assert "\n" + ("  ]" + k) == "\n  " + r;
    SkipAllSpace("\n  ", r);
    NoSpace(r);
    assert r[1..] == k;
  }

  lemma CommaGoesOnItems(stod: Stod, k: string, acc: seq<JsonValue>)
    ensures ItemsTail(stod, COMMA + k, acc) == ParseItems(stod, k, acc)
  {
    hide ParseItems;
    var r := COMMA + k;
    NoSpace(r);
    assert r[1..] == "\n" + k;
    OneSpace();
    SpaceBeforeItems(stod, "\n", k, acc);
  }

  // Every item is read as its tree, and opens with space and a brace.
  ghost predicate EachReads<T(!new)>(stod: Stod, text: (T, string) -> string, tree: T -> JsonValue) {
    forall x: T, k: string :: ParseValue(stod, text(x, k)) == Got(tree(x), k) && "    {" <= text(x, k)
  }

  lemma {:induction false} ListReads<T(!new)>(stod: Stod, xs: seq<T>, text: (T, string) -> string, tree: T -> JsonValue,
                                        k: string, acc: seq<JsonValue>)
    requires xs != [] && EachReads(stod, text, tree)
    ensures ParseItems(stod, ListText(xs, text, "  ]" + k), acc) == Got(JArray(acc + Trees(xs, tree)), k)
    decreases |xs|
  {
    hide ParseValue, ItemsTail;
    var rest := (if |xs| > 1 then COMMA else "\n") + ListText(xs[1..], text, "  ]" + k);
    assert ParseValue(stod, text(xs[0], rest)) == Got(tree(xs[0]), rest);
    var acc' := acc + [tree(xs[0])];
    if |xs| == 1 {
      BracketEnds(stod, k, acc');
      assert acc + Trees(xs, tree) == acc';
    } else {
      CommaGoesOnItems(stod, ListText(xs[1..], text, "  ]" + k), acc');
      ListReads(stod, xs[1..], text, tree, k, acc');
      assert acc' + Trees(xs[1..], tree) == acc + Trees(xs, tree);
    }
  }

  // An array text whose first item, if any, opens with space and a brace.
  lemma ArrayReads(stod: Stod, body: string, k: string, items: seq<JsonValue>)
    requires if items == [] then body == "  ]" + k
             else "    {" <= body && ParseItems(stod, body, []) == Got(JArray(items), k)
    ensures ParseValue(stod, "[\n" + body) == Got(JArray(items), k)
  {
    hide ParseItems, ParseString, ParseNumber, ParseObject, ParseWord;
    var r := "[\n" + body;
    NoSpace(r);
    assert r[1..] == "\n" + body;
    OneSpace();
    SkipAllSpace("\n", body);
    if items == [] {
      assert body == "  " + ("]" + k);
      SkipAllSpace("  ", "]" + k);
      NoSpace("]" + k);
      assert ("]" + k)[1..] == k;
    } else {
      var t := body[4..];
      assert body == "    " + t && t[0] == '{';
      SkipAllSpace("    ", t);
      NoSpace(t);
      SpaceBeforeItems(stod, "    ", t, []);
    }
  }

  lemma ListArrayReads<T(!new)>(stod: Stod, xs: seq<T>, text: (T, string) -> string, tree: T -> JsonValue, k: string)
    requires EachReads(stod, text, tree)
    ensures ParseValue(stod, "[\n" + ListText(xs, text, "  ]" + k)) == Got(JArray(Trees(xs, tree)), k)
  {
    hide ParseItems, ParseValue;
    if xs != [] {
      ListReads(stod, xs, text, tree, k, []);
      assert [] + Trees(xs, tree) == Trees(xs, tree);
      assert "    {" <= text(xs[0], (if |xs| > 1 then COMMA else "\n") + ListText(xs[1..], text, "  ]" + k));
    }
    ArrayReads(stod, ListText(xs, text, "  ]" + k), k, Trees(xs, tree));
  }

  lemma RecordsRead(stod: Stod)
    ensures EachReads(stod, TabText, TabTree) && EachReads(stod, ItemText, ItemTree)
  {
    hide ParseValue, TabText, ItemText, TabTree, ItemTree;
    forall t: SessionTabRecord, k: string
      ensures ParseValue(stod, TabText(t, k)) == Got(TabTree(t), k) && "    {" <= TabText(t, k)
    {
      TabReads(stod, t, k);
      TabTextOpens(t, k);
    }
    forall item: FocusItemRecord, k: string
      ensures ParseValue(stod, ItemText(item, k)) == Got(ItemTree(item), k) && "    {" <= ItemText(item, k)
    {
      ItemReads(stod, item, k);
      ItemTextOpens(item, k);
    }
  }

  lemma TabTextOpens(t: SessionTabRecord, k: string)
    ensures "    {" <= TabText(t, k)
  {
    hide Member;
    assert "    {" <= "    {\n";
  }

  lemma ItemTextOpens(item: FocusItemRecord, k: string)
    ensures "    {" <= ItemText(item, k)
  {
    hide Member;
    assert "    {" <= "    {\n";
  }

  // The two arrays at the end of the document.
  lemma ArraysRead(stod: Stod, x: SessionSnapshot, acc: seq<(string, JsonValue)>)
    ensures ParseMembers(stod, Member("  ", "tabs", "[\n", ListText(x.tabs, TabText, "  ],\n" +
                Member("  ", "focus_items", "[\n", ListText(x.focusItems, ItemText, "  ]\n}")))), acc)
         == Got(JObject(acc + [("tabs", JArray(Trees(x.tabs, TabTree))),
                               ("focus_items", JArray(Trees(x.focusItems, ItemTree)))]), "")
  {
    hide ParseMembers, ParseValue, Member, ListText, Trees, Plain;
    PlainKeys();
    OneSpace();
    var end := "\n}";
    var m2 := Member("  ", "focus_items", "[\n", ListText(x.focusItems, ItemText, "  ]" + end));
    assert "  ]\n}" == "  ]" + end;
    assert "  ],\n" + m2 == "  ]" + (COMMA + m2);
    var a1 := acc + [("tabs", JArray(Trees(x.tabs, TabTree)))];
    var a2 := a1 + [("focus_items", JArray(Trees(x.focusItems, ItemTree)))];
    RecordsRead(stod);
    ListArrayReads(stod, x.tabs, TabText, TabTree, COMMA + m2);
    MemberReads(stod, "  ", "tabs", "[\n", ListText(x.tabs, TabText, "  ]" + (COMMA + m2)),
                Got(JArray(Trees(x.tabs, TabTree)), COMMA + m2), acc);
    CommaGoesOn(stod, m2, a1);
    ListArrayReads(stod, x.focusItems, ItemText, ItemTree, end);
    MemberReads(stod, "  ", "focus_items", "[\n", ListText(x.focusItems, ItemText, "  ]" + end),
                Got(JArray(Trees(x.focusItems, ItemTree)), end), a1);
    assert end == "\n" + ("}" + "");
    BraceEnds(stod, "\n", "", a2);
    assert a2 == acc + [("tabs", JArray(Trees(x.tabs, TabTree))),
                        ("focus_items", JArray(Trees(x.focusItems, ItemTree)))];
  }

  lemma AfterVersionReads(stod: Stod, x: SessionSnapshot, acc: seq<(string, JsonValue)>)
    ensures ParseMembers(stod, AfterVersion(x), acc) == Got(JObject(acc + RestOfTree(x)), "")
  {
    hide ParseMembers, ParseValue, Member, ListText, Trees, Plain, OptionalText, OptionalTree;
    PlainKeys();
    OneSpace();
    var clean := if x.cleanShutdown then "true" else "false";
    var m4 := Member("  ", "tabs", "[\n", ListText(x.tabs, TabText, "  ],\n" +
                Member("  ", "focus_items", "[\n", ListText(x.focusItems, ItemText, "  ]\n}"))));
    var m3 := Member("  ", "active_tab_id", OptionalText(x.activeTabId), COMMA + m4);
    var a2 := acc + [("clean_shutdown", JBool(x.cleanShutdown))];
    var a3 := a2 + [("active_tab_id", OptionalTree(x.activeTabId))];
    WordReads(stod, clean, JBool(x.cleanShutdown), COMMA + m3);
    MemberReads(stod, "  ", "clean_shutdown", clean, COMMA + m3, Got(JBool(x.cleanShutdown), COMMA + m3), acc);
    CommaGoesOn(stod, m3, a2);
    OptionalMember(stod, "  ", "active_tab_id", x.activeTabId, m4, a2);
    ArraysRead(stod, x, a3);
    var arrays := [("tabs", JArray(Trees(x.tabs, TabTree))), ("focus_items", JArray(Trees(x.focusItems, ItemTree)))];
    assert a3 + arrays == acc + RestOfTree(x);
  }

  // The document text of any snapshot parses to its tree.
  lemma DocumentReads(stod: Stod, x: SessionSnapshot)
    requires stod(Decimal(x.schemaVersion)).Some?
    ensures ParseValue(stod, DocumentText(x)) == Got(DocumentTree(x, stod(Decimal(x.schemaVersion)).value), "")
  {
    hide ParseMembers, ParseValue, Member, AfterVersion, Trees, Plain, OptionalTree, Decimal;
    PlainKeys();
    OneSpace();
    var version := stod(Decimal(x.schemaVersion)).value;
    var k := COMMA + AfterVersion(x);
    var a1 := [("schema_version", JNumber(version))];
    ObjectOpens(stod, "", "  ", "schema_version", Decimal(x.schemaVersion), k);
    assert "" + "{\n" == "{\n";
    DecimalValueReads(stod, x.schemaVersion, k);
    MemberReads(stod, "  ", "schema_version", Decimal(x.schemaVersion), k, Got(JNumber(version), k), []);
    assert [] + a1 == a1;
    CommaGoesOn(stod, AfterVersion(x), a1);
    AfterVersionReads(stod, x, a1);
    assert a1 + RestOfTree(x) == DocumentTree(x, version).obj_val;
  }

  // So does the text with more after it: an object ends at its closing brace.
  lemma SerializedReads(stod: Stod, x: SessionSnapshot)
    requires stod(Decimal(x.schemaVersion)).Some?
    ensures ParseValue(stod, Serialized(x)) == Got(DocumentTree(x, stod(Decimal(x.schemaVersion)).value), "\n")
  {
    hide DocumentText, ParseValue, Decimal;
    DocumentReads(stod, x);
    ValueExtends(stod, DocumentText(x), "\n");
    assert "" + "\n" == "\n";
  }

  lemma MemberAppend(indent: string, name: string, value: string, k: string, q: string)
    ensures Member(indent, name, value, k) + q == Member(indent, name, value, k + q)
  {
    assert "\": " + (value + k) + q == "\": " + (value + (k + q));
    assert (name + ("\": " + (value + k))) + q == name + ("\": " + (value + (k + q)));
  }

  // A version number that std::stod does not take makes the text no JSON at all.
  lemma UnreadVersion(stod: Stod, x: SessionSnapshot)
    requires stod(Decimal(x.schemaVersion)).None?
    ensures ParseValue(stod, Serialized(x)).Fail?
  {
    hide ParseMembers, ParseValue, Member, AfterVersion, Plain, Decimal;
    PlainKeys();
    OneSpace();
    var k := COMMA + AfterVersion(x) + "\n";
    MemberAppend("  ", "schema_version", Decimal(x.schemaVersion), COMMA + AfterVersion(x), "\n");
    ObjectOpens(stod, "", "  ", "schema_version", Decimal(x.schemaVersion), k);
    assert Serialized(x) == "" + "{\n" + Member("  ", "schema_version", Decimal(x.schemaVersion), k);
    DecimalValueReads(stod, x.schemaVersion, k);
    MemberReads(stod, "  ", "schema_version", Decimal(x.schemaVersion), k, Fail, []);
  }

  // ---------- The tree reads back ----------

  lemma {:induction false} FindAt(members: seq<(string, JsonValue)>, i: nat)
    requires i < |members| && forall j | 0 <= j < i :: members[j].0 != members[i].0
    ensures FindMember(members, members[i].0) == Some(members[i].1)
  {
    if i > 0 {
      FindAt(members[1..], i - 1);
    }
  }

  // The members of an object with different keys are found under their keys.
  lemma FindEach(v: JsonValue)
    requires v.JObject? && forall i, j | 0 <= j < i < |v.obj_val| :: v.obj_val[j].0 != v.obj_val[i].0
    ensures forall i | 0 <= i < |v.obj_val| :: Find(v, v.obj_val[i].0) == Some(v.obj_val[i].1)
  {
    forall i | 0 <= i < |v.obj_val| ensures Find(v, v.obj_val[i].0) == Some(v.obj_val[i].1) {
      FindAt(v.obj_val, i);
    }
  }

  lemma KeysDiffer()
    ensures var a, b, c, d, e := "id", "url", "title", "workspace_id", "lifecycle";
      a != b && a != c && a != d && a != e && b != c && b != d && b != e && c != d && c != e && d != e
    ensures var a, b, c, d, e := "id", "url", "tab_id", "workspace_id", "state";
      a != b && a != c && a != d && a != e && b != c && b != d && b != e && c != d && c != e && d != e
    ensures var a, b, c, d, e := "schema_version", "clean_shutdown", "active_tab_id", "tabs", "focus_items";
      a != b && a != c && a != d && a != e && b != c && b != d && b != e && c != d && c != e && d != e
  {
    assert "id"[0] != "url"[0] && "lifecycle"[0] != "title"[0] && "state"[0] != "tab_id"[0];
    assert "schema_version"[1] == 'c' && "clean_shutdown"[1] == 'l' && "active_tab_id"[0] == 'a' && "tabs"[0] == 't'
        && "focus_items"[0] == 'f';
  }

  lemma LifecycleReads(l: TabLifecycle)
    ensures LifecycleOf(LifecycleName(l)) == l
  {
    match l
    case Active =>
    case Background => assert LifecycleName(l)[0] == 'B';
    case Suspended => assert LifecycleName(l)[0] == 'S';
    case Discarded => assert LifecycleName(l)[0] == 'D';
  }

  lemma FocusStateReads(state: FocusQueues.FocusState)
    ensures FocusStateOf(FocusStateName(state)) == state
  {
    match state
    case Now =>
    case Next => assert FocusStateName(state)[1] == 'e';
    case Later => assert FocusStateName(state)[0] == 'L';
    case Paused => assert FocusStateName(state)[0] == 'P';
  }

  lemma TabTreeReads(t: SessionTabRecord)
    ensures ReadTab(TabTree(t)) == t
  {
    hide LifecycleName, LifecycleOf, FindMember;
    KeysDiffer();
    var v := TabTree(t);
    FindEach(v);
    assert v.obj_val[0].0 == "id" && v.obj_val[1].0 == "url" && v.obj_val[2].0 == "title"
        && v.obj_val[3].0 == "workspace_id" && v.obj_val[4].0 == "lifecycle";
    LifecycleReads(t.lifecycle);
  }

  lemma ItemTreeReads(item: FocusItemRecord)
    ensures ReadItem(ItemTree(item)) == item
  {
    hide FocusStateName, FocusStateOf, FindMember;
    KeysDiffer();
    var v := ItemTree(item);
    FindEach(v);
    assert v.obj_val[0].0 == "id" && v.obj_val[1].0 == "url" && v.obj_val[2].0 == "tab_id"
        && v.obj_val[3].0 == "workspace_id" && v.obj_val[4].0 == "state";
    FocusStateReads(item.state);
  }

  // The records that have an id.
  function WithIds<T>(xs: seq<T>, idOf: T -> string): seq<T> {
    if xs == [] then []
    else WithIds(xs[..|xs| - 1], idOf) + (if idOf(xs[|xs| - 1]) != "" then [xs[|xs| - 1]] else [])
  }

  // A snapshot less its records without an id.
  function Named(x: SessionSnapshot): SessionSnapshot {
    x.(tabs := WithIds(x.tabs, TabRecordId), focusItems := WithIds(x.focusItems, ItemRecordId))
  }

  lemma {:induction false} TreesRead<T(!new)>(xs: seq<T>, tree: T -> JsonValue, read: JsonValue -> T, idOf: T -> string)
    requires forall x :: tree(x).JObject? && read(tree(x)) == x
    ensures ReadAll(Trees(xs, tree), read, idOf) == WithIds(xs, idOf)
  {
    if xs != [] {
      var n := |xs| - 1;
      assert Trees(xs, tree)[..n] == Trees(xs[..n], tree);
      TreesRead(xs[..n], tree, read, idOf);
      assert read(tree(xs[n])) == xs[n];
    }
  }

  lemma RecordTreesRead(x: SessionSnapshot)
    ensures ReadAll(Trees(x.tabs, TabTree), ReadTab, TabRecordId) == WithIds(x.tabs, TabRecordId)
    ensures ReadAll(Trees(x.focusItems, ItemTree), ReadItem, ItemRecordId) == WithIds(x.focusItems, ItemRecordId)
  {
    forall t: SessionTabRecord
      ensures TabTree(t).JObject? && ReadTab(TabTree(t)) == t
    {
      TabTreeReads(t);
    }
    forall item: FocusItemRecord
      ensures ItemTree(item).JObject? && ReadItem(ItemTree(item)) == item
    {
      ItemTreeReads(item);
    }
    hide ReadTab, ReadItem, TabTree, ItemTree;
    TreesRead(x.tabs, TabTree, ReadTab, TabRecordId);
    TreesRead(x.focusItems, ItemTree, ReadItem, ItemRecordId);
  }

  lemma DocumentTreeReads(x: SessionSnapshot, version: real)
    requires version >= 0.0 && (version.Floor == 1 <==> x.schemaVersion == 1)
    ensures var root := DocumentTree(x, version);
      && (IsValidTree(root) <==> x.schemaVersion == 1)
      && (x.schemaVersion == 1 ==> ReadTree(root) == Named(x))
  {
    hide FindMember, Trees, WithIds, ReadAll;
    KeysDiffer();
    var v := DocumentTree(x, version);
    FindEach(v);
    assert v.obj_val[0].0 == "schema_version" && v.obj_val[1].0 == "clean_shutdown" && v.obj_val[2].0 == "active_tab_id"
        && v.obj_val[3].0 == "tabs" && v.obj_val[4].0 == "focus_items";
    RecordTreesRead(x);
  }

  // ---------- Main results ----------

  // Reading back what was written, over all strings: a version 1 snapshot comes back, less its records
  // without an id; any other version is refused.
  lemma RoundTrip(stod: Stod, x: SessionSnapshot)
    requires ReadsVersion(stod, x.schemaVersion)
    ensures Deserialized(stod, Serialized(x)) == if x.schemaVersion == 1 then Some(Named(x)) else None
    ensures IsValidSessionDocument(stod, Serialized(x)) <==> x.schemaVersion == 1
  {
    hide Serialized, DocumentTree, ParseValue, IsValidTree, ReadTree, Named, Decimal;
    if stod(Decimal(x.schemaVersion)).None? {
      UnreadVersion(stod, x);
    } else {
      SerializedReads(stod, x);
      OneSpace();
      SkipAllSpace("\n", "");
      assert "\n" + "" == "\n";
      DocumentTreeReads(x, stod(Decimal(x.schemaVersion)).value);
    }
  }

  ghost predicate AllNamed(x: SessionSnapshot) {
    && (forall i | 0 <= i < |x.tabs| :: x.tabs[i].id != "")
    && (forall i | 0 <= i < |x.focusItems| :: x.focusItems[i].id != "")
  }

  // The snapshot itself comes back exactly when it has version 1 and no record lacks an id.
  lemma RoundTripExact(stod: Stod, x: SessionSnapshot)
    requires ReadsVersion(stod, x.schemaVersion)
    ensures Deserialized(stod, Serialized(x)) == Some(x) <==> x.schemaVersion == 1 && AllNamed(x)
  {
    hide Deserialized, Serialized, ReadsVersion, WithIds;
    RoundTrip(stod, x);
    WithIdsSame(x.tabs, TabRecordId);
    WithIdsSame(x.focusItems, ItemRecordId);
  }

  lemma {:induction false} WithIdsSame<T>(xs: seq<T>, idOf: T -> string)
    ensures |WithIds(xs, idOf)| <= |xs|
    ensures WithIds(xs, idOf) == xs <==> forall i | 0 <= i < |xs| :: idOf(xs[i]) != ""
  {
    if xs != [] {
      var n := |xs| - 1;
      WithIdsSame(xs[..n], idOf);
      assert xs == xs[..n] + [xs[n]];
      assert forall i | 0 <= i < n :: xs[..n][i] == xs[i];
      assert WithIds(xs, idOf) == xs ==> WithIds(xs[..n], idOf) == xs[..n] by {
        assert WithIds(xs, idOf) == xs ==> |WithIds(xs[..n], idOf)| == n;
      }
    }
  }

  // A text that parses to an object cannot be cut off, whatever std::stod does: with more input it would
  // end at the same brace.
  lemma TornIsNoObject(stod: Stod, x: SessionSnapshot, n: nat)
    requires n + 1 < |Serialized(x)|
    ensures var root := ParseJson(stod, Serialized(x)[..n]); root.Some? ==> !root.value.JObject?
  {
    hide Serialized, DocumentTree, ParseValue, Decimal;
    var text := Serialized(x);
    var p := ParseValue(stod, text[..n]);
    if stod(Decimal(x.schemaVersion)).None? {
      UnreadVersion(stod, x);
    } else {
      SerializedReads(stod, x);
    }
    assert text[..n] + text[n..] == text;
    if p.Got? && p.value.JObject? {
      ValueExtends(stod, text[..n], text[n..]);
      assert false;
    }
  }

  // The cut-off texts of a version 1 document: only the last line break may be missing.  Every shorter
  // prefix is refused, and the two texts that pass read the same.
  lemma TornDocuments(stod: Stod, x: SessionSnapshot, n: nat)
    requires ReadsVersion(stod, 1) && x.schemaVersion == 1 && n <= |Serialized(x)|
    ensures var torn := Serialized(x)[..n];
      && (IsValidSessionDocument(stod, torn) <==> n + 1 >= |Serialized(x)|)
      && Deserialized(stod, torn) == if n + 1 >= |Serialized(x)| then Some(Named(x)) else None
  {
    hide DocumentText, DocumentTree, ParseValue, IsValidTree, ReadTree, Named, Decimal;
    var text := Serialized(x);
    if n + 1 < |text| {
      TornIsNoObject(stod, x, n);
      ValidIsObject();
    } else if n == |text| {
      assert text[..n] == text;
      RoundTrip(stod, x);
    } else {
      assert text[..n] == DocumentText(x);
      DocumentReads(stod, x);
      DocumentTreeReads(x, stod(Decimal(x.schemaVersion)).value);
    }
  }

  lemma ValidIsObject()
    ensures forall root :: IsValidTree(root) ==> root.JObject?
  {
  }
}
