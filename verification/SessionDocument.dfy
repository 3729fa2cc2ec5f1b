/** The session document: its text, the JSON tree of that text, and how a tree is checked
    and read (src/core/session/session_persistence.cpp, Serialize, Deserialize and
    IsValidSessionDocument). */
module SessionDocument {
  import opened Common
  import opened Tabs
  import opened Snapshots
  import opened Json
  import FocusQueues

  // ---------- Names of enumerators ----------

  function LifecycleName(l: TabLifecycle): string {
    match l
    case Active => "Active"
    case Background => "Background"
    case Suspended => "Suspended"
    case Discarded => "Discarded"
  }

  function LifecycleOf(name: string): TabLifecycle {
    if name == "Active" then Active
    else if name == "Suspended" then Suspended
    else if name == "Discarded" then Discarded
    else Background
  }

  function FocusStateName(state: FocusQueues.FocusState): string {
    match state
    case Now => "Now"
    case Next => "Next"
    case Later => "Later"
    case Paused => "Paused"
  }

  function FocusStateOf(name: string): FocusQueues.FocusState {
    if name == "Now" then FocusQueues.Now
    else if name == "Later" then FocusQueues.Later
    else if name == "Paused" then FocusQueues.Paused
    else FocusQueues.Next
  }

  // ---------- The text ----------

  // Each piece of text is given with the text k that follows it.
  function Member(indent: string, name: string, value: string, k: string): string {
    indent + ("\"" + (name + ("\": " + (value + k))))
  }

  function OptionalText(s: Option<string>): string {
    if s.Some? then Quote(s.value) else "null"
  }

  const FIELD := "      "
  const COMMA := ",\n"

  function TabText(t: SessionTabRecord, k: string): string {
    "    {\n" +
    Member(FIELD, "id", Quote(t.id), COMMA +
    Member(FIELD, "url", Quote(t.url), COMMA +
    Member(FIELD, "title", Quote(t.title), COMMA +
    Member(FIELD, "workspace_id", OptionalText(t.workspaceId), COMMA +
    Member(FIELD, "lifecycle", Quote(LifecycleName(t.lifecycle)), "\n    }" + k)))))
  }

  function ItemText(item: FocusItemRecord, k: string): string {
    "    {\n" +
    Member(FIELD, "id", Quote(item.id), COMMA +
    Member(FIELD, "url", Quote(item.url), COMMA +
    Member(FIELD, "tab_id", OptionalText(item.tabId), COMMA +
    Member(FIELD, "workspace_id", OptionalText(item.workspaceId), COMMA +
    Member(FIELD, "state", Quote(FocusStateName(item.state)), "\n    }" + k)))))
  }

  // The items of an array, one by one.
  function ListText<T>(xs: seq<T>, text: (T, string) -> string, k: string): string {
    if xs == [] then k
    else text(xs[0], (if |xs| > 1 then COMMA else "\n") + ListText(xs[1..], text, k))
  }

  function AfterVersion(x: SessionSnapshot): string {
    Member("  ", "clean_shutdown", if x.cleanShutdown then "true" else "false", COMMA +
    Member("  ", "active_tab_id", OptionalText(x.activeTabId), COMMA +
    Member("  ", "tabs", "[\n", ListText(x.tabs, TabText, "  ],\n" +
    Member("  ", "focus_items", "[\n", ListText(x.focusItems, ItemText, "  ]\n}"))))))
  }

  function DocumentText(x: SessionSnapshot): string {
    "{\n" + Member("  ", "schema_version", Decimal(x.schemaVersion), COMMA + AfterVersion(x))
  }

  function Serialized(x: SessionSnapshot): string {
    DocumentText(x) + "\n"
  }

  // ---------- The tree ----------

  function OptionalTree(s: Option<string>): JsonValue {
    if s.Some? then JString(s.value) else JNull
  }

  function TabTree(t: SessionTabRecord): JsonValue {
    JObject([("id", JString(t.id)), ("url", JString(t.url)), ("title", JString(t.title)),
             ("workspace_id", OptionalTree(t.workspaceId)), ("lifecycle", JString(LifecycleName(t.lifecycle)))])
  }

  function ItemTree(item: FocusItemRecord): JsonValue {
    JObject([("id", JString(item.id)), ("url", JString(item.url)), ("tab_id", OptionalTree(item.tabId)),
             ("workspace_id", OptionalTree(item.workspaceId)), ("state", JString(FocusStateName(item.state)))])
  }

  function Trees<T>(xs: seq<T>, tree: T -> JsonValue): seq<JsonValue> {
    seq(|xs|, i requires 0 <= i < |xs| => tree(xs[i]))
  }

  function RestOfTree(x: SessionSnapshot): seq<(string, JsonValue)> {
    [("clean_shutdown", JBool(x.cleanShutdown)), ("active_tab_id", OptionalTree(x.activeTabId)),
     ("tabs", JArray(Trees(x.tabs, TabTree))), ("focus_items", JArray(Trees(x.focusItems, ItemTree)))]
  }

  function DocumentTree(x: SessionSnapshot, version: real): JsonValue {
    JObject([("schema_version", JNumber(version))] + RestOfTree(x))
  }

  // ---------- Reading ----------

  predicate IsArray(v: Option<JsonValue>) {
    v.Some? && v.value.JArray?
  }

  predicate IsValidTree(root: JsonValue) {
    var active := Find(root, "active_tab_id");
    var clean := Find(root, "clean_shutdown");
    && root.JObject?
    && GetSizeT(root, "schema_version", 0) == 1
    && clean.Some? && clean.value.JBool?
    && active.Some? && (active.value.JNull? || active.value.JString?)
    && IsArray(Find(root, "tabs"))
    && IsArray(Find(root, "focus_items"))
  }

  predicate IsValidSessionDocument(stod: Stod, text: string) {
    var root := ParseJson(stod, text);
    root.Some? && IsValidTree(root.value)
  }

  // Records are read from the objects of an array; those without an id are dropped.
  function ReadTab(v: JsonValue): SessionTabRecord {
    SessionTabRecord(GetString(v, "id"), GetString(v, "url"), GetString(v, "title"),
                     GetOptionalString(v, "workspace_id"), LifecycleOf(GetString(v, "lifecycle")))
  }

  function ReadItem(v: JsonValue): FocusItemRecord {
    FocusQueues.FocusItem(GetString(v, "id"), GetString(v, "url"), GetOptionalString(v, "tab_id"),
                          GetOptionalString(v, "workspace_id"), FocusStateOf(GetString(v, "state")))
  }

  function TabRecordId(t: SessionTabRecord): string {
    t.id
  }

  function ItemRecordId(item: FocusItemRecord): string {
    item.id
  }

  function ReadAll<T>(vs: seq<JsonValue>, read: JsonValue -> T, idOf: T -> string): seq<T> {
    if vs == [] then []
    else
      var v := vs[|vs| - 1];
      ReadAll(vs[..|vs| - 1], read, idOf) + (if v.JObject? && idOf(read(v)) != "" then [read(v)] else [])
  }

  function ArrayMembers(root: JsonValue, key: string): seq<JsonValue> {
    var v := Find(root, key);
    if IsArray(v) then v.value.arr_val else []
  }

  function ReadTree(root: JsonValue): SessionSnapshot {
    SessionSnapshot(GetSizeT(root, "schema_version", 1), GetBool(root, "clean_shutdown", false),
                    GetOptionalString(root, "active_tab_id"),
                    ReadAll(ArrayMembers(root, "tabs"), ReadTab, TabRecordId),
                    ReadAll(ArrayMembers(root, "focus_items"), ReadItem, ItemRecordId))
  }

  function Deserialized(stod: Stod, text: string): Option<SessionSnapshot> {
    var root := ParseJson(stod, text);
    if root.Some? && IsValidTree(root.value) then Some(ReadTree(root.value)) else None
  }
}
