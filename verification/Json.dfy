/** JSON values, the string escaper and the meaning of the recursive-descent parser
    (src/core/storage/json_helper.cpp).  A text is a string with one character per byte; the
    laws hold for all characters, so in particular for all bytes.

    The parser functions take what is left of the input and give what is left after the value.
    std::stod is a parameter: it reads a number lexeme, or throws. */
module Json {
  import opened Common

  type Stod = string -> Option<real>

  datatype JsonValue =
    | JNull
    | JBool(bool_val: bool)
    | JNumber(num_val: real)
    | JString(str_val: string)
    | JArray(arr_val: seq<JsonValue>)
    | JObject(obj_val: seq<(string, JsonValue)>)

  // ---------- Lookups ----------

  function FindMember(members: seq<(string, JsonValue)>, key: string): Option<JsonValue> {
    if members == [] then None
    else if members[0].0 == key then Some(members[0].1)
    else FindMember(members[1..], key)
  }

  function Find(v: JsonValue, key: string): Option<JsonValue> {
    if v.JObject? then FindMember(v.obj_val, key) else None
  }

  function GetString(v: JsonValue, key: string): string {
    var m := Find(v, key);
    if m.Some? && m.value.JString? then m.value.str_val else ""
  }

  function GetOptionalString(v: JsonValue, key: string): Option<string> {
    var m := Find(v, key);
    if m.Some? && m.value.JString? then Some(m.value.str_val) else None
  }

  function GetBool(v: JsonValue, key: string, default: bool): bool {
    var m := Find(v, key);
    if m.Some? && m.value.JBool? then m.value.bool_val else default
  }

  function GetSizeT(v: JsonValue, key: string, default: nat): nat {
    var m := Find(v, key);
    if m.Some? && m.value.JNumber? && m.value.num_val >= 0.0 then m.value.num_val.Floor else default
  }

  // ---------- The escaper ----------

  const BACKSPACE: char := 8 as char
  const FORM_FEED: char := 12 as char

  function HexDigit(d: nat): char
    requires d < 16
  {
    if d < 10 then ('0' as int + d) as char else ('a' as int + d - 10) as char
  }

  function EscapedChar(c: char): string {
    if c == '"' then "\\\""
    else if c == '\\' then "\\\\"
    else if c == BACKSPACE then "\\b"
    else if c == FORM_FEED then "\\f"
    else if c == '\n' then "\\n"
    else if c == '\r' then "\\r"
    else if c == '\t' then "\\t"
    else if c < ' ' then "\\u00" + [HexDigit(c as int / 16), HexDigit(c as int % 16)]
    else [c]
  }

  function Escaped(s: string): string {
    if s == "" then "" else EscapedChar(s[0]) + Escaped(s[1..])
  }

  function Quote(s: string): string {
    "\"" + Escaped(s) + "\""
  }

  // ---------- The parser ----------

  datatype Parse<+T> = Fail | Got(value: T, rest: string)

  predicate IsSpace(c: char) {
    c == ' ' || c == '\t' || c == '\n' || c == '\r'
  }

  function SkipSpace(r: string): (t: string)
    ensures |t| <= |r|
    ensures t != "" ==> !IsSpace(t[0])
  {
    if r != "" && IsSpace(r[0]) then SkipSpace(r[1..]) else r
  }

  function HexValue(c: char): Option<nat> {
    if '0' <= c <= '9' then Some(c as int - '0' as int)
    else if 'a' <= c <= 'f' then Some(c as int - 'a' as int + 10)
    else if 'A' <= c <= 'F' then Some(c as int - 'A' as int + 10)
    else None
  }

  function HexValue4(a: char, b: char, c: char, d: char): (r: Option<nat>)
    ensures r.Some? ==> r.value <= 0xFFFF
  {
    var (w, x, y, z) := (HexValue(a), HexValue(b), HexValue(c), HexValue(d));
    if w.Some? && x.Some? && y.Some? && z.Some?
    then Some(w.value * 0x1000 + x.value * 0x100 + y.value * 0x10 + z.value) else None
  }

  // The UTF-8 bytes of a code point that four hex digits can name.
  function Utf8(codepoint: nat): string
    requires codepoint <= 0xFFFF
  {
    if codepoint <= 0x7F then [codepoint as char]
    else if codepoint <= 0x7FF then [(0xC0 + codepoint / 0x40) as char, (0x80 + codepoint % 0x40) as char]
    else [(0xE0 + codepoint / 0x1000) as char, (0x80 + codepoint / 0x40 % 0x40) as char,
          (0x80 + codepoint % 0x40) as char]
  }

  // The character after a backslash other than u; unknown escapes stand for themselves.
  function Unescaped(c: char): char {
    match c
    case 'b' => BACKSPACE
    case 'f' => FORM_FEED
    case 'n' => '\n'
    case 'r' => '\r'
    case 't' => '\t'
    case _ => c
  }

  // Reads to the closing quote; acc is what has been read.
  function StringBody(r: string, acc: string): (p: Parse<string>)
    ensures p.Got? ==> |p.rest| < |r|
    decreases |r|
  {
    if r == "" then Fail
    else if r[0] == '"' then Got(acc, r[1..])
    else if r[0] != '\\' then StringBody(r[1..], acc + [r[0]])
    else if |r| == 1 then Fail
    else if r[1] != 'u' then StringBody(r[2..], acc + [Unescaped(r[1])])
    else if |r| < 6 then Fail
    else
      var codepoint := HexValue4(r[2], r[3], r[4], r[5]);
      if codepoint.None? then Fail else StringBody(r[6..], acc + Utf8(codepoint.value))
  }

  function ParseString(r: string): (p: Parse<string>)
    ensures p.Got? ==> |p.rest| < |r|
  {
    if r == "" || r[0] != '"' then Fail else StringBody(r[1..], "")
  }

  function SkipDigits(r: string): (t: string)
    ensures |t| <= |r|
  {
    if r != "" && IsDigit(r[0]) then SkipDigits(r[1..]) else r
  }

  predicate Starts(r: string, c: char) {
    r != "" && r[0] == c
  }

  // What follows the number at the start of r: sign, digits, fraction, exponent, each as far as it goes.
  function SkipFraction(r: string): (t: string)
    ensures |t| <= |r|
  {
    if Starts(r, '.') then SkipDigits(r[1..]) else r
  }

  function SkipExponent(r: string): (t: string)
    ensures |t| <= |r|
  {
    if Starts(r, 'e') || Starts(r, 'E') then
      SkipDigits(if Starts(r[1..], '+') || Starts(r[1..], '-') then r[2..] else r[1..])
    else r
  }

  function SkipNumber(r: string): (t: string)
    ensures |t| <= |r|
  {
    SkipExponent(SkipFraction(SkipDigits(if Starts(r, '-') then r[1..] else r)))
  }

  function ParseNumber(stod: Stod, r: string): (p: Parse<JsonValue>)
    requires r != "" && (r[0] == '-' || IsDigit(r[0]))
    ensures p.Got? ==> |p.rest| < |r|
  {
    var t := SkipNumber(r);
    var number := stod(r[..|r| - |t|]);
    if number.None? then Fail else Got(JNumber(number.value), t)
  }

  function ParseWord(r: string, word: string, v: JsonValue): (p: Parse<JsonValue>)
    requires word != ""
    ensures p.Got? ==> |p.rest| < |r|
  {
    if word <= r then Got(v, r[|word|..]) else Fail
  }

  function ParseValue(stod: Stod, r: string): (p: Parse<JsonValue>)
    ensures p.Got? ==> |p.rest| < |r|
    decreases |r|, 4
  {
    var t := SkipSpace(r);
    if t == "" then Fail
    else if t[0] == '"' then
      var s := ParseString(t);
      if s.Fail? then Fail else Got(JString(s.value), s.rest)
    else if t[0] == '{' then ParseObject(stod, t)
    else if t[0] == '[' then ParseArray(stod, t)
    else if t[0] == 't' then ParseWord(t, "true", JBool(true))
    else if t[0] == 'f' then ParseWord(t, "false", JBool(false))
    else if t[0] == 'n' then ParseWord(t, "null", JNull)
    else if t[0] == '-' || IsDigit(t[0]) then ParseNumber(stod, t)
    else Fail
  }

  function ParseObject(stod: Stod, r: string): (p: Parse<JsonValue>)
    requires Starts(r, '{')
    ensures p.Got? ==> |p.rest| < |r|
    decreases |r|, 3
  {
    var t := SkipSpace(r[1..]);
    if Starts(t, '}') then Got(JObject([]), t[1..]) else ParseMembers(stod, t, [])
  }

  function ParseMembers(stod: Stod, r: string, acc: seq<(string, JsonValue)>): (p: Parse<JsonValue>)
    ensures p.Got? ==> |p.rest| < |r|
    decreases |r|, 2
  {
    var key := ParseString(SkipSpace(r));
    if key.Fail? then Fail
    else
      var t := SkipSpace(key.rest);
      if !Starts(t, ':') then Fail
      else
        var v := ParseValue(stod, t[1..]);
        if v.Fail? then Fail else MembersTail(stod, v.rest, acc + [(key.value, v.value)])
  }

  function MembersTail(stod: Stod, r: string, acc: seq<(string, JsonValue)>): (p: Parse<JsonValue>)
    ensures p.Got? ==> |p.rest| < |r|
    decreases |r|, 1
  {
    var t := SkipSpace(r);
    if Starts(t, '}') then Got(JObject(acc), t[1..])
    else if Starts(t, ',') then ParseMembers(stod, t[1..], acc)
    else Fail
  }

  function ParseArray(stod: Stod, r: string): (p: Parse<JsonValue>)
    requires Starts(r, '[')
    ensures p.Got? ==> |p.rest| < |r|
    decreases |r|, 3
  {
    var t := SkipSpace(r[1..]);
    if Starts(t, ']') then Got(JArray([]), t[1..]) else ParseItems(stod, t, [])
  }

  function ParseItems(stod: Stod, r: string, acc: seq<JsonValue>): (p: Parse<JsonValue>)
    ensures p.Got? ==> |p.rest| < |r|
    decreases |r|, 5
  {
    var v := ParseValue(stod, r);
    if v.Fail? then Fail else ItemsTail(stod, v.rest, acc + [v.value])
  }

  function ItemsTail(stod: Stod, r: string, acc: seq<JsonValue>): (p: Parse<JsonValue>)
    ensures p.Got? ==> |p.rest| < |r|
    decreases |r|, 1
  {
    var t := SkipSpace(r);
    if Starts(t, ']') then Got(JArray(acc), t[1..])
    else if Starts(t, ',') then ParseItems(stod, t[1..], acc)
    else Fail
  }

  function ParseJson(stod: Stod, text: string): Option<JsonValue> {
    var p := ParseValue(stod, text);
    if p.Got? && SkipSpace(p.rest) == "" then Some(p.value) else None
  }
}
