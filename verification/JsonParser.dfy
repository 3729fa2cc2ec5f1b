/** The escaper and the parser as the source runs them: loops that append to a buffer and a
    position that moves over the input (src/core/storage/json_helper.cpp). */
module JsonParsers {
  import opened Common
  import opened Json

  method EscapeJsonString(str: string, out0: string) returns (out: string)
    ensures out == out0 + Quote(str)
  {
    hide EscapedChar;
    out := out0 + "\"";
    for i := 0 to |str|
      invariant out + (Escaped(str[i..]) + "\"") == out0 + Quote(str)
    {
      assert str[i..][1..] == str[i + 1..];
      out := out + EscapedChar(str[i]);
    }
    assert str[|str|..] == "";
    out := out + "\"";
  }

  // An object or an array cannot go on when the input is at its end.
  lemma EmptyFails(stod: Stod)
    ensures forall acc :: ParseMembers(stod, "", acc).Fail?
    ensures Json.ParseValue(stod, "").Fail?
  {
  }

  lemma SkippedValue(stod: Stod, r: string)
    ensures Json.ParseValue(stod, SkipSpace(r)) == Json.ParseValue(stod, r)
  {
  }

  class JsonParser {
    const stod: Stod
    const input: string
    var pos: nat

    constructor (stod: Stod, input: string)
      ensures this.stod == stod && this.input == input && pos == 0 && Valid() && Rest() == input
    {
      this.stod, this.input, pos := stod, input, 0;
    }

    ghost predicate Valid()
      reads this
    {
      pos <= |input|
    }

    // What is left to read.
    ghost function Rest(): string
      requires Valid()
      reads this
    {
      input[pos..]
    }

    // The outcome of a parse of `before`: the value and where it left the position, or a failure.
    ghost predicate Reads<T>(result: Option<T>, p: Parse<T>)
      requires Valid()
      reads this
    {
      match p
      case Fail => result == None
      case Got(v, rest) => result == Some(v) && Rest() == rest
    }

    method SkipWhitespace()
      requires Valid()
      modifies this
      ensures Valid() && pos >= old(pos) && Rest() == SkipSpace(old(Rest()))
    {
      while pos < |input| && IsSpace(input[pos])
        invariant old(pos) <= pos <= |input|
        invariant SkipSpace(Rest()) == SkipSpace(old(Rest()))
      {
        pos := pos + 1;
      }
    }

    method ParseHex4() returns (codepoint: Option<nat>)
      requires Valid() && pos + 4 <= |input|
      modifies this
      ensures Valid() && codepoint
        == HexValue4(input[old(pos)], input[old(pos) + 1], input[old(pos) + 2], input[old(pos) + 3])
      ensures pos >= old(pos) && (codepoint.Some? ==> pos == old(pos) + 4)
    {
      ghost var start := pos;
      ghost var d := (i: int) requires 0 <= i < 4 => HexValue(input[start + i]);
      var value := 0;
      for i := 0 to 4
        invariant pos == start + i
        invariant forall j | 0 <= j < i :: d(j).Some?
        invariant value == if i == 0 then 0
                           else if i == 1 then d(0).value
                           else if i == 2 then d(0).value * 0x10 + d(1).value
                           else if i == 3 then d(0).value * 0x100 + d(1).value * 0x10 + d(2).value
                           else d(0).value * 0x1000 + d(1).value * 0x100 + d(2).value * 0x10 + d(3).value
      {
        var h := HexValue(input[pos]);
        pos := pos + 1;
        if h.None? {
          assert d(i).None?;
          return None;
        }
        value := value * 0x10 + h.value;
      }
      codepoint := Some(value);
    }

    // After a backslash: the buffer with the escaped character added.
    method ParseEscape(result: string) returns (r: Option<string>)
      requires Valid() && 0 < pos && input[pos - 1] == '\\'
      modifies this
      ensures Valid() && pos >= old(pos)
      ensures var before := StringBody(input[old(pos) - 1..], result);
        if r.None? then before.Fail? else before == StringBody(Rest(), r.value)
    {
      ghost var start := input[pos - 1..];
      if pos >= |input| {
        return None;
      }
      var esc := input[pos];
      pos := pos + 1;
      assert start[0] == '\\' && start[1] == esc && start[2..] == Rest();
      if esc != 'u' {
        return Some(result + [Unescaped(esc)]);
      }
      if pos + 4 > |input| {
        return None;
      }
      assert start[6..] == input[pos + 4..];
      var codepoint := ParseHex4();
      if codepoint.None? {
        return None;
      }
      r := Some(result + Utf8(codepoint.value));
    }

    method ParseString() returns (s: Option<string>)
      requires Valid()
      modifies this
      ensures Valid() && pos >= old(pos) && Reads(s, Json.ParseString(old(Rest())))
    {
      hide Unescaped, Utf8, HexValue4;
      if pos >= |input| || input[pos] != '"' {
        return None;
      }
      pos := pos + 1;
      ghost var whole := Json.ParseString(old(Rest()));
      var result := "";
      while pos < |input|
        invariant old(pos) < pos <= |input|
        invariant StringBody(Rest(), result) == whole
        decreases |input| - pos
      {
        ghost var start := pos;
        var c := input[pos];
        pos := pos + 1;
        assert input[start..][1..] == Rest();
        if c == '"' {
          return Some(result);
        }
        if c == '\\' {
          var escaped := ParseEscape(result);
          if escaped.None? {
            return None;
          }
          result := escaped.value;
        } else {
          result := result + [c];
        }
      }
      s := None;
    }

    method ParseWord(word: string, v: JsonValue) returns (r: Option<JsonValue>)
      requires Valid() && word != ""
      modifies this
      ensures Valid() && pos >= old(pos) && Reads(r, Json.ParseWord(old(Rest()), word, v))
    {
      if word <= input[pos..] {
        pos := pos + |word|;
        return Some(v);
      }
      r := None;
    }

    method SkipSomeDigits()
      requires Valid()
      modifies this
      ensures Valid() && pos >= old(pos) && Rest() == SkipDigits(old(Rest()))
    {
      while pos < |input| && IsDigit(input[pos])
        invariant old(pos) <= pos <= |input|
        invariant SkipDigits(Rest()) == SkipDigits(old(Rest()))
      {
        pos := pos + 1;
      }
    }

    method SkipFractionPart()
      requires Valid()
      modifies this
      ensures Valid() && pos >= old(pos) && Rest() == SkipFraction(old(Rest()))
    {
      hide SkipDigits;
      if pos < |input| && input[pos] == '.' {
        pos := pos + 1;
        SkipSomeDigits();
      }
    }

    method SkipExponentPart()
      requires Valid()
      modifies this
      ensures Valid() && pos >= old(pos) && Rest() == SkipExponent(old(Rest()))
    {
      hide SkipDigits;
      if pos < |input| && (input[pos] == 'e' || input[pos] == 'E') {
        ghost var r := Rest();
        pos := pos + 1;
        assert Rest() == r[1..];
        if pos < |input| && (input[pos] == '+' || input[pos] == '-') {
          pos := pos + 1;
          assert Rest() == r[2..];
        }
        SkipSomeDigits();
      }
    }

    method ParseNumber() returns (r: Option<JsonValue>)
      requires Valid() && pos < |input| && (input[pos] == '-' || IsDigit(input[pos]))
      modifies this
      ensures Valid() && pos >= old(pos) && Reads(r, Json.ParseNumber(stod, old(Rest())))
    {
      hide SkipDigits, SkipFraction, SkipExponent;
      var start := pos;
      if input[pos] == '-' {
        pos := pos + 1;
      }
      SkipSomeDigits();
      SkipFractionPart();
      SkipExponentPart();
      assert Rest() == SkipNumber(old(Rest()));
      assert input[start..pos] == old(Rest())[..|old(Rest())| - |Rest()|];
      var number := stod(input[start..pos]);
      if number.None? {
        return None;
      }
      r := Some(JNumber(number.value));
    }

    method ParseValue() returns (r: Option<JsonValue>)
      requires Valid()
      modifies this
      ensures Valid() && pos >= old(pos) && Reads(r, Json.ParseValue(stod, old(Rest())))
      decreases |input| - pos, 4
    {
      SkipWhitespace();
      if pos >= |input| {
        return None;
      }
      var c := input[pos];
      if c == '"' {
        var s := ParseString();
        return if s.Some? then Some(JString(s.value)) else None;
      } else if c == '{' {
        r := ParseObject();
      } else if c == '[' {
        r := ParseArray();
      } else if c == 't' {
        r := ParseWord("true", JBool(true));
      } else if c == 'f' {
        r := ParseWord("false", JBool(false));
      } else if c == 'n' {
        r := ParseWord("null", JNull);
      } else if c == '-' || IsDigit(c) {
        r := ParseNumber();
      } else {
        r := None;
      }
    }

    // One member of an object, up to its value.
    method ParseMember() returns (m: Option<(string, JsonValue)>)
      requires Valid()
      modifies this
      ensures Valid() && pos >= old(pos)
      ensures m.Some? ==> pos > old(pos)
      ensures forall acc :: ParseMembers(stod, old(Rest()), acc)
                         == if m.None? then Fail else MembersTail(stod, Rest(), acc + [m.value])
      decreases |input| - pos, 5
    {
      hide SkipSpace, Json.ParseString, Json.ParseValue, MembersTail;
      SkipWhitespace();
      var key := ParseString();
      if key.None? {
        return None;
      }
      SkipWhitespace();
      if pos >= |input| || input[pos] != ':' {
        return None;
      }
      ghost var t := Rest();
      pos := pos + 1;
      assert t[1..] == Rest();
      var v := ParseValue();
      if v.None? {
        return None;
      }
      m := Some((key.value, v.value));
    }

    method ParseObject() returns (r: Option<JsonValue>)
      requires Valid() && pos < |input| && input[pos] == '{'
      modifies this
      ensures Valid() && pos >= old(pos) && Reads(r, Json.ParseObject(stod, old(Rest())))
      decreases |input| - pos, 3
    {
      hide SkipSpace, ParseMembers;
      ghost var whole := Json.ParseObject(stod, Rest());
      pos := pos + 1;
      assert old(Rest())[1..] == Rest();
      SkipWhitespace();
      if pos < |input| && input[pos] == '}' {
        pos := pos + 1;
        return Some(JObject([]));
      }
      r := ParseMemberList(whole);
    }

    method ParseMemberList(ghost whole: Parse<JsonValue>) returns (r: Option<JsonValue>)
      requires Valid() && ParseMembers(stod, Rest(), []) == whole
      modifies this
      ensures Valid() && pos >= old(pos) && Reads(r, whole)
      decreases |input| - pos, 6
    {
      hide SkipSpace, ParseMembers;
      var members: seq<(string, JsonValue)> := [];
      EmptyFails(stod);
      while pos < |input|
        invariant old(pos) <= pos <= |input|
        invariant ParseMembers(stod, Rest(), members) == whole
        invariant pos == |input| ==> whole.Fail?
        decreases |input| - pos
      {
        var m := ParseMember();
        if m.None? {
          return None;
        }
        members := members + [m.value];
        ghost var t := SkipSpace(Rest());
        SkipWhitespace();
        if pos >= |input| {
          return None;
        }
        pos := pos + 1;
        assert t[1..] == Rest();
        if input[pos - 1] == '}' {
          return Some(JObject(members));
        }
        if input[pos - 1] != ',' {
          return None;
        }
      }
      r := None;
    }

    method ParseArray() returns (r: Option<JsonValue>)
      requires Valid() && pos < |input| && input[pos] == '['
      modifies this
      ensures Valid() && pos >= old(pos) && Reads(r, Json.ParseArray(stod, old(Rest())))
      decreases |input| - pos, 3
    {
      hide SkipSpace, ParseItems;
      ghost var whole := Json.ParseArray(stod, Rest());
      pos := pos + 1;
      assert old(Rest())[1..] == Rest();
      SkipWhitespace();
      if pos < |input| && input[pos] == ']' {
        pos := pos + 1;
        return Some(JArray([]));
      }
      r := ParseItemList(whole);
    }

    method ParseItemList(ghost whole: Parse<JsonValue>) returns (r: Option<JsonValue>)
      requires Valid() && ParseItems(stod, Rest(), []) == whole
      modifies this
      ensures Valid() && pos >= old(pos) && Reads(r, whole)
      decreases |input| - pos, 6
    {
      hide SkipSpace, Json.ParseValue;
      var items: seq<JsonValue> := [];
      EmptyFails(stod);
      while pos < |input|
        invariant old(pos) <= pos <= |input|
        invariant ParseItems(stod, Rest(), items) == whole
        decreases |input| - pos
      {
        var v := ParseValue();
        if v.None? {
          return None;
        }
        items := items + [v.value];
        assert ItemsTail(stod, Rest(), items) == whole;
        ghost var t := SkipSpace(Rest());
        SkipWhitespace();
        if pos >= |input| {
          return None;
        }
        pos := pos + 1;
        assert t[1..] == Rest();
        if input[pos - 1] == ']' {
          return Some(JArray(items));
        }
        if input[pos - 1] != ',' {
          return None;
        }
      }
      r := None;
    }

    method Parse() returns (r: Option<JsonValue>)
      requires Valid() && pos == 0
      modifies this
      ensures r == ParseJson(stod, input)
    {
      hide Json.ParseValue;
      EmptyFails(stod);
      SkippedValue(stod, input);
      SkipWhitespace();
      if pos >= |input| {
        return None;
      }
      r := ParseValue();
      SkipWhitespace();
      if pos != |input| {
        return None;
      }
    }
  }
}
