/** Laws of the parser: escaped strings read back, leading space is skipped, and what has
    been parsed does not change when more input follows. */
module JsonLaws {
  import opened Common
  import opened Json

  // ---------- Escaping reads back ----------

  lemma HexDigitValue(d: nat)
    requires d < 16
    ensures HexValue(HexDigit(d)) == Some(d)
  {
  }

  // One escaped character is read as itself, whatever follows.
  lemma EscapedCharReads(c: char, k: string, acc: string)
    ensures StringBody(EscapedChar(c) + k, acc) == StringBody(k, acc + [c])
  {
    var e := EscapedChar(c);
    var r := e + k;
    if |e| == 1 {
      assert r[1..] == k;
    } else if |e| == 2 {
      assert r[2..] == k;
    } else {
      HexDigitValue(c as int / 16);
      HexDigitValue(c as int % 16);
      assert r[6..] == k;
      assert HexValue4(r[2], r[3], r[4], r[5]) == Some(c as int);
    }
  }

  lemma {:induction false} EscapedReads(s: string, k: string, acc: string)
    ensures StringBody(Escaped(s) + ("\"" + k), acc) == Got(acc + s, k)
    decreases |s|
  {
    if s == "" {
      assert Escaped(s) + ("\"" + k) == "\"" + k;
      assert ("\"" + k)[1..] == k;
      assert acc + s == acc;
    } else {
      hide EscapedChar, StringBody;
      assert Escaped(s) + ("\"" + k) == EscapedChar(s[0]) + (Escaped(s[1..]) + ("\"" + k));
      EscapedCharReads(s[0], Escaped(s[1..]) + ("\"" + k), acc);
      EscapedReads(s[1..], k, acc + [s[0]]);
      assert acc + [s[0]] + s[1..] == acc + s;
    }
  }

  // Every string, of any characters, is what its quoted form is read as.
  lemma QuoteReads(s: string, k: string)
    ensures ParseString(Quote(s) + k) == Got(s, k)
  {
    assert (Quote(s) + k)[1..] == Escaped(s) + ("\"" + k);
    EscapedReads(s, k, "");
    assert "" + s == s;
  }

  lemma QuoteValue(stod: Stod, s: string, k: string)
    ensures ParseValue(stod, Quote(s) + k) == Got(JString(s), k)
  {
    QuoteReads(s, k);
    var r := Quote(s) + k;
    assert r[0] == '"';
    assert SkipSpace(r) == r;
  }

  // Keys of the documents need no escaping.
  predicate Plain(s: string) {
    forall i | 0 <= i < |s| :: s[i] >= ' ' && s[i] != '"' && s[i] != '\\'
  }

  lemma {:induction false} PlainEscaped(s: string)
    requires Plain(s)
    ensures Escaped(s) == s
  {
    if s != "" {
      PlainEscaped(s[1..]);
      assert EscapedChar(s[0]) == [s[0]];
      assert [s[0]] + s[1..] == s;
    }
  }

  // ---------- Space ----------

  predicate AllSpace(w: string) {
    forall i | 0 <= i < |w| :: w[i] == ' ' || w[i] == '\t' || w[i] == '\n' || w[i] == '\r'
  }

  lemma {:induction false} SkipAllSpace(w: string, k: string)
    requires AllSpace(w)
    ensures SkipSpace(w + k) == SkipSpace(k)
  {
    if w == "" {
      assert w + k == k;
    } else {
      assert (w + k)[1..] == w[1..] + k;
      SkipAllSpace(w[1..], k);
    }
  }

  lemma SpaceBeforeValue(stod: Stod, w: string, k: string)
    requires AllSpace(w)
    ensures ParseValue(stod, w + k) == ParseValue(stod, k)
  {
    hide SkipSpace, ParseString, ParseObject, ParseArray, ParseNumber, ParseWord, AllSpace;
    SkipAllSpace(w, k);
  }

  lemma SpaceBeforeMembers(stod: Stod, w: string, k: string, acc: seq<(string, JsonValue)>)
    requires AllSpace(w)
    ensures ParseMembers(stod, w + k, acc) == ParseMembers(stod, k, acc)
  {
    hide SkipSpace, ParseString, ParseValue, MembersTail, AllSpace;
    SkipAllSpace(w, k);
  }

  lemma SpaceBeforeItems(stod: Stod, w: string, k: string, acc: seq<JsonValue>)
    requires AllSpace(w)
    ensures ParseItems(stod, w + k, acc) == ParseItems(stod, k, acc)
  {
    hide ParseValue, ItemsTail, AllSpace;
    SpaceBeforeValue(stod, w, k);
  }

  // What SkipSpace skips is space.
  lemma {:induction false} SkippedIsSpace(r: string)
    ensures var w := r[..|r| - |SkipSpace(r)|]; AllSpace(w) && r == w + SkipSpace(r)
  {
    if r != "" && IsSpace(r[0]) {
      SkippedIsSpace(r[1..]);
      var n := |r| - |SkipSpace(r)|;
      assert r[..n] == [r[0]] + r[1..][..n - 1];
    }
  }

  // ---------- More input ----------

  lemma SpaceExtends(r: string, q: string)
    ensures SkipSpace(r) != "" ==> SkipSpace(r + q) == SkipSpace(r) + q
  {
    SkippedIsSpace(r);
    var t := SkipSpace(r);
    var w := r[..|r| - |t|];
    assert r + q == w + (t + q);
    SkipAllSpace(w, t + q);
    if t != "" {
      assert (t + q)[0] == t[0];
    }
  }

  lemma {:induction false} StringBodyExtends(r: string, acc: string, q: string)
    requires StringBody(r, acc).Got?
    ensures StringBody(r + q, acc) == Got(StringBody(r, acc).value, StringBody(r, acc).rest + q)
    decreases |r|
  {
    var x := r + q;
    assert x[0] == r[0];
    if r[0] == '"' {
      assert x[1..] == r[1..] + q;
    } else if r[0] != '\\' {
      assert x[1..] == r[1..] + q;
      StringBodyExtends(r[1..], acc + [r[0]], q);
    } else if r[1] != 'u' {
      assert x[2..] == r[2..] + q;
      StringBodyExtends(r[2..], acc + [Unescaped(r[1])], q);
    } else {
      assert x[6..] == r[6..] + q;
      var codepoint := HexValue4(r[2], r[3], r[4], r[5]);
      StringBodyExtends(r[6..], acc + Utf8(codepoint.value), q);
    }
  }

  lemma StringExtends(r: string, q: string)
    requires ParseString(r).Got?
    ensures ParseString(r + q) == Got(ParseString(r).value, ParseString(r).rest + q)
  {
    assert (r + q)[1..] == r[1..] + q;
    StringBodyExtends(r[1..], "", q);
  }

  lemma {:induction false} DigitsExtend(r: string, q: string)
    requires SkipDigits(r) != ""
    ensures SkipDigits(r + q) == SkipDigits(r) + q
  {
    assert (r + q)[0] == r[0];
    if IsDigit(r[0]) {
      assert (r + q)[1..] == r[1..] + q;
      DigitsExtend(r[1..], q);
    }
  }

  lemma FractionExtends(r: string, q: string)
    requires SkipFraction(r) != ""
    ensures SkipFraction(r + q) == SkipFraction(r) + q
  {
    hide SkipDigits;
    assert (r + q)[0] == r[0];
    if Starts(r, '.') {
      assert (r + q)[1..] == r[1..] + q;
      DigitsExtend(r[1..], q);
    }
  }

  lemma ExponentExtends(r: string, q: string)
    requires SkipExponent(r) != ""
    ensures SkipExponent(r + q) == SkipExponent(r) + q
  {
    hide SkipDigits;
    assert (r + q)[0] == r[0];
    if Starts(r, 'e') || Starts(r, 'E') {
      var t := r[1..];
      assert (r + q)[1..] == t + q;
      assert t != "";
      assert (t + q)[0] == t[0];
      if Starts(t, '+') || Starts(t, '-') {
        assert (r + q)[2..] == r[2..] + q;
        DigitsExtend(r[2..], q);
      } else {
        DigitsExtend(t, q);
      }
    }
  }

  lemma NumberExtends(r: string, q: string)
    requires SkipNumber(r) != ""
    ensures SkipNumber(r + q) == SkipNumber(r) + q
  {
    hide SkipDigits, SkipFraction, SkipExponent;
    var a := if Starts(r, '-') then r[1..] else r;
    assert r != "" && (r + q)[0] == r[0];
    assert (if Starts(r + q, '-') then (r + q)[1..] else r + q) == a + q;
    var b := SkipDigits(a);
    assert b != "";
    DigitsExtend(a, q);
    var c := SkipFraction(b);
    assert c != "";
    FractionExtends(b, q);
    ExponentExtends(c, q);
  }

  // A number that was not cut off, and any other value: these are final.
  predicate Final(p: Parse<JsonValue>) {
    p.Got? && (p.value.JNumber? ==> p.rest != "")
  }

  function Extended(p: Parse<JsonValue>, q: string): Parse<JsonValue> {
    if p.Fail? then Fail else Got(p.value, p.rest + q)
  }

  // A final value stays the same, and ends at the same place, when more input follows.
  lemma {:induction false} ValueExtends(stod: Stod, r: string, q: string)
    requires Final(ParseValue(stod, r))
    ensures ParseValue(stod, r + q) == Extended(ParseValue(stod, r), q)
    decreases |r|, 4
  {
    hide SkipSpace, ParseString, ParseObject, ParseArray, ParseNumber, ParseWord;
    var t := SkipSpace(r);
    SpaceExtends(r, q);
    var x := t + q;
    assert x[0] == t[0] && SkipSpace(r + q) == x;
    if t[0] == '"' {
      StringExtends(t, q);
    } else if t[0] == '{' {
      ObjectExtends(stod, t, q);
    } else if t[0] == '[' {
      ArrayExtends(stod, t, q);
    } else if t[0] == 't' {
      WordExtends(t, "true", JBool(true), q);
    } else if t[0] == 'f' {
      WordExtends(t, "false", JBool(false), q);
    } else if t[0] == 'n' {
      WordExtends(t, "null", JNull, q);
    } else {
      NumberValueExtends(stod, t, q);
    }
  }

  lemma NumberValueExtends(stod: Stod, r: string, q: string)
    requires r != "" && (r[0] == '-' || IsDigit(r[0])) && Final(ParseNumber(stod, r))
    ensures (r + q)[0] == r[0] && ParseNumber(stod, r + q) == Extended(ParseNumber(stod, r), q)
  {
    hide SkipNumber;
    var t := SkipNumber(r);
    NumberExtends(r, q);
    assert (r + q)[..|r + q| - |t + q|] == r[..|r| - |t|];
  }

  lemma WordExtends(r: string, word: string, v: JsonValue, q: string)
    requires word != "" && ParseWord(r, word, v).Got?
    ensures ParseWord(r + q, word, v) == Extended(ParseWord(r, word, v), q)
  {
    assert (r + q)[|word|..] == r[|word|..] + q;
    assert word <= r + q;
  }

  lemma {:induction false} ObjectExtends(stod: Stod, r: string, q: string)
    requires Starts(r, '{') && ParseObject(stod, r).Got?
    ensures ParseObject(stod, r + q) == Extended(ParseObject(stod, r), q)
    decreases |r|, 3
  {
    hide SkipSpace, ParseMembers;
    var t := SkipSpace(r[1..]);
    assert (r + q)[1..] == r[1..] + q;
    SpaceExtends(r[1..], q);
    if Starts(t, '}') {
      assert (t + q)[1..] == t[1..] + q;
    } else {
      assert t != "" by { EmptyMembers(stod); }
      assert (t + q)[0] == t[0];
      MembersExtend(stod, t, q, []);
    }
  }

  lemma EmptyMembers(stod: Stod)
    ensures ParseMembers(stod, "", []).Fail? && ParseItems(stod, "", []).Fail?
  {
  }

  lemma {:induction false} MembersExtend(stod: Stod, r: string, q: string, acc: seq<(string, JsonValue)>)
    requires ParseMembers(stod, r, acc).Got?
    ensures ParseMembers(stod, r + q, acc) == Extended(ParseMembers(stod, r, acc), q)
    decreases |r|, 2
  {
    hide SkipSpace, ParseString, ParseValue, MembersTail;
    SpaceExtends(r, q);
    var key := ParseString(SkipSpace(r));
    StringExtends(SkipSpace(r), q);
    SpaceExtends(key.rest, q);
    var t := SkipSpace(key.rest);
    assert (t + q)[1..] == t[1..] + q;
    var v := ParseValue(stod, t[1..]);
    MembersTailNonEmpty(stod, v.rest, acc + [(key.value, v.value)]);
    ValueExtends(stod, t[1..], q);
    MembersTailExtends(stod, v.rest, q, acc + [(key.value, v.value)]);
  }

  lemma MembersTailNonEmpty(stod: Stod, r: string, acc: seq<(string, JsonValue)>)
    ensures MembersTail(stod, r, acc).Got? ==> r != ""
  {
  }

  lemma {:induction false} MembersTailExtends(stod: Stod, r: string, q: string, acc: seq<(string, JsonValue)>)
    requires MembersTail(stod, r, acc).Got?
    ensures MembersTail(stod, r + q, acc) == Extended(MembersTail(stod, r, acc), q)
    decreases |r|, 1
  {
    hide SkipSpace, ParseMembers;
    SpaceExtends(r, q);
    var t := SkipSpace(r);
    assert (t + q)[0] == t[0] && (t + q)[1..] == t[1..] + q;
    if !Starts(t, '}') {
      MembersExtend(stod, t[1..], q, acc);
    }
  }

  lemma {:induction false} ArrayExtends(stod: Stod, r: string, q: string)
    requires Starts(r, '[') && ParseArray(stod, r).Got?
    ensures ParseArray(stod, r + q) == Extended(ParseArray(stod, r), q)
    decreases |r|, 3
  {
    hide SkipSpace, ParseItems;
    var t := SkipSpace(r[1..]);
    assert (r + q)[1..] == r[1..] + q;
    SpaceExtends(r[1..], q);
    if Starts(t, ']') {
      assert (t + q)[1..] == t[1..] + q;
    } else {
      assert t != "" by { EmptyMembers(stod); }
      assert (t + q)[0] == t[0];
      ItemsExtend(stod, t, q, []);
    }
  }

  lemma {:induction false} ItemsExtend(stod: Stod, r: string, q: string, acc: seq<JsonValue>)
    requires ParseItems(stod, r, acc).Got?
    ensures ParseItems(stod, r + q, acc) == Extended(ParseItems(stod, r, acc), q)
    decreases |r|, 5
  {
    hide ParseValue, ItemsTail;
    var v := ParseValue(stod, r);
    ItemsTailNonEmpty(stod, v.rest, acc + [v.value]);
    ValueExtends(stod, r, q);
    ItemsTailExtends(stod, v.rest, q, acc + [v.value]);
  }

  lemma ItemsTailNonEmpty(stod: Stod, r: string, acc: seq<JsonValue>)
    ensures ItemsTail(stod, r, acc).Got? ==> r != ""
  {
  }

  lemma {:induction false} ItemsTailExtends(stod: Stod, r: string, q: string, acc: seq<JsonValue>)
    requires ItemsTail(stod, r, acc).Got?
    ensures ItemsTail(stod, r + q, acc) == Extended(ItemsTail(stod, r, acc), q)
    decreases |r|, 1
  {
    hide SkipSpace, ParseItems;
    SpaceExtends(r, q);
    var t := SkipSpace(r);
    assert (t + q)[0] == t[0] && (t + q)[1..] == t[1..] + q;
    if !Starts(t, ']') {
      ItemsExtend(stod, t[1..], q, acc);
    }
  }

  // ---------- Decimal numbers ----------

  lemma {:induction false} SkipAllDigits(s: string, k: string)
    requires forall i | 0 <= i < |s| :: IsDigit(s[i])
    ensures SkipDigits(s + k) == SkipDigits(k)
  {
    if s == "" {
      assert s + k == k;
    } else {
      assert (s + k)[1..] == s[1..] + k;
      SkipAllDigits(s[1..], k);
    }
  }

  // A decimal counter before a comma is one lexeme: std::stod alone decides whether and as what it is read.
  lemma DecimalValueReads(stod: Stod, n: nat, k: string)
    requires Starts(k, ',')
    ensures var number := stod(Decimal(n));
      ParseValue(stod, Decimal(n) + k) == if number.None? then Fail else Got(JNumber(number.value), k)
  {
    hide Decimal, SkipNumber;
    var s := Decimal(n);
    var r := s + k;
    assert r[0] == s[0] && IsDigit(r[0]);
    assert SkipSpace(r) == r;
    DigitsOnly(s, k);
    assert r[..|r| - |k|] == s;
    assert ParseValue(stod, r) == ParseNumber(stod, r);
  }

  lemma DigitsOnly(s: string, k: string)
    requires s != "" && (forall i | 0 <= i < |s| :: IsDigit(s[i])) && Starts(k, ',')
    ensures SkipNumber(s + k) == k
  {
    assert (s + k)[0] == s[0];
    SkipAllDigits(s, k);
  }

  // ---------- Escapes the writer does not use ----------

  // The code point that UTF-8 bytes of at most three stand for.
  function Utf8Value(bytes: string): Option<nat> {
    if |bytes| == 1 && bytes[0] < 0x80 as char then Some(bytes[0] as nat)
    else if |bytes| == 2 && 0xC0 as char <= bytes[0] < 0xE0 as char && IsContinuation(bytes[1]) then
      Some((bytes[0] as nat - 0xC0) * 0x40 + (bytes[1] as nat - 0x80))
    else if |bytes| == 3 && 0xE0 as char <= bytes[0] < 0xF0 as char && IsContinuation(bytes[1])
            && IsContinuation(bytes[2]) then
      Some((bytes[0] as nat - 0xE0) * 0x1000 + (bytes[1] as nat - 0x80) * 0x40 + (bytes[2] as nat - 0x80))
    else None
  }

  predicate IsContinuation(c: char) {
    0x80 as char <= c < 0xC0 as char
  }

  // The bytes of a code point read back as it, and there are no more of them than it needs.
  lemma Utf8Reads(codepoint: nat)
    requires codepoint <= 0xFFFF
    ensures Utf8Value(Utf8(codepoint)) == Some(codepoint)
    ensures |Utf8(codepoint)| == if codepoint < 0x80 then 1 else if codepoint < 0x800 then 2 else 3
  {
  }

  // A hexadecimal digit is worth its place, in either case, and nothing else is one.
  lemma HexDigitsInAnyCase(c: char, v: nat)
    ensures HexValue(c) == Some(v) <==> v < 16 && (c == "0123456789abcdef"[v] || c == "0123456789ABCDEF"[v])
  {
  }

  // Four such digits after a backslash and a u are read as the bytes of the number they spell.
  lemma UnicodeEscapeReads(w: nat, x: nat, y: nat, z: nat, digits: string, k: string, acc: string)
    requires w < 16 && x < 16 && y < 16 && z < 16 && |digits| == 4
    requires HexValue(digits[0]) == Some(w) && HexValue(digits[1]) == Some(x)
    requires HexValue(digits[2]) == Some(y) && HexValue(digits[3]) == Some(z)
    ensures var n := ((w * 16 + x) * 16 + y) * 16 + z;
      n <= 0xFFFF && StringBody("\\u" + digits + k, acc) == StringBody(k, acc + Utf8(n))
  {
    hide Utf8, HexValue;
    var r := "\\u" + digits + k;
    assert r[0] == '\\' && r[1] == 'u' && r[2..6] == digits && r[6..] == k;
    assert r[2] == digits[0] && r[3] == digits[1] && r[4] == digits[2] && r[5] == digits[3];
  }

  // Any other character after a backslash is read as the control character it names, or as itself.
  lemma ShortEscapeReads(c: char, k: string, acc: string)
    requires c != 'u'
    ensures var read := if c == 'b' then 8 as char else if c == 'f' then 12 as char else if c == 'n' then 10 as char
                        else if c == 'r' then 13 as char else if c == 't' then 9 as char else c;
      StringBody(['\\', c] + k, acc) == StringBody(k, acc + [read])
  {
    var r := ['\\', c] + k;
    assert r[2..] == k;
  }
}
