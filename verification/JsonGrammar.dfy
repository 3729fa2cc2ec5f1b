/** The texts that the parser accepts, as a grammar of their own: it reads exactly those, with exactly these values. */
module JsonGrammar {
  import opened Common
  import opened Json
  import opened JsonLaws

  // ---------- Strings ----------

  // A character that stands for itself, a backslash and one other than u, or a backslash, a u and four digits.
  datatype Piece = Plainly(c: char) | Escape(c: char) | Unicode(digits: string)

  predicate IsPiece(p: Piece) {
    match p
    case Plainly(c) => c != '"' && c != '\\'
    case Escape(c) => c != 'u'
    case Unicode(digits) => |digits| == 4 && forall i | 0 <= i < 4 :: HexValue(digits[i]).Some?
  }

  predicate ArePieces(ps: seq<Piece>) {
    forall i | 0 <= i < |ps| :: IsPiece(ps[i])
  }

  function PieceText(p: Piece): string {
    match p
    case Plainly(c) => [c]
    case Escape(c) => ['\\', c]
    case Unicode(digits) => ['\\', 'u'] + digits
  }

  function PieceValue(p: Piece): string
    requires IsPiece(p)
  {
    match p
    case Plainly(c) => [c]
    case Escape(c) =>
      if c == 'b' then [8 as char] else if c == 'f' then [12 as char] else if c == 'n' then [10 as char]
      else if c == 'r' then [13 as char] else if c == 't' then [9 as char] else [c]
    case Unicode(digits) => Utf8(CodePoint(digits))
  }

  function CodePoint(digits: string): (n: nat)
    requires IsPiece(Unicode(digits))
    ensures n <= 0xFFFF
  {
    HexDigitBound(digits[0]);
    HexDigitBound(digits[1]);
    HexDigitBound(digits[2]);
    HexDigitBound(digits[3]);
    ((HexValue(digits[0]).value * 16 + HexValue(digits[1]).value) * 16 + HexValue(digits[2]).value) * 16
    + HexValue(digits[3]).value
  }

  lemma HexDigitBound(c: char)
    ensures HexValue(c).Some? ==> HexValue(c).value < 16
  {
  }

  function PiecesText(ps: seq<Piece>): string {
    if ps == [] then "" else PieceText(ps[0]) + PiecesText(ps[1..])
  }

  function PiecesValue(ps: seq<Piece>): string
    requires ArePieces(ps)
  {
    if ps == [] then "" else PieceValue(ps[0]) + PiecesValue(ps[1..])
  }

  // The first piece of a string body that goes on.
  lemma PieceReads(p: Piece, k: string, acc: string)
    requires IsPiece(p)
    ensures StringBody(PieceText(p) + k, acc) == StringBody(k, acc + PieceValue(p))
  {
    var r := PieceText(p) + k;
    match p {
      case Plainly(c) =>
        assert r[1..] == k;
      case Escape(c) =>
        ShortEscapeReads(c, k, acc);
      case Unicode(digits) =>
        hide Utf8, HexValue;
        HexDigitBound(digits[0]);
        HexDigitBound(digits[1]);
        HexDigitBound(digits[2]);
        HexDigitBound(digits[3]);
        assert r == "\\u" + digits + k;
        UnicodeEscapeReads(HexValue(digits[0]).value, HexValue(digits[1]).value, HexValue(digits[2]).value,
                           HexValue(digits[3]).value, digits, k, acc);
    }
  }

  lemma {:induction false} BodyComplete(ps: seq<Piece>, k: string, acc: string)
    requires ArePieces(ps)
    ensures StringBody(PiecesText(ps) + ("\"" + k), acc) == Got(acc + PiecesValue(ps), k)
    decreases |ps|
  {
    if ps == [] {
      assert PiecesText(ps) + ("\"" + k) == "\"" + k;
      assert ("\"" + k)[1..] == k && acc + "" == acc;
    } else {
      var (p, more) := (ps[0], ps[1..]);
      hide *;
      assert ps == [p] + more;
      FirstThenMore(p, more, acc, "\"" + k);
      PieceReads(p, PiecesText(more) + ("\"" + k), acc);
      BodyComplete(more, k, acc + PieceValue(p));
    }
  }

  lemma FirstPiece(r: string, acc: string) returns (p: Piece, k: string)
    requires StringBody(r, acc).Got? && r[0] != '"'
    ensures IsPiece(p) && r == PieceText(p) + k && |k| < |r|
  {
    hide Utf8, HexValue;
    if r[0] != '\\' {
      p, k := Plainly(r[0]), r[1..];
    } else if r[1] != 'u' {
      p, k := Escape(r[1]), r[2..];
    } else {
      p, k := Unicode(r[2..6]), r[6..];
      assert HexValue(r[2]).Some? && HexValue(r[3]).Some? && HexValue(r[4]).Some? && HexValue(r[5]).Some?;
    }
  }

  lemma {:induction false} BodySound(r: string, acc: string) returns (ps: seq<Piece>)
    requires StringBody(r, acc).Got?
    ensures ArePieces(ps) && r == PiecesText(ps) + ("\"" + StringBody(r, acc).rest)
    ensures StringBody(r, acc).value == acc + PiecesValue(ps)
    decreases |r|
  {
    if r[0] == '"' {
      ps := [];
      assert r == "\"" + r[1..];
    } else {
      var p, k := FirstPiece(r, acc);
      hide *;
      PieceReads(p, k, acc);
      var more := BodySound(k, acc + PieceValue(p));
      ps := [p] + more;
      FirstThenMore(p, more, acc, "\"" + StringBody(r, acc).rest);
    }
  }

  lemma FirstThenMore(p: Piece, more: seq<Piece>, acc: string, k: string)
    requires IsPiece(p) && ArePieces(more)
    ensures ArePieces([p] + more) && PieceText(p) + (PiecesText(more) + k) == PiecesText([p] + more) + k
    ensures acc + PieceValue(p) + PiecesValue(more) == acc + PiecesValue([p] + more)
  {
    hide PieceText, PieceValue, IsPiece;
    assert ([p] + more)[1..] == more;
  }

  function StringText(ps: seq<Piece>): string {
    "\"" + PiecesText(ps) + "\""
  }

  lemma StringComplete(ps: seq<Piece>, k: string)
    requires ArePieces(ps)
    ensures ParseString(StringText(ps) + k) == Got(PiecesValue(ps), k)
  {
    var r := StringText(ps) + k;
    assert r[1..] == PiecesText(ps) + ("\"" + k);
    BodyComplete(ps, k, "");
    assert "" + PiecesValue(ps) == PiecesValue(ps);
  }

  lemma StringSound(r: string) returns (ps: seq<Piece>)
    requires ParseString(r).Got?
    ensures ArePieces(ps) && r == StringText(ps) + ParseString(r).rest && ParseString(r).value == PiecesValue(ps)
  {
    ps := BodySound(r[1..], "");
    assert "" + PiecesValue(ps) == PiecesValue(ps);
    assert r == "\"" + r[1..];
  }

  // ---------- Numbers ----------

  predicate AllDigits(s: string) {
    forall i | 0 <= i < |s| :: '0' <= s[i] <= '9'
  }

  // A sign, digits, a fraction and an exponent, each of which may be missing, but for a first sign or digit.
  datatype Lexeme = Lexeme(minus: string, digits: string, fraction: string, exponent: string)

  predicate IsFraction(s: string) {
    s == "" || (s[0] == '.' && AllDigits(s[1..]))
  }

  predicate IsExponent(s: string) {
    || s == ""
    || ((s[0] == 'e' || s[0] == 'E')
        && (AllDigits(s[1..]) || (|s| > 1 && (s[1] == '+' || s[1] == '-') && AllDigits(s[2..]))))
  }

  predicate IsLexeme(n: Lexeme) {
    && (n.minus == "" || n.minus == "-") && AllDigits(n.digits) && IsFraction(n.fraction) && IsExponent(n.exponent)
    && n.minus + n.digits != ""
  }

  function LexemeText(n: Lexeme): string {
    n.minus + n.digits + n.fraction + n.exponent
  }

  // Nothing that could belong to a number comes next.
  predicate Stops(k: string) {
    k == "" || !('0' <= k[0] <= '9' || k[0] == '.' || k[0] == 'e' || k[0] == 'E' || k[0] == '+' || k[0] == '-')
  }

  lemma {:induction false} DigitsSound(r: string) returns (d: string)
    ensures AllDigits(d) && r == d + SkipDigits(r)
  {
    if r != "" && IsDigit(r[0]) {
      var more := DigitsSound(r[1..]);
      d := [r[0]] + more;
      assert r == [r[0]] + r[1..];
    } else {
      d := "";
    }
  }

  lemma DigitsComplete(d: string, k: string)
    requires AllDigits(d) && (k == "" || !IsDigit(k[0]))
    ensures SkipDigits(d + k) == k
  {
    SkipAllDigits(d, k);
  }

  lemma FractionSound(r: string) returns (f: string)
    ensures IsFraction(f) && r == f + SkipFraction(r)
  {
    f := "";
    if Starts(r, '.') {
      var d := DigitsSound(r[1..]);
      f := "." + d;
      assert f[1..] == d && r == "." + r[1..];
    }
  }

  lemma FractionComplete(f: string, k: string)
    requires IsFraction(f) && (k == "" || !(IsDigit(k[0]) || k[0] == '.'))
    ensures SkipFraction(f + k) == k
  {
    if f != "" {
      assert (f + k)[1..] == f[1..] + k;
      DigitsComplete(f[1..], k);
    } else {
      assert f + k == k;
    }
  }

  lemma ExponentSound(r: string) returns (e: string)
    ensures IsExponent(e) && r == e + SkipExponent(r)
  {
    hide SkipDigits;
    e := "";
    if Starts(r, 'e') || Starts(r, 'E') {
      var signed := Starts(r[1..], '+') || Starts(r[1..], '-');
      var head := if signed then r[..2] else r[..1];
      var d := DigitsSound(if signed then r[2..] else r[1..]);
      e := head + d;
      assert e[|head|..] == d && r == head + (d + SkipExponent(r));
    }
  }

  lemma ExponentComplete(e: string, k: string)
    requires IsExponent(e) && Stops(k)
    ensures SkipExponent(e + k) == k
  {
    if e == "" {
      assert e + k == k;
    } else {
      var t := (e + k)[1..];
      assert t == e[1..] + k;
      if AllDigits(e[1..]) {
        assert t != "" ==> t[0] == (if e[1..] != "" then e[1] else k[0]);
        DigitsComplete(e[1..], k);
      } else {
        assert t[0] == e[1] && (e + k)[2..] == e[2..] + k;
        DigitsComplete(e[2..], k);
      }
    }
  }

  lemma LexemeSound(r: string) returns (n: Lexeme)
    requires r != "" && (r[0] == '-' || IsDigit(r[0]))
    ensures IsLexeme(n) && r == LexemeText(n) + SkipNumber(r)
  {
    var minus := if Starts(r, '-') then "-" else "";
    var a := if Starts(r, '-') then r[1..] else r;
    DigitFirst(a);
    hide SkipDigits, SkipFraction, SkipExponent, IsFraction, IsExponent, AllDigits;
    var d := DigitsSound(a);
    var b := SkipDigits(a);
    var f := FractionSound(b);
    var c := SkipFraction(b);
    var e := ExponentSound(c);
    var k := SkipExponent(c);
    assert k == SkipNumber(r);
    n := Lexeme(minus, d, f, e);
    Regrouped(minus, d, f, e, k);
    assert r == minus + a;
  }

  lemma Regrouped(minus: string, d: string, f: string, e: string, k: string)
    ensures minus + (d + (f + (e + k))) == minus + d + f + e + k
  {
  }

  lemma DigitFirst(a: string)
    ensures a != "" && IsDigit(a[0]) ==> |SkipDigits(a)| < |a|
  {
  }

  lemma LexemeComplete(n: Lexeme, k: string)
    requires IsLexeme(n) && Stops(k)
    ensures var r := LexemeText(n) + k;
      r != "" && (r[0] == '-' || IsDigit(r[0])) && SkipNumber(r) == k
  {
    hide SkipDigits, SkipFraction, SkipExponent;
    var c := n.exponent + k;
    var b := n.fraction + c;
    var a := n.digits + b;
    var r := LexemeText(n) + k;
    assert r == n.minus + a;
    assert c != "" ==> c[0] == (if n.exponent != "" then n.exponent[0] else k[0]);
    assert b != "" ==> b[0] == (if n.fraction != "" then n.fraction[0] else c[0]);
    DigitsComplete(n.digits, b);
    FractionComplete(n.fraction, c);
    ExponentComplete(n.exponent, k);
    if n.minus == "" {
      assert r == a && r[0] == n.digits[0];
    } else {
      assert r[1..] == a;
    }
  }

  // ---------- Values ----------

  // A value; an item is one with the space around it, and a member one behind a key with its own.
  datatype Tree =
    | Word(word: string)
    | Number(lexeme: Lexeme)
    | Text(pieces: seq<Piece>)
    | Items(space: string, items: seq<Item>)
    | Members(space: string, members: seq<Member>)

  datatype Item = Item(before: string, tree: Tree, after: string)

  datatype Member = Member(before: string, key: seq<Piece>, gap: string, item: Item)

  predicate IsTree(stod: Stod, t: Tree) {
    match t
    case Word(word) => word == "true" || word == "false" || word == "null"
    case Number(n) => IsLexeme(n) && stod(LexemeText(n)).Some?
    case Text(pieces) => ArePieces(pieces)
    case Items(space, items) => AllSpace(space) && AreItems(stod, items)
    case Members(space, members) => AllSpace(space) && AreMembers(stod, members)
  }

  predicate IsSpaced(i: Item) {
    AllSpace(i.before) && AllSpace(i.after)
  }

  predicate AreItems(stod: Stod, items: seq<Item>) {
    items == [] || (IsSpaced(items[0]) && IsTree(stod, items[0].tree) && AreItems(stod, items[1..]))
  }

  predicate IsKeyed(m: Member) {
    AllSpace(m.before) && ArePieces(m.key) && AllSpace(m.gap) && IsSpaced(m.item)
  }

  predicate AreMembers(stod: Stod, members: seq<Member>) {
    members == [] || (IsKeyed(members[0]) && IsTree(stod, members[0].item.tree) && AreMembers(stod, members[1..]))
  }

  function TreeText(t: Tree): string {
    match t
    case Word(word) => word
    case Number(n) => LexemeText(n)
    case Text(pieces) => StringText(pieces)
    case Items(space, items) => "[" + (if items == [] then space else ItemsText(items)) + "]"
    case Members(space, members) => "{" + (if members == [] then space else MembersText(members)) + "}"
  }

  function Spaced(i: Item, text: string): string {
    i.before + text + i.after
  }

  // Items with commas between them, none before the first or after the last.
  function ItemsText(items: seq<Item>): string
    requires items != []
  {
    Spaced(items[0], TreeText(items[0].tree)) + if |items| == 1 then "" else "," + ItemsText(items[1..])
  }

  function KeyText(m: Member): string {
    m.before + StringText(m.key) + m.gap + ":"
  }

  function MembersText(members: seq<Member>): string
    requires members != []
  {
    KeyText(members[0]) + Spaced(members[0].item, TreeText(members[0].item.tree))
    + if |members| == 1 then "" else "," + MembersText(members[1..])
  }

  function TreeValue(stod: Stod, t: Tree): JsonValue
    requires IsTree(stod, t)
  {
    match t
    case Word(word) => if word == "null" then JNull else JBool(word == "true")
    case Number(n) => JNumber(stod(LexemeText(n)).value)
    case Text(pieces) => JString(PiecesValue(pieces))
    case Items(_, items) => JArray(ItemsValue(stod, items))
    case Members(_, members) => JObject(MembersValue(stod, members))
  }

  function ItemsValue(stod: Stod, items: seq<Item>): seq<JsonValue>
    requires AreItems(stod, items)
  {
    if items == [] then [] else [TreeValue(stod, items[0].tree)] + ItemsValue(stod, items[1..])
  }

  function MembersValue(stod: Stod, members: seq<Member>): seq<(string, JsonValue)>
    requires AreMembers(stod, members)
  {
    if members == [] then []
    else [(PiecesValue(members[0].key), TreeValue(stod, members[0].item.tree))] + MembersValue(stod, members[1..])
  }

  // ---------- What is read is a tree ----------

  lemma {:induction false} ValueSound(stod: Stod, r: string) returns (w: string, t: Tree)
    requires ParseValue(stod, r).Got?
    ensures AllSpace(w) && IsTree(stod, t) && r == w + (TreeText(t) + ParseValue(stod, r).rest)
    ensures ParseValue(stod, r).value == TreeValue(stod, t)
    decreases |r|, 4
  {
    hide SkipSpace, ParseString, ParseObject, ParseArray, ParseNumber, AllSpace, IsTree, TreeText, TreeValue;
    var u := SkipSpace(r);
    SkippedIsSpace(r);
    w := r[..|r| - |u|];
    if u[0] == '"' {
      t := TextSound(stod, u);
    } else if u[0] == '{' {
      t := ObjectSound(stod, u);
    } else if u[0] == '[' {
      t := ArraySound(stod, u);
    } else if u[0] == '-' || IsDigit(u[0]) {
      t := NumberSound(stod, u);
    } else {
      var word := if u[0] == 't' then "true" else if u[0] == 'f' then "false" else "null";
      t := WordSound(stod, u, word);
    }
  }

  lemma TextSound(stod: Stod, r: string) returns (t: Tree)
    requires ParseString(r).Got?
    ensures IsTree(stod, t) && r == TreeText(t) + ParseString(r).rest
    ensures JString(ParseString(r).value) == TreeValue(stod, t)
  {
    hide ParseString, StringText, PiecesValue, ArePieces;
    var ps := StringSound(r);
    t := Text(ps);
  }

  lemma WordSound(stod: Stod, r: string, word: string) returns (t: Tree)
    requires (word == "true" || word == "false" || word == "null") && word <= r
    ensures IsTree(stod, t) && TreeValue(stod, t) == if word == "null" then JNull else JBool(word == "true")
    ensures r == TreeText(t) + r[|word|..]
  {
    t := Word(word);
    assert r == word + r[|word|..];
  }

  lemma NumberSound(stod: Stod, r: string) returns (t: Tree)
    requires r != "" && (r[0] == '-' || IsDigit(r[0])) && ParseNumber(stod, r).Got?
    ensures IsTree(stod, t) && r == TreeText(t) + ParseNumber(stod, r).rest
    ensures ParseNumber(stod, r).value == TreeValue(stod, t)
  {
    hide SkipNumber, IsLexeme, LexemeText;
    var n := LexemeSound(r);
    t := Number(n);
    assert r[..|r| - |SkipNumber(r)|] == LexemeText(n);
  }

  lemma {:induction false} ArraySound(stod: Stod, r: string) returns (t: Tree)
    requires Starts(r, '[') && ParseArray(stod, r).Got?
    ensures IsTree(stod, t) && r == TreeText(t) + ParseArray(stod, r).rest
    ensures ParseArray(stod, r).value == TreeValue(stod, t)
    decreases |r|, 3
  {
    var u := SkipSpace(r[1..]);
    SkippedIsSpace(r[1..]);
    var w := r[1..][..|r[1..]| - |u|];
    var rest := ParseArray(stod, r).rest;
    if Starts(u, ']') {
      assert ParseArray(stod, r) == Got(JArray([]), u[1..]);
      hide *;
      t := EmptyArray(stod, w, u);
      Bracketed(r, '[', w, ']', rest);
    } else {
      assert ParseArray(stod, r) == ParseItems(stod, u, []);
      hide *;
      SpaceBeforeItems(stod, w, u, []);
      var items := ItemsSound(stod, r[1..], []);
      t := ArrayOf(stod, items);
      Bracketed(r, '[', ItemsText(items), ']', rest);
    }
  }

  lemma EmptyArray(stod: Stod, w: string, u: string) returns (t: Tree)
    requires AllSpace(w) && Starts(u, ']')
    ensures IsTree(stod, t) && TreeText(t) == "[" + w + "]" && TreeValue(stod, t) == JArray([])
    ensures u == "]" + u[1..]
  {
    t := Items(w, []);
  }

  lemma ArrayOf(stod: Stod, items: seq<Item>) returns (t: Tree)
    requires items != [] && AreItems(stod, items)
    ensures IsTree(stod, t) && TreeText(t) == "[" + ItemsText(items) + "]"
    ensures TreeValue(stod, t) == JArray([] + ItemsValue(stod, items))
  {
    hide AreItems, ItemsText, ItemsValue;
    t := Items("", items);
    assert [] + ItemsValue(stod, items) == ItemsValue(stod, items);
  }

  lemma Bracketed(r: string, open: char, inner: string, close: char, rest: string)
    requires r != "" && r[0] == open && r[1..] == inner + ([close] + rest)
    ensures r == [open] + inner + [close] + rest
  {
    assert r == [open] + r[1..];
  }

  lemma {:induction false} ItemsSound(stod: Stod, r: string, acc: seq<JsonValue>) returns (items: seq<Item>)
    requires ParseItems(stod, r, acc).Got?
    ensures items != [] && AreItems(stod, items) && r == ItemsText(items) + ("]" + ParseItems(stod, r, acc).rest)
    ensures ParseItems(stod, r, acc).value == JArray(acc + ItemsValue(stod, items))
    decreases |r|, 5
  {
    var v, u := FirstItemRead(stod, r, acc);
    var rest := ParseItems(stod, r, acc).rest;
    hide *;
    var w, t := ValueSound(stod, r);
    var i := ItemOf(w, t, v.rest, u);
    var text := TreeText(t);
    if Starts(u, ']') {
      items := [i];
      FirstItem(stod, i, [], acc);
      LastItem(stod, i, u);
    } else {
      var more := ItemsSound(stod, u[1..], acc + [v.value]);
      items := [i] + more;
      FirstItem(stod, i, more, acc);
      NextItem(u, Spaced(i, text), ItemsText(more), "]", rest);
    }
  }

  // The first item is read up to the comma or bracket after it.
  lemma FirstItemRead(stod: Stod, r: string, acc: seq<JsonValue>) returns (v: Parse<JsonValue>, u: string)
    requires ParseItems(stod, r, acc).Got?
    ensures v == ParseValue(stod, r) && v.Got? && u == SkipSpace(v.rest) && |u| < |r|
    ensures Starts(u, ']') || Starts(u, ',')
    ensures ParseItems(stod, r, acc)
         == if Starts(u, ']') then Got(JArray(acc + [v.value]), u[1..])
            else ParseItems(stod, u[1..], acc + [v.value])
  {
    hide SkipSpace, ParseValue;
    v := ParseValue(stod, r);
    u := SkipSpace(v.rest);
  }

  lemma ItemOf(w: string, t: Tree, rest: string, u: string) returns (i: Item)
    requires AllSpace(w) && u == SkipSpace(rest)
    ensures IsSpaced(i) && i.tree == t && w + (TreeText(t) + rest) == Spaced(i, TreeText(t)) + u
  {
    hide AllSpace, TreeText;
    SkippedIsSpace(rest);
    i := Item(w, t, rest[..|rest| - |u|]);
  }

  lemma LastItem(stod: Stod, i: Item, u: string)
    requires IsSpaced(i) && IsTree(stod, i.tree) && Starts(u, ']')
    ensures ItemsText([i]) + ("]" + u[1..]) == Spaced(i, TreeText(i.tree)) + u
  {
    hide IsTree, TreeText, IsSpaced, Spaced;
    assert u == "]" + u[1..];
  }

  lemma NextItem(u: string, first: string, more: string, close: string, rest: string)
    requires Starts(u, ',') && u[1..] == more + (close + rest)
    ensures first + u == first + ("," + more) + (close + rest)
  {
    assert u == "," + u[1..];
  }

  lemma FirstItem(stod: Stod, i: Item, more: seq<Item>, acc: seq<JsonValue>)
    requires IsSpaced(i) && IsTree(stod, i.tree) && AreItems(stod, more)
    ensures AreItems(stod, [i] + more)
    ensures ItemsText([i] + more) == Spaced(i, TreeText(i.tree)) + if more == [] then "" else "," + ItemsText(more)
    ensures acc + ItemsValue(stod, [i] + more) == acc + [TreeValue(stod, i.tree)] + ItemsValue(stod, more)
  {
    hide IsTree, TreeText, TreeValue, Spaced;
    assert ([i] + more)[1..] == more;
  }

  lemma {:induction false} ObjectSound(stod: Stod, r: string) returns (t: Tree)
    requires Starts(r, '{') && ParseObject(stod, r).Got?
    ensures IsTree(stod, t) && r == TreeText(t) + ParseObject(stod, r).rest
    ensures ParseObject(stod, r).value == TreeValue(stod, t)
    decreases |r|, 3
  {
    var u := SkipSpace(r[1..]);
    SkippedIsSpace(r[1..]);
    var w := r[1..][..|r[1..]| - |u|];
    var rest := ParseObject(stod, r).rest;
    if Starts(u, '}') {
      assert ParseObject(stod, r) == Got(JObject([]), u[1..]);
      hide *;
      t := EmptyObject(stod, w, u);
      Bracketed(r, '{', w, '}', rest);
    } else {
      assert ParseObject(stod, r) == ParseMembers(stod, u, []);
      hide *;
      SpaceBeforeMembers(stod, w, u, []);
      var members := MembersSound(stod, r[1..], []);
      t := ObjectOf(stod, members);
      Bracketed(r, '{', MembersText(members), '}', rest);
    }
  }

  lemma EmptyObject(stod: Stod, w: string, u: string) returns (t: Tree)
    requires AllSpace(w) && Starts(u, '}')
    ensures IsTree(stod, t) && TreeText(t) == "{" + w + "}" && TreeValue(stod, t) == JObject([])
    ensures u == "}" + u[1..]
  {
    t := Members(w, []);
  }

  lemma ObjectOf(stod: Stod, members: seq<Member>) returns (t: Tree)
    requires members != [] && AreMembers(stod, members)
    ensures IsTree(stod, t) && TreeText(t) == "{" + MembersText(members) + "}"
    ensures TreeValue(stod, t) == JObject([] + MembersValue(stod, members))
  {
    hide AreMembers, MembersText, MembersValue;
    t := Members("", members);
    assert [] + MembersValue(stod, members) == MembersValue(stod, members);
  }

  lemma {:induction false} MembersSound(stod: Stod, r: string, acc: seq<(string, JsonValue)>)
    returns (members: seq<Member>)
    requires ParseMembers(stod, r, acc).Got?
    ensures members != [] && AreMembers(stod, members)
    ensures r == MembersText(members) + ("}" + ParseMembers(stod, r, acc).rest)
    ensures ParseMembers(stod, r, acc).value == JObject(acc + MembersValue(stod, members))
    decreases |r|, 2
  {
    var v, u := FirstMemberRead(stod, r, acc);
    var rest := ParseMembers(stod, r, acc).rest;
    hide *;
    var m := MemberSound(stod, r, v, u);
    var pair := (PiecesValue(m.key), v.value);
    if Starts(u, '}') {
      members := [m];
      FirstMember(stod, m, [], acc);
      LastMember(stod, m, acc, u);
    } else {
      var more := MembersSound(stod, u[1..], acc + [pair]);
      members := [m] + more;
      FirstMember(stod, m, more, acc);
      NextItem(u, KeyText(m) + Spaced(m.item, TreeText(m.item.tree)), MembersText(more), "}", rest);
    }
  }

  lemma {:induction false} MemberSound(stod: Stod, r: string, v: Parse<JsonValue>, u: string) returns (m: Member)
    requires var key := ParseString(SkipSpace(r));
      && key.Got? && Starts(SkipSpace(key.rest), ':') && v == ParseValue(stod, SkipSpace(key.rest)[1..]) && v.Got?
      && u == SkipSpace(v.rest)
    ensures IsKeyed(m) && IsTree(stod, m.item.tree)
    ensures ParseString(SkipSpace(r)).value == PiecesValue(m.key) && v.value == TreeValue(stod, m.item.tree)
    ensures r == KeyText(m) + Spaced(m.item, TreeText(m.item.tree)) + u
    decreases |r|, 1
  {
    hide SkipSpace, ParseString, ParseValue, AllSpace, IsTree, TreeText, TreeValue, ArePieces, PiecesValue,
         StringText, Spaced, IsSpaced;
    var name, key, gap := KeySound(r);
    var inner := SkipSpace(ParseString(SkipSpace(r)).rest)[1..];
    var w, t := ValueSound(stod, inner);
    var i := ItemOf(w, t, v.rest, u);
    m := Member(name, key, gap, i);
    assert r == KeyText(m) + inner;
  }

  lemma LastMember(stod: Stod, m: Member, acc: seq<(string, JsonValue)>, u: string)
    requires IsKeyed(m) && IsTree(stod, m.item.tree) && Starts(u, '}')
    ensures MembersText([m]) + ("}" + u[1..]) == KeyText(m) + Spaced(m.item, TreeText(m.item.tree)) + u
  {
    hide IsTree, TreeText, TreeValue, KeyText, Spaced, IsKeyed;
    assert u == "}" + u[1..];
  }

  // The first member is read up to the comma or brace after it.
  lemma FirstMemberRead(stod: Stod, r: string, acc: seq<(string, JsonValue)>)
    returns (v: Parse<JsonValue>, u: string)
    requires ParseMembers(stod, r, acc).Got?
    ensures var key := ParseString(SkipSpace(r));
      && key.Got? && Starts(SkipSpace(key.rest), ':') && v == ParseValue(stod, SkipSpace(key.rest)[1..]) && v.Got?
      && u == SkipSpace(v.rest) && (Starts(u, '}') || Starts(u, ',')) && |u| < |r|
      && ParseMembers(stod, r, acc)
      == if Starts(u, '}') then Got(JObject(acc + [(key.value, v.value)]), u[1..])
         else ParseMembers(stod, u[1..], acc + [(key.value, v.value)])
  {
    hide SkipSpace, ParseString, ParseValue;
    var key := ParseString(SkipSpace(r));
    v := ParseValue(stod, SkipSpace(key.rest)[1..]);
    u := SkipSpace(v.rest);
  }

  // The key of a member up to its colon.
  lemma KeySound(r: string) returns (before: string, key: seq<Piece>, gap: string)
    requires var k := ParseString(SkipSpace(r)); k.Got? && Starts(SkipSpace(k.rest), ':')
    ensures AllSpace(before) && ArePieces(key) && AllSpace(gap)
    ensures var k := ParseString(SkipSpace(r));
      k.value == PiecesValue(key) && r == before + StringText(key) + gap + ":" + SkipSpace(k.rest)[1..]
  {
    hide SkipSpace, ParseString, AllSpace, ArePieces, PiecesValue, StringText;
    var s := SkipSpace(r);
    SkippedIsSpace(r);
    before := r[..|r| - |s|];
    key := StringSound(s);
    var k := ParseString(s);
    var t := SkipSpace(k.rest);
    SkippedIsSpace(k.rest);
    gap := k.rest[..|k.rest| - |t|];
    assert t == ":" + t[1..];
  }

  lemma FirstMember(stod: Stod, m: Member, more: seq<Member>, acc: seq<(string, JsonValue)>)
    requires IsKeyed(m) && IsTree(stod, m.item.tree) && AreMembers(stod, more)
    ensures AreMembers(stod, [m] + more)
    ensures MembersText([m] + more)
         == KeyText(m) + Spaced(m.item, TreeText(m.item.tree)) + if more == [] then "" else "," + MembersText(more)
    ensures acc + MembersValue(stod, [m] + more)
         == acc + [(PiecesValue(m.key), TreeValue(stod, m.item.tree))] + MembersValue(stod, more)
  {
    hide IsTree, TreeText, TreeValue, Spaced, KeyText, PiecesValue;
    assert ([m] + more)[1..] == more;
  }

  // ---------- A tree is read ----------

  lemma {:induction false} ValueComplete(stod: Stod, t: Tree, k: string)
    requires IsTree(stod, t) && (t.Number? ==> Stops(k))
    ensures ParseValue(stod, TreeText(t) + k) == Got(TreeValue(stod, t), k)
    decreases t, 2
  {
    match t {
      case Word(word) =>
        WordComplete(stod, word, k);
      case Number(n) =>
        NumberComplete(stod, n, k);
      case Text(pieces) =>
        hide ParseString, ParseObject, ParseArray, ParseNumber, ArePieces, PiecesValue;
        StringComplete(pieces, k);
        assert (TreeText(t) + k)[0] == '"';
      case Items(_, _) =>
        ArrayComplete(stod, t, k);
      case Members(_, _) =>
        ObjectComplete(stod, t, k);
    }
  }

  lemma WordComplete(stod: Stod, word: string, k: string)
    requires word == "true" || word == "false" || word == "null"
    ensures ParseValue(stod, word + k) == Got(if word == "null" then JNull else JBool(word == "true"), k)
  {
    hide ParseString, ParseObject, ParseArray, ParseNumber;
    var r := word + k;
    assert word <= r && r[|word|..] == k;
  }

  lemma {:induction false} ArrayComplete(stod: Stod, t: Tree, k: string)
    requires t.Items? && AllSpace(t.space) && AreItems(stod, t.items)
    ensures ParseValue(stod, TreeText(t) + k) == Got(JArray(ItemsValue(stod, t.items)), k)
    decreases t, 1
  {
    hide ParseArray, ParseItems, AllSpace, AreItems, ItemsText;
    var (space, items) := (t.space, t.items);
    if items == [] {
      EmptyArrayReads(stod, space, k);
    } else {
      hide ItemsValue;
      var inner := ItemsText(items) + ("]" + k);
      ItemsComplete(stod, items, k, []);
      ArrayOpens(stod, inner);
      ArrayRead(stod, inner);
      assert TreeText(t) + k == "[" + inner;
      assert [] + ItemsValue(stod, items) == ItemsValue(stod, items);
    }
  }

  lemma ArrayRead(stod: Stod, inner: string)
    ensures ParseValue(stod, "[" + inner) == ParseArray(stod, "[" + inner)
  {
    hide ParseArray;
  }

  lemma EmptyArrayReads(stod: Stod, space: string, k: string)
    requires AllSpace(space)
    ensures ParseValue(stod, "[" + space + "]" + k) == Got(JArray([]), k)
  {
    hide ParseItems, AllSpace;
    var r := "[" + space + "]" + k;
    assert r[1..] == space + ("]" + k);
    SkipAllSpace(space, "]" + k);
    assert ("]" + k)[1..] == k;
  }

  lemma {:induction false} ObjectComplete(stod: Stod, t: Tree, k: string)
    requires t.Members? && AllSpace(t.space) && AreMembers(stod, t.members)
    ensures ParseValue(stod, TreeText(t) + k) == Got(JObject(MembersValue(stod, t.members)), k)
    decreases t, 1
  {
    hide ParseObject, ParseMembers, AllSpace, AreMembers, MembersText;
    var (space, members) := (t.space, t.members);
    if members == [] {
      EmptyObjectReads(stod, space, k);
    } else {
      hide MembersValue;
      var inner := MembersText(members) + ("}" + k);
      MembersComplete(stod, members, k, []);
      ObjectOpens(stod, inner);
      ObjectRead(stod, inner);
      assert TreeText(t) + k == "{" + inner;
      assert [] + MembersValue(stod, members) == MembersValue(stod, members);
    }
  }

  lemma ObjectRead(stod: Stod, inner: string)
    ensures ParseValue(stod, "{" + inner) == ParseObject(stod, "{" + inner)
  {
    hide ParseObject;
  }

  lemma EmptyObjectReads(stod: Stod, space: string, k: string)
    requires AllSpace(space)
    ensures ParseValue(stod, "{" + space + "}" + k) == Got(JObject([]), k)
  {
    hide ParseMembers, AllSpace;
    var r := "{" + space + "}" + k;
    assert r[1..] == space + ("}" + k);
    SkipAllSpace(space, "}" + k);
    assert ("}" + k)[1..] == k;
  }

  lemma NumberComplete(stod: Stod, n: Lexeme, k: string)
    requires IsTree(stod, Number(n)) && Stops(k)
    ensures ParseValue(stod, LexemeText(n) + k) == Got(TreeValue(stod, Number(n)), k)
  {
    hide SkipNumber, IsLexeme, LexemeText, ParseString, ParseObject, ParseArray;
    var r := LexemeText(n) + k;
    LexemeComplete(n, k);
    assert r[..|r| - |k|] == LexemeText(n);
    assert SkipSpace(r) == r;
  }

  lemma ArrayOpens(stod: Stod, inner: string)
    requires ParseItems(stod, inner, []).Got?
    ensures ParseArray(stod, "[" + inner) == ParseItems(stod, inner, [])
  {
    hide ParseItems, SkipSpace, AllSpace;
    SkippedIsSpace(inner);
    var u := SkipSpace(inner);
    SpaceBeforeItems(stod, inner[..|inner| - |u|], u, []);
    assert ("[" + inner)[1..] == inner;
    NoItems(stod, u);
  }

  lemma NoItems(stod: Stod, u: string)
    ensures ParseItems(stod, u, []).Got? ==> !Starts(u, ']')
  {
    hide ItemsTail, ParseObject, ParseArray, ParseNumber;
    assert Starts(u, ']') ==> ParseValue(stod, u).Fail?;
  }

  lemma ObjectOpens(stod: Stod, inner: string)
    requires ParseMembers(stod, inner, []).Got?
    ensures ParseObject(stod, "{" + inner) == ParseMembers(stod, inner, [])
  {
    hide ParseMembers, SkipSpace, AllSpace;
    SkippedIsSpace(inner);
    var u := SkipSpace(inner);
    SpaceBeforeMembers(stod, inner[..|inner| - |u|], u, []);
    assert ("{" + inner)[1..] == inner;
    NoMembers(stod, u);
  }

  lemma NoMembers(stod: Stod, u: string)
    ensures ParseMembers(stod, u, []).Got? ==> !Starts(u, '}')
  {
    hide ParseValue, MembersTail;
  }

  // The value of an item, in front of the comma or bracket that ends it.
  lemma {:induction false} SpacedComplete(stod: Stod, i: Item, c: char, k: string)
    requires IsSpaced(i) && IsTree(stod, i.tree) && (c == ',' || c == ']' || c == '}')
    ensures var p := ParseValue(stod, Spaced(i, TreeText(i.tree)) + ([c] + k));
      p.Got? && p.value == TreeValue(stod, i.tree) && SkipSpace(p.rest) == [c] + k
    decreases i, 2
  {
    hide IsTree, TreeText, TreeValue, ParseValue, AllSpace;
    var rest := i.after + ([c] + k);
    StopsAtSpace(i.after, c, k);
    ValueComplete(stod, i.tree, rest);
    assert Spaced(i, TreeText(i.tree)) + ([c] + k) == i.before + (TreeText(i.tree) + rest);
    SpaceBeforeValue(stod, i.before, TreeText(i.tree) + rest);
    SkipAllSpace(i.after, [c] + k);
  }

  lemma StopsAtSpace(w: string, c: char, k: string)
    requires AllSpace(w) && (c == ',' || c == ']' || c == '}')
    ensures Stops(w + ([c] + k)) && SkipSpace([c] + k) == [c] + k
  {
    assert (w + ([c] + k))[0] == if w == "" then c else w[0];
  }

  lemma {:induction false} ItemsComplete(stod: Stod, items: seq<Item>, k: string, acc: seq<JsonValue>)
    requires items != [] && AreItems(stod, items)
    ensures ParseItems(stod, ItemsText(items) + ("]" + k), acc) == Got(JArray(acc + ItemsValue(stod, items)), k)
    decreases items
  {
    hide IsTree, TreeText, TreeValue, ParseValue, SkipSpace, Spaced, IsSpaced;
    var (i, more) := (items[0], items[1..]);
    assert items == [i] + more;
    FirstItem(stod, i, more, acc);
    var c := if more == [] then ']' else ',';
    var rest := if more == [] then k else ItemsText(more) + ("]" + k);
    SpacedComplete(stod, i, c, rest);
    assert ItemsText(items) + ("]" + k) == Spaced(i, TreeText(i.tree)) + ([c] + rest);
    assert ([c] + rest)[1..] == rest;
    if more == [] {
      assert acc + [TreeValue(stod, i.tree)] + ItemsValue(stod, []) == acc + [TreeValue(stod, i.tree)];
    } else {
      ItemsComplete(stod, more, k, acc + [TreeValue(stod, i.tree)]);
    }
  }

  lemma {:induction false} MembersComplete(stod: Stod, members: seq<Member>, k: string,
                                           acc: seq<(string, JsonValue)>)
    requires members != [] && AreMembers(stod, members)
    ensures ParseMembers(stod, MembersText(members) + ("}" + k), acc)
         == Got(JObject(acc + MembersValue(stod, members)), k)
    decreases members
  {
    hide IsTree, TreeText, TreeValue, ParseValue, ParseString, SkipSpace, Spaced, IsSpaced, KeyText, PiecesValue,
         ArePieces, AllSpace;
    var (m, more) := (members[0], members[1..]);
    assert members == [m] + more;
    FirstMember(stod, m, more, acc);
    var c := if more == [] then '}' else ',';
    var rest := if more == [] then k else MembersText(more) + ("}" + k);
    var item := Spaced(m.item, TreeText(m.item.tree)) + ([c] + rest);
    SpacedComplete(stod, m.item, c, rest);
    assert MembersText(members) + ("}" + k) == KeyText(m) + item;
    KeyComplete(m, item);
    assert ([c] + rest)[1..] == rest;
    var pair := (PiecesValue(m.key), TreeValue(stod, m.item.tree));
    if more == [] {
      assert acc + [pair] + MembersValue(stod, []) == acc + [pair];
    } else {
      MembersComplete(stod, more, k, acc + [pair]);
    }
  }

  lemma KeyComplete(m: Member, k: string)
    requires IsKeyed(m)
    ensures var p := ParseString(SkipSpace(KeyText(m) + k));
      p.Got? && p.value == PiecesValue(m.key) && SkipSpace(p.rest) == ":" + k
  {
    hide ParseString, AllSpace, ArePieces, PiecesValue, PiecesText, IsSpaced;
    var rest := m.gap + (":" + k);
    var r := StringText(m.key) + rest;
    assert KeyText(m) + k == m.before + r;
    SkipAllSpace(m.before, r);
    assert SkipSpace(r) == r;
    StringComplete(m.key, rest);
    SkipAllSpace(m.gap, ":" + k);
  }

  // ---------- The texts that are read ----------

  // A text is read as a value exactly when it is a tree of that value with space around it.
  lemma ReadExactly(stod: Stod, text: string, v: JsonValue)
    ensures ParseJson(stod, text) == Some(v) <==> exists i: Item :: IsDocument(stod, i, text, v)
  {
    hide IsTree, TreeText, TreeValue, ParseValue, AllSpace;
    if ParseJson(stod, text) == Some(v) {
      var w, t := ValueSound(stod, text);
      var rest := ParseValue(stod, text).rest;
      SkippedIsSpace(rest);
      assert rest[..|rest| - 0] == rest;
      assert IsDocument(stod, Item(w, t, rest), text, v);
    }
    if i: Item :| IsDocument(stod, i, text, v) {
      SpaceStops(i.after);
      ValueComplete(stod, i.tree, i.after);
      assert text == i.before + (TreeText(i.tree) + i.after);
      SpaceBeforeValue(stod, i.before, TreeText(i.tree) + i.after);
      SkipAllSpace(i.after, "");
      assert i.after + "" == i.after && SkipSpace("") == "";
    }
  }

  ghost predicate IsDocument(stod: Stod, i: Item, text: string, v: JsonValue) {
    IsSpaced(i) && IsTree(stod, i.tree) && text == Spaced(i, TreeText(i.tree)) && v == TreeValue(stod, i.tree)
  }

  lemma SpaceStops(w: string)
    requires AllSpace(w)
    ensures Stops(w)
  {
  }
}
