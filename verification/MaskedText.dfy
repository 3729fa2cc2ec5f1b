/** The query redacted character by character, and what user information that leaves in sight. */
module MaskedText {
  import opened NetworkTraces
  import opened RedactUrl
  import opened RedactionLaws

  // ---------- Redacting the query, character by character ----------

  // The second half of a redaction: the pairs of the query, each on its own.
  function Masked(t: string): string {
    Text(PairsRedacted(Parts(t)))
  }

  // After x comes more of the query.
  predicate InQuery(x: string) {
    var q := FirstOf(x, "?", 0);
    q < |x| && '#' !in x[q + 1..]
  }

  // The pair that is being written at the end of x.
  function PairAt(x: string): string
    requires InQuery(x)
  {
    LastPair(x[FirstOf(x, "?", 0) + 1..])
  }

  // The character c after x belongs to the value of a sensitive pair.
  predicate Hides(x: string, c: char) {
    InQuery(x) && c !in "&#" && IsSensitivePair(PairAt(x))
  }

  // The character c after x ends the key of a sensitive pair.
  predicate EndsSensitiveKey(x: string, c: char) {
    InQuery(x) && c == '=' && '=' !in PairAt(x) && IsSensitiveQueryKey(PairAt(x))
  }

  function Passed(x: string, c: char): string {
    if Hides(x, c) then "" else if EndsSensitiveKey(x, c) then "=" + REDACTED else [c]
  }

  lemma MaskedConcat(head: string, query: string, fragment: string)
    requires '?' !in head && '#' !in query && (fragment != "" ==> fragment[0] == '#')
    ensures Masked(head + ("?" + query) + fragment) == head + ("?" + RedactedQuery(query)) + fragment
  {
    hide Parts, Split, Join, RedactedPair;
    PartsOfConcat(head, query, fragment);
  }

  lemma MaskedHead(head: string)
    requires '?' !in head
    ensures Masked(head) == head
  {
    FirstOfIs(head, "?", 0, |head|);
    assert RedactedPairs([]) == [];
  }

  lemma {:induction false} JoinLast(pairs: seq<string>, p: string)
    ensures Join(pairs + [p]) == (if pairs == [] then "" else Join(pairs) + "&") + p
  {
    if pairs == [] {
      assert [] + [p] == [p];
    } else {
      JoinLast(pairs[1..], p);
      assert pairs + [p] == [pairs[0]] + (pairs[1..] + [p]);
      JoinCons(pairs[0], pairs[1..] + [p]);
      if |pairs| > 1 {
        assert pairs == [pairs[0]] + pairs[1..];
        JoinCons(pairs[0], pairs[1..]);
      }
    }
  }

  lemma SplitSnoc(query: string, c: char)
    ensures var pairs := Split(query); var n := |pairs| - 1;
      Split(query + [c]) == if c == '&' then pairs + [""] else pairs[..n] + [pairs[n] + [c]]
  {
    hide Split;
    SplitConcat(query, [c]);
    var pairs := Split(query);
    if c == '&' {
      SplitOfAmp();
      var n := |pairs| - 1;
      assert pairs[n] + "" == pairs[n] && ["", ""][1..] == [""] && [c] == "&";
      assert pairs[..n] + [pairs[n]] == pairs;
    } else {
      SplitAlone([c]);
    }
  }

  lemma SplitOfAmp()
    ensures Split("&") == ["", ""]
  {
    SplitAlone("");
    SplitCons("", "");
    assert "" + "&" + "" == "&";
  }

  lemma LastPairSnoc(query: string, c: char)
    ensures LastPair(query + [c]) == if c == '&' then "" else LastPair(query) + [c]
  {
    hide Split;
    SplitSnoc(query, c);
  }

  lemma RedactedPairSnoc(p: string, c: char)
    requires c != '&'
    ensures RedactedPair(p + [c])
         == if IsSensitivePair(p) then RedactedPair(p)
            else if c == '=' && '=' !in p && IsSensitiveQueryKey(p) then RedactedPair(p) + ("=" + REDACTED)
            else RedactedPair(p) + [c]
  {
    hide IsSensitiveQueryKey;
    if '=' in p {
      KeyOfExtended(p, [c]);
    } else if c == '=' {
      FirstOfIs(p + [c], "=", 0, |p|);
      assert (p + [c])[..|p|] == p;
      assert p + ("=" + REDACTED) == p + "=" + REDACTED;
    }
  }

  lemma RedactedQueryLast(query: string, pairs: seq<string>, p: string)
    requires Split(query) == pairs + [p]
    ensures RedactedQuery(query) == (if pairs == [] then "" else Join(RedactedPairs(pairs)) + "&") + RedactedPair(p)
  {
    hide RedactedPair, Split, Join;
    assert RedactedPairs(pairs + [p]) == RedactedPairs(pairs) + [RedactedPair(p)];
    JoinLast(RedactedPairs(pairs), RedactedPair(p));
  }

  lemma LastPairIs(query: string)
    ensures var pairs := Split(query); |pairs| >= 1 && pairs == pairs[..|pairs| - 1] + [LastPair(query)]
  {
    hide Split;
  }

  lemma RedactedQuerySnoc(query: string, c: char)
    ensures var p := LastPair(query);
      RedactedQuery(query + [c])
      == if c == '&' then RedactedQuery(query) + "&"
         else if IsSensitivePair(p) then RedactedQuery(query)
         else if c == '=' && '=' !in p && IsSensitiveQueryKey(p) then RedactedQuery(query) + ("=" + REDACTED)
         else RedactedQuery(query) + [c]
  {
    hide *;
    var pairs := Split(query);
    var n := |pairs| - 1;
    var p := LastPair(query);
    SplitSnoc(query, c);
    LastPairIs(query);
    RedactedQueryLast(query, pairs[..n], p);
    if c == '&' {
      RedactedQueryLast(query + [c], pairs, "");
      EmptyPair();
      RedactedQueryAll(query);
    } else {
      RedactedQueryLast(query + [c], pairs[..n], p + [c]);
      RedactedPairSnoc(p, c);
    }
  }

  lemma EmptyPair()
    ensures RedactedPair("") == "" && !IsSensitivePair("")
  {
  }

  lemma RedactedQueryAll(query: string)
    ensures RedactedQuery(query) == Join(RedactedPairs(Split(query)))
  {
  }

  lemma MaskedSnoc(x: string, c: char)
    ensures Masked(x + [c]) == Masked(x) + Passed(x, c)
  {
    hide Masked, RedactedQuery, IsSensitivePair, IsSensitiveQueryKey, LastPair;
    var q := FirstOf(x, "?", 0);
    if q == |x| {
      MaskedHeadSnoc(x, c);
    } else {
      var f := FirstOf(x, "#", q + 1);
      var head, query, fragment := x[..q], x[q + 1..f], x[f..];
      assert x == head + ("?" + query) + fragment;
      if f < |x| {
        assert x[q + 1..][f - q - 1] == '#';
        MaskedFragmentSnoc(head, query, fragment, c);
      } else {
        assert query == x[q + 1..] && fragment == "";
        MaskedInQuery(head, query, c);
        assert x + [c] == head + ("?" + query) + [c];
      }
    }
  }

  lemma MaskedHeadSnoc(x: string, c: char)
    requires '?' !in x
    ensures Masked(x + [c]) == Masked(x) + [c]
  {
    hide Masked;
    MaskedHead(x);
    if c == '?' {
      MaskedConcat(x, "", "");
      NoPairs();
      assert x + ("?" + "") + "" == x + [c];
    } else {
      MaskedHead(x + [c]);
    }
  }

  lemma MaskedFragmentSnoc(head: string, query: string, fragment: string, c: char)
    requires '?' !in head && '#' !in query && fragment != "" && fragment[0] == '#'
    ensures var x := head + ("?" + query) + fragment; Masked(x + [c]) == Masked(x) + [c]
  {
    hide Masked, RedactedQuery;
    MaskedConcat(head, query, fragment);
    MaskedConcat(head, query, fragment + [c]);
    var start := head + ("?" + query);
    assert start + fragment + [c] == start + (fragment + [c]);
    var masked := head + ("?" + RedactedQuery(query));
    assert masked + fragment + [c] == masked + (fragment + [c]);
  }

  lemma NoPairs()
    ensures RedactedQuery("") == ""
  {
    hide RedactedPair;
    SplitAlone("");
    EmptyPair();
    assert RedactedPairs([""]) == [""];
  }

  lemma MaskedInQuery(head: string, query: string, c: char)
    requires '?' !in head && '#' !in query
    ensures var p := LastPair(query);
      Masked(head + ("?" + query) + [c])
      == Masked(head + ("?" + query) + "")
         + (if c !in "&#" && IsSensitivePair(p) then ""
            else if c == '=' && '=' !in p && IsSensitiveQueryKey(p) then "=" + REDACTED else [c])
  {
    hide Masked, RedactedQuery, IsSensitivePair, IsSensitiveQueryKey, LastPair;
    MaskedConcat(head, query, "");
    var masked := head + ("?" + RedactedQuery(query));
    assert masked + "" == masked;
    if c == '#' {
      MaskedConcat(head, query, [c]);
    } else {
      MaskedConcat(head, query + [c], "");
      RedactedQuerySnoc(query, c);
      assert head + ("?" + (query + [c])) + "" == head + ("?" + query) + [c];
      assert forall s :: head + ("?" + (RedactedQuery(query) + s)) == masked + s;
    }
  }

  // ---------- Where each character goes ----------

  // The place of the i-th character in the masked text, or where it would be.
  function Image(t: string, i: nat): nat
    requires i <= |t|
  {
    |Masked(t[..i])|
  }

  predicate Survives(t: string, i: nat) {
    i < |t| && !Hides(t[..i], t[i])
  }

  lemma MaskedStep(t: string, i: nat)
    requires i < |t|
    ensures Masked(t[..i + 1]) == Masked(t[..i]) + Passed(t[..i], t[i])
  {
    hide Masked, Passed;
    MaskedSnoc(t[..i], t[i]);
    assert t[..i + 1] == t[..i] + [t[i]];
  }

  lemma {:induction false} MaskedGrows(t: string, i: nat, j: nat)
    requires i <= j <= |t|
    ensures Masked(t[..i]) <= Masked(t[..j]) && Image(t, i) <= Image(t, j)
    decreases j - i
  {
    hide Masked, Passed;
    if i < j {
      MaskedStep(t, j - 1);
      MaskedGrows(t, i, j - 1);
    }
  }

  lemma MaskedAll(t: string, i: nat)
    requires i <= |t|
    ensures Masked(t[..i]) <= Masked(t) && Image(t, i) <= |Masked(t)| && Image(t, |t|) == |Masked(t)|
  {
    hide Masked;
    MaskedGrows(t, i, |t|);
    assert t[..|t|] == t;
  }

  lemma ImageOfSurvivor(t: string, i: nat)
    requires Survives(t, i)
    ensures Image(t, i) < Image(t, i + 1) <= |Masked(t)| && Masked(t)[Image(t, i)] == t[i]
    ensures t[i] != '=' ==> Image(t, i + 1) == Image(t, i) + 1
  {
    hide Masked, Hides, EndsSensitiveKey;
    MaskedStep(t, i);
    MaskedAll(t, i + 1);
    SensitiveKeyEnd(t[..i], t[i]);
  }

  lemma SensitiveKeyEnd(x: string, c: char)
    ensures EndsSensitiveKey(x, c) ==> c == '='
  {
  }

  lemma ImageStrict(t: string, i: nat, j: nat)
    requires Survives(t, i) && i < j <= |t|
    ensures Image(t, i) < Image(t, j)
  {
    hide Masked, Survives;
    ImageOfSurvivor(t, i);
    MaskedGrows(t, i + 1, j);
  }

  lemma SameImage(t: string, i: nat, j: nat)
    requires Survives(t, i) && Survives(t, j) && Image(t, i) == Image(t, j)
    ensures i == j
  {
    hide Image, Hides;
    if i < j {
      ImageStrict(t, i, j);
    } else if j < i {
      ImageStrict(t, j, i);
    }
  }

  // Every place of the masked text up to the k-th image belongs to one character before k.
  lemma {:induction false} Origin(t: string, k: nat, p: nat) returns (i: nat)
    requires k <= |t| && p < Image(t, k)
    ensures i < k && Image(t, i) <= p < Image(t, i + 1)
    decreases k
  {
    hide Masked;
    NothingMasked(t);
    if p < Image(t, k - 1) {
      i := Origin(t, k - 1, p);
    } else {
      i := k - 1;
    }
  }

  lemma NothingMasked(t: string)
    ensures Image(t, 0) == 0
  {
    MaskedHead("");
    assert t[..0] == "";
  }

  lemma PassedAt(t: string, i: nat, p: nat)
    requires i < |t| && Image(t, i) <= p < Image(t, i + 1)
    ensures p < |Masked(t)|
    ensures var passed := Passed(t[..i], t[i]);
      p - Image(t, i) < |passed| && Masked(t)[p] == passed[p - Image(t, i)]
  {
    hide Masked, Passed;
    MaskedStep(t, i);
    MaskedAll(t, i + 1);
    assert Masked(t)[p] == Masked(t[..i + 1])[p];
  }

  // Characters that matter to the user information come from characters that survive.
  lemma SpecialOrigin(t: string, p: nat) returns (i: nat)
    requires p < |Masked(t)| && Masked(t)[p] in ":/?#@"
    ensures Survives(t, i) && Image(t, i) == p && t[i] == Masked(t)[p]
  {
    hide Masked, Image, Hides, EndsSensitiveKey;
    ImageOfAll(t);
    i := Origin(t, |t|, p);
    PassedAt(t, i, p);
    PlainRedacted();
  }

  lemma ImageOfAll(t: string)
    ensures Image(t, |t|) == |Masked(t)|
  {
    hide Masked;
    MaskedAll(t, |t|);
  }

  lemma PlainRedacted()
    ensures forall j | 0 <= j < |"=" + REDACTED| :: ("=" + REDACTED)[j] !in ":/?#@"
  {
  }

  lemma PairAtSnoc(x: string, c: char)
    requires InQuery(x + [c])
    ensures InQuery(x) ==> PairAt(x + [c]) == if c == '&' then "" else PairAt(x) + [c]
    ensures !InQuery(x) ==> c == '?' && PairAt(x + [c]) == ""
    ensures InQuery(x) ==> c != '#'
  {
    hide LastPair;
    var q := FirstOf(x, "?", 0);
    if q < |x| {
      FirstOfIs(x + [c], "?", 0, q);
      assert (x + [c])[q + 1..] == x[q + 1..] + [c];
      LastPairSnoc(x[q + 1..], c);
    } else {
      assert forall j | 0 <= j < |x| :: x[j] != '?' && (x + [c])[j] == x[j];
      assert c == '?';
      FirstOfIs(x + [c], "?", 0, |x|);
      assert (x + [c])[|x| + 1..] == "";
      EmptyLastPair();
    }
  }

  lemma EmptyLastPair()
    ensures LastPair("") == ""
  {
    SplitAlone("");
  }

  // Nothing is hidden right after a character that survives, unless that is the '=' of a sensitive pair.
  lemma HidesNext(x: string, c: char, d: char)
    requires !Hides(x, c) && c != '='
    ensures !Hides(x + [c], d)
  {
    hide InQuery, PairAt, IsSensitiveQueryKey;
    if InQuery(x + [c]) {
      PairAtSnoc(x, c);
      EmptyPair();
      if InQuery(x) && c != '&' {
        SensitiveSnoc(PairAt(x), c);
      }
    }
  }

  lemma SensitiveSnoc(p: string, c: char)
    requires c != '='
    ensures IsSensitivePair(p + [c]) <==> IsSensitivePair(p)
  {
    hide IsSensitiveQueryKey;
    if '=' in p {
      KeyOfExtended(p, [c]);
    }
  }

  lemma NextSurvives(t: string, i: nat)
    requires Survives(t, i) && t[i] != '='
    ensures Image(t, i + 1) == Image(t, i) + 1
    ensures i + 1 < |t| ==> Survives(t, i + 1)
  {
    hide Image, Hides;
    ImageOfSurvivor(t, i);
    if i + 1 < |t| {
      assert t[..i + 1] == t[..i] + [t[i]];
      HidesNext(t[..i], t[i], t[i + 1]);
    }
  }

  // A stretch without '=' that starts with a survivor is passed on as it is.
  lemma {:induction false} Straight(t: string, a: nat, b: nat)
    requires a <= b <= |t| && '=' !in t[a..b] && (a < |t| ==> Survives(t, a))
    ensures Image(t, b) == Image(t, a) + (b - a) <= |Masked(t)|
    ensures Masked(t)[Image(t, a)..Image(t, b)] == t[a..b]
    ensures b < |t| ==> Survives(t, b)
    decreases b - a
  {
    hide Image, Survives, Masked;
    if a < b {
      assert t[a..b] == t[a..b - 1] + [t[b - 1]];
      assert t[a..b][b - 1 - a] == t[b - 1];
      Straight(t, a, b - 1);
      ImageOfSurvivor(t, b - 1);
      NextSurvives(t, b - 1);
      assert Masked(t)[Image(t, a)..Image(t, b)] == Masked(t)[Image(t, a)..Image(t, b - 1)] + [t[b - 1]];
    } else {
      assert Masked(t)[Image(t, a)..Image(t, b)] == t[a..b] by { ImageInside(t, a); }
      ImageInside(t, a);
    }
  }

  lemma ImageInside(t: string, i: nat)
    requires i <= |t|
    ensures Image(t, i) <= |Masked(t)|
  {
    hide Masked;
    MaskedAll(t, i);
  }

  // ---------- What is left to find ----------

  // The first "://" that survives, or the length of the text.
  function VisibleMark(t: string, from: nat): (r: nat)
    requires from <= |t|
    ensures from <= r <= |t|
    ensures r < |t| ==> IsMark(t, r) && Survives(t, r)
    ensures forall j | from <= j < r :: !(IsMark(t, j) && Survives(t, j))
    decreases |t| - from
  {
    hide Survives, IsMark;
    if from == |t| || (IsMark(t, from) && Survives(t, from)) then from else VisibleMark(t, from + 1)
  }

  predicate EndsAuthority(c: char) {
    c in "/?#"
  }

  // The first '/', '?' or '#' from `from` on that survives, or the length of the text.
  function VisibleEnd(t: string, from: nat): (r: nat)
    requires from <= |t|
    ensures from <= r <= |t|
    ensures r < |t| ==> EndsAuthority(t[r]) && Survives(t, r)
    ensures forall j | from <= j < r :: !(EndsAuthority(t[j]) && Survives(t, j))
    decreases |t| - from
  {
    hide Survives, EndsAuthority;
    if from == |t| || (EndsAuthority(t[from]) && Survives(t, from)) then from else VisibleEnd(t, from + 1)
  }

  // In t[from..] no '@' survives before the '/', '?' or '#' that survives, ...
  predicate NoAtVisible(t: string, from: nat)
    requires from <= |t|
  {
    forall i | from <= i < VisibleEnd(t, from) && t[i] == '@' :: !Survives(t, i)
  }

  // ... or only one that ends "<redacted>".
  predicate AtVisibleRedacted(t: string, from: nat)
    requires from <= |t|
  {
    forall i | from <= i < VisibleEnd(t, from) && t[i] == '@' && Survives(t, i) :: t[from..i] == REDACTED
  }

  // After the first "://" that survives there is no user information but what is redacted already.
  predicate NothingShown(t: string) {
    var m := VisibleMark(t, 0);
    m < |t| ==> AtVisibleRedacted(t, m + 3)
  }

  lemma MarkImage(t: string, i: nat)
    requires IsMark(t, i) && Survives(t, i)
    ensures IsMark(Masked(t), Image(t, i)) && Image(t, i + 3) == Image(t, i) + 3
    ensures i + 3 < |t| ==> Survives(t, i + 3)
  {
    hide Masked, Image, Survives;
    NextSurvives(t, i);
    NextSurvives(t, i + 1);
    NextSurvives(t, i + 2);
    ImageOfSurvivor(t, i);
    ImageOfSurvivor(t, i + 1);
    ImageOfSurvivor(t, i + 2);
  }

  lemma FollowsImage(t: string, i: nat, j: nat)
    requires Survives(t, i) && t[i] != '=' && Survives(t, j) && Image(t, j) == Image(t, i) + 1
    ensures j == i + 1
  {
    hide Masked, Survives;
    SurvivorInside(t, i);
    SurvivorInside(t, j);
    NextSurvives(t, i);
    if j <= i {
      MaskedGrows(t, j, i);
    } else if i + 1 < |t| {
      SameImage(t, i + 1, j);
    }
  }

  lemma MarkOrigin(t: string, p: nat) returns (i: nat)
    requires IsMark(Masked(t), p)
    ensures IsMark(t, i) && Survives(t, i) && Image(t, i) == p
  {
    hide Masked, Image, Survives;
    i := SpecialOrigin(t, p);
    var j := SpecialOrigin(t, p + 1);
    var k := SpecialOrigin(t, p + 2);
    SurvivorInside(t, i);
    FollowsImage(t, i, j);
    FollowsImage(t, j, k);
    SurvivorInside(t, k);
  }

  lemma SurvivorInside(t: string, i: nat)
    requires Survives(t, i)
    ensures i < |t|
  {
  }

  lemma ImageOrder(t: string, i: nat, j: nat)
    requires i <= |t| && j <= |t| && Image(t, i) < Image(t, j)
    ensures i < j
  {
    hide Masked;
    if j <= i {
      MaskedGrows(t, j, i);
    }
  }

  lemma MaskedMark(t: string)
    ensures var m := VisibleMark(t, 0); FirstMark(Masked(t)) == Image(t, m)
    ensures VisibleMark(t, 0) == |t| ==> FirstMark(Masked(t)) == |Masked(t)|
    ensures VisibleMark(t, 0) < |t| ==> IsMark(Masked(t), Image(t, VisibleMark(t, 0)))
  {
    hide Masked, Image, Survives, IsMark, FirstMark;
    var m := VisibleMark(t, 0);
    ImageOfAll(t);
    ImageInside(t, m);
    if m < |t| {
      MarkImage(t, m);
    }
    forall p | 0 <= p < Image(t, m)
      ensures !IsMark(Masked(t), p)
    {
      if IsMark(Masked(t), p) {
        var i := MarkOrigin(t, p);
        SurvivorInside(t, i);
        ImageOrder(t, i, m);
      }
    }
    MarkIs(Masked(t), Image(t, m));
  }

  lemma MaskedEnd(t: string, from: nat)
    requires from <= |t|
    ensures Image(t, from) <= |Masked(t)|
    ensures FirstOf(Masked(t), "/?#", Image(t, from)) == Image(t, VisibleEnd(t, from))
  {
    hide Masked, Image, Survives;
    var end := VisibleEnd(t, from);
    ImageInside(t, from);
    ImageInside(t, end);
    ImageOfAll(t);
    Grows(t, from, end);
    if end < |t| {
      ImageOfSurvivor(t, end);
    }
    forall p | Image(t, from) <= p < Image(t, end)
      ensures Masked(t)[p] !in "/?#"
    {
      if Masked(t)[p] in "/?#" {
        var i := SpecialOrigin(t, p);
        SurvivorInside(t, i);
        ImageOrder(t, i, end);
        NotBefore(t, i, from);
      }
    }
    FirstOfIs(Masked(t), "/?#", Image(t, from), Image(t, end));
  }

  lemma Grows(t: string, i: nat, j: nat)
    requires i <= j <= |t|
    ensures Image(t, i) <= Image(t, j)
  {
    hide Masked;
    MaskedGrows(t, i, j);
  }

  // A survivor whose image is not before that of a place is not before it.
  lemma NotBefore(t: string, i: nat, from: nat)
    requires Survives(t, i) && from <= |t| && Image(t, from) <= Image(t, i)
    ensures from <= i
  {
    hide Survives, Image;
    if i < from {
      SurvivorInside(t, i);
      ImageStrict(t, i, from);
    }
  }

  // From the end of a mark to an '@' that survives, the masked text reads "<redacted>" exactly when the text does.
  lemma TextUpTo(t: string, a: nat, i: nat)
    requires a <= i && Survives(t, a) && Survives(t, i) && t[i] == '@'
    ensures Image(t, a) <= Image(t, i) <= |Masked(t)|
    ensures Masked(t)[Image(t, a)..Image(t, i)] == REDACTED <==> t[a..i] == REDACTED
  {
    hide Masked, Image, Survives;
    SurvivorInside(t, i);
    Grows(t, a, i);
    ImageInside(t, i);
    if '=' in t[a..i] {
      var k := FirstOf(t, "=", a);
      EqualsInside(t, a, i);
      assert t[a..i][k - a] == '=';
      assert '=' !in t[a..k];
      Straight(t, a, k);
      ImageOfSurvivor(t, k);
      ImageStrict(t, k, i);
      assert Masked(t)[Image(t, a)..Image(t, i)][Image(t, k) - Image(t, a)] == '=';
      assert '=' !in REDACTED;
    } else {
      Straight(t, a, i);
    }
  }

  lemma EqualsInside(t: string, a: nat, i: nat)
    requires a <= i <= |t| && '=' in t[a..i]
    ensures a <= FirstOf(t, "=", a) < i
  {
    var j :| 0 <= j < i - a && t[a..i][j] == '=';
    assert t[a + j] == '=';
  }

  // The masked text shows user information exactly when the text leaves some to find.
  lemma ShowsExactly(t: string)
    ensures ShowsUserinfo(Masked(t)) <==> !NothingShown(t)
  {
    hide Masked, Image, Survives, UserinfoOf, FirstMark;
    var m := VisibleMark(t, 0);
    MaskedMark(t);
    if m == |t| {
      NoMarkNoUserinfo(Masked(t));
    } else {
      hide ShowsUserinfo, NothingShown;
      ImageInside(t, m);
      MarkInside(Masked(t), Image(t, m));
      ShowsAfterMark(t, m);
    }
  }

  lemma MarkInside(s: string, i: nat)
    requires IsMark(s, i)
    ensures i + 3 <= |s|
  {
  }

  lemma ShowsAfterMark(t: string, m: nat)
    requires m == VisibleMark(t, 0) < |t|
    requires FirstMark(Masked(t)) == Image(t, m) < |Masked(t)|
    ensures ShowsUserinfo(Masked(t)) <==> !NothingShown(t)
  {
    hide Masked, Image, Survives, UserinfoOf, FirstMark, VisibleMark, VisibleEnd;
    MarkInside(t, m);
    MarkImage(t, m);
    MaskedEnd(t, m + 3);
    var a, end := m + 3, VisibleEnd(t, m + 3);
    AuthorityOf(Masked(t));
    if UserinfoOf(Masked(t)).At? {
      var to := UserinfoOf(Masked(t)).to;
      var i := SpecialOrigin(t, to);
      SurvivorInside(t, i);
      ImageOrder(t, i, end);
      NotBefore(t, i, a);
      FromMarkTo(t, a, i);
      OnlyAt(t, a, end, i);
    } else {
      forall i | a <= i < end && t[i] == '@'
        ensures !Survives(t, i)
      {
        if Survives(t, i) {
          ImageOfSurvivor(t, i);
          Grows(t, a, i);
          ImageStrict(t, i, end);
        }
      }
    }
  }

  // The user information of a text by its first mark and the end of the authority.
  lemma AuthorityOf(s: string)
    requires FirstMark(s) < |s|
    ensures FirstMark(s) + 3 <= |s|
    ensures var m := FirstMark(s); var end := FirstOf(s, "/?#", m + 3); var u := UserinfoOf(s);
      && (u.At? ==> u.from == m + 3 <= u.to < end && s[u.to] == '@' && forall p | u.to < p < end :: s[p] != '@')
      && (u == NoUserinfo ==> forall p | m + 3 <= p < end :: s[p] != '@')
  {
    var m := FirstMark(s);
    var end := FirstOf(s, "/?#", m + 3);
    assert forall p | m + 3 <= p < end :: s[p] == s[m + 3..end][p - m - 3];
  }

  lemma FromMarkTo(t: string, a: nat, i: nat)
    requires a <= i && Survives(t, i) && t[i] == '@' && (a < |t| ==> Survives(t, a))
    ensures Image(t, a) <= Image(t, i) <= |Masked(t)|
    ensures Masked(t)[Image(t, a)..Image(t, i)] == REDACTED <==> t[a..i] == REDACTED
  {
    hide Masked, Image, Survives;
    SurvivorInside(t, i);
    TextUpTo(t, a, i);
  }

  // i is the last '@' that survives before the end: then all of them end redacted text exactly when it does.
  lemma OnlyAt(t: string, a: nat, end: nat, i: nat)
    requires a <= i < end <= |t| && Survives(t, i) && t[i] == '@'
    requires forall p | Image(t, i) < p < Image(t, end) :: p < |Masked(t)| && Masked(t)[p] != '@'
    ensures (forall j | a <= j < end && t[j] == '@' && Survives(t, j) :: t[a..j] == REDACTED) <==> t[a..i] == REDACTED
  {
    hide Masked, Image, Survives;
    forall j | i < j < end && t[j] == '@'
      ensures !Survives(t, j)
    {
      if Survives(t, j) {
        ImageOfSurvivor(t, j);
        ImageStrict(t, i, j);
        ImageStrict(t, j, end);
      }
    }
    if t[a..i] == REDACTED {
      forall j | a <= j < i
        ensures t[j] != '@'
      {
        assert t[a..i][j - a] == t[j];
        assert '@' !in REDACTED;
      }
    }
  }

  // A second redaction changes nothing exactly when the text with its first user information replaced leaves
  // nothing to find.
  lemma IdempotentWhenBareShowsNothing(url: string)
    ensures Redacted(Redacted(url)) == Redacted(url) <==> NothingShown(WithoutUserinfo(url))
  {
    hide Redacted, WithoutUserinfo, UserinfoOf, NothingShown, ShowsUserinfo, Masked;
    IdempotentWhenNothingShown(url);
    ShowsExactly(WithoutUserinfo(url));
    RedactedIsMasked(url);
  }

  lemma RedactedIsMasked(url: string)
    ensures Redacted(url) == Masked(WithoutUserinfo(url))
  {
    hide WithoutUserinfo;
  }
}
