/** What redaction keeps and hides, when it is idempotent, and exactly when it works part by part. */
module RedactionLaws {
  import opened NetworkTraces
  import opened RedactUrl

  // The first "://" comes before the first '?', or there is none.
  predicate MarkPrecedesQuery(url: string) {
    FirstMark(url) == |url| || FirstMark(url) < FirstOf(url, "?", 0)
  }

  // Each part redacted on its own: user information in the head only, sensitive values pair by pair,
  // everything else as it was.
  function RedactedByParts(url: string): UrlParts {
    var p := Parts(url);
    UrlParts(WithoutUserinfo(p.head), RedactedPairs(p.pairs), p.fragment)
  }

  predicate WorksByParts(url: string) {
    Parts(Redacted(url)) == RedactedByParts(url)
  }

  // ---------- Finding the user information ----------

  lemma MarkIs(s: string, r: nat)
    requires r <= |s| && (r < |s| ==> IsMark(s, r))
    requires forall j | 0 <= j < r :: !IsMark(s, j)
    ensures FirstMark(s) == r
  {
  }

  lemma LastAtIs(s: string, from: nat, end: nat, r: nat)
    requires from <= r < end <= |s| && s[r] == '@'
    requires forall j | r < j < end :: s[j] != '@'
    ensures LastAt(s, from, end) == r
  {
    assert s[r] in s[from..end];
  }

  // What determines the user information, and that nothing else is needed.
  lemma UserinfoIs(url: string, m: nat, end: nat, at: nat)
    requires IsMark(url, m) && forall j | 0 <= j < m :: !IsMark(url, j)
    requires m + 3 <= at < end <= |url| && url[at] == '@'
    requires forall j | at < j < end :: url[j] != '@'
    requires forall j | m + 3 <= j < end :: url[j] !in "/?#"
    requires end < |url| ==> url[end] in "/?#"
    ensures UserinfoOf(url) == At(m + 3, at)
  {
    MarkIs(url, m);
    FirstOfIs(url, "/?#", m + 3, end);
    LastAtIs(url, m + 3, end, at);
  }

  lemma NoUserinfoWhen(url: string, m: nat, end: nat)
    requires IsMark(url, m) && forall j | 0 <= j < m :: !IsMark(url, j)
    requires m + 3 <= end <= |url| && '@' !in url[m + 3..end]
    requires forall j | m + 3 <= j < end :: url[j] !in "/?#"
    requires end < |url| ==> url[end] in "/?#"
    ensures UserinfoOf(url) == NoUserinfo
  {
    MarkIs(url, m);
    FirstOfIs(url, "/?#", m + 3, end);
    assert forall j | m + 3 <= j < end :: url[j] in url[m + 3..end];
  }

  // The end of the authority that follows the first "://".
  lemma UserinfoBounds(url: string) returns (m: nat, end: nat)
    requires FirstMark(url) < |url|
    ensures m == FirstMark(url) && m + 3 <= end <= |url|
    ensures forall j | m + 3 <= j < end :: url[j] !in "/?#"
    ensures end < |url| ==> url[end] in "/?#"
    ensures UserinfoOf(url).At? ==> UserinfoOf(url).to < end && forall j | UserinfoOf(url).to < j < end :: url[j] != '@'
    ensures UserinfoOf(url) == NoUserinfo ==> '@' !in url[m + 3..end]
  {
    m := FirstMark(url);
    end := FirstOf(url, "/?#", m + 3);
  }

  // Text after a '?' does not matter when the first "://" is before it.
  lemma UserinfoOfHead(head: string, tail: string)
    requires '?' !in head && (tail != "" ==> tail[0] == '?')
    requires FirstMark(head + tail) == |head + tail| || FirstMark(head + tail) < |head|
    ensures UserinfoOf(head + tail) == UserinfoOf(head)
  {
    hide UserinfoOf;
    var url := head + tail;
    var m := FirstMark(url);
    assert forall j | 0 <= j < |head| :: url[j] == head[j];
    assert tail != "" ==> url[|head|] == '?';
    assert forall j | 0 <= j :: IsMark(head, j) ==> IsMark(url, j);
    if m == |url| {
      MarkIs(head, |head|);
      NoMarkNoUserinfo(url);
      NoMarkNoUserinfo(head);
    } else {
      assert m + 3 <= |head|;
      var m', end := UserinfoBounds(url);
      assert end <= |head|;
      match UserinfoOf(url) {
        case At(from, to) =>
          UserinfoIs(head, m, end, to);
        case NoUserinfo =>
          assert url[m + 3..end] == head[m + 3..end];
          NoUserinfoWhen(head, m, end);
      }
    }
  }

  lemma NoMarkNoUserinfo(url: string)
    requires FirstMark(url) == |url|
    ensures UserinfoOf(url) == NoUserinfo
  {
  }

  // Once redacted, user information stays as it is, and so does the place of the first "://".
  lemma WithoutUserinfoTwice(url: string)
    ensures WithoutUserinfo(WithoutUserinfo(url)) == WithoutUserinfo(url)
    ensures FirstMark(url) < |url| ==> FirstMark(WithoutUserinfo(url)) == FirstMark(url) < |WithoutUserinfo(url)|
    ensures '?' !in url ==> '?' !in WithoutUserinfo(url)
  {
    hide UserinfoOf;
    match UserinfoOf(url) {
      case NoUserinfo =>
      case At(from, to) =>
        UserinfoReplaced(url, from, to);
        var bare := url[..from] + REDACTED + url[to..];
        assert WithoutUserinfo(url) == bare;
        assert bare[..from] == url[..from] && bare[from..from + |REDACTED|] == REDACTED;
        assert bare[from + |REDACTED|..] == url[to..];
    }
  }

  lemma UserinfoReplaced(url: string, from: nat, to: nat)
    requires UserinfoOf(url) == At(from, to)
    ensures var bare := url[..from] + REDACTED + url[to..];
      && UserinfoOf(bare) == At(from, from + |REDACTED|)
      && FirstMark(bare) == FirstMark(url) < |bare|
  {
    var bare := url[..from] + REDACTED + url[to..];
    var m, end := UserinfoBounds(url);
    var at := from + |REDACTED|;
    SpliceAt(url[..from], REDACTED, url[to..]);
    MarkSpliced(url, from, bare);
    hide UserinfoOf, FirstMark;
    assert forall j | at <= j < |bare| :: bare[j] == url[j - at + to];
    assert forall j | 0 <= j < |REDACTED| :: REDACTED[j] !in "/?#";
    UserinfoIs(bare, m, end - to + at, at);
  }

  lemma SpliceAt(x: string, y: string, z: string)
    ensures var s := x + y + z;
      && (forall j | 0 <= j < |x| :: s[j] == x[j])
      && (forall j | |x| <= j < |x| + |y| :: s[j] == y[j - |x|])
      && (forall j | |x| + |y| <= j < |s| :: s[j] == z[j - |x| - |y|])
  {
  }

  lemma MarkSpliced(url: string, from: nat, other: string)
    requires FirstMark(url) < |url| && from == FirstMark(url) + 3
    requires from <= |other| && other[..from] == url[..from]
    ensures FirstMark(other) == FirstMark(url) < |other| && IsMark(other, FirstMark(url))
    ensures forall j | 0 <= j < FirstMark(url) :: !IsMark(other, j)
  {
    var m := FirstMark(url);
    forall j | 0 <= j <= m
      ensures IsMark(other, j) == IsMark(url, j)
    {
      assert forall k | 0 <= k < from :: other[k] == other[..from][k] == url[k];
    }
    MarkIs(other, m);
  }

  // ---------- The promised behaviour, when "://" comes before the query ----------

  lemma PartsOfTail(head: string, other: string, tail: string)
    requires '?' !in head && '?' !in other && (tail != "" ==> tail[0] == '?')
    ensures Parts(head + tail).head == head && Parts(other + tail) == Parts(head + tail).(head := other)
  {
    hide Split;
    if tail == "" {
      assert head + tail == head && other + tail == other;
      FirstOfIs(head, "?", 0, |head|);
      FirstOfIs(other, "?", 0, |other|);
    } else {
      var f := FirstOf(tail, "#", 1);
      assert tail == "?" + tail[1..f] + tail[f..];
      assert head + tail == head + ("?" + tail[1..f]) + tail[f..];
      assert other + tail == other + ("?" + tail[1..f]) + tail[f..];
      PartsOfConcat(head, tail[1..f], tail[f..]);
      PartsOfConcat(other, tail[1..f], tail[f..]);
    }
  }

  lemma HeadAndTail(url: string) returns (head: string, tail: string)
    ensures url == head + tail && '?' !in head && (tail != "" ==> tail[0] == '?')
    ensures |head| == FirstOf(url, "?", 0) && Parts(url).head == head
  {
    var q := FirstOf(url, "?", 0);
    head, tail := url[..q], url[q..];
  }

  lemma WithoutUserinfoOfHead(url: string)
    requires MarkPrecedesQuery(url)
    ensures Parts(WithoutUserinfo(url)) == Parts(url).(head := WithoutUserinfo(Parts(url).head))
    ensures FirstMark(Parts(url).head) < |Parts(url).head| <==> FirstMark(url) < |url|
  {
    hide UserinfoOf, Parts, FirstMark;
    var head, tail := HeadAndTail(url);
    UserinfoOfHead(head, tail);
    MarkOfHead(head, tail);
    WithoutUserinfoTwice(head);
    var bare := WithoutUserinfo(head);
    PartsOfTail(head, bare, tail);
    match UserinfoOf(head) {
      case NoUserinfo =>
      case At(from, to) =>
        assert url[..from] == head[..from] && url[to..] == head[to..] + tail;
        assert WithoutUserinfo(url) == bare + tail;
    }
  }

  lemma MarkOfHead(head: string, tail: string)
    requires '?' !in head && (tail != "" ==> tail[0] == '?')
    requires FirstMark(head + tail) == |head + tail| || FirstMark(head + tail) < |head|
    ensures FirstMark(head) < |head| <==> FirstMark(head + tail) < |head + tail|
  {
    var url := head + tail;
    var m := FirstMark(url);
    assert forall j | 0 <= j < |head| :: url[j] == head[j];
    assert forall j | 0 <= j :: IsMark(head, j) ==> IsMark(url, j);
    if m == |url| {
      MarkIs(head, |head|);
    } else {
      assert m + 3 <= |head|;
      MarkIs(head, m);
    }
  }

  // The number and order of the pairs, every pair without a sensitive key and the fragment stay as they
  // are; sensitive values are replaced and user information goes from the head alone.
  lemma RedactionByParts(url: string)
    requires MarkPrecedesQuery(url)
    ensures WorksByParts(url)
  {
    hide Parts, Redacted, WithoutUserinfo, RedactedPairs;
    PartsOfRedacted(url);
    WithoutUserinfoOfHead(url);
  }

  // What that says about each pair.
  lemma PairsKept(url: string, i: nat)
    requires WorksByParts(url) && i < |Parts(url).pairs|
    ensures |Parts(Redacted(url)).pairs| == |Parts(url).pairs|
    ensures var before, after := Parts(url).pairs[i], Parts(Redacted(url)).pairs[i];
      && KeyOf(after) == KeyOf(before)
      && (IsSensitivePair(before) ==> after == KeyOf(before) + "=" + REDACTED)
      && (!IsSensitivePair(before) ==> after == before)
  {
    hide IsSensitiveQueryKey, Parts;
    RedactedPairLaws(Parts(url).pairs[i]);
  }

  // ---------- Idempotence ----------

  // The text has user information that a redaction would replace.
  predicate ShowsUserinfo(url: string) {
    match UserinfoOf(url)
    case NoUserinfo => false
    case At(from, to) => url[from..to] != REDACTED
  }

  lemma ShownChanges(url: string)
    ensures WithoutUserinfo(url) != url <==> ShowsUserinfo(url)
  {
    hide UserinfoOf;
    match UserinfoOf(url) {
      case NoUserinfo =>
      case At(from, to) =>
        assert url == url[..from] + url[from..to] + url[to..];
        SpliceEqual(url[..from], url[from..to], REDACTED, url[to..]);
    }
  }

  // A redacted text without user information to hide is left alone.
  lemma FixedWhenBare(url: string)
    requires WithoutUserinfo(Redacted(url)) == Redacted(url)
    ensures Redacted(Redacted(url)) == Redacted(url)
  {
    hide Parts, Redacted, WithoutUserinfo, RedactedPairs, Text;
    var r := Redacted(url);
    PartsOfRedacted(url);
    PartsOfRedacted(r);
    TextOfParts(WithoutUserinfo(url));
    RedactedPairsLaws(Parts(WithoutUserinfo(url)).pairs);
    TextOfParts(r);
    TextOfParts(Redacted(r));
  }

  predicate NoMark(s: string) {
    forall j | 0 <= j < |s| :: !IsMark(s, j)
  }

  lemma NoMarkConcat(x: string, y: string)
    requires NoMark(x) && NoMark(y) && (y != "" ==> y[0] != '/')
    ensures NoMark(x + y)
  {
    forall j | 0 <= j < |x + y|
      ensures !IsMark(x + y, j)
    {
      if j >= |x| {
        assert !IsMark(y, j - |x|);
      } else {
        assert !IsMark(x, j);
      }
    }
  }

  lemma NoMarkSlice(s: string, from: nat, to: nat)
    requires NoMark(s) && from <= to <= |s|
    ensures NoMark(s[from..to])
  {
    forall j | 0 <= j < to - from
      ensures !IsMark(s[from..to], j)
    {
      assert !IsMark(s, from + j);
    }
  }

  lemma NoMarkRedactedPair(pair: string)
    requires NoMark(pair)
    ensures NoMark(RedactedPair(pair))
  {
    hide IsSensitiveQueryKey;
    if IsSensitivePair(pair) {
      NoMarkSlice(pair, 0, |KeyOf(pair)|);
      NoMarkConcat(KeyOf(pair), "=" + REDACTED);
      assert KeyOf(pair) + ("=" + REDACTED) == KeyOf(pair) + "=" + REDACTED;
    }
  }

  lemma {:induction false} NoMarkJoin(pairs: seq<string>)
    requires pairs != [] && NoMark(Join(pairs))
    ensures NoMark(Join(RedactedPairs(pairs)))
  {
    hide RedactedPair, NoMark;
    var text := Join(pairs);
    var first := pairs[0];
    assert first == text[..|first|];
    NoMarkSlice(text, 0, |first|);
    NoMarkRedactedPair(first);
    if |pairs| > 1 {
      var rest := Join(pairs[1..]);
      assert rest == text[|first| + 1..|text|];
      NoMarkSlice(text, |first| + 1, |text|);
      NoMarkJoin(pairs[1..]);
      assert RedactedPairs(pairs)[1..] == RedactedPairs(pairs[1..]);
      var redacted := Join(RedactedPairs(pairs[1..]));
      NoMarkSingle('&');
      NoMarkAfter("&", redacted);
      NoMarkConcat(RedactedPair(first), "&" + redacted);
      assert RedactedPair(first) + ("&" + redacted) == RedactedPair(first) + "&" + redacted;
    }
  }

  lemma NoMarkSingle(c: char)
    ensures NoMark([c])
  {
  }

  lemma NoMarkAfter(x: string, y: string)
    requires NoMark(y) && |x| == 1 && x[0] != ':'
    ensures NoMark(x + y)
  {
    forall j | 0 <= j < |x + y|
      ensures !IsMark(x + y, j)
    {
      if j > 0 {
        assert !IsMark(y, j - 1);
      }
    }
  }

  lemma NoMarkQuery(url: string)
    requires NoMark(url) && Parts(url).pairs != []
    ensures var p := Parts(url); NoMark(p.head + ("?" + Join(RedactedPairs(p.pairs))) + p.fragment)
  {
    hide Split, Join, RedactedPairs;
    var p := Parts(url);
    var q, f := FirstOf(url, "?", 0), FirstOf(url, "#", FirstOf(url, "?", 0) + 1);
    NoMarkSlice(url, 0, q);
    NoMarkSlice(url, q + 1, f);
    NoMarkSlice(url, f, |url|);
    JoinOfSplit(url[q + 1..f]);
    NoMarkJoin(p.pairs);
    assert url[f..] == url[f..|url|];
    hide NoMark;
    var query := Join(RedactedPairs(p.pairs));
    NoMarkAfter("?", query);
    NoMarkConcat(p.head, "?" + query);
    NoMarkConcat(p.head + ("?" + query), p.fragment);
  }

  // Without any "://" redaction makes none.
  lemma NoMarkRedacted(url: string)
    requires FirstMark(url) == |url|
    ensures FirstMark(Redacted(url)) == |Redacted(url)|
  {
    hide Split, Join, RedactedPairs;
    var p := Parts(url);
    assert NoMark(url);
    NoMarkNoUserinfo(url);
    TextOfParts(url);
    var redacted := Redacted(url);
    if p.pairs == [] {
      assert RedactedPairs([]) == [];
    } else {
      NoMarkQuery(url);
      var query := Join(RedactedPairs(p.pairs));
      assert Redacted(url) == p.head + ("?" + query) + p.fragment;
    }
    hide *;
    AllMarks(redacted);
  }

  lemma AllMarks(s: string)
    requires NoMark(s)
    ensures FirstMark(s) == |s|
  {
    MarkIs(s, |s|);
  }

  lemma Idempotent(url: string)
    requires MarkPrecedesQuery(url)
    ensures Redacted(Redacted(url)) == Redacted(url) && !ShowsUserinfo(Redacted(url))
  {
    hide Redacted, WithoutUserinfo, UserinfoOf, RedactedPairs, Parts;
    var r := Redacted(url);
    if FirstMark(url) == |url| {
      NoMarkRedacted(url);
      NoMarkNoUserinfo(r);
      BareWithout(r);
    } else {
      RedactedHead(url);
    }
    FixedWhenBare(url);
    ShownChanges(r);
  }

  lemma BareWithout(url: string)
    requires UserinfoOf(url) == NoUserinfo
    ensures WithoutUserinfo(url) == url
  {
  }

  lemma RedactedHead(url: string)
    requires MarkPrecedesQuery(url) && FirstMark(url) < |url|
    ensures WithoutUserinfo(Redacted(url)) == Redacted(url)
  {
    hide Redacted, WithoutUserinfo, UserinfoOf, RedactedPairs, Parts, FirstMark;
    var r := Redacted(url);
    RedactionByParts(url);
    WithoutUserinfoOfHead(url);
    WithoutUserinfoTwice(Parts(url).head);
    var head, tail := HeadAndTail(r);
    MarkInHead(head, tail);
    UserinfoOfHead(head, tail);
    ReplacedInHead(head, tail);
  }

  lemma MarkInHead(head: string, tail: string)
    requires FirstMark(head) < |head|
    ensures FirstMark(head + tail) < |head|
  {
    assert IsMark(head + tail, FirstMark(head));
  }

  lemma ReplacedInHead(head: string, tail: string)
    requires UserinfoOf(head + tail) == UserinfoOf(head) && WithoutUserinfo(head) == head
    ensures WithoutUserinfo(head + tail) == head + tail
  {
    hide UserinfoOf;
    match UserinfoOf(head) {
      case NoUserinfo =>
      case At(from, to) =>
        assert (head + tail)[..from] == head[..from] && (head + tail)[to..] == head[to..] + tail;
        AppendLast(head[..from], REDACTED, head[to..], tail);
    }
  }

  lemma AppendLast(a: string, b: string, c: string, d: string)
    ensures a + b + (c + d) == a + b + c + d
  {
  }

  // ---------- A first "://" after the '?' ----------

  lemma SplitCons(first: string, rest: string)
    requires '&' !in first
    ensures Split(first + "&" + rest) == [first] + Split(rest)
  {
    var query := first + "&" + rest;
    FirstOfIs(query, "&", 0, |first|);
    assert query[..|first|] == first && query[|first| + 1..] == rest;
  }

  lemma SplitAlone(query: string)
    requires '&' !in query
    ensures Split(query) == [query]
  {
    FirstOfIs(query, "&", 0, |query|);
  }

  lemma {:induction false} SplitConcat(x: string, z: string)
    ensures var n := |Split(x)| - 1;
      Split(x + z) == Split(x)[..n] + [Split(x)[n] + Split(z)[0]] + Split(z)[1..]
    decreases |x|
  {
    hide Split;
    var amp := FirstOf(x, "&", 0);
    if amp == |x| {
      SplitAlone(x);
      SplitFirst(x, z);
    } else {
      var first, rest := x[..amp], x[amp + 1..];
      assert x == first + "&" + rest && x + z == first + "&" + (rest + z);
      SplitCons(first, rest);
      SplitCons(first, rest + z);
      SplitConcat(rest, z);
      var n := |Split(rest)| - 1;
      assert Split(x)[..n + 1] == [first] + Split(rest)[..n];
    }
  }

  lemma SplitFirst(x: string, z: string)
    requires '&' !in x
    ensures Split(x + z) == [x + Split(z)[0]] + Split(z)[1..]
  {
    hide Split;
    var amp := FirstOf(z, "&", 0);
    if amp == |z| {
      SplitAlone(z);
      SplitAlone(x + z);
    } else {
      var first, rest := z[..amp], z[amp + 1..];
      assert z == first + "&" + rest && x + z == (x + first) + "&" + rest;
      SplitCons(first, rest);
      SplitCons(x + first, rest);
    }
  }

  // The pair that is being written at the end of a piece of a query.
  function LastPair(query: string): string {
    Split(query)[|Split(query)| - 1]
  }

  lemma LastPairEnds(x: string, tail: string)
    requires '&' !in tail
    ensures LastPair(x + tail) == LastPair(x) + tail
  {
    hide Split;
    SplitConcat(x, tail);
    SplitAlone(tail);
  }

  lemma PiecesOf(query: string)
    ensures '&' in query <==> |Split(query)| > 1
  {
    if '&' !in query {
      SplitAlone(query);
    }
  }

  lemma SplitAround(x: string, u: string, y: string)
    ensures |Split(x + u + y)| == |Split(x)| + |Split(u)| + |Split(y)| - 2
    ensures '&' in u <==> |Split(u)| > 1
    ensures '&' !in u ==>
      Split(x + u + y) == Split(x)[..|Split(x)| - 1] + [LastPair(x) + u + Split(y)[0]] + Split(y)[1..]
  {
    PiecesOf(u);
    hide Split;
    SplitConcat(x, u);
    SplitConcat(x + u, y);
    if '&' !in u {
      SplitAlone(u);
      var n := |Split(x)| - 1;
      assert Split(x + u) == Split(x)[..n] + [LastPair(x) + u];
      assert Split(x + u)[..n] == Split(x)[..n];
    }
  }

  lemma SensitiveKeysPlain(key: string)
    requires IsSensitiveQueryKey(key)
    ensures ':' !in key
  {
    assert forall k | k in SENSITIVE_KEYS :: ':' !in k;
    hide LowerAscii;
    forall i | 0 <= i < |key|
      ensures key[i] != ':'
    {
      assert LowerAscii(key)[i] == LowerChar(key[i]);
    }
  }

  lemma KeyOfExtended(l: string, more: string)
    requires '=' in l
    ensures KeyOf(l + more) == KeyOf(l)
  {
    FirstOfIs(l + more, "=", 0, FirstOf(l, "=", 0));
    assert (l + more)[..FirstOf(l, "=", 0)] == KeyOf(l);
  }

  lemma KeyOfStart(l: string, more: string, c: char)
    requires '=' !in l && c in l
    ensures c in KeyOf(l + more)
  {
    var i :| 0 <= i < |l| && l[i] == c;
    assert (l + more)[i] == c;
    assert FirstOf(l + more, "=", 0) > i by {
      assert forall j | 0 <= j < |l| :: (l + more)[j] == l[j];
    }
    assert KeyOf(l + more)[i] == c;
  }

  // A pair with "://" in it is sensitive exactly when its text up to there is.
  lemma SensitiveUpTo(l: string, more: string)
    requires ':' in l
    ensures IsSensitivePair(l + more) <==> IsSensitivePair(l)
    ensures IsSensitivePair(l) ==> RedactedPair(l + more) == KeyOf(l) + "=" + REDACTED
  {
    hide IsSensitiveQueryKey;
    if '=' in l {
      KeyOfExtended(l, more);
    } else {
      KeyOfStart(l, more, ':');
      if IsSensitiveQueryKey(KeyOf(l + more)) {
        SensitiveKeysPlain(KeyOf(l + more));
      }
    }
  }

  lemma SpliceEqual(x: string, u: string, w: string, y: string)
    ensures x + u + y == x + w + y <==> u == w
  {
    if x + u + y == x + w + y {
      assert |u| == |w|;
      assert u == (x + u + y)[|x|..|x| + |u|];
      assert w == (x + w + y)[|x|..|x| + |w|];
    }
  }

  // Replacing u inside a query leaves the redacted pairs alone exactly when u is the same text, or lies in
  // the value of one sensitive pair.
  lemma SpliceRedacted(x: string, u: string, w: string, y: string)
    requires ':' in LastPair(x) && '&' !in w
    ensures RedactedPairs(Split(x + u + y)) == RedactedPairs(Split(x + w + y))
       <==> u == w || ('&' !in u && IsSensitivePair(LastPair(x)))
  {
    hide Split, RedactedPair, IsSensitivePair;
    SplitAround(x, u, y);
    SplitAround(x, w, y);
    var n := |Split(x)| - 1;
    var l, r := LastPair(x), Split(y)[0];
    var a, b := RedactedPairs(Split(x + u + y)), RedactedPairs(Split(x + w + y));
    if '&' !in u {
      assert a[n] == RedactedPair(l + u + r) && b[n] == RedactedPair(l + w + r);
      assert a == a[..n] + [a[n]] + a[n + 1..] && b == b[..n] + [b[n]] + b[n + 1..];
      assert a[..n] == b[..n] && a[n + 1..] == b[n + 1..];
      PairSplice(l, u, w, r);
    }
  }

  lemma PairSplice(l: string, u: string, w: string, r: string)
    requires ':' in l
    ensures RedactedPair(l + u + r) == RedactedPair(l + w + r) <==> u == w || IsSensitivePair(l)
  {
    assert l + u + r == l + (u + r) && l + w + r == l + (w + r);
    SensitiveUpTo(l, u + r);
    SensitiveUpTo(l, w + r);
    SpliceEqual(l, u, w, r);
    hide IsSensitivePair;
  }

  // ---------- Exactly when redaction works part by part ----------

  // The user information found lies in the value of one sensitive pair of the query.
  predicate InSensitiveValue(url: string, from: nat, to: nat)
    requires from <= to <= |url|
  {
    var q := FirstOf(url, "?", 0);
    && q < from <= FirstOf(url, "#", q + 1)
    && '&' !in url[from..to]
    && IsSensitivePair(LastPair(url[q + 1..from]))
  }

  // What the search finds does no harm: nothing, text already redacted, or text that is redacted anyway.
  predicate FindsNoOther(url: string) {
    match UserinfoOf(url)
    case NoUserinfo => true
    case At(from, to) => url[from..to] == REDACTED || InSensitiveValue(url, from, to)
  }

  lemma WorksByPartsExactly(url: string)
    ensures WorksByParts(url) <==> MarkPrecedesQuery(url) || FindsNoOther(url)
  {
    hide WorksByParts, Parts, Redacted, WithoutUserinfo, UserinfoOf, FirstMark, InSensitiveValue;
    if MarkPrecedesQuery(url) {
      RedactionByParts(url);
    } else {
      LateMark(url);
    }
  }

  lemma LateMark(url: string)
    requires !MarkPrecedesQuery(url)
    ensures WorksByParts(url) <==> FindsNoOther(url)
  {
    hide Parts, UserinfoOf, FirstMark, InSensitiveValue, Redacted, RedactedPairs;
    PartsOfRedacted(url);
    HeadUntouched(url);
    match UserinfoOf(url) {
      case NoUserinfo =>
        BareWithout(url);
      case At(from, to) =>
        if from > FirstOf(url, "#", FirstOf(url, "?", 0) + 1) {
          MarkInFragment(url, from, to);
        } else {
          MarkInQuery(url, from, to);
        }
    }
  }

  lemma HeadUntouched(url: string)
    requires !MarkPrecedesQuery(url)
    ensures WithoutUserinfo(Parts(url).head) == Parts(url).head
  {
    var head, tail := HeadAndTail(url);
    assert forall j | 0 <= j :: IsMark(head, j) ==> IsMark(url, j);
    MarkIs(head, |head|);
    NoMarkNoUserinfo(head);
  }

  lemma FragmentSpliced(url: string, q: nat, f: nat, from: nat, to: nat, w: string)
    requires q < f <= from <= to <= |url| && url[q] == '?'
    ensures url[..from] + w + url[to..] == url[..q] + ("?" + url[q + 1..f]) + (url[f..from] + w + url[to..])
  {
    var start := url[..q] + ("?" + url[q + 1..f]);
    assert start == url[..f];
    assert url[..from] == start + url[f..from];
  }

  lemma QuerySpliced(url: string, q: nat, f: nat, from: nat, to: nat, w: string)
    requires q < from <= to <= f <= |url| && url[q] == '?'
    ensures url[..from] + w + url[to..] == url[..q] + ("?" + (url[q + 1..from] + w + url[to..f])) + url[f..]
  {
    var x, y := url[q + 1..from], url[to..f];
    assert url[..from] == url[..q] + ("?" + x);
    assert url[to..] == y + url[f..];
    assert "?" + (x + w + y) == ("?" + x) + w + y;
    Regroup(url[..q], "?" + x, w, y, url[f..]);
  }

  lemma Regroup(a: string, b: string, c: string, d: string, e: string)
    ensures (a + b) + c + (d + e) == a + (b + c + d) + e
  {
  }

  lemma MarkInFragment(url: string, from: nat, to: nat)
    requires !MarkPrecedesQuery(url) && UserinfoOf(url) == At(from, to)
    requires from > FirstOf(url, "#", FirstOf(url, "?", 0) + 1)
    ensures PairsRedacted(Parts(WithoutUserinfo(url))) == PairsRedacted(Parts(url)) <==> url[from..to] == REDACTED
    ensures !InSensitiveValue(url, from, to)
  {
    hide Split, UserinfoOf, RedactedPairs, FirstMark;
    var q := FirstOf(url, "?", 0);
    var f := FirstOf(url, "#", q + 1);
    var head, query, u := url[..q], url[q + 1..f], url[from..to];
    var x, y := url[f..from], url[to..];
    FragmentSpliced(url, q, f, from, to, u);
    FragmentSpliced(url, q, f, from, to, REDACTED);
    assert url == url[..from] + u + y;
    PartsOfConcat(head, query, x + u + y);
    PartsOfConcat(head, query, x + REDACTED + y);
    SpliceEqual(x, u, REDACTED, y);
  }

  lemma QuerySpliceExactly(head: string, x: string, u: string, w: string, y: string, fragment: string)
    requires '?' !in head && '#' !in x + u + y && '#' !in x + w + y && (fragment != "" ==> fragment[0] == '#')
    requires ':' in LastPair(x) && '&' !in w
    ensures PairsRedacted(Parts(head + ("?" + (x + u + y)) + fragment))
         == PairsRedacted(Parts(head + ("?" + (x + w + y)) + fragment))
       <==> u == w || ('&' !in u && IsSensitivePair(LastPair(x)))
  {
    hide Parts, Split, RedactedPairs, IsSensitivePair, LastPair;
    PartsOfConcat(head, x + u + y, fragment);
    PartsOfConcat(head, x + w + y, fragment);
    SpliceRedacted(x, u, w, y);
  }

  lemma LastPairMarked(x: string)
    requires |x| >= 3 && x[|x| - 3..] == "://"
    ensures LastPair(x) == LastPair(x[..|x| - 3]) + "://" && ':' in LastPair(x)
  {
    hide LastPair;
    LastPairEnds(x[..|x| - 3], "://");
    assert x == x[..|x| - 3] + "://";
    assert (LastPair(x[..|x| - 3]) + "://")[|LastPair(x[..|x| - 3])|] == ':';
  }

  lemma MarkInQuery(url: string, from: nat, to: nat)
    requires !MarkPrecedesQuery(url) && UserinfoOf(url) == At(from, to)
    requires from <= FirstOf(url, "#", FirstOf(url, "?", 0) + 1)
    ensures PairsRedacted(Parts(WithoutUserinfo(url))) == PairsRedacted(Parts(url))
       <==> url[from..to] == REDACTED || InSensitiveValue(url, from, to)
  {
    hide LastPair, UserinfoOf, FirstMark, IsSensitivePair, Parts, PairsRedacted, WithoutUserinfo, MarkPrecedesQuery;
    QueryBounds(url, from, to);
    AroundMark(url, FirstOf(url, "?", 0), FirstOf(url, "#", FirstOf(url, "?", 0) + 1), from, to);
  }

  lemma AroundMark(url: string, q: nat, f: nat, from: nat, to: nat)
    requires q + 4 <= from <= to <= f <= |url| && url[q] == '?' && UserinfoOf(url) == At(from, to)
    requires url[from - 3..from] == "://" && '?' !in url[..q] && '#' !in url[q + 1..f]
    requires url[f..] != "" ==> url[f..][0] == '#'
    ensures PairsRedacted(Parts(WithoutUserinfo(url))) == PairsRedacted(Parts(url))
       <==> url[from..to] == REDACTED || ('&' !in url[from..to] && IsSensitivePair(LastPair(url[q + 1..from])))
  {
    hide LastPair, UserinfoOf, IsSensitivePair, Parts, PairsRedacted, WithoutUserinfo;
    QueryCut(url, q, f, from, to);
    QueryViews(url, q, f, from, to);
    LastPairMarked(url[q + 1..from]);
    QuerySpliceExactly(url[..q], url[q + 1..from], url[from..to], REDACTED, url[to..f], url[f..]);
  }

  // The URL before and after the user information is replaced, by its parts.
  lemma QueryViews(url: string, q: nat, f: nat, from: nat, to: nat)
    requires q < from <= to <= f <= |url| && url[q] == '?' && UserinfoOf(url) == At(from, to)
    ensures url == url[..q] + ("?" + (url[q + 1..from] + url[from..to] + url[to..f])) + url[f..]
    ensures WithoutUserinfo(url) == url[..q] + ("?" + (url[q + 1..from] + REDACTED + url[to..f])) + url[f..]
  {
    hide UserinfoOf;
    QuerySpliced(url, q, f, from, to, url[from..to]);
    QuerySpliced(url, q, f, from, to, REDACTED);
    assert url == url[..from] + url[from..to] + url[to..];
  }

  lemma QueryCut(url: string, q: nat, f: nat, from: nat, to: nat)
    requires q + 4 <= from <= to <= f <= |url|
    ensures url[q + 1..f] == url[q + 1..from] + url[from..to] + url[to..f]
    ensures url[q + 1..from][from - q - 4..] == url[from - 3..from]
    ensures '#' !in url[q + 1..f] ==> '#' !in url[q + 1..from] + REDACTED + url[to..f]
  {
    var x, y := url[q + 1..from], url[to..f];
    assert forall c | c in x :: c in url[q + 1..f];
    assert forall c | c in y :: c in url[q + 1..f];
    assert '#' !in REDACTED;
  }

  lemma QueryBounds(url: string, from: nat, to: nat)
    requires !MarkPrecedesQuery(url) && UserinfoOf(url) == At(from, to)
    requires from <= FirstOf(url, "#", FirstOf(url, "?", 0) + 1)
    ensures FirstOf(url, "?", 0) + 4 <= from <= to < FirstOf(url, "#", FirstOf(url, "?", 0) + 1)
    ensures url[from - 3..from] == "://"
    ensures '?' !in url[..FirstOf(url, "?", 0)]
    ensures '#' !in url[FirstOf(url, "?", 0) + 1..FirstOf(url, "#", FirstOf(url, "?", 0) + 1)]
  {
    hide UserinfoOf;
    var m, q := FirstMark(url), FirstOf(url, "?", 0);
    assert IsMark(url, m) && url[q] == '?';
    var f := FirstOf(url, "#", q + 1);
    if f < |url| {
      assert url[f] == '#';
      assert f != to && !(from <= f < to);
    }
  }

  // ---------- Exactly when redaction is idempotent ----------

  // A second pass changes the text exactly when the first one left user information in sight.
  lemma IdempotentWhenNothingShown(url: string)
    ensures Redacted(Redacted(url)) == Redacted(url) <==> !ShowsUserinfo(Redacted(url))
  {
    hide Redacted, WithoutUserinfo, UserinfoOf, Parts, RedactedPairs;
    var r := Redacted(url);
    ShownChanges(r);
    if ShowsUserinfo(r) {
      if Redacted(r) == r {
        PartsOfRedacted(url);
        PartsOfRedacted(r);
        TextOfParts(WithoutUserinfo(url));
        RedactedPairsLaws(Parts(WithoutUserinfo(url)).pairs);
        NothingLeftToRedact(r);
      }
    } else {
      FixedWhenBare(url);
    }
  }

  lemma NothingLeftToRedact(r: string)
    requires Redacted(r) == r && RedactedPairs(Parts(r).pairs) == Parts(r).pairs
    ensures !ShowsUserinfo(r)
  {
    hide Redacted, UserinfoOf, Parts, RedactedPairs, FirstMark, InSensitiveValue, WithoutUserinfo;
    WorksByPartsExactly(r);
    ShownChanges(r);
    if MarkPrecedesQuery(r) {
      WithoutUserinfoOfHead(r);
      PartsOfRedacted(r);
      TextOfParts(r);
      TextOfParts(WithoutUserinfo(r));
    } else {
      HeadUntouched(r);
      assert WorksByParts(r);
      if ShowsUserinfo(r) {
        var u := UserinfoOf(r);
        SensitiveIsRedacted(r, u.from, u.to);
      }
    }
  }

  // In pairs that are redacted already, no sensitive value holds a "://".
  lemma SensitiveIsRedacted(r: string, from: nat, to: nat)
    requires !MarkPrecedesQuery(r) && UserinfoOf(r) == At(from, to)
    requires RedactedPairs(Parts(r).pairs) == Parts(r).pairs
    ensures !InSensitiveValue(r, from, to)
  {
    hide UserinfoOf, Split, IsSensitivePair, RedactedPair, FirstMark;
    if InSensitiveValue(r, from, to) {
      QueryBounds(r, from, to);
      var q := FirstOf(r, "?", 0);
      var f := FirstOf(r, "#", q + 1);
      QueryCut(r, q, f, from, to);
      RedactedValueHasNoMark(r[q + 1..from], r[from..to], r[to..f], Parts(r).pairs);
    }
  }

  lemma RedactedValueHasNoMark(x: string, u: string, y: string, pairs: seq<string>)
    requires '&' !in u && |x| >= 3 && x[|x| - 3..] == "://"
    requires pairs == Split(x + u + y) && RedactedPairs(pairs) == pairs
    ensures !IsSensitivePair(LastPair(x))
  {
    hide Split, IsSensitivePair, RedactedPair;
    var before := LastPair(x[..|x| - 3]);
    LastPairMarked(x);
    SplitAround(x, u, y);
    var more := u + Split(y)[0];
    assert RedactedPairs(pairs)[|Split(x)| - 1] == RedactedPair(pairs[|Split(x)| - 1]);
    assert pairs[|Split(x)| - 1] == before + "://" + more;
    if IsSensitivePair(LastPair(x)) {
      LaterColon(before, more);
    }
  }

  lemma LaterColon(before: string, after: string)
    requires IsSensitivePair(before + "://")
    ensures RedactedPair(before + "://" + after) != before + "://" + after
  {
    var l := before + "://";
    assert l[|before|] == ':';
    SensitiveUpTo(l, after);
    var k := FirstOf(l, "=", 0);
    assert '=' in l && k < |before| by {
      assert forall j | 0 <= j < |l| :: l[j] == '=' ==> j < |before|;
    }
    var redacted := KeyOf(l) + "=" + REDACTED;
    assert (l + after)[|before|] == ':';
    assert forall j | k < j < |redacted| :: redacted[j] != ':' by {
      assert redacted[k + 1..] == REDACTED;
      assert forall j | 0 <= j < |REDACTED| :: REDACTED[j] != ':';
      assert forall j | k < j < |redacted| :: redacted[j] == redacted[k + 1..][j - k - 1];
    }
    hide IsSensitiveQueryKey;
  }

  // ---------- Both promises fail when the first "://" is in the query ----------

  // A pair is lost: the text from "b" to "c" is taken for user information.
  lemma PairLost()
    ensures !WorksByParts("?a=://b&token=c@d")
  {
    hide WorksByParts, UserinfoOf, FirstOf, FirstMark;
    var url := "?a=://b&token=c@d";
    FirstOfIs(url, "?", 0, 0);
    MarkIs(url, 3);
    UserinfoIs(url, 3, 17, 15);
    assert url[6..15][1] == '&';
    WorksByPartsExactly(url);
  }

  // The first pass hides the first "://", the second then finds the one after it.
  lemma SecondPassChanges()
    ensures Redacted(Redacted("?token=://x&b=://u@h")) != Redacted("?token=://x&b=://u@h")
  {
    hide Redacted, UserinfoOf, FirstOf, FirstMark, Split, RedactedPairs, Join;
    var url := "?token=://x&b=://u@h";
    var once := "?token=<redacted>&b=://u@h";
    NoUserinfoWhen(url, 7, 15);
    BareWithout(url);
    OnceRedacted();
    assert Redacted(url) == once;
    assert '&' !in once[23..24];
    UserinfoIs(once, 20, 26, 24);
    assert once[23..24] != REDACTED;
    IdempotentWhenNothingShown(url);
  }

  lemma OnceRedacted()
    requires WithoutUserinfo("?token=://x&b=://u@h") == "?token=://x&b=://u@h"
    ensures Redacted("?token=://x&b=://u@h") == "?token=<redacted>&b=://u@h"
  {
    hide WithoutUserinfo, Parts, Text, RedactedPairs;
    var a, b, hidden := "token=://x", "b=://u@h", "token=<redacted>";
    PartsBefore(a, b);
    TwoRedacted(a, b, hidden);
    TextAfter(hidden, b);
  }

  lemma PartsBefore(a: string, b: string)
    requires a == "token=://x" && b == "b=://u@h"
    ensures Parts("?token=://x&b=://u@h") == UrlParts("", [a, b], "")
  {
    hide FirstOf, Split, Parts;
    SplitCons(a, b);
    SplitAlone(b);
    assert "?token=://x&b=://u@h" == "" + ("?" + (a + "&" + b)) + "";
    PartsOfConcat("", a + "&" + b, "");
    assert [a] + [b] == [a, b];
  }

  lemma TwoRedacted(a: string, b: string, hidden: string)
    requires a == "token=://x" && b == "b=://u@h" && hidden == "token=<redacted>"
    ensures RedactedPairs([a, b]) == [hidden, b]
  {
    hide IsSensitivePair;
    SensitiveToken();
    PlainB();
    assert "token" + "=" + REDACTED == hidden;
  }

  lemma TextAfter(hidden: string, b: string)
    requires b == "b=://u@h" && hidden == "token=<redacted>"
    ensures Text(UrlParts("", [hidden, b], "")) == "?token=<redacted>&b=://u@h"
  {
    hide Join;
    assert [hidden] + [b] == [hidden, b];
    JoinCons(hidden, [b]);
    JoinAlone(b);
  }

  lemma JoinAlone(pair: string)
    ensures Join([pair]) == pair
  {
  }

  lemma SensitiveToken()
    ensures IsSensitivePair("token=://x") && KeyOf("token=://x") == "token"
  {
    hide FirstOf;
    var a := "token=://x";
    FirstOfIs(a, "=", 0, 5);
    assert a[5] == '=' && a[..5] == "token";
    assert LowerAscii("token") == "token";
    assert SENSITIVE_KEYS[0] == "token";
  }

  lemma PlainB()
    ensures !IsSensitivePair("b=://u@h")
  {
    hide FirstOf;
    var b := "b=://u@h";
    FirstOfIs(b, "=", 0, 1);
    assert b[..1] == "b";
    assert LowerAscii("b") == "b";
    assert forall k | k in SENSITIVE_KEYS :: |k| > 1;
  }
}
