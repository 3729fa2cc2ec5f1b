/** Redaction of credentials in traced URLs: the user information of the authority and the values
    of sensitive query keys (src/devtools/network/network_trace.cpp, RedactSensitiveUrl). */
module RedactUrl {
  import opened NetworkTraces

  const SENSITIVE_KEYS := ["token", "access_token", "id_token", "refresh_token", "api_key", "apikey", "auth",
                           "authorization", "password", "passwd", "secret"]

  predicate IsSensitiveQueryKey(key: string) {
    LowerAscii(key) in SENSITIVE_KEYS
  }

  // A query key is sensitive exactly when, in whatever case, it is one of these eleven.
  lemma SensitiveKeyInAnyCase(key: string)
    ensures IsSensitiveQueryKey(key) <==> exists k | k in ["token", "access_token", "id_token", "refresh_token",
              "api_key", "apikey", "auth", "authorization", "password", "passwd", "secret"] :: SameIgnoringCase(key, k)
  {
    SensitiveKeysLower();
    forall k | k in SENSITIVE_KEYS
      ensures LowerAscii(key) == k <==> SameIgnoringCase(key, k)
    {
      LowerOfLower(k);
      LowerIgnoresCase(key, k);
    }
    assert SENSITIVE_KEYS == ["token", "access_token", "id_token", "refresh_token", "api_key", "apikey", "auth",
                              "authorization", "password", "passwd", "secret"];
  }

  lemma SensitiveKeysLower()
    ensures forall k | k in SENSITIVE_KEYS :: forall i | 0 <= i < |k| :: !('A' <= k[i] <= 'Z')
  {
  }

  // ---------- Searching ----------

  // The first position from `from` on that holds one of the characters, or the length of the text.
  function FirstOf(s: string, chars: string, from: nat): (r: nat)
    requires from <= |s|
    ensures from <= r <= |s|
    ensures r < |s| ==> s[r] in chars
    ensures forall j | from <= j < r :: s[j] !in chars
    decreases |s| - from
  {
    if from == |s| || s[from] in chars then from else FirstOf(s, chars, from + 1)
  }

  predicate IsMark(s: string, i: nat) {
    i + 3 <= |s| && s[i] == ':' && s[i + 1] == '/' && s[i + 2] == '/'
  }

  // The first "://" at or after `from`, or the length of the text.
  function MarkFrom(s: string, from: nat): (r: nat)
    requires from <= |s|
    ensures from <= r <= |s|
    ensures r < |s| ==> IsMark(s, r)
    ensures forall j | from <= j < r :: !IsMark(s, j)
    decreases |s| - from
  {
    if from == |s| || IsMark(s, from) then from else MarkFrom(s, from + 1)
  }

  function FirstMark(s: string): nat {
    MarkFrom(s, 0)
  }

  lemma FirstOfIs(s: string, chars: string, from: nat, r: nat)
    requires from <= r <= |s|
    requires r < |s| ==> s[r] in chars
    requires forall j | from <= j < r :: s[j] !in chars
    ensures FirstOf(s, chars, from) == r
  {
  }

  // The last '@' in s[from..end], or `end`.
  function LastAt(s: string, from: nat, end: nat): (r: nat)
    requires from <= end <= |s|
    ensures from <= r <= end
    ensures r < end ==> s[r] == '@'
    ensures forall j | from <= j < end && r < j :: s[j] != '@'
    ensures r == end ==> '@' !in s[from..end]
    decreases end
  {
    if from == end then end
    else if s[end - 1] == '@' then end - 1
    else
      var r := LastAt(s, from, end - 1);
      assert s[from..end] == s[from..end - 1] + [s[end - 1]];
      if r == end - 1 then end else r
  }

  // ---------- The parts of a URL ----------

  function Split(query: string): (r: seq<string>)
    ensures r != []
    ensures forall i | 0 <= i < |r| :: '&' !in r[i]
    ensures forall i | 0 <= i < |r| :: forall c | c in r[i] :: c in query
    decreases |query|
  {
    var amp := FirstOf(query, "&", 0);
    if amp == |query| then [query] else [query[..amp]] + Split(query[amp + 1..])
  }

  function Join(pairs: seq<string>): string
    requires pairs != []
  {
    if |pairs| == 1 then pairs[0] else pairs[0] + "&" + Join(pairs[1..])
  }

  // No pairs when there is no '?'; then everything is the head.
  datatype UrlParts = UrlParts(head: string, pairs: seq<string>, fragment: string)

  function Parts(url: string): UrlParts {
    var q := FirstOf(url, "?", 0);
    if q == |url| then UrlParts(url, [], "")
    else
      var f := FirstOf(url, "#", q + 1);
      UrlParts(url[..q], Split(url[q + 1..f]), url[f..])
  }

  function Text(p: UrlParts): string {
    p.head + (if p.pairs == [] then "" else "?" + Join(p.pairs)) + p.fragment
  }

  predicate ArePairs(pairs: seq<string>) {
    forall i | 0 <= i < |pairs| :: '&' !in pairs[i] && '#' !in pairs[i]
  }

  predicate AreParts(p: UrlParts) {
    && '?' !in p.head
    && ArePairs(p.pairs)
    && (p.pairs == [] ==> p.fragment == "")
    && (p.fragment != "" ==> p.fragment[0] == '#')
  }

  lemma {:induction false} JoinOfSplit(query: string)
    ensures Join(Split(query)) == query
    decreases |query|
  {
    var amp := FirstOf(query, "&", 0);
    if amp < |query| {
      JoinOfSplit(query[amp + 1..]);
      assert Split(query)[1..] == Split(query[amp + 1..]);
      assert query == query[..amp] + "&" + query[amp + 1..];
    }
  }

  lemma {:induction false} SplitOfJoin(pairs: seq<string>)
    requires pairs != [] && ArePairs(pairs)
    ensures Split(Join(pairs)) == pairs && '#' !in Join(pairs)
  {
    if |pairs| > 1 {
      SplitOfJoin(pairs[1..]);
      var text := Join(pairs);
      FirstOfIs(text, "&", 0, |pairs[0]|);
      assert text[..|pairs[0]|] == pairs[0] && text[|pairs[0]| + 1..] == Join(pairs[1..]);
    } else {
      FirstOfIs(pairs[0], "&", 0, |pairs[0]|);
    }
  }

  lemma TextOfParts(url: string)
    ensures Text(Parts(url)) == url && AreParts(Parts(url))
  {
    var q := FirstOf(url, "?", 0);
    if q < |url| {
      var f := FirstOf(url, "#", q + 1);
      JoinOfSplit(url[q + 1..f]);
      assert url == url[..q] + ("?" + url[q + 1..f]) + url[f..];
    }
  }

  lemma PartsOfConcat(head: string, query: string, fragment: string)
    requires '?' !in head && '#' !in query && (fragment != "" ==> fragment[0] == '#')
    ensures Parts(head + ("?" + query) + fragment) == UrlParts(head, Split(query), fragment)
  {
    hide Split;
    var url := head + ("?" + query) + fragment;
    var q := |head|;
    var f := q + 1 + |query|;
    assert url[..q] == head && url[q + 1..f] == query && url[f..] == fragment;
    FirstOfIs(url, "?", 0, q);
    assert forall j | q + 1 <= j < f :: url[j] == query[j - q - 1];
    FirstOfIs(url, "#", q + 1, f);
  }

  lemma PartsOfText(p: UrlParts)
    requires AreParts(p)
    ensures Parts(Text(p)) == p
  {
    hide Split;
    if p.pairs == [] {
      assert Text(p) == p.head;
      FirstOfIs(p.head, "?", 0, |p.head|);
    } else {
      SplitOfJoin(p.pairs);
      PartsOfConcat(p.head, Join(p.pairs), p.fragment);
    }
  }

  // ---------- Redaction ----------

  // The user information is url[from..to].
  datatype Userinfo = NoUserinfo | At(from: nat, to: nat)

  function UserinfoOf(url: string): (r: Userinfo)
    ensures r.At? ==> FirstMark(url) + 3 == r.from <= r.to < |url| && url[r.to] == '@'
    ensures r.At? ==> forall j | r.from <= j < r.to :: url[j] !in "/?#"
  {
    var m := FirstMark(url);
    if m == |url| then NoUserinfo
    else
      var end := FirstOf(url, "/?#", m + 3);
      var at := LastAt(url, m + 3, end);
      if at < end then At(m + 3, at) else NoUserinfo
  }

  function WithoutUserinfo(url: string): string {
    match UserinfoOf(url)
    case NoUserinfo => url
    case At(from, to) => url[..from] + REDACTED + url[to..]
  }

  function KeyOf(pair: string): string {
    pair[..FirstOf(pair, "=", 0)]
  }

  predicate IsSensitivePair(pair: string) {
    '=' in pair && IsSensitiveQueryKey(KeyOf(pair))
  }

  function RedactedPair(pair: string): string {
    if IsSensitivePair(pair) then KeyOf(pair) + "=" + REDACTED else pair
  }

  function RedactedPairs(pairs: seq<string>): (r: seq<string>)
    ensures |r| == |pairs| && forall i | 0 <= i < |r| :: r[i] == RedactedPair(pairs[i])
  {
    seq(|pairs|, i requires 0 <= i < |pairs| => RedactedPair(pairs[i]))
  }

  function PairsRedacted(p: UrlParts): UrlParts {
    p.(pairs := RedactedPairs(p.pairs))
  }

  function Redacted(url: string): string {
    Text(PairsRedacted(Parts(WithoutUserinfo(url))))
  }

  function RedactedQuery(query: string): string {
    Join(RedactedPairs(Split(query)))
  }

  lemma RedactedQueryStep(query: string, cursor: nat)
    requires cursor <= |query|
    ensures var end := FirstOf(query, "&", cursor); var pair := query[cursor..end];
      RedactedQuery(query[cursor..])
      == if end == |query| then RedactedPair(pair) else RedactedPair(pair) + "&" + RedactedQuery(query[end + 1..])
  {
    hide RedactedPair;
    var rest, end := query[cursor..], FirstOf(query, "&", cursor);
    FirstOfIs(rest, "&", 0, end - cursor);
    assert rest[..end - cursor] == query[cursor..end];
    if end == |query| {
      assert rest == query[cursor..end] && |rest| == end - cursor;
      assert Split(rest) == [rest];
      assert RedactedPairs(Split(rest)) == [RedactedPair(query[cursor..end])];
    } else {
      assert rest[end - cursor + 1..] == query[end + 1..];
      var next := Split(query[end + 1..]);
      assert RedactedPairs(Split(rest)) == [RedactedPair(query[cursor..end])] + RedactedPairs(next);
      JoinCons(RedactedPair(query[cursor..end]), RedactedPairs(next));
    }
  }

  lemma JoinCons(first: string, pairs: seq<string>)
    requires pairs != []
    ensures Join([first] + pairs) == first + "&" + Join(pairs)
  {
    assert ([first] + pairs)[1..] == pairs;
  }

  method RedactPair(pair: string) returns (text: string)
    ensures text == RedactedPair(pair)
  {
    hide IsSensitiveQueryKey;
    text := "";
    var equals := FirstOf(pair, "=", 0);
    if equals == |pair| {
      text := pair;
    } else {
      var key := pair[..equals];
      text := key + "=";
      if IsSensitiveQueryKey(key) {
        text := text + REDACTED;
      } else {
        text := text + pair[equals + 1..];
      }
    }
  }

  // The query rebuilt pair by pair.
  method RedactQuery(query: string) returns (rebuilt: string)
    ensures rebuilt == RedactedQuery(query)
  {
    hide RedactedQuery, RedactedPair;
    rebuilt := "";
    var cursor := 0;
    var first := true;
    assert query[0..] == query;
    while cursor <= |query|
      invariant cursor <= |query|
      invariant first ==> rebuilt == ""
      invariant RedactedQuery(query) == rebuilt + (if first then "" else "&") + RedactedQuery(query[cursor..])
      decreases |query| - cursor
    {
      var pairEnd := FirstOf(query, "&", cursor);
      RedactedQueryStep(query, cursor);
      if !first {
        rebuilt := rebuilt + "&";
      }
      first := false;
      var text := RedactPair(query[cursor..pairEnd]);
      rebuilt := rebuilt + text;
      if pairEnd == |query| {
        break;
      }
      cursor := pairEnd + 1;
    }
  }

  lemma RedactedText(url: string)
    ensures var bare := WithoutUserinfo(url); var q := FirstOf(bare, "?", 0);
      Redacted(url) == if q == |bare| then bare
                       else var f := FirstOf(bare, "#", q + 1);
                            bare[..q + 1] + RedactedQuery(bare[q + 1..f]) + bare[f..]
  {
    hide WithoutUserinfo, Split, Join, RedactedPair;
    var bare := WithoutUserinfo(url);
    var q := FirstOf(bare, "?", 0);
    if q == |bare| {
      assert RedactedPairs([]) == [];
    } else {
      assert bare[..q + 1] == bare[..q] + "?";
    }
  }

  method RedactSensitiveUrl(original: string) returns (r: string)
    ensures r == Redacted(original)
  {
    hide Redacted, RedactedQuery;
    var url := original;
    var mark := FirstMark(url);
    if mark != |url| {
      var authorityStart := mark + 3;
      var authorityEnd := FirstOf(url, "/?#", authorityStart);
      var at := LastAt(url, authorityStart, authorityEnd);
      if at < authorityEnd {
        url := url[..authorityStart] + REDACTED + url[at..];
      }
    }
    RedactedText(original);
    var queryPos := FirstOf(url, "?", 0);
    if queryPos == |url| {
      return url;
    }
    var queryEnd := FirstOf(url, "#", queryPos + 1);
    var rebuilt := RedactQuery(url[queryPos + 1..queryEnd]);
    r := url[..queryPos + 1] + rebuilt + url[queryEnd..];
  }

  // ---------- What redaction does to one pair ----------

  lemma RedactedPairLaws(pair: string)
    ensures IsSensitivePair(RedactedPair(pair)) == IsSensitivePair(pair)
    ensures KeyOf(RedactedPair(pair)) == KeyOf(pair)
    ensures RedactedPair(RedactedPair(pair)) == RedactedPair(pair)
    ensures forall c | c in "&#?:" && c in RedactedPair(pair) :: c in pair
  {
    hide IsSensitiveQueryKey;
    if IsSensitivePair(pair) {
      var key := KeyOf(pair);
      var redacted := key + "=" + REDACTED;
      assert redacted[|key|] == '=';
      FirstOfIs(redacted, "=", 0, |key|);
      assert redacted[..|key|] == key;
    }
  }

  lemma RedactedPairsLaws(pairs: seq<string>)
    requires ArePairs(pairs)
    ensures ArePairs(RedactedPairs(pairs)) && RedactedPairs(RedactedPairs(pairs)) == RedactedPairs(pairs)
  {
    hide RedactedPair;
    forall i | 0 <= i < |pairs|
      ensures '&' !in RedactedPair(pairs[i]) && '#' !in RedactedPair(pairs[i])
      ensures RedactedPair(RedactedPair(pairs[i])) == RedactedPair(pairs[i])
    {
      RedactedPairLaws(pairs[i]);
    }
  }

  lemma PartsOfRedacted(url: string)
    ensures Parts(Redacted(url)) == PairsRedacted(Parts(WithoutUserinfo(url)))
    ensures AreParts(Parts(Redacted(url)))
  {
    hide Parts, Text, WithoutUserinfo, RedactedPairs;
    var p := Parts(WithoutUserinfo(url));
    TextOfParts(WithoutUserinfo(url));
    RedactedPairsLaws(p.pairs);
    PartsOfText(PairsRedacted(p));
  }

  // Whatever the URL: no pair of the result shows the value of a sensitive key.
  lemma SensitiveValuesHidden(url: string, i: nat)
    requires i < |Parts(Redacted(url)).pairs| && IsSensitivePair(Parts(Redacted(url)).pairs[i])
    ensures var pair := Parts(Redacted(url)).pairs[i]; pair == KeyOf(pair) + "=" + REDACTED
  {
    hide WithoutUserinfo, IsSensitiveQueryKey;
    PartsOfRedacted(url);
    var before := Parts(WithoutUserinfo(url)).pairs[i];
    RedactedPairLaws(before);
  }
}
