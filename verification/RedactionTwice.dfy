/** Exactly when a second redaction changes nothing, by the URL itself. */
module RedactionTwice {
  import opened MaskedText
  import opened NetworkTraces
  import opened RedactUrl
  import opened RedactionLaws

  // ---------- What is left to find, by the URL itself ----------

  // Where the text begins that the first step leaves as it is: at the '@' of the user information, or
  // right after the first "://".
  function Rest(url: string): (to: nat)
    requires FirstMark(url) < |url|
    ensures FirstMark(url) + 3 <= to <= |url|
    ensures forall j | FirstMark(url) + 3 <= j < to :: url[j] !in "/?#"
  {
    match UserinfoOf(url)
    case NoUserinfo => FirstMark(url) + 3
    case At(_, to) => to
  }

  // What takes the place of the text from the first "://" to there.
  function Replacement(url: string): string {
    if UserinfoOf(url).At? then REDACTED else ""
  }

  lemma BareParts(url: string)
    requires FirstMark(url) < |url|
    ensures WithoutUserinfo(url) == url[..FirstMark(url) + 3] + Replacement(url) + url[Rest(url)..]
  {
    hide UserinfoOf;
    var m := FirstMark(url);
    if UserinfoOf(url) == NoUserinfo {
      assert url[..m + 3] + "" + url[m + 3..] == url;
    }
  }

  // The first "://" is in the query or in the fragment.
  predicate MarkFollowsQuery(url: string)
    ensures MarkFollowsQuery(url) ==> FirstMark(url) < |url|
  {
    FirstOf(url, "?", 0) < FirstMark(url) < |url|
  }

  // The pair of the query that holds the first "://".
  function MarkedPair(url: string): string
    requires MarkFollowsQuery(url)
  {
    LastPair(url[FirstOf(url, "?", 0) + 1..FirstMark(url) + 3])
  }

  // The i-th character, at or after Rest, is left by both steps.  It is hidden when it belongs to the value of
  // a sensitive pair: its own one, or the one with the first "://" when no '&' comes between, for the
  // first step has joined what there was.
  predicate Kept(url: string, i: nat)
    requires MarkFollowsQuery(url)
  {
    && Rest(url) <= i < |url|
    && !(&& url[i] !in "&#" && InQuery(url[..i])
         && IsSensitivePair(if '&' in url[Rest(url)..i] then PairAt(url[..i]) else MarkedPair(url)))
  }

  lemma LastPairConcat(x: string, z: string)
    ensures LastPair(x + z) == if '&' in z then LastPair(z) else LastPair(x) + z
  {
    hide Split;
    SplitConcat(x, z);
    PiecesOf(z);
    if '&' !in z {
      SplitAlone(z);
    }
  }

  // A URL whose first "://" is in or after the query: where its parts lie, ...
  lemma LateBounds(url: string)
    requires MarkFollowsQuery(url)
    ensures FirstMark(url) < |url| && FirstOf(url, "?", 0) + 4 <= FirstMark(url) + 3 <= Rest(url) <= |url|
    ensures '#' !in url[FirstMark(url) + 3..Rest(url)]
  {
    hide UserinfoOf, FirstMark;
    MarkAt(url);
  }

  lemma MarkedPairMarked(url: string)
    requires MarkFollowsQuery(url)
    ensures ':' in MarkedPair(url)
  {
    hide LastPair, FirstMark;
    var q, m := FirstOf(url, "?", 0), FirstMark(url);
    MarkAt(url);
    QueryCharacter(url, q);
    LastPairMarked(url[q + 1..m + 3]);
  }

  lemma QueryCharacter(url: string, q: nat)
    requires q == FirstOf(url, "?", 0) < |url|
    ensures url[q] == '?'
  {
  }

  lemma MarkAt(url: string)
    requires FirstMark(url) < |url|
    ensures IsMark(url, FirstMark(url))
  {
  }

  // ... and what is read of the query up to i, when w stands for the text from a on.
  lemma BareUpTo(url: string, w: string, q: nat, a: nat, to: nat, i: nat)
    requires q == FirstOf(url, "?", 0) < a <= to <= i <= |url|
    ensures var bare := url[..a] + w + url[to..i];
      FirstOf(bare, "?", 0) == q < |bare| && bare[q + 1..] == (url[q + 1..a] + w) + url[to..i]
  {
    QueryOfPrefix(url, a);
    QueryGrows(url[..a], w);
    QueryGrows(url[..a] + w, url[to..i]);
  }

  lemma QueryOfPrefix(url: string, a: nat)
    requires FirstOf(url, "?", 0) < a <= |url|
    ensures var q := FirstOf(url, "?", 0); FirstOf(url[..a], "?", 0) == q && url[..a][q + 1..] == url[q + 1..a]
  {
    FirstOfIs(url[..a], "?", 0, FirstOf(url, "?", 0));
  }

  lemma QueryGrows(x: string, z: string)
    requires FirstOf(x, "?", 0) < |x|
    ensures var q := FirstOf(x, "?", 0); FirstOf(x + z, "?", 0) == q && (x + z)[q + 1..] == x[q + 1..] + z
  {
    FirstOfIs(x + z, "?", 0, FirstOf(x, "?", 0));
  }

  lemma HidesInQuery(x: string, c: char)
    ensures Hides(x, c) <==> InQuery(x) && c !in "&#" && IsSensitivePair(PairAt(x))
  {
    hide InQuery, PairAt, IsSensitivePair;
  }

  lemma HidesBy(x: string, query: string, c: char)
    requires FirstOf(x, "?", 0) < |x| && x[FirstOf(x, "?", 0) + 1..] == query
    ensures InQuery(x) <==> '#' !in query
    ensures InQuery(x) ==> PairAt(x) == LastPair(query)
    ensures Hides(x, c) <==> '#' !in query && c !in "&#" && IsSensitivePair(LastPair(query))
  {
    hide *;
    InQueryBy(x, query);
    HidesInQuery(x, c);
  }

  lemma InQueryBy(x: string, query: string)
    requires FirstOf(x, "?", 0) < |x| && x[FirstOf(x, "?", 0) + 1..] == query
    ensures InQuery(x) <==> '#' !in query
    ensures InQuery(x) ==> PairAt(x) == LastPair(query)
  {
    hide LastPair, FirstOf;
  }

  lemma KeptBy(url: string, i: nat)
    requires MarkFollowsQuery(url) && Rest(url) <= i < |url|
    ensures Kept(url, i) <==>
      !(&& url[i] !in "&#" && InQuery(url[..i])
        && IsSensitivePair(if '&' in url[Rest(url)..i] then PairAt(url[..i]) else MarkedPair(url)))
  {
    hide LastPair, IsSensitivePair, FirstOf, FirstMark, InQuery, PairAt, Rest, MarkedPair;
  }

  lemma MarkedPairIs(url: string)
    requires MarkFollowsQuery(url)
    ensures FirstMark(url) + 3 <= |url|
    ensures MarkedPair(url) == LastPair(url[FirstOf(url, "?", 0) + 1..FirstMark(url) + 3])
  {
    hide LastPair;
  }

  lemma HidesUpTo(url: string, w: string, q: nat, a: nat, to: nat, i: nat, c: char)
    requires q == FirstOf(url, "?", 0) < a <= to <= i <= |url|
    ensures var bare, query := url[..a] + w + url[to..i], (url[q + 1..a] + w) + url[to..i];
      && (InQuery(bare) <==> '#' !in query) && (InQuery(bare) ==> PairAt(bare) == LastPair(query))
      && (Hides(bare, c) <==> '#' !in query && c !in "&#" && IsSensitivePair(LastPair(query)))
  {
    hide *;
    BareUpTo(url, w, q, a, to, i);
    HidesBy(url[..a] + w + url[to..i], (url[q + 1..a] + w) + url[to..i], c);
  }

  lemma HidesBare(url: string, i: nat)
    requires MarkFollowsQuery(url) && Rest(url) <= i < |url|
    ensures Kept(url, i) <==> !Hides(url[..FirstMark(url) + 3] + Replacement(url) + url[Rest(url)..i], url[i])
  {
    hide *;
    var q, a, to := FirstOf(url, "?", 0), FirstMark(url) + 3, Rest(url);
    LateBounds(url);
    MarkedPairMarked(url);
    MarkedPairIs(url);
    PlainReplacement(url);
    HidesUpTo(url, url[a..to], q, a, to, i, url[i]);
    HidesUpTo(url, Replacement(url), q, a, to, i, url[i]);
    SamePairSensitive(url[q + 1..a], url[a..to], Replacement(url), url[to..i]);
    PrefixSpelled(url, a, to, i);
    KeptBy(url, i);
  }

  lemma PrefixSpelled(url: string, a: nat, to: nat, i: nat)
    requires a <= to <= i <= |url|
    ensures url[..a] + url[a..to] + url[to..i] == url[..i]
  {
  }

  // Whether the pair after z is sensitive does not depend on what stands between x and z, nor does it matter
  // there whether the query has ended.
  lemma SamePairSensitive(x: string, u: string, w: string, z: string)
    requires ':' in LastPair(x) && '#' !in u && forall c | c in w :: c !in "&#"
    ensures '#' in (x + w) + z <==> '#' in (x + u) + z
    ensures IsSensitivePair(LastPair((x + w) + z))
       <==> IsSensitivePair(if '&' in z then LastPair((x + u) + z) else LastPair(x))
  {
    hide IsSensitivePair, LastPair;
    LastPairConcat(x + u, z);
    LastPairConcat(x + w, z);
    LastPairConcat(x, w);
    if '&' !in z {
      assert LastPair(x) + w + z == LastPair(x) + (w + z);
      SensitiveUpTo(LastPair(x), w + z);
    }
  }

  lemma PlainReplacement(url: string)
    ensures forall c | c in Replacement(url) :: c !in "&#=:/?@" && !EndsAuthority(c)
    ensures Replacement(url) == REDACTED || Replacement(url) == ""
  {
    hide UserinfoOf;
    assert forall j | 0 <= j < |REDACTED| :: REDACTED[j] !in "&#=:/?@";
  }

  // The first "://" from `from` on that is kept, or the length of the URL.
  function KeptMark(url: string, from: nat): (r: nat)
    requires MarkFollowsQuery(url) && from <= |url|
    ensures from <= r <= |url| && (r < |url| ==> r + 3 <= |url|)
    decreases |url| - from
  {
    hide Kept, MarkFollowsQuery;
    if from == |url| || (IsMark(url, from) && Kept(url, from)) then from else KeptMark(url, from + 1)
  }

  // The first '/', '?' or '#' from `from` on that is kept, or the length of the URL.
  function KeptEnd(url: string, from: nat): (r: nat)
    requires MarkFollowsQuery(url) && from <= |url|
    ensures from <= r <= |url|
    decreases |url| - from
  {
    hide Kept, MarkFollowsQuery, EndsAuthority;
    if from == |url| || (EndsAuthority(url[from]) && Kept(url, from)) then from else KeptEnd(url, from + 1)
  }

  lemma {:induction false} KeptMarkFirst(url: string, from: nat)
    requires MarkFollowsQuery(url) && from <= |url|
    ensures var r := KeptMark(url, from);
      && (r < |url| ==> IsMark(url, r) && Kept(url, r))
      && forall j | from <= j < r :: !(IsMark(url, j) && Kept(url, j))
    decreases |url| - from
  {
    hide Kept, IsMark, MarkFollowsQuery;
    if from < |url| && !(IsMark(url, from) && Kept(url, from)) {
      KeptMarkFirst(url, from + 1);
    }
  }

  lemma {:induction false} KeptEndFirst(url: string, from: nat)
    requires MarkFollowsQuery(url) && from <= |url|
    ensures var r := KeptEnd(url, from);
      && (r < |url| ==> EndsAuthority(url[r]) && Kept(url, r))
      && forall j | from <= j < r :: !(EndsAuthority(url[j]) && Kept(url, j))
    decreases |url| - from
  {
    hide Kept, EndsAuthority, MarkFollowsQuery;
    if from < |url| && !(EndsAuthority(url[from]) && Kept(url, from)) {
      KeptEndFirst(url, from + 1);
    }
  }

  // No '@' is kept in url[from..] before the first '/', '?' or '#' that is kept, ...
  predicate NoAtKept(url: string, from: nat)
    requires MarkFollowsQuery(url) && from <= |url|
  {
    forall i | from <= i < KeptEnd(url, from) && url[i] == '@' :: !Kept(url, i)
  }

  // ... or only one that ends "<redacted>".
  predicate AtRedacted(url: string, from: nat)
    requires MarkFollowsQuery(url) && from <= |url|
  {
    forall i | from <= i < KeptEnd(url, from) && url[i] == '@' && Kept(url, i) :: url[from..i] == REDACTED
  }

  // What the second pass will look at: the first "://" itself, unless it is in a sensitive value, with the
  // '@' that the first pass rewrote before; else the next "://" that is kept.
  predicate NothingLeft(url: string)
    requires MarkFollowsQuery(url)
  {
    if Survives(url, FirstMark(url)) then
      if UserinfoOf(url).At? then NoAtKept(url, Rest(url) + 1) else NoAtKept(url, Rest(url))
    else
      var m := KeptMark(url, Rest(url));
      m < |url| ==> AtRedacted(url, m + 3)
  }

  // ---------- The two conditions are one ----------

  lemma VisibleMarkIs(t: string, from: nat, r: nat)
    requires from <= r <= |t| && (r < |t| ==> IsMark(t, r) && Survives(t, r))
    requires forall j | from <= j < r :: !(IsMark(t, j) && Survives(t, j))
    ensures VisibleMark(t, from) == r
  {
    hide Survives, IsMark;
  }

  lemma VisibleEndIs(t: string, from: nat, r: nat)
    requires from <= r <= |t| && (r < |t| ==> EndsAuthority(t[r]) && Survives(t, r))
    requires forall j | from <= j < r :: !(EndsAuthority(t[j]) && Survives(t, j))
    ensures VisibleEnd(t, from) == r
  {
    hide Survives, EndsAuthority;
  }

  // From `to` on the URL is, character by character, the bare text from k on, and as much of it is kept.
  ghost predicate Shifted(url: string, bare: string, to: nat, k: nat)
    requires MarkFollowsQuery(url)
  {
    && to == Rest(url) && k <= |bare| && |bare| - k == |url| - to
    && forall i: nat | to <= i < |url| :: bare[i - to + k] == url[i] && (Survives(bare, i - to + k) <==> Kept(url, i))
  }

  lemma BareShifted(url: string)
    requires MarkFollowsQuery(url)
    ensures var a, w := FirstMark(url) + 3, Replacement(url);
      a <= |url| && Shifted(url, url[..a] + w + url[Rest(url)..], Rest(url), a + |w|)
  {
    hide *;
    LateBounds(url);
    var a, w, to := FirstMark(url) + 3, Replacement(url), Rest(url);
    var bare := url[..a] + w + url[to..];
    var k := a + |w|;
    forall i: nat | to <= i < |url|
      ensures bare[i - to + k] == url[i] && (Survives(bare, i - to + k) <==> Kept(url, i))
    {
      HidesBare(url, i);
      BarePrefix(url, w, a, to, i);
      SurvivesBy(bare, i - to + k);
    }
    ShiftedBy(url, bare, to, k);
  }

  lemma BarePrefix(url: string, w: string, a: nat, to: nat, i: nat)
    requires a <= to <= i < |url|
    ensures var bare := url[..a] + w + url[to..]; var j := i - to + a + |w|;
      j < |bare| && bare[j] == url[i] && bare[..j] == url[..a] + w + url[to..i]
  {
  }

  lemma SurvivesBy(t: string, i: nat)
    requires i < |t|
    ensures Survives(t, i) <==> !Hides(t[..i], t[i])
  {
    hide Hides;
  }

  lemma ShiftedBy(url: string, bare: string, to: nat, k: nat)
    requires MarkFollowsQuery(url)
    requires to == Rest(url) && k <= |bare| && |bare| - k == |url| - to
    requires forall i: nat | to <= i < |url| ::
      bare[i - to + k] == url[i] && (Survives(bare, i - to + k) <==> Kept(url, i))
    ensures Shifted(url, bare, to, k)
  {
    hide Survives, Kept, Rest, FirstMark;
  }

  lemma ShiftedMark(url: string, bare: string, to: nat, k: nat)
    requires MarkFollowsQuery(url) && Shifted(url, bare, to, k)
    ensures VisibleMark(bare, k) == KeptMark(url, to) - to + k
  {
    hide Survives, Kept, Rest, MarkFollowsQuery, EndsAuthority;
    var r := KeptMark(url, to);
    KeptMarkFirst(url, to);
    forall i: nat | to <= i < |url|
      ensures IsMark(bare, i - to + k) <==> IsMark(url, i)
    {
    }
    hide IsMark;
    assert r < |url| ==> IsMark(bare, r - to + k) && Survives(bare, r - to + k);
    forall j | k <= j < r - to + k
      ensures !(IsMark(bare, j) && Survives(bare, j))
    {
      var i: nat := j - k + to;
      assert j == i - to + k && to <= i < r;
      assert !(IsMark(url, i) && Kept(url, i));
    }
    VisibleMarkIs(bare, k, r - to + k);
  }

  lemma ShiftedEnd(url: string, bare: string, to: nat, k: nat, from: nat)
    requires MarkFollowsQuery(url) && Shifted(url, bare, to, k) && to <= from <= |url|
    ensures VisibleEnd(bare, from - to + k) == KeptEnd(url, from) - to + k
  {
    hide Survives, Kept, Rest, MarkFollowsQuery, EndsAuthority;
    var r := KeptEnd(url, from);
    KeptEndFirst(url, from);
    assert r < |url| ==> EndsAuthority(bare[r - to + k]) && Survives(bare, r - to + k);
    forall j | from - to + k <= j < r - to + k
      ensures !(EndsAuthority(bare[j]) && Survives(bare, j))
    {
      var i: nat := j - k + to;
      assert j == i - to + k && from <= i < r;
      assert !(EndsAuthority(url[i]) && Kept(url, i));
    }
    VisibleEndIs(bare, from - to + k, r - to + k);
  }

  lemma ShiftedNoAt(url: string, bare: string, to: nat, k: nat, from: nat)
    requires MarkFollowsQuery(url) && Shifted(url, bare, to, k) && to <= from <= |url|
    ensures NoAtVisible(bare, from - to + k) <==> NoAtKept(url, from)
  {
    hide Survives, Kept, Rest, MarkFollowsQuery, EndsAuthority, VisibleEnd, KeptEnd;
    ShiftedEnd(url, bare, to, k, from);
    var end := KeptEnd(url, from);
    assert forall i: nat | from <= i < end ::
      bare[i - to + k] == url[i] && (Survives(bare, i - to + k) <==> Kept(url, i));
    if NoAtKept(url, from) {
      forall j | from - to + k <= j < end - to + k && bare[j] == '@'
        ensures !Survives(bare, j)
      {
        var i: nat := j - k + to;
        assert j == i - to + k && from <= i < end && url[i] == '@';
      }
    }
  }

  lemma ShiftedAt(url: string, bare: string, to: nat, k: nat, from: nat)
    requires MarkFollowsQuery(url) && Shifted(url, bare, to, k) && to <= from <= |url|
    ensures AtVisibleRedacted(bare, from - to + k) <==> AtRedacted(url, from)
  {
    hide Survives, Kept, Rest, MarkFollowsQuery, EndsAuthority, VisibleEnd, KeptEnd;
    ShiftedEnd(url, bare, to, k, from);
    var b, end := from - to + k, KeptEnd(url, from);
    forall i: nat | from <= i < end
      ensures bare[i - to + k] == url[i] && (Survives(bare, i - to + k) <==> Kept(url, i))
      ensures bare[b..i - to + k] == url[from..i]
    {
      var left, right := bare[b..i - to + k], url[from..i];
      forall n | 0 <= n < i - from
        ensures left[n] == right[n]
      {
        assert right[n] == url[n + from] && left[n] == bare[(n + from) - to + k];
      }
    }
    if AtRedacted(url, from) {
      forall j | b <= j < end - to + k && bare[j] == '@' && Survives(bare, j)
        ensures bare[b..j] == REDACTED
      {
        var i: nat := j - k + to;
        assert j == i - to + k && from <= i < end && url[i] == '@' && Kept(url, i);
      }
    }
  }

  // ---------- Exactly when redaction is idempotent ----------

  // The first "://" of the bare text, and whether it survives there.
  lemma BareMark(url: string)
    requires MarkFollowsQuery(url)
    ensures var m, bare := FirstMark(url), WithoutUserinfo(url);
      && FirstMark(bare) == m < |bare| && IsMark(bare, m) && (forall j | 0 <= j < m :: !IsMark(bare, j))
      && (Survives(bare, m) <==> Survives(url, m))
  {
    hide *;
    BareParts(url);
    LateBounds(url);
    var m, bare := FirstMark(url), WithoutUserinfo(url);
    MarkAt(url);
    var rest := Replacement(url) + url[Rest(url)..];
    assert bare == url[..m + 3] + rest;
    MarkSpliced(url, m + 3, bare);
    assert bare[..m] == url[..m] && bare[m] == url[m];
    SurvivesBy(bare, m);
    SurvivesBy(url, m);
  }

  lemma MarkText(s: string, i: nat)
    requires i < |s|
    ensures IsMark(s, i) ==> i + 3 <= |s| && s[i] == ':' && s[i + 1] == '/' && s[i + 2] == '/'
  {
  }

  lemma SplicedText(s: string, x: string, w: string, y: string)
    requires s == x + w + y
    ensures s[|x|..|x| + |w|] == w && (forall j | |x| <= j < |x| + |w| :: s[j] in w)
    ensures y != "" ==> |x| + |w| < |s| && s[|x| + |w|] == y[0]
  {
    assert forall j | |x| <= j < |x| + |w| :: s[j] == w[j - |x|];
  }

  // Around the replaced text: nothing there ends the authority or begins a mark.
  lemma AroundReplacement(url: string)
    requires MarkFollowsQuery(url)
    ensures var m, bare, w := FirstMark(url), WithoutUserinfo(url), Replacement(url); var k := m + 3 + |w|;
      && k <= |bare| && bare[m + 3..k] == w && (forall j | m + 3 <= j < k :: !EndsAuthority(bare[j]) && bare[j] != '@')
      && (forall j | m < j < k :: !IsMark(bare, j))
      && (w == REDACTED ==> k < |bare| && bare[k] == '@')
  {
    hide *;
    BareParts(url);
    LateBounds(url);
    PlainReplacement(url);
    BareMark(url);
    var m, bare, w := FirstMark(url), WithoutUserinfo(url), Replacement(url);
    var k := m + 3 + |w|;
    MarkAt(bare);
    MarkText(bare, m);
    SplicedText(bare, url[..m + 3], w, url[Rest(url)..]);
    forall j | m < j < k
      ensures !IsMark(bare, j)
    {
      MarkText(bare, j);
    }
    if w == REDACTED {
      RestAt(url);
    }
  }

  lemma RestAt(url: string)
    requires FirstMark(url) < |url| && Replacement(url) == REDACTED
    ensures UserinfoOf(url).At? && Rest(url) < |url| && url[Rest(url)] == '@'
  {
    hide FirstMark;
  }

  lemma VisibleEndSkips(t: string, from: nat, k: nat)
    requires from <= k <= |t| && forall j | from <= j < k :: !EndsAuthority(t[j])
    ensures VisibleEnd(t, from) == VisibleEnd(t, k)
  {
    hide Survives;
    VisibleEndIs(t, from, VisibleEnd(t, k));
  }

  lemma VisibleMarkSkips(t: string, from: nat, k: nat)
    requires from <= k <= |t| && forall j | from <= j < k :: !(IsMark(t, j) && Survives(t, j))
    ensures VisibleMark(t, from) == VisibleMark(t, k)
  {
    hide Survives, IsMark;
    VisibleMarkIs(t, from, VisibleMark(t, k));
  }

  // Redacted text before an '@' would have been found.
  lemma NoRedactedText(s: string, i: nat)
    requires FirstMark(s) < |s| && UserinfoOf(s) == NoUserinfo && FirstMark(s) + 3 <= i < |s| && s[i] == '@'
    ensures s[FirstMark(s) + 3..i] != REDACTED
  {
    hide FirstMark, UserinfoOf;
    var a := FirstMark(s) + 3;
    AuthorityOf(s);
    var end := FirstOf(s, "/?#", a);
    assert end < i && s[a..i][end - a] in "/?#";
    assert forall j | 0 <= j < |REDACTED| :: REDACTED[j] !in "/?#";
  }

  lemma NothingShownWhen(t: string)
    ensures VisibleMark(t, 0) == |t| ==> NothingShown(t)
    ensures VisibleMark(t, 0) < |t| ==>
      var a := VisibleMark(t, 0) + 3; a <= |t| && (NothingShown(t) <==> AtVisibleRedacted(t, a))
  {
    hide VisibleMark, VisibleEnd, Survives, AtVisibleRedacted;
  }

  // Redacted text that ends with an '@' leaves no room for another one, ...
  lemma ShownBehindRedacted(t: string, a: nat, k: nat)
    requires a <= k < |t| && t[a..k] == REDACTED && t[k] == '@'
    requires forall j | a <= j < k :: !EndsAuthority(t[j]) && t[j] != '@'
    ensures AtVisibleRedacted(t, a) <==> NoAtVisible(t, k + 1)
  {
    hide VisibleEnd, Survives, EndsAuthority;
    EndBehindAt(t, a, k);
    forall i | k < i < |t| && t[i] == '@'
      ensures t[a..i] != REDACTED
    {
      MoreThan(t, a, k, i, REDACTED);
    }
  }

  lemma EndBehindAt(t: string, a: nat, k: nat)
    requires a <= k < |t| && t[k] == '@' && forall j | a <= j < k :: !EndsAuthority(t[j])
    ensures VisibleEnd(t, a) == VisibleEnd(t, k + 1) > k
  {
    hide *;
    AtGoesOn();
    VisibleEndSkips(t, a, k + 1);
  }

  lemma MoreThan(t: string, a: nat, k: nat, i: nat, text: string)
    requires a <= k < i <= |t| && t[a..k] == text
    ensures t[a..i] != text
  {
    assert |t[a..i]| > |t[a..k]|;
  }

  lemma AtGoesOn()
    ensures !EndsAuthority('@')
  {
  }

  // ... and without redacted text there is room for none.
  lemma ShownWithoutRedacted(t: string, a: nat)
    requires a <= |t| && forall i | a <= i < |t| && t[i] == '@' :: t[a..i] != REDACTED
    ensures AtVisibleRedacted(t, a) <==> NoAtVisible(t, a)
  {
    hide VisibleEnd, Survives;
  }

  lemma NothingLeftIs(url: string)
    requires MarkFollowsQuery(url) && Survives(url, FirstMark(url))
    ensures UserinfoOf(url).At? ==> Rest(url) < |url| && (NothingLeft(url) <==> NoAtKept(url, Rest(url) + 1))
    ensures UserinfoOf(url) == NoUserinfo ==> (NothingLeft(url) <==> NoAtKept(url, Rest(url)))
  {
    hide FirstOf, FirstMark, Survives, KeptMark, NoAtKept, AtRedacted, UserinfoOf, Kept, KeptEnd, IsMark;
    ReplacementIs(url);
  }

  // The first "://" survives.
  lemma MarkKept(url: string)
    requires MarkFollowsQuery(url) && Survives(url, FirstMark(url))
    ensures NothingShown(WithoutUserinfo(url)) <==> NothingLeft(url)
  {
    hide *;
    var m, bare, w, to := FirstMark(url), WithoutUserinfo(url), Replacement(url), Rest(url);
    var k := m + 3 + |w|;
    LateBounds(url);
    BareMark(url);
    BareParts(url);
    BareShifted(url);
    AroundReplacement(url);
    VisibleMarkIs(bare, 0, m);
    ReplacementIs(url);
    NothingLeftIs(url);
    NothingShownWhen(bare);
    if UserinfoOf(url).At? {
      ShownBehindRedacted(bare, m + 3, k);
      ShiftedNoAt(url, bare, to, k, to + 1);
    } else {
      forall i | m + 3 <= i < |url| && url[i] == '@'
        ensures url[m + 3..i] != REDACTED
      {
        NoRedactedText(url, i);
      }
      ShownWithoutRedacted(bare, m + 3);
      ShiftedNoAt(url, bare, to, k, to);
    }
  }

  lemma ReplacementIs(url: string)
    requires FirstMark(url) < |url|
    ensures Replacement(url) == (if UserinfoOf(url).At? then REDACTED else "")
    ensures UserinfoOf(url).At? ==> Rest(url) < |url|
    ensures UserinfoOf(url) == NoUserinfo ==> Rest(url) == FirstMark(url) + 3 && WithoutUserinfo(url) == url
  {
    hide FirstMark;
  }

  // The first "://" is hidden: the next one that is kept takes its place.
  lemma MarkHidden(url: string)
    requires MarkFollowsQuery(url) && !Survives(url, FirstMark(url))
    ensures NothingShown(WithoutUserinfo(url)) <==> NothingLeft(url)
  {
    hide *;
    var m, bare, w, to := FirstMark(url), WithoutUserinfo(url), Replacement(url), Rest(url);
    var k := m + 3 + |w|;
    LateBounds(url);
    BareMark(url);
    BareParts(url);
    BareShifted(url);
    AroundReplacement(url);
    VisibleMarkSkips(bare, 0, k);
    ShiftedMark(url, bare, to, k);
    ShiftedLength(url, bare, to, k);
    NothingLeftBehind(url);
    NothingShownWhen(bare);
    var next := KeptMark(url, to);
    if next < |url| {
      ShiftedAt(url, bare, to, k, next + 3);
    }
  }

  lemma NothingLeftBehind(url: string)
    requires MarkFollowsQuery(url) && !Survives(url, FirstMark(url))
    ensures var m := KeptMark(url, Rest(url)); NothingLeft(url) <==> (m < |url| ==> AtRedacted(url, m + 3))
  {
    hide FirstMark, Survives, KeptMark, AtRedacted, UserinfoOf, NoAtKept;
  }

  lemma ShiftedLength(url: string, bare: string, to: nat, k: nat)
    requires MarkFollowsQuery(url) && Shifted(url, bare, to, k)
    ensures k <= |bare| && |bare| - k == |url| - to
  {
    hide FirstOf, FirstMark, Rest, Kept, Survives;
  }

  // A second redaction changes nothing exactly when the first "://" comes before the query, or the first pass
  // leaves nothing to find.
  lemma IdempotentExactly(url: string)
    ensures Redacted(Redacted(url)) == Redacted(url) <==>
      MarkPrecedesQuery(url) || (MarkFollowsQuery(url) && NothingLeft(url))
  {
    hide *;
    if MarkPrecedesQuery(url) {
      Idempotent(url);
    } else {
      MarkIsLate(url);
      IdempotentWhenBareShowsNothing(url);
      if Survives(url, FirstMark(url)) {
        MarkKept(url);
      } else {
        MarkHidden(url);
      }
    }
  }

  lemma MarkIsLate(url: string)
    ensures MarkPrecedesQuery(url) || MarkFollowsQuery(url)
  {
    if !MarkPrecedesQuery(url) {
      QueryCharacter(url, FirstOf(url, "?", 0));
    }
  }

  // ---------- When the first "://" and the end of its authority are in sight ----------

  // Neither the first "://" nor the '/', '?' or '#' after its authority, if there is one, lies in the value of
  // a sensitive pair.
  predicate AuthorityInSight(url: string)
    requires FirstMark(url) < |url|
  {
    var end := FirstOf(url, "/?#", FirstMark(url) + 3);
    Survives(url, FirstMark(url)) && (end < |url| ==> Survives(url, end))
  }

  lemma QueryUpTo(url: string, i: nat)
    requires FirstOf(url, "?", 0) < i <= |url|
    ensures var q := FirstOf(url, "?", 0);
      && (InQuery(url[..i]) <==> '#' !in url[q + 1..i])
      && (InQuery(url[..i]) ==> PairAt(url[..i]) == LastPair(url[q + 1..i]))
  {
    hide *;
    QueryOfPrefix(url, i);
    HidesBy(url[..i], url[FirstOf(url, "?", 0) + 1..i], ' ');
  }

  // The pair with the first "://" is not sensitive when the "://" survives.
  lemma MarkedPairPlain(url: string)
    requires MarkFollowsQuery(url) && Survives(url, FirstMark(url)) && InQuery(url[..FirstMark(url)])
    ensures !IsSensitivePair(MarkedPair(url))
  {
    hide *;
    var q, m := FirstOf(url, "?", 0), FirstMark(url);
    LateBounds(url);
    MarkAt(url);
    MarkText(url, m);
    QueryOfPrefix(url, m);
    HidesBy(url[..m], url[q + 1..m], ':');
    SurvivesBy(url, m);
    MarkedPairIs(url);
    var l := LastPair(url[q + 1..m]);
    assert url[q + 1..m + 3] == url[q + 1..m] + [':', '/', '/'];
    LastPairConcat(url[q + 1..m], [':', '/', '/']);
    SensitiveSnoc(l, ':');
    SensitiveSnoc(l + [':'], '/');
    SensitiveSnoc(l + [':'] + ['/'], '/');
    assert l + [':', '/', '/'] == l + [':'] + ['/'] + ['/'];
  }

  lemma EndKept(url: string, end: nat)
    requires MarkFollowsQuery(url) && AuthorityInSight(url) && Rest(url) <= end < |url|
    requires end == FirstOf(url, "/?#", FirstMark(url) + 3)
    ensures Kept(url, end)
  {
    hide FirstOf, FirstMark, Survives, Rest, MarkedPair, LastPair, IsSensitivePair, InQuery, PairAt,
      MarkFollowsQuery, Kept;
    LateBounds(url);
    KeptBy(url, end);
    SurvivesBy(url, end);
    HidesInQuery(url[..end], url[end]);
    QueryUpTo(url, end);
    QueryUpTo(url, FirstMark(url));
    if InQuery(url[..FirstMark(url)]) {
      MarkedPairPlain(url);
    } else {
      SliceHas(url, FirstOf(url, "?", 0) + 1, FirstMark(url), end, '#');
    }
  }

  lemma SliceHas(s: string, from: nat, k: nat, to: nat, c: char)
    requires from <= k <= to <= |s| && c in s[from..k]
    ensures c in s[from..to]
  {
    var i :| 0 <= i < k - from && s[from..k][i] == c;
    assert s[from..to][i] == c;
  }

  // Then a second redaction changes nothing.
  lemma IdempotentInSight(url: string)
    requires MarkFollowsQuery(url) && AuthorityInSight(url)
    ensures Redacted(Redacted(url)) == Redacted(url)
  {
    hide FirstOf, FirstMark, Survives, MarkFollowsQuery, Kept, KeptEnd, Redacted, NothingLeft, UserinfoOf;
    IdempotentExactly(url);
    NothingLeftIs(url);
    LateBounds(url);
    AuthorityOf(url);
    ReplacementIs(url);
    var end := FirstOf(url, "/?#", FirstMark(url) + 3);
    if UserinfoOf(url).At? {
      EndIsKept(url, Rest(url) + 1, end);
    } else {
      EndIsKept(url, Rest(url), end);
    }
  }

  lemma EndIsKept(url: string, from: nat, end: nat)
    requires MarkFollowsQuery(url) && AuthorityInSight(url) && Rest(url) <= from <= end
    requires end == FirstOf(url, "/?#", FirstMark(url) + 3)
    ensures from <= |url| && KeptEnd(url, from) <= end
  {
    hide *;
    LateBounds(url);
    if end < |url| {
      EndKept(url, end);
      KeptEndFirst(url, from);
      EndIsEnd(url, FirstMark(url) + 3);
    }
  }

  lemma EndIsEnd(s: string, from: nat)
    requires from <= |s| && FirstOf(s, "/?#", from) < |s|
    ensures EndsAuthority(s[FirstOf(s, "/?#", from)])
  {
  }

  // ---------- A second way to fail ----------

  lemma MaskedPairs(pairs: seq<string>)
    requires pairs != [] && ArePairs(pairs)
    ensures Masked("?" + Join(pairs)) == "?" + Join(RedactedPairs(pairs))
  {
    hide Masked, Split, RedactedPairs, Join;
    SplitOfJoin(pairs);
    MaskedConcat("", Join(pairs), "");
    assert "" + ("?" + Join(pairs)) + "" == "?" + Join(pairs);
    assert "" + ("?" + Join(RedactedPairs(pairs))) + "" == "?" + Join(RedactedPairs(pairs));
  }

  lemma PairOf(key: string, value: string)
    requires '=' !in key
    ensures RedactedPair(key + "=" + value) ==
      if IsSensitiveQueryKey(key) then key + "=" + REDACTED else key + "=" + value
  {
    hide IsSensitiveQueryKey;
    FirstOfIs(key + "=" + value, "=", 0, |key|);
    assert (key + "=" + value)[|key|] == '=';
    assert (key + "=" + value)[..|key|] == key;
  }

  lemma KeysOfWitness()
    ensures IsSensitiveQueryKey("token") && !IsSensitiveQueryKey("a") && !IsSensitiveQueryKey("c")
  {
    assert LowerAscii("token") == "token" && LowerAscii("a") == "a" && LowerAscii("c") == "c";
    assert SENSITIVE_KEYS[0] == "token";
    assert forall k | k in SENSITIVE_KEYS :: |k| > 1;
  }

  lemma JoinThree(a: string, b: string, c: string)
    ensures Join([a, b, c]) == a + "&" + b + "&" + c
  {
    hide Join;
    assert [a] + [b, c] == [a, b, c] && [b] + [c] == [b, c];
    JoinCons(a, [b, c]);
    JoinCons(b, [c]);
    JoinAlone(c);
    assert a + "&" + (b + "&" + c) == a + "&" + b + "&" + c;
  }

  // The '/' that ends the authority lies in a sensitive value: once it is gone, the '@' of a later pair
  // counts as user information, and the pairs before it are lost.
  lemma SecondPassReachesFurther()
    ensures Redacted("?a=://x&token=p/q&c=d@h") == "?a=://x&token=<redacted>&c=d@h"
    ensures Redacted("?a=://x&token=<redacted>&c=d@h") == "?a=://<redacted>@h"
  {
    FirstPass();
    SecondPass();
  }

  lemma FirstPass()
    ensures Redacted("?a=://x&token=p/q&c=d@h") == "?a=://x&token=<redacted>&c=d@h"
  {
    hide *;
    var url := "?a=://x&token=p/q&c=d@h";
    FirstAuthority();
    BareWithout(url);
    RedactedIsMasked(url);
    var a, b, c := "a=://x", "token=p/q", "c=d@h";
    JoinThree(a, b, c);
    MaskedThree(a, b, c);
    JoinThree(a, "token=<redacted>", c);
    assert "?" + (a + "&" + b + "&" + c) == url;
    Spelled(a, c);
  }

  lemma Spelled(a: string, c: string)
    requires a == "a=://x" && c == "c=d@h"
    ensures "?" + (a + "&" + "token=<redacted>" + "&" + c) == "?a=://x&token=<redacted>&c=d@h"
  {
  }

  lemma FirstAuthority()
    ensures UserinfoOf("?a=://x&token=p/q&c=d@h") == NoUserinfo
  {
    hide UserinfoOf;
    NoUserinfoWhen("?a=://x&token=p/q&c=d@h", 3, 15);
  }

  lemma MaskedThree(a: string, b: string, c: string)
    requires a == "a=://x" && b == "token=p/q" && c == "c=d@h"
    ensures Masked("?" + Join([a, b, c])) == "?" + Join([a, "token=<redacted>", c])
  {
    hide *;
    WitnessPairs(a, b, c);
    RedactedThree(a, b, c);
    PlainPairs(a, b, c);
    MaskedPairs([a, b, c]);
  }

  lemma PlainPairs(a: string, b: string, c: string)
    requires a == "a=://x" && b == "token=p/q" && c == "c=d@h"
    ensures ArePairs([a, b, c])
  {
  }

  lemma RedactedThree(a: string, b: string, c: string)
    ensures RedactedPairs([a, b, c]) == [RedactedPair(a), RedactedPair(b), RedactedPair(c)]
  {
    hide RedactedPair;
  }

  lemma WitnessPairs(a: string, b: string, c: string)
    requires a == "a=://x" && b == "token=p/q" && c == "c=d@h"
    ensures RedactedPair(a) == a && RedactedPair(b) == "token=<redacted>" && RedactedPair(c) == c
  {
    hide RedactedPair, IsSensitiveQueryKey;
    KeysOfWitness();
    PairOf("a", "://x");
    PairOf("token", "p/q");
    PairOf("c", "d@h");
    assert "a" + "=" + "://x" == a && "token" + "=" + "p/q" == b && "c" + "=" + "d@h" == c;
    assert "token" + "=" + REDACTED == "token=<redacted>";
  }

  lemma SecondPass()
    ensures Redacted("?a=://x&token=<redacted>&c=d@h") == "?a=://<redacted>@h"
  {
    hide *;
    var pair := "a=://<redacted>@h";
    RedactedIsMasked("?a=://x&token=<redacted>&c=d@h");
    SecondAuthority();
    PlainWitness(pair);
    JoinAlone(pair);
    assert "?" + pair == "?a=://<redacted>@h";
  }

  lemma SecondAuthority()
    ensures WithoutUserinfo("?a=://x&token=<redacted>&c=d@h") == "?a=://<redacted>@h"
  {
    hide *;
    var url := "?a=://x&token=<redacted>&c=d@h";
    SecondUserinfo(url);
    WithoutAt(url);
    SplicedWitness(url);
  }

  lemma WithoutAt(url: string)
    requires UserinfoOf(url).At?
    ensures var u := UserinfoOf(url); WithoutUserinfo(url) == url[..u.from] + REDACTED + url[u.to..]
  {
    hide UserinfoOf;
  }

  lemma SplicedWitness(url: string)
    requires url == "?a=://x&token=<redacted>&c=d@h"
    ensures url[..6] + REDACTED + url[28..] == "?a=://<redacted>@h"
  {
    assert url[..6] == "?a=://" && url[28..] == "@h";
  }

  lemma SecondUserinfo(url: string)
    requires url == "?a=://x&token=<redacted>&c=d@h"
    ensures UserinfoOf(url) == At(6, 28)
  {
    hide UserinfoOf;
    UserinfoIs(url, 3, 30, 28);
  }

  lemma PlainWitness(pair: string)
    requires pair == "a=://<redacted>@h"
    ensures Masked("?" + Join([pair])) == "?" + Join([pair])
  {
    hide *;
    OnePair(pair);
    PairOf("a", "://<redacted>@h");
    assert "a" + "=" + "://<redacted>@h" == pair;
    KeysOfWitness();
    MaskedPairs([pair]);
  }

  lemma OnePair(pair: string)
    requires pair == "a=://<redacted>@h"
    ensures ArePairs([pair]) && RedactedPairs([pair]) == [RedactedPair(pair)]
  {
    hide RedactedPair;
  }
}
