/** The one-pass aggregation of a trace into request summaries, and the plain grouping it
    agrees with (src/devtools/network/network_trace.cpp, AggregateRequests and FindRequest). */
module RequestSummaries {
  import opened Common
  import opened NetworkTraces

  datatype RequestState = Active | Finished | Failed

  datatype RequestSummary = RequestSummary(
    requestId: string,
    tabId: Option<string>,
    httpMethod: string,
    url: string,
    status: Option<int>,
    protocol: string,
    transferredBytes: nat,
    state: RequestState,
    error: string,
    requestHeaders: seq<Header>,
    responseHeaders: seq<Header>,
    bodyPreview: string,
    attribution: NetworkAttribution,
    connectionId: Option<string>,
    filterBlocked: bool,
    filterRuleSource: string,
    filterLayer: string,
    startedAtMs: int,
    endedAtMs: int,
    durationMs: int)

  predicate CarriesResponseHeaders(e: NetworkEvent) {
    e.kind == ResponseReceived || e.kind == Redirect
  }

  function StateAfter(e: NetworkEvent, before: RequestState): RequestState {
    if e.kind == RequestFinished then Finished else if e.kind == RequestFailed then Failed else before
  }

  // The summary of a request's first event.
  function FirstSummary(e: NetworkEvent): RequestSummary {
    RequestSummary(
      e.requestId, e.tabId, if e.httpMethod == "" then "GET" else e.httpMethod, e.url, e.status,
      if e.kind == ResponseReceived then e.protocol else "",
      e.transferredBytes, StateAfter(e, Active), e.error,
      if e.kind == RequestStarted then e.headers else [],
      if CarriesResponseHeaders(e) then e.headers else [],
      e.bodyPreview, e.attribution, e.connectionId, false, "", "", e.observedAtMs, e.observedAtMs, 0)
  }

  function StartAfter(s: RequestSummary, e: NetworkEvent): int {
    if e.observedAtMs > 0 && (s.startedAtMs <= 0 || e.observedAtMs < s.startedAtMs) then e.observedAtMs
    else s.startedAtMs
  }

  function EndAfter(s: RequestSummary, e: NetworkEvent): int {
    if e.observedAtMs > 0 && e.observedAtMs > s.endedAtMs then e.observedAtMs else s.endedAtMs
  }

  // What a later event of the same request changes: who made the request and for what, ...
  function MergedTarget(s: RequestSummary, e: NetworkEvent): RequestSummary {
    s.(attribution := if e.attribution != Page then e.attribution else s.attribution,
       connectionId := if e.connectionId.Some? then e.connectionId else s.connectionId,
       url := if e.url != "" && (s.url == "" || e.kind == Redirect) then e.url else s.url,
       httpMethod := if e.httpMethod != "" && (s.httpMethod == "" || e.kind == RequestStarted) then e.httpMethod
                     else s.httpMethod,
       status := if e.status.Some? then e.status else s.status)
  }

  // ... how much moved when, ...
  function MergedTraffic(s: RequestSummary, e: NetworkEvent): RequestSummary {
    s.(protocol := if e.kind == ResponseReceived && e.protocol != "" then e.protocol else s.protocol,
       tabId := if e.tabId.Some? then e.tabId else s.tabId,
       transferredBytes := s.transferredBytes + e.transferredBytes,
       startedAtMs := StartAfter(s, e),
       endedAtMs := EndAfter(s, e),
       durationMs := if e.observedAtMs > 0 then Max(0, EndAfter(s, e) - StartAfter(s, e)) else s.durationMs)
  }

  // ... and what was said and how it ended.
  function MergedContent(s: RequestSummary, e: NetworkEvent): RequestSummary {
    s.(requestHeaders := if e.kind == RequestStarted && e.headers != [] then e.headers else s.requestHeaders,
       responseHeaders := if CarriesResponseHeaders(e) && e.headers != [] then e.headers else s.responseHeaders,
       bodyPreview := if e.bodyPreview != "" then e.bodyPreview else s.bodyPreview,
       state := StateAfter(e, s.state),
       error := if e.kind == RequestFailed then e.error else s.error)
  }

  function Merged(s: RequestSummary, e: NetworkEvent): RequestSummary {
    MergedContent(MergedTraffic(MergedTarget(s, e), e), e)
  }

  // ---------- Plain grouping ----------

  // Events of another tab are left out; events of no tab are kept.
  predicate IsKept(e: NetworkEvent, filter: Option<string>) {
    filter.Some? && e.tabId.Some? ==> e.tabId == filter
  }

  function Kept(events: seq<NetworkEvent>, filter: Option<string>): seq<NetworkEvent> {
    if events == [] then []
    else
      var n := |events| - 1;
      Kept(events[..n], filter) + (if IsKept(events[n], filter) then [events[n]] else [])
  }

  function EventsOf(events: seq<NetworkEvent>, id: string): seq<NetworkEvent> {
    if events == [] then []
    else
      var n := |events| - 1;
      EventsOf(events[..n], id) + (if events[n].requestId == id then [events[n]] else [])
  }

  // The request ids in the order of their first events.
  function RequestIds(events: seq<NetworkEvent>): seq<string> {
    if events == [] then []
    else
      var n := |events| - 1;
      var ids := RequestIds(events[..n]);
      if events[n].requestId in ids then ids else ids + [events[n].requestId]
  }

  lemma {:induction false} RequestIdsDistinct(events: seq<NetworkEvent>)
    ensures forall i, j | 0 <= i < j < |RequestIds(events)| :: RequestIds(events)[i] != RequestIds(events)[j]
  {
    if events != [] {
      RequestIdsDistinct(events[..|events| - 1]);
    }
  }

  // A request is listed exactly when it has an event.
  lemma {:induction false} ListedHaveEvents(events: seq<NetworkEvent>, id: string)
    ensures id in RequestIds(events) <==> EventsOf(events, id) != []
  {
    if events != [] {
      ListedHaveEvents(events[..|events| - 1], id);
    }
  }

  // The summary of the events of one request, in order.
  function Summary(events: seq<NetworkEvent>): RequestSummary
    requires events != []
  {
    if |events| == 1 then FirstSummary(events[0])
    else Merged(Summary(events[..|events| - 1]), events[|events| - 1])
  }

  function SummaryOf(events: seq<NetworkEvent>, id: string): RequestSummary
    requires id in RequestIds(events)
  {
    ListedHaveEvents(events, id);
    Summary(EventsOf(events, id))
  }

  function Grouped(events: seq<NetworkEvent>): (r: seq<RequestSummary>)
    ensures |r| == |RequestIds(events)|
    ensures forall i | 0 <= i < |r| :: r[i] == SummaryOf(events, RequestIds(events)[i])
  {
    var ids := RequestIds(events);
    seq(|ids|, i requires 0 <= i < |ids| => SummaryOf(events, ids[i]))
  }

  // ---------- What a summary says about its events ----------

  function TotalBytes(events: seq<NetworkEvent>): nat {
    if events == [] then 0 else TotalBytes(events[..|events| - 1]) + events[|events| - 1].transferredBytes
  }

  function SummaryBytes(summaries: seq<RequestSummary>): nat {
    if summaries == [] then 0
    else SummaryBytes(summaries[..|summaries| - 1]) + summaries[|summaries| - 1].transferredBytes
  }

  // The position of the last event that ends a request, or -1.
  function LastEnding(events: seq<NetworkEvent>): (k: int)
    ensures -1 <= k < |events|
    ensures k >= 0 ==> events[k].kind == RequestFinished || events[k].kind == RequestFailed
    ensures forall j | k < j < |events| :: events[j].kind != RequestFinished && events[j].kind != RequestFailed
  {
    if events == [] then -1
    else
      var n := |events| - 1;
      if events[n].kind == RequestFinished || events[n].kind == RequestFailed then n else LastEnding(events[..n])
  }

  lemma {:induction false} SummaryTotals(events: seq<NetworkEvent>)
    requires events != []
    ensures Summary(events).transferredBytes == TotalBytes(events)
    ensures Summary(events).state == (if LastEnding(events) < 0 then Active
              else if events[LastEnding(events)].kind == RequestFinished then Finished else Failed)
  {
    var n := |events| - 1;
    if n > 0 {
      SummaryTotals(events[..n]);
    } else {
      assert events[..0] == [];
    }
  }

  // The value of the last event that has one.
  function Latest<T>(events: seq<NetworkEvent>, pick: NetworkEvent -> Option<T>): Option<T> {
    if events == [] then None
    else
      var n := |events| - 1;
      if pick(events[n]).Some? then pick(events[n]) else Latest(events[..n], pick)
  }

  function OrElse<T>(x: Option<T>, default: T): T {
    if x.Some? then x.value else default
  }

  function SomeWhen<T>(b: bool, x: T): Option<T> {
    if b then Some(x) else None
  }

  function FirstUrl(events: seq<NetworkEvent>): string {
    if events == [] then "" else if events[0].url != "" then events[0].url else FirstUrl(events[1..])
  }

  function OwnAttribution(e: NetworkEvent): Option<NetworkAttribution> {
    SomeWhen(e.attribution != Page, e.attribution)
  }

  function RedirectUrl(e: NetworkEvent): Option<string> {
    SomeWhen(e.kind == Redirect && e.url != "", e.url)
  }

  function StartedMethod(e: NetworkEvent): Option<string> {
    SomeWhen(e.kind == RequestStarted && e.httpMethod != "", e.httpMethod)
  }

  function ResponseProtocol(e: NetworkEvent): Option<string> {
    SomeWhen(e.kind == ResponseReceived && e.protocol != "", e.protocol)
  }

  function SentHeaders(e: NetworkEvent): Option<seq<Header>> {
    SomeWhen(e.kind == RequestStarted && e.headers != [], e.headers)
  }

  function ReceivedHeaders(e: NetworkEvent): Option<seq<Header>> {
    SomeWhen((e.kind == ResponseReceived || e.kind == Redirect) && e.headers != [], e.headers)
  }

  function Preview(e: NetworkEvent): Option<string> {
    SomeWhen(e.bodyPreview != "", e.bodyPreview)
  }

  lemma {:induction false} FirstUrlSnoc(events: seq<NetworkEvent>, e: NetworkEvent)
    ensures FirstUrl(events + [e]) == if FirstUrl(events) == "" then e.url else FirstUrl(events)
  {
    if events == [] {
      assert ([] + [e])[1..] == [];
    } else {
      FirstUrlSnoc(events[1..], e);
      assert (events + [e])[1..] == events[1..] + [e];
    }
  }

  lemma LatestStep<T>(events: seq<NetworkEvent>, pick: NetworkEvent -> Option<T>)
    requires events != []
    ensures var n := |events| - 1;
      Latest(events, pick) == if pick(events[n]).Some? then pick(events[n]) else Latest(events[..n], pick)
    ensures Latest([], pick) == None
  {
  }

  // The status, connection, tab and attribution of a request are those of the last event that has its own.
  lemma {:induction false} SummaryOwner(events: seq<NetworkEvent>)
    requires events != []
    ensures var s := Summary(events);
      && s.status == Latest(events, StatusOf) && s.connectionId == Latest(events, ConnectionOf)
      && s.tabId == Latest(events, TabOf) && s.attribution == OrElse(Latest(events, OwnAttribution), Page)
  {
    hide Latest, Merged, FirstSummary;
    var n := |events| - 1;
    LatestStep(events, StatusOf);
    LatestStep(events, ConnectionOf);
    LatestStep(events, TabOf);
    LatestStep(events, OwnAttribution);
    if n > 0 {
      SummaryOwner(events[..n]);
      OwnerMerged(Summary(events[..n]), events[n]);
    } else {
      assert events[..0] == [];
      FirstOwner(events[0]);
    }
  }

  lemma FirstOwner(e: NetworkEvent)
    ensures var s := FirstSummary(e);
      s.status == e.status && s.connectionId == e.connectionId && s.tabId == e.tabId && s.attribution == e.attribution
  {
  }

  lemma OwnerMerged(s: RequestSummary, e: NetworkEvent)
    ensures var m := Merged(s, e);
      && m.status == (if StatusOf(e).Some? then StatusOf(e) else s.status)
      && m.connectionId == (if ConnectionOf(e).Some? then ConnectionOf(e) else s.connectionId)
      && m.tabId == (if TabOf(e).Some? then TabOf(e) else s.tabId)
      && m.attribution == OrElse(OwnAttribution(e), s.attribution)
  {
  }

  function StatusOf(e: NetworkEvent): Option<int> {
    e.status
  }

  function ConnectionOf(e: NetworkEvent): Option<string> {
    e.connectionId
  }

  function TabOf(e: NetworkEvent): Option<string> {
    e.tabId
  }

  // The url is that of the last redirect, or else the first one; the method that of the last start, or
  // else of the first event, GET when it has none.
  lemma {:induction false} SummaryTarget(events: seq<NetworkEvent>)
    requires events != []
    ensures var s := Summary(events);
      && s.url == OrElse(Latest(events, RedirectUrl), FirstUrl(events))
      && s.httpMethod == OrElse(Latest(events, StartedMethod), MethodOf(events[0]))
    ensures Summary(events).httpMethod != ""
  {
    hide Latest, MergedTraffic, MergedContent, FirstUrl, FirstSummary;
    var n := |events| - 1;
    LatestStep(events, RedirectUrl);
    LatestStep(events, StartedMethod);
    if n > 0 {
      SummaryTarget(events[..n]);
      FirstUrlSnoc(events[..n], events[n]);
      assert events[..n] + [events[n]] == events;
      TargetMerged(Summary(events[..n]), events[n]);
      RedirectUrlNonEmpty(events[..n]);
    } else {
      assert events[..0] == [] && events == [events[0]];
      FirstUrlSnoc([], events[0]);
      FirstTarget(events[0]);
    }
  }

  lemma FirstTarget(e: NetworkEvent)
    ensures FirstSummary(e).url == e.url && FirstSummary(e).httpMethod == MethodOf(e) && FirstUrl([]) == ""
    ensures [] + [e] == [e]
  {
  }

  function MethodOf(e: NetworkEvent): string {
    if e.httpMethod == "" then "GET" else e.httpMethod
  }

  lemma {:induction false} RedirectUrlNonEmpty(events: seq<NetworkEvent>)
    ensures Latest(events, RedirectUrl).Some? ==> Latest(events, RedirectUrl).value != ""
  {
    if events != [] {
      RedirectUrlNonEmpty(events[..|events| - 1]);
    }
  }

  lemma TargetMerged(s: RequestSummary, e: NetworkEvent)
    ensures Merged(s, e).url == MergedTarget(s, e).url && Merged(s, e).httpMethod == MergedTarget(s, e).httpMethod
  {
    hide MergedTarget;
  }

  function FailedError(e: NetworkEvent): Option<string> {
    SomeWhen(e.kind == RequestFailed, e.error)
  }

  // Headers, protocol and preview are those of the last event that may set them and has any; the error is
  // that of the last failure, or else of the first event.
  lemma {:induction false} SummaryContent(events: seq<NetworkEvent>)
    requires events != []
    ensures var s := Summary(events);
      && s.requestHeaders == OrElse(Latest(events, SentHeaders), [])
      && s.responseHeaders == OrElse(Latest(events, ReceivedHeaders), [])
      && s.protocol == OrElse(Latest(events, ResponseProtocol), "")
      && s.bodyPreview == OrElse(Latest(events, Preview), "")
      && s.error == OrElse(Latest(events, FailedError), events[0].error)
  {
    hide Latest, Merged, FirstSummary, SentHeaders, ReceivedHeaders, ResponseProtocol, Preview, FailedError;
    var n := |events| - 1;
    LatestStep(events, SentHeaders);
    LatestStep(events, ReceivedHeaders);
    LatestStep(events, ResponseProtocol);
    LatestStep(events, Preview);
    LatestStep(events, FailedError);
    if n > 0 {
      SummaryContent(events[..n]);
      ContentMerged(Summary(events[..n]), events[n]);
    } else {
      assert events[..0] == [];
      FirstContent(events[0]);
    }
  }

  lemma FirstContent(e: NetworkEvent)
    ensures var s := FirstSummary(e);
      && s.requestHeaders == OrElse(SentHeaders(e), []) && s.responseHeaders == OrElse(ReceivedHeaders(e), [])
      && s.protocol == OrElse(ResponseProtocol(e), "") && s.bodyPreview == OrElse(Preview(e), "")
      && s.error == OrElse(FailedError(e), e.error)
  {
  }

  lemma ContentMerged(s: RequestSummary, e: NetworkEvent)
    ensures var m := Merged(s, e);
      && m.requestHeaders == OrElse(SentHeaders(e), s.requestHeaders)
      && m.responseHeaders == OrElse(ReceivedHeaders(e), s.responseHeaders)
      && m.protocol == OrElse(ResponseProtocol(e), s.protocol) && m.bodyPreview == OrElse(Preview(e), s.bodyPreview)
      && m.error == OrElse(FailedError(e), s.error)
  {
  }

  function Times(events: seq<NetworkEvent>): seq<int> {
    seq(|events|, i requires 0 <= i < |events| => events[i].observedAtMs)
  }

  // A dated event widens the span of a dated summary just enough.
  lemma MergedSpan(s: RequestSummary, e: NetworkEvent)
    requires e.observedAtMs > 0 && 0 < s.startedAtMs <= s.endedAtMs
    ensures Merged(s, e).startedAtMs == Min(s.startedAtMs, e.observedAtMs)
    ensures Merged(s, e).endedAtMs == Max(s.endedAtMs, e.observedAtMs)
    ensures Merged(s, e).durationMs == Merged(s, e).endedAtMs - Merged(s, e).startedAtMs
  {
  }

  predicate SpansFrom(events: seq<NetworkEvent>, s: RequestSummary) {
    && (forall i | 0 <= i < |events| :: s.startedAtMs <= events[i].observedAtMs <= s.endedAtMs)
    && s.startedAtMs in Times(events) && s.endedAtMs in Times(events)
    && s.durationMs == s.endedAtMs - s.startedAtMs
  }

  lemma FirstSpan(e: NetworkEvent)
    ensures SpansFrom([e], FirstSummary(e))
  {
    assert Times([e]) == [e.observedAtMs];
    assert e.observedAtMs in Times([e]);
  }

  lemma TimesSnoc(events: seq<NetworkEvent>, e: NetworkEvent)
    ensures Times(events + [e]) == Times(events) + [e.observedAtMs]
  {
  }

  lemma SpanSnoc(events: seq<NetworkEvent>, s: RequestSummary, e: NetworkEvent)
    requires events != [] && SpansFrom(events, s)
    requires e.observedAtMs > 0 && forall i | 0 <= i < |events| :: events[i].observedAtMs > 0
    ensures SpansFrom(events + [e], Merged(s, e))
  {
    hide Merged, Times;
    var i :| 0 <= i < |Times(events)| && Times(events)[i] == s.startedAtMs;
    StartsDated(events, s.startedAtMs);
    assert s.startedAtMs <= events[0].observedAtMs <= s.endedAtMs;
    MergedSpan(s, e);
    TimesSnoc(events, e);
  }

  lemma StartsDated(events: seq<NetworkEvent>, t: int)
    requires t in Times(events) && forall i | 0 <= i < |events| :: events[i].observedAtMs > 0
    ensures t > 0
  {
  }

  // Dated events: the summary starts at the earliest, ends at the latest and lasts the time between.
  lemma {:induction false} SummarySpan(events: seq<NetworkEvent>)
    requires events != [] && forall i | 0 <= i < |events| :: events[i].observedAtMs > 0
    ensures SpansFrom(events, Summary(events))
  {
    hide SpansFrom, Merged, FirstSummary;
    var n := |events| - 1;
    if n > 0 {
      SummarySpan(events[..n]);
      SpanSnoc(events[..n], Summary(events[..n]), events[n]);
      assert events[..n] + [events[n]] == events;
    } else {
      FirstSpan(events[0]);
      assert events == [events[0]];
    }
  }

  lemma {:induction false} EventsOfAre(events: seq<NetworkEvent>, id: string)
    ensures forall e | e in EventsOf(events, id) :: e in events
  {
    if events != [] {
      EventsOfAre(events[..|events| - 1], id);
    }
  }

  lemma {:induction false} KeptAre(events: seq<NetworkEvent>, filter: Option<string>)
    ensures forall e | e in Kept(events, filter) :: e in events
  {
    if events != [] {
      KeptAre(events[..|events| - 1], filter);
    }
  }

  // The events of the tab asked for and those of no tab, all of them, in order; every event when no tab is asked for.
  lemma {:induction false} KeptAt(events: seq<NetworkEvent>, filter: Option<string>)
    ensures var kept := Kept(events, filter);
      var at := Positions(events, (e: NetworkEvent) => filter.None? || e.tabId.None? || e.tabId == filter);
      |kept| == |at| && forall j | 0 <= j < |at| :: kept[j] == events[at[j]]
  {
    if events != [] {
      KeptAt(events[..|events| - 1], filter);
    }
  }

  // The events of a request, all of them, in order.
  lemma {:induction false} EventsOfAt(events: seq<NetworkEvent>, id: string)
    ensures var own, at := EventsOf(events, id), Positions(events, (e: NetworkEvent) => e.requestId == id);
      |own| == |at| && forall j | 0 <= j < |at| :: own[j] == events[at[j]]
  {
    if events != [] {
      EventsOfAt(events[..|events| - 1], id);
    }
  }

  // In a trace that any run with a positive clock has filled, every summary spans exactly the kept events
  // of its request.
  lemma EverySummarySpans(ops: seq<TraceOp>, limit: nat, redact: bool, filter: Option<string>, i: nat)
    requires limit > 0 && forall k | 0 <= k < |ops| && ops[k].Add? :: ops[k].now > 0
    requires i < |Grouped(Kept(TraceRun(ops, limit, redact).events, filter))|
    ensures var kept := Kept(TraceRun(ops, limit, redact).events, filter);
      SpansFrom(EventsOf(kept, RequestIds(kept)[i]), Grouped(kept)[i])
  {
    hide TraceRun, Kept, EventsOf, SpansFrom, Summary, RequestIds;
    var events := TraceRun(ops, limit, redact).events;
    var kept := Kept(events, filter);
    var id := RequestIds(kept)[i];
    ListedHaveEvents(kept, id);
    KeptEventsAreDated(ops, limit, redact);
    KeptAre(events, filter);
    EventsOfAre(kept, id);
    var own := EventsOf(kept, id);
    assert forall j | 0 <= j < |own| :: own[j] in own;
    assert forall e | e in events :: e.observedAtMs > 0;
    SummarySpan(own);
  }

  // ---------- Grouping one more event ----------

  lemma EventsOfSnoc(events: seq<NetworkEvent>, e: NetworkEvent, id: string)
    ensures EventsOf(events + [e], id) == EventsOf(events, id) + (if e.requestId == id then [e] else [])
  {
    assert (events + [e])[..|events|] == events;
  }

  lemma RequestIdsSnoc(events: seq<NetworkEvent>, e: NetworkEvent)
    ensures RequestIds(events + [e]) == if e.requestId in RequestIds(events) then RequestIds(events)
                                        else RequestIds(events) + [e.requestId]
  {
    assert (events + [e])[..|events|] == events;
  }

  lemma SummarySnoc(events: seq<NetworkEvent>, e: NetworkEvent)
    ensures Summary(events + [e]) == if events == [] then FirstSummary(e) else Merged(Summary(events), e)
  {
    assert (events + [e])[..|events|] == events;
  }

  lemma SummaryOfSnoc(events: seq<NetworkEvent>, e: NetworkEvent, id: string)
    requires id in RequestIds(events)
    ensures id in RequestIds(events + [e])
    ensures SummaryOf(events + [e], id) ==
      if e.requestId == id then Merged(SummaryOf(events, id), e) else SummaryOf(events, id)
  {
    hide Merged, FirstSummary, RequestIds;
    RequestIdsSnoc(events, e);
    ListedHaveEvents(events, id);
    ListedHaveEvents(events + [e], id);
    EventsOfSnoc(events, e, id);
    SummarySnoc(EventsOf(events, id), e);
    assert EventsOf(events, id) + [] == EventsOf(events, id);
  }

  lemma FirstOfRequest(events: seq<NetworkEvent>, e: NetworkEvent)
    requires e.requestId !in RequestIds(events)
    ensures e.requestId in RequestIds(events + [e]) && SummaryOf(events + [e], e.requestId) == FirstSummary(e)
  {
    hide FirstSummary, RequestIds;
    RequestIdsSnoc(events, e);
    ListedHaveEvents(events, e.requestId);
    ListedHaveEvents(events + [e], e.requestId);
    EventsOfSnoc(events, e, e.requestId);
    assert [] + [e] == [e];
  }

  // A first event adds a summary at the end; a later one changes the summary of its request alone.
  lemma GroupedSnoc(events: seq<NetworkEvent>, e: NetworkEvent)
    ensures var ids := RequestIds(events);
      && (e.requestId !in ids ==> Grouped(events + [e]) == Grouped(events) + [FirstSummary(e)])
      && (forall k | 0 <= k < |ids| && ids[k] == e.requestId ::
            Grouped(events + [e]) == Grouped(events)[k := Merged(Grouped(events)[k], e)])
  {
    hide RequestIds, SummaryOf, FirstSummary, Merged;
    var ids := RequestIds(events);
    RequestIdsSnoc(events, e);
    RequestIdsDistinct(events);
    var before, after := Grouped(events), Grouped(events + [e]);
    forall i | 0 <= i < |ids|
      ensures after[i] == if ids[i] == e.requestId then Merged(before[i], e) else before[i]
    {
      SummaryOfSnoc(events, e, ids[i]);
    }
    if e.requestId !in ids {
      FirstOfRequest(events, e);
      assert after == before + [FirstSummary(e)];
    }
  }

  // ---------- The bytes of all summaries ----------

  lemma {:induction false} SummaryBytesUpdate(xs: seq<RequestSummary>, k: nat, x: RequestSummary)
    requires k < |xs|
    ensures SummaryBytes(xs[k := x]) == SummaryBytes(xs) - xs[k].transferredBytes + x.transferredBytes
  {
    var n := |xs| - 1;
    if k == n {
      assert xs[k := x][..n] == xs[..n];
    } else {
      assert xs[k := x][..n] == xs[..n][k := x];
      SummaryBytesUpdate(xs[..n], k, x);
    }
  }

  // Nothing is lost or counted twice: the summaries of all requests add up to the bytes of all events.
  lemma {:induction false} BytesConserved(events: seq<NetworkEvent>)
    ensures SummaryBytes(Grouped(events)) == TotalBytes(events)
  {
    hide Grouped, RequestIds, FirstSummary;
    if events == [] {
      assert Grouped(events) == [] by { NoRequests(); }
    } else {
      var n := |events| - 1;
      var e := events[n];
      var ids := RequestIds(events[..n]);
      var before := Grouped(events[..n]);
      assert events == events[..n] + [e];
      BytesConserved(events[..n]);
      GroupedSnoc(events[..n], e);
      if e.requestId in ids {
        var k :| 0 <= k < |ids| && ids[k] == e.requestId;
        SummaryBytesUpdate(before, k, Merged(before[k], e));
      } else {
        assert (before + [FirstSummary(e)])[..|before|] == before;
        FirstBytes(e);
      }
    }
  }

  lemma NoRequests()
    ensures Grouped([]) == []
  {
  }

  lemma FirstBytes(e: NetworkEvent)
    ensures FirstSummary(e).transferredBytes == e.transferredBytes
  {
  }

  // ---------- Filter decisions ----------

  datatype FilterDecisionLayer = ContentFilter | CapabilityPolicy | WorkspacePolicy | UserAgentPolicy

  datatype FilterDecision =
    FilterDecision(requestId: string, blocked: bool, layer: FilterDecisionLayer, ruleSource: string)

  function LayerName(l: FilterDecisionLayer): string {
    match l
    case ContentFilter => "ContentFilter"
    case CapabilityPolicy => "CapabilityPolicy"
    case WorkspacePolicy => "WorkspacePolicy"
    case UserAgentPolicy => "UserAgentPolicy"
  }

  // The newest decision about a request in a log kept oldest first.
  function NewestDecision(log: seq<FilterDecision>, id: string): (r: Option<FilterDecision>)
    ensures r.None? <==> forall j | 0 <= j < |log| :: log[j].requestId != id
    ensures r.Some? ==> exists k :: 0 <= k < |log| && log[k] == r.value && log[k].requestId == id
                                    && forall j | k < j < |log| :: log[j].requestId != id
  {
    if log == [] then None
    else
      var n := |log| - 1;
      if log[n].requestId == id then Some(log[n]) else NewestDecision(log[..n], id)
  }

  function WithDecision(s: RequestSummary, d: Option<FilterDecision>): (r: RequestSummary)
    ensures r.requestId == s.requestId
  {
    if d.None? then s
    else s.(filterBlocked := d.value.blocked, filterRuleSource := d.value.ruleSource,
            filterLayer := LayerName(d.value.layer))
  }

  function Overlaid(summaries: seq<RequestSummary>, log: seq<FilterDecision>): (r: seq<RequestSummary>)
    ensures |r| == |summaries|
    ensures forall i | 0 <= i < |r| :: r[i] == WithDecision(summaries[i], NewestDecision(log, summaries[i].requestId))
  {
    seq(|summaries|, i requires 0 <= i < |summaries| =>
      WithDecision(summaries[i], NewestDecision(log, summaries[i].requestId)))
  }

  // Before the overlay no summary shows a decision; after it, a request is blocked exactly when the newest
  // decision about it says so, and shows the rule and the layer of that decision.
  lemma BlockedByNewest(events: seq<NetworkEvent>, log: seq<FilterDecision>, i: nat)
    requires i < |Grouped(events)|
    ensures var before, after := Grouped(events)[i], Overlaid(Grouped(events), log)[i];
      && !before.filterBlocked && before == after.(filterBlocked := false, filterRuleSource := "", filterLayer := "")
      && (after.filterBlocked <==> var d := NewestDecision(log, after.requestId); d.Some? && d.value.blocked)
      && var d := NewestDecision(log, after.requestId);
         && after.filterRuleSource == (if d.None? then "" else d.value.ruleSource)
         && after.filterLayer == (if d.None? then ""
                                  else if d.value.layer == ContentFilter then "ContentFilter"
                                  else if d.value.layer == CapabilityPolicy then "CapabilityPolicy"
                                  else if d.value.layer == WorkspacePolicy then "WorkspacePolicy"
                                  else "UserAgentPolicy")
  {
    hide FirstSummary, Merged, RequestIds, EventsOf;
    var id := RequestIds(events)[i];
    ListedHaveEvents(events, id);
    UnfilteredSummary(EventsOf(events, id));
  }

  lemma {:induction false} UnfilteredSummary(events: seq<NetworkEvent>)
    requires events != []
    ensures var s := Summary(events); !s.filterBlocked && s.filterRuleSource == "" && s.filterLayer == ""
  {
    if |events| > 1 {
      UnfilteredSummary(events[..|events| - 1]);
    }
  }

  // ---------- The one-pass aggregation ----------

  // The index map points at the one summary of each request.
  ghost predicate Indexes(index: map<string, nat>, ids: seq<string>) {
    && (forall id :: id in index <==> id in ids)
    && (forall id | id in index :: index[id] < |ids| && ids[index[id]] == id)
  }

  method MergeTarget(s: RequestSummary, e: NetworkEvent) returns (r: RequestSummary)
    ensures r == MergedTarget(s, e)
  {
    r := s;
    if e.attribution != Page {
      r := r.(attribution := e.attribution);
    }
    if e.connectionId.Some? {
      r := r.(connectionId := e.connectionId);
    }
    if e.url != "" && (r.url == "" || e.kind == Redirect) {
      r := r.(url := e.url);
    }
    if e.httpMethod != "" && (r.httpMethod == "" || e.kind == RequestStarted) {
      r := r.(httpMethod := e.httpMethod);
    }
    if e.status.Some? {
      r := r.(status := e.status);
    }
  }

  method MergeTraffic(s: RequestSummary, e: NetworkEvent) returns (r: RequestSummary)
    ensures r == MergedTraffic(s, e)
  {
    r := s;
    if e.kind == ResponseReceived && e.protocol != "" {
      r := r.(protocol := e.protocol);
    }
    if e.tabId.Some? {
      r := r.(tabId := e.tabId);
    }
    r := r.(transferredBytes := r.transferredBytes + e.transferredBytes);
    if e.observedAtMs > 0 {
      if r.startedAtMs <= 0 || e.observedAtMs < r.startedAtMs {
        r := r.(startedAtMs := e.observedAtMs);
      }
      if e.observedAtMs > r.endedAtMs {
        r := r.(endedAtMs := e.observedAtMs);
      }
      r := r.(durationMs := Max(0, r.endedAtMs - r.startedAtMs));
    }
  }

  method MergeContent(s: RequestSummary, e: NetworkEvent) returns (r: RequestSummary)
    ensures r == MergedContent(s, e)
  {
    r := s;
    if e.kind == RequestStarted && e.headers != [] {
      r := r.(requestHeaders := e.headers);
    } else if CarriesResponseHeaders(e) && e.headers != [] {
      r := r.(responseHeaders := e.headers);
    }
    if e.bodyPreview != "" {
      r := r.(bodyPreview := e.bodyPreview);
    }
    if e.kind == RequestFinished {
      r := r.(state := Finished);
    } else if e.kind == RequestFailed {
      r := r.(state := Failed, error := e.error);
    }
  }

  // The decision log is empty when the trace has none.
  method AggregateRequests(trace: NetworkTraceBuffer, filter: Option<string>, log: seq<FilterDecision>)
    returns (summaries: seq<RequestSummary>)
    ensures summaries == Overlaid(Grouped(Kept(trace.events, filter)), log)
  {
    summaries := GroupRequests(trace, filter);
    ghost var grouped := summaries;
    for i := 0 to |summaries|
      invariant |summaries| == |grouped|
      invariant forall j | 0 <= j < |grouped| :: summaries[j] == if j < i then Overlaid(grouped, log)[j] else grouped[j]
    {
      var decision := FindByRequestId(log, summaries[i].requestId);
      if decision.Some? {
        summaries := summaries[i := summaries[i].(filterBlocked := decision.value.blocked,
                                                  filterRuleSource := decision.value.ruleSource,
                                                  filterLayer := LayerName(decision.value.layer))];
      }
    }
  }

  method FindByRequestId(log: seq<FilterDecision>, id: string) returns (r: Option<FilterDecision>)
    ensures r == NewestDecision(log, id)
  {
    var k := |log|;
    while k > 0
      invariant 0 <= k <= |log|
      invariant forall j | k <= j < |log| :: log[j].requestId != id
    {
      k := k - 1;
      if log[k].requestId == id {
        return Some(log[k]);
      }
    }
    r := None;
  }

  // The pass over the events.
  method GroupRequests(trace: NetworkTraceBuffer, filter: Option<string>) returns (summaries: seq<RequestSummary>)
    ensures summaries == Grouped(Kept(trace.events, filter))
  {
    hide Grouped, RequestIds, Kept, Indexes, FirstSummary, MergedTarget, MergedTraffic, MergedContent, Merged;
    summaries := [];
    var index: map<string, nat> := map[];
    var events := trace.events;
    NothingAggregated(events, filter);
    for i := 0 to |events|
      invariant summaries == Grouped(Kept(events[..i], filter))
      invariant Indexes(index, RequestIds(Kept(events[..i], filter)))
    {
      var e := events[i];
      ghost var kept := Kept(events[..i], filter);
      KeptSnoc(events, i, filter);
      if filter.Some? && e.tabId.Some? && e.tabId != filter {
        continue;
      }
      IndexedSnoc(index, kept, e);
      if e.requestId !in index {
        index := index[e.requestId := |summaries|];
        summaries := summaries + [FirstSummary(e)];
      } else {
        var merged := MergeTarget(summaries[index[e.requestId]], e);
        merged := MergeTraffic(merged, e);
        merged := MergeContent(merged, e);
        MergedInTurn(summaries[index[e.requestId]], e);
        summaries := summaries[index[e.requestId] := merged];
      }
    }
    assert events[..|events|] == events;
  }

  lemma MergedInTurn(s: RequestSummary, e: NetworkEvent)
    ensures Merged(s, e) == MergedContent(MergedTraffic(MergedTarget(s, e), e), e)
  {
    hide MergedTarget, MergedTraffic, MergedContent;
  }

  lemma NothingAggregated(events: seq<NetworkEvent>, filter: Option<string>)
    ensures Grouped(Kept(events[..0], filter)) == []
    ensures Indexes(map[], RequestIds(Kept(events[..0], filter)))
  {
    assert events[..0] == [];
  }

  lemma KeptSnoc(events: seq<NetworkEvent>, i: nat, filter: Option<string>)
    requires i < |events|
    ensures Kept(events[..i + 1], filter)
         == if IsKept(events[i], filter) then Kept(events[..i], filter) + [events[i]] else Kept(events[..i], filter)
  {
    assert events[..i + 1][..i] == events[..i];
  }

  // What the index says about one more kept event, and that it stays right.
  lemma IndexedSnoc(index: map<string, nat>, kept: seq<NetworkEvent>, e: NetworkEvent)
    requires Indexes(index, RequestIds(kept))
    ensures e.requestId in index ==>
              && index[e.requestId] < |Grouped(kept)|
              && Grouped(kept + [e]) == Grouped(kept)[
                   index[e.requestId] := Merged(Grouped(kept)[index[e.requestId]], e)]
              && Indexes(index, RequestIds(kept + [e]))
    ensures e.requestId !in index ==>
              && Grouped(kept + [e]) == Grouped(kept) + [FirstSummary(e)]
              && Indexes(index[e.requestId := |Grouped(kept)|], RequestIds(kept + [e]))
  {
    hide RequestIds, SummaryOf, FirstSummary, Merged;
    RequestIdsSnoc(kept, e);
    GroupedSnoc(kept, e);
    if e.requestId !in index {
      var ids, more := RequestIds(kept), RequestIds(kept + [e]);
      assert forall k | 0 <= k < |ids| :: more[k] == ids[k];
      assert more[|ids|] == e.requestId;
    }
  }

  // The summary of one request over all tabs, if the trace has any event of it.
  method FindRequest(trace: NetworkTraceBuffer, id: string, log: seq<FilterDecision>)
    returns (s: Option<RequestSummary>)
    ensures s == if EventsOf(trace.events, id) == [] then None
                 else Some(WithDecision(Summary(EventsOf(trace.events, id)), NewestDecision(log, id)))
  {
    hide EventsOf, RequestIds, Summary, NewestDecision, WithDecision, Overlaid, Kept, Grouped;
    KeptAll(trace.events);
    var summaries := AggregateRequests(trace, None, log);
    ghost var ids := RequestIds(trace.events);
    ListedHaveEvents(trace.events, id);
    for i := 0 to |summaries|
      invariant forall j | 0 <= j < i :: ids[j] != id
    {
      OverlaidAt(trace.events, log, i);
      if summaries[i].requestId == id {
        return Some(summaries[i]);
      }
    }
    assert id !in ids;
    s := None;
  }

  lemma OverlaidAt(events: seq<NetworkEvent>, log: seq<FilterDecision>, i: nat)
    requires i < |Grouped(events)|
    ensures var s := Overlaid(Grouped(events), log)[i]; var id := RequestIds(events)[i];
      && s.requestId == id && EventsOf(events, id) != []
      && s == WithDecision(Summary(EventsOf(events, id)), NewestDecision(log, id))
  {
    hide EventsOf, RequestIds, Summary, NewestDecision, WithDecision, Overlaid, SummaryOf;
    SummaryNamed(events, RequestIds(events)[i]);
  }

  lemma SummaryNamed(events: seq<NetworkEvent>, id: string)
    requires id in RequestIds(events)
    ensures SummaryOf(events, id).requestId == id
    ensures EventsOf(events, id) != [] && SummaryOf(events, id) == Summary(EventsOf(events, id))
  {
    ListedHaveEvents(events, id);
    EventsOfNamed(events, id);
    SummaryId(EventsOf(events, id), id);
  }

  lemma {:induction false} EventsOfNamed(events: seq<NetworkEvent>, id: string)
    ensures forall i | 0 <= i < |EventsOf(events, id)| :: EventsOf(events, id)[i].requestId == id
  {
    if events != [] {
      EventsOfNamed(events[..|events| - 1], id);
    }
  }

  lemma {:induction false} SummaryId(events: seq<NetworkEvent>, id: string)
    requires events != [] && forall i | 0 <= i < |events| :: events[i].requestId == id
    ensures Summary(events).requestId == id
  {
    if |events| > 1 {
      SummaryId(events[..|events| - 1], id);
    }
  }

  lemma {:induction false} KeptAll(events: seq<NetworkEvent>)
    ensures Kept(events, None) == events
  {
    if events != [] {
      KeptAll(events[..|events| - 1]);
      assert events == events[..|events| - 1] + [events[|events| - 1]];
    }
  }
}
