/** The bounded trace of network events: which events it holds after any run, and the object
    that holds them (src/devtools/network/network_trace.cpp, Add and Clear). */
module NetworkTraces {
  import opened Common

  datatype NetworkEventType =
    | RequestStarted | Redirect | ResponseReceived | DataReceived | RequestFinished | RequestFailed
    | WebSocketOpened | WebSocketFrame | WebSocketClosed | DnsResolved | ConnectionEstablished | TlsHandshaked

  datatype NetworkAttribution = Page | UpdateCheck | FilterListSync | Telemetry | Transfer

  datatype Header = Header(name: string, value: string)

  datatype NetworkEvent = NetworkEvent(
    sequence: nat,
    requestId: string,
    tabId: Option<string>,
    kind: NetworkEventType,
    url: string,
    httpMethod: string,
    status: Option<int>,
    protocol: string,
    headers: seq<Header>,
    transferredBytes: nat,
    error: string,
    bodyPreview: string,
    attribution: NetworkAttribution,
    connectionId: Option<string>,
    observedAtMs: int)

  // ---------- Header redaction ----------

  // std::tolower in the C locale.
  function LowerChar(c: char): char {
    if 'A' <= c <= 'Z' then (c as int - 'A' as int + 'a' as int) as char else c
  }

  function LowerAscii(s: string): (r: string)
    ensures |r| == |s| && forall i | 0 <= i < |s| :: r[i] == LowerChar(s[i])
  {
    seq(|s|, i requires 0 <= i < |s| => LowerChar(s[i]))
  }

  const REDACTED := "<redacted>"

  const SENSITIVE_HEADERS := ["authorization", "proxy-authorization", "cookie", "set-cookie",
                              "x-api-key", "x-auth-token", "x-csrf-token", "x-xsrf-token"]

  predicate IsSensitiveHeaderName(name: string) {
    LowerAscii(name) in SENSITIVE_HEADERS
  }

  function RedactedHeader(h: Header): Header {
    if IsSensitiveHeaderName(h.name) then h.(value := REDACTED) else h
  }

  function RedactedHeaders(hs: seq<Header>): (r: seq<Header>)
    ensures |r| == |hs| && forall i | 0 <= i < |hs| :: r[i] == RedactedHeader(hs[i])
  {
    seq(|hs|, i requires 0 <= i < |hs| => RedactedHeader(hs[i]))
  }

  // ---------- The trace as a value ----------

  datatype Trace = Trace(events: seq<NetworkEvent>, nextSequence: nat, dropped: nat)

  const EMPTY_TRACE := Trace([], 1, 0)

  // An event as it is kept: redacted, dated and numbered.
  function Stamped(e: NetworkEvent, sequence: nat, now: int, redact: bool): NetworkEvent {
    e.(headers := if redact then RedactedHeaders(e.headers) else e.headers,
       observedAtMs := if e.observedAtMs <= 0 then now else e.observedAtMs,
       sequence := sequence)
  }

  function LastN<T>(xs: seq<T>, n: nat): (r: seq<T>)
    ensures |r| == Min(|xs|, n)
  {
    if |xs| <= n then xs else xs[|xs| - n..]
  }

  // Adding makes room first: at most limit - 1 older events stay.
  function AfterAdd(t: Trace, e: NetworkEvent, now: int, limit: nat, redact: bool): Trace
    requires limit > 0
  {
    var kept := LastN(t.events, limit - 1);
    Trace(kept + [Stamped(e, t.nextSequence, now, redact)], t.nextSequence + 1, t.dropped + |t.events| - |kept|)
  }

  datatype TraceOp = Add(event: NetworkEvent, now: int) | Clear

  function TraceStep(t: Trace, op: TraceOp, limit: nat, redact: bool): Trace
    requires limit > 0
  {
    match op
    case Add(e, now) => AfterAdd(t, e, now, limit, redact)
    case Clear => EMPTY_TRACE
  }

  function TraceRun(ops: seq<TraceOp>, limit: nat, redact: bool): Trace
    requires limit > 0
  {
    if ops == [] then EMPTY_TRACE
    else TraceStep(TraceRun(ops[..|ops| - 1], limit, redact), ops[|ops| - 1], limit, redact)
  }

  // Every event added since the last clear, as an unbounded trace would keep it.
  function SinceClear(ops: seq<TraceOp>, redact: bool): seq<NetworkEvent> {
    if ops == [] then []
    else
      match ops[|ops| - 1]
      case Clear => []
      case Add(e, now) =>
        var older := SinceClear(ops[..|ops| - 1], redact);
        older + [Stamped(e, |older| + 1, now, redact)]
  }

  lemma WindowMoves<T>(all: seq<T>, x: T, limit: nat)
    requires limit > 0
    ensures LastN(LastN(all, limit), limit - 1) + [x] == LastN(all + [x], limit)
  {
  }

  // After any run the trace holds exactly the most recent events since the last clear, as many as the
  // limit allows; its counters say how many there were and how many are gone.
  lemma {:induction false} TraceIsWindow(ops: seq<TraceOp>, limit: nat, redact: bool)
    requires limit > 0
    ensures var t := TraceRun(ops, limit, redact); var all := SinceClear(ops, redact);
      && t.events == LastN(all, limit)
      && t.nextSequence == |all| + 1
      && t.dropped + |t.events| == |all|
  {
    hide Stamped, LastN;
    if ops == [] {
      assert LastN<NetworkEvent>([], limit) == [];
    } else {
      var older := SinceClear(ops[..|ops| - 1], redact);
      TraceIsWindow(ops[..|ops| - 1], limit, redact);
      match ops[|ops| - 1] {
        case Clear =>
          assert LastN<NetworkEvent>([], limit) == [];
        case Add(e, now) =>
          WindowMoves(older, Stamped(e, |older| + 1, now, redact), limit);
      }
    }
  }

  lemma {:induction false} NumberedFromOne(ops: seq<TraceOp>, redact: bool)
    ensures forall i | 0 <= i < |SinceClear(ops, redact)| :: SinceClear(ops, redact)[i].sequence == i + 1
  {
    if ops != [] {
      NumberedFromOne(ops[..|ops| - 1], redact);
    }
  }

  // The numbers of the kept events are consecutive and end just below the counter, and there are never
  // more events than the limit.
  lemma {:induction false} WindowNumbers(ops: seq<TraceOp>, limit: nat, redact: bool)
    requires limit > 0
    ensures var t := TraceRun(ops, limit, redact);
      && |t.events| <= limit
      && forall i | 0 <= i < |t.events| :: t.events[i].sequence == t.nextSequence - |t.events| + i
  {
    TraceIsWindow(ops, limit, redact);
    NumberedFromOne(ops, redact);
  }

  // With a clock past the epoch every kept event is dated.
  lemma {:induction false} KeptEventsAreDated(ops: seq<TraceOp>, limit: nat, redact: bool)
    requires limit > 0 && forall k | 0 <= k < |ops| && ops[k].Add? :: ops[k].now > 0
    ensures forall i | 0 <= i < |TraceRun(ops, limit, redact).events| ::
      TraceRun(ops, limit, redact).events[i].observedAtMs > 0
  {
    hide RedactedHeaders;
    if ops != [] {
      KeptEventsAreDated(ops[..|ops| - 1], limit, redact);
    }
  }

  // With a redacting policy no sensitive header of a kept event has another value than the redacted one.
  lemma {:induction false} KeptEventsAreSafe(ops: seq<TraceOp>, limit: nat)
    requires limit > 0
    ensures forall i | 0 <= i < |TraceRun(ops, limit, true).events| ::
              var e := TraceRun(ops, limit, true).events[i];
              forall j | 0 <= j < |e.headers| ::
                IsSensitiveHeaderName(e.headers[j].name) ==> e.headers[j].value == REDACTED
  {
    if ops != [] {
      KeptEventsAreSafe(ops[..|ops| - 1], limit);
    }
  }

  // ---------- What a kept event keeps ----------

  // The two characters are one letter, in either case, or the same character.
  predicate SameLetter(c: char, d: char) {
    || c == d
    || ('a' <= c <= 'z' && d as int == c as int - 32)
    || ('A' <= c <= 'Z' && d as int == c as int + 32)
  }

  predicate SameIgnoringCase(a: string, b: string) {
    |a| == |b| && forall i | 0 <= i < |a| :: SameLetter(a[i], b[i])
  }

  lemma LowerIgnoresCase(a: string, b: string)
    ensures LowerAscii(a) == LowerAscii(b) <==> SameIgnoringCase(a, b)
  {
    assert forall i | 0 <= i < |a| && i < |b| :: LowerChar(a[i]) == LowerChar(b[i]) <==> SameLetter(a[i], b[i]);
    if LowerAscii(a) == LowerAscii(b) {
      assert forall i | 0 <= i < |a| :: LowerAscii(a)[i] == LowerAscii(b)[i];
    }
  }

  lemma LowerOfLower(s: string)
    requires forall i | 0 <= i < |s| :: !('A' <= s[i] <= 'Z')
    ensures LowerAscii(s) == s
  {
  }

  // A header name is sensitive exactly when, in whatever case, it is one of these eight.
  lemma SensitiveInAnyCase(name: string)
    ensures IsSensitiveHeaderName(name) <==> exists k | k in ["authorization", "proxy-authorization", "cookie",
              "set-cookie", "x-api-key", "x-auth-token", "x-csrf-token", "x-xsrf-token"] :: SameIgnoringCase(name, k)
  {
    SensitiveNamesLower();
    forall k | k in SENSITIVE_HEADERS
      ensures LowerAscii(name) == k <==> SameIgnoringCase(name, k)
    {
      LowerOfLower(k);
      LowerIgnoresCase(name, k);
    }
    assert SENSITIVE_HEADERS == ["authorization", "proxy-authorization", "cookie", "set-cookie", "x-api-key",
                                 "x-auth-token", "x-csrf-token", "x-xsrf-token"];
  }

  lemma SensitiveNamesLower()
    ensures forall k | k in SENSITIVE_HEADERS :: forall i | 0 <= i < |k| :: !('A' <= k[i] <= 'Z')
  {
  }

  // The events added since the last clear, as they came.
  function AddedSinceClear(ops: seq<TraceOp>): (r: seq<TraceOp>)
    ensures forall i | 0 <= i < |r| :: r[i].Add?
  {
    if ops == [] || ops[|ops| - 1].Clear? then []
    else AddedSinceClear(ops[..|ops| - 1]) + [ops[|ops| - 1]]
  }

  // e is the event that was added at `now`: nothing about it has changed but its number, its date when it had none,
  // and, under a redacting policy, the values of sensitive headers.
  predicate IsKeptAs(added: NetworkEvent, now: int, redact: bool, e: NetworkEvent) {
    && e == added.(sequence := e.sequence, observedAtMs := e.observedAtMs, headers := e.headers)
    && e.observedAtMs == (if added.observedAtMs > 0 then added.observedAtMs else now)
    && |e.headers| == |added.headers|
    && forall j | 0 <= j < |added.headers| ::
         && e.headers[j].name == added.headers[j].name
         && e.headers[j].value ==
            if redact && IsSensitiveHeaderName(added.headers[j].name) then "<redacted>" else added.headers[j].value
  }

  lemma StampedIsKept(e: NetworkEvent, sequence: nat, now: int, redact: bool)
    ensures IsKeptAs(e, now, redact, Stamped(e, sequence, now, redact))
  {
  }

  lemma {:induction false} SinceClearKept(ops: seq<TraceOp>, redact: bool)
    ensures |SinceClear(ops, redact)| == |AddedSinceClear(ops)|
    ensures forall i | 0 <= i < |AddedSinceClear(ops)| ::
      IsKeptAs(AddedSinceClear(ops)[i].event, AddedSinceClear(ops)[i].now, redact, SinceClear(ops, redact)[i])
  {
    hide IsKeptAs, Stamped;
    if ops != [] && ops[|ops| - 1].Add? {
      var n := |ops| - 1;
      SinceClearKept(ops[..n], redact);
      StampedIsKept(ops[n].event, |SinceClear(ops[..n], redact)| + 1, ops[n].now, redact);
    }
  }

  // Each kept event of any run is one of the last that were added since the last clear, in order, kept as it came.
  lemma KeptEventsAreThose(ops: seq<TraceOp>, limit: nat, redact: bool)
    requires limit > 0
    ensures var events, added := TraceRun(ops, limit, redact).events, AddedSinceClear(ops);
      && |events| == (if |added| <= limit then |added| else limit)
      && forall i | 0 <= i < |events| ::
           var a := added[|added| - |events| + i]; IsKeptAs(a.event, a.now, redact, events[i])
  {
    hide IsKeptAs, TraceRun, SinceClear, AddedSinceClear;
    TraceIsWindow(ops, limit, redact);
    SinceClearKept(ops, redact);
  }

  // ---------- The buffer ----------

  class NetworkTraceBuffer {
    const maxEvents: nat
    const redactSensitiveHeaders: bool
    var events: seq<NetworkEvent>
    var nextSequence: nat
    var droppedEventCount: nat

    ghost function State(): Trace
      reads this
    {
      Trace(events, nextSequence, droppedEventCount)
    }

    constructor (maxEvents: nat, redactSensitiveHeaders: bool)
      ensures State() == EMPTY_TRACE && this.maxEvents == Max(1, maxEvents)
      ensures this.redactSensitiveHeaders == redactSensitiveHeaders
    {
      this.maxEvents := if maxEvents == 0 then 1 else maxEvents;
      this.redactSensitiveHeaders := redactSensitiveHeaders;
      events, nextSequence, droppedEventCount := [], 1, 0;
    }

    method AddEvent(newEvent: NetworkEvent, now: int)
      requires maxEvents > 0
      modifies this
      ensures State() == AfterAdd(old(State()), newEvent, now, maxEvents, redactSensitiveHeaders)
      ensures events != [] && IsKeptAs(newEvent, now, redactSensitiveHeaders, events[|events| - 1])
    {
      StampedIsKept(newEvent, nextSequence, now, redactSensitiveHeaders);
      var event := newEvent;
      if redactSensitiveHeaders {
        var headers := RedactSensitiveHeaders(event.headers);
        event := event.(headers := headers);
      }
      if event.observedAtMs <= 0 {
        event := event.(observedAtMs := now);
      }
      event := event.(sequence := nextSequence);
      nextSequence := nextSequence + 1;
      MakeRoom();
      events := events + [event];
    }

    // Drops the oldest events until one more fits.
    method MakeRoom()
      requires maxEvents > 0
      modifies this`events, this`droppedEventCount
      ensures events == LastN(old(events), maxEvents - 1)
      ensures droppedEventCount == old(droppedEventCount) + |old(events)| - |events|
    {
      while |events| >= maxEvents
        invariant |events| <= |old(events)| && events == old(events)[|old(events)| - |events|..]
        invariant |events| >= Min(|old(events)|, maxEvents - 1)
        invariant droppedEventCount == old(droppedEventCount) + |old(events)| - |events|
        decreases |events|
      {
        events := events[1..];
        droppedEventCount := droppedEventCount + 1;
      }
    }

    method ClearEvents()
      modifies this
      ensures State() == EMPTY_TRACE
    {
      events, nextSequence, droppedEventCount := [], 1, 0;
    }

    static method RedactSensitiveHeaders(headers: seq<Header>) returns (r: seq<Header>)
      ensures r == RedactedHeaders(headers)
      ensures |r| == |headers| && forall j | 0 <= j < |r| ::
                && r[j].name == headers[j].name
                && r[j].value == if IsSensitiveHeaderName(r[j].name) then "<redacted>" else headers[j].value
    {
      r := headers;
      for i := 0 to |headers|
        invariant |r| == |headers|
        invariant forall j | 0 <= j < |headers| :: r[j] == if j < i then RedactedHeader(headers[j]) else headers[j]
      {
        if IsSensitiveHeaderName(r[i].name) {
          r := r[i := r[i].(value := REDACTED)];
        }
      }
    }
  }
}
