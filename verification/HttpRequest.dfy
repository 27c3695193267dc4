/**
 * What the request builder of kii_core.c puts in its buffer: a request line,
 * header fields and a body, whatever the order in which the calls arrive.
 */
module HttpRequest {
  import opened Memory
  import opened HttpText
  import opened HttpHeaders

  datatype Header = Header(key: string, value: string)

  datatype Request = Request(line: string, headers: seq<Header>, body: string)

  function Field(h: Header): string { h.key + ":" + h.value + CRLF }

  function Fields(hs: seq<Header>): string {
    if hs == [] then "" else Field(hs[0]) + Fields(hs[1..])
  }

  /** Everything before the body. */
  function Top(r: Request): string { r.line + Fields(r.headers) }

  function Wire(r: Request): string { Top(r) + r.body }

  /** What a call adds. */
  datatype Append = AddHeader(header: Header) | AddBody(data: string)

  function Size(a: Append): nat {
    match a
    case AddHeader(h) => |h.key| + 1 + |h.value| + 2
    case AddBody(d) => |d|
  }

  function Added(r: Request, a: Append): Request {
    match a
    case AddHeader(h) => r.(headers := r.headers + [h])
    case AddBody(d) => r.(body := r.body + d)
  }

  /** A buffer of `capacity` bytes always keeps one for the NUL at the end. */
  predicate Accepts(r: Request, a: Append, capacity: nat) {
    |Wire(r)| + Size(a) < capacity
  }

  /** All the calls in a row; a refused one changes nothing and is not the end. */
  function AppendAll(r: Request, calls: seq<Append>, capacity: nat): Request
    decreases |calls|
  {
    if calls == [] then r
    else AppendAll(if Accepts(r, calls[0], capacity) then Added(r, calls[0]) else r, calls[1..], capacity)
  }

  predicate AllAccepted(r: Request, calls: seq<Append>, capacity: nat)
    decreases |calls|
  {
    calls == [] || (Accepts(r, calls[0], capacity) && AllAccepted(Added(r, calls[0]), calls[1..], capacity))
  }

  /** The calls up to the first refusal. */
  function AppendUntil(r: Request, calls: seq<Append>, capacity: nat): Request
    decreases |calls|
  {
    if calls == [] || !Accepts(r, calls[0], capacity) then r
    else AppendUntil(Added(r, calls[0]), calls[1..], capacity)
  }

  // ------------------------------------------------------- order and sizes

  function HeadersOf(calls: seq<Append>): seq<Header> {
    if calls == [] then []
    else (if calls[0].AddHeader? then [calls[0].header] else []) + HeadersOf(calls[1..])
  }

  function BodyOf(calls: seq<Append>): string {
    if calls == [] then ""
    else (if calls[0].AddBody? then calls[0].data else "") + BodyOf(calls[1..])
  }

  function TotalSize(calls: seq<Append>): nat {
    if calls == [] then 0 else Size(calls[0]) + TotalSize(calls[1..])
  }

  lemma {:induction false} FieldsOfMore(hs: seq<Header>, h: Header)
    ensures Fields(hs + [h]) == Fields(hs) + Field(h)
  {
    if hs == [] {
      assert [h][1..] == [];
    } else {
      assert (hs + [h])[1..] == hs[1..] + [h];
      FieldsOfMore(hs[1..], h);
    }
  }

  /** One call: a header goes in front of the body, which moves; body data goes at the end. */
  lemma WireOfAdded(r: Request, a: Append)
    ensures |Wire(Added(r, a))| == |Wire(r)| + Size(a)
    ensures a.AddHeader? ==> Top(Added(r, a)) == Top(r) + Field(a.header)
    ensures a.AddHeader? ==> Wire(Added(r, a)) == Top(r) + Field(a.header) + r.body
    ensures a.AddBody? ==> Top(Added(r, a)) == Top(r) && Wire(Added(r, a)) == Wire(r) + a.data
  {
    if a.AddHeader? { FieldsOfMore(r.headers, a.header); }
  }

  /** The calls are all accepted exactly when what they add in all fits. */
  lemma {:induction false} AllFitExactly(r: Request, calls: seq<Append>, capacity: nat)
    requires |Wire(r)| < capacity
    ensures AllAccepted(r, calls, capacity) <==> |Wire(r)| + TotalSize(calls) < capacity
    decreases |calls|
  {
    if calls != [] {
      WireOfAdded(r, calls[0]);
      if Accepts(r, calls[0], capacity) { AllFitExactly(Added(r, calls[0]), calls[1..], capacity); }
    }
  }

  /** A request with more headers and more body. */
  function With(r: Request, hs: seq<Header>, d: string): Request { Request(r.line, r.headers + hs, r.body + d) }

  lemma WithAdded(r: Request, a: Append, calls: seq<Append>)
    ensures With(Added(r, a), HeadersOf(calls), BodyOf(calls)) == With(r, HeadersOf([a] + calls), BodyOf([a] + calls))
  {
    assert ([a] + calls)[1..] == calls;
    assert Added(r, a).headers + HeadersOf(calls) == r.headers + HeadersOf([a] + calls);
    assert Added(r, a).body + BodyOf(calls) == r.body + BodyOf([a] + calls);
  }

  /** The headers end up in the order of their calls, and so does the body, however the two are mixed. */
  lemma {:induction false} AcceptedInOrder(r: Request, calls: seq<Append>, capacity: nat)
    requires AllAccepted(r, calls, capacity)
    ensures AppendAll(r, calls, capacity) == AppendUntil(r, calls, capacity)
    ensures AppendAll(r, calls, capacity) == Request(r.line, r.headers + HeadersOf(calls), r.body + BodyOf(calls))
    decreases |calls|
  {
    if calls == [] {
      assert With(r, [], "") == r;
    } else {
      AcceptedInOrder(Added(r, calls[0]), calls[1..], capacity);
      WithAdded(r, calls[0], calls[1..]);
      assert [calls[0]] + calls[1..] == calls;
    }
  }

  lemma {:induction false} SizeInParts(calls: seq<Append>)
    ensures TotalSize(calls) == |Fields(HeadersOf(calls))| + |BodyOf(calls)|
  {
    if calls != [] {
      SizeInParts(calls[1..]);
      if calls[0].AddHeader? {
        assert HeadersOf(calls)[0] == calls[0].header && HeadersOf(calls)[1..] == HeadersOf(calls[1..]);
      } else {
        assert HeadersOf(calls) == HeadersOf(calls[1..]);
      }
    }
  }

  /** How header and body calls are interleaved changes neither what is accepted nor the result. */
  lemma KindsCommute(r: Request, calls: seq<Append>, others: seq<Append>, capacity: nat)
    requires |Wire(r)| < capacity
    requires HeadersOf(calls) == HeadersOf(others) && BodyOf(calls) == BodyOf(others)
    ensures AllAccepted(r, calls, capacity) <==> AllAccepted(r, others, capacity)
    ensures AllAccepted(r, calls, capacity) ==> AppendAll(r, calls, capacity) == AppendAll(r, others, capacity)
  {
    AllFitExactly(r, calls, capacity);
    AllFitExactly(r, others, capacity);
    SizeInParts(calls);
    SizeInParts(others);
    if AllAccepted(r, calls, capacity) {
      AcceptedInOrder(r, calls, capacity);
      AcceptedInOrder(r, others, capacity);
    }
  }

  /** The calls that were accepted. */
  function Accepted(r: Request, calls: seq<Append>, capacity: nat): seq<Append>
    decreases |calls|
  {
    if calls == [] then []
    else if Accepts(r, calls[0], capacity) then [calls[0]] + Accepted(Added(r, calls[0]), calls[1..], capacity)
    else Accepted(r, calls[1..], capacity)
  }

  /** A refused call leaves no trace: the result is that of the accepted calls alone, and it fits. */
  lemma {:induction false} RefusedLeaveNoTrace(r: Request, calls: seq<Append>, capacity: nat)
    requires |Wire(r)| < capacity
    ensures AllAccepted(r, Accepted(r, calls, capacity), capacity)
    ensures AppendAll(r, calls, capacity) == AppendAll(r, Accepted(r, calls, capacity), capacity)
    ensures |Wire(AppendAll(r, calls, capacity))| < capacity
    decreases |calls|
  {
    if calls != [] {
      WireOfAdded(r, calls[0]);
      if Accepts(r, calls[0], capacity) {
        RefusedLeaveNoTrace(Added(r, calls[0]), calls[1..], capacity);
        assert Accepted(r, calls, capacity)[1..] == Accepted(Added(r, calls[0]), calls[1..], capacity);
      } else {
        RefusedLeaveNoTrace(r, calls[1..], capacity);
      }
    }
  }

  /** Calls after calls: the later ones are made if the earlier ones are accepted. */
  lemma {:induction false} Then(r: Request, calls: seq<Append>, more: seq<Append>, capacity: nat)
    ensures var r' := AppendUntil(r, calls, capacity); var all := calls + more;
      if AllAccepted(r, calls, capacity) then
        (AllAccepted(r, all, capacity) <==> AllAccepted(r', more, capacity))
        && AppendUntil(r, all, capacity) == AppendUntil(r', more, capacity)
      else !AllAccepted(r, all, capacity) && AppendUntil(r, all, capacity) == r'
    decreases |calls|
  {
    if calls == [] {
      assert calls + more == more;
    } else if Accepts(r, calls[0], capacity) {
      assert (calls + more)[1..] == calls[1..] + more;
      Then(Added(r, calls[0]), calls[1..], more, capacity);
    }
  }

  lemma JustOne(r: Request, a: Append, capacity: nat)
    ensures AllAccepted(r, [a], capacity) <==> Accepts(r, a, capacity)
    ensures AppendUntil(r, [a], capacity) == if Accepts(r, a, capacity) then Added(r, a) else r
  {
    assert [a][1..] == [];
  }

  // ------------------------------------------------------ a call to the server

  datatype App = App(host: string, id: string, key: string, sdk: string, token: string, normalizer: Option<string>)

  datatype Call = Call(verb: string, path: string, contentType: Option<string>, authorized: bool)

  const REST_OF_LINE := 21

  function StartLine(verb: string, host: string, path: string): string {
    verb + " https://" + host + "/" + path + " HTTP/1.0"
  }

  /** The host the request line names: the normalizer's if there is one. */
  function LineHost(app: App): string {
    if app.normalizer.Some? then app.normalizer.value else app.host
  }

  function RequestLine(app: App, call: Call): string {
    StartLine(call.verb, LineHost(app), call.path) + CRLF
  }

  /** The size check of the request line, which measures the application's host. */
  predicate LineAccepted(app: App, call: Call, capacity: nat) {
    |call.verb| + |app.host| + |call.path| + REST_OF_LINE < capacity
  }

  /** The check is enough for every buffer exactly when the host that is printed is not longer than the one measured. */
  lemma LineFitsExactly(app: App, call: Call)
    ensures (forall capacity: nat :: LineAccepted(app, call, capacity) ==> |RequestLine(app, call)| < capacity)
            <==> |LineHost(app)| <= |app.host|
  {
    LineLength(app, call);
    var least := |call.verb| + |app.host| + |call.path| + REST_OF_LINE + 1;
    assert LineAccepted(app, call, least);
  }

  lemma LineLength(app: App, call: Call)
    ensures |RequestLine(app, call)| == |call.verb| + |LineHost(app)| + |call.path| + REST_OF_LINE
  {
  }

  /** A normalizer host of one character more, and a buffer in which the NUL has no place. */
  lemma LongerNormalizerOverruns() returns (app: App, call: Call, capacity: nat)
    ensures LineAccepted(app, call, capacity) && |RequestLine(app, call)| >= capacity
  {
    app := App("kii.com", "", "", "", "", Some("kii2.com"));
    call := Call("GET", "", None, false);
    capacity := 32;
    LineLength(app, call);
  }

  const MAX_AUTH_BUFF_SIZE := 128
  const BEARER := "bearer"

  predicate TokenFits(token: string) {
    0 < |token| && |BEARER| + |token| + 1 < MAX_AUTH_BUFF_SIZE
  }

  function DefaultHeaders(app: App): seq<Append> {
    [AddHeader(Header("host", app.host)), AddHeader(Header("x-kii-appid", app.id)),
     AddHeader(Header("x-kii-appkey", app.key)), AddHeader(Header("x-kii-sdk", app.sdk))]
  }

  function ContentType(call: Call): seq<Append> {
    if call.contentType.Some? then [AddHeader(Header("content-type", call.contentType.value))] else []
  }

  function Authorization(app: App, call: Call): seq<Append> {
    if call.authorized then [AddHeader(Header("authorization", BEARER + " " + app.token))] else []
  }

  /** What starting a call adds to the request line; without a usable token it stops before the authorization. */
  function StartCalls(app: App, call: Call): seq<Append> {
    DefaultHeaders(app) + (ContentType(call) + LastCalls(app, call))
  }

  function LastCalls(app: App, call: Call): seq<Append> {
    if call.authorized && !TokenFits(app.token) then [] else Authorization(app, call) + [AddBody(CRLF)]
  }

  function Bare(app: App, call: Call): Request { Request(RequestLine(app, call), [], "") }

  predicate Starts(app: App, call: Call, capacity: nat) {
    && LineAccepted(app, call, capacity)
    && AllAccepted(Bare(app, call), StartCalls(app, call), capacity)
    && (call.authorized ==> TokenFits(app.token))
  }

  function Started(app: App, call: Call): Request {
    Request(RequestLine(app, call), HeadersOf(StartCalls(app, call)), CRLF)
  }

  lemma StartAddsTheEmptyLine(app: App, call: Call, capacity: nat)
    requires Starts(app, call, capacity)
    ensures AppendUntil(Bare(app, call), StartCalls(app, call), capacity) == Started(app, call)
  {
    AcceptedInOrder(Bare(app, call), StartCalls(app, call), capacity);
    var hs := DefaultHeaders(app) + ContentType(call) + Authorization(app, call);
    assert StartCalls(app, call) == hs + [AddBody(CRLF)];
    HeadersHaveNoBody(hs, CRLF);
  }

  lemma {:induction false} HeadersHaveNoBody(hs: seq<Append>, d: string)
    requires forall i :: 0 <= i < |hs| ==> hs[i].AddHeader?
    ensures BodyOf(hs + [AddBody(d)]) == d
  {
    if hs == [] {
      assert [AddBody(d)][1..] == [];
    } else {
      assert (hs + [AddBody(d)])[1..] == hs[1..] + [AddBody(d)];
      HeadersHaveNoBody(hs[1..], d);
    }
  }

  // --------------------------------------------------- the length of the body

  function LengthHeader(n: nat): Append { AddHeader(Header("content-length", Decimal(n))) }

  /** What the end of a call makes of the request: the length of the body is added if there is one. */
  function Finished(r: Request, n: nat): Request { if n == 0 then r else Added(r, LengthHeader(n)) }

  predicate Finishes(r: Request, n: nat, capacity: nat) { n == 0 || Accepts(r, LengthHeader(n), capacity) }

  /** The text of a header without its line break. */
  function LineOf(h: Header): string { h.key + ":" + h.value }

  ghost function LinesOf(hs: seq<Header>): seq<string> {
    if hs == [] then [] else [LineOf(hs[0])] + LinesOf(hs[1..])
  }

  ghost predicate AreClean(hs: seq<Header>) {
    forall i {:trigger hs[i]} :: 0 <= i < |hs| ==> IsClean(LineOf(hs[i])) && !NamesLength(LineOf(hs[i]))
  }

  lemma {:induction false} FieldsAreLines(hs: seq<Header>)
    ensures Fields(hs) == Lines(LinesOf(hs))
  {
    if hs != [] {
      FieldsAreLines(hs[1..]);
      assert LinesOf(hs)[1..] == LinesOf(hs[1..]);
      assert Field(hs[0]) + Fields(hs[1..]) == LineOf(hs[0]) + (CRLF + Lines(LinesOf(hs[1..])));
    }
  }

  lemma {:induction false} LinesOfMore(hs: seq<Header>, h: Header)
    ensures LinesOf(hs + [h]) == LinesOf(hs) + [LineOf(h)]
  {
    if hs != [] {
      assert (hs + [h])[1..] == hs[1..] + [h];
      LinesOfMore(hs[1..], h);
    }
  }

  lemma {:induction false} CleanLines(hs: seq<Header>)
    requires AreClean(hs)
    ensures AreLines(LinesOf(hs)) && (forall i :: 0 <= i < |LinesOf(hs)| ==> !NamesLength(LinesOf(hs)[i]))
  {
    if hs != [] {
      assert AreClean(hs[1..]);
      CleanLines(hs[1..]);
      assert IsClean(LineOf(hs[0])) && LineOf(hs[0]) != "";
    }
  }

  lemma LengthLine(n: nat)
    requires 0 < n < Pow10(7)
    ensures IsLengthLine(LineOf(LengthHeader(n).header), ":", Decimal(n)) && IsClean(LineOf(LengthHeader(n).header))
  {
    DecimalRoundTrip(n);
    DecimalLength(n, 7);
    var l := LineOf(LengthHeader(n).header);
    assert l == LOWER + ":" + Decimal(n) && |LOWER| == CL_LENGTH;
    assert l[CL_LENGTH..] == ":" + Decimal(n);
  }

  /** A finished request: its body starts with the empty line, and the length of the rest is the last header. */
  lemma WireOfFinished(line: string, hs: seq<Header>, n: nat, data: string)
    ensures Wire(Request(line + CRLF, hs + [LengthHeader(n).header], CRLF + data))
            == Head(line, LinesOf(hs) + [LineOf(LengthHeader(n).header)]) + data
  {
    FieldsAreLines(hs + [LengthHeader(n).header]);
    LinesOfMore(hs, LengthHeader(n).header);
  }

  /**
   * The length written by kii_core_api_call_end is the one kii_parse_content_length
   * reads, given that nothing else in the head can be taken for it.
   */
  lemma LengthWrittenIsRead(line: string, hs: seq<Header>, data: string)
    requires IsClean(line) && AreClean(hs) && 0 < |data| < Pow10(7)
    ensures ContentLength(Wire(Request(line + CRLF, hs + [LengthHeader(|data|).header], CRLF + data))) == |data|
  {
    var n := |data|;
    var l := LineOf(LengthHeader(n).header);
    WireOfFinished(line, hs, n, data);
    CleanLines(hs);
    LengthLine(n);
    assert LinesOf(hs) + [l] + [] == LinesOf(hs) + [l];
    HeadDeclares(line, LinesOf(hs), l, [], ":", Decimal(n), data);
    DecimalRoundTrip(n);
  }

  /** The same for a whole call: start, any appends, end. */
  lemma CallLengthIsRead(app: App, call: Call, calls: seq<Append>, capacity: nat)
    requires Starts(app, call, capacity)
    requires var r := AppendAll(Started(app, call), calls, capacity);
      && IsClean(StartLine(call.verb, LineHost(app), call.path)) && AreClean(r.headers)
      && 2 < |r.body| < 2 + Pow10(7)
      && Accepts(r, LengthHeader(|r.body| - 2), capacity)
    ensures var r := AppendAll(Started(app, call), calls, capacity);
      ContentLength(Wire(Added(r, LengthHeader(|r.body| - 2)))) == |r.body| - 2
  {
    var r0 := Started(app, call);
    var r := AppendAll(r0, calls, capacity);
    StartedFits(app, call, capacity);
    RefusedLeaveNoTrace(r0, calls, capacity);
    var some := Accepted(r0, calls, capacity);
    AcceptedInOrder(r0, some, capacity);
    var line := StartLine(call.verb, LineHost(app), call.path);
    var data := BodyOf(some);
    assert r.line == line + CRLF && r.body == CRLF + data;
    LengthWrittenIsRead(line, r.headers, data);
  }

  lemma StartedFits(app: App, call: Call, capacity: nat)
    requires Starts(app, call, capacity)
    ensures |Wire(Started(app, call))| < capacity
  {
    AcceptedFit(Bare(app, call), StartCalls(app, call), capacity);
    StartAddsTheEmptyLine(app, call, capacity);
  }

  lemma {:induction false} AcceptedFit(r: Request, calls: seq<Append>, capacity: nat)
    requires AllAccepted(r, calls, capacity) && calls != []
    ensures |Wire(AppendUntil(r, calls, capacity))| < capacity
    decreases |calls|
  {
    WireOfAdded(r, calls[0]);
    if |calls| > 1 { AcceptedFit(Added(r, calls[0]), calls[1..], capacity); }
  }
}
