/**
 * A whole call, from the built request to the response in the caller's hands.
 */
module HttpCall {
  import opened Memory
  import opened HttpText
  import opened HttpHeaders
  import opened HttpRequest
  import opened HttpModel
  import opened HttpRuns
  import opened HttpResponse
  import opened HttpClient

  lemma ReadyIsFresh(c: Core, r: Request)
    requires WellFormed(c) && c.socket == IdleSocket && |Wire(r)| < |c.buffer|
    ensures var c' := ReadyWith(c, r);
      WellFormed(c') && Fresh(c') && c'.buffer[..c'.total] == Wire(r) && |c'.buffer| == |c.buffer|
  {
  }

  /** The response does not fit the buffer, and that is the error. */
  ghost predicate TooLong(core: Core, response: Response, size: nat) {
    core.error == InsufficientBuffer && |Text(response)| >= size
  }

  /**
   * The server is sent exactly the request, and the caller finds exactly the
   * response, whatever the callbacks put off and however the response is cut,
   * unless a callback fails, and then the server has seen a beginning of the
   * request and nothing else, or the response does not fit the buffer.
   */
  lemma WholeCall(c: Core, r: Request, script: seq<Answer>, response: Response)
    requires WellFormed(c) && c.socket == IdleSocket && |Wire(r)| < |c.buffer|
    requires IsResponse(response) && NeverShort(response)
    requires DeliversAll(ReadyWith(c, r), script, response)
    ensures Fitting(ReadyWith(c, r), script)
    ensures var d := Run(ReadyWith(c, r), script, true);
      && Sent(d.log) <= Wire(r)
      && (d.core.state == Idle ==>
            if d.ok then Sent(d.log) == Wire(r) && Delivered(d.core, response) && |Text(response)| < |c.buffer|
            else Failed(d.log) || TooLong(d.core, response, |c.buffer|))
  {
    ReadyIsFresh(c, r);
    var c' := ReadyWith(c, r);
    Reassembly(c', script, response);
    SendSafety(c', script);
  }

  /** The length header of the request itself says how much body it has, and what follows the head is that body. */
  lemma RequestTellsItsLength(line: string, hs: seq<Header>, data: string)
    requires IsClean(line) && AreClean(hs) && 0 < |data| < Pow10(7)
    ensures var w := Wire(Finished(Request(line + CRLF, hs, CRLF + data), |data|));
      && ContentLength(w) == |data|
      && (var end := StrStr(w, END_OF_HEADER); 0 <= end && w[end + 4..] == data)
  {
    var l := LineOf(LengthHeader(|data|).header);
    var ls := LinesOf(hs) + [l];
    LengthWrittenIsRead(line, hs, data);
    WireOfFinished(line, hs, |data|, data);
    CleanLines(hs);
    LengthLine(|data|);
    HeadEnds(line, ls, data);
    assert (Head(line, ls) + data)[|Head(line, ls)|..] == data;
  }

  /** What a call makes of the request: the appends that are accepted, and the length of the body. */
  ghost function Built(kii: KiiCore, call: Call, calls: seq<Append>): Request {
    var r := AppendAll(Started(kii.app, call), calls, kii.buffer.Length);
    Finished(r, if |r.body| > 2 then |r.body| - 2 else 0)
  }

  /** A call is placed if its start and its end are accepted. */
  ghost predicate Places(kii: KiiCore, call: Call, calls: seq<Append>) {
    var r := AppendAll(Started(kii.app, call), calls, kii.buffer.Length);
    Starts(kii.app, call, kii.buffer.Length)
    && Finishes(r, if |r.body| > 2 then |r.body| - 2 else 0, kii.buffer.Length)
  }

  /** The client as it is when the call is built. */
  ghost function Prepared(kii: KiiCore, call: Call, calls: seq<Append>): Core
    reads kii, kii.buffer
  {
    ReadyWith(kii.View().(socket := IdleSocket), Built(kii, call, calls))
  }

  lemma {:induction false} AppendOne(r: Request, calls: seq<Append>, a: Append, capacity: nat)
    ensures var r' := AppendAll(r, calls, capacity);
      AppendAll(r, calls + [a], capacity) == if Accepts(r', a, capacity) then Added(r', a) else r'
    decreases |calls|
  {
    if calls == [] {
      assert ([] + [a])[1..] == [];
    } else {
      assert (calls + [a])[1..] == calls[1..] + [a];
      AppendOne(if Accepts(r, calls[0], capacity) then Added(r, calls[0]) else r, calls[1..], a, capacity);
    }
  }

  /** Any headers and body data, refused or not. */
  method AppendEach(kii: KiiCore, calls: seq<Append>, ghost r0: Request)
    requires kii.Building(r0)
    modifies kii.buffer, kii`totalSendSize, kii`bodyPosition, kii`contentLength
    ensures kii.Building(AppendAll(r0, calls, kii.buffer.Length))
  {
    ghost var r, n := r0, kii.buffer.Length;
    var i := 0;
    while i < |calls|
      invariant 0 <= i <= |calls| && r == AppendAll(r0, calls[..i], n) && kii.Building(r)
    {
      AppendOne(r0, calls[..i], calls[i], n);
      assert calls[..i + 1] == calls[..i] + [calls[i]];
      var ok;
      match calls[i] {
        case AddHeader(h) => ok := kii.ApiCallAppendHeader(h.key, h.value, r);
        case AddBody(data) => ok := kii.ApiCallAppendBody(Some(data), |data|, r);
      }
      r := if ok then Added(r, calls[i]) else r;
      i := i + 1;
    }
    assert calls[..i] == calls;
  }

  lemma BuiltFits(kii: KiiCore, call: Call, calls: seq<Append>)
    requires Places(kii, call, calls)
    ensures |Wire(Built(kii, call, calls))| < kii.buffer.Length
  {
    var r := AppendAll(Started(kii.app, call), calls, kii.buffer.Length);
    StartedFits(kii.app, call, kii.buffer.Length);
    RefusedLeaveNoTrace(Started(kii.app, call), calls, kii.buffer.Length);
    if |r.body| > 2 { WireOfAdded(r, LengthHeader(|r.body| - 2)); }
  }

  /** What a placed call ends with. */
  ghost predicate Answered(core: Core, ret: int, d: Done, w: string, response: Response, size: nat) {
    && core == d.core && ret == (if d.ok then 0 else -1)
    && (if ret == 0 then Sent(d.log) == w && Delivered(core, response) && |Text(response)| < size
        else Sent(d.log) <= w && (Failed(d.log) || TooLong(core, response, size)))
  }

  /** Start and appends: the client is as before but for the request in its buffer. */
  method Build(kii: KiiCore, call: Call, calls: seq<Append>) returns (ok: bool)
    requires LineAccepted(kii.app, call, kii.buffer.Length) ==> |RequestLine(kii.app, call)| < kii.buffer.Length
    modifies kii, kii.buffer
    ensures ok == Starts(kii.app, call, kii.buffer.Length)
    ensures ok ==> kii.Building(AppendAll(Started(kii.app, call), calls, kii.buffer.Length))
    ensures ok ==> kii.View() ==
                   old(kii.View()).(buffer := kii.buffer[..], total := kii.totalSendSize, socket := IdleSocket)
  {
    ok := kii.ApiCallStart(call);
    if ok { AppendEach(kii, calls, Started(kii.app, call)); }
  }

  /** The callbacks answer a placed call in time, with the response. */
  ghost predicate Answers(c: Core, script: seq<Answer>, response: Response) {
    && IsResponse(response) && NeverShort(response) && WellFormed(c)
    && DeliversAll(c, script, response) && Fitting(c, script) && Run(c, script, true).core.state == Idle
  }

  /** The run of a placed call, given what the callbacks will answer. */
  lemma PlacedRun(c: Core, r: Request, script: seq<Answer>, response: Response)
    requires WellFormed(c) && c.socket == IdleSocket && |Wire(r)| < |c.buffer|
             && Answers(ReadyWith(c, r), script, response)
    ensures var d := Run(ReadyWith(c, r), script, true);
      Answered(d.core, if d.ok then 0 else -1, d, Wire(r), response, |c.buffer|)
  {
    WholeCall(c, r, script, response);
  }

  /**
   * A call as an application places it: start, appends, and run. It returns 0 exactly when the server
   * has been sent the request and the response is there.
   */
  method PlaceCall(kii: KiiCore, call: Call, calls: seq<Append>, script: seq<Answer>, ghost response: Response)
    returns (ret: int)
    requires LineAccepted(kii.app, call, kii.buffer.Length) ==> |RequestLine(kii.app, call)| < kii.buffer.Length
    requires kii.state == Idle && WellFormed(kii.View())
    requires |AppendAll(Started(kii.app, call), calls, kii.buffer.Length).body| < Pow10(7) + 2
    requires Places(kii, call, calls) ==> Answers(Prepared(kii, call, calls), script, response)
    modifies kii, kii.buffer
    ensures !Places(kii, call, calls) ==> ret == -1
    ensures Places(kii, call, calls) ==>
      Answered(kii.View(), ret, Run(old(Prepared(kii, call, calls)), script, true),
               Wire(Built(kii, call, calls)), response, kii.buffer.Length)
  {
    ghost var v, built, n := kii.View().(socket := IdleSocket), Built(kii, call, calls), kii.buffer.Length;
    ghost var r0 := Started(kii.app, call);
    var ok := Build(kii, call, calls);
    if !ok {
      return -1;
    }
    ghost var r := AppendAll(r0, calls, n);
    assert built == Finished(r, kii.contentLength);
    if Places(kii, call, calls) {
      BuiltFits(kii, call, calls);
      SameReady(kii.View(), v, built);
      PlacedRun(v, built, script, response);
    }
    ret := kii.ApiCallRun(script, r);
  }

  /** Getting ready does not depend on what is being overwritten. */
  lemma SameReady(a: Core, b: Core, r: Request)
    requires |a.buffer| == |b.buffer| && |Wire(r)| <= |a.buffer| && a.state == b.state
    requires a.(buffer := b.buffer, total := b.total) == b
    ensures ReadyWith(a, r) == ReadyWith(b, r)
  {
  }
}
