/**
 * The client itself: one buffer that is built into a request, sent in chunks
 * and then filled with the response (kii_core.c, kii_call.c).
 */
module HttpClient {
  import opened Memory
  import opened HttpText
  import opened HttpHeaders
  import opened HttpRequest
  import opened HttpModel
  import opened HttpRuns

  // ---------------------------------------------------------------- memory

  method Memset(a: array<char>)
    modifies a
    ensures a[..] == Copies('\0', a.Length)
  {
    forall i | 0 <= i < a.Length {
      a[i] := '\0';
    }
  }

  method Memcpy(a: array<char>, at: nat, s: string)
    requires at + |s| <= a.Length
    modifies a
    ensures a[..] == Put(old(a[..]), at, s)
  {
    forall i | 0 <= i < |s| {
      a[at + i] := s[i];
    }
  }

  method Memmove(a: array<char>, to: nat, from: nat, n: nat)
    requires to + n <= a.Length && from + n <= a.Length
    modifies a
    ensures a[..] == Put(old(a[..]), to, old(a[..])[from..from + n])
  {
    forall i | 0 <= i < n {
      a[to + i] := a[from + i];
    }
  }

  /** Two writes next to each other are one. */
  lemma PutTwice(b: string, i: nat, d: string, e: string)
    requires i + |d| + |e| <= |b|
    ensures Put(Put(b, i, d), i + |d|, e) == Put(b, i, d + e)
  {
  }

  /** Key, colon, value and end of line, copied one behind the other. */
  lemma FieldIsPut(b: string, b1: string, b2: string, b3: string, at: nat, key: string, value: string)
    requires at + |Field(Header(key, value))| <= |b| == |b1| == |b2| == |b3|
    requires b1 == Put(b, at, key) && b2 == Put(b1, at + |key|, ":") && b3 == Put(b2, at + |key| + 1, value)
    ensures Put(b3, at + |key| + 1 + |value|, "\r\n") == Put(b, at, Field(Header(key, value)))
  {
    PutTwice(b, at, key, ":");
    PutTwice(b, at, key + ":", value);
    PutTwice(b, at, key + ":" + value, "\r\n");
  }

  /** The buffer with a request in it. */
  ghost function Buffered(r: Request, capacity: nat): string
    requires |Wire(r)| <= capacity
  {
    Wire(r) + Copies('\0', capacity - |Wire(r)|)
  }

  lemma PutElsewhere(b: string, i: nat, d: string, k: nat)
    requires i + |d| <= k < |b|
    ensures Put(b, i, d)[k] == b[k]
  {
  }

  /** `f` put in at `at`, where the bytes up to `end` make room for it. */
  ghost function Inserted(b: string, at: nat, end: nat, f: string): string
    requires at <= end && end + |f| <= |b|
  {
    Put(Put(b, at + |f|, b[at..end]), at, f)
  }

  lemma InsertedInTwo(b: string, at: nat, end: nat, f: string, b1: string)
    requires at <= end && end + |f| <= |b| && b1 == Put(b, at + |f|, b[at..end])
    ensures Put(b1, at, f) == Inserted(b, at, end, f)
  {
  }

  lemma HeaderIsInserted(r: Request, h: Header, capacity: nat)
    requires Accepts(r, AddHeader(h), capacity)
    ensures |Wire(Added(r, AddHeader(h)))| == |Wire(r)| + |Field(h)| < capacity
    ensures Inserted(Buffered(r, capacity), |Top(r)|, |Wire(r)|, Field(h)) == Buffered(Added(r, AddHeader(h)), capacity)
    ensures Buffered(r, capacity)[|Wire(r)| + |Field(h)|] == '\0'
  {
    WireOfAdded(r, AddHeader(h));
    assert Buffered(r, capacity)[|Top(r)|..|Wire(r)|] == r.body;
    var b1 := Put(Buffered(r, capacity), |Top(r)| + |Field(h)|, r.body);
    assert b1[..|Top(r)|] == Top(r);
    assert b1[|Top(r)| + |Field(h)|..] == r.body + Copies('\0', capacity - |Wire(r)| - |Field(h)|);
  }

  lemma BodyIsAppended(r: Request, d: string, capacity: nat)
    requires Accepts(r, AddBody(d), capacity)
    ensures |Wire(Added(r, AddBody(d)))| == |Wire(r)| + |d| < capacity
    ensures Put(Buffered(r, capacity), |Wire(r)|, d) == Buffered(Added(r, AddBody(d)), capacity)
  {
    WireOfAdded(r, AddBody(d));
    assert Wire(r) + d + Copies('\0', capacity - |Wire(r)|)[|d|..]
           == Wire(r) + d + Copies('\0', capacity - |Wire(r)| - |d|);
  }

  lemma LineIsWritten(line: string, capacity: nat)
    requires |line| < capacity
    ensures Put(Put(Copies('\0', capacity), 0, line), |line|, "\0") == Buffered(Request(line, [], ""), capacity)
  {
    assert Wire(Request(line, [], "")) == line;
    assert Put(Copies('\0', capacity), 0, line) == line + Copies('\0', capacity - |line|);
  }

  // ---------------------------------------------------------------- the client

  class KiiCore {
    const buffer: array<char>
    var totalSendSize: nat
    var bodyPosition: nat
    var sentSize: nat
    var receivedSize: nat
    var responseLength: nat
    var contentLengthScanned: bool
    var socketState: Socket
    var httpError: HttpError
    var state: State
    var responseCode: nat
    var responseBody: int
    var responseBodyLength: int
    var contentLength: nat
    const app: App

    constructor (buffer: array<char>, app: App)
      ensures this.buffer == buffer && this.app == app
      ensures View() == Core(buffer[..], 0, 0, 0, 0, false, IdleSocket, NoError, Idle, 0, -1, 0)
      ensures bodyPosition == 0 && contentLength == 0
    {
      this.buffer := buffer;
      this.app := app;
      totalSendSize, bodyPosition, sentSize, receivedSize, responseLength := 0, 0, 0, 0, 0;
      contentLengthScanned := false;
      socketState, httpError, state := IdleSocket, NoError, Idle;
      responseCode, responseBody, responseBodyLength, contentLength := 0, -1, 0, 0;
    }

    ghost function View(): Core
      reads this, buffer
    {
      Core(buffer[..], totalSendSize, sentSize, receivedSize, responseLength, contentLengthScanned, socketState,
           httpError, state, responseCode, responseBody, responseBodyLength)
    }

    /** The request that is being built is `r`; the rest of the buffer is zero. */
    ghost predicate Holding(r: Request)
      reads this, buffer
    {
      && totalSendSize == |Wire(r)| < buffer.Length && bodyPosition == |Top(r)|
      && buffer[..] == Buffered(r, buffer.Length)
    }

    /** As above, with the length of the body after the empty line on record. */
    ghost predicate Building(r: Request)
      reads this, buffer
    {
      Holding(r) && contentLength + 2 == |r.body|
    }

    // ------------------------------------------------------------ building

    method SetRequestLine(call: Call) returns (ok: bool)
      requires LineAccepted(app, call, buffer.Length) ==> |RequestLine(app, call)| < buffer.Length
      modifies buffer, `totalSendSize, `bodyPosition, `socketState
      ensures ok == LineAccepted(app, call, buffer.Length)
      ensures ok ==> Holding(Bare(app, call)) && socketState == IdleSocket
      ensures !ok ==> buffer[..] == Copies('\0', buffer.Length) && unchanged(this)
    {
      Memset(buffer);
      if buffer.Length <= |call.verb| + |app.host| + |call.path| + REST_OF_LINE {
        return false;
      }
      var host := if app.normalizer.Some? then app.normalizer.value else app.host;
      var line := call.verb + " https://" + host + "/" + call.path + " HTTP/1.0\r\n";
      assert line == RequestLine(app, call);
      Memcpy(buffer, 0, line);
      Memcpy(buffer, |line|, "\0");
      LineIsWritten(line, buffer.Length);
      totalSendSize := |line|;
      bodyPosition := totalSendSize;
      socketState := IdleSocket;
      return true;
    }

    method SetHeader(key: string, value: string, ghost r: Request) returns (ok: bool)
      requires Holding(r)
      modifies buffer, `totalSendSize, `bodyPosition
      ensures ok == Accepts(r, AddHeader(Header(key, value)), buffer.Length)
      ensures Holding(if ok then Added(r, AddHeader(Header(key, value))) else r)
    {
      var bodySize := totalSendSize - bodyPosition;
      var headerSize := |key| + |":"| + |value| + |"\r\n"|;
      ghost var h := Header(key, value);
      if buffer.Length <= headerSize + totalSendSize {
        return false;
      }
      WireOfAdded(r, AddHeader(h));
      HeaderIsInserted(r, h, buffer.Length);
      InsertHeader(key, value, headerSize, bodySize, Field(h));
      totalSendSize := totalSendSize + headerSize;
      return true;
    }

    method InsertHeader(key: string, value: string, headerSize: nat, bodySize: nat, ghost f: string)
      requires f == Field(Header(key, value)) && headerSize == |f|
      requires bodyPosition + bodySize == totalSendSize && totalSendSize + headerSize < buffer.Length
      requires buffer[..][totalSendSize + headerSize] == '\0'
      modifies buffer, `bodyPosition
      ensures bodyPosition == old(bodyPosition) + headerSize
      ensures buffer[..] == Inserted(old(buffer[..]), old(bodyPosition), totalSendSize, f)
    {
      ghost var b0, at := buffer[..], bodyPosition;
      var insertPosition := bodyPosition;
      Memmove(buffer, bodyPosition + headerSize, bodyPosition, bodySize);
      bodyPosition := bodyPosition + headerSize;
      ghost var b1 := buffer[..];
      PutElsewhere(b0, at + |f|, b0[at..totalSendSize], totalSendSize + headerSize);
      buffer[totalSendSize + headerSize] := '\0';
      assert buffer[..] == b1;
      InsertedInTwo(b0, at, totalSendSize, f, b1);
      WriteField(insertPosition, key, value, f);
    }

    method WriteField(at: nat, key: string, value: string, ghost f: string)
      requires f == Field(Header(key, value)) && at + |f| <= buffer.Length
      modifies buffer
      ensures buffer[..] == Put(old(buffer[..]), at, f)
    {
      ghost var b := buffer[..];
      var position := at;
      Memcpy(buffer, position, key);
      ghost var b1 := buffer[..];
      position := position + |key|;
      Memcpy(buffer, position, ":");
      ghost var b2 := buffer[..];
      position := position + |":"|;
      Memcpy(buffer, position, value);
      ghost var b3 := buffer[..];
      position := position + |value|;
      Memcpy(buffer, position, "\r\n");
      FieldIsPut(b, b1, b2, b3, at, key, value);
    }

    method AppendBody(body: Option<string>, size: nat, ghost r: Request) returns (ok: bool)
      requires Holding(r) && (body.Some? ==> |body.value| == size)
      modifies buffer, `totalSendSize
      ensures ok <==> body.Some? && Accepts(r, AddBody(body.value), buffer.Length)
      ensures Holding(if ok then Added(r, AddBody(body.value)) else r)
    {
      if buffer.Length <= totalSendSize + size {
        return false;
      }
      if body.None? {
        return false;
      }
      BodyIsAppended(r, body.value, buffer.Length);
      WireOfAdded(r, AddBody(body.value));
      Memcpy(buffer, totalSendSize, body.value);
      totalSendSize := totalSendSize + size;
      return true;
    }

    // ------------------------------------------------------------ a call

    /** A header on behalf of a list of calls: it is the list's first. */
    method SetNextHeader(key: string, value: string, ghost r: Request, ghost calls: seq<Append>)
      returns (ok: bool, ghost r': Request)
      requires Holding(r) && calls != [] && calls[0] == AddHeader(Header(key, value))
      modifies buffer, `totalSendSize, `bodyPosition
      ensures Holding(r')
      ensures if ok then AllAccepted(r, calls, buffer.Length) == AllAccepted(r', calls[1..], buffer.Length)
                         && AppendUntil(r, calls, buffer.Length) == AppendUntil(r', calls[1..], buffer.Length)
              else !AllAccepted(r, calls, buffer.Length) && AppendUntil(r, calls, buffer.Length) == r'
    {
      ok := SetHeader(key, value, r);
      r' := if ok then Added(r, calls[0]) else r;
    }

    method SetDefaultHeaders(ghost r: Request) returns (ok: bool)
      requires Holding(r)
      modifies buffer, `totalSendSize, `bodyPosition
      ensures ok == AllAccepted(r, DefaultHeaders(app), buffer.Length)
      ensures Holding(AppendUntil(r, DefaultHeaders(app), buffer.Length))
    {
      ghost var r1 := r;
      ghost var calls := DefaultHeaders(app);
      ok, r1 := SetNextHeader("host", app.host, r1, calls);
      if !ok { return; }
      ok, r1 := SetNextHeader("x-kii-appid", app.id, r1, calls[1..]);
      if !ok { return; }
      ok, r1 := SetNextHeader("x-kii-appkey", app.key, r1, calls[1..][1..]);
      if !ok { return; }
      ok, r1 := SetNextHeader("x-kii-sdk", app.sdk, r1, calls[1..][1..][1..]);
    }

    method SetContentType(call: Call, ghost r: Request) returns (ok: bool)
      requires Holding(r)
      modifies buffer, `totalSendSize, `bodyPosition
      ensures ok == AllAccepted(r, ContentType(call), buffer.Length)
      ensures Holding(AppendUntil(r, ContentType(call), buffer.Length))
    {
      ok := true;
      if call.contentType.Some? {
        JustOne(r, AddHeader(Header("content-type", call.contentType.value)), buffer.Length);
        ok := SetHeader("content-type", call.contentType.value, r);
      }
    }

    method SetAuthorizationHeader(ghost r: Request) returns (ok: bool)
      requires Holding(r)
      modifies buffer, `totalSendSize, `bodyPosition
      ensures var a := AddHeader(Header("authorization", BEARER + " " + app.token));
        && ok == (TokenFits(app.token) && Accepts(r, a, buffer.Length))
        && Holding(if ok then Added(r, a) else r)
    {
      if |app.token| <= 0 {
        return false;
      } else if |BEARER| + |app.token| + 1 >= MAX_AUTH_BUFF_SIZE {
        return false;
      } else {
        ok := SetHeader("authorization", BEARER + " " + app.token, r);
      }
    }

    /** The authorization, if the call is to have one, and the empty line. */
    method SetRest(call: Call, ghost r: Request) returns (ok: bool)
      requires Holding(r)
      modifies buffer, `totalSendSize, `bodyPosition
      ensures ok == (AllAccepted(r, LastCalls(app, call), buffer.Length) && (call.authorized ==> TokenFits(app.token)))
      ensures Holding(AppendUntil(r, LastCalls(app, call), buffer.Length))
    {
      ghost var r1, n := r, buffer.Length;
      if call.authorized {
        ghost var a := AddHeader(Header("authorization", BEARER + " " + app.token));
        Then(r, [a], [AddBody(CRLF)], n);
        JustOne(r, a, n);
        ok := SetAuthorizationHeader(r);
        if !ok {
          return;
        }
        r1 := Added(r, a);
      } else {
        assert Authorization(app, call) + [AddBody(CRLF)] == [AddBody(CRLF)];
      }
      JustOne(r1, AddBody(CRLF), n);
      ok := AppendBody(Some("\r\n"), 2, r1);
    }

    /** kii_core_api_call_start. */
    method ApiCallStart(call: Call) returns (ok: bool)
      requires LineAccepted(app, call, buffer.Length) ==> |RequestLine(app, call)| < buffer.Length
      modifies buffer, `totalSendSize, `bodyPosition, `socketState, `contentLength
      ensures ok == Starts(app, call, buffer.Length)
      ensures ok ==> Building(Started(app, call)) && contentLength == 0 && socketState == IdleSocket
      ensures !ok && LineAccepted(app, call, buffer.Length) ==>
        Holding(AppendUntil(Bare(app, call), StartCalls(app, call), buffer.Length))
    {
      ghost var r, n := Bare(app, call), buffer.Length;
      ghost var defaults, types, last := DefaultHeaders(app), ContentType(call), LastCalls(app, call);
      ok := SetRequestLine(call);
      if !ok { return; }
      ok := SetDefaultHeaders(r);
      Then(r, defaults, types + last, n);
      if !ok { return; }
      r := AppendUntil(r, defaults, n);
      ok := SetContentType(call, r);
      Then(r, types, last, n);
      if !ok { return; }
      ok := SetRest(call, AppendUntil(r, types, n));
      if !ok { return; }
      StartAddsTheEmptyLine(app, call, n);
      contentLength := 0;
    }

    /** kii_core_api_call_append_body. */
    method ApiCallAppendBody(body: Option<string>, size: nat, ghost r: Request) returns (ok: bool)
      requires Building(r) && (body.Some? ==> |body.value| == size)
      modifies buffer, `totalSendSize, `contentLength
      ensures ok <==> body.Some? && Accepts(r, AddBody(body.value), buffer.Length)
      ensures Building(if ok then Added(r, AddBody(body.value)) else r)
    {
      ok := AppendBody(body, size, r);
      if ok { contentLength := contentLength + size; }
    }

    /** kii_core_api_call_append_header. */
    method ApiCallAppendHeader(key: string, value: string, ghost r: Request) returns (ok: bool)
      requires Building(r)
      modifies buffer, `totalSendSize, `bodyPosition
      ensures ok == Accepts(r, AddHeader(Header(key, value)), buffer.Length)
      ensures Building(if ok then Added(r, AddHeader(Header(key, value))) else r)
    {
      ok := SetHeader(key, value, r);
    }

    /** kii_core_api_call_end: the digits have to fit the eight bytes they are printed into. */
    method ApiCallEnd(ghost r: Request) returns (ok: bool)
      requires Building(r) && contentLength < Pow10(7)
      modifies buffer, `totalSendSize, `bodyPosition, `state
      ensures ok == (Finishes(r, old(contentLength), buffer.Length) && old(state) == Idle)
      ensures Holding(if Finishes(r, old(contentLength), buffer.Length) then Finished(r, old(contentLength)) else r)
      ensures state == if ok then Ready else old(state)
    {
      if contentLength > 0 {
        ok := SetHeader("content-length", Decimal(contentLength), r);
        if !ok { return; }
      }
      if state != Idle {
        return false;
      }
      state := Ready;
      return true;
    }

    // ------------------------------------------------------------ running

    method Send(answer: Answer) returns (result: Code, ghost event: Event)
      requires WellFormed(View()) && state == Executing && socketState == Sending
      modifies `sentSize, `socketState, `httpError
      ensures Outcome(View(), result, event) == HttpModel.Execute(old(View()), answer)
    {
      var size := totalSendSize - sentSize;
      if size > CHUNK {
        size := CHUNK;
      }
      event := Event.Send(buffer[sentSize..sentSize + size], answer.code);
      assert buffer[sentSize..sentSize + size] == Chunk(buffer[..][..totalSendSize], sentSize);
      match answer.code {
        case Ok =>
          sentSize := sentSize + size;
          if sentSize == totalSendSize {
            socketState := Receiving;
          }
          return Again, event;
        case Again =>
          return Again, event;
        case Fail =>
          socketState := IdleSocket;
          httpError := SocketError;
          return Fail, event;
      }
    }

    method Receive(answer: Answer) returns (result: Code, ghost event: Event)
      requires WellFormed(View()) && state == Executing && socketState == Receiving && Fits(View(), answer)
      modifies buffer, `receivedSize, `responseLength, `contentLengthScanned, `socketState, `httpError
      ensures Outcome(View(), result, event) == HttpModel.Execute(old(View()), answer)
    {
      var size := buffer.Length - receivedSize;
      if size > CHUNK {
        size := CHUNK;
      }
      if receivedSize == 0 {
        Memset(buffer);
      }
      event := Event.Receive(size, if answer.code == Ok then answer.data else "", answer.code);
      match answer.code {
        case Ok =>
          result := Received(answer.data);
          return result, event;
        case Again =>
          return Again, event;
        case Fail =>
          socketState := IdleSocket;
          httpError := SocketError;
          return Fail, event;
      }
    }

    /** recv_cb has answered Ok with `data`. */
    method Received(data: string) returns (result: Code)
      requires WellFormed(View()) && socketState == Receiving && |data| <= Room(View())
      modifies buffer, `receivedSize, `responseLength, `contentLengthScanned, `socketState, `httpError
      ensures var o := HttpModel.Received(old(View()), data); View() == o.core && result == o.result
    {
      Memcpy(buffer, receivedSize, data);
      receivedSize := receivedSize + |data|;
      if receivedSize >= buffer.Length {
        httpError := InsufficientBuffer;
        return Fail;
      }
      Settle(data);
      return Again;
    }

    method Settle(data: string)
      requires receivedSize < buffer.Length && socketState == Receiving
      modifies buffer, `responseLength, `contentLengthScanned, `socketState
      ensures View() == Settled(old(View()), data)
    {
      ghost var b := buffer[..];
      if !contentLengthScanned {
        ScanHead();
      }
      assert buffer[..] == b;
      CloseIfComplete(data);
    }

    method CloseIfComplete(data: string)
      requires receivedSize < buffer.Length && socketState == Receiving
      modifies buffer, `socketState
      ensures var done := Complete(responseLength, receivedSize, data);
        && buffer[..] == (if done then Put(old(buffer[..]), receivedSize, "\0") else old(buffer[..]))
        && socketState == (if done then Closing else Receiving)
    {
      if responseLength > 0 && receivedSize >= responseLength {
        EndWithNul();
      } else if |data| == 0 {
        EndWithNul();
      }
    }

    method ScanHead()
      requires !contentLengthScanned
      modifies `responseLength, `contentLengthScanned
      ensures Scan(contentLengthScanned, responseLength) == Scanned(buffer[..], old(responseLength))
    {
      var separator := StrStr(buffer[..], END_OF_HEADER);
      var n := 0;
      if separator != -1 {
        n := ParseContentLength(buffer[..]);
        contentLengthScanned := true;
      }
      if n > 0 {
        responseLength := separator + 4 + n;
      }
    }

    method EndWithNul()
      requires receivedSize < buffer.Length
      modifies buffer, `socketState
      ensures buffer[..] == Put(old(buffer[..]), receivedSize, "\0") && socketState == Closing
    {
      buffer[receivedSize] := '\0';
      socketState := Closing;
    }

    method Close(answer: Answer) returns (result: Code, ghost event: Event)
      requires WellFormed(View()) && state == Executing && socketState == Closing
      modifies `responseCode, `responseBody, `responseBodyLength, `socketState, `httpError
      ensures Outcome(View(), result, event) == HttpModel.Execute(old(View()), answer)
    {
      event := Event.Close(answer.code);
      match answer.code {
        case Ok =>
          result := ParseResponse();
          return result, event;
        case Again =>
          return Again, event;
        case Fail =>
          socketState := IdleSocket;
          httpError := SocketError;
          return Fail, event;
      }
    }

    method ParseResponse() returns (result: Code)
      requires socketState == Closing
      modifies `responseCode, `responseBody, `responseBodyLength, `socketState, `httpError
      ensures var o := Parsed(old(View())); View() == o.core && result == o.result
    {
      var s := buffer[..];
      var pointer := StrStr(s, HTTP1_1);
      if pointer == -1 {
        httpError := InvalidResponse;
        return Fail;
      }
      var parsed := ParseStatus(s, pointer + |HTTP1_1|);
      if !parsed {
        httpError := InvalidResponse;
        return Fail;
      }
      var end := StrStr(s, END_OF_HEADER);
      responseBody := -1;
      if end != -1 {
        responseBody := end + |END_OF_HEADER|;
        responseBodyLength := receivedSize - responseBody;
      }
      socketState := IdleSocket;
      assert buffer[..] == s;
      return Ok;
    }

    method ParseStatus(s: string, pointer: nat) returns (parsed: bool)
      modifies `responseCode
      ensures parsed == (StatusAt(s, pointer) != -1) && responseCode == if parsed then StatusAt(s, pointer) else 0
    {
      responseCode := 0;
      var i := 0;
      while i < 3
        invariant 0 <= i <= 3
        invariant AreDigitsAt(s, pointer, i) && responseCode == Leading(s, pointer, i)
      {
        if !IsDigit(At(s, pointer + i)) {
          responseCode := 0;
          NoStatus(s, pointer, i);
          return false;
        }
        responseCode := responseCode * 10 + DigitOf(At(s, pointer + i));
        i := i + 1;
      }
      LeadingThree(s, pointer);
      return true;
    }

    /** prv_kii_http_execute; `answer` is what the callback says if one is asked. */
    method Execute(answer: Answer) returns (result: Code, ghost event: Event)
      requires WellFormed(View()) && state == Executing && Fits(View(), answer)
      modifies this, buffer
      ensures Outcome(View(), result, event) == HttpModel.Execute(old(View()), answer)
      ensures unchanged(`contentLength)
    {
      match socketState {
        case IdleSocket =>
          sentSize, receivedSize := 0, 0;
          socketState := Connecting;
          responseLength := 0;
          contentLengthScanned := false;
          httpError := NoError;
          return Again, Quiet;
        case Connecting =>
          event := Connect(answer.code);
          match answer.code {
            case Ok =>
              socketState := Sending;
              return Again, event;
            case Again =>
              return Again, event;
            case Fail =>
              socketState := IdleSocket;
              httpError := SocketError;
              return Fail, event;
          }
        case Sending => result, event := Send(answer);
        case Receiving => result, event := Receive(answer);
        case Closing => result, event := Close(answer);
      }
    }

    /** kii_core_run. */
    method CoreRun(answer: Answer) returns (ok: bool, ghost event: Event)
      requires WellFormed(View()) && Fits(View(), answer)
      modifies this, buffer
      ensures Step(View(), ok, event) == RunOnce(old(View()), answer)
      ensures unchanged(`contentLength)
    {
      match state {
        case Idle =>
          return false, Quiet;
        case Ready =>
          state := Executing;
          return true, Quiet;
        case Executing =>
          var result;
          result, event := Execute(answer);
          if result == Ok {
            state := Idle;
            return true, event;
          } else if result == Again {
            return true, event;
          } else {
            state := Idle;
            return false, event;
          }
      }
    }

    /** kii_api_call_run: the callbacks answer from `script`, which is long enough for the client to become IDLE. */
    method ApiCallRun(script: seq<Answer>, ghost r: Request) returns (ret: int)
      requires Building(r) && contentLength < Pow10(7) && WellFormed(View()) && socketState == IdleSocket
      requires var c := ReadyWith(View(), Finished(r, contentLength));
        Finishes(r, contentLength, buffer.Length) && state == Idle ==>
          Fitting(c, script) && Run(c, script, true).core.state == Idle
      modifies this, buffer
      ensures Finishes(r, old(contentLength), buffer.Length) && old(state) == Idle ==>
        (var d := Run(ReadyWith(old(View()), Finished(r, old(contentLength))), script, true);
         View() == d.core && ret == if d.ok then 0 else -1)
      ensures !(Finishes(r, old(contentLength), buffer.Length) && old(state) == Idle) ==> ret == -1
    {
      var ok := ApiCallEnd(r);
      if !ok {
        return -1;
      }
      ghost var c := View();
      assert c == ReadyWith(old(View()), Finished(r, old(contentLength)));
      ghost var d := Run(c, script, true);
      var n := 0;
      while true
        invariant 0 <= n <= |script| && WellFormed(View()) && Fitting(View(), script[n..])
        invariant state != Idle
        invariant Run(View(), script[n..], ok).core == d.core && Run(View(), script[n..], ok).ok == d.ok
        decreases |script| - n
      {
        ghost var event;
        ok, event := CoreRun(script[n]);
        assert script[n..][1..] == script[n + 1..];
        n := n + 1;
        if state == Idle {
          break;
        }
      }
      return if ok then 0 else -1;
    }
  }

  /** The client as the end of the call leaves it. */
  ghost function ReadyWith(c: Core, r: Request): Core {
    if |Wire(r)| <= |c.buffer| then c.(buffer := Buffered(r, |c.buffer|), total := |Wire(r)|, state := Ready) else c
  }

  ghost predicate AreDigitsAt(s: string, p: nat, n: nat) {
    n == 0 || (IsDigit(At(s, p + (n - 1))) && AreDigitsAt(s, p, n - 1))
  }

  /** The number the first `n` digits make. */
  ghost function Leading(s: string, p: nat, n: nat): nat
    requires AreDigitsAt(s, p, n)
  {
    if n == 0 then 0 else Leading(s, p, n - 1) * 10 + DigitOf(At(s, p + (n - 1)))
  }

  lemma LeadingThree(s: string, p: nat)
    requires AreDigitsAt(s, p, 3)
    ensures Leading(s, p, 3) == StatusAt(s, p)
  {
    assert AreDigitsAt(s, p, 2) && AreDigitsAt(s, p, 1);
    assert Leading(s, p, 1) == Leading(s, p, 0) * 10 + DigitOf(At(s, p + 0));
    assert Leading(s, p, 2) == Leading(s, p, 1) * 10 + DigitOf(At(s, p + 1));
    assert Leading(s, p, 3) == Leading(s, p, 2) * 10 + DigitOf(At(s, p + 2));
  }

  lemma NoStatus(s: string, p: nat, i: nat)
    requires i < 3 && !IsDigit(At(s, p + i))
    ensures StatusAt(s, p) == -1
  {
    assert At(s, p + 0) == At(s, p);
  }
}
