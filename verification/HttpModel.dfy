/**
 * One step of the exchange with the server (kii_core_run and
 * prv_kii_http_execute of kii_core.c) as a function of the client's state and
 * of what the application's callback answers.
 */
module HttpModel {
  import opened Memory
  import opened HttpText

  datatype Socket = IdleSocket | Connecting | Sending | Receiving | Closing

  datatype State = Idle | Ready | Executing

  datatype HttpError = NoError | InvalidResponse | InsufficientBuffer | SocketError

  datatype Code = Ok | Fail | Again

  /** What a callback answers; `data` is what recv_cb has put into the buffer with its Ok. */
  datatype Answer = Answer(code: Code, data: string)

  datatype Core = Core(buffer: string, total: nat, sent: nat, received: nat, responseLength: nat, scanned: bool,
                       socket: Socket, error: HttpError, state: State, code: nat, body: int, bodyLength: int)

  /** What a step asks of the callbacks, and what comes back. */
  datatype Event = Quiet | Connect(answer: Code) | Send(data: string, answer: Code)
                 | Receive(room: nat, got: string, answer: Code) | Close(answer: Code)

  /** `result` is what prv_kii_http_execute returns. */
  datatype Outcome = Outcome(core: Core, result: Code, event: Event)

  /** The most a socket callback is given at once. */
  const CHUNK := 256

  const HTTP1_1 := "HTTP/1.1 "

  predicate WellFormed(c: Core) {
    && c.total <= |c.buffer| && c.received <= |c.buffer|
    && (c.socket == Connecting || c.socket == Sending ==> c.sent <= c.total)
  }

  /** What send_cb is offered of `w` after `n` bytes. */
  function Chunk(w: string, n: nat): string
    requires n <= |w|
  {
    w[n..n + Min(CHUNK, |w| - n)]
  }

  function Room(c: Core): nat
    requires WellFormed(c)
  {
    Min(CHUNK, |c.buffer| - c.received)
  }

  /** recv_cb keeps to the room it is given. */
  predicate Fits(c: Core, a: Answer)
    requires WellFormed(c)
  {
    c.state == Executing && c.socket == Receiving && a.code == Ok ==> |a.data| <= Room(c)
  }

  function Broken(c: Core): Core { c.(socket := IdleSocket, error := SocketError) }

  /** The buffer stays the same size and the request the same length. */
  predicate Keeps(c: Core, c': Core) {
    WellFormed(c') && |c'.buffer| == |c.buffer| && c'.total == c.total && c'.state == c.state
  }

  function Execute(c: Core, a: Answer): (o: Outcome)
    requires WellFormed(c) && c.state == Executing && Fits(c, a)
    ensures Keeps(c, o.core)
  {
    match c.socket
    case IdleSocket =>
      Outcome(c.(sent := 0, received := 0, socket := Connecting, responseLength := 0, scanned := false,
                error := NoError),
              Again, Quiet)
    case Connecting =>
      (match a.code
       case Ok => Outcome(c.(socket := Sending), Again, Connect(Ok))
       case Again => Outcome(c, Again, Connect(Again))
       case Fail => Outcome(Broken(c), Fail, Connect(Fail)))
    case Sending =>
      var data := Chunk(c.buffer[..c.total], c.sent);
      (match a.code
       case Ok => Outcome(AfterSend(c), Again, Send(data, Ok))
       case Again => Outcome(c, Again, Send(data, Again))
       case Fail => Outcome(Broken(c), Fail, Send(data, Fail)))
    case Receiving =>
      var c' := if c.received == 0 then c.(buffer := Copies('\0', |c.buffer|)) else c;
      (match a.code
       case Ok => Received(c', a.data)
       case Again => Outcome(c', Again, Receive(Room(c'), "", Again))
       case Fail => Outcome(Broken(c'), Fail, Receive(Room(c'), "", Fail)))
    case Closing =>
      (match a.code
       case Ok => Parsed(c)
       case Again => Outcome(c, Again, Close(Again))
       case Fail => Outcome(Broken(c), Fail, Close(Fail)))
  }

  function AfterSend(c: Core): Core
    requires WellFormed(c) && c.socket == Sending
  {
    var sent := c.sent + Min(CHUNK, c.total - c.sent);
    c.(sent := sent, socket := if sent == c.total then Receiving else Sending)
  }

  function Received(c: Core, data: string): (o: Outcome)
    requires WellFormed(c) && c.socket == Receiving && |data| <= Room(c)
    ensures Keeps(c, o.core)
  {
    var c1 := c.(buffer := Put(c.buffer, c.received, data), received := c.received + |data|);
    var event := Receive(Room(c), data, Ok);
    if c1.received >= |c.buffer| then Outcome(c1.(error := InsufficientBuffer), Fail, event)
    else Outcome(Settled(c1, data), Again, event)
  }

  /** What becomes of the exchange with `data` just stored. */
  function Settled(c: Core, data: string): (c': Core)
    requires c.received < |c.buffer|
    ensures |c'.buffer| == |c.buffer| && c'.received == c.received && c'.total == c.total && c'.state == c.state
    ensures c'.socket == Receiving || c'.socket == Closing
  {
    var scan := if c.scanned then Scan(true, c.responseLength) else Scanned(c.buffer, c.responseLength);
    var done := Complete(scan.length, c.received, data);
    c.(buffer := if done then Put(c.buffer, c.received, "\0") else c.buffer, scanned := scan.done,
       responseLength := scan.length, socket := if done then Closing else Receiving)
  }

  datatype Scan = Scan(done: bool, length: nat)

  /** Looks for the end of the head and, if it is there, for the length of the response. */
  function Scanned(buffer: string, length: nat): Scan {
    var end := StrStr(buffer, END_OF_HEADER);
    if end == -1 then Scan(false, length)
    else
      var n := ContentLength(buffer);
      Scan(true, if n > 0 then end + 4 + n else length)
  }

  /** The response is complete when its declared length is there, or when the stream ends. */
  predicate Complete(length: nat, received: nat, data: string) {
    (length > 0 && received >= length) || data == ""
  }

  /** The three digits at `p` as a number; -1 if they are not digits. */
  function StatusAt(s: string, p: nat): int {
    if IsDigit(At(s, p)) && IsDigit(At(s, p + 1)) && IsDigit(At(s, p + 2)) then
      DigitOf(At(s, p)) * 100 + DigitOf(At(s, p + 1)) * 10 + DigitOf(At(s, p + 2))
    else -1
  }

  const NO_RESPONSE := -2

  function Status(buffer: string): int {
    var start := StrStr(buffer, HTTP1_1);
    if start == -1 then NO_RESPONSE else StatusAt(buffer, start + |HTTP1_1|)
  }

  /** Where the body starts; -1 stands for a null pointer. */
  function BodyAt(buffer: string): int {
    var end := StrStr(buffer, END_OF_HEADER);
    if end == -1 then -1 else end + 4
  }

  function Parsed(c: Core): Outcome {
    var status := Status(c.buffer);
    if status < 0 then
      Outcome(c.(code := if status == NO_RESPONSE then c.code else 0, error := InvalidResponse), Fail, Close(Ok))
    else
      var at := BodyAt(c.buffer);
      Outcome(c.(code := status, body := at, bodyLength := if at == -1 then c.bodyLength else c.received - at,
                 socket := IdleSocket), Ok, Close(Ok))
  }

  /** kii_core_run: `ok` is KIIE_OK. */
  datatype Step = Step(core: Core, ok: bool, event: Event)

  function RunOnce(c: Core, a: Answer): (s: Step)
    requires WellFormed(c) && Fits(c, a)
    ensures WellFormed(s.core) && |s.core.buffer| == |c.buffer| && s.core.total == c.total
  {
    match c.state
    case Idle => Step(c, false, Quiet)
    case Ready => Step(c.(state := Executing), true, Quiet)
    case Executing =>
      var o := Execute(c, a);
      Step(if o.result == Again then o.core else o.core.(state := Idle), o.result != Fail, o.event)
  }
}
