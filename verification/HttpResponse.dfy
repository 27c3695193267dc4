/**
 * Putting a response together: however the server's text is cut into pieces,
 * the client ends with its status, and with its body where it is.
 */
module HttpResponse {
  import opened Memory
  import opened HttpText
  import opened HttpHeaders
  import opened HttpModel
  import opened HttpRuns

  datatype Response = Response(status: string, reason: string, lines: seq<string>, body: string)

  ghost function HeadOf(r: Response): string { Head(HTTP1_1 + r.status + r.reason, r.lines) }

  ghost function Text(r: Response): string { HeadOf(r) + r.body }

  /** `HTTP/1.1 ddd`, a head of any lines without NULs, and a body with any bytes. */
  ghost predicate IsResponse(r: Response) {
    |r.status| == 3 && AreDigits(r.status) && IsClean(r.reason) && AreLines(r.lines)
  }

  /** The length the client reads when `m` bytes of the body have come with the end of the head. */
  ghost function LengthRead(r: Response, m: nat): nat
    requires m <= |r.body|
  {
    ContentLength(HeadOf(r) + r.body[..m])
  }

  /** No length the client may read is shorter than the body. */
  ghost predicate NeverShort(r: Response) {
    forall m :: 0 <= m < |r.body| && m < CHUNK ==> LengthRead(r, m) == 0 || LengthRead(r, m) >= |r.body|
  }

  lemma StartIsClean(r: Response)
    requires IsResponse(r)
    ensures IsClean(HTTP1_1 + r.status + r.reason)
  {
    assert IsClean(HTTP1_1);
  }

  // ------------------------------------------ what is read once the head is there

  lemma EndIsFound(r: Response, tail: string)
    requires IsResponse(r)
    ensures StrStr(HeadOf(r) + tail, END_OF_HEADER) == |HeadOf(r)| - 4
  {
    StartIsClean(r);
    HeadEnds(HTTP1_1 + r.status + r.reason, r.lines, tail);
  }

  lemma LengthIsFound(r: Response, m: nat, n: nat)
    requires m <= |r.body|
    ensures ContentLength(HeadOf(r) + r.body[..m] + Copies('\0', n)) == LengthRead(r, m)
  {
    var s := HeadOf(r) + r.body[..m];
    assert SameText(s + Copies('\0', n), s);
    SameLength(s + Copies('\0', n), s, 0);
  }

  lemma StatusIsFound(r: Response, tail: string)
    requires IsResponse(r)
    ensures Status(HeadOf(r) + tail) == NumberOf(r.status, 0)
  {
    var s := HeadOf(r) + tail;
    var rest := r.reason + (CRLF + (Lines(r.lines) + CRLF)) + tail;
    assert s == HTTP1_1 + (r.status + rest);
    assert StandsAt(s, 0, HTTP1_1);
    assert StrStr(s, HTTP1_1) == 0;
    DigitsAt(s, |HTTP1_1|, r.status, rest);
    ThreeDigits(r.status);
  }

  lemma DigitsAt(s: string, p: nat, ds: string, rest: string)
    requires p <= |s| && s[p..] == ds + rest && |ds| == 3
    ensures At(s, p) == ds[0] && At(s, p + 1) == ds[1] && At(s, p + 2) == ds[2]
  {
    assert s[p] == s[p..][0] && s[p + 1] == s[p..][1] && s[p + 2] == s[p..][2];
  }

  lemma ThreeDigits(ds: string)
    requires |ds| == 3 && AreDigits(ds)
    ensures NumberOf(ds, 0) == DigitOf(ds[0]) * 100 + DigitOf(ds[1]) * 10 + DigitOf(ds[2])
  {
    var d1, d2, d3 := ds[1..], ds[1..][1..], ds[1..][1..][1..];
    assert NumberOf(ds, 0) == NumberOf(d1, DigitOf(ds[0]));
    assert NumberOf(d1, DigitOf(ds[0])) == NumberOf(d2, DigitOf(ds[0]) * 10 + DigitOf(ds[1]));
    assert NumberOf(d2, DigitOf(ds[0]) * 10 + DigitOf(ds[1]))
        == NumberOf(d3, (DigitOf(ds[0]) * 10 + DigitOf(ds[1])) * 10 + DigitOf(ds[2]));
  }

  // ------------------------------------------------------- the buffer as it fills

  /** `n` bytes of the text are in the buffer, and zeros after them. */
  ghost predicate Filled(b: string, text: string, n: nat) {
    n <= |text| && n <= |b| && b == text[..n] + Copies('\0', |b| - n)
  }

  lemma FilledMore(b: string, text: string, n: nat, d: string)
    requires Filled(b, text, n) && StandsAt(text, n, d) && n + |d| <= |b|
    ensures Filled(Put(b, n, d), text, n + |d|)
  {
    assert text[..n] + d == text[..n + |d|];
  }

  lemma FilledEnds(b: string, text: string, n: nat)
    requires Filled(b, text, n) && n < |b|
    ensures Filled(Put(b, n, "\0"), text, n)
  {
  }

  lemma FilledHead(b: string, r: Response, n: nat) returns (tail: string)
    requires Filled(b, Text(r), n) && n >= |HeadOf(r)|
    ensures b == HeadOf(r) + tail && tail == r.body[..n - |HeadOf(r)|] + Copies('\0', |b| - n)
  {
    tail := r.body[..n - |HeadOf(r)|] + Copies('\0', |b| - n);
    assert Text(r)[..n] == HeadOf(r) + r.body[..n - |HeadOf(r)|];
  }

  lemma {:induction false} FirstStand(s: string, i: nat, pat: string, k: nat)
    requires pat != "" && '\0' !in pat && i <= k && StandsAt(s, k, pat)
    ensures StrStrFrom(s, i, pat) <= k
    decreases k - i
  {
    if i < k && !StandsAt(s, i, pat) && At(s, i) != '\0' { FirstStand(s, i + 1, pat, k); }
  }

  /** The end of the head is not seen before it is there. */
  lemma NoEndYet(b: string, r: Response, n: nat)
    requires IsResponse(r) && Filled(b, Text(r), n) && n < |HeadOf(r)|
    ensures StrStr(b, END_OF_HEADER) == -1
  {
    var k := StrStr(b, END_OF_HEADER);
    if k != -1 {
      StandsBefore(b, Text(r), n, k);
      EndIsFound(r, r.body);
      FirstStand(Text(r), 0, END_OF_HEADER, k);
    }
  }

  lemma StandsBefore(b: string, text: string, n: nat, k: nat)
    requires Filled(b, text, n) && StandsAt(b, k, END_OF_HEADER)
    ensures k + 4 <= n && StandsAt(text, k, END_OF_HEADER)
  {
    assert b[k + 3] == END_OF_HEADER[3];
    forall i | 0 <= i < 4 ensures text[k + i] == END_OF_HEADER[i] { assert b[k + i] == text[..n][k + i]; }
  }

  // ------------------------------------------------------------- step by step

  /** The pieces recv_cb delivers are those of the text, in order; an empty one means its end. */
  ghost predicate Delivers(c: Core, a: Answer, r: Response)
    requires WellFormed(c)
  {
    && Fits(c, a)
    && (c.state == Executing && c.socket == Receiving && a.code == Ok ==>
          StandsAt(Text(r), c.received, a.data) && (a.data == "" ==> c.received == |Text(r)|))
  }

  ghost predicate NothingYet(c: Core) { c.received == 0 && c.responseLength == 0 && !c.scanned }

  /** Some of the text is there, and the length is not read before the head has come. */
  ghost predicate HasSome(c: Core, r: Response) {
    && c.received <= |Text(r)| && (c.received > 0 ==> Filled(c.buffer, Text(r), c.received))
    && (c.scanned <==> c.received >= |HeadOf(r)|) && (!c.scanned ==> c.responseLength == 0)
  }

  /** The length it waits for is none, or at least that of the text. */
  ghost predicate HasRead(c: Core, r: Response) {
    HasSome(c, r) && (c.responseLength == 0 || (c.responseLength >= |Text(r)| && c.received < c.responseLength))
  }

  ghost predicate HasAll(c: Core, r: Response) {
    c.received == |Text(r)| < |c.buffer| && Filled(c.buffer, Text(r), |Text(r)|)
  }

  ghost predicate OnTheWay(c: Core, r: Response) {
    && WellFormed(c)
    && (c.state == Ready ==> c.socket == IdleSocket)
    && match c.socket
       case IdleSocket => true
       case Connecting => NothingYet(c)
       case Sending => NothingYet(c)
       case Receiving => HasRead(c, r)
       case Closing => HasAll(c, r)
  }

  /** What the caller finds: the status, and the body between `body` and the NUL after it. */
  ghost predicate Delivered(c: Core, r: Response) {
    && AreDigits(r.status) && c.code == NumberOf(r.status, 0)
    && c.body == |HeadOf(r)| && c.bodyLength == |r.body|
    && c.body + c.bodyLength < |c.buffer|
    && c.buffer[c.body..c.body + c.bodyLength] == r.body
    && c.buffer[c.body + c.bodyLength] == '\0'
  }

  /** The length of the response, as it is set when `m` bytes of the body are there. */
  ghost function Awaited(r: Response, m: nat): nat
    requires m <= |r.body|
  {
    if LengthRead(r, m) == 0 then 0 else |HeadOf(r)| + LengthRead(r, m)
  }

  /** Scanning the buffer after a piece has come. */
  lemma PieceIsScanned(b: string, r: Response, n: nat)
    requires IsResponse(r) && Filled(b, Text(r), n)
    ensures Scanned(b, 0) == if n >= |HeadOf(r)| then Scan(true, Awaited(r, n - |HeadOf(r)|)) else Scan(false, 0)
  {
    if n < |HeadOf(r)| {
      NoEndYet(b, r, n);
    } else {
      var tail := FilledHead(b, r, n);
      EndIsFound(r, tail);
      LengthIsFound(r, n - |HeadOf(r)|, |b| - n);
      assert b == HeadOf(r) + r.body[..n - |HeadOf(r)|] + Copies('\0', |b| - n);
    }
  }

  /** The next piece can come: it is from the text, and there is room for it and a NUL. */
  ghost predicate Comes(c: Core, d: string, r: Response) {
    && WellFormed(c) && c.received + |d| < |c.buffer| && c.socket == Receiving && HasSome(c, r)
    && Filled(c.buffer, Text(r), c.received)
    && |d| <= Room(c) && StandsAt(Text(r), c.received, d) && (d == "" ==> c.received == |Text(r)|)
  }

  /** The length that is awaited with `n` bytes stored, if it was `length` before. */
  ghost function AwaitedWith(scanned: bool, length: nat, n: nat, r: Response): nat
    requires n <= |Text(r)|
  {
    if scanned || n < |HeadOf(r)| then length else Awaited(r, n - |HeadOf(r)|)
  }

  /** What is scanned when `n` bytes are there. */
  lemma ScanWhenStored(scanned: bool, length: nat, before: nat, b: string, n: nat, r: Response)
    requires IsResponse(r) && Filled(b, Text(r), n) && before <= n
    requires (scanned <==> before >= |HeadOf(r)|) && (!scanned ==> length == 0)
    ensures var scan := if scanned then Scan(true, length) else Scanned(b, length);
      && scan.length == AwaitedWith(scanned, length, n, r)
      && (scan.done <==> n >= |HeadOf(r)|) && (!scan.done ==> scan.length == 0)
  {
    if !scanned { PieceIsScanned(b, r, n); }
  }

  lemma PieceIsStored(c: Core, d: string, r: Response) returns (o: Outcome)
    requires IsResponse(r) && Comes(c, d, r)
    ensures o == Received(c, d) && o.result == Again
    ensures var n := c.received + |d|;
      && HasSome(o.core, r) && o.core.received == n && Filled(o.core.buffer, Text(r), n)
      && o.core.responseLength == AwaitedWith(c.scanned, c.responseLength, n, r)
      && o.core.socket == if Complete(o.core.responseLength, n, d) then Closing else Receiving
  {
    o := Received(c, d);
    var b, n := Put(c.buffer, c.received, d), c.received + |d|;
    FilledMore(c.buffer, Text(r), c.received, d);
    ScanWhenStored(c.scanned, c.responseLength, c.received, b, n, r);
    FilledEnds(b, Text(r), n);
  }

  lemma PieceIsKept(c: Core, d: string, r: Response) returns (o: Outcome)
    requires IsResponse(r) && NeverShort(r) && Comes(c, d, r) && HasRead(c, r)
    ensures o == Received(c, d) && o.result == Again
    ensures o.core.socket == Receiving ==> HasRead(o.core, r)
    ensures o.core.socket == Receiving || (o.core.socket == Closing && HasAll(o.core, r))
  {
    o := PieceIsStored(c, d, r);
    var n := c.received + |d|;
    if !c.scanned && |HeadOf(r)| <= n < |Text(r)| {
      var m := n - |HeadOf(r)|;
      assert LengthRead(r, m) == 0 || LengthRead(r, m) >= |r.body|;
    }
  }

  lemma NothingIsFilled(c: Core, r: Response)
    requires WellFormed(c) && c.received == 0
    ensures Filled(Copies('\0', |c.buffer|), Text(r), 0)
  {
  }

  /** The step fails because a callback does, or because the text does not fit. */
  ghost predicate FailsRightly(o: Outcome, a: Answer, r: Response, size: nat) {
    a.code == Fail || (o.core.error == InsufficientBuffer && |Text(r)| >= size)
  }

  lemma ReceivingStep(c: Core, a: Answer, r: Response)
    requires IsResponse(r) && NeverShort(r) && OnTheWay(c, r) && c.state == Executing && c.socket == Receiving
    requires Delivers(c, a, r)
    ensures var o := Execute(c, a); o.result == Again ==> OnTheWay(o.core, r)
    ensures var o := Execute(c, a); o.result != Ok && (o.result == Fail ==> FailsRightly(o, a, r, |c.buffer|))
  {
    var c' := if c.received == 0 then c.(buffer := Copies('\0', |c.buffer|)) else c;
    NothingIsFilled(c.(received := 0), r);
    if a.code == Ok && c.received + |a.data| < |c.buffer| {
      var o := PieceIsKept(c', a.data, r);
      assert Execute(c, a) == o;
    }
  }

  lemma ClosingStep(c: Core, a: Answer, r: Response)
    requires IsResponse(r) && OnTheWay(c, r) && c.state == Executing && c.socket == Closing && Fits(c, a)
    ensures a.code == Ok ==> Execute(c, a).result == Ok && Delivered(Execute(c, a).core, r)
  {
    var tail := FilledHead(c.buffer, r, |Text(r)|);
    EndIsFound(r, tail);
    StatusIsFound(r, tail);
    var n := |Text(r)|;
    assert c.buffer[..n] == Text(r) && c.buffer[n] == '\0';
    assert c.buffer[|HeadOf(r)|..n] == Text(r)[|HeadOf(r)|..] == r.body;
  }

  /** `ok` once IDLE means the response is there; failing means that a callback failed, or that it does not fit. */
  ghost predicate EndsRightly(s: Step, r: Response, size: nat) {
    if s.ok then Delivered(s.core, r)
    else (!s.event.Quiet? && s.event.answer == Fail) || (s.core.error == InsufficientBuffer && |Text(r)| >= size)
  }

  lemma StartingStep(c: Core, a: Answer, r: Response)
    requires OnTheWay(c, r) && c.state != Idle && Delivers(c, a, r)
    requires c.state == Ready || c.socket == IdleSocket || c.socket == Connecting || c.socket == Sending
    ensures var s := RunOnce(c, a);
      if s.core.state == Idle then !s.ok && !s.event.Quiet? && s.event.answer == Fail else OnTheWay(s.core, r)
  {
  }

  lemma StepTowards(c: Core, a: Answer, r: Response)
    requires IsResponse(r) && NeverShort(r) && OnTheWay(c, r) && c.state != Idle && Delivers(c, a, r)
    ensures var s := RunOnce(c, a);
      if s.core.state == Idle then EndsRightly(s, r, |c.buffer|) else OnTheWay(s.core, r)
  {
    if c.state == Executing {
      if c.socket == Receiving { ReceivingStep(c, a, r); }
      else if c.socket == Closing { ClosingStep(c, a, r); }
      else { StartingStep(c, a, r); }
    } else {
      StartingStep(c, a, r);
    }
  }

  // ------------------------------------------------------------- the whole run

  ghost predicate DeliversAll(c: Core, script: seq<Answer>, r: Response)
    requires WellFormed(c)
    decreases |script|
  {
    c.state == Idle || script == []
    || (Delivers(c, script[0], r) && DeliversAll(RunOnce(c, script[0]).core, script[1..], r))
  }

  lemma {:induction false} DeliveringFits(c: Core, script: seq<Answer>, r: Response)
    requires WellFormed(c) && DeliversAll(c, script, r)
    ensures Fitting(c, script)
    decreases |script|
  {
    if c.state != Idle && script != [] { DeliveringFits(RunOnce(c, script[0]).core, script[1..], r); }
  }

  ghost predicate Failed(log: seq<Event>) {
    log != [] && !log[|log| - 1].Quiet? && log[|log| - 1].answer == Fail
  }

  ghost predicate RunEndsRightly(d: Done, r: Response, size: nat) {
    d.core.state == Idle ==>
      if d.ok then Delivered(d.core, r)
      else Failed(d.log) || (d.core.error == InsufficientBuffer && |Text(r)| >= size)
  }

  lemma {:induction false} RunTowards(c: Core, script: seq<Answer>, ok: bool, r: Response)
    requires IsResponse(r) && NeverShort(r) && OnTheWay(c, r) && c.state != Idle
    requires DeliversAll(c, script, r) && Fitting(c, script)
    ensures RunEndsRightly(Run(c, script, ok), r, |c.buffer|)
    decreases |script|
  {
    if script != [] {
      var s := RunOnce(c, script[0]);
      var d := Run(s.core, script[1..], s.ok);
      StepTowards(c, script[0], r);
      if s.core.state != Idle {
        RunTowards(s.core, script[1..], s.ok, r);
        LastOfMore(s.event, d.log);
      }
    }
  }

  lemma LastOfMore(e: Event, log: seq<Event>)
    ensures Failed(log) ==> Failed([e] + log)
  {
    if log != [] { assert ([e] + log)[|log|] == log[|log| - 1]; }
  }

  lemma {:induction false} RunKeepsSize(c: Core, script: seq<Answer>, ok: bool)
    requires WellFormed(c) && Fitting(c, script)
    ensures |Run(c, script, ok).core.buffer| == |c.buffer|
    decreases |script|
  {
    if c.state != Idle && script != [] {
      var s := RunOnce(c, script[0]);
      RunKeepsSize(s.core, script[1..], s.ok);
    }
  }

  /**
   * For any split of a response into pieces, unless it declares less than its
   * body, and any number of AGAINs, the run ends with the response delivered,
   * or a callback has failed, or the response does not fit the buffer; then
   * that is the error. And the run does end if there are answers enough.
   */
  lemma Reassembly(c: Core, script: seq<Answer>, r: Response)
    requires Fresh(c) && IsResponse(r) && NeverShort(r) && DeliversAll(c, script, r)
    ensures Fitting(c, script)
    ensures var d := Run(c, script, true);
      && (d.core.state == Idle && d.ok ==> Delivered(d.core, r) && |Text(r)| < |c.buffer|)
      && (d.core.state == Idle && !d.ok ==>
            Failed(d.log) || (d.core.error == InsufficientBuffer && |Text(r)| >= |c.buffer|))
      && (|script| >= 4 + Max(1, (c.total + 255) / 256) + Max(1, |c.buffer|) + Agains(d.log)
        ==> d.core.state == Idle)
  {
    DeliveringFits(c, script, r);
    RunTowards(c, script, true, r);
    RunKeepsSize(c, script, true);
    CallsUntilIdle(c, script);
  }
}
