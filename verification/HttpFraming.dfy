/**
 * Which responses are put together in every split: exactly those that declare
 * no length shorter than their body. The framings of RFC 7230, section 3.3.3,
 * that the client knows are among them.
 */
module HttpFraming {
  import opened Memory
  import opened HttpText
  import opened HttpHeaders
  import opened HttpModel
  import opened HttpRuns
  import opened HttpResponse

  // ------------------------------------------------------- what lines declare

  ghost predicate NamesNoLength(ls: seq<string>) { forall i :: 0 <= i < |ls| ==> !NamesLength(ls[i]) }

  lemma {:induction false} NumberGrows(ds: string, acc: nat)
    requires AreDigits(ds)
    ensures NumberOf(ds, acc) >= acc
    decreases |ds|
  {
    if ds != "" { NumberGrows(ds[1..], acc * 10 + DigitOf(ds[0])); }
  }

  /** With a Content-Length line: if and only if its number is at least the length of the body. */
  lemma DeclaredIsNeverShort(r: Response, before: seq<string>, l: string, after: seq<string>, gap: string, ds: string)
    requires IsResponse(r) && r.lines == before + [l] + after && NamesNoLength(before) && IsLengthLine(l, gap, ds)
    ensures NeverShort(r) <==> NumberOf(ds, 0) >= |r.body|
  {
    StartIsClean(r);
    var first := HTTP1_1 + r.status + r.reason;
    forall m: nat | m <= |r.body| ensures LengthRead(r, m) == NumberOf(ds, 0) {
      HeadDeclares(first, before, l, after, gap, ds, r.body[..m]);
    }
    assert NumberOf(ds, 0) == NumberOf(ds[1..], DigitOf(ds[0]));
    NumberGrows(ds[1..], DigitOf(ds[0]));
    if r.body != "" { assert NeverShort(r) ==> LengthRead(r, 0) >= |r.body|; }
  }

  /** Without one the end of the stream tells the end of the body. */
  lemma UndeclaredIsNeverShort(r: Response)
    requires IsResponse(r) && NamesNoLength(r.lines)
    ensures NeverShort(r)
  {
    StartIsClean(r);
    forall m: nat | m < |r.body| ensures LengthRead(r, m) == 0 {
      HeadDeclaresNothing(HTTP1_1 + r.status + r.reason, r.lines, r.body[..m]);
    }
  }

  /** Without a body it does not matter what is read, a length of zero that is misread included. */
  lemma EmptyIsNeverShort(r: Response)
    requires r.body == ""
    ensures NeverShort(r)
  {
  }

  // ------------------------------------------------ a split that ends too early

  /** The run ends well, and without the whole body. */
  ghost predicate EndsShort(c: Core, script: seq<Answer>, ok: bool, r: Response)
    requires WellFormed(c)
  {
    && DeliversAll(c, script, r) && Fitting(c, script)
    && var d := Run(c, script, ok); d.core.state == Idle && d.ok && !Delivered(d.core, r)
  }

  lemma AnswerFirst(c: Core, a: Answer, rest: seq<Answer>, r: Response, ok: bool)
    requires WellFormed(c) && c.state != Idle && Delivers(c, a, r)
    requires var s := RunOnce(c, a); EndsShort(s.core, rest, s.ok, r)
    ensures EndsShort(c, [a] + rest, ok, r)
  {
    assert ([a] + rest)[1..] == rest;
  }

  lemma ShortClose(c: Core, r: Response) returns (script: seq<Answer>)
    requires IsResponse(r) && WellFormed(c) && c.state == Executing && c.socket == Closing
    requires Filled(c.buffer, Text(r), c.received) && |HeadOf(r)| <= c.received < |Text(r)| && c.received < |c.buffer|
    ensures EndsShort(c, script, true, r)
  {
    var tail := FilledHead(c.buffer, r, c.received);
    EndIsFound(r, tail);
    StatusIsFound(r, tail);
    var a := Answer(Ok, "");
    assert RunOnce(c, a).ok && RunOnce(c, a).core.bodyLength == c.received - |HeadOf(r)|;
    AnswerFirst(c, a, [], r, true);
    script := [a] + [];
  }

  /** The buffer is cleared before the first piece. */
  function Cleared(c: Core): Core { if c.received == 0 then c.(buffer := Copies('\0', |c.buffer|)) else c }

  lemma CanCome(c: Core, d: string, r: Response)
    requires WellFormed(c) && c.socket == Receiving && HasSome(c, r)
    requires c.received + |d| < |c.buffer| && |d| <= Room(c) && StandsAt(Text(r), c.received, d) && d != ""
    ensures Comes(Cleared(c), d, r) && |Cleared(c).buffer| == |c.buffer|
  {
    NothingIsFilled(c.(received := 0), r);
  }

  lemma ReceivingRuns(c: Core, d: string)
    requires WellFormed(c) && c.state == Executing && c.socket == Receiving && |d| <= Room(c)
    requires Received(Cleared(c), d).result == Again
    ensures RunOnce(c, Answer(Ok, d)).core == Received(Cleared(c), d).core && RunOnce(c, Answer(Ok, d)).ok
  {
  }

  /** What a core is after `n` bytes of the response, the last of them `d`. */
  ghost predicate HasNow(c: Core, n: nat, d: string, awaited: nat, r: Response) {
    && c.received == n && HasSome(c, r) && Filled(c.buffer, Text(r), n) && c.responseLength == awaited
    && c.socket == if Complete(awaited, n, d) then Closing else Receiving
  }

  lemma PieceLands(c: Core, d: string, r: Response, n: nat, awaited: nat)
    requires IsResponse(r) && Comes(c, d, r) && n == c.received + |d| <= |Text(r)|
    requires awaited == AwaitedWith(c.scanned, c.responseLength, n, r)
    ensures Received(c, d).result == Again && HasNow(Received(c, d).core, n, d, awaited, r)
  {
    var o := PieceIsStored(c, d, r);
  }

  /** A piece is received, be it the first one or a later one. */
  lemma PieceStep(c: Core, d: string, r: Response, n: nat, awaited: nat) returns (a: Answer, next: Core)
    requires IsResponse(r) && WellFormed(c) && c.state == Executing && c.socket == Receiving && HasSome(c, r)
    requires |Text(r)| < |c.buffer| && |d| <= Room(c) && StandsAt(Text(r), c.received, d) && d != ""
    requires n == c.received + |d| && awaited == AwaitedWith(c.scanned, c.responseLength, n, r)
    ensures Delivers(c, a, r) && RunOnce(c, a).core == next && RunOnce(c, a).ok
    ensures WellFormed(next) && next.state == Executing && |next.buffer| == |c.buffer|
    ensures HasNow(next, n, d, awaited, r)
  {
    CanCome(c, d, r);
    PieceLands(Cleared(c), d, r, n, awaited);
    ReceivingRuns(c, d);
    a, next := Answer(Ok, d), Received(Cleared(c), d).core;
  }

  lemma OneByte(r: Response, n: nat) returns (d: string)
    requires n < |Text(r)|
    ensures |d| == 1 && StandsAt(Text(r), n, d)
  {
    d := [Text(r)[n]];
  }

  /** Byte by byte, up to a length shorter than the text. */
  lemma {:induction false} ShortWait(c: Core, r: Response) returns (script: seq<Answer>)
    requires IsResponse(r) && WellFormed(c) && c.state == Executing && c.socket == Receiving && HasSome(c, r)
    requires c.scanned && c.received < c.responseLength < |Text(r)| < |c.buffer|
    ensures EndsShort(c, script, true, r)
    decreases c.responseLength - c.received
  {
    var d := OneByte(r, c.received);
    var a, next := PieceStep(c, d, r, c.received + 1, c.responseLength);
    var rest;
    if next.socket == Closing { rest := ShortClose(next, r); } else { rest := ShortWait(next, r); }
    AnswerFirst(c, a, rest, r, true);
    script := [a] + rest;
  }

  /** With the end of the head come `m` bytes of the body, and a length shorter than it is read. */
  ghost predicate IsShort(r: Response, m: nat) {
    m < |r.body| && m < CHUNK && 0 < LengthRead(r, m) < |r.body|
  }

  lemma ShortScan(c: Core, r: Response, m: nat) returns (script: seq<Answer>)
    requires IsResponse(r) && WellFormed(c) && c.state == Executing && c.socket == Receiving && HasSome(c, r)
    requires c.received + 1 == |HeadOf(r)| && |Text(r)| < |c.buffer| && IsShort(r, m)
    ensures EndsShort(c, script, true, r)
  {
    var d := Text(r)[c.received..c.received + 1 + m];
    assert StandsAt(Text(r), c.received, d);
    var a, next := PieceStep(c, d, r, |HeadOf(r)| + m, Awaited(r, m));
    var rest;
    if next.socket == Closing { rest := ShortClose(next, r); } else { rest := ShortWait(next, r); }
    AnswerFirst(c, a, rest, r, true);
    script := [a] + rest;
  }

  /** Byte by byte, up to the last one of the head. */
  lemma {:induction false} ShortHead(c: Core, r: Response, m: nat) returns (script: seq<Answer>)
    requires IsResponse(r) && WellFormed(c) && c.state == Executing && c.socket == Receiving && HasSome(c, r)
    requires c.received < |HeadOf(r)| && |Text(r)| < |c.buffer| && IsShort(r, m)
    ensures EndsShort(c, script, true, r)
    decreases |HeadOf(r)| - c.received
  {
    if c.received + 1 == |HeadOf(r)| {
      script := ShortScan(c, r, m);
    } else {
      var d := OneByte(r, c.received);
      var a, next := PieceStep(c, d, r, c.received + 1, 0);
      var rest := ShortHead(next, r, m);
      AnswerFirst(c, a, rest, r, true);
      script := [a] + rest;
    }
  }

  lemma {:induction false} ShortSend(c: Core, r: Response, m: nat) returns (script: seq<Answer>)
    requires IsResponse(r) && WellFormed(c) && c.state == Executing && c.socket == Sending && NothingYet(c)
    requires |Text(r)| < |c.buffer| && IsShort(r, m)
    ensures EndsShort(c, script, true, r)
    decreases c.total - c.sent
  {
    var a := Answer(Ok, "");
    var next := RunOnce(c, a).core;
    var rest;
    if next.socket == Sending { rest := ShortSend(next, r, m); } else { rest := ShortHead(next, r, m); }
    AnswerFirst(c, a, rest, r, true);
    script := [a] + rest;
  }

  /** The whole run: READY, connect, send, receive, close. */
  lemma ShortRun(c: Core, r: Response, m: nat) returns (script: seq<Answer>)
    requires IsResponse(r) && Fresh(c) && |Text(r)| < |c.buffer| && IsShort(r, m)
    ensures EndsShort(c, script, true, r)
  {
    var a := Answer(Ok, "");
    var c1 := RunOnce(c, a).core;
    var c2 := RunOnce(c1, a).core;
    var c3 := RunOnce(c2, a).core;
    var rest := ShortSend(c3, r, m);
    AnswerFirst(c2, a, rest, r, true);
    AnswerFirst(c1, a, [a] + rest, r, true);
    AnswerFirst(c, a, [a] + ([a] + rest), r, true);
    script := [a] + ([a] + ([a] + rest));
  }

  /** With these answers the run is not over, or the response is delivered, or a callback has failed. */
  ghost predicate IsPutTogether(c: Core, script: seq<Answer>, r: Response)
    requires WellFormed(c)
  {
    DeliversAll(c, script, r) ==> Fitting(c, script) && RunEndsRightly(Run(c, script, true), r, |c.buffer|)
  }

  /** A response is put together from every split, with any AGAINs, exactly if it is never short. */
  lemma ReassemblyExactly(c: Core, r: Response)
    requires Fresh(c) && IsResponse(r) && |Text(r)| < |c.buffer|
    ensures (forall script :: IsPutTogether(c, script, r)) <==> NeverShort(r)
  {
    if NeverShort(r) {
      forall script | DeliversAll(c, script, r) ensures IsPutTogether(c, script, r) { Reassembly(c, script, r); }
    } else {
      var m :| 0 <= m < |r.body| && m < CHUNK && !(LengthRead(r, m) == 0 || LengthRead(r, m) >= |r.body|);
      var script := ShortRun(c, r, m);
      assert !IsPutTogether(c, script, r);
    }
  }

  lemma PrefixedLine(l: string)
    requires l == "content-length-x: 1"
    ensures IsLengthLine(l, "-x: ", "1") && NumberOf("1", 0) == 1
  {
    assert l[..CL_LENGTH] == LOWER && l[CL_LENGTH..] == "-x: " + "1";
    assert forall i :: 0 <= i < CL_LENGTH ==> l[i] == l[..CL_LENGTH][i];
    assert NumberOf("1", 0) == NumberOf("1"[1..], 1) == 1;
  }

  lemma DeclaredFirst(r: Response, l: string, after: seq<string>, gap: string, ds: string)
    requires IsResponse(r) && r.lines == [l] + after && IsLengthLine(l, gap, ds)
    ensures NeverShort(r) <==> NumberOf(ds, 0) >= |r.body|
  {
    assert r.lines == [] + [l] + after;
    DeclaredIsNeverShort(r, [], l, after, gap, ds);
  }

  /** A header whose name only starts like that of the length is taken for it: here 1 is read, and the body has 2. */
  lemma PrefixedName(r: Response)
    requires r == Response("200", " OK", ["content-length-x: 1", "content-length: 2"], "ab")
    ensures IsResponse(r) && !NeverShort(r)
  {
    var l, l2 := "content-length-x: 1", "content-length: 2";
    PrefixedLine(l);
    assert IsClean(l) && IsClean(l2) && IsClean(r.reason);
    DeclaredFirst(r, l, [l2], "-x: ", "1");
  }
}
