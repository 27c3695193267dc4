/**
 * How a run ends, from what the callbacks have answered alone: the buffer holds
 * everything that came, and the result, the error, the status and the body are
 * read off it.
 */
module HttpOutcome {
  import opened Memory
  import opened HttpText
  import opened HttpHeaders
  import opened HttpModel
  import opened HttpRuns
  import opened HttpResponse

  /** What recv_cb has delivered. */
  function Got(log: seq<Event>): string {
    if log == [] then "" else Came(log[0]) + Got(log[1..])
  }

  function Came(e: Event): string { if e.Receive? && e.answer == Ok then e.got else "" }

  // ------------------------------------------------------- what a text answers

  /** `pat` stands in `s` at `i`, before any NUL, and nowhere earlier. */
  ghost predicate StandsFirst(s: string, i: nat, pat: string) {
    StandsAt(s, i, pat) && forall j :: 0 <= j < i ==> At(s, j) != '\0' && !StandsAt(s, j, pat)
  }

  /** The three digits behind the first `HTTP/1.1 `. */
  ghost predicate Answers(t: string, code: int) {
    exists i: nat :: StandsFirst(t, i, "HTTP/1.1 ") && IsNumberAt(t, i + 9, code)
  }

  ghost predicate IsNumberAt(t: string, p: nat, code: int) {
    p + 3 <= |t| && AreDigits(t[p..p + 3]) && code == NumberOf(t[p..p + 3], 0)
  }

  /** The body is what follows the first empty line; without one there is none. */
  ghost predicate IsBodyOf(t: string, body: int, length: int) {
    if body == -1 then forall i: nat :: !StandsFirst(t, i, "\r\n\r\n")
    else body >= 4 && StandsFirst(t, body - 4, "\r\n\r\n") && body + length == |t|
  }

  lemma {:induction false} SearchIsFirst(s: string, i: nat, pat: string)
    requires pat != "" && '\0' !in pat
    ensures var k := StrStrFrom(s, i, pat);
      if k == -1 then exists n :: n >= i && At(s, n) == '\0' && forall j :: i <= j <= n ==> !StandsAt(s, j, pat)
      else forall j :: i <= j < k ==> At(s, j) != '\0' && !StandsAt(s, j, pat)
    decreases |s| - i
  {
    if !StandsAt(s, i, pat) {
      if At(s, i) == '\0' { assert i >= i && At(s, i) == '\0'; }
      else { SearchIsFirst(s, i + 1, pat); }
    }
  }

  lemma StandsHasNoNul(s: string, i: nat, pat: string, j: nat)
    requires StandsAt(s, i, pat) && '\0' !in pat && i <= j < i + |pat|
    ensures At(s, j) != '\0'
  {
    assert s[i + (j - i)] == pat[j - i];
  }

  /** strstr finds exactly the first place. */
  lemma SearchExactly(s: string, pat: string)
    requires pat != "" && '\0' !in pat
    ensures StrStr(s, pat) != -1 ==> StandsFirst(s, StrStr(s, pat), pat)
    ensures forall i: nat :: StandsFirst(s, i, pat) ==> StrStr(s, pat) == i
  {
    SearchIsFirst(s, 0, pat);
  }

  lemma SameFirst(t: string, n: nat, i: nat, pat: string)
    requires pat != "" && '\0' !in pat
    ensures StandsFirst(t + Copies('\0', n), i, pat) <==> StandsFirst(t, i, pat)
  {
    var s := t + Copies('\0', n);
    forall j: nat ensures StandsAt(s, j, pat) == StandsAt(t, j, pat) && At(s, j) == At(t, j) {
      SameStand(t, n, j, pat);
    }
  }

  lemma SameStand(t: string, n: nat, j: nat, pat: string)
    requires pat != "" && '\0' !in pat
    ensures var s := t + Copies('\0', n); StandsAt(s, j, pat) == StandsAt(t, j, pat) && At(s, j) == At(t, j)
  {
    var s := t + Copies('\0', n);
    if StandsAt(s, j, pat) {
      StandsHasNoNul(s, j, pat, j + |pat| - 1);
      forall k | 0 <= k < |pat| ensures t[j + k] == pat[k] { assert s[j + k] == pat[k]; }
    }
    if StandsAt(t, j, pat) {
      forall k | 0 <= k < |pat| ensures s[j + k] == pat[k] { assert t[j + k] == pat[k]; }
    }
  }

  // --------------------------------------------------------- the buffer, always

  /** Status and body are still those of `b`, from before the run. */
  predicate KeepsAnswer(c: Core, b: Core) { c.code == b.code && c.body == b.body && c.bodyLength == b.bodyLength }

  /** With `t` received so far. */
  ghost predicate HoldsText(c: Core, t: string, b: Core) {
    && WellFormed(c) && KeepsAnswer(c, b) && (c.state == Ready ==> c.socket == IdleSocket)
    && match c.socket
       case IdleSocket => t == ""
       case Connecting => t == "" && c.received == 0 && c.error == NoError
       case Sending => t == "" && c.received == 0 && c.error == NoError
       case Receiving => c.received == |t| && (t != "" ==> Filled(c.buffer, t, |t|)) && c.error == NoError
       case Closing => c.received == |t| < |c.buffer| && Filled(c.buffer, t, |t|) && c.error == NoError
  }

  /**
   * How a run has ended that received `t`; `failed` is whether a callback did, and `b` is the client before the run.
   * A status that is no number leaves 0 behind.
   */
  ghost predicate Ended(c: Core, ok: bool, t: string, failed: bool, b: Core) {
    if failed then !ok && c.error == SocketError && KeepsAnswer(c, b)
    else if |t| >= |c.buffer| then !ok && c.error == InsufficientBuffer && c.buffer == t && KeepsAnswer(c, b)
    else if ok then
      && c.error == NoError && Answers(t, c.code) && IsBodyOf(t, c.body, c.bodyLength)
      && (c.body == -1 ==> c.bodyLength == b.bodyLength)
      && c.buffer[..|t|] == t && c.buffer[|t|] == '\0'
    else
      && c.error == InvalidResponse && (forall code :: !Answers(t, code))
      && KeepsAnswer(c, if HasVersion(t) then b.(code := 0) else b)
  }

  ghost predicate HasVersion(t: string) { exists i: nat :: StandsFirst(t, i, "HTTP/1.1 ") }

  lemma FilledWith(b: string, t: string, d: string)
    requires Filled(b, t, |t|) && |t| + |d| <= |b|
    ensures Filled(Put(b, |t|, d), t + d, |t + d|)
  {
    assert (t + d)[..|t|] == t && (t + d)[..|t + d|] == t + d;
    FilledMore(b, t + d, |t|, d);
  }

  lemma ReceivesText(c: Core, a: Answer, t: string, b0: Core)
    requires HoldsText(c, t, b0) && c.state == Executing && c.socket == Receiving && Fits(c, a)
    ensures var o := Execute(c, a); var t' := t + Came(o.event);
      if o.result == Again then HoldsText(o.core, t', b0)
      else o.result == Fail && Ended(o.core, false, t', a.code == Fail, b0)
  {
    var c' := if c.received == 0 then c.(buffer := Copies('\0', |c.buffer|)) else c;
    assert Copies('\0', |c.buffer|) == ""[..0] + Copies('\0', |c.buffer| - 0);
    assert Filled(c'.buffer, t, |t|);
    if a.code == Ok {
      FilledWith(c'.buffer, t, a.data);
      var b := Put(c'.buffer, |t|, a.data);
      if |t + a.data| < |b| { FilledEnds(b, t + a.data, |t + a.data|); }
      else { assert b == t + a.data + Copies('\0', 0) == t + a.data; }
    } else {
      assert t + "" == t;
    }
  }

  lemma StatusExactly(b: string, t: string)
    requires Filled(b, t, |t|)
    ensures Status(b) >= 0 ==> Answers(t, Status(b))
    ensures Status(b) < 0 ==> (forall code :: !Answers(t, code)) && (Status(b) == NO_RESPONSE <==> !HasVersion(t))
  {
    var k := StrStr(b, HTTP1_1);
    assert b == t + Copies('\0', |b| - |t|);
    SearchExactly(b, HTTP1_1);
    forall i: nat ensures StandsFirst(b, i, HTTP1_1) <==> StandsFirst(t, i, HTTP1_1) {
      SameFirst(t, |b| - |t|, i, HTTP1_1);
    }
    if k != -1 { NumberExactly(b, t, k + 9); }
  }

  lemma NumberExactly(b: string, t: string, p: nat)
    requires Filled(b, t, |t|)
    ensures StatusAt(b, p) >= 0 ==> IsNumberAt(t, p, StatusAt(b, p))
    ensures StatusAt(b, p) < 0 ==> forall code :: !IsNumberAt(t, p, code)
  {
    assert forall j: nat :: At(b, j) == At(t, j);
    if p + 3 <= |t| {
      var ds := t[p..p + 3];
      assert ds[0] == At(b, p) && ds[1] == At(b, p + 1) && ds[2] == At(b, p + 2);
      if AreDigits(ds) { ThreeDigits(ds); }
      else { assert !(IsDigit(ds[0]) && IsDigit(ds[1]) && IsDigit(ds[2])); }
    } else {
      assert At(b, p + 2) == '\0';
    }
  }

  lemma BodyExactly(b: string, t: string)
    requires Filled(b, t, |t|)
    ensures var at := BodyAt(b); IsBodyOf(t, at, |t| - at)
  {
    assert b == t + Copies('\0', |b| - |t|);
    SearchExactly(b, END_OF_HEADER);
    forall i: nat ensures StandsFirst(b, i, END_OF_HEADER) <==> StandsFirst(t, i, END_OF_HEADER) {
      SameFirst(t, |b| - |t|, i, END_OF_HEADER);
    }
  }

  lemma ClosesText(c: Core, a: Answer, t: string, b0: Core)
    requires HoldsText(c, t, b0) && c.state == Executing && c.socket == Closing
    ensures var o := Execute(c, a);
      if o.result == Again then HoldsText(o.core, t, b0) else Ended(o.core, o.result == Ok, t, a.code == Fail, b0)
  {
    if a.code == Ok {
      StatusExactly(c.buffer, t);
      BodyExactly(c.buffer, t);
      assert c.buffer[..|t|] == t[..|t|] == t;
    }
  }

  /** A callback has failed. */
  predicate IsFailure(e: Event) { !e.Quiet? && e.answer == Fail }

  lemma StepText(c: Core, a: Answer, t: string, b0: Core)
    requires HoldsText(c, t, b0) && c.state != Idle && Fits(c, a)
    ensures var s := RunOnce(c, a); var t' := t + Came(s.event);
      if s.core.state != Idle then HoldsText(s.core, t', b0) else Ended(s.core, s.ok, t', IsFailure(s.event), b0)
  {
    assert t + "" == t;
    if c.state == Executing {
      if c.socket == Receiving { ReceivesText(c, a, t, b0); }
      else if c.socket == Closing { ClosesText(c, a, t, b0); }
    }
  }

  lemma GotMore(e: Event, log: seq<Event>)
    ensures Got([e] + log) == Came(e) + Got(log)
  {
    assert ([e] + log)[1..] == log;
  }

  lemma Joined(a: string, b: string, c: string)
    ensures a + (b + c) == (a + b) + c
  {
  }

  lemma LastOfLog(e: Event, log: seq<Event>)
    requires log != []
    ensures ([e] + log)[|log|] == log[|log| - 1]
  {
  }

  /** `d` is how a run goes on that has received `t`. */
  ghost predicate GoesOnFrom(d: Done, t: string, b0: Core)
    requires WellFormed(d.core)
  {
    if d.core.state != Idle then HoldsText(d.core, t + Got(d.log), b0)
    else d.log != [] && Ended(d.core, d.ok, t + Got(d.log), IsFailure(d.log[|d.log| - 1]), b0)
  }

  lemma StepBefore(e: Event, d: Done, t: string, b0: Core)
    requires WellFormed(d.core)
    requires if d.core.state == Idle && d.log == [] then Ended(d.core, d.ok, t + Came(e), IsFailure(e), b0)
             else GoesOnFrom(d, t + Came(e), b0)
    ensures GoesOnFrom(d.(log := [e] + d.log), t, b0)
  {
    GotMore(e, d.log);
    Joined(t, Came(e), Got(d.log));
    if d.log != [] { LastOfLog(e, d.log); }
    assert t + Came(e) + "" == t + Came(e);
  }

  /** In every run the buffer holds what has come, and once IDLE the run has ended as that says. */
  lemma {:induction false} RunHoldsText(c: Core, script: seq<Answer>, ok: bool, t: string, b0: Core)
    requires HoldsText(c, t, b0) && c.state != Idle && Fitting(c, script)
    ensures WellFormed(Run(c, script, ok).core) && GoesOnFrom(Run(c, script, ok), t, b0)
    decreases |script|
  {
    if script == [] {
      assert t + "" == t;
    } else {
      var s := RunOnce(c, script[0]);
      StepText(c, script[0], t, b0);
      if s.core.state != Idle { RunHoldsText(s.core, script[1..], s.ok, t + Came(s.event), b0); }
      StepBefore(s.event, Run(s.core, script[1..], s.ok), t, b0);
    }
  }

  /** While a request runs, what recv_cb has delivered is in the buffer, in order and complete. */
  lemma BufferHoldsWhatCame(c: Core, script: seq<Answer>)
    requires Fresh(c) && Fitting(c, script)
    ensures var d := Run(c, script, true); var t := Got(d.log);
      d.core.state == Executing && (d.core.socket == Receiving || d.core.socket == Closing) ==>
        d.core.received == |t| <= |d.core.buffer| && d.core.buffer[..|t|] == t
  {
    RunHoldsText(c, script, true, "", c);
    var t := Got(Run(c, script, true).log);
    assert "" + t == t && t[..|t|] == t;
  }

  /** Every call before the last one succeeds; and a call to a client that is IDLE fails and does nothing. */
  lemma {:induction false} OkUntilTheEnd(c: Core, script: seq<Answer>)
    requires WellFormed(c) && Fitting(c, script)
    ensures var d := Run(c, script, true); d.core.state != Idle ==> d.ok
    ensures forall a :: c.state == Idle && Fits(c, a) ==> RunOnce(c, a) == Step(c, false, Quiet)
    decreases |script|
  {
    if c.state != Idle && script != [] {
      var s := RunOnce(c, script[0]);
      if s.core.state != Idle {
        assert s.ok;
        OkUntilTheEnd(s.core, script[1..]);
      }
    }
  }

  /**
   * A run that is over has failed in a callback; or more came than the buffer can hold with a NUL; or what came has
   * no status; or the status and the body are those of what came.
   */
  lemma EndsExactly(c: Core, script: seq<Answer>)
    requires Fresh(c) && Fitting(c, script) && Run(c, script, true).core.state == Idle
    ensures var d := Run(c, script, true); d.log != [] && Ended(d.core, d.ok, Got(d.log), Failed(d.log), c)
  {
    RunHoldsText(c, script, true, "", c);
    assert "" + Got(Run(c, script, true).log) == Got(Run(c, script, true).log);
  }
}
