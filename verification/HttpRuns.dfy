/**
 * Whole runs of the client, from READY until it is IDLE again, against any
 * answers of the callbacks.
 */
module HttpRuns {
  import opened Memory
  import opened HttpModel

  /** Each answer of the script fits the state it is given in. */
  predicate Fitting(c: Core, script: seq<Answer>)
    requires WellFormed(c)
    decreases |script|
  {
    c.state == Idle || script == []
    || (Fits(c, script[0]) && Fitting(RunOnce(c, script[0]).core, script[1..]))
  }

  datatype Done = Done(core: Core, ok: bool, log: seq<Event>)

  /** kii_core_run until IDLE, or until the answers run out; `ok` is the result of the last call. */
  function Run(c: Core, script: seq<Answer>, ok: bool): Done
    requires WellFormed(c) && Fitting(c, script)
    decreases |script|
  {
    if c.state == Idle || script == [] then Done(c, ok, [])
    else
      var s := RunOnce(c, script[0]);
      var d := Run(s.core, script[1..], s.ok);
      d.(log := [s.event] + d.log)
  }

  // -------------------------------------------------------------- termination

  /** Sends left for `n` bytes; the first one is made even without any. */
  function Sends(n: nat): nat { Max(1, (n + CHUNK - 1) / CHUNK) }

  /** Receives left; the first one is made even without room. */
  function Receives(room: nat): nat { Max(1, room) }

  /** The calls of kii_core_run left, AGAINs apart. */
  function Measure(c: Core): nat
    requires WellFormed(c)
  {
    match c.state
    case Idle => 0
    case Ready => 1 + InExecution(c)
    case Executing => InExecution(c)
  }

  function InExecution(c: Core): nat
    requires WellFormed(c)
  {
    match c.socket
    case IdleSocket => 3 + Sends(c.total) + Receives(|c.buffer|)
    case Connecting => 2 + Sends(c.total - c.sent) + Receives(|c.buffer| - c.received)
    case Sending => 1 + Sends(c.total - c.sent) + Receives(|c.buffer| - c.received)
    case Receiving => 1 + Receives(|c.buffer| - c.received)
    case Closing => 1
  }

  predicate IsAgain(e: Event) { !e.Quiet? && e.answer == Again }

  function Agains(log: seq<Event>): nat {
    if log == [] then 0 else (if IsAgain(log[0]) then 1 else 0) + Agains(log[1..])
  }

  lemma SendsLess(n: nat)
    requires n > CHUNK
    ensures Sends(n - CHUNK) + 1 == Sends(n)
  {
    assert (n + CHUNK - 1) / CHUNK == (n - 1) / CHUNK + 1;
  }

  lemma SendingProgress(c: Core, a: Answer)
    requires WellFormed(c) && c.state == Executing && c.socket == Sending && Fits(c, a)
    ensures Measure(RunOnce(c, a).core) + 1 <= Measure(c) + if a.code == Again then 1 else 0
  {
    if c.total - c.sent > CHUNK { SendsLess(c.total - c.sent); }
  }

  lemma ReceivingProgress(c: Core, a: Answer)
    requires WellFormed(c) && c.state == Executing && c.socket == Receiving && Fits(c, a)
    ensures Measure(RunOnce(c, a).core) + 1 <= Measure(c) + if a.code == Again then 1 else 0
  {
  }

  lemma ClosingProgress(c: Core, a: Answer)
    requires WellFormed(c) && c.state == Executing && c.socket == Closing && Fits(c, a)
    ensures Measure(RunOnce(c, a).core) + 1 <= Measure(c) + if a.code == Again then 1 else 0
  {
  }

  /** Each step that is not put off makes progress, and one that is puts nothing back. */
  lemma StepMakesProgress(c: Core, a: Answer)
    requires WellFormed(c) && Fits(c, a) && c.state != Idle
    ensures Measure(RunOnce(c, a).core) + 1 <= Measure(c) + if IsAgain(RunOnce(c, a).event) then 1 else 0
  {
    if c.state == Executing {
      if c.socket == Sending { SendingProgress(c, a); }
      else if c.socket == Receiving { ReceivingProgress(c, a); }
      else if c.socket == Closing { ClosingProgress(c, a); }
    }
  }

  /** After any answers the calls made and those left are within the bound, AGAINs apart. */
  lemma {:induction false} RunIsBounded(c: Core, script: seq<Answer>, ok: bool)
    requires WellFormed(c) && Fitting(c, script)
    ensures WellFormed(Run(c, script, ok).core)
    ensures |Run(c, script, ok).log| + Measure(Run(c, script, ok).core) <= Measure(c) + Agains(Run(c, script, ok).log)
    ensures Run(c, script, ok).core.state == Idle || |Run(c, script, ok).log| == |script|
    decreases |script|
  {
    if c.state != Idle && script != [] {
      StepMakesProgress(c, script[0]);
      var s := RunOnce(c, script[0]);
      RunIsBounded(s.core, script[1..], s.ok);
      var d := Run(s.core, script[1..], s.ok);
      assert ([s.event] + d.log)[1..] == d.log;
    }
  }

  /** A built request waits for its first kii_core_run. */
  predicate Fresh(c: Core) {
    WellFormed(c) && c.state == Ready && c.socket == IdleSocket
  }

  /** The number of calls of kii_core_run a request takes until the client is IDLE again. */
  lemma CallsUntilIdle(c: Core, script: seq<Answer>)
    requires Fresh(c) && Fitting(c, script)
    ensures var d := Run(c, script, true);
      |d.log| <= 4 + Max(1, (c.total + 255) / 256) + Max(1, |c.buffer|) + Agains(d.log)
    ensures var d := Run(c, script, true);
      |script| >= 4 + Max(1, (c.total + 255) / 256) + Max(1, |c.buffer|) + Agains(d.log) ==>
        d.core.state == Idle
  {
    RunIsBounded(c, script, true);
  }

  // -------------------------------------------------------------- send safety

  function Taken(e: Event): string { if e.Send? && e.answer == Ok then e.data else "" }

  /** The bytes send_cb has taken. */
  function Sent(log: seq<Event>): string {
    if log == [] then ""
    else Taken(log[0]) + Sent(log[1..])
  }

  /**
   * With `n` bytes of `w` taken, an offer is the chunk that comes next, of at
   * most 256 bytes, and no more than that is asked for at once; and nothing is
   * received or closed before all of `w` is taken.
   */
  predicate InTurn(w: string, n: nat, e: Event) {
    match e
    case Quiet => true
    case Connect(_) => n == 0
    case Send(data, _) => n <= |w| && data == w[n..n + Min(256, |w| - n)]
    case Receive(room, got, _) => n == |w| && |got| <= room <= 256
    case Close(_) => n == |w|
  }

  /** Every event is in turn; as an offer that is put off takes nothing, the next one repeats it. */
  predicate Orderly(w: string, n: nat, log: seq<Event>)
    decreases |log|
  {
    log == [] || (InTurn(w, n, log[0]) && Orderly(w, n + |Taken(log[0])|, log[1..]))
  }

  /** How much has been taken of the request, by the state the client is in. */
  function Position(c: Core): nat {
    if c.state == Ready then 0
    else match c.socket
      case IdleSocket => 0
      case Connecting => 0
      case Sending => c.sent
      case Receiving => c.total
      case Closing => c.total
  }

  /** Until all of it is taken, the request `w` is in the buffer as it was built. */
  predicate Holds(c: Core, w: string) {
    && WellFormed(c) && c.total == |w|
    && (c.state == Ready ==> c.socket == IdleSocket)
    && (c.socket == IdleSocket || c.socket == Connecting || c.socket == Sending ==> c.buffer[..c.total] == w)
    && (c.socket == Connecting ==> c.sent == 0)
  }

  predicate HoldsWhileRunning(c: Core, w: string) { c.state == Idle || Holds(c, w) }

  lemma OrderlyMore(w: string, n: nat, e: Event, rest: seq<Event>)
    requires InTurn(w, n, e) && Orderly(w, n + |Taken(e)|, rest)
    ensures Orderly(w, n, [e] + rest)
  {
    assert ([e] + rest)[1..] == rest;
  }

  lemma SendInTurn(c: Core, a: Answer, w: string)
    requires Holds(c, w) && Fits(c, a) && c.state == Executing && c.socket == Sending
    ensures var s := RunOnce(c, a);
      && InTurn(w, c.sent, s.event)
      && (s.core.state != Idle ==> Position(s.core) == c.sent + |Taken(s.event)|)
  {
  }

  lemma ReceiveInTurn(c: Core, a: Answer, w: string)
    requires Holds(c, w) && Fits(c, a) && c.state == Executing && c.socket == Receiving
    ensures var s := RunOnce(c, a);
      && s.event.Receive? && |s.event.got| <= s.event.room <= 256
      && (s.core.state != Idle ==> s.core.socket == Receiving || s.core.socket == Closing)
  {
  }

  lemma StepInTurn(c: Core, a: Answer, w: string)
    requires c.state != Idle && Holds(c, w) && Fits(c, a)
    ensures var s := RunOnce(c, a);
      && InTurn(w, Position(c), s.event)
      && (s.core.state != Idle ==> Position(s.core) == Position(c) + |Taken(s.event)|)
  {
    if c.state == Executing {
      if c.socket == Sending { SendInTurn(c, a, w); }
      else if c.socket == Receiving { ReceiveInTurn(c, a, w); }
    }
  }

  lemma StepHolds(c: Core, a: Answer, w: string)
    requires c.state != Idle && Holds(c, w) && Fits(c, a)
    ensures HoldsWhileRunning(RunOnce(c, a).core, w)
  {
  }

  lemma {:induction false} RunIsOrderly(c: Core, script: seq<Answer>, ok: bool, w: string)
    requires c.state != Idle && Holds(c, w) && Fitting(c, script)
    ensures Orderly(w, Position(c), Run(c, script, ok).log)
    ensures HoldsWhileRunning(Run(c, script, ok).core, w)
    decreases |script|
  {
    if script != [] {
      var s := RunOnce(c, script[0]);
      StepHolds(c, script[0], w);
      StepInTurn(c, script[0], w);
      if s.core.state != Idle { RunIsOrderly(s.core, script[1..], s.ok, w); }
      OrderlyMore(w, Position(c), s.event, Run(s.core, script[1..], s.ok).log);
    }
  }

  lemma TakenInTurn(w: string, n: nat, e: Event)
    requires InTurn(w, n, e) && n <= |w|
    ensures StandsAt(w, n, Taken(e))
  {
  }

  lemma SliceMore(w: string, n: nat, t: string, u: string)
    requires StandsAt(w, n, t) && StandsAt(w, n + |t|, u)
    ensures StandsAt(w, n, t + u)
  {
  }

  lemma {:induction false} OrderlySendsASlice(w: string, n: nat, log: seq<Event>)
    requires Orderly(w, n, log) && n <= |w|
    ensures StandsAt(w, n, Sent(log))
    decreases |log|
  {
    if log != [] {
      TakenInTurn(w, n, log[0]);
      OrderlySendsASlice(w, n + |Taken(log[0])|, log[1..]);
      SliceMore(w, n, Taken(log[0]), Sent(log[1..]));
    }
  }

  /** Whether everything of `w` is taken when the log is over. */
  lemma {:induction false} ClosedAfterAll(w: string, n: nat, log: seq<Event>)
    requires Orderly(w, n, log) && n <= |w| && log != [] && log[|log| - 1].Close?
    ensures n + |Sent(log)| == |w|
    decreases |log|
  {
    if |log| == 1 {
      assert log[1..] == [];
    } else {
      TakenInTurn(w, n, log[0]);
      var n' := n + |Taken(log[0])|;
      assert log[1..][|log| - 2] == log[|log| - 1];
      ClosedAfterAll(w, n', log[1..]);
    }
  }

  lemma {:induction false} OkEndsWithClose(c: Core, script: seq<Answer>, ok: bool)
    requires WellFormed(c) && c.state != Idle && Fitting(c, script)
    requires Run(c, script, ok).core.state == Idle && Run(c, script, ok).ok
    ensures var log := Run(c, script, ok).log; log != [] && log[|log| - 1] == Close(Ok)
    decreases |script|
  {
    var s := RunOnce(c, script[0]);
    var d := Run(s.core, script[1..], s.ok);
    if s.core.state == Idle {
      assert d == Done(s.core, s.ok, []);
    } else {
      OkEndsWithClose(s.core, script[1..], s.ok);
      assert ([s.event] + d.log)[|d.log|] == d.log[|d.log| - 1];
    }
  }

  /** What the error and the socket state say after a failure. */
  predicate Explains(c: Core, e: Event) {
    match c.error
    case NoError => false
    case SocketError => c.socket == IdleSocket && !e.Quiet? && e.answer == Fail
    case InsufficientBuffer => c.socket == Receiving && e.Receive? && e.answer == Ok && c.received == |c.buffer|
    case InvalidResponse => c.socket == Closing && e == Close(Ok) && Status(c.buffer) < 0
  }

  lemma StepExplains(c: Core, a: Answer)
    requires WellFormed(c) && Fits(c, a) && c.state == Executing
    ensures var s := RunOnce(c, a); !s.ok ==> s.core.state == Idle && Explains(s.core, s.event)
  {
  }

  /** A run that ends badly tells why by its error: a callback, a full buffer, or a response that is none. */
  lemma {:induction false} FailureTellsWhy(c: Core, script: seq<Answer>, ok: bool)
    requires WellFormed(c) && c.state != Idle && Fitting(c, script)
    requires Run(c, script, ok).core.state == Idle && !Run(c, script, ok).ok
    ensures var d := Run(c, script, ok); d.log != [] && Explains(d.core, d.log[|d.log| - 1])
    decreases |script|
  {
    var s := RunOnce(c, script[0]);
    var d := Run(s.core, script[1..], s.ok);
    if c.state == Executing { StepExplains(c, script[0]); }
    if s.core.state == Idle {
      assert d == Done(s.core, s.ok, []);
    } else {
      FailureTellsWhy(s.core, script[1..], s.ok);
      assert ([s.event] + d.log)[|d.log|] == d.log[|d.log| - 1];
    }
  }

  /**
   * Whatever the callbacks answer, what they take is a beginning of the
   * request, offered in order and in chunks; a run that ends well has had it
   * taken whole, once.
   */
  lemma SendSafety(c: Core, script: seq<Answer>)
    requires Fresh(c) && Fitting(c, script)
    ensures var d := Run(c, script, true); var w := c.buffer[..c.total];
      && Orderly(w, 0, d.log) && Sent(d.log) <= w
      && (d.core.state == Idle && d.ok ==> Sent(d.log) == w)
  {
    var w := c.buffer[..c.total];
    var d := Run(c, script, true);
    RunIsOrderly(c, script, true, w);
    OrderlySendsASlice(w, 0, d.log);
    if d.core.state == Idle && d.ok {
      OkEndsWithClose(c, script, true);
      ClosedAfterAll(w, 0, d.log);
    }
  }
}
