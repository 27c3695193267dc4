/**
 * The two tasks of the push service (kiiPush_recvMsgTask and
 * kiiPush_pingReqTask) running side by side: every interleaving of their steps,
 * with any outcome of every call.
 */
module PushProtocol {
  import opened Memory

  /** An endpoint, by whatever tells it apart. */
  type Endpoint = int

  datatype PushState = PreparingEndpoint | SubscribingTopic | Ready

  /** Where the receiving task is between two steps. */
  datatype Place =
    | Head             // at the head of the loop
    | Retrieving       // installed, about to retrieve the endpoint
    | Opened           // in kiiMQTT_connect, the socket connected and CONNECT about to be answered
    | Accepted         // kiiMQTT_connect has returned 0
    | Flagged          // the connection is marked, kiiMQTT_subscribe is next
    | Refused          // kiiMQTT_subscribe has failed
    | Subscribed       // kiiMQTT_subscribe has succeeded
    | Lost             // kiiPush_receivePushNotification has failed

  datatype Event =
    | Retrieved(endpoint: Endpoint)
    | Connected(endpoint: Endpoint)
    | Connack
    | Suback
    | Delivered
    | Pinged

  datatype System = System(place: Place, push: PushState, mqttConnected: int, endpoint: Endpoint, log: seq<Event>)

  /** The outcome of retrieving: the endpoint is filled in only by a success, and whatever is in it else is `junk`. */
  datatype Retrieval = Success(endpoint: Endpoint) | Retry(junk: Endpoint) | Error(junk: Endpoint)

  /** What the next step does, and how the call it makes ends. */
  datatype Choice =
    | Ping                                         // the ping task tests the flag and sends
    | Task(ok: bool, retrieval: Retrieval, message: bool)

  function Start(): System { System(Head, PreparingEndpoint, 0, 0, []) }

  function Next(s: System, c: Choice): System {
    match c
    case Ping => if s.mqttConnected == 1 then s.(log := s.log + [Pinged]) else s
    case Task(ok, retrieval, message) => TaskStep(s, ok, retrieval, message)
  }

  function TaskStep(s: System, ok: bool, retrieval: Retrieval, message: bool): System {
    match s.place
    case Head =>
      (match s.push
       case PreparingEndpoint => if ok then s.(place := Retrieving) else s
       case SubscribingTopic =>
         // closing the old socket or connecting the new one can fail before anything is sent
         if ok then s.(place := Opened, log := s.log + [Connected(s.endpoint)]) else s.(push := PreparingEndpoint)
       case Ready =>
         // a packet that is no notification is passed over
         if ok then (if message then s.(log := s.log + [Delivered]) else s) else s.(place := Lost))
    case Retrieving =>
      (match retrieval
       case Success(e) => s.(endpoint := e, log := s.log + [Retrieved(e)], push := SubscribingTopic, place := Head)
       case Retry(junk) => s.(endpoint := junk)
       case Error(junk) => s.(endpoint := junk, place := Head))
    case Opened =>
      if ok then s.(place := Accepted, log := s.log + [Connack]) else s.(push := PreparingEndpoint, place := Head)
    case Accepted => s.(mqttConnected := 1, place := Flagged)
    case Flagged => if ok then s.(place := Subscribed, log := s.log + [Suback]) else s.(place := Refused)
    case Refused => s.(mqttConnected := 0, push := PreparingEndpoint, place := Head)
    case Subscribed => s.(push := Ready, place := Head)
    case Lost => s.(mqttConnected := 0, push := SubscribingTopic, place := Head)
  }

  function Run(s: System, choices: seq<Choice>): System
    decreases |choices|
  {
    if choices == [] then s else Run(Next(s, choices[0]), choices[1..])
  }

  // ------------------------------------------------------------ what a log says

  /** The endpoint of the last successful retrieval. */
  function LastRetrieved(log: seq<Event>): Option<Endpoint> {
    if log == [] then None
    else var last := log[|log| - 1];
      if last.Retrieved? then Some(last.endpoint) else LastRetrieved(log[..|log| - 1])
  }

  /** Has the connection that was opened last answered CONNECT? */
  predicate Acknowledged(log: seq<Event>) {
    log != [] && var last := log[|log| - 1];
      last.Connack? || (!last.Connected? && Acknowledged(log[..|log| - 1]))
  }

  /** Has it accepted the subscription? */
  predicate SubscribedTo(log: seq<Event>) {
    log != [] && var last := log[|log| - 1];
      last.Suback? || (!last.Connected? && SubscribedTo(log[..|log| - 1]))
  }

  /** What may come after `log`. */
  predicate Allowed(log: seq<Event>, e: Event) {
    match e
    case Retrieved(_) => true
    case Connected(endpoint) => LastRetrieved(log) == Some(endpoint)
    case Connack => true
    case Suback => Acknowledged(log)
    case Delivered => SubscribedTo(log)
    case Pinged => Acknowledged(log)
  }

  predicate Legal(log: seq<Event>) {
    log == [] || (Legal(log[..|log| - 1]) && Allowed(log[..|log| - 1], log[|log| - 1]))
  }

  // ------------------------------------------------------------ the invariant

  predicate IsConnecting(p: Place) { p.Opened? || p.Accepted? || p.Flagged? || p.Refused? || p.Subscribed? }

  /** What the place of the receiving task says of the flag, the endpoint and the connection. */
  predicate Inv(s: System) {
    && Legal(s.log)
    && (s.mqttConnected == if s.place.Flagged? || s.place.Refused? || s.place.Subscribed? || s.place.Lost?
                              || (s.place.Head? && s.push.Ready?) then 1 else 0)
    && (s.place.Retrieving? ==> s.push.PreparingEndpoint?)
    && (IsConnecting(s.place) ==> s.push.SubscribingTopic?)
    && (s.place.Lost? ==> s.push.Ready?)
    && (!s.push.PreparingEndpoint? ==> LastRetrieved(s.log) == Some(s.endpoint))
    && (s.mqttConnected == 1 || s.place.Accepted? ==> Acknowledged(s.log))
    && (s.place.Subscribed? || s.push.Ready? ==> SubscribedTo(s.log))
  }

  lemma LogMore(log: seq<Event>, e: Event)
    ensures Legal(log + [e]) <==> Legal(log) && Allowed(log, e)
    ensures LastRetrieved(log + [e]) == if e.Retrieved? then Some(e.endpoint) else LastRetrieved(log)
    ensures Acknowledged(log + [e]) <==> e.Connack? || (!e.Connected? && Acknowledged(log))
    ensures SubscribedTo(log + [e]) <==> e.Suback? || (!e.Connected? && SubscribedTo(log))
  {
    assert (log + [e])[..|log + [e]| - 1] == log;
  }

  /** Every step of either task keeps it. */
  lemma NextKeepsInv(s: System, c: Choice)
    requires Inv(s)
    ensures Inv(Next(s, c))
  {
    LogMore(s.log, Pinged);
    LogMore(s.log, Connected(s.endpoint));
    LogMore(s.log, Connack);
    LogMore(s.log, Suback);
    LogMore(s.log, Delivered);
    if c.Task? && c.retrieval.Success? { LogMore(s.log, Retrieved(c.retrieval.endpoint)); }
  }

  lemma {:induction false} RunKeepsInv(s: System, choices: seq<Choice>)
    requires Inv(s)
    ensures Inv(Run(s, choices))
    decreases |choices|
  {
    if choices != [] {
      NextKeepsInv(s, choices[0]);
      RunKeepsInv(Next(s, choices[0]), choices[1..]);
    }
  }

  /** At the head of the loop the flag is set exactly in the state READY, in every run of the two tasks. */
  lemma ConnectedExactlyWhenReady(choices: seq<Choice>)
    ensures var s := Run(Start(), choices);
      s.place == Head ==> (s.mqttConnected == 1 <==> s.push == Ready)
  {
    RunKeepsInv(Start(), choices);
  }

  lemma {:induction false} LegalAt(log: seq<Event>, k: nat)
    requires Legal(log) && k < |log|
    ensures Allowed(log[..k], log[k])
    decreases |log|
  {
    if k < |log| - 1 {
      LegalAt(log[..|log| - 1], k);
      assert log[..|log| - 1][..k] == log[..k];
    }
  }

  /**
   * In every run, each connection is opened to the endpoint that was retrieved
   * last, each message follows an accepted subscription on the connection that
   * is open, and each ping follows an accepted CONNECT on it.
   */
  lemma EveryEventIsAllowed(choices: seq<Choice>, k: nat)
    requires k < |Run(Start(), choices).log|
    ensures var log := Run(Start(), choices).log; Allowed(log[..k], log[k])
  {
    RunKeepsInv(Start(), choices);
    LegalAt(Run(Start(), choices).log, k);
  }

  // -------------------------------------------- the same, without the recursion

  /** An event of the kind has come since the connection that is open was opened. */
  ghost predicate SinceOpened(log: seq<Event>, e: Event, i: nat) {
    i < |log| && log[i] == e && forall j :: i < j < |log| ==> !log[j].Connected?
  }

  lemma {:induction false} AcknowledgedMeans(log: seq<Event>) returns (i: nat)
    requires Acknowledged(log)
    ensures SinceOpened(log, Connack, i)
    decreases |log|
  {
    if log[|log| - 1].Connack? {
      i := |log| - 1;
    } else {
      i := AcknowledgedMeans(log[..|log| - 1]);
    }
  }

  lemma {:induction false} SubscribedMeans(log: seq<Event>) returns (i: nat)
    requires SubscribedTo(log)
    ensures SinceOpened(log, Suback, i)
    decreases |log|
  {
    if log[|log| - 1].Suback? {
      i := |log| - 1;
    } else {
      i := SubscribedMeans(log[..|log| - 1]);
    }
  }

  /** A message is preceded, on its own connection, by both acknowledgements. */
  lemma DeliveryIsPreceded(choices: seq<Choice>, k: nat) returns (connack: nat, suback: nat)
    requires k < |Run(Start(), choices).log| && Run(Start(), choices).log[k] == Delivered
    ensures var before := Run(Start(), choices).log[..k];
      SinceOpened(before, Suback, suback) && SinceOpened(before[..suback], Connack, connack)
  {
    var log := Run(Start(), choices).log;
    EveryEventIsAllowed(choices, k);
    suback := SubscribedMeans(log[..k]);
    EveryEventIsAllowed(choices, suback);
    assert log[..k][..suback] == log[..suback];
    connack := AcknowledgedMeans(log[..suback]);
  }

  lemma RunMore(s: System, c: Choice, cs: seq<Choice>)
    ensures Run(s, [c] + cs) == Run(Next(s, c), cs)
  {
    assert ([c] + cs)[1..] == cs;
  }

  lemma RunFive(s: System, c1: Choice, c2: Choice, c3: Choice, c4: Choice, c5: Choice)
    ensures Run(s, [c1, c2, c3, c4, c5]) == Next(Next(Next(Next(Next(s, c1), c2), c3), c4), c5)
  {
    RunMore(s, c1, [c2, c3, c4, c5]);
    RunMore(Next(s, c1), c2, [c3, c4, c5]);
    RunMore(Next(Next(s, c1), c2), c3, [c4, c5]);
    RunMore(Next(Next(Next(s, c1), c2), c3), c4, [c5]);
    RunMore(Next(Next(Next(Next(s, c1), c2), c3), c4), c5, []);
    assert [c1] + [c2, c3, c4, c5] == [c1, c2, c3, c4, c5] && [c2] + [c3, c4, c5] == [c2, c3, c4, c5];
    assert [c3] + [c4, c5] == [c3, c4, c5] && [c4] + [c5] == [c4, c5] && [c5] + [] == [c5];
  }

  lemma {:induction false} RunOn(s: System, a: seq<Choice>, b: seq<Choice>)
    ensures Run(s, a + b) == Run(Run(s, a), b)
    decreases |a|
  {
    if a == [] {
      assert a + b == b;
    } else {
      assert (a + b)[1..] == a[1..] + b;
      RunOn(Next(s, a[0]), a[1..], b);
    }
  }

  // ------------------------------------------------------- what does happen

  predicate IsReady(s: System) { s.place == Head && s.push == PushState.Ready }

  /** The next calls of the receiving task succeed; `e` is the endpoint that a retrieval finds. */
  function Succeeds(e: Endpoint): Choice { Task(true, Success(e), true) }

  function Fails(e: Endpoint): Choice { Task(false, Error(e), false) }

  /** A ping is sent whenever the task waits for notifications, and with the flag clear none is. */
  lemma PingIsSent(choices: seq<Choice>)
    ensures var s, log := Run(Start(), choices), Run(Start(), choices + [Ping]).log;
      && (IsReady(s) ==> log == s.log + [Pinged])
      && (!Acknowledged(s.log) ==> log == s.log)
      && (log == s.log + [Pinged] <==> s.mqttConnected == 1)
  {
    RunKeepsInv(Start(), choices);
    RunOneMore(choices, Ping);
    var s := Run(Start(), choices);
    assert s.log != s.log + [Pinged];
  }

  lemma RunOneMore(choices: seq<Choice>, c: Choice)
    ensures Run(Start(), choices + [c]) == Next(Run(Start(), choices), c)
  {
    RunOn(Start(), choices, [c]);
    RunMore(Run(Start(), choices), c, []);
    assert [c] + [] == [c];
  }

  /** In READY every notification is delivered, and other packets are passed over. */
  lemma MessageIsDelivered(choices: seq<Choice>, r: Retrieval, message: bool)
    requires IsReady(Run(Start(), choices))
    ensures var s := Run(Start(), choices);
      Run(Start(), choices + [Task(true, r, message)]) == if message then s.(log := s.log + [Delivered]) else s
  {
    RunOneMore(choices, Task(true, r, message));
  }

  lemma RunTwo(s: System, c1: Choice, c2: Choice)
    ensures Run(s, [c1, c2]) == Next(Next(s, c1), c2)
  {
    RunMore(s, c1, [c2]);
    RunMore(Next(s, c1), c2, []);
    assert [c1] + [c2] == [c1, c2] && [c2] + [] == [c2];
  }

  /** With an endpoint at hand, five successful steps connect, subscribe and get ready. */
  lemma FiveToReady(s: System, e: Endpoint)
    requires s.place == Head && s.push == SubscribingTopic
    ensures var c := Succeeds(e); var s' := Run(s, [c, c, c, c, c]);
      && IsReady(s') && s'.mqttConnected == 1 && s'.endpoint == s.endpoint
      && s'.log == s.log + [Connected(s.endpoint), Connack, Suback]
  {
    var c := Succeeds(e);
    RunFive(s, c, c, c, c, c);
    assert s.log + [Connected(s.endpoint)] + [Connack] + [Suback] == s.log + [Connected(s.endpoint), Connack, Suback];
  }

  /** After a notification that could not be received the flag is cleared, and the same endpoint is connected again. */
  lemma ReconnectsAfterLoss(choices: seq<Choice>, e: Endpoint, f: Endpoint)
    requires IsReady(Run(Start(), choices))
    ensures var s, c := Run(Start(), choices), Succeeds(e);
      var s' := Run(Start(), choices + ([Fails(f), Fails(f)] + [c, c, c, c, c]));
      && Run(Start(), choices + [Fails(f), Fails(f)]) == s.(mqttConnected := 0, push := SubscribingTopic)
      && IsReady(s') && s'.mqttConnected == 1 && LastRetrieved(s.log) == Some(s'.endpoint)
      && s'.log == s.log + [Connected(s'.endpoint), Connack, Suback]
  {
    var s, c, n := Run(Start(), choices), Succeeds(e), Fails(f);
    RunKeepsInv(Start(), choices);
    RunOn(Start(), choices, [n, n] + [c, c, c, c, c]);
    RunOn(Start(), choices, [n, n]);
    RunTwo(s, n, n);
    RunOn(s, [n, n], [c, c, c, c, c]);
    FiveToReady(Run(s, [n, n]), e);
  }

  /** A new endpoint is retrieved, connected and subscribed: at the beginning, and after each failure below. */
  lemma RetrievesAndConnects(s: System, e: Endpoint)
    requires s.place == Head && s.push == PreparingEndpoint
    ensures var c := Succeeds(e); var s' := Run(s, [c, c] + [c, c, c, c, c]);
      && IsReady(s') && s'.mqttConnected == 1 && s'.endpoint == e
      && s'.log == s.log + [Retrieved(e), Connected(e), Connack, Suback]
  {
    var c := Succeeds(e);
    RunTwo(s, c, c);
    RunOn(s, [c, c], [c, c, c, c, c]);
    FiveToReady(Run(s, [c, c]), e);
    assert s.log + [Retrieved(e)] + [Connected(e), Connack, Suback]
        == s.log + [Retrieved(e), Connected(e), Connack, Suback];
  }

  /** The steps after which a new endpoint is retrieved: no socket, a refused CONNECT, a refused SUBSCRIBE. */
  predicate GivesUp(s: System, cs: seq<Choice>, e: Endpoint) {
    || (s.place == Head && s.push == SubscribingTopic && cs == [Fails(e)])
    || (s.place == Opened && cs == [Fails(e)])
    || (s.place == Flagged && cs == [Fails(e), Fails(e)])
  }

  /** Then the flag is clear, nothing more has happened, and all begins again with a new endpoint. */
  lemma StartsOverAfterFailure(choices: seq<Choice>, cs: seq<Choice>, e: Endpoint, f: Endpoint)
    requires GivesUp(Run(Start(), choices), cs, f)
    ensures var s, c := Run(Start(), choices), Succeeds(e);
      var s' := Run(Start(), choices + (cs + ([c, c] + [c, c, c, c, c])));
      && Run(Start(), choices + cs) == s.(place := Head, push := PreparingEndpoint, mqttConnected := 0)
      && IsReady(s') && s'.endpoint == e && s'.log == s.log + [Retrieved(e), Connected(e), Connack, Suback]
  {
    var s, c, n := Run(Start(), choices), Succeeds(e), Fails(f);
    RunKeepsInv(Start(), choices);
    RunOn(Start(), choices, cs + ([c, c] + [c, c, c, c, c]));
    RunOn(Start(), choices, cs);
    if |cs| == 2 { RunTwo(s, n, n); } else { RunMore(s, n, []); assert [n] + [] == [n]; }
    RunOn(s, cs, [c, c] + [c, c, c, c, c]);
    RetrievesAndConnects(Run(s, cs), e);
  }

  /** While an endpoint is retrieved: a retry tries again, an error installs again, and neither leaves an event. */
  lemma RetrievalIsRepeated(choices: seq<Choice>, c: Choice)
    requires Run(Start(), choices).place == Retrieving && c.Task? && !c.retrieval.Success?
    ensures var s, s' := Run(Start(), choices), Run(Start(), choices + [c]);
      && s'.log == s.log && s'.push == PreparingEndpoint && s'.mqttConnected == 0
      && s'.place == if c.retrieval.Retry? then Retrieving else Head
  {
    RunKeepsInv(Start(), choices);
    RunOneMore(choices, c);
  }

  /** Nothing is retrieved before the installation succeeds. */
  lemma InstallationIsRepeated(choices: seq<Choice>, c: Choice)
    requires var s := Run(Start(), choices); s.place == Head && s.push == PreparingEndpoint
    requires c.Task?
    ensures var s := Run(Start(), choices);
      Run(Start(), choices + [c]) == if c.ok then s.(place := Retrieving) else s
  {
    RunOneMore(choices, c);
  }

  /** The successful steps that are left until notifications are received. */
  function StepsLeft(s: System): nat {
    match s.place
    case Head => (match s.push case PreparingEndpoint => 7 case SubscribingTopic => 5 case Ready => 0)
    case Retrieving => 6
    case Opened => 4
    case Accepted => 3
    case Flagged => 2
    case Subscribed => 1
    case Refused => 8
    case Lost => 6
  }

  /** `n` steps that succeed. */
  function Successes(e: Endpoint, n: nat): seq<Choice> {
    if n == 0 then [] else [Succeeds(e)] + Successes(e, n - 1)
  }

  lemma SuccessLeadsOn(s: System, e: Endpoint)
    requires Inv(s) && StepsLeft(s) > 0
    ensures Inv(Next(s, Succeeds(e))) && StepsLeft(Next(s, Succeeds(e))) == StepsLeft(s) - 1
  {
    NextKeepsInv(s, Succeeds(e));
  }

  lemma {:induction false} ReadyInEightSteps(s: System, e: Endpoint)
    requires Inv(s)
    ensures StepsLeft(s) <= 8 && IsReady(Run(s, Successes(e, StepsLeft(s))))
    decreases StepsLeft(s)
  {
    var n := StepsLeft(s);
    if n > 0 {
      SuccessLeadsOn(s, e);
      ReadyInEightSteps(Next(s, Succeeds(e)), e);
      RunMore(s, Succeeds(e), Successes(e, n - 1));
    }
  }

  /** From wherever a run has got to, at most eight steps that succeed lead to READY. */
  lemma EveryRunCanGetReady(choices: seq<Choice>, e: Endpoint) returns (n: nat)
    ensures n <= 8 && IsReady(Run(Start(), choices + Successes(e, n)))
  {
    var s := Run(Start(), choices);
    RunKeepsInv(Start(), choices);
    n := StepsLeft(s);
    ReadyInEightSteps(s, e);
    RunOn(Start(), choices, Successes(e, n));
  }

  // ------------------------------------- a ping whose test and send are apart

  /** Since the flag was tested: no connection was opened, or the last one waits for its answer, or was accepted. */
  datatype Since = NoneOpened | Waiting | WasAccepted

  /** kiiMQTT_connect has the socket connected and sends CONNECT. */
  predicate Opens(s: System, c: Choice) { c.Task? && s.place.Head? && s.push.SubscribingTopic? && c.ok }

  /** And gets an accepting CONNACK. */
  predicate Accepts(s: System, c: Choice) { c.Task? && s.place.Opened? && c.ok }

  /** The last connection that was opened by `choices`, if any. */
  function LastOpening(s: System, choices: seq<Choice>, since: Since): Since
    decreases |choices|
  {
    if choices == [] then since
    else
      var now := if Opens(s, choices[0]) then Waiting else if Accepts(s, choices[0]) then WasAccepted else since;
      LastOpening(Next(s, choices[0]), choices[1..], now)
  }

  lemma StepAcknowledges(s: System, c: Choice)
    ensures Acknowledged(Next(s, c).log) <==> Accepts(s, c) || (!Opens(s, c) && Acknowledged(s.log))
  {
    LogMore(s.log, Pinged);
    LogMore(s.log, Connected(s.endpoint));
    LogMore(s.log, Connack);
    LogMore(s.log, Suback);
    LogMore(s.log, Delivered);
    if c.Task? && c.retrieval.Success? { LogMore(s.log, Retrieved(c.retrieval.endpoint)); }
  }

  lemma {:induction false} LastOpeningTells(s: System, choices: seq<Choice>, since: Since)
    requires Acknowledged(s.log) <==> since != Waiting
    ensures Acknowledged(Run(s, choices).log) <==> LastOpening(s, choices, since) != Waiting
    decreases |choices|
  {
    if choices != [] {
      var c := choices[0];
      StepAcknowledges(s, c);
      var now := if Opens(s, c) then Waiting else if Accepts(s, c) then WasAccepted else since;
      LastOpeningTells(Next(s, c), choices[1..], now);
    }
  }

  /**
   * With the flag tested and set after `before` and the ping sent after `meanwhile`, it is in order if and only if
   * the last kiiMQTT_connect in between that opened a socket was accepted, or there was none.
   */
  lemma LatePingIsAllowedExactly(before: seq<Choice>, meanwhile: seq<Choice>)
    requires Run(Start(), before).mqttConnected == 1
    ensures Allowed(Run(Start(), before + meanwhile).log, Pinged)
            <==> LastOpening(Run(Start(), before), meanwhile, NoneOpened) != Waiting
  {
    RunKeepsInv(Start(), before);
    LastOpeningTells(Run(Start(), before), meanwhile, NoneOpened);
    RunOn(Start(), before, meanwhile);
  }

  /** It does happen: the subscription is refused, and the next connection is open before the ping is sent. */
  lemma LatePing() returns (before: seq<Choice>, meanwhile: seq<Choice>)
    ensures Run(Start(), before).mqttConnected == 1
    ensures !Allowed(Run(Start(), before + meanwhile).log, Pinged)
  {
    var yes, no := Task(true, Success(7), false), Task(false, Success(7), false);
    before, meanwhile := [yes, yes, yes, yes, yes], [no, no, yes, yes, yes];
    var s1 := Next(Start(), yes);
    var s2 := Next(s1, yes);
    var s3 := Next(s2, yes);
    var s4 := Next(s3, yes);
    var s5 := Next(s4, yes);
    RunFive(Start(), yes, yes, yes, yes, yes);
    var s6 := Next(s5, no);
    var s7 := Next(s6, no);
    var s8 := Next(s7, yes);
    var s9 := Next(s8, yes);
    RunFive(s5, no, no, yes, yes, yes);
    RunOn(Start(), before, meanwhile);
    LogMore(s9.log, Connected(7));
  }
}
