/**
 * Reading push notifications, PUBLISH packets of QoS 0, from a stream that
 * comes in pieces (kiiPush_receivePushNotification).
 */
module PushReader {
  import opened Memory
  import opened MqttCodec
  import opened MqttPackets

  /** The counter of bytes read is a size_t in kii/kii_push.c and an int in the MTK variant. */
  datatype Variant = Unsigned | Signed

  const SIZE_MAX := 0xffff_ffff

  /** The stream still to come, and the most each call of recv_cb will deliver of it; 0 is a failure. */
  datatype Wire = Wire(rest: seq<byte>, grants: seq<nat>)

  datatype Taken = Taken(data: seq<byte>, wire: Wire)

  /** recv_cb asked for `n` bytes. */
  function Recv(w: Wire, n: nat): (t: Taken)
    ensures |t.data| <= n && t.data + t.wire.rest == w.rest
  {
    if w.grants == [] then Taken([], w)
    else
      var k := Min(Min(n, w.grants[0]), |w.rest|);
      Taken(w.rest[..k], Wire(w.rest[k..], w.grants[1..]))
  }

  // ------------------------------------------------------------ one call

  const HEADER := 2
  const KII_PUSH_TOPIC_HEADER_SIZE := 8
  const START := 10

  /** What a call returns, the message it calls back with, and the stream it leaves. */
  datatype Got = Got(ret: int, delivered: Option<seq<byte>>, wire: Wire)

  function ReceiveOne(w: Wire, size: nat, v: Variant): Got
    requires size >= START
  {
    var first := Recv(w, HEADER);
    if |first.data| != HEADER then Got(-1, None, first.wire)
    else if first.data[0] / 16 != 3 then Got(0, None, first.wire)
    else
      var second := Recv(first.wire, KII_PUSH_TOPIC_HEADER_SIZE);
      if |second.data| != KII_PUSH_TOPIC_HEADER_SIZE then Got(-1, None, second.wire)
      else ReceiveRest(first.data + second.data, second.wire, size, v)
  }

  /** With the first ten bytes there, the length is known, and the tail is read. */
  function ReceiveRest(start: seq<byte>, w: Wire, size: nat, v: Variant): Got
    requires |start| == START && size >= START
  {
    match Decode(start[1..])
    case Failed => Got(-1, None, w)
    case Field(n, remaining) =>
      var total := remaining + n + 1;
      if total > size then Got(-1, None, w)
      else
        var tail := ReadTail(w, Missing(START, total));
        if tail.failed && v == Signed then Got(-1, None, tail.wire)
        else
          FieldLengthIsField(start[1..], 0);
          Deliver(Padded(start + tail.data, size), n, remaining, tail.wire)
  }

  /** A buffer of `n` bytes that starts with `s`. */
  function Padded(s: seq<byte>, n: nat): (r: seq<byte>)
    requires |s| <= n
    ensures |r| == n
  {
    s + Copies(0, n - |s|)
  }

  datatype Tail = Tail(data: seq<byte>, failed: bool, wire: Wire)

  /** Reads until `need` bytes are there, or nothing comes. */
  function ReadTail(w: Wire, need: nat): (t: Tail)
    ensures |t.data| <= need && (!t.failed <==> |t.data| == need)
    decreases need
  {
    if need == 0 then Tail([], false, w)
    else
      var t := Recv(w, need);
      if t.data == [] then Tail([], true, t.wire) else Extended(t.data, ReadTail(t.wire, need - |t.data|))
  }

  function Extended(d: seq<byte>, r: Tail): Tail { r.(data := d + r.data) }

  /** With `have` there already, what it will be with what is still to come. */
  function Whole(have: seq<byte>, w: Wire, need: nat): Tail { Extended(have, ReadTail(w, need)) }

  lemma {:induction false} TailConserves(w: Wire, need: nat)
    ensures var t := ReadTail(w, need); t.data + t.wire.rest == w.rest
    decreases need
  {
    if need > 0 {
      var t := Recv(w, need);
      if t.data != [] {
        var left := need - |t.data|;
        TailConserves(t.wire, left);
        TailUnfolds(w, need, left);
        ExtendedConserves(t.data, ReadTail(t.wire, left), t.wire.rest);
      }
    }
  }

  lemma ExtendedConserves(d: seq<byte>, r: Tail, rest: seq<byte>)
    requires r.data + r.wire.rest == rest
    ensures Extended(d, r).data + Extended(d, r).wire.rest == d + rest
  {
    Reassociate(d, r.data, r.wire.rest);
  }

  /** Calls back with what stands after the topic, if it is not empty. */
  function Deliver(buffer: seq<byte>, n: nat, remaining: nat, w: Wire): Got
    requires n <= 4 && |buffer| >= START && n + 1 + remaining <= |buffer|
  {
    var topic := Word(buffer[1 + n], buffer[2 + n]);
    if remaining - 2 - topic > 0 then Got(0, Some(buffer[3 + n + topic..n + 1 + remaining]), w)
    else Got(-1, None, w)
  }

  // ------------------------------------------------------------ the packets

  datatype Message = Publish(retain: bool, topic: seq<byte>, payload: seq<byte>) | PingResp

  function Remaining(m: Message): nat
    requires m.Publish?
  {
    2 + |m.topic| + |m.payload|
  }

  function Bytes(m: Message): seq<byte> {
    match m
    case Publish(retain, topic, payload) =>
      [if retain then 0x31 else 0x30] + (Encoded(Remaining(m)) + (Text(topic) + payload))
    case PingResp => [0xd0, 0x00]
  }

  /** A message the reader can take: a short topic, a payload, and room for the whole packet. */
  predicate IsMessage(m: Message, size: nat) {
    m.Publish? ==> |m.topic| < 128 && m.payload != [] && |Bytes(m)| <= size && Remaining(m) < Pow128(4)
  }

  /** The start is delivered as it is asked for, and the tail in any pieces that are not empty. */
  predicate Ample(m: Message, grants: seq<nat>) {
    && grants != [] && grants[0] >= HEADER
    && (m.Publish? ==>
          && |grants| >= 2 && grants[1] >= KII_PUSH_TOPIC_HEADER_SIZE
          && (forall i :: 2 <= i < |grants| ==> grants[i] > 0)
          && |grants| + START >= |Bytes(m)| + 2)
  }

  function Payload(m: Message): Option<seq<byte>> { if m.Publish? then Some(m.payload) else None }

  // ------------------------------------------------------------ one message

  lemma {:induction false} TailIsTaken(w: Wire, need: nat)
    requires |w.rest| >= need && |w.grants| >= need && forall i :: 0 <= i < |w.grants| ==> w.grants[i] > 0
    ensures var t := ReadTail(w, need); t.data == w.rest[..need] && t.wire.rest == w.rest[need..] && !t.failed
    decreases need
  {
    if need > 0 {
      var t := Recv(w, need);
      TailIsTaken(t.wire, need - |t.data|);
      var r := ReadTail(w, need);
      TailConserves(w, need);
      assert w.rest[..need] == (r.data + r.wire.rest)[..need] == r.data;
      assert w.rest[need..] == (r.data + r.wire.rest)[need..];
    }
  }

  lemma StartIsTaken(s: seq<byte>, grants: seq<nat>)
    requires |s| >= START && |grants| >= 2 && grants[0] >= HEADER && grants[1] >= KII_PUSH_TOPIC_HEADER_SIZE
    ensures var first := Recv(Wire(s, grants), HEADER); var second := Recv(first.wire, KII_PUSH_TOPIC_HEADER_SIZE);
      first.data == s[..2] && first.data + second.data == s[..START] && second.wire == Wire(s[START..], grants[2..])
  {
    var first := Recv(Wire(s, grants), HEADER);
    assert first.data == s[..2] && first.wire.rest == s[2..];
    var second := Recv(first.wire, KII_PUSH_TOPIC_HEADER_SIZE);
    assert second.data == s[2..][..8] == s[2..10] && second.wire.rest == s[2..][8..] == s[10..];
    assert s[..2] + s[2..10] == s[..10];
    assert grants[1..][1..] == grants[2..];
  }

  lemma AfterFirst(a: seq<byte>, e: seq<byte>, y: seq<byte>, more: seq<byte>) returns (x: seq<byte>)
    requires |a| == 1 && |e| < START <= |a + (e + y) + more|
    ensures (a + (e + y) + more)[..START][1..] == e + x
  {
    var s := a + (e + y) + more;
    x := s[1 + |e|..START];
    assert s[1..1 + |e|] == e;
  }

  /** The length is read from the first ten bytes of a packet. */
  lemma LengthIsRead(m: Message, more: seq<byte>)
    requires m.Publish? && Remaining(m) < Pow128(4) && |Bytes(m) + more| >= START
    ensures var start := (Bytes(m) + more)[..START];
      Decode(start[1..]) == Field(|Encoded(Remaining(m))|, Remaining(m)) && |Encoded(Remaining(m))| <= 4
  {
    var e := Encoded(Remaining(m));
    EncodedLength(Remaining(m), 4);
    var x := AfterFirst(Bytes(m)[..1], e, Text(m.topic) + m.payload, more);
    RoundTrip(Remaining(m), x);
  }

  lemma FourParts(a: seq<byte>, e: seq<byte>, t: seq<byte>, payload: seq<byte>)
    requires |a| == 1 && |t| >= 2
    ensures var b := a + (e + (t + payload));
      b[1 + |e|] == t[0] && b[2 + |e|] == t[1] && b[1 + |e| + |t|..] == payload
  {
  }

  lemma PartsOfPublish(m: Message)
    requires m.Publish? && |m.topic| < 128
    ensures var n := |Encoded(Remaining(m))|; var b := Bytes(m); var at := 3 + n + |m.topic|;
      |b| == 1 + n + Remaining(m) && Word(b[1 + n], b[2 + n]) == |m.topic| && b[at..] == m.payload && b[0] / 16 == 3
  {
    FourParts([Bytes(m)[0]], Encoded(Remaining(m)), Text(m.topic), m.payload);
  }

  lemma SameInside(b: seq<byte>, buffer: seq<byte>, i: nat, j: nat)
    requires b <= buffer && i + 1 < |b| && j <= |b|
    ensures buffer[i] == b[i] && buffer[i + 1] == b[i + 1] && buffer[j..|b|] == b[j..]
  {
    assert buffer[..|b|] == b;
  }

  /** With the packet at the start of the buffer, its payload is delivered. */
  lemma PayloadIsDelivered(m: Message, buffer: seq<byte>, w: Wire)
    requires m.Publish? && |m.topic| < 128 && m.payload != [] && Remaining(m) < Pow128(4)
    requires START <= |buffer| && Bytes(m) <= buffer && |Encoded(Remaining(m))| <= 4
    ensures |Bytes(m)| == |Encoded(Remaining(m))| + 1 + Remaining(m)
    ensures Deliver(buffer, |Encoded(Remaining(m))|, Remaining(m), w) == Got(0, Some(m.payload), w)
  {
    PartsOfPublish(m);
    var n, b := |Encoded(Remaining(m))|, Bytes(m);
    SameInside(b, buffer, 1 + n, 3 + n + |m.topic|);
  }

  ghost function Excess(m: Message): nat { if m.Publish? && |Bytes(m)| < START then START - |Bytes(m)| else 0 }

  /** A message is delivered, and what is taken of the stream is the packet, but never less than ten bytes of it. */
  lemma MessageIsReceived(m: Message, more: seq<byte>, grants: seq<nat>, size: nat, v: Variant)
    requires size >= START && IsMessage(m, size) && Ample(m, grants) && |more| >= Excess(m)
    ensures var g := ReceiveOne(Wire(Bytes(m) + more, grants), size, v);
      g.ret == 0 && g.delivered == Payload(m) && g.wire.rest == more[Excess(m)..]
  {
    var s := Bytes(m) + more;
    if m.PingResp? {
      assert s[..2] == [0xd0, 0x00] && s[2..] == more;
    } else {
      PublishIsReceived(m, more, grants, size, v);
    }
  }

  lemma PublishIsReceived(m: Message, more: seq<byte>, grants: seq<nat>, size: nat, v: Variant)
    requires m.Publish? && size >= START && IsMessage(m, size) && Ample(m, grants) && |more| >= Excess(m)
    ensures var g := ReceiveOne(Wire(Bytes(m) + more, grants), size, v);
      g.ret == 0 && g.delivered == Payload(m) && g.wire.rest == more[Excess(m)..]
  {
    var s := Bytes(m) + more;
    StartIsTaken(s, grants);
    PartsOfPublish(m);
    assert s[..2][0] == Bytes(m)[0];
    RestIsReceived(m, more, grants[2..], size, v);
  }

  /** What the tail of a packet adds to the start, be the packet longer than the start or not. */
  lemma BufferHolds(m: Message, more: seq<byte>, size: nat, need: nat, d: seq<byte>)
    requires |Bytes(m)| <= size && START <= size && |more| >= Excess(m) && m.Publish?
    requires var s := Bytes(m) + more;
      START + need <= |s| && d == s[START..][..need] && need == if |Bytes(m)| > START then |Bytes(m)| - START else 0
    ensures var s := Bytes(m) + more;
      && Bytes(m) <= Padded(s[..START] + d, size)
      && s[START..][need..] == more[Excess(m)..]
  {
    var s := Bytes(m) + more;
    TailOfStream(s, START, need);
    PrefixOf(Bytes(m), more, START + need);
    PaddedKeeps(Bytes(m), s[..START + need], size);
  }

  lemma PrefixOf(a: seq<byte>, b: seq<byte>, k: nat)
    requires |a| <= k <= |a + b|
    ensures a <= (a + b)[..k] && (a + b)[k..] == b[k - |a|..]
  {
  }

  lemma PaddedKeeps(a: seq<byte>, s: seq<byte>, n: nat)
    requires a <= s && |s| <= n
    ensures a <= Padded(s, n)
  {
  }

  lemma RestDelivers(start: seq<byte>, w: Wire, size: nat, v: Variant, n: nat, remaining: nat)
    requires |start| == START && size >= START && n <= 4 && Decode(start[1..]) == Field(n, remaining)
    requires remaining + n + 1 <= size && !ReadTail(w, Missing(START, remaining + n + 1)).failed
    ensures var tail := ReadTail(w, Missing(START, remaining + n + 1));
      ReceiveRest(start, w, size, v) == Deliver(Padded(start + tail.data, size), n, remaining, tail.wire)
  {
  }

  lemma TailOfMessage(m: Message, more: seq<byte>, grants: seq<nat>, size: nat) returns (tail: Tail)
    requires m.Publish? && size >= START && |Bytes(m)| <= size && |more| >= Excess(m)
    requires |grants| + START >= |Bytes(m)| && forall i :: 0 <= i < |grants| ==> grants[i] > 0
    ensures var s := Bytes(m) + more; tail == ReadTail(Wire(s[START..], grants), Missing(START, |Bytes(m)|))
    ensures !tail.failed && tail.wire.rest == more[Excess(m)..]
    ensures START + |tail.data| <= size && Bytes(m) <= Padded((Bytes(m) + more)[..START] + tail.data, size)
  {
    var s := Bytes(m) + more;
    var w, need := Wire(s[START..], grants), Missing(START, |Bytes(m)|);
    TailIsTaken(w, need);
    tail := ReadTail(w, need);
    BufferHolds(m, more, size, need, tail.data);
  }

  /** Whatever start of ten bytes the packet has, once its tail is there the payload is delivered. */
  lemma TailIsDelivered(m: Message, start: seq<byte>, w: Wire, size: nat, v: Variant, tail: Tail)
    requires m.Publish? && |start| == START <= size && IsMessage(m, size)
    requires Decode(start[1..]) == Field(|Encoded(Remaining(m))|, Remaining(m)) && |Encoded(Remaining(m))| <= 4
    requires tail == ReadTail(w, Missing(START, |Bytes(m)|)) && !tail.failed
    requires START + |tail.data| <= size && Bytes(m) <= Padded(start + tail.data, size)
    ensures ReceiveRest(start, w, size, v) == Got(0, Some(m.payload), tail.wire)
  {
    PayloadIsDelivered(m, Padded(start + tail.data, size), tail.wire);
    RestDelivers(start, w, size, v, |Encoded(Remaining(m))|, Remaining(m));
  }

  lemma RestIsReceived(m: Message, more: seq<byte>, grants: seq<nat>, size: nat, v: Variant)
    requires m.Publish? && size >= START && IsMessage(m, size) && |more| >= Excess(m)
    requires |grants| + START >= |Bytes(m)| && forall i :: 0 <= i < |grants| ==> grants[i] > 0
    ensures var s := Bytes(m) + more; var g := ReceiveRest(s[..START], Wire(s[START..], grants), size, v);
      g.ret == 0 && g.delivered == Payload(m) && g.wire.rest == more[Excess(m)..]
  {
    var s := Bytes(m) + more;
    LengthIsRead(m, more);
    var tail := TailOfMessage(m, more, grants, size);
    TailIsDelivered(m, s[..START], Wire(s[START..], grants), size, v, tail);
  }

  lemma TailOfStream(s: seq<byte>, a: nat, need: nat)
    requires a + need <= |s|
    ensures s[..a] + s[a..][..need] == s[..a + need] && s[a..][need..] == s[a + need..]
  {
  }

  lemma ShortStreamFails(m: Message, more: seq<byte>, grants: seq<nat>, size: nat, v: Variant)
    requires m.Publish? && size >= START && IsMessage(m, size) && |more| < Excess(m)
    ensures ReceiveOne(Wire(Bytes(m) + more, grants), size, v).ret == -1
  {
    PartsOfPublish(m);
    var w := Wire(Bytes(m) + more, grants);
    var first := Recv(w, HEADER);
    assert |w.rest| < START;
    if |first.data| == HEADER {
      assert first.data[0] == w.rest[0] == Bytes(m)[0];
      assert |w.rest| == |first.data| + |first.wire.rest|;
    }
  }

  /** So a call takes a message whole, and no more, if and only if its packet has at least ten bytes. */
  lemma StaysExactly(m: Message, more: seq<byte>, grants: seq<nat>, size: nat, v: Variant)
    requires m.Publish? && size >= START && IsMessage(m, size) && Ample(m, grants)
    ensures var g := ReceiveOne(Wire(Bytes(m) + more, grants), size, v);
      (g.ret == 0 && g.delivered == Payload(m) && g.wire.rest == more) <==> |Bytes(m)| >= START
  {
    if |more| < Excess(m) {
      ShortStreamFails(m, more, grants, size, v);
    } else {
      MessageIsReceived(m, more, grants, size, v);
    }
  }

  /** A packet of nine bytes takes a byte of the next one with it. */
  lemma NineBytes(more: seq<byte>) returns (m: Message, grants: seq<nat>)
    requires more != []
    ensures IsMessage(m, 16) && Ample(m, grants) && |Bytes(m)| == 9
    ensures var g := ReceiveOne(Wire(Bytes(m) + more, grants), 16, Signed);
      g.ret == 0 && g.delivered == Payload(m) && g.wire.rest == more[1..]
  {
    m, grants := Publish(false, [], [1, 2, 3, 4, 5]), [2, 8];
    Pow128Of4();
    MessageIsReceived(m, more, grants, 16, Signed);
  }

  // ------------------------------------------------------------ the stream

  /** The messages called back with until a call fails, and what is left of the stream. */
  datatype All = All(delivered: seq<seq<byte>>, rest: seq<byte>, ok: bool)

  function ReceiveAll(rest: seq<byte>, calls: seq<seq<nat>>, size: nat, v: Variant): All
    requires size >= START
    decreases |calls|
  {
    if calls == [] then All([], rest, true)
    else
      var g := ReceiveOne(Wire(rest, calls[0]), size, v);
      var now := if g.delivered.Some? then [g.delivered.value] else [];
      if g.ret != 0 then All(now, g.wire.rest, false)
      else var a := ReceiveAll(g.wire.rest, calls[1..], size, v); a.(delivered := now + a.delivered)
  }

  function Stream(ms: seq<Message>): seq<byte> {
    if ms == [] then [] else Bytes(ms[0]) + Stream(ms[1..])
  }

  function Payloads(ms: seq<Message>): seq<seq<byte>> {
    if ms == [] then [] else (if ms[0].Publish? then [ms[0].payload] else []) + Payloads(ms[1..])
  }

  /** What a call can be counted on to take whole. */
  predicate IsRead(m: Message, grants: seq<nat>, size: nat) {
    IsMessage(m, size) && Ample(m, grants) && (m.Publish? ==> |Bytes(m)| >= START)
  }

  /** Over a stream of messages each call takes one and delivers its payload, however the tails are cut. */
  lemma {:induction false} StaysSynchronised(ms: seq<Message>, more: seq<byte>, calls: seq<seq<nat>>, size: nat,
        v: Variant)
    requires size >= START && |calls| == |ms| && forall i :: 0 <= i < |ms| ==> IsRead(ms[i], calls[i], size)
    ensures ReceiveAll(Stream(ms) + more, calls, size, v) == All(Payloads(ms), more, true)
    decreases |ms|
  {
    if ms == [] {
      assert [] + more == more;
    } else {
      var rest := Stream(ms[1..]) + more;
      assert Stream(ms) + more == Bytes(ms[0]) + rest;
      assert IsRead(ms[0], calls[0], size);
      MessageIsReceived(ms[0], rest, calls[0], size, v);
      assert rest[0..] == rest;
      StaysSynchronised(ms[1..], more, calls[1..], size, v);
    }
  }

  // ------------------------------------------------------------ failed reads

  /** The bytes of the stream that a call has taken. */
  ghost function Consumed(w: Wire, w': Wire): seq<byte>
    requires |w'.rest| <= |w.rest|
  {
    w.rest[..|w.rest| - |w'.rest|]
  }

  ghost predicate IsSuffix(b: seq<byte>, s: seq<byte>) { |b| <= |s| && s[|s| - |b|..] == b }

  lemma SuffixOfSuffix(a: seq<byte>, b: seq<byte>, s: seq<byte>)
    requires IsSuffix(a, b) && IsSuffix(b, s)
    ensures IsSuffix(a, s)
  {
  }

  lemma RecvLeavesASuffix(w: Wire, n: nat)
    ensures IsSuffix(Recv(w, n).wire.rest, w.rest)
  {
    Suffix(w.rest, Recv(w, n).data, Recv(w, n).wire.rest);
  }

  lemma ReceiveLeavesASuffix(w: Wire, size: nat, v: Variant)
    requires size >= START
    ensures IsSuffix(ReceiveOne(w, size, v).wire.rest, w.rest)
  {
    var first := Recv(w, HEADER);
    RecvLeavesASuffix(w, HEADER);
    if |first.data| == HEADER && first.data[0] / 16 == 3 {
      var second := Recv(first.wire, KII_PUSH_TOPIC_HEADER_SIZE);
      RecvLeavesASuffix(first.wire, KII_PUSH_TOPIC_HEADER_SIZE);
      SuffixOfSuffix(second.wire.rest, first.wire.rest, w.rest);
      if |second.data| == KII_PUSH_TOPIC_HEADER_SIZE {
        var g := ReceiveRest(first.data + second.data, second.wire, size, v);
        RestLeavesASuffix(first.data + second.data, second.wire, size, v);
        SuffixOfSuffix(g.wire.rest, second.wire.rest, w.rest);
      }
    }
  }

  lemma Suffix(s: seq<byte>, a: seq<byte>, b: seq<byte>)
    requires s == a + b
    ensures |b| <= |s| && s[..|s| - |b|] == a && s[|s| - |b|..] == b
  {
  }

  lemma TailLeavesASuffix(w: Wire, need: nat)
    ensures IsSuffix(ReadTail(w, need).wire.rest, w.rest)
  {
    TailConserves(w, need);
    Suffix(w.rest, ReadTail(w, need).data, ReadTail(w, need).wire.rest);
  }

  lemma RestLeavesASuffix(start: seq<byte>, w: Wire, size: nat, v: Variant)
    requires |start| == START && size >= START
    ensures IsSuffix(ReceiveRest(start, w, size, v).wire.rest, w.rest)
  {
    match Decode(start[1..])
    case Failed =>
    case Field(n, remaining) => TailLeavesASuffix(w, Missing(START, remaining + n + 1));
  }

  /** With the signed counter a message is always made of bytes that have come. */
  lemma SignedDeliversWhatCame(w: Wire, size: nat)
    requires size >= START && ReceiveOne(w, size, Signed).delivered.Some?
    ensures var g := ReceiveOne(w, size, Signed);
      |g.wire.rest| <= |w.rest| && exists i :: StandsAt(Consumed(w, g.wire), i, g.delivered.value)
  {
    ReceiveLeavesASuffix(w, size, Signed);
    var g := ReceiveOne(w, size, Signed);
    var first := Recv(w, HEADER);
    var second := Recv(first.wire, KII_PUSH_TOPIC_HEADER_SIZE);
    var start := first.data + second.data;
    assert w.rest == start + second.wire.rest;
    var field := Decode(start[1..]);
    RestDeliversWhatCame(start, second.wire, size, field.length, field.value);
    var total := field.value + field.length + 1;
    var tail := ReadTail(second.wire, Missing(START, total));
    TailConserves(second.wire, Missing(START, total));
    Reassociate(start, tail.data, tail.wire.rest);
    Suffix(w.rest, start + tail.data, tail.wire.rest);
    assert Consumed(w, g.wire) == start + tail.data;
    var i :| StandsAt(start + tail.data, i, g.delivered.value);
    assert StandsAt(Consumed(w, g.wire), i, g.delivered.value);
  }

  lemma RestDeliversWhatCame(start: seq<byte>, w: Wire, size: nat, n: nat, remaining: nat)
    requires |start| == START && size >= START && Decode(start[1..]) == Field(n, remaining)
    ensures var g, tail := ReceiveRest(start, w, size, Signed), ReadTail(w, Missing(START, remaining + n + 1));
      g.delivered.Some? ==> g.wire == tail.wire && exists i :: StandsAt(start + tail.data, i, g.delivered.value)
  {
    var g, total := ReceiveRest(start, w, size, Signed), remaining + n + 1;
    var tail := ReadTail(w, Missing(START, total));
    if g.delivered.Some? {
      var got := start + tail.data;
      var buffer := Padded(got, size);
      FieldLengthIsField(start[1..], 0);
      var at := 3 + n + Word(buffer[1 + n], buffer[2 + n]);
      assert g == Deliver(buffer, n, remaining, tail.wire);
      assert total <= |got|;
      assert buffer[at..total] == got[at..total];
      assert StandsAt(got, at, g.delivered.value);
    }
  }

  /** What recv_cb will deliver at most, up to its first failure. */
  function Flow(grants: seq<nat>): nat {
    if grants == [] || grants[0] == 0 then 0 else grants[0] + Flow(grants[1..])
  }

  /** The bytes that are needed are not there, or recv_cb fails before it has delivered them. */
  predicate RunsDry(w: Wire, need: nat) { |w.rest| < need || Flow(w.grants) < need }

  lemma {:induction false} TailFailsExactly(w: Wire, need: nat)
    ensures ReadTail(w, need).failed <==> RunsDry(w, need)
    decreases need
  {
    if need > 0 {
      var t := Recv(w, need);
      if t.data != [] { TailFailsExactly(t.wire, need - |t.data|); }
    }
  }

  /** The tail of a packet with a payload does not come to its end. */
  ghost predicate StopsShort(start: seq<byte>, w: Wire, size: nat)
    requires |start| == START && size >= START
  {
    match Decode(start[1..])
    case Failed => false
    case Field(n, remaining) =>
      FieldLengthIsField(start[1..], 0);
      var topic := Word(start[1 + n], start[2 + n]);
      && remaining + n + 1 <= size && remaining - 2 - topic > 0 && remaining + n + 1 > START
      && RunsDry(w, remaining + n + 1 - START)
  }

  /** The start of a packet comes as it is asked for. */
  predicate StartComes(w: Wire) {
    |w.rest| >= START && |w.grants| >= 2 && w.grants[0] >= HEADER && w.grants[1] >= KII_PUSH_TOPIC_HEADER_SIZE
  }

  /** The same of a whole call: the start of a PUBLISH packet comes, and its tail does not. */
  ghost predicate CallStopsShort(w: Wire, size: nat)
    requires size >= START
  {
    && StartComes(w) && w.rest[0] / 16 == 3
    && StopsShort(w.rest[..START], Wire(w.rest[START..], w.grants[2..]), size)
  }

  lemma StartComesExactly(w: Wire)
    ensures var first := Recv(w, HEADER); var second := Recv(first.wire, KII_PUSH_TOPIC_HEADER_SIZE);
      StartComes(w) <==> |first.data| == HEADER && |second.data| == KII_PUSH_TOPIC_HEADER_SIZE
  {
  }

  lemma StartInBuffer(start: seq<byte>, data: seq<byte>, size: nat, n: nat)
    requires |start| == START && n <= 4 && START + |data| <= size
    ensures var buffer := Padded(start + data, size);
      Word(buffer[1 + n], buffer[2 + n]) == Word(start[1 + n], start[2 + n])
  {
  }

  lemma FieldDiffers(start: seq<byte>, w: Wire, size: nat, n: nat, remaining: nat)
    requires |start| == START && size >= START && n <= 4
    requires Decode(start[1..]) == Field(n, remaining) && remaining + n + 1 <= size
    ensures var u, s := ReceiveRest(start, w, size, Unsigned), ReceiveRest(start, w, size, Signed);
      if StopsShort(start, w, size) then u.ret == 0 && u.delivered.Some? && s.ret == -1 && s.delivered.None? else u == s
  {
    var need := Missing(START, remaining + n + 1);
    TailFailsExactly(w, need);
    StartInBuffer(start, ReadTail(w, need).data, size, n);
  }

  lemma RestDiffersExactly(start: seq<byte>, w: Wire, size: nat)
    requires |start| == START && size >= START
    ensures var u, s := ReceiveRest(start, w, size, Unsigned), ReceiveRest(start, w, size, Signed);
      if StopsShort(start, w, size) then u.ret == 0 && u.delivered.Some? && s.ret == -1 && s.delivered.None? else u == s
  {
    match Decode(start[1..])
    case Failed =>
    case Field(n, remaining) =>
      FieldLengthIsField(start[1..], 0);
      if remaining + n + 1 <= size { FieldDiffers(start, w, size, n, remaining); }
  }

  /** The unsigned counter makes a difference exactly then: it calls back all the same, and reports success. */
  lemma VariantsDifferExactly(w: Wire, size: nat)
    requires size >= START
    ensures var u, s := ReceiveOne(w, size, Unsigned), ReceiveOne(w, size, Signed);
      if CallStopsShort(w, size) then u.ret == 0 && u.delivered.Some? && s.ret == -1 && s.delivered.None? else u == s
  {
    StartComesExactly(w);
    if StartComes(w) {
      StartIsTaken(w.rest, w.grants);
      RestDiffersExactly(w.rest[..START], Wire(w.rest[START..], w.grants[2..]), size);
    }
  }

  // ------------------------------------------------------------ what 0 means

  /** The two bytes that every packet starts with come. */
  predicate HeaderComes(w: Wire) { |w.rest| >= HEADER && w.grants != [] && w.grants[0] >= HEADER }

  /** The packet fits the buffer, it has a payload, and its tail comes, or the counter does not tell. */
  ghost predicate IsTaken(start: seq<byte>, w: Wire, size: nat, v: Variant)
    requires |start| == START && size >= START
  {
    match Decode(start[1..])
    case Failed => false
    case Field(n, remaining) =>
      FieldLengthIsField(start[1..], 0);
      && remaining + n + 1 <= size && remaining > 2 + Word(start[1 + n], start[2 + n])
      && (v == Unsigned || !RunsDry(w, Missing(START, remaining + n + 1)))
  }

  lemma FieldSucceeds(start: seq<byte>, w: Wire, size: nat, v: Variant, n: nat, remaining: nat)
    requires |start| == START && size >= START && n <= 4
    requires Decode(start[1..]) == Field(n, remaining) && remaining + n + 1 <= size
    ensures var g := ReceiveRest(start, w, size, v);
      if IsTaken(start, w, size, v) then g.ret == 0 && g.delivered.Some? else g.ret == -1 && g.delivered == None
  {
    var need := Missing(START, remaining + n + 1);
    TailFailsExactly(w, need);
    StartInBuffer(start, ReadTail(w, need).data, size, n);
  }

  lemma RestSucceedsExactly(start: seq<byte>, w: Wire, size: nat, v: Variant)
    requires |start| == START && size >= START
    ensures var g := ReceiveRest(start, w, size, v);
      if IsTaken(start, w, size, v) then g.ret == 0 && g.delivered.Some? else g.ret == -1 && g.delivered == None
  {
    match Decode(start[1..])
    case Failed =>
    case Field(n, remaining) =>
      FieldLengthIsField(start[1..], 0);
      if remaining + n + 1 <= size { FieldSucceeds(start, w, size, v, n, remaining); }
  }

  /** A call returns 0 exactly if two bytes come that start no PUBLISH packet, or such a packet is taken; else -1. */
  lemma SucceedsExactly(w: Wire, size: nat, v: Variant)
    requires size >= START
    ensures var g := ReceiveOne(w, size, v);
      if HeaderComes(w) && w.rest[0] / 16 != 3
      then g.ret == 0 && g.delivered == None && g.wire == Wire(w.rest[2..], w.grants[1..])
      else if StartComes(w) && w.rest[0] / 16 == 3
              && IsTaken(w.rest[..START], Wire(w.rest[START..], w.grants[2..]), size, v)
      then g.ret == 0 && g.delivered.Some?
      else g.ret == -1 && g.delivered == None
  {
    StartComesExactly(w);
    assert HeaderComes(w) <==> |Recv(w, HEADER).data| == HEADER;
    if HeaderComes(w) { assert Recv(w, HEADER).data == w.rest[..2]; }
    if StartComes(w) {
      StartIsTaken(w.rest, w.grants);
      RestSucceedsExactly(w.rest[..START], Wire(w.rest[START..], w.grants[2..]), size, v);
    }
  }

  /** A packet larger than the buffer is refused once its start has come, whatever the rest and the counter. */
  lemma TooLargeFails(m: Message, more: seq<byte>, grants: seq<nat>, size: nat, v: Variant)
    requires m.Publish? && size >= START && Remaining(m) < Pow128(4) && |Bytes(m)| > size
    ensures var w := Wire(Bytes(m) + more, grants); var g := ReceiveOne(w, size, v);
      g.ret == -1 && g.delivered == None && (StartComes(w) ==> g.wire == Wire(w.rest[START..], grants[2..]))
  {
    var w := Wire(Bytes(m) + more, grants);
    SizeOfPublish(m);
    LengthIsRead(m, more);
    SucceedsExactly(w, size, v);
    if StartComes(w) { StartIsTaken(w.rest, w.grants); }
  }

  lemma SizeOfPublish(m: Message)
    requires m.Publish?
    ensures |Bytes(m)| == 1 + |Encoded(Remaining(m))| + Remaining(m) && Bytes(m)[0] / 16 == 3
  {
  }

  lemma NineIsDecoded(s: seq<byte>)
    requires |s| >= 4 && s[0] == 9
    ensures Decode(s) == Field(1, 9)
  {
    assert FieldLength(s, 0) == 1 && s[..1] == [9];
    assert ValueOf([9]) == 9 + 128 * ValueOf([9][1..]);
  }

  /** A packet of eleven bytes but for its last one. */
  const ELEVENTH_MISSING: seq<byte> := [0x30, 9, 0, 0, 1, 2, 3, 4, 5, 6]

  lemma ElevenDecoded()
    ensures Decode(ELEVENTH_MISSING[1..]) == Field(1, 9)
  {
    NineIsDecoded(ELEVENTH_MISSING[1..]);
  }

  lemma ElevenDelivered(w: Wire)
    ensures var buffer := Padded(ELEVENTH_MISSING, 11);
      Deliver(buffer, 1, 9, w) == Got(0, Some([1, 2, 3, 4, 5, 6, 0]), w)
  {
    var buffer := Padded(ELEVENTH_MISSING, 11);
    assert buffer == [0x30, 9, 0, 0, 1, 2, 3, 4, 5, 6, 0];
    assert buffer[4..11] == [1, 2, 3, 4, 5, 6, 0];
  }

  lemma ElevenReceived(v: Variant)
    ensures ReceiveRest(ELEVENTH_MISSING, Wire([], []), 11, v)
            == if v == Unsigned then Got(0, Some([1, 2, 3, 4, 5, 6, 0]), Wire([], [])) else Got(-1, None, Wire([], []))
  {
    ElevenDecoded();
    assert Recv(Wire([], []), 1).data == [];
    assert ReadTail(Wire([], []), 1) == Tail([], true, Wire([], []));
    assert ELEVENTH_MISSING + [] == ELEVENTH_MISSING;
    ElevenDelivered(Wire([], []));
  }

  /** The last byte of this message does not come, and is delivered as a zero by the unsigned counter. */
  lemma LastByteMissing(w: Wire)
    requires w == Wire(ELEVENTH_MISSING, [2, 8])
    ensures ReceiveOne(w, 11, Unsigned).ret == 0 && ReceiveOne(w, 11, Unsigned).delivered == Some([1, 2, 3, 4, 5, 6, 0])
    ensures ReceiveOne(w, 11, Signed).ret == -1 && ReceiveOne(w, 11, Signed).delivered == None
  {
    StartIsTaken(w.rest, w.grants);
    assert w.rest[START..] == [] && w.grants[2..] == [] && w.rest[..START] == w.rest;
    ElevenReceived(Unsigned);
    ElevenReceived(Signed);
  }

  // ------------------------------------------------------------ as it is done

  class Reader {
    const buffer: array<byte>
    const variant: Variant

    constructor (buffer: array<byte>, variant: Variant)
      ensures this.buffer == buffer && this.variant == variant
    {
      this.buffer := buffer;
      this.variant := variant;
    }

    /** recv_cb puts what comes at `at`. */
    method RecvInto(at: nat, n: nat, w: Wire) returns (rcvd: nat, w': Wire)
      requires at + n <= buffer.Length
      modifies buffer
      ensures var t := Recv(w, n); rcvd == |t.data| && w' == t.wire && buffer[..] == Put(old(buffer[..]), at, t.data)
    {
      var t := Recv(w, n);
      forall k | 0 <= k < |t.data| {
        buffer[at + k] := t.data[k];
      }
      return |t.data|, t.wire;
    }

    /** One piece of the tail, behind what is there already. */
    method RecvPiece(at: nat, n: nat, w: Wire, ghost have: seq<byte>)
      returns (rcvd: nat, w': Wire, ghost data: seq<byte>)
      requires at == |have| && n > 0 && at + n <= buffer.Length && buffer[..] == Padded(have, buffer.Length)
      modifies buffer
      ensures rcvd == |data| <= n && buffer[..] == Padded(have + data, buffer.Length)
      ensures rcvd > 0 ==> Whole(have, w, n) == Whole(have + data, w', n - rcvd)
      ensures rcvd == 0 ==> have + data == have && Whole(have, w, n) == Tail(have, true, w')
    {
      data := Recv(w, n).data;
      PutBehind(have, data, buffer.Length);
      if data == [] { TailStops(w, have, n); } else { TailGoesOn(w, have, n, n - |data|); }
      rcvd, w' := RecvInto(at, n, w);
    }

    /** The loop that reads the tail; `bytes` goes to -1 on failure, which is the largest size_t. */
    method RecvTail(bytes0: nat, total: nat, w: Wire, ghost got: seq<byte>) returns (bytes: int, w': Wire)
      requires bytes0 == |got| <= buffer.Length && total <= buffer.Length <= SIZE_MAX
      requires buffer[..] == Padded(got, buffer.Length)
      modifies buffer
      ensures var t := Whole(got, w, Missing(bytes0, total));
        && w' == t.wire && |t.data| <= buffer.Length && buffer[..] == Padded(t.data, buffer.Length)
        && bytes == if t.failed then (if variant == Unsigned then SIZE_MAX else -1) else |t.data|
    {
      bytes, w' := bytes0, w;
      ghost var have, need, all := got, Missing(bytes0, total), Whole(got, w, Missing(bytes0, total));
      while bytes < total
        invariant bytes == |have| <= buffer.Length && need == Missing(bytes, total)
        invariant buffer[..] == Padded(have, buffer.Length)
        invariant all == Whole(have, w', need)
        decreases total - bytes
      {
        var rcvd: nat;
        ghost var data;
        var missing := total - bytes;
        assert all == Whole(have, w', missing);
        rcvd, w', data := RecvPiece(bytes, missing, w', have);
        if rcvd > 0 {
          have, need := have + data, missing - rcvd;
          bytes := bytes + rcvd;
        } else {
          bytes := if variant == Unsigned then SIZE_MAX else -1;
          return bytes, w';
        }
      }
      TailEnds(w', have);
    }

    /** kiiPush_receivePushNotification; `delivered` is what the callback is called with. */
    method ReceivePushNotification(w: Wire) returns (ret: int, delivered: Option<seq<byte>>, w': Wire)
      requires START <= buffer.Length <= SIZE_MAX
      modifies buffer
      ensures Got(ret, delivered, w') == ReceiveOne(w, buffer.Length, variant)
    {
      delivered, w' := None, w;
      forall k | 0 <= k < buffer.Length {
        buffer[k] := 0;
      }
      ghost var n := buffer.Length;
      assert buffer[..] == Padded([], n);
      ghost var first := Recv(w, HEADER);
      var rcvd: nat;
      rcvd, w' := RecvInto(0, HEADER, w');
      if rcvd == HEADER {
        PutBehind([], first.data, n);
        assert [] + first.data == first.data;
        assert buffer[0] == first.data[0];
        if buffer[0] / 16 == 3 {
          ghost var second := Recv(w', KII_PUSH_TOPIC_HEADER_SIZE);
          rcvd, w' := RecvInto(HEADER, KII_PUSH_TOPIC_HEADER_SIZE, w');
          if rcvd != KII_PUSH_TOPIC_HEADER_SIZE {
            return -1, None, w';
          }
          PutBehind(first.data, second.data, n);
          ret, delivered, w' := ReceivePublish(w', first.data + second.data);
          return ret, delivered, w';
        }
        return 0, None, w';
      } else {
        return -1, None, w';
      }
    }

    method ReceivePublish(w: Wire, ghost start: seq<byte>) returns (ret: int, delivered: Option<seq<byte>>, w': Wire)
      requires |start| == START <= buffer.Length <= SIZE_MAX && buffer[..] == Padded(start, buffer.Length)
      modifies buffer
      ensures Got(ret, delivered, w') == ReceiveRest(start, w, buffer.Length, variant)
    {
      DecodeStart(buffer[1..], start[1..]);
      assert buffer[1..][..9] == start[1..];
      var byteLen, remainingLen := DecodeAt(buffer, 1);
      if byteLen <= 0 {
        return -1, None, w;
      }
      var totalLen := remainingLen + byteLen + 1;
      if totalLen > buffer.Length {
        return -1, None, w;
      }
      FieldLengthIsField(start[1..], 0);
      var bytes;
      bytes, w' := RecvTail(START, totalLen, w, start);
      if bytes >= totalLen {
        ret, delivered := CallBack(byteLen, remainingLen, w');
        return ret, delivered, w';
      } else {
        return -1, None, w';
      }
    }

    method CallBack(byteLen: nat, remainingLen: nat, ghost w: Wire) returns (ret: int, delivered: Option<seq<byte>>)
      requires byteLen <= 4 && START <= buffer.Length && byteLen + 1 + remainingLen <= buffer.Length
      ensures Got(ret, delivered, w) == Deliver(buffer[..], byteLen, remainingLen, w)
    {
      ghost var b := buffer[..];
      var topicLen := Word(buffer[1 + byteLen], buffer[2 + byteLen]);
      if remainingLen - 2 - topicLen > 0 {
        var from, to := 3 + byteLen + topicLen, 1 + byteLen + remainingLen;
        assert buffer[from..to] == b[from..to];
        return 0, Some(buffer[from..to]);
      } else {
        return -1, None;
      }
    }
  }

  /** How much of `total` bytes is still to come after `bytes`. */
  function Missing(bytes: nat, total: nat): nat { if total > bytes then total - bytes else 0 }

  lemma PutBehind(a: seq<byte>, d: seq<byte>, n: nat)
    requires |a| + |d| <= n
    ensures Put(Padded(a, n), |a|, d) == Padded(a + d, n)
  {
  }

  lemma ExtendedTwice(a: seq<byte>, d: seq<byte>, r: Tail)
    ensures Extended(a, Extended(d, r)) == Extended(a + d, r)
  {
    Reassociate(a, d, r.data);
  }

  lemma TailUnfolds(w: Wire, need: nat, left: nat)
    requires need > 0 && Recv(w, need).data != [] && left == need - |Recv(w, need).data|
    ensures ReadTail(w, need) == Extended(Recv(w, need).data, ReadTail(Recv(w, need).wire, left))
  {
  }

  /** A piece of the tail moves from what is to come to what is there. */
  lemma TailGoesOn(w: Wire, have: seq<byte>, need: nat, left: nat)
    requires need > 0 && Recv(w, need).data != [] && left == need - |Recv(w, need).data|
    ensures Whole(have, w, need) == Whole(have + Recv(w, need).data, Recv(w, need).wire, left)
  {
    TailUnfolds(w, need, left);
    ExtendedTwice(have, Recv(w, need).data, ReadTail(Recv(w, need).wire, left));
  }

  lemma TailStops(w: Wire, have: seq<byte>, need: nat)
    requires need > 0 && Recv(w, need).data == []
    ensures Whole(have, w, need) == Tail(have, true, Recv(w, need).wire)
  {
    assert have + [] == have;
  }

  lemma TailEnds(w: Wire, have: seq<byte>)
    ensures Whole(have, w, 0) == Tail(have, false, w)
  {
    assert have + [] == have;
  }

  lemma Reassociate(a: seq<byte>, b: seq<byte>, c: seq<byte>)
    ensures a + (b + c) == a + b + c
  {
  }

  /** Decoding looks at four bytes only. */
  lemma {:induction false} SameField(s: seq<byte>, t: seq<byte>, i: nat)
    requires |s| >= 4 && |t| >= 4 && s[..4] == t[..4] && i <= 4
    ensures FieldLength(s, i) == FieldLength(t, i)
    decreases 4 - i
  {
    if i < 4 {
      assert s[..4][i] == t[..4][i];
      SameField(s, t, i + 1);
    }
  }

  lemma DecodeStart(s: seq<byte>, t: seq<byte>)
    requires |s| >= 9 && |t| == 9 && s[..9] == t
    ensures Decode(s) == Decode(t) && FieldLength(s, 0) == FieldLength(t, 0)
  {
    assert s[..4] == s[..9][..4] == t[..4];
    SameField(s, t, 0);
    FieldLengthIsField(t, 0);
    var n := FieldLength(t, 0);
    if n != -1 { assert s[..n] == s[..9][..n] == t[..n]; }
  }
}
