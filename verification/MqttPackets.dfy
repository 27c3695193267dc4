/**
 * The packets of the MQTT 3.1 client in kii_mqtt.c: CONNECT and SUBSCRIBE,
 * assembled in place, and the replies that are accepted. A C string is the
 * sequence of its bytes without the NUL.
 */
module MqttPackets {
  import opened Memory
  import opened MqttCodec

  datatype Endpoint = Endpoint(topic: seq<byte>, username: seq<byte>, password: seq<byte>, host: seq<byte>)

  datatype QoS = QOS0 | QOS1 | QOS2

  function QoSByte(q: QoS): byte { match q case QOS0 => 0 case QOS1 => 1 case QOS2 => 2 }

  // ------------------------------------------------------------ the packets

  const CONNECT: byte := 0x10
  const SUBSCRIBE: byte := 0x82

  /** The room kept at the start of the buffer for the fixed header. */
  const RESERVED := 8

  /** Two bytes, the higher first. */
  function Number16(n: nat): (s: seq<byte>)
    ensures |s| == 2
  {
    [n / 256 % 256, n % 256]
  }

  /** A string with its length before it. */
  function Text(t: seq<byte>): seq<byte> { Number16(|t|) + t }

  /** Protocol name `MQIsdp`, level 3, and the flags for a user name, a password and a clean session. */
  const PROTOCOL: seq<byte> := [0x00, 0x06, 77, 81, 73, 115, 100, 112, 0x03, 0xc2]

  function ConnectBody(e: Endpoint, keepAlive: nat): seq<byte> {
    PROTOCOL + (Number16(keepAlive) + (Text(e.topic) + (Text(e.username) + Text(e.password))))
  }

  function SubscribeBody(topic: seq<byte>, qos: QoS): seq<byte> {
    [0x00, 0x01] + (Text(topic) + [QoSByte(qos)])
  }

  /** Fixed header and body. */
  function Packet(kind: byte, body: seq<byte>): seq<byte> { [kind] + (Encoded(|body|) + body) }

  /** What two bytes of length can tell. */
  predicate IsShort(t: seq<byte>) { |t| < 65536 }

  predicate IsShortEndpoint(e: Endpoint) { IsShort(e.topic) && IsShort(e.username) && IsShort(e.password) }

  // --------------------------------------------- reading a packet by the book

  datatype Read<T> = Read(value: T, rest: seq<byte>)

  function Word(high: byte, low: byte): nat { 256 * (high as int) + low }

  function ReadText(s: seq<byte>): Option<Read<seq<byte>>> {
    if |s| < 2 || |s| < 2 + Word(s[0], s[1]) then None
    else Some(Read(s[2..2 + Word(s[0], s[1])], s[2 + Word(s[0], s[1])..]))
  }

  /** The body of a packet of this type and flags, of exactly the length its header tells. */
  function ReadPacket(s: seq<byte>, typ: nat, flags: nat): Option<seq<byte>> {
    if s == [] || s[0] / 16 != typ || s[0] % 16 != flags || !Ends(s[1..], 0) then None
    else match Decode(s[1..])
      case Failed => None
      case Field(n, value) =>
        FieldLengthIsField(s[1..], 0);
        if |s| == 1 + n + value then Some(s[1 + n..]) else None
  }

  /** A CONNECT packet without a will, as section 3.1 has it. */
  datatype Connect = Connect(protocol: seq<byte>, level: nat, cleanSession: bool, keepAlive: nat, client: seq<byte>,
                             username: Option<seq<byte>>, password: Option<seq<byte>>)

  function ReadConnect(s: seq<byte>): Option<Connect> {
    match ReadPacket(s, 1, 0)
    case None => None
    case Some(b) => ReadConnectBody(b)
  }

  function ReadConnectBody(b: seq<byte>): Option<Connect> {
    match ReadText(b)
    case None => None
    case Some(name) =>
      if |name.rest| < 4 then None
      else ReadFlags(name.value, name.rest[0], name.rest[1], Word(name.rest[2], name.rest[3]), name.rest[4..])
  }

  /** Bit 0 of the flags is reserved; bits 2 to 5 are about a will. */
  function ReadFlags(name: seq<byte>, level: nat, flags: nat, keepAlive: nat, s: seq<byte>): Option<Connect> {
    if flags % 2 != 0 || flags / 4 % 16 != 0 then None
    else match ReadStrings(flags / 128 % 2 == 1, flags / 64 % 2 == 1, s)
      case None => None
      case Some(t) => Some(Connect(name, level, flags / 2 % 2 == 1, keepAlive, t.client, t.username, t.password))
  }

  datatype Strings = Strings(client: seq<byte>, username: Option<seq<byte>>, password: Option<seq<byte>>)

  function ReadStrings(withUser: bool, withPassword: bool, s: seq<byte>): Option<Strings> {
    match ReadText(s)
    case None => None
    case Some(client) => match ReadIf(withUser, client.rest)
      case None => None
      case Some(user) => match ReadIf(withPassword, user.rest)
        case None => None
        case Some(password) =>
          if password.rest == [] then Some(Strings(client.value, user.value, password.value)) else None
  }

  /** A string that is there if its flag is set. */
  function ReadIf(there: bool, s: seq<byte>): Option<Read<Option<seq<byte>>>> {
    if !there then Some(Read(None, s))
    else match ReadText(s)
      case None => None
      case Some(t) => Some(Read(Some(t.value), t.rest))
  }

  datatype Subscribe = Subscribe(id: nat, topic: seq<byte>, qos: byte)

  function ReadSubscribe(s: seq<byte>): Option<Subscribe> {
    match ReadPacket(s, 8, 2)
    case None => None
    case Some(b) => ReadSubscribeBody(b)
  }

  function ReadSubscribeBody(b: seq<byte>): Option<Subscribe> {
    if |b| < 2 then None
    else match ReadText(b[2..])
      case None => None
      case Some(t) => if |t.rest| == 1 then Some(Subscribe(Word(b[0], b[1]), t.value, t.rest[0])) else None
  }

  /** The acknowledgements of CONNECT and SUBSCRIBE; a return code of 0 accepts. */
  datatype Ack = Connack(session: bool, code: nat) | Suback(id: nat, code: nat)

  function ReadConnack(s: seq<byte>): Option<Ack> {
    match ReadPacket(s, 2, 0)
    case None => None
    case Some(b) => if |b| == 2 && b[0] <= 1 then Some(Connack(b[0] == 1, b[1])) else None
  }

  function ReadSuback(s: seq<byte>): Option<Ack> {
    match ReadPacket(s, 9, 0)
    case None => None
    case Some(b) => if |b| == 3 then Some(Suback(Word(b[0], b[1]), b[2])) else None
  }

  lemma TextIsRead(t: seq<byte>, rest: seq<byte>)
    requires IsShort(t)
    ensures ReadText(Text(t) + rest) == Some(Read(t, rest))
  {
    var s := Text(t) + rest;
    assert s[0] == |t| / 256 && s[1] == |t| % 256 && Word(s[0], s[1]) == |t|;
    assert s[2..] == t + rest;
  }

  lemma PacketIsRead(kind: byte, body: seq<byte>)
    requires |body| < Pow128(4)
    ensures ReadPacket(Packet(kind, body), (kind / 16) as int, (kind % 16) as int) == Some(body)
  {
    var s := Packet(kind, body);
    RoundTrip(|body|, body);
    assert s[1..] == Encoded(|body|) + body;
    assert s[1 + |Encoded(|body|)|..] == body;
  }

  lemma Pow128Of4()
    ensures Pow128(4) == 268435456
  {
    assert Pow128(1) == 128 * Pow128(0) && Pow128(2) == 128 * Pow128(1) && Pow128(3) == 128 * Pow128(2);
  }

  /** Name and level of the protocol: `MQIsdp`, 3. */
  const NAME: seq<byte> := [77, 81, 73, 115, 100, 112]

  lemma StringsAreRead(e: Endpoint)
    requires IsShortEndpoint(e)
    ensures ReadStrings(true, true, Text(e.topic) + (Text(e.username) + Text(e.password)))
            == Some(Strings(e.topic, Some(e.username), Some(e.password)))
  {
    TextIsRead(e.topic, Text(e.username) + Text(e.password));
    TextIsRead(e.username, Text(e.password));
    TextIsRead(e.password, []);
    assert Text(e.password) + [] == Text(e.password);
  }

  lemma FlagsAreRead(e: Endpoint, keepAlive: nat, s: seq<byte>)
    requires ReadStrings(true, true, s) == Some(Strings(e.topic, Some(e.username), Some(e.password)))
    ensures ReadFlags(NAME, 3, 0xc2, keepAlive, s)
            == Some(Connect(NAME, 3, true, keepAlive, e.topic, Some(e.username), Some(e.password)))
  {
    assert 0xc2 / 128 % 2 == 1 && 0xc2 / 64 % 2 == 1 && 0xc2 / 2 % 2 == 1 && 0xc2 / 4 % 16 == 0;
  }

  lemma PartsOfConnect(n: seq<byte>, rest: seq<byte>)
    requires |n| == 2
    ensures ReadText(PROTOCOL + (n + rest)) == Some(Read(NAME, [3, 0xc2] + (n + rest)))
    ensures var b := [3, 0xc2] + (n + rest); b[0] == 3 && b[1] == 0xc2 && b[2] == n[0] && b[3] == n[1] && b[4..] == rest
  {
    var b := PROTOCOL + (n + rest);
    assert b[0] == 0 && b[1] == 6 && b[2..8] == NAME && b[8..] == [3, 0xc2] + (n + rest);
  }

  lemma ConnectBodyIsRead(e: Endpoint, keepAlive: nat)
    requires IsShortEndpoint(e) && keepAlive < 65536
    ensures ReadConnectBody(ConnectBody(e, keepAlive))
            == Some(Connect(NAME, 3, true, keepAlive, e.topic, Some(e.username), Some(e.password)))
  {
    var strings := Text(e.topic) + (Text(e.username) + Text(e.password));
    PartsOfConnect(Number16(keepAlive), strings);
    assert Word(Number16(keepAlive)[0], Number16(keepAlive)[1]) == keepAlive;
    StringsAreRead(e);
    FlagsAreRead(e, keepAlive, strings);
  }

  lemma ConnectIsShort(e: Endpoint, keepAlive: nat)
    requires IsShortEndpoint(e)
    ensures |ConnectBody(e, keepAlive)| < Pow128(4)
  {
    Pow128Of4();
  }

  /** A reader of the standard finds in a CONNECT packet what went into it. */
  lemma ConnectRoundTrip(e: Endpoint, keepAlive: nat)
    requires IsShortEndpoint(e) && keepAlive < 65536
    ensures ReadConnect(Packet(CONNECT, ConnectBody(e, keepAlive)))
            == Some(Connect(NAME, 3, true, keepAlive, e.topic, Some(e.username), Some(e.password)))
  {
    ConnectIsShort(e, keepAlive);
    PacketIsRead(CONNECT, ConnectBody(e, keepAlive));
    ConnectBodyIsRead(e, keepAlive);
  }

  lemma SubscribeBodyIsRead(topic: seq<byte>, qos: QoS)
    requires IsShort(topic)
    ensures ReadSubscribeBody(SubscribeBody(topic, qos)) == Some(Subscribe(1, topic, QoSByte(qos)))
  {
    var b := SubscribeBody(topic, qos);
    assert b[0] == 0 && b[1] == 1 && b[2..] == Text(topic) + [QoSByte(qos)];
    TextIsRead(topic, [QoSByte(qos)]);
  }

  lemma SubscribeIsShort(topic: seq<byte>, qos: QoS)
    requires IsShort(topic)
    ensures |SubscribeBody(topic, qos)| < Pow128(4)
  {
    Pow128Of4();
  }

  /** And in a SUBSCRIBE packet, with the number of the quality of service. */
  lemma SubscribeRoundTrip(topic: seq<byte>, qos: QoS)
    requires IsShort(topic)
    ensures ReadSubscribe(Packet(SUBSCRIBE, SubscribeBody(topic, qos)))
            == Some(Subscribe(1, topic, if qos == QOS0 then 0 else if qos == QOS1 then 1 else 2))
  {
    SubscribeIsShort(topic, qos);
    PacketIsRead(SUBSCRIBE, SubscribeBody(topic, qos));
    SubscribeBodyIsRead(topic, qos);
  }

  // --------------------------------------------------------- room in the buffer

  predicate ConnectFits(e: Endpoint, size: nat) {
    size >= 27 + |e.topic| + |e.username| + |e.password|
  }

  predicate SubscribeFits(topic: seq<byte>, size: nat) { size >= 14 + |topic| }

  /** The check for CONNECT is the least that keeps the last byte written, the NUL of the password, inside. */
  lemma ConnectRoomIsExact(e: Endpoint, keepAlive: nat, size: nat)
    ensures ConnectFits(e, size) <==> RESERVED + |ConnectBody(e, keepAlive)| < size
  {
  }

  /** For SUBSCRIBE, whose last byte takes the place of the NUL, it asks for one byte more than is written. */
  lemma SubscribeRoomIsOneMore(topic: seq<byte>, qos: QoS, size: nat)
    ensures SubscribeFits(topic, size) <==> RESERVED + |SubscribeBody(topic, qos)| + 1 <= size
  {
  }

  /** The fixed header stays before the reserved room's end, so that the body moves down. */
  lemma HeaderFits(n: nat)
    requires n < Pow128(4)
    ensures 1 + |Encoded(n)| < RESERVED
  {
    EncodedLength(n, 4);
  }

  lemma Regroup(a: seq<byte>, x: byte, y: byte, t: seq<byte>, u: seq<byte>, v: seq<byte>)
    ensures [] + a + [x] + [y] + t + u + v == a + ([x, y] + (t + (u + v)))
  {
  }

  // ------------------------------------------------------------ the assembly

  /** What the socket callbacks answer: None is anything but KII_SOCKETC_OK. */
  datatype Network = Network(closed: bool, connected: bool, sent: bool, reply: Option<seq<byte>>)

  const CONNACK: seq<byte> := [0x20, 0x02, 0x00, 0x00]
  const SUBACK: seq<byte> := [0x90, 0x03, 0x00, 0x01]

  /** The length of the body in one byte. */
  lemma LengthInOneByte(s: seq<byte>)
    requires s != [] && s[0] < 128
    ensures Ends(s, 0) && Decode(s) == Field(1, s[0] as int)
  {
    assert s[..1] == [s[0]] && ValueOf([s[0]]) == s[0] as int + 128 * ValueOf([s[0]][1..]);
  }

  lemma ShortAck(s: seq<byte>, typ: nat)
    requires |s| == 4 || |s| == 5
    ensures s[1] < 128 ==>
      ReadPacket(s, typ, 0)
      == if s[0] / 16 == typ && s[0] % 16 == 0 && s[1] as int == |s| - 2 then Some(s[2..]) else None
    ensures s[1] >= 128 ==> (ReadPacket(s, typ, 0).Some? ==> |ReadPacket(s, typ, 0).value| < |s| - 2)
  {
    if s[1] < 128 { LengthInOneByte(s[1..]); assert s[1..][0] == s[1] && s[1 + 1..] == s[2..]; }
    else if Ends(s[1..], 0) { FieldLengthIsField(s[1..], 0); assert s[1..][0] == s[1]; }
  }

  /** The reply the code takes for an acceptance is the CONNACK that accepts, of a session that is new. */
  lemma ConnackIsRead(s: seq<byte>)
    requires |s| == 4
    ensures s == CONNACK <==> ReadConnack(s) == Some(Connack(false, 0))
  {
    ShortAck(s, 2);
    FourBytes(s, CONNACK);
    assert s[..4] == s;
  }

  /** And any SUBACK of five bytes for packet 1, whatever its return code. */
  lemma SubackIsRead(s: seq<byte>)
    requires |s| == 5
    ensures s[..4] == SUBACK <==> ReadSuback(s).Some? && ReadSuback(s).value.id == 1
  {
    ShortAck(s, 9);
    FourBytes(s, SUBACK);
  }

  lemma FourBytes(s: seq<byte>, ack: seq<byte>)
    requires |s| >= 4 && |ack| == 4
    ensures s[..4] == ack <==> s[0] == ack[0] && s[1] == ack[1] && s[2] == ack[2] && s[3] == ack[3]
  {
    if s[0] == ack[0] && s[1] == ack[1] && s[2] == ack[2] && s[3] == ack[3] {
      assert forall k :: 0 <= k < 4 ==> s[..4][k] == ack[k];
    } else {
      assert forall k :: 0 <= k < 4 ==> s[..4][k] == s[k];
    }
  }

  class Mqtt {
    const buffer: array<byte>
    var socket: int

    constructor (buffer: array<byte>, socket: int)
      ensures this.buffer == buffer && this.socket == socket
    {
      this.buffer := buffer;
      this.socket := socket;
    }

    /** `body` is in the buffer from the end of the reserved room up to `i`. */
    ghost predicate Assembled(i: nat, body: seq<byte>)
      reads buffer
    {
      i == RESERVED + |body| <= buffer.Length && buffer[RESERVED..i] == body
    }

    method Memset()
      modifies buffer
      ensures forall k :: 0 <= k < buffer.Length ==> buffer[k] == 0
    {
      forall k | 0 <= k < buffer.Length {
        buffer[k] := 0;
      }
    }

    method AddByte(i: nat, b: byte, ghost body: seq<byte>) returns (i': nat)
      requires Assembled(i, body) && i < buffer.Length
      modifies buffer
      ensures Assembled(i', body + [b])
    {
      buffer[i] := b;
      assert buffer[RESERVED..i] == body;
      i' := i + 1;
      assert buffer[RESERVED..i'] == buffer[RESERVED..i] + [b];
    }

    /** strcpy, with the NUL behind the string, which is the last byte it writes. */
    method AddString(i: nat, t: seq<byte>, ghost body: seq<byte>) returns (i': nat)
      requires Assembled(i, body) && i + |t| < buffer.Length
      modifies buffer
      ensures Assembled(i', body + t) && i' == i + |t| && buffer[i'] == 0
      ensures forall k :: i' < k < buffer.Length ==> buffer[k] == old(buffer[k])
    {
      forall k | 0 <= k <= |t| {
        buffer[i + k] := if k < |t| then t[k] else 0;
      }
      i' := i + |t|;
      assert buffer[RESERVED..i] == body;
      assert buffer[i..i'] == t;
      assert buffer[RESERVED..i'] == buffer[RESERVED..i] + buffer[i..i'];
    }

    /** A string with its length before it. */
    method AddText(i: nat, t: seq<byte>, ghost body: seq<byte>) returns (i': nat, ghost nul: nat)
      requires Assembled(i, body) && i + 2 + |t| < buffer.Length
      modifies buffer
      ensures Assembled(i', body + Text(t)) && nul == i' < buffer.Length && buffer[nul] == 0
    {
      i' := AddByte(i, |t| / 256 % 256, body);
      i' := AddByte(i', |t| % 256, body + [|t| / 256 % 256]);
      assert body + [|t| / 256 % 256] + [|t| % 256] == body + Number16(|t|);
      i' := AddString(i', t, body + Number16(|t|));
      nul := i';
      assert body + Number16(|t|) + t == body + Text(t);
    }

    method AddBytes(i: nat, bytes: seq<byte>, ghost body: seq<byte>) returns (i': nat)
      requires Assembled(i, body) && i + |bytes| <= buffer.Length
      modifies buffer
      ensures Assembled(i', body + bytes)
    {
      i' := i;
      var k := 0;
      while k < |bytes|
        invariant 0 <= k <= |bytes| && Assembled(i', body + bytes[..k])
      {
        i' := AddByte(i', bytes[k], body + bytes[..k]);
        assert body + bytes[..k] + [bytes[k]] == body + bytes[..k + 1];
        k := k + 1;
      }
      assert bytes[..k] == bytes;
    }

    /** The fixed header, and the body copied down behind it over itself. */
    method Finish(kind: byte, i: nat, ghost body: seq<byte>) returns (j: nat)
      requires Assembled(i, body) && |body| < Pow128(4)
      modifies buffer
      ensures j == |Packet(kind, body)| <= buffer.Length && buffer[..j] == Packet(kind, body)
    {
      ghost var head := [kind] + Encoded(|body|);
      HeaderFits(|body|);
      buffer[0] := kind;
      var n := Encode(buffer, 1, i - RESERVED);
      assert buffer[..1 + n] == head;
      assert buffer[RESERVED..i] == body;
      j := CopyDown(1 + n, i, head, body);
      assert head + body == Packet(kind, body);
    }

    method CopyDown(at: nat, i: nat, ghost head: seq<byte>, ghost body: seq<byte>) returns (j: nat)
      requires Assembled(i, body) && at == |head| < RESERVED && buffer[..at] == head
      modifies buffer
      ensures j == |head + body| && buffer[..j] == head + body
    {
      j := at;
      var k := 0;
      while k < i - RESERVED
        invariant 0 <= k <= |body| && j == at + k
        invariant buffer[..at] == head
        invariant forall m :: 0 <= m < k ==> buffer[at + m] == body[m]
        invariant forall m :: k <= m < |body| ==> buffer[RESERVED + m] == body[m]
      {
        buffer[j] := buffer[RESERVED + k];
        j := j + 1;
        k := k + 1;
      }
    }

    /** `last` is the index of the last byte written: the NUL behind the password. */
    method AssembleConnect(e: Endpoint, keepAlive: nat) returns (j: nat, ghost last: nat)
      requires IsShortEndpoint(e) && keepAlive < 65536 && ConnectFits(e, buffer.Length)
      modifies buffer
      ensures j == |Packet(CONNECT, ConnectBody(e, keepAlive))| <= buffer.Length
      ensures buffer[..j] == Packet(CONNECT, ConnectBody(e, keepAlive))
      ensures last == RESERVED + |ConnectBody(e, keepAlive)| == 26 + |e.topic| + |e.username| + |e.password|
    {
      Memset();
      var i := RESERVED;
      i := AddBytes(i, PROTOCOL, []);
      i := AddByte(i, keepAlive / 256 % 256, [] + PROTOCOL);
      i := AddByte(i, keepAlive % 256, [] + PROTOCOL + [keepAlive / 256 % 256]);
      ghost var high: byte, low: byte := keepAlive / 256 % 256, keepAlive % 256;
      ghost var b := [] + PROTOCOL + [high] + [low];
      i, last := AddText(i, e.topic, b);
      i, last := AddText(i, e.username, b + Text(e.topic));
      i, last := AddText(i, e.password, b + Text(e.topic) + Text(e.username));
      Regroup(PROTOCOL, high, low, Text(e.topic), Text(e.username), Text(e.password));
      Pow128Of4();
      j := Finish(CONNECT, i, ConnectBody(e, keepAlive));
    }

    method AssembleSubscribe(topic: seq<byte>, qos: QoS) returns (j: nat)
      requires IsShort(topic) && SubscribeFits(topic, buffer.Length)
      modifies buffer
      ensures j == |Packet(SUBSCRIBE, SubscribeBody(topic, qos))| <= buffer.Length
      ensures buffer[..j] == Packet(SUBSCRIBE, SubscribeBody(topic, qos))
    {
      Memset();
      var i := RESERVED;
      i := AddByte(i, 0x00, []);
      i := AddByte(i, 0x01, [] + [0x00]);
      ghost var nul;
      i, nul := AddText(i, topic, [] + [0x00] + [0x01]);
      i := AddByte(i, QoSByte(qos), [] + [0x00] + [0x01] + Text(topic));
      assert [] + [0x00] + [0x01] + Text(topic) + [QoSByte(qos)] == SubscribeBody(topic, qos);
      Pow128Of4();
      j := Finish(SUBSCRIBE, i, SubscribeBody(topic, qos));
    }

    /** recv_cb puts the reply at the start of the buffer. */
    method Receive(reply: seq<byte>)
      requires |reply| <= buffer.Length
      modifies buffer
      ensures buffer[..|reply|] == reply
    {
      Memset();
      forall k | 0 <= k < |reply| {
        buffer[k] := reply[k];
      }
    }

    // -------------------------------------------------------- the exchanges

    /** kiiMQTT_connect; `sent` is what goes to send_cb. */
    method Connect(e: Endpoint, keepAlive: nat, net: Network) returns (ret: int, ghost sent: Option<seq<byte>>)
      requires IsShortEndpoint(e) && keepAlive < 65536
      requires net.reply.Some? ==> |net.reply.value| <= buffer.Length
      modifies buffer
      ensures sent == if (socket > 0 ==> net.closed) && net.connected && ConnectFits(e, buffer.Length)
                      then Some(Packet(CONNECT, ConnectBody(e, keepAlive))) else None
      ensures ret == if sent.Some? && net.sent && net.reply.Some? && |net.reply.value| == 4
                        && ReadConnack(net.reply.value) == Some(Connack(false, 0))
                     then 0 else -1
    {
      sent := None;
      if socket > 0 {
        if !net.closed {
          return -1, sent;
        }
      }
      if !net.connected {
        return -1, sent;
      }
      if buffer.Length == 0 {
        return -1, sent;
      }
      if buffer.Length < 27 + |e.topic| + |e.username| + |e.password| {
        return -1, sent;
      }
      ghost var last;
      var j;
      j, last := AssembleConnect(e, keepAlive);
      sent := Some(buffer[..j]);
      if !net.sent {
        return -1, sent;
      }
      if net.reply.None? {
        return -1, sent;
      }
      Receive(net.reply.value);
      var actualLength := |net.reply.value|;
      if actualLength == 4 { FourBytes(buffer[..4], CONNACK); ConnackIsRead(buffer[..4]); }
      if actualLength == 4 && buffer[0] == 0x20 && buffer[1] == 0x02 && buffer[2] == 0x00 && buffer[3] == 0x00 {
        return 0, sent;
      } else {
        return -1, sent;
      }
    }

    /** kiiMQTT_subscribe. */
    method Subscribe(topic: seq<byte>, qos: QoS, net: Network) returns (ret: int, ghost sent: Option<seq<byte>>)
      requires IsShort(topic)
      requires net.reply.Some? ==> |net.reply.value| <= buffer.Length
      modifies buffer
      ensures sent.Some? == SubscribeFits(topic, buffer.Length)
      ensures sent.Some? ==> sent.value == Packet(SUBSCRIBE, SubscribeBody(topic, qos))
      ensures ret == if sent.Some? && net.sent && net.reply.Some? && |net.reply.value| == 5
                        && ReadSuback(net.reply.value).Some? && ReadSuback(net.reply.value).value.id == 1
                     then 0 else -1
    {
      sent := None;
      if buffer.Length == 0 {
        return -1, sent;
      }
      if buffer.Length < 14 + |topic| {
        return -1, sent;
      }
      var j := AssembleSubscribe(topic, qos);
      sent := Some(buffer[..j]);
      if !net.sent {
        return -1, sent;
      }
      if net.reply.None? {
        return -1, sent;
      }
      Receive(net.reply.value);
      var actualLength := |net.reply.value|;
      if actualLength == 5 { FourBytes(buffer[..5], SUBACK); SubackIsRead(buffer[..5]); }
      if actualLength == 5 && buffer[0] == 0x90 && buffer[1] == 0x03 && buffer[2] == 0x00 && buffer[3] == 0x01 {
        return 0, sent;
      } else {
        return -1, sent;
      }
    }
  }
}
