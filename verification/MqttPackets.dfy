/** Bodies of MQTT packets: the size computed beforehand, the bytes written, the fields read back. */
module MqttPackets {
  import opened Bytes
  import opened Wrappers

  const PROTOCOL_NAME: seq<byte> := [77, 81, 84, 84]  // "MQTT"
  const PROTOCOL_LEVEL: byte := 4
  const LIMIT := 65536

  // ---------------------------------------------------------------- writers

  /** `mqtt_put_data`: the length parameter is an `unsigned short`. */
  function PutData(data: seq<byte>): seq<byte> {
    data[..|data| % LIMIT]
  }

  function PutString(str: seq<byte>): seq<byte> {
    Short(|str|) + PutData(str)
  }

  function EvalPublish(qos: nat, topic: seq<byte>, payloadLen: nat): nat {
    2 + |topic| + (if qos > 0 then 2 else 0) + payloadLen
  }

  function FormatPublish(qos: nat, id: nat, topic: seq<byte>, payload: seq<byte>): seq<byte> {
    PutString(topic) + ((if qos > 0 then Short(id) else []) + PutData(payload))
  }

  function EvalSubscribe(topic: seq<byte>): nat {
    2 + (2 + |topic|) + 1
  }

  function FormatSubscribe(id: nat, topic: seq<byte>, qos: byte): seq<byte> {
    Short(id) + (PutString(topic) + [qos])
  }

  function EvalUnsubscribe(topic: seq<byte>): nat {
    2 + (2 + |topic|)
  }

  function FormatUnsubscribe(id: nat, topic: seq<byte>): seq<byte> {
    Short(id) + PutString(topic)
  }

  /** What the caller of `stream_mqtt_connect` passes; `None` is a null pointer (with length 0 if binary). */
  datatype Connect = Connect(cleanSession: bool, keepAlive: nat, clientId: seq<byte>,
                             willTopic: Option<seq<byte>>, willMsg: Option<seq<byte>>,
                             willRetain: bool, willQos: nat,
                             userName: Option<seq<byte>>, password: Option<seq<byte>>)

  function OptSize(o: Option<seq<byte>>): nat {
    if o.Some? then 2 + |o.value| else 0
  }

  /** Binary fields are counted by their length, not by their pointer. */
  function OptBinarySize(o: Option<seq<byte>>): nat {
    if o.Some? && |o.value| > 0 then 2 + |o.value| else 0
  }

  function EvalConnect(c: Connect): nat {
    10 + (2 + |c.clientId|) + OptSize(c.willTopic) + OptBinarySize(c.willMsg)
    + OptSize(c.userName) + OptBinarySize(c.password)
  }

  function PutOpt(o: Option<seq<byte>>): seq<byte> {
    if o.Some? then PutString(o.value) else []
  }

  function Bit(b: bool, weight: nat): nat {
    if b then weight else 0
  }

  /** The connect flags byte. */
  function ConnectFlags(c: Connect): nat {
    var will := c.willTopic.Some? && c.willMsg.Some?;
    Bit(c.cleanSession, 2) + Bit(will, 4) + (if will then c.willQos % 4 * 8 else 0) + Bit(will && c.willRetain, 32)
    + Bit(c.password.Some?, 64) + Bit(c.userName.Some?, 128)
  }

  function FormatConnect(c: Connect): seq<byte> {
    PutString(PROTOCOL_NAME) + ([PROTOCOL_LEVEL] + ([ConnectFlags(c)] + (Short(c.keepAlive)
    + (PutString(c.clientId) + (PutOpt(c.willTopic) + (PutOpt(c.willMsg)
    + (PutOpt(c.userName) + PutOpt(c.password))))))))
  }

  // ---------------------------------------------------------------- readers

  /** A value read and the bytes behind it. */
  datatype Read<T> = Read(value: T, rest: seq<byte>)

  /** The readers answer `None` where the C code would read past the end of the body. */
  function TakeByte(d: seq<byte>): Option<Read<byte>> {
    if |d| < 1 then None else Some(Read(d[0], d[1..]))
  }

  function TakeShort(d: seq<byte>): Option<Read<nat>> {
    if |d| < 2 then None else Some(Read(GetShort(d), d[2..]))
  }

  function TakeString(d: seq<byte>): Option<Read<seq<byte>>> {
    if |d| < 2 || |d| < 2 + GetShort(d) then None
    else Some(Read(d[2..2 + GetShort(d)], d[2 + GetShort(d)..]))
  }

  datatype PublishMsg = PublishMsg(id: nat, topic: seq<byte>, payload: seq<byte>)

  /** `id` is left at 0 for QoS 0.  The payload length is cut to 16 bits. */
  function ParsePublish(d: seq<byte>, qos: nat): Option<PublishMsg> {
    var topic := TakeString(d);
    if topic.None? then None
    else
      var id := if qos > 0 then TakeShort(topic.value.rest) else Some(Read(0, topic.value.rest));
      if id.None? then None
      else Some(PublishMsg(id.value.value, topic.value.value, PutData(id.value.rest)))
  }

  datatype SubscribeMsg = SubscribeMsg(id: nat, topic: seq<byte>, qos: byte)

  /** A body with bytes left over is refused, as with the C parsers' result -1. */
  function ParseSubscribe(d: seq<byte>): Option<SubscribeMsg> {
    var id := TakeShort(d);
    if id.None? then None else
    var topic := TakeString(id.value.rest);
    if topic.None? then None else
    var qos := TakeByte(topic.value.rest);
    if qos.None? || qos.value.rest != [] then None
    else Some(SubscribeMsg(id.value.value, topic.value.value, qos.value.value))
  }

  datatype UnsubscribeMsg = UnsubscribeMsg(id: nat, topic: seq<byte>)

  function ParseUnsubscribe(d: seq<byte>): Option<UnsubscribeMsg> {
    var id := TakeShort(d);
    if id.None? then None else
    var topic := TakeString(id.value.rest);
    if topic.None? || topic.value.rest != [] then None
    else Some(UnsubscribeMsg(id.value.value, topic.value.value))
  }

  datatype ConnectMsg = ConnectMsg(protocolName: seq<byte>, level: byte, cleanSession: bool, keepAlive: nat,
                                   clientId: seq<byte>, will: Option<Will>,
                                   willRetain: bool, willQos: nat,
                                   userName: Option<seq<byte>>, password: Option<seq<byte>>)

  datatype Will = Will(topic: seq<byte>, msg: seq<byte>)

  function TakeIf(present: bool, d: seq<byte>): Option<Read<Option<seq<byte>>>> {
    if !present then Some(Read(None, d))
    else
      var s := TakeString(d);
      if s.None? then None else Some(Read(Some(s.value.value), s.value.rest))
  }

  function TakeWill(present: bool, d: seq<byte>): Option<Read<Option<Will>>> {
    if !present then Some(Read(None, d))
    else
      var topic := TakeString(d);
      if topic.None? then None
      else
        var msg := TakeString(topic.value.rest);
        if msg.None? then None else Some(Read(Some(Will(topic.value.value, msg.value.value)), msg.value.rest))
  }

  function ParseConnect(d: seq<byte>): Option<ConnectMsg> {
    var name := TakeString(d);
    if name.None? then None else
    var level := TakeByte(name.value.rest);
    if level.None? then None else
    var flagsByte := TakeByte(level.value.rest);
    if flagsByte.None? then None else
    var flags: int := flagsByte.value.value;
    var keepAlive := TakeShort(flagsByte.value.rest);
    if keepAlive.None? then None else
    var clientId := TakeString(keepAlive.value.rest);
    if clientId.None? then None else
    var will := TakeWill(flags / 4 % 2 == 1, clientId.value.rest);
    if will.None? then None else
    var user := TakeIf(flags / 128 % 2 == 1, will.value.rest);
    if user.None? then None else
    var password := TakeIf(flags / 64 % 2 == 1, user.value.rest);
    if password.None? || password.value.rest != [] then None
    else Some(ConnectMsg(name.value.value, level.value.value, flags / 2 % 2 == 1, keepAlive.value.value,
                         clientId.value.value, will.value.value, flags / 32 % 2 == 1, flags / 8 % 4,
                         user.value.value, password.value.value))
  }

  // ---------------------------------------------------------------- results

  lemma TakePutString(str: seq<byte>, rest: seq<byte>)
    requires |str| < LIMIT
    ensures TakeString(PutString(str) + rest) == Some(Read(str, rest))
  {
    assert (PutString(str) + rest)[2..2 + |str|] == str;
    assert (PutString(str) + rest)[2 + |str|..] == rest;
  }

  lemma TakePutShort(id: nat, rest: seq<byte>)
    requires id < LIMIT
    ensures TakeShort(Short(id) + rest) == Some(Read(id, rest))
  {
    assert (Short(id) + rest)[2..] == rest;
  }

  lemma TakePutByte(b: byte, rest: seq<byte>)
    ensures TakeByte([b] + rest) == Some(Read(b, rest))
  {
  }

  lemma PutSizes(str: seq<byte>)
    ensures |PutString(str)| <= 2 + |str|
    ensures |PutString(str)| == 2 + |str| <==> |str| < LIMIT
    ensures |PutData(str)| == |str| <==> |str| < LIMIT
  {
  }

  /** The announced body size is the number of bytes written exactly when topic and payload fit 16 bits. */
  lemma PublishSize(qos: nat, id: nat, topic: seq<byte>, payload: seq<byte>)
    ensures |FormatPublish(qos, id, topic, payload)| == EvalPublish(qos, topic, |payload|)
            <==> |topic| < LIMIT && |payload| < LIMIT
  {
    PutSizes(topic);
    PutSizes(payload);
  }

  lemma PublishRoundTrip(qos: nat, id: nat, topic: seq<byte>, payload: seq<byte>)
    requires |topic| < LIMIT && |payload| < LIMIT && id < LIMIT
    ensures ParsePublish(FormatPublish(qos, id, topic, payload), qos)
         == Some(PublishMsg(if qos > 0 then id else 0, topic, payload))
  {
    var tail := (if qos > 0 then Short(id) else []) + PutData(payload);
    TakePutString(topic, tail);
    TakePutShort(id, PutData(payload));
    assert PutData(payload) == payload;
    assert qos == 0 ==> tail == payload;
  }

  lemma SubscribeSize(id: nat, topic: seq<byte>, qos: byte)
    ensures |FormatSubscribe(id, topic, qos)| == EvalSubscribe(topic) <==> |topic| < LIMIT
  {
    PutSizes(topic);
  }

  lemma SubscribeRoundTrip(id: nat, topic: seq<byte>, qos: byte)
    requires |topic| < LIMIT && id < LIMIT
    ensures ParseSubscribe(FormatSubscribe(id, topic, qos)) == Some(SubscribeMsg(id, topic, qos))
  {
    TakePutShort(id, PutString(topic) + [qos]);
    TakePutString(topic, [qos]);
    TakePutByte(qos, []);
    assert [qos] + [] == [qos];
  }

  lemma UnsubscribeSize(id: nat, topic: seq<byte>)
    ensures |FormatUnsubscribe(id, topic)| == EvalUnsubscribe(topic) <==> |topic| < LIMIT
  {
    PutSizes(topic);
  }

  lemma UnsubscribeRoundTrip(id: nat, topic: seq<byte>)
    requires |topic| < LIMIT && id < LIMIT
    ensures ParseUnsubscribe(FormatUnsubscribe(id, topic)) == Some(UnsubscribeMsg(id, topic))
  {
    TakePutShort(id, PutString(topic));
    TakePutString(topic, []);
    assert PutString(topic) + [] == PutString(topic);
  }

  // ---------------------------------------------------------------- nothing else is read

  lemma ShortIs(d: seq<byte>)
    requires TakeShort(d).Some?
    ensures var r := TakeShort(d).value; r.value < LIMIT && d == Short(r.value) + r.rest
  {
  }

  lemma StringIs(d: seq<byte>)
    requires TakeString(d).Some?
    ensures var r := TakeString(d).value; |r.value| < LIMIT && d == PutString(r.value) + r.rest
  {
    var r := TakeString(d).value;
    assert PutData(r.value) == r.value;
    assert d == d[..2] + (d[2..2 + |r.value|] + d[2 + |r.value|..]);
    assert d[..2] == Short(|r.value|);
  }

  /** What is read as a SUBSCRIBE body is the body written for what has been read. */
  lemma SubscribeOnly(d: seq<byte>)
    requires ParseSubscribe(d).Some?
    ensures var m := ParseSubscribe(d).value;
            m.id < LIMIT && |m.topic| < LIMIT && d == FormatSubscribe(m.id, m.topic, m.qos)
  {
    ShortIs(d);
    var rest := TakeShort(d).value.rest;
    StringIs(rest);
    var last := TakeString(rest).value.rest;
    assert last == [last[0]];
  }

  lemma UnsubscribeOnly(d: seq<byte>)
    requires ParseUnsubscribe(d).Some?
    ensures var m := ParseUnsubscribe(d).value;
            m.id < LIMIT && |m.topic| < LIMIT && d == FormatUnsubscribe(m.id, m.topic)
  {
    ShortIs(d);
    var rest := TakeShort(d).value.rest;
    StringIs(rest);
    assert PutString(TakeString(rest).value.value) + [] == PutString(TakeString(rest).value.value);
  }

  /** A PUBLISH body is read iff its topic and its id are there, and then it is the body written for what has been read,
      unless its payload is longer than 16 bits can say. */
  lemma PublishOnly(d: seq<byte>, qos: nat)
    ensures ParsePublish(d, qos).Some? <==> |d| >= 2 && |d| >= 2 + GetShort(d) + if qos > 0 then 2 else 0
    ensures ParsePublish(d, qos).Some? && |d| - 2 - GetShort(d) - (if qos > 0 then 2 else 0) < LIMIT ==>
              var m := ParsePublish(d, qos).value;
              m.id < LIMIT && |m.topic| < LIMIT && d == FormatPublish(qos, m.id, m.topic, m.payload)
  {
    var topic := TakeString(d);
    if topic.Some? {
      StringIs(d);
      var rest := topic.value.rest;
      if qos > 0 && TakeShort(rest).Some? {
        ShortIs(rest);
        PayloadIs(TakeShort(rest).value.rest);
      } else if qos == 0 {
        PayloadIs(rest);
        assert [] + PutData(rest) == PutData(rest);
      }
    }
  }

  lemma PayloadIs(d: seq<byte>)
    ensures |d| < LIMIT ==> PutData(d) == d && PutData(PutData(d)) == d
  {
  }

  predicate Fits(o: Option<seq<byte>>) {
    o.Some? ==> |o.value| < LIMIT
  }

  predicate NonEmptyIfPresent(o: Option<seq<byte>>) {
    o.Some? ==> o.value != []
  }

  /** Binary lengths are `unsigned short` parameters, so these always fit. */
  predicate CallableConnect(c: Connect) {
    c.keepAlive < LIMIT && Fits(c.willMsg) && Fits(c.password)
  }

  /** The announced CONNECT size is exact iff strings fit 16 bits and no binary field is present but empty. */
  lemma ConnectSize(c: Connect)
    requires CallableConnect(c)
    ensures |FormatConnect(c)| == EvalConnect(c)
            <==> |c.clientId| < LIMIT && Fits(c.willTopic) && Fits(c.userName)
                 && NonEmptyIfPresent(c.willMsg) && NonEmptyIfPresent(c.password)
  {
    var d1, d2, d3 := Deficit(Some(c.clientId)), Deficit(c.willTopic), Deficit(c.userName);
    var e1, e2 := Surplus(c.willMsg), Surplus(c.password);
    assert |FormatConnect(c)| == EvalConnect(c) - d1 - d2 - d3 + e1 + e2;
  }

  /** Bytes of a string field that 16-bit lengths lose. */
  function Deficit(o: Option<seq<byte>>): (n: nat)
    ensures n == OptSize(o) - |PutOpt(o)|
    ensures n == 0 || n >= LIMIT
    ensures n == 0 <==> Fits(o)
  {
    if o.Some? then |o.value| / LIMIT * LIMIT else 0
  }

  /** Bytes of a binary field that the size computation misses. */
  function Surplus(o: Option<seq<byte>>): (n: nat)
    requires Fits(o)
    ensures n == |PutOpt(o)| - OptBinarySize(o)
    ensures n <= 2
    ensures n == 0 <==> NonEmptyIfPresent(o)
  {
    if o.Some? && o.value == [] then 2 else 0
  }

  lemma TakePutOpt(o: Option<seq<byte>>, rest: seq<byte>)
    requires Fits(o)
    ensures TakeIf(o.Some?, PutOpt(o) + rest) == Some(Read(o, rest))
  {
    if o.Some? {
      TakePutString(o.value, rest);
    } else {
      assert PutOpt(o) + rest == rest;
    }
  }

  function WillOf(c: Connect): Option<Will> {
    if c.willTopic.Some? && c.willMsg.Some? then Some(Will(c.willTopic.value, c.willMsg.value)) else None
  }

  lemma TakePutWill(c: Connect, rest: seq<byte>)
    requires Fits(c.willTopic) && Fits(c.willMsg) && (c.willTopic.Some? <==> c.willMsg.Some?)
    ensures TakeWill(c.willTopic.Some?, PutOpt(c.willTopic) + (PutOpt(c.willMsg) + rest)) == Some(Read(WillOf(c), rest))
  {
    if c.willTopic.Some? {
      TakePutString(c.willTopic.value, PutOpt(c.willMsg) + rest);
      TakePutString(c.willMsg.value, rest);
    } else {
      assert PutOpt(c.willTopic) + (PutOpt(c.willMsg) + rest) == rest;
    }
  }

  lemma SixFields(a: nat, b: nat, q: nat, r: nat, p: nat, u: nat, v: nat)
    requires a < 2 && b < 2 && q < 4 && r < 2 && p < 2 && u < 2
    requires v == 2 * a + 4 * b + 8 * q + 32 * r + 64 * p + 128 * u
    ensures v < 256
    ensures v / 2 % 2 == a && v / 4 % 2 == b && v / 8 % 4 == q
    ensures v / 32 % 2 == r && v / 64 % 2 == p && v / 128 % 2 == u
  {
    assert v / 2 == a + 2 * (b + 2 * q + 8 * r + 16 * p + 32 * u);
    assert v / 4 == b + 2 * (q + 4 * r + 8 * p + 16 * u);
    assert v / 8 == q + 4 * (r + 2 * p + 4 * u);
    assert v / 32 == r + 2 * (p + 2 * u);
    assert v / 64 == p + 2 * u;
    assert v / 128 == u;
  }

  lemma FlagBits(c: Connect)
    requires c.willTopic.Some? <==> c.willMsg.Some?
    ensures ConnectFlags(c) < 256
    ensures ConnectFlags(c) / 2 % 2 == 1 <==> c.cleanSession
    ensures ConnectFlags(c) / 4 % 2 == 1 <==> c.willTopic.Some?
    ensures ConnectFlags(c) / 8 % 4 == if c.willTopic.Some? then c.willQos % 4 else 0
    ensures ConnectFlags(c) / 32 % 2 == 1 <==> c.willTopic.Some? && c.willRetain
    ensures ConnectFlags(c) / 64 % 2 == 1 <==> c.password.Some?
    ensures ConnectFlags(c) / 128 % 2 == 1 <==> c.userName.Some?
  {
    var will := c.willTopic.Some?;
    SixFields(Bit(c.cleanSession, 1), Bit(will, 1), if will then c.willQos % 4 else 0, Bit(will && c.willRetain, 1),
              Bit(c.password.Some?, 1), Bit(c.userName.Some?, 1), ConnectFlags(c));
  }

  /** Every field of a CONNECT comes back, and nothing is left over. */
  lemma ConnectRoundTrip(c: Connect)
    requires CallableConnect(c) && |c.clientId| < LIMIT && Fits(c.willTopic) && Fits(c.userName)
    requires c.willTopic.Some? <==> c.willMsg.Some?
    ensures ParseConnect(FormatConnect(c)) ==
            Some(ConnectMsg(PROTOCOL_NAME, PROTOCOL_LEVEL, c.cleanSession, c.keepAlive, c.clientId, WillOf(c),
                            c.willTopic.Some? && c.willRetain,
                            if c.willTopic.Some? then c.willQos % 4 else 0, c.userName, c.password))
  {
    FlagBits(c);
    var r8 := PutOpt(c.password);
    var r7 := PutOpt(c.userName) + r8;
    var r5 := PutOpt(c.willTopic) + (PutOpt(c.willMsg) + r7);
    var r4 := PutString(c.clientId) + r5;
    var r3 := Short(c.keepAlive) + r4;
    var r2 := [ConnectFlags(c) as byte] + r3;
    TakePutString(PROTOCOL_NAME, [PROTOCOL_LEVEL] + r2);
    TakePutByte(PROTOCOL_LEVEL, r2);
    TakePutByte(ConnectFlags(c), r3);
    TakePutShort(c.keepAlive, r4);
    TakePutString(c.clientId, r5);
    TakePutWill(c, r7);
    TakePutOpt(c.userName, r8);
    TakeLastOpt(c.password);
    FieldsParsed(FormatConnect(c), Read(PROTOCOL_NAME, [PROTOCOL_LEVEL] + r2), Read(PROTOCOL_LEVEL, r2),
                 Read(ConnectFlags(c), r3), Read(c.keepAlive, r4), Read(c.clientId, r5), Read(WillOf(c), r7),
                 Read(c.userName, r8), Read(c.password, []));
  }

  /** All fields read in turn. */
  lemma FieldsParsed(d: seq<byte>, name: Read<seq<byte>>, level: Read<byte>, flags: Read<byte>, keepAlive: Read<nat>,
                     clientId: Read<seq<byte>>, will: Read<Option<Will>>, user: Read<Option<seq<byte>>>,
                     password: Read<Option<seq<byte>>>)
    requires TakeString(d) == Some(name) && TakeByte(name.rest) == Some(level) && TakeByte(level.rest) == Some(flags)
    requires TakeShort(flags.rest) == Some(keepAlive) && TakeString(keepAlive.rest) == Some(clientId)
    requires TakeWill(flags.value as int / 4 % 2 == 1, clientId.rest) == Some(will)
    requires TakeIf(flags.value as int / 128 % 2 == 1, will.rest) == Some(user)
    requires TakeIf(flags.value as int / 64 % 2 == 1, user.rest) == Some(password) && password.rest == []
    ensures ParseConnect(d) ==
            Some(ConnectMsg(name.value, level.value, flags.value as int / 2 % 2 == 1, keepAlive.value, clientId.value,
                            will.value, flags.value as int / 32 % 2 == 1, flags.value as int / 8 % 4, user.value,
                            password.value))
  {
  }

  lemma TakeLastOpt(o: Option<seq<byte>>)
    requires Fits(o)
    ensures TakeIf(o.Some?, PutOpt(o)) == Some(Read(o, []))
  {
    assert PutOpt(o) == PutOpt(o) + [];
    TakePutOpt(o, []);
  }
}
