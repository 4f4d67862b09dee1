/** The bytes of MQTT packets as MQTT 3.1.1 lists them: packet types and flags (section 2.2), the table of length fields
    (section 2.2.3), the connect flags (section 3.1.2) and one packet of each kind. */
module MqttWire {
  import opened Bytes
  import opened Wrappers
  import opened MqttCodec
  import opened MqttPackets
  import opened MqttSession
  import opened MqttActions

  // ---------------------------------------------------------------- numbers

  /** Numbers are sent with the most significant byte first. */
  lemma BigEndian(n: nat)
    requires n < LIMIT
    ensures |Short(n)| == 2 && Short(n)[0] as int * 256 + Short(n)[1] as int == n
  {
  }

  /** What length digits are worth: the weight grows by 128 from one to the next. */
  function Worth(d: seq<byte>): nat {
    if d == [] then 0 else d[0] as int % 128 + 128 * Worth(d[1..])
  }

  /** All digits but the last one are marked, and together they are worth the length. */
  lemma {:induction false} DigitsMean(value: nat)
    ensures var d := EncodedLength(value);
            && Worth(d) == value
            && forall i :: 0 <= i < |d| ==> (d[i] >= 128 <==> i < |d| - 1)
  {
    if value >= 128 {
      DigitsMean(value / 128);
      var d, rest := EncodedLength(value), EncodedLength(value / 128);
      assert d[1..] == rest;
      assert forall i :: 0 < i < |d| ==> d[i] == rest[i - 1];
    } else {
      assert EncodedLength(value)[1..] == [];
    }
  }

  /** The smallest and the largest length of each size. */
  lemma LengthTable()
    ensures EncodedLength(0) == [0] && EncodedLength(127) == [0x7f]
    ensures EncodedLength(128) == [0x80, 0x01] && EncodedLength(16383) == [0xff, 0x7f]
    ensures EncodedLength(16384) == [0x80, 0x80, 0x01] && EncodedLength(2097151) == [0xff, 0xff, 0x7f]
    ensures EncodedLength(2097152) == [0x80, 0x80, 0x80, 0x01] && EncodedLength(268435455) == [0xff, 0xff, 0xff, 0x7f]
  {
    assert EncodedLength(1) == [1];
    assert EncodedLength(16383) == [0xff] + EncodedLength(127);
    assert EncodedLength(16384) == [0x80] + EncodedLength(128);
    assert EncodedLength(2097151) == [0xff] + EncodedLength(16383);
    assert EncodedLength(2097152) == [0x80] + EncodedLength(16384);
    assert EncodedLength(268435455) == [0xff] + EncodedLength(2097151);
  }

  // ---------------------------------------------------------------- packets with a packet id only

  lemma IdPackets(id: nat)
    requires id < LIMIT
    ensures FormatFrame(IdFrame(PUBACK, id)) == [0x40, 2, id / 256, id % 256]
    ensures FormatFrame(IdFrame(PUBREC, id)) == [0x50, 2, id / 256, id % 256]
    ensures FormatFrame(IdFrame(PUBREL, id)) == [0x62, 2, id / 256, id % 256]
    ensures FormatFrame(IdFrame(PUBCOMP, id)) == [0x70, 2, id / 256, id % 256]
    ensures FormatFrame(Frame(PINGRESP, 0, [])) == [0xd0, 0]
  {
    assert EncodedLength(2) == [2];
    assert EncodedLength(0) == [0];
  }

  // ---------------------------------------------------------------- requests

  /** The first byte holds the type in its upper and the flags in its lower half; the length follows, then the body. */
  lemma FrameBytes(f: Frame)
    ensures FormatFrame(f) == [16 * f.typ as int + f.flags as int] + EncodedLength(|f.body|) + f.body
  {
  }

  lemma StringBytes(str: seq<byte>)
    requires |str| < LIMIT
    ensures PutString(str) == [|str| / 256, |str| % 256] + str
  {
    assert PutData(str) == str;
  }

  lemma ShortBytes(n: nat)
    requires n < LIMIT
    ensures Short(n) == [n / 256, n % 256]
  {
  }

  lemma PublishFirstByte(retain: bool, dup: bool, qos: nat, id: nat, topic: seq<byte>, payload: seq<byte>)
    requires qos <= 2
    ensures var f := PublishFrame(retain, dup, qos, id, topic, payload);
            16 * f.typ as int + f.flags as int == 0x30 + (if dup then 8 else 0) + 2 * qos + (if retain then 1 else 0)
  {
  }

  lemma PublishBytes(qos: nat, id: nat, topic: seq<byte>, payload: seq<byte>)
    requires id < LIMIT && |topic| < LIMIT && |payload| < LIMIT
    ensures FormatPublish(qos, id, topic, payload) ==
            ([|topic| / 256, |topic| % 256] + topic) + ((if qos == 0 then [] else [id / 256, id % 256]) + payload)
  {
    StringBytes(topic);
    ShortBytes(id);
    assert PutData(payload) == payload;
  }

  lemma SubscribeBytes(id: nat, topic: seq<byte>, qos: byte)
    requires id < LIMIT && |topic| < LIMIT
    ensures SubscribeFrame(id, topic, qos) ==
            Frame(8, 2, [id / 256, id % 256] + (([|topic| / 256, |topic| % 256] + topic) + [qos]))
  {
    StringBytes(topic);
    ShortBytes(id);
  }

  lemma UnsubscribeBytes(id: nat, topic: seq<byte>)
    requires id < LIMIT && |topic| < LIMIT
    ensures UnsubscribeFrame(id, topic) == Frame(10, 2, [id / 256, id % 256] + ([|topic| / 256, |topic| % 256] + topic))
  {
    StringBytes(topic);
    ShortBytes(id);
  }

  // ---------------------------------------------------------------- CONNECT

  /** The number with these bits, the lowest one first. */
  function Number(bits: seq<bool>): nat {
    if bits == [] then 0 else (if bits[0] then 1 else 0) + 2 * Number(bits[1..])
  }

  lemma NextBit(b: bool, rest: seq<bool>)
    ensures Number([b] + rest) == Bit(b, 1) + 2 * Number(rest)
  {
    assert ([b] + rest)[1..] == rest;
  }

  lemma FourBits(b0: bool, b1: bool, b2: bool, b3: bool, rest: seq<bool>)
    ensures Number([b0, b1, b2, b3] + rest) == Bit(b0, 1) + Bit(b1, 2) + Bit(b2, 4) + Bit(b3, 8) + 16 * Number(rest)
  {
    NextBit(b3, rest);
    NextBit(b2, [b3] + rest);
    NextBit(b1, [b2] + ([b3] + rest));
    NextBit(b0, [b1] + ([b2] + ([b3] + rest)));
    assert [b0, b1, b2, b3] + rest == [b0] + ([b1] + ([b2] + ([b3] + rest)));
  }

  /** The two bits of the will QoS. */
  lemma WillBits(will: bool, qos: nat)
    ensures (if will then qos % 4 * 8 else 0) == Bit(will && qos % 2 == 1, 8) + Bit(will && qos / 2 % 2 == 1, 16)
  {
    var m, d := qos % 4, qos / 4;
    assert qos == 2 * (2 * d + m / 2) + m % 2;
  }

  /** What each bit of the connect flags says: the reserved bit, clean session, will, two bits of will QoS, will retain,
      password and user name. */
  lemma ConnectBits(c: Connect)
    ensures var will := c.willTopic.Some? && c.willMsg.Some?;
            ConnectFlags(c) == Number([false, c.cleanSession, will, will && c.willQos % 2 == 1] +
                                      [will && c.willQos / 2 % 2 == 1, will && c.willRetain, c.password.Some?, c.userName.Some?])
  {
    var will := c.willTopic.Some? && c.willMsg.Some?;
    var low, high := will && c.willQos % 2 == 1, will && c.willQos / 2 % 2 == 1;
    WillBits(will, c.willQos);
    var rest := [high, will && c.willRetain, c.password.Some?, c.userName.Some?];
    FourBits(false, c.cleanSession, will, low, rest);
    FourBits(high, will && c.willRetain, c.password.Some?, c.userName.Some?, []);
    assert rest + [] == rest;
    Weights(high, will && c.willRetain, c.password.Some?, c.userName.Some?);
  }

  lemma Weights(b4: bool, b5: bool, b6: bool, b7: bool)
    ensures 16 * (Bit(b4, 1) + Bit(b5, 2) + Bit(b6, 4) + Bit(b7, 8)) == Bit(b4, 16) + Bit(b5, 32) + Bit(b6, 64) + Bit(b7, 128)
  {
  }

  /** The variable header of figure 3.6 of the standard, and the payload in its order. */
  lemma ConnectExample(c: Connect)
    requires c == Connect(true, 10, [65], Some([66]), Some([67, 67]), false, 1, Some([68]), Some([69]))
    ensures FormatConnect(c) ==
            [0, 4, 77, 81, 84, 84, 4, 0xce, 0, 10] + [0, 1, 65] + [0, 1, 66] + [0, 2, 67, 67] + [0, 1, 68] + [0, 1, 69]
  {
  }
}
