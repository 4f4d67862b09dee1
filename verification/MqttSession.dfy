/** One endpoint of the MQTT session layer: its three queues, the resend timer and the QoS 1/2 handshake. */
module MqttSession {
  import opened Bytes
  import opened MqttCodec
  import opened MqttPackets
  import opened Wrappers

  const CONNECT: nibble := 1
  const CONNACK: nibble := 2
  const PUBLISH: nibble := 3
  const PUBACK: nibble := 4
  const PUBREC: nibble := 5
  const PUBREL: nibble := 6
  const PUBCOMP: nibble := 7
  const SUBSCRIBE: nibble := 8
  const SUBACK: nibble := 9
  const UNSUBSCRIBE: nibble := 10
  const UNSUBACK: nibble := 11
  const PINGREQ: nibble := 12
  const PINGRESP: nibble := 13
  const DISCONNECT: nibble := 14

  const RESEND_ATTEMPTS := 3

  // ---------------------------------------------------------------- frames

  function Qos(flags: nibble): nat {
    flags / 2 % 4
  }

  /** Types whose body starts with a packet id. */
  predicate CarriesId(typ: nibble) {
    typ in {PUBACK, PUBREC, PUBREL, PUBCOMP, SUBACK, UNSUBACK}
  }

  /** The frame handler reads no byte behind the body. */
  predicate WellFormed(f: Frame) {
    && |f.body| <= MAX_BODY
    && (CarriesId(f.typ) ==> |f.body| >= 2)
    && (f.typ == PUBLISH ==> ParsePublish(f.body, Qos(f.flags)).Some?)
  }

  /** The packet id a frame carries, 0 if none. */
  function Id(f: Frame): nat {
    if f.typ == PUBLISH then
      var msg := ParsePublish(f.body, Qos(f.flags));
      if msg.Some? then msg.value.id else 0
    else if |f.body| >= 2 then GetShort(f.body) else 0
  }

  /** `stream_mqtt_write_frame_packet_id`: only PUBREL carries flags. */
  function IdFrame(typ: nibble, id: nat): Frame {
    Frame(typ, if typ == PUBREL then 2 else 0, Short(id))
  }

  function PublishFlags(retain: bool, dup: bool, qos: nat): nibble
    requires qos <= 2
  {
    qos * 2 + Bit(retain, 1) + Bit(dup, 8)
  }

  function PublishFrame(retain: bool, dup: bool, qos: nat, id: nat, topic: seq<byte>, payload: seq<byte>): Frame
    requires qos <= 2
  {
    Frame(PUBLISH, PublishFlags(retain, dup, qos), FormatPublish(qos, id, topic, payload))
  }

  /** The type of request that a response acknowledges, 0 (forbidden) if none. */
  function RequestType(typ: nibble): nibble {
    if typ == SUBACK then SUBSCRIBE
    else if typ == UNSUBACK then UNSUBSCRIBE
    else if typ == PUBACK || typ == PUBREC then PUBLISH
    else if typ == PUBCOMP then PUBREL
    else 0
  }

  // ---------------------------------------------------------------- state

  /** A queued frame.  `transmitted` is a history bit: the frame has been written to the stream below. */
  datatype Item = Item(frame: Frame, id: nat, transmitted: bool)

  /** The observer's answer to each message it is shown: has it handled the message itself? */
  type Observer = Frame -> bool

  /** `sent` and `delivered` are histories: frames written below, messages given to the application. */
  datatype Session = Session(incoming: seq<Item>, outgoing: seq<Item>, inbound: seq<Item>,
                             timer: bool, attempts: nat, sent: seq<Frame>, delivered: seq<Frame>)

  const INITIAL := Session([], [], [], false, 0, [], [])

  // ---------------------------------------------------------------- specification of the queue loops

  predicate Matches(item: Item, typ: nibble, id: nat) {
    item.frame.typ == typ && item.id == id
  }

  /** The queue without the items of the given type and id, in order. */
  function Without(q: seq<Item>, typ: nibble, id: nat): seq<Item> {
    if q == [] then []
    else
      var rest := Without(q[..|q| - 1], typ, id);
      if Matches(q[|q| - 1], typ, id) then rest else rest + [q[|q| - 1]]
  }

  function WithoutId(q: seq<Item>, id: nat): seq<Item> {
    if q == [] then []
    else
      var rest := WithoutId(q[..|q| - 1], id);
      if q[|q| - 1].id == id then rest else rest + [q[|q| - 1]]
  }

  /** Delivers the items with the given id, in queue order. */
  function DeliverId(s: Session, q: seq<Item>, id: nat, seen: Observer): Session {
    if q == [] then s
    else
      var t := DeliverId(s, q[..|q| - 1], id, seen);
      if q[|q| - 1].id == id then Deliver(t, q[|q| - 1], seen) else t
  }

  /** The queue while the loop goes over it: what it has passed, without the matches, and what it has not. */
  function PassedAndRest(q: seq<Item>, i: nat, id: nat): seq<Item>
    requires i <= |q|
  {
    WithoutId(q[..i], id) + q[i..]
  }

  /** One more item of the queue looked at. */
  lemma QueueStep(s: Session, q: seq<Item>, i: nat, id: nat, seen: Observer)
    requires i < |q|
    ensures var k, line := |WithoutId(q[..i], id)|, PassedAndRest(q, i, id);
            && k < |line| && |WithoutId(q[..i + 1], id)| == (if q[i].id == id then k else k + 1)
            && PassedAndRest(q, i + 1, id) == if q[i].id == id then line[..k] + line[k + 1..] else line
    ensures DeliverId(s, q[..i + 1], id, seen) ==
            if q[i].id == id then Deliver(DeliverId(s, q[..i], id, seen), q[i], seen)
            else DeliverId(s, q[..i], id, seen)
  {
    assert q[..i + 1][..i] == q[..i];
  }

  // ---------------------------------------------------------------- specification of the operations

  function Send(s: Session, f: Frame): Session {
    s.(sent := s.sent + [f])
  }

  /** A message goes to the observer, or into `incoming` if the observer leaves it. */
  function Deliver(s: Session, item: Item, seen: Observer): Session {
    s.(delivered := s.delivered + [item.frame],
       incoming := if seen(item.frame) then s.incoming else s.incoming + [item])
  }

  function DeliverFrame(s: Session, f: Frame, seen: Observer): Session {
    Deliver(s, Item(f, 0, false), seen)
  }

  function StartTimer(s: Session): Session {
    s.(timer := true, attempts := 0)
  }

  function Published(s: Session, f: Frame, qos: nat, id: nat): Session {
    var now := s.outgoing == [];
    var s1 := if now then Send(s, f) else s;
    var s2 := if now && qos > 0 then StartTimer(s1) else s1;
    if !now || qos > 0 then s2.(outgoing := s2.outgoing + [Item(f, id, now)]) else s2
  }

  /** SUBSCRIBE and UNSUBSCRIBE. */
  function Requested(s: Session, f: Frame, id: nat): Session {
    var now := s.outgoing == [];
    var s1 := if now then StartTimer(Send(s, f)) else s;
    s1.(outgoing := s1.outgoing + [Item(f, id, now)])
  }

  function PubrelSent(s: Session, id: nat): Session {
    Send(s.(outgoing := [Item(IdFrame(PUBREL, id), id, true)] + s.outgoing), IdFrame(PUBREL, id))
  }

  function Acknowledged(s: Session, typ: nibble, id: nat): Session {
    var rest := Without(s.outgoing, RequestType(typ), id);
    s.(outgoing := rest, timer := s.timer && |rest| == |s.outgoing|)
  }

  function HandleAck(s: Session, f: Frame, seen: Observer): Session {
    var s1 := Acknowledged(s, f.typ, Id(f));
    if f.typ == PUBREC then StartTimer(PubrelSent(s1, Id(f)))
    else if f.typ == SUBACK || f.typ == UNSUBACK then DeliverFrame(s1, f, seen)
    else s1
  }

  function HandlePublish(s: Session, f: Frame, seen: Observer): Session {
    if Qos(f.flags) == 2 then
      Send(s.(inbound := Without(s.inbound, PUBLISH, Id(f)) + [Item(f, Id(f), false)]), IdFrame(PUBREC, Id(f)))
    else
      DeliverFrame(if Qos(f.flags) == 1 then Send(s, IdFrame(PUBACK, Id(f))) else s, f, seen)
  }

  /** The QoS 2 messages with the given id leave `inbound` and are delivered. */
  function Released(s: Session, id: nat, seen: Observer): Session {
    DeliverId(s, s.inbound, id, seen).(inbound := WithoutId(s.inbound, id))
  }

  function HandlePubrel(s: Session, f: Frame, seen: Observer): Session {
    Released(Send(s, IdFrame(PUBCOMP, Id(f))), Id(f), seen)
  }

  function HandleFrame(s: Session, f: Frame, seen: Observer): Session {
    if f.typ in {CONNECT, CONNACK, SUBSCRIBE, UNSUBSCRIBE} then DeliverFrame(s, f, seen)
    else if f.typ == PUBLISH then HandlePublish(s, f, seen)
    else if f.typ in {PUBACK, PUBREC, PUBCOMP, SUBACK, UNSUBACK} then HandleAck(s, f, seen)
    else if f.typ == PUBREL then HandlePubrel(s, f, seen)
    else if f.typ == PINGREQ then Send(s, Frame(PINGRESP, 0, []))
    else if f.typ == DISCONNECT then DeliverFrame(s, f.(body := [0]), seen)
    else s
  }

  /** Sends the head of `outgoing`. */
  function Transmit(s: Session): Session
    requires s.outgoing != []
  {
    Send(s, s.outgoing[0].frame).(outgoing := s.outgoing[0 := s.outgoing[0].(transmitted := true)], timer := true)
  }

  /** The resend timer has expired: resend the head, or abandon it. */
  function Expire(s: Session): Session {
    if s.outgoing == [] then s
    else if s.attempts + 1 < RESEND_ATTEMPTS then Transmit(s.(attempts := s.attempts + 1))
    else s.(outgoing := s.outgoing[1..], timer := false, attempts := 0)
  }

  function Tick(s: Session, expired: bool): Session {
    var s1 := if expired then Expire(s) else s;
    if !s1.timer && s1.outgoing != [] then Transmit(s1) else s1
  }

  /** The application takes the first incoming message, if it fits. */
  function FrameRead(s: Session, room: nat): Session {
    if s.incoming == [] || |s.incoming[0].frame.body| > room then s
    else s.(incoming := s.incoming[1..])
  }

  // ---------------------------------------------------------------- the endpoint

  class StreamMqtt {
    var incoming: seq<Item>
    var outgoing: seq<Item>
    var inbound: seq<Item>
    var resendTimer: bool
    var resendAttempts: nat
    ghost var sent: seq<Frame>
    ghost var delivered: seq<Frame>

    ghost function Abs(): Session
      reads this
    {
      Session(incoming, outgoing, inbound, resendTimer, resendAttempts, sent, delivered)
    }

    constructor ()
      ensures Abs() == INITIAL
    {
      incoming, outgoing, inbound := [], [], [];
      resendTimer, resendAttempts := false, 0;
      sent, delivered := [], [];
    }

    method RealWrite(f: Frame)
      modifies `sent
      ensures Abs() == Send(old(Abs()), f)
    {
      sent := sent + [f];
    }

    method NotifyOrAppend(item: Item, seen: Observer)
      modifies `incoming, `delivered
      ensures Abs() == Deliver(old(Abs()), item, seen)
    {
      delivered := delivered + [item.frame];
      var handled := seen(item.frame);
      if !handled {
        incoming := incoming + [item];
      }
    }

    static method RemoveFrame(queue: seq<Item>, typ: nibble, id: nat) returns (kept: seq<Item>, found: bool)
      ensures kept == Without(queue, typ, id)
      ensures found <==> |kept| != |queue|
      ensures found <==> exists k :: 0 <= k < |queue| && Matches(queue[k], typ, id)
    {
      kept, found := [], false;
      for i := 0 to |queue|
        invariant kept == Without(queue[..i], typ, id)
        invariant |kept| <= i
        invariant found <==> |kept| != i
        invariant found <==> exists k :: 0 <= k < i && Matches(queue[k], typ, id)
      {
        assert queue[..i + 1][..i] == queue[..i];
        if queue[i].frame.typ == typ && queue[i].id == id {
          found := true;
          assert Matches(queue[i], typ, id);
        } else {
          kept := kept + [queue[i]];
        }
      }
      assert queue[..|queue|] == queue;
    }

    method Publish(retain: bool, dup: bool, qos: nat, id: nat, topic: seq<byte>, payload: seq<byte>)
      requires qos <= 2 && |topic| < LIMIT && |payload| < LIMIT && id < LIMIT
      modifies this
      ensures Abs() == Published(old(Abs()), PublishFrame(retain, dup, qos, id, topic, payload), qos, id)
    {
      var frame := PublishFrame(retain, dup, qos, id, topic, payload);
      var msgSent := |outgoing| == 0;
      if msgSent {
        RealWrite(frame);
        if qos > 0 {
          resendTimer := true;
          resendAttempts := 0;
        }
      }
      if !msgSent || qos > 0 {
        outgoing := outgoing + [Item(frame, id, msgSent)];
      }
    }

    /** `stream_mqtt_subscribe` and `stream_mqtt_unsubscribe`: they differ in the frame only. */
    method Request(frame: Frame, id: nat)
      modifies this
      ensures Abs() == Requested(old(Abs()), frame, id)
    {
      var now := |outgoing| == 0;
      if now {
        RealWrite(frame);
        resendTimer := true;
        resendAttempts := 0;
      }
      outgoing := outgoing + [Item(frame, id, now)];
    }

    method Pubrel(id: nat)
      modifies this
      ensures Abs() == PubrelSent(old(Abs()), id)
    {
      var frame := IdFrame(PUBREL, id);
      outgoing := [Item(frame, id, true)] + outgoing;
      RealWrite(frame);
    }

    method HandleReceivedPublish(f: Frame, seen: Observer)
      requires f.typ == PUBLISH && WellFormed(f)
      modifies this
      ensures Abs() == HandlePublish(old(Abs()), f, seen)
    {
      var msg := ParsePublish(f.body, Qos(f.flags)).value;
      if Qos(f.flags) == 2 {
        var rest, found := RemoveFrame(inbound, f.typ, msg.id);
        inbound := rest + [Item(f, msg.id, false)];
        RealWrite(IdFrame(PUBREC, msg.id));
      } else {
        if Qos(f.flags) == 1 {
          RealWrite(IdFrame(PUBACK, msg.id));
        }
        NotifyOrAppend(Item(f, 0, false), seen);
      }
    }

    method HandleReceivedAck(f: Frame, seen: Observer)
      requires f.typ in {PUBACK, PUBREC, PUBCOMP, SUBACK, UNSUBACK} && WellFormed(f)
      modifies this
      ensures Abs() == HandleAck(old(Abs()), f, seen)
    {
      var id := GetShort(f.body);
      var rest, found := RemoveFrame(outgoing, RequestType(f.typ), id);
      outgoing := rest;
      if found {
        resendTimer := false;
      }
      if f.typ == PUBREC {
        Pubrel(id);
        resendTimer := true;
        resendAttempts := 0;
      } else if f.typ == SUBACK || f.typ == UNSUBACK {
        NotifyOrAppend(Item(f, 0, false), seen);
      }
    }

    method HandleReceivedPubrel(f: Frame, seen: Observer)
      requires f.typ == PUBREL && WellFormed(f)
      modifies this
      ensures Abs() == HandlePubrel(old(Abs()), f, seen)
    {
      var id := GetShort(f.body);
      RealWrite(IdFrame(PUBCOMP, id));
      ReleaseInbound(id, seen);
    }

    /** The loop over `inbound`: delivery of the QoS 2 message with this id is complete. */
    method ReleaseInbound(id: nat, seen: Observer)
      modifies `inbound, `incoming, `delivered
      ensures Abs() == Released(old(Abs()), id, seen)
    {
      var queue := inbound;
      ghost var s1 := Abs();
      var k := 0;  // where the item looked at stands by now
      for i := 0 to |queue|
        invariant k == |WithoutId(queue[..i], id)| && inbound == PassedAndRest(queue, i, id)
        invariant Abs() == DeliverId(s1, queue[..i], id, seen).(inbound := inbound)
      {
        QueueStep(s1, queue, i, id, seen);
        if queue[i].id == id {
          inbound := inbound[..k] + inbound[k + 1..];
          NotifyOrAppend(queue[i], seen);
        } else {
          k := k + 1;
        }
      }
      assert queue[..|queue|] == queue;
    }

    method HandleReceivedFrame(f: Frame, seen: Observer)
      requires WellFormed(f)
      modifies this
      ensures Abs() == HandleFrame(old(Abs()), f, seen)
    {
      if f.typ == CONNECT || f.typ == CONNACK || f.typ == SUBSCRIBE || f.typ == UNSUBSCRIBE {
        NotifyOrAppend(Item(f, 0, false), seen);
      } else if f.typ == PUBLISH {
        HandleReceivedPublish(f, seen);
      } else if f.typ in {PUBACK, PUBREC, PUBCOMP, SUBACK, UNSUBACK} {
        HandleReceivedAck(f, seen);
      } else if f.typ == PUBREL {
        HandleReceivedPubrel(f, seen);
      } else if f.typ == PINGREQ {
        RealWrite(Frame(PINGRESP, 0, []));
      } else if f.typ == DISCONNECT {
        NotifyOrAppend(Item(f.(body := [0]), 0, false), seen);
      }
    }

    /** `expired`: the clock has passed the resend deadline, which needs a running timer. */
    method DoTime(expired: bool)
      requires expired ==> resendTimer
      modifies this
      ensures Abs() == Tick(old(Abs()), expired)
    {
      if expired {
        if |outgoing| > 0 {
          resendAttempts := resendAttempts + 1;
          if resendAttempts < RESEND_ATTEMPTS {
            RealWrite(outgoing[0].frame);
            outgoing := outgoing[0 := outgoing[0].(transmitted := true)];
            resendTimer := true;
          } else {
            outgoing := outgoing[1..];
            resendTimer := false;
            resendAttempts := 0;
          }
        }
      }
      if !resendTimer {
        if |outgoing| > 0 {
          RealWrite(outgoing[0].frame);
          outgoing := outgoing[0 := outgoing[0].(transmitted := true)];
          resendTimer := true;
        }
      }
    }

    /** `None`: nothing there, or a bigger buffer is needed. */
    method ReadFrame(room: nat) returns (r: Option<Frame>)
      modifies `incoming
      ensures Abs() == FrameRead(old(Abs()), room)
      ensures r.None? <==> old(incoming) == [] || |old(incoming)[0].frame.body| > room
      ensures r.Some? ==> old(incoming) == [old(incoming)[0]] + incoming && r.value == old(incoming)[0].frame
    {
      if |incoming| == 0 || |incoming[0].frame.body| > room {
        return None;
      }
      r := Some(incoming[0].frame);
      incoming := incoming[1..];
    }
  }
}
