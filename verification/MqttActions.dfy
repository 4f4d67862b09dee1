/** What an endpoint can do in one step, and what every run of one endpoint keeps. */
module MqttActions {
  import opened Bytes
  import opened MqttCodec
  import opened MqttPackets
  import opened MqttSession

  datatype Action =
    | DoPublish(retain: bool, dup: bool, qos: nat, id: nat, topic: seq<byte>, payload: seq<byte>)
    | DoSubscribe(id: nat, topic: seq<byte>, maxQos: byte)
    | DoUnsubscribe(id: nat, topic: seq<byte>)
    | DoWrite(frame: Frame)
    | DoTick(expired: bool)
    | DoReceive(frame: Frame, seen: Observer)
    | DoRead(room: nat)

  /** Frames that an application writes itself: no part of the QoS 2 handshake, no request. */
  predicate AppMayWrite(f: Frame) {
    f.typ !in {PUBLISH, PUBREC, PUBREL, PUBCOMP, SUBSCRIBE, UNSUBSCRIBE}
  }

  predicate Enabled(s: Session, a: Action) {
    match a
    case DoPublish(_, _, qos, id, topic, payload) =>
      qos <= 2 && id < LIMIT && |topic| < LIMIT && |payload| < LIMIT
    case DoSubscribe(id, topic, _) => id < LIMIT && |topic| < LIMIT
    case DoUnsubscribe(id, topic) => id < LIMIT && |topic| < LIMIT
    case DoWrite(f) => AppMayWrite(f) && WellFormed(f)
    case DoTick(expired) => expired ==> s.timer
    case DoReceive(f, _) => WellFormed(f)
    case DoRead(_) => true
  }

  function SubscribeFrame(id: nat, topic: seq<byte>, qos: byte): Frame {
    Frame(SUBSCRIBE, 2, FormatSubscribe(id, topic, qos))
  }

  function UnsubscribeFrame(id: nat, topic: seq<byte>): Frame {
    Frame(UNSUBSCRIBE, 2, FormatUnsubscribe(id, topic))
  }

  function Next(s: Session, a: Action): Session
    requires Enabled(s, a)
  {
    match a
    case DoPublish(retain, dup, qos, id, topic, payload) =>
      Published(s, PublishFrame(retain, dup, qos, id, topic, payload), qos, id)
    case DoSubscribe(id, topic, maxQos) => Requested(s, SubscribeFrame(id, topic, maxQos), id)
    case DoUnsubscribe(id, topic) => Requested(s, UnsubscribeFrame(id, topic), id)
    case DoWrite(f) => Send(s, f)
    case DoTick(expired) => Tick(s, expired)
    case DoReceive(f, seen) => HandleFrame(s, f, seen)
    case DoRead(room) => FrameRead(s, room)
  }

  /** The states an endpoint passes through, one per action, from the initial one. */
  ghost predicate IsRun(states: seq<Session>, actions: seq<Action>) {
    && |states| == |actions| + 1
    && states[0] == INITIAL
    && forall k :: 0 <= k < |actions| ==> Enabled(states[k], actions[k]) && states[k + 1] == Next(states[k], actions[k])
  }

  // ---------------------------------------------------------------- the outgoing queue

  predicate TransmittedFirst(q: seq<Item>) {
    forall i, j :: 0 <= i < j < |q| && q[j].transmitted ==> q[i].transmitted
  }

  predicate TransmittedAreSent(q: seq<Item>, sent: seq<Frame>) {
    forall i :: 0 <= i < |q| && q[i].transmitted ==> q[i].frame in sent
  }

  /** The discipline of outgoing requests between calls. */
  predicate Disciplined(s: Session) {
    && TransmittedFirst(s.outgoing)
    && TransmittedAreSent(s.outgoing, s.sent)
    && (s.timer ==> s.outgoing != [] && s.outgoing[0].transmitted)
    && s.attempts < RESEND_ATTEMPTS
  }

  predicate IsRequest(f: Frame) {
    f.typ == PUBREL || f.typ == SUBSCRIBE || f.typ == UNSUBSCRIBE || (f.typ == PUBLISH && Qos(f.flags) > 0)
  }

  /** Requests are only ever written from the head of the queue, and marked there. */
  predicate SendsFromHead(s: Session, t: Session) {
    && s.sent <= t.sent
    && forall k :: |s.sent| <= k < |t.sent| && IsRequest(t.sent[k]) ==>
         t.outgoing != [] && t.outgoing[0].frame == t.sent[k] && t.outgoing[0].transmitted
  }

  lemma {:induction false} WithoutKeeps(q: seq<Item>, typ: nibble, id: nat, sent: seq<Frame>)
    requires TransmittedFirst(q) && TransmittedAreSent(q, sent)
    ensures TransmittedFirst(Without(q, typ, id)) && TransmittedAreSent(Without(q, typ, id), sent)
    ensures |Without(q, typ, id)| <= |q|
    ensures |Without(q, typ, id)| == |q| ==> Without(q, typ, id) == q
    ensures forall item :: item in Without(q, typ, id) ==> item in q
  {
    if q != [] {
      WithoutKeeps(q[..|q| - 1], typ, id, sent);
      assert q == q[..|q| - 1] + [q[|q| - 1]];
      if q[|q| - 1].transmitted {
        assert forall item :: item in q[..|q| - 1] ==> item.transmitted;
      }
    }
  }

  lemma {:induction false} DeliverIdFrame(s: Session, q: seq<Item>, id: nat, seen: Observer)
    ensures var t := DeliverId(s, q, id, seen);
            t == s.(incoming := t.incoming, delivered := t.delivered)
  {
    if q != [] {
      DeliverIdFrame(s, q[..|q| - 1], id, seen);
    }
  }

  lemma TransmitKeeps(s: Session)
    requires s.outgoing != []
    requires TransmittedFirst(s.outgoing) && TransmittedAreSent(s.outgoing, s.sent) && s.attempts < RESEND_ATTEMPTS
    ensures Disciplined(Transmit(s)) && SendsFromHead(s, Transmit(s))
  {
  }

  lemma TickKeeps(s: Session, expired: bool)
    requires Disciplined(s) && (expired ==> s.timer)
    ensures Disciplined(Tick(s, expired)) && SendsFromHead(s, Tick(s, expired))
  {
    var s1 := if expired then Expire(s) else s;
    if expired && s.attempts + 1 < RESEND_ATTEMPTS {
      TransmitKeeps(s.(attempts := s.attempts + 1));
    } else if !s1.timer && s1.outgoing != [] {
      TransmitKeeps(s1);
    }
  }

  lemma ReceiveKeeps(s: Session, f: Frame, seen: Observer)
    requires Disciplined(s) && WellFormed(f)
    ensures Disciplined(HandleFrame(s, f, seen)) && SendsFromHead(s, HandleFrame(s, f, seen))
  {
    if f.typ in {PUBACK, PUBREC, PUBCOMP, SUBACK, UNSUBACK} {
      WithoutKeeps(s.outgoing, RequestType(f.typ), Id(f), s.sent);
    } else if f.typ == PUBREL {
      DeliverIdFrame(Send(s, IdFrame(PUBCOMP, Id(f))), s.inbound, Id(f), seen);
    }
  }

  lemma StepKeepsDiscipline(s: Session, a: Action)
    requires Disciplined(s) && Enabled(s, a)
    ensures Disciplined(Next(s, a)) && SendsFromHead(s, Next(s, a))
  {
    match a {
      case DoTick(expired) => TickKeeps(s, expired);
      case DoReceive(f, seen) => ReceiveKeeps(s, f, seen);
      case _ =>
    }
  }

  /** In every run: transmitted frames form a prefix of the queue, requests leave from its head,
      the timer runs only over a non-empty queue and does after every tick, attempts stay below the limit. */
  lemma {:induction false} OutgoingDiscipline(states: seq<Session>, actions: seq<Action>, k: nat)
    requires IsRun(states, actions) && k < |states|
    ensures Disciplined(states[k])
    ensures k + 1 < |states| ==> SendsFromHead(states[k], states[k + 1])
    ensures k + 1 < |states| && actions[k].DoTick? ==> (states[k + 1].timer <==> states[k + 1].outgoing != [])
  {
    if k > 0 {
      OutgoingDiscipline(states, actions, k - 1);
      StepKeepsDiscipline(states[k - 1], actions[k - 1]);
    }
    if k + 1 < |states| {
      StepKeepsDiscipline(states[k], actions[k]);
    }
  }

  // ---------------------------------------------------------------- resending and giving up

  /** `k` expiries in a row, with no acknowledgement and no request in between. */
  function Expiries(s: Session, k: nat): Session {
    if k == 0 then s else Tick(Expiries(s, k - 1), true)
  }

  function Effort(s: Session): int {
    RESEND_ATTEMPTS * |s.outgoing| - s.attempts
  }

  /** Each expiry lowers the effort left by one, so the queue is given up entirely, and no earlier. */
  lemma {:induction false} ExpiriesDrain(s: Session, k: nat)
    requires Disciplined(s) && s.timer && k <= Effort(s)
    ensures Disciplined(Expiries(s, k)) && Effort(Expiries(s, k)) == Effort(s) - k
    ensures Expiries(s, k).timer <==> Expiries(s, k).outgoing != []
    ensures Expiries(s, k).outgoing == [] <==> k == Effort(s)
  {
    if k > 0 {
      ExpiriesDrain(s, k - 1);
      TickKeeps(Expiries(s, k - 1), true);
    }
  }

  function Copies(f: Frame, k: nat): seq<Frame> {
    seq(k, _ => f)
  }

  /** The head is resent as long as attempts are left. */
  lemma {:induction false} HeadIsResent(s: Session, k: nat)
    requires Disciplined(s) && s.timer && s.attempts + k < RESEND_ATTEMPTS
    ensures Expiries(s, k) == s.(attempts := s.attempts + k, sent := s.sent + Copies(s.outgoing[0].frame, k))
  {
    if k > 0 {
      HeadIsResent(s, k - 1);
      var f := s.outgoing[0].frame;
      assert Copies(f, k) == Copies(f, k - 1) + [f];
      assert s.outgoing[0 := s.outgoing[0].(transmitted := true)] == s.outgoing;
    }
  }

  /** From its promotion to the head by a tick, a frame is written `RESEND_ATTEMPTS - attempts` times before it is
      abandoned: the full number exactly when the attempt counter is 0, which the code does not ensure. */
  lemma TransmissionsBeforeAbandoned(s: Session)
    requires Disciplined(s) && !s.timer && s.outgoing != []
    ensures var n := RESEND_ATTEMPTS - s.attempts;
            var head := s.outgoing[0].frame;
            var last := Expiries(Tick(s, false), n - 1);
            && last.sent == s.sent + Copies(head, n) && last.outgoing != [] && last.outgoing[0].frame == head
            && Tick(last, true).sent[..|last.sent|] == last.sent
            && |Tick(last, true).outgoing| == |s.outgoing| - 1
            && (n == RESEND_ATTEMPTS <==> s.attempts == 0)
  {
    var n := RESEND_ATTEMPTS - s.attempts;
    var head := s.outgoing[0].frame;
    TickKeeps(s, false);
    HeadIsResent(Tick(s, false), n - 1);
    assert s.sent + [head] + Copies(head, n - 1) == s.sent + Copies(head, n);
  }

  /** A run in which the second of two QoS 1 messages is abandoned after a single transmission. */
  lemma AbandonedAfterOneTransmission()
    ensures var f1, f2 := PublishFrame(false, false, 1, 1, [], []), PublishFrame(false, false, 1, 2, [], []);
            exists states: seq<Session>, actions: seq<Action> ::
              IsRun(states, actions) && |actions| == 7 && states[2].outgoing == [Item(f1, 1, true), Item(f2, 2, false)]
              && states[7].outgoing == [] && states[7].sent == [f1, f1, f1, f2]
  {
    var f1, f2 := PublishFrame(false, false, 1, 1, [], []), PublishFrame(false, false, 1, 2, [], []);
    var seen: Observer := _ => true;
    var actions := [DoPublish(false, false, 1, 1, [], []), DoPublish(false, false, 1, 2, [], []),
                    DoTick(true), DoTick(true), DoReceive(IdFrame(PUBACK, 1), seen), DoTick(false), DoTick(true)];
    var states := seq(8, k requires 0 <= k < 8 => Late(f1, f2, k));
    forall k | 0 <= k < |actions|
      ensures Enabled(states[k], actions[k]) && states[k + 1] == Next(states[k], actions[k])
    {
      if k < 4 {
        FirstSends(f1, f2);
      } else {
        Promotion(f1, f2, seen);
      }
    }
    assert IsRun(states, actions);
  }

  /** The states of that run. */
  function Late(f1: Frame, f2: Frame, k: nat): Session
    requires k < 8
  {
    var q1, q2, q2t := Item(f1, 1, true), Item(f2, 2, false), Item(f2, 2, true);
    if k == 0 then INITIAL
    else if k == 1 then Session([], [q1], [], true, 0, [f1], [])
    else if k == 2 then Session([], [q1, q2], [], true, 0, [f1], [])
    else if k == 3 then Session([], [q1, q2], [], true, 1, [f1, f1], [])
    else if k == 4 then Session([], [q1, q2], [], true, 2, [f1, f1, f1], [])
    else if k == 5 then Session([], [q2], [], false, 2, [f1, f1, f1], [])
    else if k == 6 then Session([], [q2t], [], true, 2, [f1, f1, f1, f2], [])
    else Session([], [], [], false, 0, [f1, f1, f1, f2], [])
  }

  lemma FirstSends(f1: Frame, f2: Frame)
    ensures Published(Late(f1, f2, 0), f1, 1, 1) == Late(f1, f2, 1)
    ensures Published(Late(f1, f2, 1), f2, 1, 2) == Late(f1, f2, 2)
    ensures Tick(Late(f1, f2, 2), true) == Late(f1, f2, 3)
    ensures Tick(Late(f1, f2, 3), true) == Late(f1, f2, 4)
  {
  }

  lemma Promotion(f1: Frame, f2: Frame, seen: Observer)
    requires f1.typ == PUBLISH
    ensures HandleFrame(Late(f1, f2, 4), IdFrame(PUBACK, 1), seen) == Late(f1, f2, 5)
    ensures Tick(Late(f1, f2, 5), false) == Late(f1, f2, 6)
    ensures Tick(Late(f1, f2, 6), true) == Late(f1, f2, 7)
  {
    var q1, q2 := Item(f1, 1, true), Item(f2, 2, false);
    assert Without([q1, q2], PUBLISH, 1) == [q2] by {
      assert [q1, q2][..1] == [q1];
      assert Without([q1], PUBLISH, 1) == [];
    }
    assert Id(IdFrame(PUBACK, 1)) == 1;
  }
}
