/** Two endpoints joined by reliable first-in first-out channels: what QoS 2 gives in every run (MQTT 3.1.1 section 4.3.3). */
module MqttNetwork {
  import opened Bytes
  import opened MqttCodec
  import opened MqttPackets
  import opened MqttSession
  import opened MqttActions
  import opened MqttDeframer
  import opened Wrappers

  // ---------------------------------------------------------------- the frames of the QoS 2 handshake

  datatype Kind = Pub2 | Rec | Rel | Comp

  predicate Is(kind: Kind, f: Frame) {
    match kind
    case Pub2 => f.typ == PUBLISH && Qos(f.flags) == 2
    case Rec => f.typ == PUBREC
    case Rel => f.typ == PUBREL
    case Comp => f.typ == PUBCOMP
  }

  /** The packet ids of the frames of one kind. */
  ghost function Ids(kind: Kind, frames: seq<Frame>): set<nat> {
    set f | f in frames && Is(kind, f) :: Id(f)
  }

  ghost function QueuedIds(kind: Kind, q: seq<Item>): set<nat> {
    set item | item in q && Is(kind, item.frame) :: Id(item.frame)
  }

  /** How often the QoS 2 message with this id is among the delivered ones. */
  function Deliveries(delivered: seq<Frame>, id: nat): nat {
    if delivered == [] then 0
    else
      var last := delivered[|delivered| - 1];
      Deliveries(delivered[..|delivered| - 1], id) + (if Is(Pub2, last) && Id(last) == id then 1 else 0)
  }

  lemma IdsSnoc(kind: Kind, frames: seq<Frame>, f: Frame)
    ensures Ids(kind, frames + [f]) == Ids(kind, frames) + (if Is(kind, f) then {Id(f)} else {})
  {
    assert forall g :: g in frames + [f] <==> g in frames || g == f;
  }

  lemma DeliveriesSnoc(delivered: seq<Frame>, f: Frame, id: nat)
    ensures Deliveries(delivered + [f], id) == Deliveries(delivered, id) + (if Is(Pub2, f) && Id(f) == id then 1 else 0)
  {
    assert (delivered + [f])[..|delivered|] == delivered;
  }

  // ---------------------------------------------------------------- the network

  /** `gotA`: how many of B's frames A has handled; `pubA`: the QoS 2 messages A has published, by id. */
  datatype Net = Net(a: Session, b: Session, gotA: nat, gotB: nat, pubA: map<nat, Frame>, pubB: map<nat, Frame>)

  const START := Net(INITIAL, INITIAL, 0, 0, map[], map[])

  function Swap(n: Net): Net {
    Net(n.b, n.a, n.gotB, n.gotA, n.pubB, n.pubA)
  }

  predicate PublishesQos2(act: Action) {
    act.DoPublish? && act.qos == 2
  }

  /** A acts.  A QoS 2 id is published once only; what A receives is the next frame of its channel from B. */
  ghost predicate StepA(n: Net, act: Action, m: Net) {
    && Enabled(n.a, act)
    && (act.DoReceive? ==> n.gotA < |n.b.sent| && act.frame == n.b.sent[n.gotA])
    && (PublishesQos2(act) ==> act.id !in n.pubA)
    && m.a == Next(n.a, act) && m.b == n.b
    && m.gotA == (if act.DoReceive? then n.gotA + 1 else n.gotA) && m.gotB == n.gotB
    && m.pubB == n.pubB
    && m.pubA == if PublishesQos2(act)
                 then n.pubA[act.id := PublishFrame(act.retain, act.dup, 2, act.id, act.topic, act.payload)]
                 else n.pubA
  }

  ghost predicate Step(n: Net, act: Action, m: Net) {
    StepA(n, act, m) || StepA(Swap(n), act, Swap(m))
  }

  /** Any interleaving of the two endpoints' actions. */
  ghost predicate IsNetRun(nets: seq<Net>, acts: seq<Action>) {
    && |nets| == |acts| + 1
    && nets[0] == START
    && forall k :: 0 <= k < |acts| ==> Step(nets[k], acts[k], nets[k + 1])
  }

  // ---------------------------------------------------------------- the invariant of one direction

  /** Every PUBLISH(n) written precedes every PUBREL(n) written. */
  ghost predicate PublishBeforeRelease(sent: seq<Frame>) {
    forall i, j :: 0 <= i < j < |sent| && Is(Rel, sent[i]) && Is(Pub2, sent[j]) ==> Id(sent[i]) != Id(sent[j])
  }

  predicate MayQueue(item: Item) {
    && item.frame.typ in {PUBLISH, PUBREL, SUBSCRIBE, UNSUBSCRIBE}
    && WellFormed(item.frame)
    && (Is(Pub2, item.frame) ==> item.id == Id(item.frame))
  }

  /** The sending side; `got` is the part of `s.sent` the other side has handled. */
  ghost predicate SendOk(s: Session, got: seq<Frame>, pub: map<nat, Frame>) {
    && (forall f :: f in s.sent ==> WellFormed(f))
    && (forall item :: item in s.outgoing ==> MayQueue(item))
    && (forall f :: f in s.sent && Is(Pub2, f) ==> Id(f) in pub && pub[Id(f)] == f)
    && (forall item :: item in s.outgoing && Is(Pub2, item.frame) ==>
          Id(item.frame) in pub && pub[Id(item.frame)] == item.frame)
    && Ids(Rel, s.sent) + QueuedIds(Rel, s.outgoing) <= Ids(Pub2, got)
    && Ids(Rel, s.sent) + QueuedIds(Rel, s.outgoing) !! QueuedIds(Pub2, s.outgoing)
    && PublishBeforeRelease(s.sent)
  }

  predicate UniqueIds(q: seq<Item>) {
    forall i, j :: 0 <= i < j < |q| ==> q[i].id != q[j].id
  }

  predicate IsInbound(item: Item) {
    Is(Pub2, item.frame) && item.id == Id(item.frame)
  }

  /** The receiving side, after handling the frames `got`. */
  ghost predicate RecvOk(r: Session, got: seq<Frame>, pub: map<nat, Frame>) {
    && UniqueIds(r.inbound)
    && (forall item :: item in r.inbound ==> IsInbound(item) && item.id in pub && pub[item.id] == item.frame)
    && QueuedIds(Pub2, r.inbound) == Ids(Pub2, got) - Ids(Rel, got)
    && (forall f :: f in r.delivered && Is(Pub2, f) ==> Id(f) in pub && pub[Id(f)] == f)
    && (forall id: nat :: Deliveries(r.delivered, id) == if id in Ids(Pub2, got) * Ids(Rel, got) then 1 else 0)
    && Ids(Rec, r.sent) <= Ids(Pub2, got)
    && Ids(Comp, r.sent) <= Ids(Rel, got)
  }

  ghost predicate Half(s: Session, r: Session, got: nat, pub: map<nat, Frame>) {
    got <= |s.sent| && SendOk(s, s.sent[..got], pub) && RecvOk(r, s.sent[..got], pub)
  }

  ghost predicate Inv(n: Net) {
    Half(n.a, n.b, n.gotB, n.pubA) && Half(n.b, n.a, n.gotA, n.pubB)
  }

  // ---------------------------------------------------------------- the sending side

  lemma SendKeeps(s: Session, f: Frame, got: seq<Frame>, pub: map<nat, Frame>)
    requires SendOk(s, got, pub) && WellFormed(f)
    requires Is(Pub2, f) ==> Id(f) in pub && pub[Id(f)] == f && Id(f) !in Ids(Rel, s.sent)
    requires Is(Rel, f) ==> Id(f) in Ids(Pub2, got) && Id(f) !in QueuedIds(Pub2, s.outgoing)
    ensures SendOk(Send(s, f), got, pub)
  {
    IdsSnoc(Rel, s.sent, f);
    forall i | 0 <= i < |s.sent| && Is(Rel, s.sent[i]) ensures Id(s.sent[i]) in Ids(Rel, s.sent) {
    }
  }

  /** Frames that take no part in this direction of the handshake. */
  lemma SendPlainKeeps(s: Session, f: Frame, got: seq<Frame>, pub: map<nat, Frame>)
    requires SendOk(s, got, pub) && WellFormed(f) && !Is(Pub2, f) && !Is(Rel, f)
    ensures SendOk(Send(s, f), got, pub)
  {
    SendKeeps(s, f, got, pub);
  }

  /** Only `outgoing` and `sent` matter to the sending side. */
  lemma SendFrame(s: Session, t: Session, got: seq<Frame>, pub: map<nat, Frame>)
    requires SendOk(s, got, pub) && t.sent == s.sent && t.outgoing == s.outgoing
    ensures SendOk(t, got, pub)
  {
  }

  lemma DropKeeps(s: Session, q: seq<Item>, got: seq<Frame>, pub: map<nat, Frame>)
    requires SendOk(s, got, pub) && forall item :: item in q ==> item in s.outgoing
    ensures SendOk(s.(outgoing := q), got, pub)
  {
    assert QueuedIds(Rel, q) <= QueuedIds(Rel, s.outgoing);
    assert QueuedIds(Pub2, q) <= QueuedIds(Pub2, s.outgoing);
  }

  lemma QueueKeeps(s: Session, q: seq<Item>, item: Item, got: seq<Frame>, pub: map<nat, Frame>)
    requires SendOk(s, got, pub) && MayQueue(item)
    requires forall it :: it in q <==> it in s.outgoing || it == item
    requires Is(Pub2, item.frame) ==> Id(item.frame) in pub && pub[Id(item.frame)] == item.frame
                                      && Id(item.frame) !in Ids(Rel, s.sent) + QueuedIds(Rel, s.outgoing)
    requires Is(Rel, item.frame) ==> Id(item.frame) in Ids(Pub2, got) && Id(item.frame) !in QueuedIds(Pub2, s.outgoing)
    ensures SendOk(s.(outgoing := q), got, pub)
  {
    assert QueuedIds(Rel, q) == QueuedIds(Rel, s.outgoing) + (if Is(Rel, item.frame) then {Id(item.frame)} else {});
    assert QueuedIds(Pub2, q) == QueuedIds(Pub2, s.outgoing) + (if Is(Pub2, item.frame) then {Id(item.frame)} else {});
  }

  lemma TransmitKeepsSend(s: Session, got: seq<Frame>, pub: map<nat, Frame>)
    requires SendOk(s, got, pub) && s.outgoing != []
    ensures SendOk(Transmit(s), got, pub)
  {
    var head := s.outgoing[0];
    var f := head.frame;
    assert head in s.outgoing;
    assert Is(Rel, f) ==> Id(f) in QueuedIds(Rel, s.outgoing);
    assert Is(Pub2, f) ==> Id(f) in QueuedIds(Pub2, s.outgoing);
    SendKeeps(s, f, got, pub);
    var t := Send(s, f);
    var q := s.outgoing[0 := head.(transmitted := true)];
    assert forall item :: item in q ==> item == head.(transmitted := true) || item in s.outgoing;
    assert QueuedIds(Rel, q) <= QueuedIds(Rel, s.outgoing);
    assert QueuedIds(Pub2, q) <= QueuedIds(Pub2, s.outgoing);
    assert SendOk(t.(outgoing := q), got, pub);
    SendFrame(t.(outgoing := q), Transmit(s), got, pub);
  }

  lemma TickKeepsSend(s: Session, expired: bool, got: seq<Frame>, pub: map<nat, Frame>)
    requires SendOk(s, got, pub)
    ensures SendOk(Tick(s, expired), got, pub)
  {
    var s1 := if expired then Expire(s) else s;
    if expired && s.outgoing != [] {
      if s.attempts + 1 < RESEND_ATTEMPTS {
        var s0 := s.(attempts := s.attempts + 1);
        SendFrame(s, s0, got, pub);
        TransmitKeepsSend(s0, got, pub);
      } else {
        DropKeeps(s, s.outgoing[1..], got, pub);
        SendFrame(s.(outgoing := s.outgoing[1..]), s1, got, pub);
      }
    }
    if !s1.timer && s1.outgoing != [] {
      TransmitKeepsSend(s1, got, pub);
    }
  }

  lemma RequestKeepsSend(s: Session, f: Frame, id: nat, got: seq<Frame>, pub: map<nat, Frame>)
    requires SendOk(s, got, pub) && f.typ in {SUBSCRIBE, UNSUBSCRIBE} && WellFormed(f)
    ensures SendOk(Requested(s, f, id), got, pub)
  {
    var now := s.outgoing == [];
    var s1 := if now then StartTimer(Send(s, f)) else s;
    if now {
      SendPlainKeeps(s, f, got, pub);
      SendFrame(Send(s, f), s1, got, pub);
    }
    var item := Item(f, id, now);
    QueueKeeps(s1, s1.outgoing + [item], item, got, pub);
  }

  lemma PublishKeepsSend(s: Session, f: Frame, qos: nat, id: nat, got: seq<Frame>, pub: map<nat, Frame>)
    requires SendOk(s, got, pub) && f.typ == PUBLISH && WellFormed(f)
    requires Is(Pub2, f) <==> qos == 2
    requires qos == 2 ==> Id(f) == id && id in pub && pub[id] == f && id !in Ids(Rel, s.sent) + QueuedIds(Rel, s.outgoing)
    ensures SendOk(Published(s, f, qos, id), got, pub)
  {
    var now := s.outgoing == [];
    var s1 := if now then Send(s, f) else s;
    var s2 := if now && qos > 0 then StartTimer(s1) else s1;
    if now {
      IdsSnoc(Rel, s.sent, f);
      SendKeeps(s, f, got, pub);
    }
    SendFrame(s1, s2, got, pub);
    var item := Item(f, id, now);
    if !now || qos > 0 {
      QueueKeeps(s2, s2.outgoing + [item], item, got, pub);
    }
  }

  lemma {:induction false} WithoutRemoves(q: seq<Item>, typ: nibble, id: nat)
    ensures forall item :: item in Without(q, typ, id) <==> item in q && !Matches(item, typ, id)
  {
    if q != [] {
      WithoutRemoves(q[..|q| - 1], typ, id);
      assert q == q[..|q| - 1] + [q[|q| - 1]];
    }
  }

  lemma IdFrameId(typ: nibble, id: nat)
    requires typ != PUBLISH && id < LIMIT
    ensures Id(IdFrame(typ, id)) == id && WellFormed(IdFrame(typ, id))
  {
  }

  lemma IdIsShort(f: Frame)
    ensures Id(f) < LIMIT
  {
    if f.typ == PUBLISH {
      var topic := TakeString(f.body);
      if topic.Some? && |topic.value.rest| >= 2 {
        assert GetShort(topic.value.rest) < LIMIT;
      }
    }
  }

  lemma AckKeepsSend(s: Session, f: Frame, seen: Observer, got: seq<Frame>, pub: map<nat, Frame>)
    requires SendOk(s, got, pub) && f.typ in {PUBACK, PUBREC, PUBCOMP, SUBACK, UNSUBACK}
    requires Is(Rec, f) ==> Id(f) in Ids(Pub2, got)
    ensures SendOk(HandleAck(s, f, seen), got, pub)
  {
    var rest := Without(s.outgoing, RequestType(f.typ), Id(f));
    WithoutRemoves(s.outgoing, RequestType(f.typ), Id(f));
    DropKeeps(s, rest, got, pub);
    var s1 := Acknowledged(s, f.typ, Id(f));
    SendFrame(s.(outgoing := rest), s1, got, pub);
    if f.typ == PUBREC {
      IdIsShort(f);
      IdFrameId(PUBREL, Id(f));
      var item := Item(IdFrame(PUBREL, Id(f)), Id(f), true);
      assert Id(f) !in QueuedIds(Pub2, rest);
      QueueKeeps(s1, [item] + s1.outgoing, item, got, pub);
      assert QueuedIds(Pub2, [item] + s1.outgoing) <= QueuedIds(Pub2, rest);
      SendKeeps(s1.(outgoing := [item] + s1.outgoing), item.frame, got, pub);
      SendFrame(PubrelSent(s1, Id(f)), HandleAck(s, f, seen), got, pub);
    }
  }

  lemma ReceiveKeepsSend(s: Session, f: Frame, seen: Observer, got: seq<Frame>, pub: map<nat, Frame>)
    requires SendOk(s, got, pub)
    requires Is(Rec, f) ==> Id(f) in Ids(Pub2, got)
    ensures SendOk(HandleFrame(s, f, seen), got, pub)
  {
    IdIsShort(f);
    var t := HandleFrame(s, f, seen);
    if f.typ in {PUBACK, PUBREC, PUBCOMP, SUBACK, UNSUBACK} {
      AckKeepsSend(s, f, seen, got, pub);
    } else if f.typ == PUBLISH && Qos(f.flags) in {1, 2} {
      var reply := IdFrame(if Qos(f.flags) == 2 then PUBREC else PUBACK, Id(f));
      SendPlainKeeps(s, reply, got, pub);
      SendFrame(Send(s, reply), t, got, pub);
    } else if f.typ == PUBREL {
      var reply := IdFrame(PUBCOMP, Id(f));
      SendPlainKeeps(s, reply, got, pub);
      DeliverIdFrame(Send(s, reply), s.inbound, Id(f), seen);
      SendFrame(Send(s, reply), t, got, pub);
    } else if f.typ == PINGREQ {
      SendPlainKeeps(s, Frame(PINGRESP, 0, []), got, pub);
    } else {
      SendFrame(s, t, got, pub);
    }
  }

  // ---------------------------------------------------------------- the receiving side

  /** Only `inbound`, `delivered` and the replies written matter to the receiving side. */
  lemma RecvFrame(r: Session, t: Session, got: seq<Frame>, pub: map<nat, Frame>)
    requires RecvOk(r, got, pub) && t.inbound == r.inbound && t.delivered == r.delivered
    requires Ids(Rec, t.sent) == Ids(Rec, r.sent) && Ids(Comp, t.sent) == Ids(Comp, r.sent)
    ensures RecvOk(t, got, pub)
  {
  }

  lemma RecvSendKeeps(r: Session, f: Frame, got: seq<Frame>, pub: map<nat, Frame>)
    requires RecvOk(r, got, pub)
    requires Is(Rec, f) ==> Id(f) in Ids(Pub2, got)
    requires Is(Comp, f) ==> Id(f) in Ids(Rel, got)
    ensures RecvOk(Send(r, f), got, pub)
  {
    IdsSnoc(Rec, r.sent, f);
    IdsSnoc(Comp, r.sent, f);
  }

  /** A message that is no QoS 2 message is delivered. */
  lemma RecvDeliverKeeps(r: Session, item: Item, seen: Observer, got: seq<Frame>, pub: map<nat, Frame>)
    requires RecvOk(r, got, pub) && !Is(Pub2, item.frame)
    ensures RecvOk(Deliver(r, item, seen), got, pub)
  {
    forall id: nat ensures Deliveries(r.delivered + [item.frame], id) == Deliveries(r.delivered, id) {
      DeliveriesSnoc(r.delivered, item.frame, id);
    }
  }

  /** One more frame handled that is neither PUBLISH with QoS 2 nor PUBREL. */
  lemma RecvGotKeeps(r: Session, f: Frame, got: seq<Frame>, pub: map<nat, Frame>)
    requires RecvOk(r, got, pub) && !Is(Pub2, f) && !Is(Rel, f)
    ensures RecvOk(r, got + [f], pub)
  {
    IdsSnoc(Pub2, got, f);
    IdsSnoc(Rel, got, f);
  }

  lemma {:induction false} WithoutUnique(q: seq<Item>, typ: nibble, id: nat)
    requires UniqueIds(q)
    ensures UniqueIds(Without(q, typ, id))
  {
    if q != [] {
      var p := q[..|q| - 1];
      WithoutUnique(p, typ, id);
      WithoutRemoves(p, typ, id);
      forall item | item in Without(p, typ, id) ensures item.id != q[|q| - 1].id {
        assert item in p;
      }
    }
  }

  /** Replacing the waiting message with an id by its latest copy. */
  lemma ReplaceInbound(q: seq<Item>, item: Item)
    requires UniqueIds(q) && IsInbound(item) && forall it :: it in q ==> IsInbound(it)
    ensures var t := Without(q, PUBLISH, item.id) + [item];
            && UniqueIds(t)
            && (forall it :: it in t ==> it == item || it in q)
            && QueuedIds(Pub2, t) == QueuedIds(Pub2, q) + {item.id}
  {
    var rest := Without(q, PUBLISH, item.id);
    WithoutRemoves(q, PUBLISH, item.id);
    WithoutUnique(q, PUBLISH, item.id);
    forall i | 0 <= i < |rest| ensures rest[i].id != item.id {
      assert rest[i] in rest;
    }
    assert forall it :: it in q && it.id == item.id ==> Matches(it, PUBLISH, item.id);
    assert QueuedIds(Pub2, rest) == QueuedIds(Pub2, q) - {item.id};
    assert QueuedIds(Pub2, rest + [item]) == QueuedIds(Pub2, rest) + {item.id};
  }

  lemma RecvPublish(r: Session, f: Frame, seen: Observer, got: seq<Frame>, pub: map<nat, Frame>)
    requires RecvOk(r, got, pub) && Is(Pub2, f) && Id(f) !in Ids(Rel, got) && Id(f) in pub && pub[Id(f)] == f
    ensures RecvOk(HandlePublish(r, f, seen), got + [f], pub)
  {
    var id := Id(f);
    IdIsShort(f);
    IdFrameId(PUBREC, id);
    IdsSnoc(Pub2, got, f);
    IdsSnoc(Rel, got, f);
    IdsSnoc(Rec, r.sent, IdFrame(PUBREC, id));
    IdsSnoc(Comp, r.sent, IdFrame(PUBREC, id));
    ReplaceInbound(r.inbound, Item(f, id, false));
  }

  /** What releasing an id leaves in the queue. */
  lemma {:induction false} WithoutIdUnique(q: seq<Item>, id: nat)
    requires UniqueIds(q)
    ensures UniqueIds(WithoutId(q, id))
    ensures forall item :: item in WithoutId(q, id) <==> item in q && item.id != id
  {
    if q != [] {
      assert q == q[..|q| - 1] + [q[|q| - 1]];
      WithoutIdUnique(q[..|q| - 1], id);
    }
  }

  /** What it delivers from a queue with unique ids. */
  lemma {:induction false} ReleaseUnique(r: Session, q: seq<Item>, id: nat, seen: Observer)
    requires UniqueIds(q) && forall item :: item in q ==> IsInbound(item)
    ensures var t := DeliverId(r, q, id, seen);
            && (id !in QueuedIds(Pub2, q) ==> t.delivered == r.delivered)
            && (id in QueuedIds(Pub2, q) ==> exists f :: Is(Pub2, f) && Id(f) == id && t.delivered == r.delivered + [f]
                                                 && exists item :: item in q && item.frame == f && item.id == id)
  {
    if q != [] {
      var p, last := q[..|q| - 1], q[|q| - 1];
      assert q == p + [last];
      ReleaseUnique(r, p, id, seen);
      assert IsInbound(last) by { assert last in q; }
      assert QueuedIds(Pub2, q) == QueuedIds(Pub2, p) + {last.id};
      assert last.id !in QueuedIds(Pub2, p);
    }
  }

  lemma RecvRelease(r: Session, f: Frame, seen: Observer, got: seq<Frame>, pub: map<nat, Frame>)
    requires RecvOk(r, got, pub) && Is(Rel, f) && Id(f) in Ids(Pub2, got)
    ensures RecvOk(HandlePubrel(r, f, seen), got + [f], pub)
  {
    var id := Id(f);
    IdIsShort(f);
    IdFrameId(PUBCOMP, id);
    IdsSnoc(Pub2, got, f);
    IdsSnoc(Rel, got, f);
    IdsSnoc(Rec, r.sent, IdFrame(PUBCOMP, id));
    IdsSnoc(Comp, r.sent, IdFrame(PUBCOMP, id));
    var r1 := Send(r, IdFrame(PUBCOMP, id));
    WithoutIdUnique(r.inbound, id);
    ReleaseUnique(r1, r.inbound, id, seen);
    DeliverIdFrame(r1, r.inbound, id, seen);
    var t := HandlePubrel(r, f, seen);
    assert QueuedIds(Pub2, t.inbound) == QueuedIds(Pub2, r.inbound) - {id};
    forall n: nat
      ensures Deliveries(t.delivered, n) == Deliveries(r.delivered, n) + (if n == id && id in QueuedIds(Pub2, r.inbound) then 1 else 0)
    {
      CountRelease(r, t, id, n);
    }
  }

  lemma CountRelease(r: Session, t: Session, id: nat, n: nat)
    requires id !in QueuedIds(Pub2, r.inbound) ==> t.delivered == r.delivered
    requires id in QueuedIds(Pub2, r.inbound) ==>
               exists f :: Is(Pub2, f) && Id(f) == id && t.delivered == r.delivered + [f]
    ensures Deliveries(t.delivered, n) == Deliveries(r.delivered, n) + (if n == id && id in QueuedIds(Pub2, r.inbound) then 1 else 0)
  {
    if id in QueuedIds(Pub2, r.inbound) {
      var f :| Is(Pub2, f) && Id(f) == id && t.delivered == r.delivered + [f];
      DeliveriesSnoc(r.delivered, f, n);
    }
  }

  lemma ReceiveKeepsRecv(r: Session, f: Frame, seen: Observer, got: seq<Frame>, pub: map<nat, Frame>)
    requires RecvOk(r, got, pub)
    requires Is(Pub2, f) ==> Id(f) !in Ids(Rel, got) && Id(f) in pub && pub[Id(f)] == f
    requires Is(Rel, f) ==> Id(f) in Ids(Pub2, got)
    ensures RecvOk(HandleFrame(r, f, seen), got + [f], pub)
  {
    var got' := got + [f];
    if Is(Pub2, f) {
      RecvPublish(r, f, seen, got, pub);
    } else if Is(Rel, f) {
      RecvRelease(r, f, seen, got, pub);
    } else {
      RecvGotKeeps(r, f, got, pub);
      var g := if f.typ == DISCONNECT then f.(body := [0]) else f;
      RecvDeliverKeeps(r, Item(g, 0, false), seen, got', pub);
      if f.typ == PUBLISH && Qos(f.flags) == 1 {
        var reply := IdFrame(PUBACK, Id(f));
        RecvSendKeeps(r, reply, got', pub);
        RecvDeliverKeeps(Send(r, reply), Item(f, 0, false), seen, got', pub);
      } else if f.typ in {PUBACK, PUBREC, PUBCOMP, SUBACK, UNSUBACK} {
        AckKeepsRecv(r, f, seen, got', pub);
      } else if f.typ == PINGREQ {
        RecvSendKeeps(r, Frame(PINGRESP, 0, []), got', pub);
      }
    }
  }

  lemma AckKeepsRecv(r: Session, f: Frame, seen: Observer, got: seq<Frame>, pub: map<nat, Frame>)
    requires RecvOk(r, got, pub) && f.typ in {PUBACK, PUBREC, PUBCOMP, SUBACK, UNSUBACK}
    ensures RecvOk(HandleAck(r, f, seen), got, pub)
  {
    var s1 := Acknowledged(r, f.typ, Id(f));
    RecvFrame(r, s1, got, pub);
    if f.typ == PUBREC {
      var rel := IdFrame(PUBREL, Id(f));
      RecvSendKeeps(s1, rel, got, pub);
      RecvFrame(Send(s1, rel), HandleAck(r, f, seen), got, pub);
    } else if f.typ == SUBACK || f.typ == UNSUBACK {
      RecvDeliverKeeps(s1, Item(f, 0, false), seen, got, pub);
    }
  }

  // ---------------------------------------------------------------- whole runs

  /** What A does keeps the direction in which A publishes. */
  lemma StepKeepsSender(n: Net, act: Action, m: Net)
    requires Inv(n) && StepA(n, act, m)
    ensures Half(m.a, m.b, m.gotB, m.pubA)
  {
    var got := n.a.sent[..n.gotB];
    SenderStep(n.a, act, got, n.pubA, m.pubA, n.b);
    SentGrows(n.a, act);
    assert m.a.sent[..m.gotB] == got;
    RecvPubGrows(n.b, got, n.pubA, m.pubA);
  }

  lemma SentGrows(s: Session, act: Action)
    requires Enabled(s, act)
    ensures s.sent <= Next(s, act).sent
  {
    if act.DoReceive? && act.frame.typ == PUBREL {
      DeliverIdFrame(Send(s, IdFrame(PUBCOMP, Id(act.frame))), s.inbound, Id(act.frame), act.seen);
    }
  }

  /** A message published under a new id changes nothing for the receiver. */
  lemma RecvPubGrows(r: Session, got: seq<Frame>, pub: map<nat, Frame>, pub': map<nat, Frame>)
    requires RecvOk(r, got, pub) && forall id :: id in pub ==> id in pub' && pub'[id] == pub[id]
    ensures RecvOk(r, got, pub')
  {
  }

  lemma SenderStep(s: Session, act: Action, got: seq<Frame>, pub: map<nat, Frame>, pub': map<nat, Frame>, r: Session)
    requires SendOk(s, got, pub) && Enabled(s, act)
    requires RecvOk(r, got, pub)
    requires act.DoReceive? && Is(Rec, act.frame) ==> Id(act.frame) in Ids(Pub2, got)
    requires PublishesQos2(act) ==> act.id !in pub && forall f :: f in got ==> f in s.sent
    requires pub' == if PublishesQos2(act)
                     then pub[act.id := PublishFrame(act.retain, act.dup, 2, act.id, act.topic, act.payload)] else pub
    ensures SendOk(Next(s, act), got, pub')
  {
    match act {
      case DoPublish(retain, dup, qos, id, topic, payload) =>
        var f := PublishFrame(retain, dup, qos, id, topic, payload);
        PublishFrameFacts(retain, dup, qos, id, topic, payload);
        if qos == 2 {
          assert id !in Ids(Pub2, got);
          assert SendOk(s, got, pub');
        }
        PublishKeepsSend(s, f, qos, id, got, pub');
      case DoSubscribe(id, topic, maxQos) =>
        RequestKeepsSend(s, SubscribeFrame(id, topic, maxQos), id, got, pub);
      case DoUnsubscribe(id, topic) =>
        RequestKeepsSend(s, UnsubscribeFrame(id, topic), id, got, pub);
      case DoWrite(f) => SendPlainKeeps(s, f, got, pub);
      case DoTick(expired) => TickKeepsSend(s, expired, got, pub);
      case DoReceive(f, seen) => ReceiveKeepsSend(s, f, seen, got, pub);
      case DoRead(room) => SendFrame(s, Next(s, act), got, pub);
    }
  }

  lemma PublishFrameFacts(retain: bool, dup: bool, qos: nat, id: nat, topic: seq<byte>, payload: seq<byte>)
    requires qos <= 2 && id < LIMIT && |topic| < LIMIT && |payload| < LIMIT
    ensures var f := PublishFrame(retain, dup, qos, id, topic, payload);
            WellFormed(f) && Qos(f.flags) == qos && (qos > 0 ==> Id(f) == id)
            && ParsePublish(f.body, qos) == Some(PublishMsg(if qos > 0 then id else 0, topic, payload))
  {
    PublishRoundTrip(qos, id, topic, payload);
    PublishSize(qos, id, topic, payload);
  }

  /** What A does keeps the direction in which A receives. */
  lemma StepKeepsReceiver(n: Net, act: Action, m: Net)
    requires Inv(n) && StepA(n, act, m)
    ensures Half(m.b, m.a, m.gotA, m.pubB)
  {
    var got := n.b.sent[..n.gotA];
    if act.DoReceive? {
      var f := act.frame;
      assert n.b.sent[..n.gotA + 1] == got + [f];
      assert f in n.b.sent;
      assert Is(Pub2, f) ==> Id(f) !in Ids(Rel, got);
      assert Is(Rel, f) ==> Id(f) in Ids(Rel, n.b.sent);
      ReceiveKeepsRecv(n.a, f, act.seen, got, n.pubB);
      GotGrows(n.b, got, f, n.pubB);
    } else {
      QuietStep(n.a, act, n.b, got, n.pubB, n.a.sent[..n.gotB], n.pubA);
    }
  }

  lemma GotGrows(s: Session, got: seq<Frame>, f: Frame, pub: map<nat, Frame>)
    requires SendOk(s, got, pub)
    ensures SendOk(s, got + [f], pub)
  {
    IdsSnoc(Pub2, got, f);
  }

  /** No action but a reception writes a PUBREC or a PUBCOMP, or delivers. */
  lemma QuietStep(r: Session, act: Action, s: Session, got: seq<Frame>, pub: map<nat, Frame>, gotS: seq<Frame>, pubS: map<nat, Frame>)
    requires RecvOk(r, got, pub) && SendOk(r, gotS, pubS) && Enabled(r, act) && !act.DoReceive?
    ensures RecvOk(Next(r, act), got, pub)
  {
    var t := Next(r, act);
    assert t.inbound == r.inbound && t.delivered == r.delivered;
    if t.sent == r.sent {
      RecvFrame(r, t, got, pub);
    } else {
      var f := t.sent[|r.sent|];
      assert t.sent == r.sent + [f] && !Is(Rec, f) && !Is(Comp, f) by {
        QuietSends(r, act, gotS, pubS);
      }
      RecvSendKeeps(r, f, got, pub);
      RecvFrame(Send(r, f), t, got, pub);
    }
  }

  lemma QuietSends(r: Session, act: Action, gotS: seq<Frame>, pubS: map<nat, Frame>)
    requires SendOk(r, gotS, pubS) && Enabled(r, act) && !act.DoReceive?
    ensures var t := Next(r, act);
            t.sent == r.sent || (|t.sent| == |r.sent| + 1 && t.sent == r.sent + [t.sent[|r.sent|]]
                                 && t.sent[|r.sent|].typ !in {PUBREC, PUBCOMP})
  {
    if act.DoTick? && r.outgoing != [] {
      assert r.outgoing[0] in r.outgoing;
      assert |r.outgoing| > 1 ==> r.outgoing[1] in r.outgoing;
    }
  }

  lemma StepKeepsInv(n: Net, act: Action, m: Net)
    requires Inv(n) && Step(n, act, m)
    ensures Inv(m)
  {
    if StepA(n, act, m) {
      StepKeepsSender(n, act, m);
      StepKeepsReceiver(n, act, m);
    } else {
      StepKeepsSender(Swap(n), act, Swap(m));
      StepKeepsReceiver(Swap(n), act, Swap(m));
    }
  }

  lemma {:induction false} RunKeepsInv(nets: seq<Net>, acts: seq<Action>, k: nat)
    requires IsNetRun(nets, acts) && k < |nets|
    ensures Inv(nets[k])
  {
    if k > 0 {
      RunKeepsInv(nets, acts, k - 1);
      StepKeepsInv(nets[k - 1], acts[k - 1], nets[k]);
    }
  }

  /** What is published in one direction under this id reaches the application there at most once and unchanged;
      once the PUBCOMP has been written it has reached it exactly once. */
  ghost predicate DeliveredOnce(r: Session, pub: map<nat, Frame>, id: nat) {
    && Deliveries(r.delivered, id) <= 1
    && (forall f :: f in r.delivered && Is(Pub2, f) && Id(f) == id ==> id in pub && f == pub[id])
    && (id in Ids(Comp, r.sent) ==> Deliveries(r.delivered, id) == 1)
    && (Deliveries(r.delivered, id) == 1 ==> id in pub && pub[id] in r.delivered)
  }

  lemma HalfDeliversOnce(r: Session, got: seq<Frame>, pub: map<nat, Frame>, id: nat)
    requires RecvOk(r, got, pub) && Ids(Rel, got) <= Ids(Pub2, got)
    ensures DeliveredOnce(r, pub, id)
  {
    if Deliveries(r.delivered, id) > 0 {
      DeliveredIsThere(r.delivered, id);
    }
  }

  lemma ReleasedWasPublished(s: Session, got: nat, pub: map<nat, Frame>)
    requires got <= |s.sent| && SendOk(s, s.sent[..got], pub)
    ensures Ids(Rel, s.sent[..got]) <= Ids(Pub2, s.sent[..got])
  {
    assert forall f :: f in s.sent[..got] ==> f in s.sent;
  }

  /** QoS 2 in every run, in both directions. */
  lemma ExactlyOnce(nets: seq<Net>, acts: seq<Action>, k: nat, id: nat)
    requires IsNetRun(nets, acts) && k < |nets|
    ensures DeliveredOnce(nets[k].b, nets[k].pubA, id)
    ensures DeliveredOnce(nets[k].a, nets[k].pubB, id)
  {
    RunKeepsInv(nets, acts, k);
    var n := nets[k];
    ReleasedWasPublished(n.a, n.gotB, n.pubA);
    ReleasedWasPublished(n.b, n.gotA, n.pubB);
    HalfDeliversOnce(n.b, n.a.sent[..n.gotB], n.pubA, id);
    HalfDeliversOnce(n.a, n.b.sent[..n.gotA], n.pubB, id);
  }

  lemma {:induction false} DeliveredIsThere(delivered: seq<Frame>, id: nat)
    requires Deliveries(delivered, id) > 0
    ensures exists f :: f in delivered && Is(Pub2, f) && Id(f) == id
  {
    var p, last := delivered[..|delivered| - 1], delivered[|delivered| - 1];
    if !(Is(Pub2, last) && Id(last) == id) {
      DeliveredIsThere(p, id);
      var f :| f in p && Is(Pub2, f) && Id(f) == id;
      assert f in delivered;
    }
  }

  /** The messages waiting for delivery have unique ids: those published and not yet released in what has arrived. */
  ghost predicate Awaits(inbound: seq<Item>, got: seq<Frame>) {
    UniqueIds(inbound) && QueuedIds(Pub2, inbound) == Ids(Pub2, got) - Ids(Rel, got)
  }

  lemma InboundIsWaiting(nets: seq<Net>, acts: seq<Action>, k: nat)
    requires IsNetRun(nets, acts) && k < |nets|
    ensures var n := nets[k];
            && n.gotB <= |n.a.sent| && Awaits(n.b.inbound, n.a.sent[..n.gotB])
            && n.gotA <= |n.b.sent| && Awaits(n.a.inbound, n.b.sent[..n.gotA])
  {
    RunKeepsInv(nets, acts, k);
  }

  /** MQTT 3.1.1 section 4.3.3: no PUBLISH with an id follows the PUBREL with that id, and no PUBREL comes unprovoked. */
  ghost predicate ReleasedInOrder(sent: seq<Frame>) {
    PublishBeforeRelease(sent) && Ids(Rel, sent) <= Ids(Pub2, sent)
  }

  lemma ReleaseFollowsPublish(nets: seq<Net>, acts: seq<Action>, k: nat)
    requires IsNetRun(nets, acts) && k < |nets|
    ensures ReleasedInOrder(nets[k].a.sent) && ReleasedInOrder(nets[k].b.sent)
  {
    RunKeepsInv(nets, acts, k);
    PrefixIds(nets[k].a.sent, nets[k].gotB);
    PrefixIds(nets[k].b.sent, nets[k].gotA);
  }

  lemma PrefixIds(sent: seq<Frame>, got: nat)
    requires got <= |sent|
    ensures Ids(Pub2, sent[..got]) <= Ids(Pub2, sent)
  {
    assert forall f :: f in sent[..got] ==> f in sent;
  }

  /** Of the bytes of these frames, cut anywhere, the deframer makes exactly the frames that are complete. */
  predicate CarriedWhole(sent: seq<Frame>, cut: nat) {
    cut <= |FormatAll(sent)| ==>
      Clean(FormatAll(sent)[..cut]) && Deframe(FormatAll(sent)[..cut]).frames == sent[..WholeFrames(sent, cut)]
  }

  lemma CarriesWhole(sent: seq<Frame>, cut: nat)
    requires AllWellFormed(sent)
    ensures CarriedWhole(sent, cut)
  {
    if cut <= |FormatAll(sent)| {
      CutAnywhere(sent, cut);
      FormattedIsClean(sent, cut);
    }
  }

  /** Why the channels may be ones of frames: of the bytes an endpoint has written, cut wherever a read cuts them, the
      deframer on the other side makes exactly the frames written, as far as they are complete. */
  lemma WireCarriesFrames(nets: seq<Net>, acts: seq<Action>, k: nat, cut: nat)
    requires IsNetRun(nets, acts) && k < |nets|
    ensures CarriedWhole(nets[k].a.sent, cut) && CarriedWhole(nets[k].b.sent, cut)
  {
    RunKeepsInv(nets, acts, k);
    CarriesWhole(nets[k].a.sent, cut);
    CarriesWhole(nets[k].b.sent, cut);
  }
}
