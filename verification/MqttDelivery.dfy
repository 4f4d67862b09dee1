/** What reaches the application: every message that is not held back for a release, in every run, and what is answered. */
module MqttDelivery {
  import opened Bytes
  import opened MqttCodec
  import opened MqttSession
  import opened MqttActions
  import opened MqttNetwork

  // ---------------------------------------------------------------- what a frame calls for

  /** Frames the application gets when they arrive; a QoS 2 message waits for its release. */
  predicate AtOnce(f: Frame) {
    || f.typ in {CONNECT, CONNACK, SUBSCRIBE, SUBACK, UNSUBSCRIBE, UNSUBACK, DISCONNECT}
    || (f.typ == PUBLISH && Qos(f.flags) != 2)
  }

  /** DISCONNECT has no body, and is passed on with a byte in it. */
  function Shown(f: Frame): Frame {
    if f.typ == DISCONNECT then Frame(f.typ, f.flags, [0]) else f
  }

  function Direct(f: Frame): seq<Frame> {
    if AtOnce(f) then [Shown(f)] else []
  }

  /** What the application is to get of these frames at once. */
  function ForApplication(frames: seq<Frame>): seq<Frame> {
    if frames == [] then []
    else
      var last := frames[|frames| - 1];
      ForApplication(frames[..|frames| - 1]) + Direct(last)
  }

  /** All but the QoS 2 messages. */
  function NotQos2(frames: seq<Frame>): seq<Frame> {
    if frames == [] then []
    else
      var last := frames[|frames| - 1];
      NotQos2(frames[..|frames| - 1]) + (if Is(Pub2, last) then [] else [last])
  }

  /** What is to be written back: MQTT 3.1.1 sections 3.12 and 4.3. */
  function Answer(f: Frame): seq<Frame> {
    if f.typ == PUBLISH && Qos(f.flags) == 1 then [Frame(PUBACK, 0, Short(Id(f)))]
    else if f.typ == PUBLISH && Qos(f.flags) == 2 then [Frame(PUBREC, 0, Short(Id(f)))]
    else if f.typ == PUBREC then [Frame(PUBREL, 2, Short(Id(f)))]
    else if f.typ == PUBREL then [Frame(PUBCOMP, 0, Short(Id(f)))]
    else if f.typ == PINGREQ then [Frame(PINGRESP, 0, [])]
    else []
  }

  function Answers(frames: seq<Frame>): seq<Frame> {
    if frames == [] then [] else Answers(frames[..|frames| - 1]) + Answer(frames[|frames| - 1])
  }

  lemma ForApplicationSnoc(frames: seq<Frame>, f: Frame)
    ensures ForApplication(frames + [f]) == ForApplication(frames) + Direct(f)
    ensures Answers(frames + [f]) == Answers(frames) + Answer(f)
  {
    assert (frames + [f])[..|frames|] == frames;
  }

  lemma NotQos2Snoc(frames: seq<Frame>, f: Frame)
    ensures NotQos2(frames + [f]) == NotQos2(frames) + (if Is(Pub2, f) then [] else [f])
  {
    assert (frames + [f])[..|frames|] == frames;
  }

  // ---------------------------------------------------------------- one step of a session

  /** A release delivers QoS 2 messages only. */
  lemma {:induction false} ReleaseIsQos2(s: Session, q: seq<Item>, id: nat, seen: Observer)
    requires forall item :: item in q ==> Is(Pub2, item.frame)
    ensures NotQos2(DeliverId(s, q, id, seen).delivered) == NotQos2(s.delivered)
  {
    if q != [] {
      var p, last := q[..|q| - 1], q[|q| - 1];
      ReleaseIsQos2(s, p, id, seen);
      assert last in q;
      NotQos2Snoc(DeliverId(s, p, id, seen).delivered, last.frame);
    }
  }

  /** What receiving a frame writes. */
  lemma ReceiveAnswers(s: Session, f: Frame, seen: Observer)
    ensures HandleFrame(s, f, seen).sent == s.sent + Answer(f)
  {
    assert s.sent + [] == s.sent;
    if f.typ == PUBREL {
      DeliverIdFrame(Send(s, IdFrame(PUBCOMP, Id(f))), s.inbound, Id(f), seen);
    }
  }

  lemma DirectIsNotQos2(s: seq<Frame>, f: Frame)
    ensures NotQos2(s + Direct(f)) == NotQos2(s) + Direct(f)
  {
    if AtOnce(f) {
      NotQos2Snoc(s, Shown(f));
    } else {
      assert s + [] == s && NotQos2(s) + [] == NotQos2(s);
    }
  }

  /** What receiving a frame delivers. */
  lemma ReceiveDelivers(s: Session, f: Frame, seen: Observer)
    requires f.typ != PUBREL
    ensures HandleFrame(s, f, seen).delivered == s.delivered + Direct(f)
  {
    assert s.delivered + [] == s.delivered;
  }

  lemma PubrelDelivers(s: Session, f: Frame, seen: Observer)
    requires f.typ == PUBREL && forall item :: item in s.inbound ==> Is(Pub2, item.frame)
    ensures NotQos2(HandleFrame(s, f, seen).delivered) == NotQos2(s.delivered)
  {
    var s1 := Send(s, IdFrame(PUBCOMP, Id(f)));
    DeliverIdFrame(s1, s.inbound, Id(f), seen);
    ReleaseIsQos2(s1, s.inbound, Id(f), seen);
  }

  lemma OthersDeliverNothing(s: Session, act: Action)
    requires Enabled(s, act) && !act.DoReceive?
    ensures Next(s, act).delivered == s.delivered
  {
  }

  // ---------------------------------------------------------------- the network

  /** The network as the receiver of one direction sees it: it is `b`. */
  function View(n: Net, toB: bool): Net {
    if toB then n else Swap(n)
  }

  /** What the receiver writes in a step in which it handles a frame. */
  function Reply(n: Net, m: Net): seq<Frame> {
    if m.gotB != n.gotB && |n.b.sent| <= |m.b.sent| then m.b.sent[|n.b.sent|..] else []
  }

  function Replies(nets: seq<Net>, k: nat, toB: bool): seq<Frame>
    requires k < |nets|
  {
    if k == 0 then [] else Replies(nets, k - 1, toB) + Reply(View(nets[k - 1], toB), View(nets[k], toB))
  }

  /** Nothing is handled, or the next frame is: delivered if it is one to deliver at once, and answered. */
  ghost predicate Handles(n: Net, m: Net) {
    if m.gotB == n.gotB then NotQos2(m.b.delivered) == NotQos2(n.b.delivered)
    else
      && m.gotB == n.gotB + 1 && n.gotB < |n.a.sent|
      && var f := n.a.sent[n.gotB];
         && m.b.sent == n.b.sent + Answer(f)
         && (f.typ != PUBREL ==> m.b.delivered == n.b.delivered + Direct(f))
         && NotQos2(m.b.delivered) == NotQos2(n.b.delivered) + Direct(f)
  }

  lemma ActorHandles(n: Net, act: Action, m: Net)
    requires Inv(n) && StepA(n, act, m)
    ensures Handles(n, m) && Handles(Swap(n), Swap(m))
    ensures n.a.sent <= m.a.sent && n.b.sent <= m.b.sent
  {
    SentGrows(n.a, act);
    if act.DoReceive? {
      forall item | item in n.a.inbound ensures Is(Pub2, item.frame) {
        assert IsInbound(item);
      }
      ReceiveAnswers(n.a, act.frame, act.seen);
      DirectIsNotQos2(n.a.delivered, act.frame);
      if act.frame.typ == PUBREL {
        PubrelDelivers(n.a, act.frame, act.seen);
        assert NotQos2(n.a.delivered) + [] == NotQos2(n.a.delivered);
      } else {
        ReceiveDelivers(n.a, act.frame, act.seen);
      }
    } else {
      OthersDeliverNothing(n.a, act);
    }
  }

  lemma StepHandles(n: Net, act: Action, m: Net, toB: bool)
    requires Inv(n) && Step(n, act, m)
    ensures Handles(View(n, toB), View(m, toB)) && View(n, toB).a.sent <= View(m, toB).a.sent
  {
    if StepA(n, act, m) {
      ActorHandles(n, act, m);
    } else {
      ActorHandles(Swap(n), act, Swap(m));
    }
  }

  /** Step by step: each frame an endpoint handles is delivered and answered in the step that handles it. */
  lemma HandledInItsStep(nets: seq<Net>, acts: seq<Action>, k: nat, toB: bool)
    requires IsNetRun(nets, acts) && k < |acts|
    ensures Handles(View(nets[k], toB), View(nets[k + 1], toB))
    ensures View(nets[k], toB).a.sent <= View(nets[k + 1], toB).a.sent
  {
    RunKeepsInv(nets, acts, k);
    StepHandles(nets[k], acts[k], nets[k + 1], toB);
  }

  /** What has been delivered is what the frames handled hold for the application. */
  ghost predicate Delivered(n: Net) {
    n.gotB <= |n.a.sent| && NotQos2(n.b.delivered) == ForApplication(n.a.sent[..n.gotB])
  }

  lemma TakeOneMore(sent: seq<Frame>, later: seq<Frame>, got: nat)
    requires sent <= later && got <= |sent|
    ensures later[..got] == sent[..got]
    ensures got < |sent| ==> later[..got + 1] == sent[..got] + [sent[got]]
  {
  }

  lemma Suffix(a: seq<Frame>, b: seq<Frame>)
    ensures (a + b)[|a|..] == b && a + [] == a
  {
  }

  lemma OneMoreHandled(n: Net, m: Net)
    requires Handles(n, m) && Delivered(n) && n.a.sent <= m.a.sent
    ensures Delivered(m)
    ensures Answers(m.a.sent[..m.gotB]) == Answers(n.a.sent[..n.gotB]) + Reply(n, m)
  {
    TakeOneMore(n.a.sent, m.a.sent, n.gotB);
    if m.gotB == n.gotB {
      Suffix(Answers(n.a.sent[..n.gotB]), []);
    } else {
      ForApplicationSnoc(n.a.sent[..n.gotB], n.a.sent[n.gotB]);
      Suffix(n.b.sent, Answer(n.a.sent[n.gotB]));
    }
  }

  /** What has been written in handling the frames is what they call for. */
  ghost predicate Answered(nets: seq<Net>, k: nat, toB: bool)
    requires k < |nets| && View(nets[k], toB).gotB <= |View(nets[k], toB).a.sent|
  {
    Replies(nets, k, toB) == Answers(View(nets[k], toB).a.sent[..View(nets[k], toB).gotB])
  }

  ghost predicate Begins(n: Net) {
    n.gotB == 0 && n.b.delivered == []
  }

  lemma {:induction false} StepsDeliver(nets: seq<Net>, k: nat, toB: bool)
    requires k < |nets| && Begins(View(nets[0], toB))
    requires forall i :: 0 <= i < k ==> Handles(View(nets[i], toB), View(nets[i + 1], toB))
                                        && View(nets[i], toB).a.sent <= View(nets[i + 1], toB).a.sent
    ensures Delivered(View(nets[k], toB)) && Answered(nets, k, toB)
  {
    if k > 0 {
      StepsDeliver(nets, k - 1, toB);
      OneMoreHandled(View(nets[k - 1], toB), View(nets[k - 1 + 1], toB));
    }
  }

  /** In every run and in both directions: apart from the QoS 2 messages, what has been delivered is exactly what the
      frames handled hold for the application, in order, each once and unchanged; and what has been written in handling
      them is exactly what they call for: one PUBACK with its id for each QoS 1 message, one PINGRESP for each PINGREQ. */
  lemma DeliveredAndAnswered(nets: seq<Net>, acts: seq<Action>, k: nat, toB: bool)
    requires IsNetRun(nets, acts) && k < |nets|
    ensures Delivered(View(nets[k], toB)) && Answered(nets, k, toB)
  {
    forall i | 0 <= i < k
      ensures Handles(View(nets[i], toB), View(nets[i + 1], toB))
              && View(nets[i], toB).a.sent <= View(nets[i + 1], toB).a.sent
    {
      HandledInItsStep(nets, acts, i, toB);
    }
    StepsDeliver(nets, k, toB);
  }

  // ---------------------------------------------------------------- from delivery to the application

  /** Messages that the observer leaves. */
  function NotSeen(frames: seq<Frame>, seen: Observer): seq<Frame> {
    if frames == [] then []
    else
      var last := frames[|frames| - 1];
      NotSeen(frames[..|frames| - 1], seen) + (if seen(last) then [] else [last])
  }

  function Frames(q: seq<Item>): seq<Frame> {
    if q == [] then [] else Frames(q[..|q| - 1]) + [q[|q| - 1].frame]
  }

  /** What a step delivers and the observer leaves. */
  function LeftBy(s: Session, a: Action, t: Session): seq<Frame> {
    if a.DoReceive? && |s.delivered| <= |t.delivered| then NotSeen(t.delivered[|s.delivered|..], a.seen) else []
  }

  /** What the application reads: the first message waiting, when there is room for it. */
  function TakenBy(s: Session, a: Action): seq<Frame> {
    if a.DoRead? && s.incoming != [] && |s.incoming[0].frame.body| <= a.room then [s.incoming[0].frame] else []
  }

  /** Both, over the first `k` actions. */
  function Left(states: seq<Session>, actions: seq<Action>, k: nat): seq<Frame>
    requires k <= |actions| && |states| == |actions| + 1
  {
    if k == 0 then [] else Left(states, actions, k - 1) + LeftBy(states[k - 1], actions[k - 1], states[k])
  }

  function Taken(states: seq<Session>, actions: seq<Action>, k: nat): seq<Frame>
    requires k <= |actions| && |states| == |actions| + 1
  {
    if k == 0 then [] else Taken(states, actions, k - 1) + TakenBy(states[k - 1], actions[k - 1])
  }

  lemma FramesSnoc(q: seq<Item>, item: Item)
    ensures Frames(q + [item]) == Frames(q) + [item.frame]
  {
    assert (q + [item])[..|q|] == q;
  }

  lemma {:induction false} FramesHead(q: seq<Item>)
    requires q != []
    ensures Frames(q) == [q[0].frame] + Frames(q[1..])
  {
    var p, last := q[..|q| - 1], q[|q| - 1];
    if p != [] {
      FramesHead(p);
      assert q[1..] == p[1..] + [last];
      FramesSnoc(p[1..], last);
    }
  }

  /** What a step adds to the waiting messages is what it has delivered and the observer left. */
  ghost predicate Passes(s: Session, t: Session, seen: Observer) {
    && s.delivered <= t.delivered
    && Frames(t.incoming) == Frames(s.incoming) + NotSeen(t.delivered[|s.delivered|..], seen)
  }

  lemma PassesNothing(s: Session, t: Session, seen: Observer)
    requires t.delivered == s.delivered && t.incoming == s.incoming
    ensures Passes(s, t, seen)
  {
    assert t.delivered[|s.delivered|..] == [];
  }

  lemma NotSeenSnoc(a: seq<Frame>, f: Frame, seen: Observer)
    ensures NotSeen(a + [f], seen) == NotSeen(a, seen) + (if seen(f) then [] else [f])
  {
    assert (a + [f])[..|a|] == a;
  }

  lemma PassesOne(s: Session, t: Session, u: Session, item: Item, seen: Observer)
    requires Passes(s, t, seen) && u.delivered == t.delivered + [item.frame]
    requires u.incoming == if seen(item.frame) then t.incoming else t.incoming + [item]
    ensures Passes(s, u, seen)
  {
    var more, f := t.delivered[|s.delivered|..], item.frame;
    SuffixSnoc(s.delivered, t.delivered, f);
    NotSeenSnoc(more, f, seen);
    FramesSnoc(t.incoming, item);
    Assoc(Frames(s.incoming), NotSeen(more, seen), if seen(f) then [] else [f]);
  }

  lemma SuffixSnoc(a: seq<Frame>, b: seq<Frame>, f: Frame)
    requires a <= b
    ensures a <= b + [f] && (b + [f])[|a|..] == b[|a|..] + [f]
  {
  }

  lemma Assoc(a: seq<Frame>, b: seq<Frame>, c: seq<Frame>)
    ensures a + (b + c) == (a + b) + c && a + [] == a
  {
  }

  lemma {:induction false} ReleasePasses(s: Session, q: seq<Item>, id: nat, seen: Observer)
    ensures Passes(s, DeliverId(s, q, id, seen), seen)
  {
    if q == [] {
      PassesNothing(s, s, seen);
    } else {
      var p, last := q[..|q| - 1], q[|q| - 1];
      ReleasePasses(s, p, id, seen);
      if last.id == id {
        PassesOne(s, DeliverId(s, p, id, seen), DeliverId(s, q, id, seen), last, seen);
      }
    }
  }

  lemma ReceivePasses(s: Session, f: Frame, seen: Observer)
    ensures Passes(s, HandleFrame(s, f, seen), seen)
  {
    var t := HandleFrame(s, f, seen);
    if f.typ == PUBREL {
      var s1 := Send(s, IdFrame(PUBCOMP, Id(f)));
      ReleasePasses(s1, s.inbound, Id(f), seen);
    } else {
      PassesNothing(s, s, seen);
      if AtOnce(f) {
        PassesOne(s, s, t, Item(Shown(f), 0, false), seen);
      } else {
        PassesNothing(s, t, seen);
      }
    }
  }

  lemma OthersKeepIncoming(s: Session, act: Action)
    requires Enabled(s, act) && !act.DoReceive? && !act.DoRead?
    ensures Next(s, act).incoming == s.incoming
  {
  }

  lemma ReadPasses(s: Session, room: nat)
    ensures Frames(s.incoming) == TakenBy(s, DoRead(room)) + Frames(FrameRead(s, room).incoming)
  {
    if s.incoming != [] {
      FramesHead(s.incoming);
    }
  }

  lemma StepPasses(s: Session, a: Action)
    requires Enabled(s, a)
    ensures Frames(s.incoming) + LeftBy(s, a, Next(s, a)) == TakenBy(s, a) + Frames(Next(s, a).incoming)
  {
    match a {
      case DoReceive(f, seen) => ReceivePasses(s, f, seen);
      case DoRead(room) => ReadPasses(s, room);
      case _ => OthersKeepIncoming(s, a);
    }
  }

  lemma Shift(left: seq<Frame>, taken: seq<Frame>, waiting: seq<Frame>, more: seq<Frame>, read: seq<Frame>, now: seq<Frame>)
    requires left == taken + waiting && waiting + more == read + now
    ensures left + more == (taken + read) + now
  {
    assert left + more == taken + (waiting + more);
    assert (taken + read) + now == taken + (read + now);
  }

  /** In every run of an endpoint: the messages delivered and left by the observer are those the application has read and
      those still waiting for it, in order, each once. */
  lemma {:induction false} LeftIsRead(states: seq<Session>, actions: seq<Action>, k: nat)
    requires IsRun(states, actions) && k < |states|
    ensures Left(states, actions, k) == Taken(states, actions, k) + Frames(states[k].incoming)
  {
    if k > 0 {
      var s, a, t := states[k - 1], actions[k - 1], states[k];
      LeftIsRead(states, actions, k - 1);
      StepPasses(s, a);
      Shift(Left(states, actions, k - 1), Taken(states, actions, k - 1), Frames(s.incoming), LeftBy(s, a, t), TakenBy(s, a),
            Frames(t.incoming));
    }
  }
}
