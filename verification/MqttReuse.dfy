/** Packet ids in use again: QoS 2 between two endpoints that reuse an id once its release has been acknowledged. */
module MqttReuse {
  import opened MqttCodec
  import MqttPackets
  import opened MqttSession
  import opened MqttActions
  import opened MqttNetwork

  // ---------------------------------------------------------------- what one id is about

  /** Frames that carry messages and releases, frames that answer them, and the messages alone. */
  datatype Which = Forth | Back | Messages

  predicate Picks(which: Which, id: nat, f: Frame) {
    Id(f) == id && match which
                   case Forth => Is(Pub2, f) || Is(Rel, f)
                   case Back => Is(Rec, f) || Is(Comp, f)
                   case Messages => Is(Pub2, f)
  }

  function Pick(which: Which, id: nat, frames: seq<Frame>): seq<Frame> {
    if frames == [] then []
    else
      var last := frames[|frames| - 1];
      Pick(which, id, frames[..|frames| - 1]) + (if Picks(which, id, last) then [last] else [])
  }

  lemma PickSnoc(which: Which, id: nat, frames: seq<Frame>, f: Frame)
    ensures Pick(which, id, frames + [f]) == Pick(which, id, frames) + (if Picks(which, id, f) then [f] else [])
  {
    assert (frames + [f])[..|frames|] == frames;
  }

  lemma PickOne(which: Which, id: nat, f: Frame)
    ensures Pick(which, id, [f]) == if Picks(which, id, f) then [f] else []
  {
    assert [f] == [] + [f];
    PickSnoc(which, id, [], f);
  }

  lemma {:induction false} PickCons(which: Which, id: nat, f: Frame, frames: seq<Frame>)
    ensures Pick(which, id, [f] + frames) == (if Picks(which, id, f) then [f] else []) + Pick(which, id, frames)
  {
    if frames == [] {
      assert [f] + frames == [] + [f];
      PickSnoc(which, id, [], f);
    } else {
      var front, last := frames[..|frames| - 1], frames[|frames| - 1];
      PickCons(which, id, f, front);
      assert [f] + frames == ([f] + front) + [last];
      PickSnoc(which, id, [f] + front, last);
    }
  }

  /** What has been written and not yet handled on the other side. */
  function Pending(which: Which, id: nat, sent: seq<Frame>, got: nat): seq<Frame>
    requires got <= |sent|
  {
    Pick(which, id, sent[got..])
  }

  lemma PendingGrows(which: Which, id: nat, sent: seq<Frame>, got: nat, f: Frame)
    requires got <= |sent|
    ensures Pending(which, id, sent + [f], got)
         == Pending(which, id, sent, got) + (if Picks(which, id, f) then [f] else [])
  {
    assert (sent + [f])[got..] == sent[got..] + [f];
    PickSnoc(which, id, sent[got..], f);
  }

  lemma PendingTaken(which: Which, id: nat, sent: seq<Frame>, got: nat)
    requires got < |sent|
    ensures Pending(which, id, sent, got)
         == (if Picks(which, id, sent[got]) then [sent[got]] else []) + Pending(which, id, sent, got + 1)
  {
    assert sent[got..] == [sent[got]] + sent[got + 1..];
    PickCons(which, id, sent[got], sent[got + 1..]);
  }

  /** The frames of one id among queued items. */
  ghost function Queued(which: Which, q: seq<Item>, id: nat): set<Frame> {
    set item | item in q && Picks(which, id, item.frame) :: item.frame
  }

  // ---------------------------------------------------------------- the handshake of one id in one direction

  /** `forth` and `back`: on their way; `queued`: at the sender; `stored`: at the receiver; `got`: delivered; `pub`:
      published; `open`: the last message published has not been completed. */
  datatype Link = Link(forth: seq<Frame>, back: seq<Frame>, queued: set<Frame>, stored: set<Frame>,
                       got: seq<Frame>, pub: seq<Frame>, open: bool)

  predicate Has(kind: Kind, frames: seq<Frame>) {
    exists f :: f in frames && Is(kind, f)
  }

  /** Nothing of another kind comes before one of this kind. */
  predicate KindFirst(kind: Kind, frames: seq<Frame>) {
    forall i, j :: 0 <= i < j < |frames| && Is(kind, frames[j]) ==> Is(kind, frames[i])
  }

  function Front(pub: seq<Frame>): seq<Frame>
    requires pub != []
  {
    pub[..|pub| - 1]
  }

  /** The message has not been answered as far as the sender knows; releases and completions on their way are old. */
  predicate Publishing(l: Link, f: Frame) {
    && KindFirst(Rel, l.forth) && (forall g :: g in l.forth && Is(Pub2, g) ==> g == f) && l.queued <= {f}
    && KindFirst(Comp, l.back) && l.stored <= {f}
    && (Has(Rel, l.forth) ==> l.stored == {} && !Has(Rec, l.back))
    && (Has(Rec, l.back) ==> l.stored == {f})
  }

  /** The message has been answered; copies of it come before the releases. */
  predicate Releasing(l: Link, f: Frame) {
    && KindFirst(Pub2, l.forth) && (forall g :: g in l.forth && Is(Pub2, g) ==> g == f)
    && (forall g :: g in l.queued ==> Is(Rel, g))
    && KindFirst(Rec, l.back) && l.stored <= {f}
    && (Has(Pub2, l.forth) ==> l.stored == {f} && !Has(Comp, l.back))
    && (Has(Comp, l.back) ==> l.stored == {})
  }

  predicate Typed(l: Link) {
    && (forall g :: g in l.forth ==> Is(Pub2, g) || Is(Rel, g))
    && (forall g :: g in l.back ==> Is(Rec, g) || Is(Comp, g))
  }

  /** What is on its way, queued, stored and delivered fits a phase of the handshake. */
  predicate Good(l: Link) {
    Typed(l) && Sound(l)
  }

  predicate Sound(l: Link) {
    if l.open then
      && l.pub != []
      && var f := l.pub[|l.pub| - 1];
         && Is(Pub2, f)
         && ((Publishing(l, f) && l.got == Front(l.pub))
             || (Releasing(l, f) && l.got == if l.stored == {} then l.pub else Front(l.pub)))
    else
      && !Has(Pub2, l.forth) && !Has(Rec, l.back) && l.queued == {} && l.stored == {} && l.got == l.pub
  }

  // what can happen to it

  lemma HasSnoc(kind: Kind, frames: seq<Frame>, f: Frame)
    ensures Has(kind, frames + [f]) <==> Has(kind, frames) || Is(kind, f)
  {
    assert f in frames + [f];
  }

  lemma PublishGood(l: Link, m: Link, f: Frame, now: bool)
    requires Good(l) && !l.open && Is(Pub2, f)
    requires m.forth == l.forth + (if now then [f] else []) && m.back == l.back && m.queued == l.queued + {f}
    requires m.stored == l.stored && m.got == l.got && m.pub == l.pub + [f] && m.open
    ensures Good(m)
  {
    assert l.forth + [] == l.forth;
    assert Front(m.pub) == l.pub;
    assert Publishing(m, f);
  }

  /** A queued frame is written, again or for the first time, or forgotten. */
  lemma WriteGood(l: Link, f: Frame, queued: set<Frame>)
    requires Good(l) && f in l.queued && queued <= l.queued
    ensures Good(l.(forth := l.forth + [f], queued := queued))
  {
    var m, last := l.(forth := l.forth + [f], queued := queued), l.pub[|l.pub| - 1];
    if Publishing(l, last) && l.got == Front(l.pub) {
      assert f == last;
      HasSnoc(Rel, l.forth, f);
      assert Publishing(m, last);
    } else {
      assert Releasing(l, last) && Is(Rel, f);
      HasSnoc(Pub2, l.forth, f);
      assert Releasing(m, last);
    }
  }

  lemma ForgetGood(l: Link, queued: set<Frame>)
    requires Good(l) && queued <= l.queued
    ensures Good(l.(queued := queued))
  {
    if l.open {
      var f := l.pub[|l.pub| - 1];
      assert Publishing(l, f) ==> Publishing(l.(queued := queued), f);
      assert Releasing(l, f) ==> Releasing(l.(queued := queued), f);
    }
  }

  /** The sender is told that the message is there, and releases it. */
  lemma RecGood(l: Link, m: Link, rel: Frame)
    requires Good(l) && l.back != [] && Is(Rec, l.back[0]) && Is(Rel, rel)
    requires forall g :: g in m.queued ==> Is(Rel, g)
    requires m == l.(forth := l.forth + [rel], back := l.back[1..], queued := m.queued)
    ensures Good(m)
  {
    assert l.back[0] in l.back && Has(Rec, l.back);
    var f := l.pub[|l.pub| - 1];
    assert forall g :: g in m.back ==> g in l.back;
    HasSnoc(Pub2, l.forth, rel);
    if Publishing(l, f) && l.got == Front(l.pub) {
      NoneBehind(Comp, l.back);
      assert !Has(Rel, l.forth);
    }
    assert Releasing(m, f);
  }

  /** A first frame of another kind: there is none of this kind. */
  lemma NoneBehind(kind: Kind, frames: seq<Frame>)
    requires KindFirst(kind, frames) && frames != [] && !Is(kind, frames[0])
    ensures !Has(kind, frames)
  {
  }

  /** The sender is told that a release has arrived: the message is complete if a release was waiting for that. */
  lemma CompGood(l: Link, m: Link, completes: bool)
    requires Good(l) && l.back != [] && Is(Comp, l.back[0]) && m.queued <= l.queued
    requires completes <==> exists g :: g in l.queued && Is(Rel, g)
    requires forall g :: g in m.queued ==> !Is(Rel, g)
    requires m == l.(back := l.back[1..], queued := m.queued, open := l.open && !completes)
    ensures Good(m)
  {
    assert l.back[0] in l.back && Has(Comp, l.back);
    assert forall g :: g in m.back ==> g in l.back;
    if l.open {
      var f := l.pub[|l.pub| - 1];
      if completes {
        NoneBehind(Rec, l.back);
      } else {
        assert Publishing(l, f) ==> Publishing(m, f);
        assert Releasing(l, f) ==> Releasing(m, f);
      }
    }
  }

  /** The receiver stores a message, and says so. */
  lemma StoreGood(l: Link, m: Link, rec: Frame)
    requires Good(l) && l.forth != [] && Is(Pub2, l.forth[0]) && Is(Rec, rec)
    requires m == l.(forth := l.forth[1..], stored := {l.forth[0]}, back := l.back + [rec])
    ensures Good(m)
  {
    assert l.forth[0] in l.forth && Has(Pub2, l.forth);
    var f := l.pub[|l.pub| - 1];
    assert forall g :: g in m.forth ==> g in l.forth;
    if Publishing(l, f) && l.got == Front(l.pub) {
      NoneBehind(Rel, l.forth);
      assert Publishing(m, f);
    } else {
      HasSnoc(Comp, l.back, rec);
      assert Releasing(m, f);
    }
  }

  lemma FrontAndLast(pub: seq<Frame>)
    requires pub != []
    ensures Front(pub) + [pub[|pub| - 1]] == pub
  {
  }

  /** What a release does to a link, whatever it delivers. */
  predicate TakesRelease(l: Link, m: Link, comp: Frame) {
    && l.forth != [] && Is(Rel, l.forth[0]) && Is(Comp, comp)
    && m == l.(forth := l.forth[1..], stored := {}, back := l.back + [comp], got := m.got)
  }

  /** A release of an earlier message. */
  lemma OldRelease(l: Link, m: Link, comp: Frame, f: Frame)
    requires TakesRelease(l, m, comp) && Typed(l) && Publishing(l, f)
    ensures l.stored == {} && Publishing(m, f)
  {
    assert l.forth[0] in l.forth && Has(Rel, l.forth);
    assert forall g :: g in m.forth ==> g in l.forth;
    HasSnoc(Rec, l.back, comp);
  }

  lemma NewRelease(l: Link, m: Link, comp: Frame, f: Frame)
    requires TakesRelease(l, m, comp) && Releasing(l, f)
    ensures (l.stored == {} || l.stored == {f}) && Releasing(m, f)
  {
    NoneBehind(Pub2, l.forth);
    assert forall g :: g in m.forth ==> g in l.forth;
  }

  /** The receiver handles a release: it delivers what it has stored, and says so. */
  lemma ReleaseGood(l: Link, m: Link, comp: Frame)
    requires Good(l) && TakesRelease(l, m, comp)
    requires l.stored == {} ==> m.got == l.got
    requires forall f :: l.stored == {f} ==> m.got == l.got + [f]
    ensures Good(m)
  {
    if l.open {
      var f := l.pub[|l.pub| - 1];
      if Publishing(l, f) && l.got == Front(l.pub) {
        OldRelease(l, m, comp, f);
      } else {
        NewRelease(l, m, comp, f);
        FrontAndLast(l.pub);
      }
    } else {
      HasSnoc(Rec, l.back, comp);
      assert forall g :: g in m.forth ==> g in l.forth;
    }
  }

  // ---------------------------------------------------------------- what a session does to it

  predicate ItemOk(item: Item) {
    && item.frame.typ in {PUBLISH, PUBREL, SUBSCRIBE, UNSUBSCRIBE}
    && (Is(Pub2, item.frame) || Is(Rel, item.frame) ==> item.id == Id(item.frame))
  }

  predicate QueuesOk(s: Session) {
    && (forall item :: item in s.outgoing ==> ItemOk(item))
    && UniqueIds(s.inbound) && (forall item :: item in s.inbound ==> IsInbound(item))
  }

  lemma TransmitKeepsQueues(s: Session)
    requires QueuesOk(s) && s.outgoing != []
    ensures QueuesOk(Transmit(s))
  {
    var head := s.outgoing[0];
    assert head in s.outgoing;
    forall item | item in Transmit(s).outgoing ensures ItemOk(item) {
      assert item == head.(transmitted := true) || item in s.outgoing;
    }
  }

  lemma TickKeepsQueues(s: Session, expired: bool)
    requires QueuesOk(s)
    ensures QueuesOk(Tick(s, expired))
  {
    var s1 := if expired then Expire(s) else s;
    if expired && s.outgoing != [] && s.attempts + 1 < RESEND_ATTEMPTS {
      TransmitKeepsQueues(s.(attempts := s.attempts + 1));
    }
    if !s1.timer && s1.outgoing != [] {
      TransmitKeepsQueues(s1);
    }
  }

  lemma ActionKeepsQueues(s: Session, act: Action)
    requires QueuesOk(s) && Enabled(s, act) && !act.DoReceive?
    ensures QueuesOk(Next(s, act))
  {
    if act.DoPublish? {
      PublishFrameFacts(act.retain, act.dup, act.qos, act.id, act.topic, act.payload);
    } else if act.DoTick? {
      TickKeepsQueues(s, act.expired);
    }
  }

  lemma AckKeepsQueues(s: Session, f: Frame, seen: Observer)
    requires QueuesOk(s) && f.typ in {PUBACK, PUBREC, PUBCOMP, SUBACK, UNSUBACK}
    ensures QueuesOk(HandleAck(s, f, seen))
  {
    WithoutRemoves(s.outgoing, RequestType(f.typ), Id(f));
    IdIsShort(f);
    IdFrameId(PUBREL, Id(f));
    var rel := Item(IdFrame(PUBREL, Id(f)), Id(f), true);
    forall item | item in HandleAck(s, f, seen).outgoing ensures ItemOk(item) {
      assert item in s.outgoing || item == rel;
    }
  }

  lemma ReceiveKeepsQueues(s: Session, f: Frame, seen: Observer)
    requires QueuesOk(s)
    ensures QueuesOk(HandleFrame(s, f, seen))
  {
    if f.typ in {PUBACK, PUBREC, PUBCOMP, SUBACK, UNSUBACK} {
      AckKeepsQueues(s, f, seen);
    } else if Is(Pub2, f) {
      ReplaceInbound(s.inbound, Item(f, Id(f), false));
    } else if f.typ == PUBREL {
      WithoutIdUnique(s.inbound, Id(f));
      DeliverIdFrame(Send(s, IdFrame(PUBCOMP, Id(f))), s.inbound, Id(f), seen);
    }
  }

  /** What a step writes. */
  function New(s: Session, t: Session): seq<Frame> {
    if |s.sent| <= |t.sent| then t.sent[|s.sent|..] else []
  }

  predicate WritesOne(s: Session, t: Session) {
    t.sent == s.sent + New(s, t) && |New(s, t)| <= 1
  }

  lemma WroteNone(s: Session, t: Session)
    requires t.sent == s.sent
    ensures WritesOne(s, t) && New(s, t) == []
  {
  }

  lemma WroteOne(s: Session, t: Session, f: Frame)
    requires t.sent == s.sent + [f]
    ensures WritesOne(s, t) && New(s, t) == [f]
  {
  }

  lemma PendingNew(which: Which, id: nat, s: Session, t: Session, got: nat)
    requires WritesOne(s, t) && got <= |s.sent|
    ensures Pending(which, id, t.sent, got) == Pending(which, id, s.sent, got) + Pick(which, id, New(s, t))
  {
    PendingConcat(which, id, s.sent, New(s, t), got);
  }

  lemma PendingConcat(which: Which, id: nat, sent: seq<Frame>, more: seq<Frame>, got: nat)
    requires got <= |sent| && |more| <= 1
    ensures Pending(which, id, sent + more, got) == Pending(which, id, sent, got) + Pick(which, id, more)
  {
    if more == [] {
      assert sent + more == sent;
    } else {
      assert more == [more[0]];
      PickOne(which, id, more[0]);
      PendingGrows(which, id, sent, got, more[0]);
    }
  }

  // the sender

  /** Nothing of this id is asked for or answered: what is queued may be written or forgotten. */
  ghost predicate SenderQuiet(s: Session, t: Session, id: nat) {
    && WritesOne(s, t)
    && (forall g :: g in New(s, t) && Picks(Forth, id, g) ==> g in Queued(Forth, s.outgoing, id))
    && Queued(Forth, t.outgoing, id) <= Queued(Forth, s.outgoing, id)
  }

  lemma TransmitQuiet(s: Session, s1: Session, id: nat)
    requires s1.outgoing != [] && s1.sent == s.sent && forall item :: item in s1.outgoing ==> item in s.outgoing
    ensures SenderQuiet(s, Transmit(s1), id)
  {
    var head := s1.outgoing[0];
    assert head in s1.outgoing;
    WroteOne(s, Transmit(s1), head.frame);
    forall item | item in Transmit(s1).outgoing ensures item.frame == head.frame || item in s1.outgoing {
    }
  }

  lemma TickQuiet(s: Session, expired: bool, id: nat)
    requires expired ==> s.timer
    ensures SenderQuiet(s, Tick(s, expired), id)
  {
    var s1 := if expired then Expire(s) else s;
    if expired && s.outgoing != [] && s.attempts + 1 < RESEND_ATTEMPTS {
      TransmitQuiet(s, s.(attempts := s.attempts + 1), id);
    } else if !s1.timer && s1.outgoing != [] {
      TransmitQuiet(s, s1, id);
    } else {
      WroteNone(s, s1);
    }
  }

  lemma AppendQuiet(s: Session, t: Session, f: Frame, id: nat)
    requires t.sent == s.sent || t.sent == s.sent + [f]
    requires !Picks(Forth, id, f)
    requires forall item :: item in t.outgoing ==> item in s.outgoing || !Picks(Forth, id, item.frame)
    ensures SenderQuiet(s, t, id)
  {
    if t.sent == s.sent {
      WroteNone(s, t);
    } else {
      WroteOne(s, t, f);
    }
  }

  lemma AckQuiet(s: Session, f: Frame, seen: Observer, id: nat)
    requires f.typ in {PUBACK, PUBREC, PUBCOMP, SUBACK, UNSUBACK} && !Picks(Back, id, f)
    ensures SenderQuiet(s, HandleAck(s, f, seen), id)
  {
    WithoutRemoves(s.outgoing, RequestType(f.typ), Id(f));
    IdIsShort(f);
    var rel := IdFrame(if f.typ == PUBREC then PUBREL else PUBACK, Id(f));
    IdFrameId(PUBREL, Id(f));
    AppendQuiet(s, HandleAck(s, f, seen), rel, id);
  }

  lemma ReceiveQuiet(s: Session, f: Frame, seen: Observer, id: nat)
    requires !Picks(Back, id, f)
    ensures SenderQuiet(s, HandleFrame(s, f, seen), id)
  {
    var t := HandleFrame(s, f, seen);
    if f.typ in {PUBACK, PUBREC, PUBCOMP, SUBACK, UNSUBACK} {
      AckQuiet(s, f, seen, id);
    } else if f.typ == PUBREL {
      DeliverIdFrame(Send(s, IdFrame(PUBCOMP, Id(f))), s.inbound, Id(f), seen);
      AppendQuiet(s, t, IdFrame(PUBCOMP, Id(f)), id);
    } else if f.typ == PUBLISH {
      AppendQuiet(s, t, IdFrame(if Qos(f.flags) == 2 then PUBREC else PUBACK, Id(f)), id);
    } else {
      AppendQuiet(s, t, Frame(PINGRESP, 0, []), id);
    }
  }

  lemma StepQuiet(s: Session, act: Action, id: nat)
    requires Enabled(s, act) && !(PublishesQos2(act) && act.id == id) && !(act.DoReceive? && Picks(Back, id, act.frame))
    ensures SenderQuiet(s, Next(s, act), id)
  {
    match act {
      case DoPublish(retain, dup, qos, i, topic, payload) =>
        PublishFrameFacts(retain, dup, qos, i, topic, payload);
        AppendQuiet(s, Next(s, act), PublishFrame(retain, dup, qos, i, topic, payload), id);
      case DoSubscribe(i, topic, maxQos) => AppendQuiet(s, Next(s, act), SubscribeFrame(i, topic, maxQos), id);
      case DoUnsubscribe(i, topic) => AppendQuiet(s, Next(s, act), UnsubscribeFrame(i, topic), id);
      case DoWrite(f) => AppendQuiet(s, Next(s, act), f, id);
      case DoTick(expired) => TickQuiet(s, expired, id);
      case DoReceive(f, seen) => ReceiveQuiet(s, f, seen, id);
      case DoRead(room) => WroteNone(s, Next(s, act));
    }
  }

  /** A message with this id is published. */
  lemma SenderPublishes(s: Session, f: Frame, id: nat)
    requires Picks(Messages, id, f)
    ensures var t := Published(s, f, 2, id);
            && WritesOne(s, t) && New(s, t) == (if s.outgoing == [] then [f] else [])
            && Queued(Forth, t.outgoing, id) == Queued(Forth, s.outgoing, id) + {f}
  {
    var t := Published(s, f, 2, id);
    var item := Item(f, id, s.outgoing == []);
    assert t.outgoing == s.outgoing + [item];
    assert item in t.outgoing;
    if s.outgoing == [] {
      WroteOne(s, t, f);
    } else {
      WroteNone(s, t);
    }
  }

  /** A PUBREC with this id arrives: a PUBREL is queued and written. */
  lemma SenderReleases(s: Session, f: Frame, seen: Observer, id: nat)
    requires QueuesOk(s) && Is(Rec, f) && Id(f) == id
    ensures var t, rel := HandleAck(s, f, seen), IdFrame(PUBREL, id);
            && WritesOne(s, t) && New(s, t) == [rel] && Is(Rel, rel) && Id(rel) == id
            && forall g :: g in Queued(Forth, t.outgoing, id) ==> Is(Rel, g)
  {
    var t, rel := HandleAck(s, f, seen), IdFrame(PUBREL, id);
    IdIsShort(f);
    IdFrameId(PUBREL, id);
    WithoutRemoves(s.outgoing, PUBLISH, id);
    WroteOne(s, t, rel);
    forall item | item in t.outgoing && Picks(Forth, id, item.frame) ensures Is(Rel, item.frame) {
      if item.frame != rel {
        assert item in s.outgoing && ItemOk(item);
      }
    }
  }

  /** A PUBCOMP arrives for a release that is queued. */
  predicate Completes(s: Session, act: Action) {
    act.DoReceive? && Is(Comp, act.frame) && exists item :: item in s.outgoing && Matches(item, PUBREL, Id(act.frame))
  }

  lemma SenderCompletes(s: Session, act: Action, id: nat)
    requires QueuesOk(s) && act.DoReceive? && Is(Comp, act.frame) && Id(act.frame) == id
    ensures var t := HandleAck(s, act.frame, act.seen);
            && WritesOne(s, t) && New(s, t) == []
            && Queued(Forth, t.outgoing, id) <= Queued(Forth, s.outgoing, id)
            && (forall g :: g in Queued(Forth, t.outgoing, id) ==> !Is(Rel, g))
            && (Completes(s, act) <==> exists g :: g in Queued(Forth, s.outgoing, id) && Is(Rel, g))
  {
    var t := HandleAck(s, act.frame, act.seen);
    WithoutRemoves(s.outgoing, PUBREL, id);
    WroteNone(s, t);
    forall item | item in s.outgoing && Is(Rel, item.frame)
      ensures Matches(item, PUBREL, id) <==> Picks(Forth, id, item.frame)
    {
      assert ItemOk(item);
    }
    if Completes(s, act) {
      var item :| item in s.outgoing && Matches(item, PUBREL, id);
      assert item.frame in Queued(Forth, s.outgoing, id) && Is(Rel, item.frame);
    }
  }

  // the receiver

  /** No message and no release of this id arrives. */
  ghost predicate ReceiverQuiet(r: Session, t: Session, id: nat) {
    && WritesOne(r, t) && (forall g :: g in New(r, t) ==> !Picks(Back, id, g))
    && Queued(Messages, t.inbound, id) == Queued(Messages, r.inbound, id)
    && Pick(Messages, id, t.delivered) == Pick(Messages, id, r.delivered)
  }

  lemma WritesQuiet(r: Session, t: Session, f: Frame, id: nat)
    requires t.inbound == r.inbound && t.delivered == r.delivered
    requires t.sent == r.sent || (t.sent == r.sent + [f] && !Picks(Back, id, f))
    ensures ReceiverQuiet(r, t, id)
  {
    if t.sent == r.sent {
      WroteNone(r, t);
    } else {
      WroteOne(r, t, f);
    }
  }

  /** Actions other than receiving write what is asked for or queued. */
  lemma ActionReceiverQuiet(r: Session, act: Action, id: nat)
    requires QueuesOk(r) && Enabled(r, act) && !act.DoReceive?
    ensures ReceiverQuiet(r, Next(r, act), id)
  {
    var t := Next(r, act);
    if t.sent == r.sent {
      WritesQuiet(r, t, Frame(PINGRESP, 0, []), id);
    } else {
      if act.DoTick? {
        assert r.outgoing[0] in r.outgoing;
        assert |r.outgoing| > 1 ==> r.outgoing[1] in r.outgoing;
      }
      WritesQuiet(r, t, t.sent[|r.sent|], id);
    }
  }

  lemma DeliversQuiet(r: Session, t: Session, g: Frame, id: nat)
    requires WritesOne(r, t) && (forall h :: h in New(r, t) ==> !Picks(Back, id, h))
    requires t.inbound == r.inbound && !Picks(Messages, id, g)
    requires t.delivered == r.delivered || t.delivered == r.delivered + [g]
    ensures ReceiverQuiet(r, t, id)
  {
    PickSnoc(Messages, id, r.delivered, g);
  }

  lemma OtherReceiverQuiet(r: Session, f: Frame, seen: Observer, id: nat)
    requires !Is(Pub2, f) && !Is(Rel, f)
    ensures ReceiverQuiet(r, HandleFrame(r, f, seen), id)
  {
    var t := HandleFrame(r, f, seen);
    var g := if f.typ == DISCONNECT then f.(body := [0]) else f;
    if f.typ == PUBREC {
      WroteOne(r, t, IdFrame(PUBREL, Id(f)));
    } else if f.typ == PUBLISH && Qos(f.flags) == 1 {
      WroteOne(r, t, IdFrame(PUBACK, Id(f)));
    } else if f.typ == PINGREQ {
      WroteOne(r, t, Frame(PINGRESP, 0, []));
    } else {
      WroteNone(r, t);
    }
    DeliversQuiet(r, t, g, id);
  }

  /** A message of this id arrives, or one of another id. */
  lemma ReceiverStores(r: Session, f: Frame, seen: Observer, id: nat)
    requires QueuesOk(r) && Is(Pub2, f)
    ensures var t, rec := HandlePublish(r, f, seen), IdFrame(PUBREC, Id(f));
            && WritesOne(r, t) && New(r, t) == [rec] && Is(Rec, rec) && Id(rec) == Id(f)
            && t.delivered == r.delivered
            && Queued(Messages, t.inbound, id) == if Id(f) == id then {f} else Queued(Messages, r.inbound, id)
  {
    var t, rec, item := HandlePublish(r, f, seen), IdFrame(PUBREC, Id(f)), Item(f, Id(f), false);
    IdIsShort(f);
    IdFrameId(PUBREC, Id(f));
    WroteOne(r, t, rec);
    WithoutRemoves(r.inbound, PUBLISH, Id(f));
    assert item in t.inbound;
    forall it | it in r.inbound ensures Matches(it, PUBLISH, Id(f)) <==> Id(it.frame) == Id(f) {
      assert IsInbound(it);
    }
  }

  /** A release arrives. */
  lemma ReceiverDelivers(r: Session, f: Frame, seen: Observer, id: nat)
    requires QueuesOk(r) && Is(Rel, f)
    ensures var t, comp := HandlePubrel(r, f, seen), IdFrame(PUBCOMP, Id(f));
            && WritesOne(r, t) && New(r, t) == [comp] && Is(Comp, comp) && Id(comp) == Id(f)
            && Queued(Messages, t.inbound, id) == (if Id(f) == id then {} else Queued(Messages, r.inbound, id))
            && (Id(f) != id || Queued(Messages, r.inbound, id) == {} ==>
                  Pick(Messages, id, t.delivered) == Pick(Messages, id, r.delivered))
            && (forall g :: Id(f) == id && Queued(Messages, r.inbound, id) == {g} ==>
                  Pick(Messages, id, t.delivered) == Pick(Messages, id, r.delivered) + [g])
  {
    var t, comp := HandlePubrel(r, f, seen), IdFrame(PUBCOMP, Id(f));
    var r1 := Send(r, comp);
    IdIsShort(f);
    IdFrameId(PUBCOMP, Id(f));
    DeliverIdFrame(r1, r.inbound, Id(f), seen);
    WroteOne(r, t, comp);
    WithoutIdUnique(r.inbound, Id(f));
    ReleaseUnique(r1, r.inbound, Id(f), seen);
    if Id(f) in QueuedIds(Pub2, r.inbound) {
      var g :| Is(Pub2, g) && Id(g) == Id(f) && t.delivered == r.delivered + [g]
               && exists item :: item in r.inbound && item.frame == g && item.id == Id(f);
      PickSnoc(Messages, id, r.delivered, g);
      assert Id(f) == id ==> g in Queued(Messages, r.inbound, id);
    } else {
      assert forall item :: item in r.inbound && Is(Pub2, item.frame) ==> Id(item.frame) in QueuedIds(Pub2, r.inbound);
    }
  }

  // ---------------------------------------------------------------- two endpoints

  /** `gotA`: how many of B's frames A has handled; `pubA`: the QoS 2 messages A has published, in order; `openA`: the ids
      of those not completed. */
  datatype Pair = Pair(a: Session, b: Session, gotA: nat, gotB: nat, pubA: seq<Frame>, pubB: seq<Frame>,
                       openA: set<nat>, openB: set<nat>)

  const BEGIN := Pair(INITIAL, INITIAL, 0, 0, [], [], {}, {})

  function Other(n: Pair): Pair {
    Pair(n.b, n.a, n.gotB, n.gotA, n.pubB, n.pubA, n.openB, n.openA)
  }

  function PublishedBy(act: Action): seq<Frame>
    requires act.DoPublish? ==> act.qos <= 2
  {
    if PublishesQos2(act) then [PublishFrame(act.retain, act.dup, 2, act.id, act.topic, act.payload)] else []
  }

  ghost function OpenAfter(s: Session, act: Action, open: set<nat>): set<nat> {
    if PublishesQos2(act) then open + {act.id} else if Completes(s, act) then open - {Id(act.frame)} else open
  }

  /** A acts.  An id may be used again as soon as its release has been acknowledged. */
  ghost predicate ActsA(n: Pair, act: Action, m: Pair) {
    && Enabled(n.a, act)
    && (act.DoReceive? ==> n.gotA < |n.b.sent| && act.frame == n.b.sent[n.gotA])
    && (PublishesQos2(act) ==> act.id !in n.openA)
    && m == Pair(Next(n.a, act), n.b, if act.DoReceive? then n.gotA + 1 else n.gotA, n.gotB,
                 n.pubA + PublishedBy(act), n.pubB, OpenAfter(n.a, act, n.openA), n.openB)
  }

  ghost predicate Acts(n: Pair, act: Action, m: Pair) {
    ActsA(n, act, m) || ActsA(Other(n), act, Other(m))
  }

  ghost predicate IsPairRun(pairs: seq<Pair>, acts: seq<Action>) {
    && |pairs| == |acts| + 1
    && pairs[0] == BEGIN
    && forall k :: 0 <= k < |acts| ==> Acts(pairs[k], acts[k], pairs[k + 1])
  }

  /** The handshake of an id in the direction from `s` to `r`. */
  ghost function LinkOf(s: Session, r: Session, gotS: nat, gotR: nat, pub: seq<Frame>, open: set<nat>, id: nat): Link
    requires gotS <= |s.sent| && gotR <= |r.sent|
  {
    Link(Pending(Forth, id, s.sent, gotS), Pending(Back, id, r.sent, gotR), Queued(Forth, s.outgoing, id),
         Queued(Messages, r.inbound, id), Pick(Messages, id, r.delivered), Pick(Messages, id, pub), id in open)
  }

  ghost predicate GoodPair(n: Pair) {
    && n.gotB <= |n.a.sent| && n.gotA <= |n.b.sent| && QueuesOk(n.a) && QueuesOk(n.b)
    && forall id: nat :: Good(LinkOf(n.a, n.b, n.gotB, n.gotA, n.pubA, n.openA, id))
                         && Good(LinkOf(n.b, n.a, n.gotA, n.gotB, n.pubB, n.openB, id))
  }

  // A as the sender

  lemma LinkOpens(s: Session, r: Session, gotS: nat, gotR: nat, pub: seq<Frame>, open: set<nat>, id: nat, f: Frame)
    requires gotS <= |s.sent| && gotR <= |r.sent| && id !in open && Picks(Messages, id, f)
    requires Good(LinkOf(s, r, gotS, gotR, pub, open, id))
    ensures gotS <= |Published(s, f, 2, id).sent|
    ensures Good(LinkOf(Published(s, f, 2, id), r, gotS, gotR, pub + [f], open + {id}, id))
  {
    var l, t, now := LinkOf(s, r, gotS, gotR, pub, open, id), Published(s, f, 2, id), s.outgoing == [];
    SenderPublishes(s, f, id);
    PendingNew(Forth, id, s, t, gotS);
    PickOne(Forth, id, f);
    PickSnoc(Messages, id, pub, f);
    PublishGood(l, LinkOf(t, r, gotS, gotR, pub + [f], open + {id}, id), f, now);
  }

  lemma SenderOpens(n: Pair, act: Action, m: Pair, id: nat)
    requires ActsA(n, act, m) && n.gotB <= |n.a.sent| && n.gotA <= |n.b.sent| && PublishesQos2(act) && act.id == id
    requires Good(LinkOf(n.a, n.b, n.gotB, n.gotA, n.pubA, n.openA, id))
    ensures m.gotB <= |m.a.sent| && m.gotA <= |m.b.sent|
    ensures Good(LinkOf(m.a, m.b, m.gotB, m.gotA, m.pubA, m.openA, id))
  {
    PublishFrameFacts(act.retain, act.dup, 2, act.id, act.topic, act.payload);
    LinkOpens(n.a, n.b, n.gotB, n.gotA, n.pubA, n.openA, id,
              PublishFrame(act.retain, act.dup, 2, act.id, act.topic, act.payload));
  }

  /** Nothing about this id is published or answered. */
  lemma SenderGoesOn(n: Pair, act: Action, m: Pair, id: nat)
    requires ActsA(n, act, m) && n.gotB <= |n.a.sent| && n.gotA <= |n.b.sent|
    requires !(PublishesQos2(act) && act.id == id) && !(act.DoReceive? && Picks(Back, id, act.frame))
    ensures SenderQuiet(n.a, m.a, id) && m.gotB == n.gotB <= |m.a.sent| && m.gotA <= |m.b.sent|
    ensures var l, k := LinkOf(n.a, n.b, n.gotB, n.gotA, n.pubA, n.openA, id),
                        LinkOf(m.a, m.b, m.gotB, m.gotA, m.pubA, m.openA, id);
            k == l.(forth := k.forth, queued := k.queued)
  {
    StepQuiet(n.a, act, id);
    if act.DoReceive? {
      PendingTaken(Back, id, n.b.sent, n.gotA);
    }
    OtherPublished(n.pubA, act, id);
    SentGrows(n.a, act);
  }

  lemma LinkGoesOn(s: Session, t: Session, l: Link, m: Link, got: nat, id: nat)
    requires SenderQuiet(s, t, id) && Good(l) && got <= |s.sent| && got <= |t.sent|
    requires l.forth == Pending(Forth, id, s.sent, got) && l.queued == Queued(Forth, s.outgoing, id)
    requires m.forth == Pending(Forth, id, t.sent, got) && m.queued == Queued(Forth, t.outgoing, id)
    requires m == l.(forth := m.forth, queued := m.queued)
    ensures Good(m)
  {
    PendingNew(Forth, id, s, t, got);
    PickedIsQueued(l, New(s, t), id);
    QuietGood(l, m, Pick(Forth, id, New(s, t)));
  }

  lemma OtherPublished(pub: seq<Frame>, act: Action, id: nat)
    requires act.DoPublish? ==> act.qos <= 2 && act.id < MqttPackets.LIMIT && |act.topic| < MqttPackets.LIMIT
                                && |act.payload| < MqttPackets.LIMIT
    requires !(PublishesQos2(act) && act.id == id)
    ensures Pick(Messages, id, pub + PublishedBy(act)) == Pick(Messages, id, pub)
  {
    if PublishesQos2(act) {
      PublishFrameFacts(act.retain, act.dup, 2, act.id, act.topic, act.payload);
      PickSnoc(Messages, id, pub, PublishedBy(act)[0]);
    } else {
      assert pub + PublishedBy(act) == pub;
    }
  }

  /** At most one frame is written, and it was queued. */
  predicate WritesQueued(l: Link, picked: seq<Frame>) {
    picked == [] || (|picked| == 1 && picked[0] in l.queued)
  }

  lemma QuietGood(l: Link, m: Link, picked: seq<Frame>)
    requires Good(l) && m.queued <= l.queued && WritesQueued(l, picked)
    requires m == l.(forth := l.forth + picked, queued := m.queued)
    ensures Good(m)
  {
    if picked == [] {
      assert l.forth + picked == l.forth;
      ForgetGood(l, m.queued);
    } else {
      assert picked == [picked[0]];
      WriteGood(l, picked[0], m.queued);
    }
  }

  lemma PickedIsQueued(l: Link, more: seq<Frame>, id: nat)
    requires |more| <= 1 && forall g :: g in more && Picks(Forth, id, g) ==> g in l.queued
    ensures WritesQueued(l, Pick(Forth, id, more))
  {
    if more != [] {
      assert more == [more[0]];
      PickOne(Forth, id, more[0]);
    }
  }

  lemma BackTaken(r: Session, got: nat, id: nat)
    requires got < |r.sent| && Picks(Back, id, r.sent[got])
    ensures var l := Pending(Back, id, r.sent, got);
            l != [] && l[0] == r.sent[got] && l[1..] == Pending(Back, id, r.sent, got + 1)
  {
    PendingTaken(Back, id, r.sent, got);
  }

  lemma LinkReleases(s: Session, r: Session, gotS: nat, gotR: nat, pub: seq<Frame>, open: set<nat>, id: nat, seen: Observer)
    requires gotS <= |s.sent| && gotR < |r.sent| && QueuesOk(s)
    requires Picks(Back, id, r.sent[gotR]) && Is(Rec, r.sent[gotR])
    requires Good(LinkOf(s, r, gotS, gotR, pub, open, id))
    ensures gotS <= |HandleAck(s, r.sent[gotR], seen).sent|
    ensures Good(LinkOf(HandleAck(s, r.sent[gotR], seen), r, gotS, gotR + 1, pub, open, id))
  {
    var t, rel := HandleAck(s, r.sent[gotR], seen), IdFrame(PUBREL, id);
    SenderReleases(s, r.sent[gotR], seen, id);
    BackTaken(r, gotR, id);
    PendingNew(Forth, id, s, t, gotS);
    PickOne(Forth, id, rel);
    RecGood(LinkOf(s, r, gotS, gotR, pub, open, id), LinkOf(t, r, gotS, gotR + 1, pub, open, id), rel);
  }

  lemma LinkCompletes(s: Session, r: Session, gotS: nat, gotR: nat, pub: seq<Frame>, open: set<nat>, id: nat, act: Action)
    requires gotS <= |s.sent| && gotR < |r.sent| && QueuesOk(s) && act.DoReceive? && act.frame == r.sent[gotR]
    requires Picks(Back, id, act.frame) && Is(Comp, act.frame)
    requires Good(LinkOf(s, r, gotS, gotR, pub, open, id))
    ensures gotS <= |HandleAck(s, act.frame, act.seen).sent|
    ensures Good(LinkOf(HandleAck(s, act.frame, act.seen), r, gotS, gotR + 1, pub, OpenAfter(s, act, open), id))
  {
    var t, l := HandleAck(s, act.frame, act.seen), LinkOf(s, r, gotS, gotR, pub, open, id);
    SenderCompletes(s, act, id);
    BackTaken(r, gotR, id);
    PendingNew(Forth, id, s, t, gotS);
    assert l.forth + [] == l.forth;
    CompGood(l, LinkOf(t, r, gotS, gotR + 1, pub, OpenAfter(s, act, open), id), Completes(s, act));
  }

  /** What A does when it receives. */
  lemma Received(n: Pair, act: Action, m: Pair)
    requires ActsA(n, act, m) && act.DoReceive?
    ensures n.gotA < |n.b.sent| && act.frame == n.b.sent[n.gotA] && m.a == HandleFrame(n.a, act.frame, act.seen)
    ensures m == n.(a := m.a, gotA := n.gotA + 1, openA := OpenAfter(n.a, act, n.openA))
  {
    assert n.pubA + [] == n.pubA;
  }

  lemma SenderAnswered(n: Pair, act: Action, m: Pair, id: nat)
    requires n.gotB <= |n.a.sent| && n.gotA < |n.b.sent| && QueuesOk(n.a)
    requires act.DoReceive? && act.frame == n.b.sent[n.gotA] && Picks(Back, id, act.frame)
    requires m == n.(a := HandleAck(n.a, act.frame, act.seen), gotA := n.gotA + 1, openA := OpenAfter(n.a, act, n.openA))
    requires Good(LinkOf(n.a, n.b, n.gotB, n.gotA, n.pubA, n.openA, id))
    ensures m.gotB <= |m.a.sent| && m.gotA <= |m.b.sent|
    ensures Good(LinkOf(m.a, m.b, m.gotB, m.gotA, m.pubA, m.openA, id))
  {
    if Is(Rec, act.frame) {
      LinkReleases(n.a, n.b, n.gotB, n.gotA, n.pubA, n.openA, id, act.seen);
    } else {
      LinkCompletes(n.a, n.b, n.gotB, n.gotA, n.pubA, n.openA, id, act);
    }
  }

  lemma ActsAsSender(n: Pair, act: Action, m: Pair, id: nat)
    requires ActsA(n, act, m) && n.gotB <= |n.a.sent| && n.gotA <= |n.b.sent| && QueuesOk(n.a)
    requires Good(LinkOf(n.a, n.b, n.gotB, n.gotA, n.pubA, n.openA, id))
    ensures m.gotB <= |m.a.sent| && m.gotA <= |m.b.sent|
    ensures Good(LinkOf(m.a, m.b, m.gotB, m.gotA, m.pubA, m.openA, id))
  {
    SentGrows(n.a, act);
    if PublishesQos2(act) && act.id == id {
      SenderOpens(n, act, m, id);
    } else if act.DoReceive? && Picks(Back, id, act.frame) {
      Received(n, act, m);
      SenderAnswered(n, act, m, id);
    } else {
      SenderGoesOn(n, act, m, id);
      LinkGoesOn(n.a, m.a, LinkOf(n.a, n.b, n.gotB, n.gotA, n.pubA, n.openA, id),
                 LinkOf(m.a, m.b, m.gotB, m.gotA, m.pubA, m.openA, id), n.gotB, id);
    }
  }

  // A as the receiver

  lemma ActsAsReceiver(n: Pair, act: Action, m: Pair, id: nat)
    requires ActsA(n, act, m) && n.gotB <= |n.a.sent| && n.gotA <= |n.b.sent| && QueuesOk(n.a)
    requires Good(LinkOf(n.b, n.a, n.gotA, n.gotB, n.pubB, n.openB, id))
    ensures m.gotA <= |m.b.sent| && m.gotB <= |m.a.sent|
    ensures Good(LinkOf(m.b, m.a, m.gotA, m.gotB, m.pubB, m.openB, id))
  {
    SentGrows(n.a, act);
    if act.DoReceive? && Is(Pub2, act.frame) {
      Received(n, act, m);
      ReceivesMessage(n, act, m, id);
    } else if act.DoReceive? && Is(Rel, act.frame) {
      Received(n, act, m);
      ReceivesRelease(n, act, m, id);
    } else {
      ReceiverGoesOn(n, act, m, id);
    }
  }

  lemma ReceiverGoesOn(n: Pair, act: Action, m: Pair, id: nat)
    requires ActsA(n, act, m) && n.gotB <= |n.a.sent| && n.gotA <= |n.b.sent| && QueuesOk(n.a)
    requires act.DoReceive? ==> !Is(Pub2, act.frame) && !Is(Rel, act.frame)
    ensures m.gotA <= |m.b.sent| && m.gotB <= |m.a.sent|
    ensures LinkOf(m.b, m.a, m.gotA, m.gotB, m.pubB, m.openB, id) == LinkOf(n.b, n.a, n.gotA, n.gotB, n.pubB, n.openB, id)
  {
    if act.DoReceive? {
      OtherReceiverQuiet(n.a, act.frame, act.seen, id);
      PendingTaken(Forth, id, n.b.sent, n.gotA);
    } else {
      ActionReceiverQuiet(n.a, act, id);
    }
    PendingNew(Back, id, n.a, m.a, n.gotB);
    PickNone(id, New(n.a, m.a), Pending(Back, id, n.a.sent, n.gotB));
  }

  lemma PickNone(id: nat, more: seq<Frame>, frames: seq<Frame>)
    requires |more| <= 1 && forall g :: g in more ==> !Picks(Back, id, g)
    ensures frames + Pick(Back, id, more) == frames
  {
    if more != [] {
      assert more == [more[0]];
      PickOne(Back, id, more[0]);
    }
  }

  /** A frame of another id, or of this one, leaves the channel. */
  lemma ForthTaken(s: Session, got: nat, id: nat)
    requires got < |s.sent| && (Is(Pub2, s.sent[got]) || Is(Rel, s.sent[got]))
    ensures var l := Pending(Forth, id, s.sent, got);
            if Id(s.sent[got]) == id then l != [] && l[0] == s.sent[got] && l[1..] == Pending(Forth, id, s.sent, got + 1)
            else l == Pending(Forth, id, s.sent, got + 1)
  {
    PendingTaken(Forth, id, s.sent, got);
  }

  lemma BackWritten(r: Session, t: Session, got: nat, id: nat, f: Frame)
    requires got <= |r.sent| && WritesOne(r, t) && New(r, t) == [f] && (Is(Rec, f) || Is(Comp, f))
    ensures got <= |t.sent|
    ensures Pending(Back, id, t.sent, got) == if Id(f) == id then Pending(Back, id, r.sent, got) + [f]
                                              else Pending(Back, id, r.sent, got)
  {
    PendingNew(Back, id, r, t, got);
    PickOne(Back, id, f);
    assert Pending(Back, id, r.sent, got) + [] == Pending(Back, id, r.sent, got);
  }

  lemma LinkStores(s: Session, r: Session, gotS: nat, gotR: nat, pub: seq<Frame>, open: set<nat>, id: nat, seen: Observer)
    requires gotS < |s.sent| && gotR <= |r.sent| && Is(Pub2, s.sent[gotS]) && QueuesOk(r)
    requires Good(LinkOf(s, r, gotS, gotR, pub, open, id))
    ensures gotR <= |HandlePublish(r, s.sent[gotS], seen).sent|
    ensures Good(LinkOf(s, HandlePublish(r, s.sent[gotS], seen), gotS + 1, gotR, pub, open, id))
  {
    var f := s.sent[gotS];
    var t, rec := HandlePublish(r, f, seen), IdFrame(PUBREC, Id(f));
    ReceiverStores(r, f, seen, id);
    ForthTaken(s, gotS, id);
    BackWritten(r, t, gotR, id, rec);
    if Id(f) == id {
      StoreGood(LinkOf(s, r, gotS, gotR, pub, open, id), LinkOf(s, t, gotS + 1, gotR, pub, open, id), rec);
    }
  }

  lemma LinkDelivers(s: Session, r: Session, gotS: nat, gotR: nat, pub: seq<Frame>, open: set<nat>, id: nat, seen: Observer)
    requires gotS < |s.sent| && gotR <= |r.sent| && Is(Rel, s.sent[gotS]) && QueuesOk(r)
    requires Good(LinkOf(s, r, gotS, gotR, pub, open, id))
    ensures gotR <= |HandlePubrel(r, s.sent[gotS], seen).sent|
    ensures Good(LinkOf(s, HandlePubrel(r, s.sent[gotS], seen), gotS + 1, gotR, pub, open, id))
  {
    var f := s.sent[gotS];
    var t, comp := HandlePubrel(r, f, seen), IdFrame(PUBCOMP, Id(f));
    ReceiverDelivers(r, f, seen, id);
    ForthTaken(s, gotS, id);
    BackWritten(r, t, gotR, id, comp);
    if Id(f) == id {
      ReleaseGood(LinkOf(s, r, gotS, gotR, pub, open, id), LinkOf(s, t, gotS + 1, gotR, pub, open, id), comp);
    }
  }

  lemma ReceivesMessage(n: Pair, act: Action, m: Pair, id: nat)
    requires n.gotB <= |n.a.sent| && n.gotA < |n.b.sent| && QueuesOk(n.a)
    requires act.DoReceive? && act.frame == n.b.sent[n.gotA] && Is(Pub2, act.frame)
    requires m == n.(a := HandlePublish(n.a, act.frame, act.seen), gotA := n.gotA + 1, openA := m.openA)
    requires Good(LinkOf(n.b, n.a, n.gotA, n.gotB, n.pubB, n.openB, id))
    ensures m.gotA <= |m.b.sent| && m.gotB <= |m.a.sent|
    ensures Good(LinkOf(m.b, m.a, m.gotA, m.gotB, m.pubB, m.openB, id))
  {
    LinkStores(n.b, n.a, n.gotA, n.gotB, n.pubB, n.openB, id, act.seen);
  }

  lemma ReceivesRelease(n: Pair, act: Action, m: Pair, id: nat)
    requires n.gotB <= |n.a.sent| && n.gotA < |n.b.sent| && QueuesOk(n.a)
    requires act.DoReceive? && act.frame == n.b.sent[n.gotA] && Is(Rel, act.frame)
    requires m == n.(a := HandlePubrel(n.a, act.frame, act.seen), gotA := n.gotA + 1, openA := m.openA)
    requires Good(LinkOf(n.b, n.a, n.gotA, n.gotB, n.pubB, n.openB, id))
    ensures m.gotA <= |m.b.sent| && m.gotB <= |m.a.sent|
    ensures Good(LinkOf(m.b, m.a, m.gotA, m.gotB, m.pubB, m.openB, id))
  {
    LinkDelivers(n.b, n.a, n.gotA, n.gotB, n.pubB, n.openB, id, act.seen);
  }

  // ---------------------------------------------------------------- whole runs

  lemma StepGood(n: Pair, act: Action, m: Pair)
    requires GoodPair(n) && ActsA(n, act, m)
    ensures GoodPair(m)
  {
    if act.DoReceive? {
      ReceiveKeepsQueues(n.a, act.frame, act.seen);
    } else {
      ActionKeepsQueues(n.a, act);
    }
    SentGrows(n.a, act);
    forall id: nat
      ensures Good(LinkOf(m.a, m.b, m.gotB, m.gotA, m.pubA, m.openA, id))
              && Good(LinkOf(m.b, m.a, m.gotA, m.gotB, m.pubB, m.openB, id))
    {
      ActsAsSender(n, act, m, id);
      ActsAsReceiver(n, act, m, id);
    }
  }

  lemma {:induction false} RunGood(pairs: seq<Pair>, acts: seq<Action>, k: nat)
    requires IsPairRun(pairs, acts) && k < |pairs|
    ensures GoodPair(pairs[k])
  {
    if k > 0 {
      RunGood(pairs, acts, k - 1);
      var n, m := pairs[k - 1], pairs[k];
      if ActsA(n, acts[k - 1], m) {
        StepGood(n, acts[k - 1], m);
      } else {
        StepGood(Other(n), acts[k - 1], Other(m));
      }
    }
  }

  /** Everything written and queued is well-formed, so a reception is never ruled out by the frame that arrives. */
  predicate FramesOk(s: Session) {
    (forall f :: f in s.sent ==> WellFormed(f)) && (forall item :: item in s.outgoing ==> WellFormed(item.frame))
  }

  lemma StepFramesOk(s: Session, act: Action)
    requires FramesOk(s) && Enabled(s, act)
    ensures FramesOk(Next(s, act))
  {
    match act {
      case DoPublish(retain, dup, qos, id, topic, payload) => PublishFrameFacts(retain, dup, qos, id, topic, payload);
      case DoTick(expired) => TickFramesOk(s, expired);
      case DoReceive(f, seen) => ReceiveFramesOk(s, f, seen);
      case _ =>
    }
  }

  lemma TickFramesOk(s: Session, expired: bool)
    requires FramesOk(s)
    ensures FramesOk(Tick(s, expired))
  {
    var s1 := if expired then Expire(s) else s;
    if expired && s.outgoing != [] && s.attempts + 1 < RESEND_ATTEMPTS {
      TransmitFramesOk(s.(attempts := s.attempts + 1));
    }
    if !s1.timer && s1.outgoing != [] {
      TransmitFramesOk(s1);
    }
  }

  lemma TransmitFramesOk(s: Session)
    requires FramesOk(s) && s.outgoing != []
    ensures FramesOk(Transmit(s))
  {
    var head := s.outgoing[0];
    assert head in s.outgoing;
    forall item | item in Transmit(s).outgoing ensures WellFormed(item.frame) {
      assert item == head.(transmitted := true) || item in s.outgoing;
    }
  }

  lemma ReceiveFramesOk(s: Session, f: Frame, seen: Observer)
    requires FramesOk(s)
    ensures FramesOk(HandleFrame(s, f, seen))
  {
    IdIsShort(f);
    WithoutRemoves(s.outgoing, RequestType(f.typ), Id(f));
    if f.typ == PUBREL {
      DeliverIdFrame(Send(s, IdFrame(PUBCOMP, Id(f))), s.inbound, Id(f), seen);
    }
  }

  lemma {:induction false} RunFramesOk(pairs: seq<Pair>, acts: seq<Action>, k: nat)
    requires IsPairRun(pairs, acts) && k < |pairs|
    ensures FramesOk(pairs[k].a) && FramesOk(pairs[k].b)
  {
    if k > 0 {
      RunFramesOk(pairs, acts, k - 1);
      var n, act := pairs[k - 1], acts[k - 1];
      if ActsA(n, act, pairs[k]) {
        StepFramesOk(n.a, act);
      } else {
        StepFramesOk(n.b, act);
      }
    }
  }

  /** Why an id is not used again earlier: a PUBREC takes out every queued message with its id, sent or not. */
  lemma RecTakesAll(s: Session, f: Frame, seen: Observer)
    requires Is(Rec, f)
    ensures forall item :: item in HandleAck(s, f, seen).outgoing ==> !Matches(item, PUBLISH, Id(f))
    ensures HandleAck(s, f, seen).sent == s.sent + [IdFrame(PUBREL, Id(f))]
  {
    WithoutRemoves(s.outgoing, PUBLISH, Id(f));
  }

  /** The messages of an id that have been delivered are those published, in order, each once and unchanged; the last one
      may be missing, but not once its release has been acknowledged. */
  ghost predicate DeliveredInOrder(r: Session, pub: seq<Frame>, open: set<nat>, id: nat) {
    var got, all := Pick(Messages, id, r.delivered), Pick(Messages, id, pub);
    got == all || (id in open && all != [] && got == Front(all))
  }

  /** QoS 2 with packet ids used again, in every run and in both directions. */
  lemma ExactlyOnceInOrder(pairs: seq<Pair>, acts: seq<Action>, k: nat, id: nat)
    requires IsPairRun(pairs, acts) && k < |pairs|
    ensures DeliveredInOrder(pairs[k].b, pairs[k].pubA, pairs[k].openA, id)
    ensures DeliveredInOrder(pairs[k].a, pairs[k].pubB, pairs[k].openB, id)
  {
    RunGood(pairs, acts, k);
    var n := pairs[k];
    assert Good(LinkOf(n.a, n.b, n.gotB, n.gotA, n.pubA, n.openA, id));
    assert Good(LinkOf(n.b, n.a, n.gotA, n.gotB, n.pubB, n.openB, id));
  }
}
