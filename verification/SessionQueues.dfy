/** The queues of the MQTT session as linked lists: what the session does to its sequences, done to the links. */
module SessionQueues {
  import Bytes
  import opened MqttCodec
  import opened MqttSession
  import opened TailQueue

  /** An entry stands for an item; whether the frame has been written is no part of it. */
  ghost predicate StandsFor(e: Entry, item: Item) {
    e.frame == item.frame && e.id == item.id
  }

  ghost predicate Stand(es: seq<Entry>, q: seq<Item>) {
    |es| == |q| && forall i :: 0 <= i < |q| ==> StandsFor(es[i], q[i])
  }

  lemma StandCons(e: Entry, es: seq<Entry>, item: Item, q: seq<Item>)
    requires Stand(es, q) && StandsFor(e, item)
    ensures Stand([e] + es, [item] + q)
  {
  }

  lemma {:induction false} WithoutStands(es: seq<Entry>, q: seq<Item>, typ: nibble, id: nat)
    requires Stand(es, q)
    ensures Stand(TailQueue.Without(es, TailQueue.Request(typ, id)), MqttSession.Without(q, typ, id))
  {
    if q != [] {
      WithoutStands(es[..|q| - 1], q[..|q| - 1], typ, id);
      assert StandsFor(es[|q| - 1], q[|q| - 1]);
    }
  }

  lemma {:induction false} WithoutIdStands(es: seq<Entry>, q: seq<Item>, id: nat)
    requires Stand(es, q)
    ensures Stand(TailQueue.Without(es, Message(id)), WithoutId(q, id))
  {
    if q != [] {
      WithoutIdStands(es[..|q| - 1], q[..|q| - 1], id);
      assert StandsFor(es[|q| - 1], q[|q| - 1]);
    }
  }

  /** What one entry does to the messages waiting for the application. */
  function Handed(e: Entry, id: nat, seen: Observer): seq<Entry> {
    if e.id == id && !seen(e.frame) then [e] else []
  }

  /** The messages waiting for the application when the loop has passed `i` entries. */
  function Waiting(s: Session, i: nat, id: nat, seen: Observer): seq<Item>
    requires i <= |s.inbound|
  {
    DeliverId(s, s.inbound[..i], id, seen).incoming
  }

  lemma WaitingEnds(s: Session, id: nat, seen: Observer)
    ensures Waiting(s, 0, id, seen) == s.incoming
    ensures Waiting(s, |s.inbound|, id, seen) == Released(s, id, seen).incoming
  {
    assert s.inbound[..|s.inbound|] == s.inbound;
  }

  lemma WaitingStands(waiting: seq<Entry>, s: Session, es: seq<Entry>, i: nat, id: nat, seen: Observer)
    requires Stand(es, s.inbound) && i < |es| && Stand(waiting, Waiting(s, i, id, seen))
    ensures Stand(waiting + Handed(es[i], id, seen), Waiting(s, i + 1, id, seen))
  {
    assert s.inbound[..i + 1][..i] == s.inbound[..i] && StandsFor(es[i], s.inbound[i]);
  }

  /** stream_mqtt_append_frame. */
  method Append(queue: Queue, frame: Frame, id: nat, ghost q: seq<Item>, ghost transmitted: bool)
    requires queue.Valid() && Stand(queue.items, q)
    modifies queue, queue.m.Keys
    ensures queue.Valid() && Stand(queue.items, q + [Item(frame, id, transmitted)])
    ensures fresh(queue.m.Keys - old(queue.m.Keys))
  {
    var item := new Entry(frame, id);
    queue.InsertTail(item);
  }

  /** stream_mqtt_insert_frame. */
  method Prepend(queue: Queue, frame: Frame, id: nat, ghost q: seq<Item>, ghost transmitted: bool)
    requires queue.Valid() && Stand(queue.items, q)
    modifies queue, queue.m.Keys
    ensures queue.Valid() && Stand(queue.items, [Item(frame, id, transmitted)] + q)
    ensures fresh(queue.m.Keys - old(queue.m.Keys))
  {
    var item := new Entry(frame, id);
    StandCons(item, queue.items, Item(frame, id, transmitted), q);
    queue.InsertHead(item);
  }

  /** Something was found iff the queue has become shorter. */
  lemma {:induction false} FoundMeansShorter(es: seq<Entry>, w: Wanted)
    ensures |TailQueue.Without(es, w)| <= |es|
    ensures (exists i :: 0 <= i < |es| && TailQueue.Matches(es[i], w)) <==> |TailQueue.Without(es, w)| != |es|
  {
    if es != [] {
      var front := es[..|es| - 1];
      FoundMeansShorter(front, w);
      assert forall i :: 0 <= i < |front| ==> front[i] == es[i];
    }
  }

  /** A response in terms of the queue alone. */
  lemma AckOutgoing(s: Session, f: Frame, seen: Observer)
    requires WellFormed(f)
    ensures var rest := MqttSession.Without(s.outgoing, RequestType(f.typ), Id(f));
            && HandleAck(s, f, seen).outgoing
               == (if f.typ == PUBREC then [Item(IdFrame(PUBREL, Id(f)), Id(f), true)] + rest else rest)
            && HandleAck(s, f, seen).timer == (f.typ == PUBREC || (s.timer && |rest| == |s.outgoing|))
  {
  }

  /** The requests a response removes, and the PUBREL that a PUBREC puts in front. */
  method Acknowledge(outgoing: Queue, f: Frame, ghost s: Session, ghost seen: Observer) returns (found: bool)
    requires f.typ in {PUBACK, PUBREC, PUBCOMP, SUBACK, UNSUBACK} && WellFormed(f)
    requires outgoing.Valid() && Stand(outgoing.items, s.outgoing)
    modifies outgoing, outgoing.m.Keys
    ensures outgoing.Valid() && Stand(outgoing.items, HandleAck(s, f, seen).outgoing)
    ensures fresh(outgoing.m.Keys - old(outgoing.m.Keys))
    ensures HandleAck(s, f, seen).timer == (f.typ == PUBREC || (s.timer && !found))
  {
    AckOutgoing(s, f, seen);
    found := Remove(outgoing, f.typ, Bytes.GetShort(f.body), s.outgoing);
    if f.typ == PUBREC {
      Prepend(outgoing, IdFrame(PUBREL, Id(f)), Id(f), MqttSession.Without(s.outgoing, PUBLISH, Id(f)), true);
    }
  }

  /** stream_mqtt_remove_frame, called for the request of a response. */
  method Remove(queue: Queue, typ: nibble, id: nat, ghost q: seq<Item>) returns (found: bool)
    requires queue.Valid() && Stand(queue.items, q)
    modifies queue, queue.m.Keys
    ensures queue.Valid() && Stand(queue.items, MqttSession.Without(q, RequestType(typ), id))
    ensures queue.m.Keys <= old(queue.m.Keys)
    ensures found <==> |MqttSession.Without(q, RequestType(typ), id)| != |q|
  {
    WithoutStands(queue.items, q, RequestType(typ), id);
    FoundMeansShorter(queue.items, TailQueue.Request(RequestType(typ), id));
    found := queue.RemoveMatching(TailQueue.Request(RequestType(typ), id));
  }

  /** A QoS 2 message takes the place of one with the same id. */
  method StoreInbound(inbound: Queue, f: Frame, ghost s: Session, ghost seen: Observer)
    requires f.typ == PUBLISH && Qos(f.flags) == 2 && WellFormed(f)
    requires inbound.Valid() && Stand(inbound.items, s.inbound)
    modifies inbound, inbound.m.Keys
    ensures inbound.Valid() && Stand(inbound.items, HandlePublish(s, f, seen).inbound)
    ensures fresh(inbound.m.Keys - old(inbound.m.Keys))
  {
    var id := Id(f);
    WithoutStands(inbound.items, s.inbound, PUBLISH, id);
    var _ := inbound.RemoveMatching(TailQueue.Request(PUBLISH, id));
    Append(inbound, f, id, MqttSession.Without(s.inbound, PUBLISH, id), false);
  }

  lemma Moved(a: set<Entry>, b: set<Entry>, c: set<Entry>, e: Entry)
    requires a !! b && e in a && c <= b + {e}
    ensures a - {e} !! c && (a - {e}) + c <= a + b
  {
  }

  /** The body of the loop of PUBREL. */
  method Release1(inbound: Queue, incoming: Queue, item: Entry, id: nat, seen: Observer, ghost all: seq<Entry>, ghost i: nat)
    returns (tmp: Entry?)
    requires inbound.Valid() && incoming.Valid() && inbound != incoming && inbound.m.Keys !! incoming.m.Keys
    requires i < |all| && all[i] == item && inbound.items == TailQueue.PassedAndRest(all, i, Message(id))
    modifies inbound, incoming, inbound.m.Keys, incoming.m.Keys
    ensures inbound.Valid() && incoming.Valid() && inbound.m.Keys !! incoming.m.Keys
    ensures inbound.m.Keys + incoming.m.Keys <= old(inbound.m.Keys + incoming.m.Keys)
    ensures inbound.items == TailQueue.PassedAndRest(all, i + 1, Message(id))
    ensures tmp == if i + 1 < |all| then all[i + 1] else null
    ensures incoming.items == old(incoming.items) + Handed(item, id, seen)
  {
    var hit;
    hit, tmp := inbound.Visit(item, all, i, Message(id));
    assert incoming.Valid() && incoming.items == old(incoming.items);
    if hit {
      ghost var left, line := inbound.m.Keys, inbound.items;
      HandOver(incoming, item, seen);
      assert inbound.Valid() && inbound.m.Keys == left && inbound.items == line;
      Moved(old(inbound.m.Keys), old(incoming.m.Keys), incoming.m.Keys, item);
    }
  }

  /** A message goes to the observer, or to the application if the observer leaves it. */
  method HandOver(incoming: Queue, item: Entry, seen: Observer)
    requires incoming.Valid() && item !in incoming.m
    modifies incoming, incoming.m.Keys, item
    ensures incoming.Valid() && incoming.m.Keys <= old(incoming.m.Keys) + {item}
    ensures incoming.items == old(incoming.items) + (if seen(item.frame) then [] else [item])
  {
    var handled := seen(item.frame);
    if !handled {
      incoming.InsertTail(item);
    }
  }

  /** The loop of PUBREL: each entry with the id leaves one queue and, unless the observer takes it, enters the other. */
  method Release(inbound: Queue, incoming: Queue, id: nat, seen: Observer, ghost s: Session)
    requires inbound.Valid() && incoming.Valid() && inbound != incoming && inbound.m.Keys !! incoming.m.Keys
    requires Stand(inbound.items, s.inbound) && Stand(incoming.items, s.incoming)
    modifies inbound, incoming, inbound.m.Keys, incoming.m.Keys
    ensures inbound.Valid() && incoming.Valid() && inbound.m.Keys !! incoming.m.Keys
    ensures Stand(inbound.items, Released(s, id, seen).inbound)
    ensures Stand(incoming.items, Released(s, id, seen).incoming)
    ensures inbound.m.Keys + incoming.m.Keys <= old(inbound.m.Keys + incoming.m.Keys)
  {
    ghost var all, i := inbound.items, 0;
    var item := inbound.First();
    PassedAll(all, Message(id));
    WaitingEnds(s, id, seen);
    while item != null
      invariant inbound.Valid() && incoming.Valid() && inbound.m.Keys !! incoming.m.Keys
      invariant inbound.m.Keys + incoming.m.Keys <= old(inbound.m.Keys + incoming.m.Keys)
      invariant i <= |all| && item == if i < |all| then all[i] else null
      invariant inbound.items == TailQueue.PassedAndRest(all, i, Message(id))
      invariant Stand(incoming.items, Waiting(s, i, id, seen))
      decreases |all| - i
    {
      WaitingStands(incoming.items, s, all, i, id, seen);
      item := Release1(inbound, incoming, item, id, seen, all, i);
      i := i + 1;
    }
    PassedAll(all, Message(id));
    WithoutIdStands(all, s.inbound, id);
  }
}
