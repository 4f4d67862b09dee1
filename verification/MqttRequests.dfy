/** What a request does when it is submitted and what a response takes out of the queue, told apart by the tables of
    MQTT 3.1.1 section 3: which packets wait for an answer and which packet answers which. */
module MqttRequests {
  import opened Bytes
  import opened MqttCodec
  import opened MqttPackets
  import opened MqttSession
  import opened MqttActions

  // ---------------------------------------------------------------- submitting

  predicate Submits(a: Action) {
    a.DoPublish? || a.DoSubscribe? || a.DoUnsubscribe?
  }

  function RequestOf(a: Action): Frame
    requires Submits(a)
    requires a.DoPublish? ==> a.qos <= 2
  {
    match a
    case DoPublish(retain, dup, qos, id, topic, payload) => PublishFrame(retain, dup, qos, id, topic, payload)
    case DoSubscribe(id, topic, maxQos) => SubscribeFrame(id, topic, maxQos)
    case DoUnsubscribe(id, topic) => UnsubscribeFrame(id, topic)
    case _ => Frame(0, 0, [])
  }

  /** What is no request is a QoS 0 message: nothing answers it. */
  lemma QosOfRequest(a: Action)
    requires Submits(a) && (a.DoPublish? ==> a.qos <= 2)
    ensures IsRequest(RequestOf(a)) <==> !(a.DoPublish? && a.qos == 0)
    ensures a.DoPublish? ==> Qos(RequestOf(a).flags) == a.qos
  {
  }

  /** Over an empty queue a request is written once, starts the timer with all attempts left and waits for its answer, and a
      QoS 0 message is written and forgotten.  Behind other requests both are queued and nothing else happens. */
  lemma Submission(s: Session, a: Action)
    requires Enabled(s, a) && Submits(a)
    ensures var t, f := Next(s, a), RequestOf(a);
            && t == s.(outgoing := t.outgoing, sent := t.sent, timer := t.timer, attempts := t.attempts)
            && (s.outgoing == [] && IsRequest(f) ==>
                  t.sent == s.sent + [f] && t.outgoing == [Item(f, a.id, true)] && t.timer && t.attempts == 0)
            && (s.outgoing == [] && !IsRequest(f) ==> t == s.(sent := s.sent + [f]))
            && (s.outgoing != [] ==> t == s.(outgoing := s.outgoing + [Item(f, a.id, false)]))
  {
    QosOfRequest(a);
  }

  // ---------------------------------------------------------------- answering

  /** PUBACK and PUBREC answer PUBLISH, PUBCOMP answers PUBREL, SUBACK and UNSUBACK their requests, by packet id. */
  predicate Answers(f: Frame, item: Item) {
    && item.id == Id(f)
    && (f.typ, item.frame.typ) in {(PUBACK, PUBLISH), (PUBREC, PUBLISH), (PUBCOMP, PUBREL), (SUBACK, SUBSCRIBE),
                                   (UNSUBACK, UNSUBSCRIBE)}
  }

  /** The items that still wait, in order. */
  function StillWaiting(q: seq<Item>, f: Frame): seq<Item> {
    if q == [] then []
    else (if Answers(f, q[0]) then [] else [q[0]]) + StillWaiting(q[1..], f)
  }

  lemma {:induction false} WaitingSnoc(q: seq<Item>, item: Item, f: Frame)
    ensures StillWaiting(q + [item], f) == StillWaiting(q, f) + if Answers(f, item) then [] else [item]
  {
    var all := q + [item];
    if q == [] {
      assert all == [item];
    } else {
      assert all[1..] == q[1..] + [item];
      WaitingSnoc(q[1..], item, f);
    }
  }

  lemma {:induction false} WithoutIsWaiting(q: seq<Item>, f: Frame)
    requires f.typ in {PUBACK, PUBREC, PUBCOMP, SUBACK, UNSUBACK}
    ensures Without(q, RequestType(f.typ), Id(f)) == StillWaiting(q, f)
  {
    if q != [] {
      var rest, last := q[..|q| - 1], q[|q| - 1];
      assert q == rest + [last];
      WithoutIsWaiting(rest, f);
      WaitingSnoc(rest, last, f);
      assert Matches(last, RequestType(f.typ), Id(f)) <==> Answers(f, last);
    }
  }

  /** A response takes out what it answers and nothing else; the timer stops iff there was something; a PUBREC is followed
      by the PUBREL, written at once, at the head of the queue and with all attempts left. */
  lemma Answered(s: Session, f: Frame, seen: Observer)
    requires f.typ in {PUBACK, PUBREC, PUBCOMP, SUBACK, UNSUBACK} && WellFormed(f)
    ensures var t := HandleFrame(s, f, seen);
            var rest, pubrel := StillWaiting(s.outgoing, f), Frame(PUBREL, 2, Short(Id(f)));
            && t.inbound == s.inbound
            && (f.typ != PUBREC ==>
                  && t.outgoing == rest && t.sent == s.sent && t.attempts == s.attempts
                  && (t.timer <==> s.timer && rest == s.outgoing))
            && (f.typ == PUBREC ==>
                  && t.outgoing == [Item(pubrel, Id(f), true)] + rest && t.sent == s.sent + [pubrel]
                  && t.timer && t.attempts == 0)
  {
    WithoutIsWaiting(s.outgoing, f);
    WaitingLength(s.outgoing, f);
  }

  lemma {:induction false} WaitingLength(q: seq<Item>, f: Frame)
    ensures |StillWaiting(q, f)| <= |q|
    ensures |StillWaiting(q, f)| == |q| <==> StillWaiting(q, f) == q
  {
    if q != [] {
      WaitingLength(q[1..], f);
    }
  }

  // ---------------------------------------------------------------- a QoS 0 message behind a request

  /** A QoS 0 message that has to wait is treated like a request: although nothing answers it, it is written again until it
      is abandoned.  In this run it is written three times, and the receiver hands over each of them. */
  lemma QueuedQos0IsRepeated()
    ensures var f1, f2 := PublishFrame(false, false, 1, 1, [], []), PublishFrame(false, false, 0, 0, [], []);
            exists states: seq<Session>, actions: seq<Action> ::
              IsRun(states, actions) && |actions| == 6 && actions[1] == DoPublish(false, false, 0, 0, [], [])
              && states[6].sent == [f1, f2, f2, f2]
  {
    var f1, f2 := PublishFrame(false, false, 1, 1, [], []), PublishFrame(false, false, 0, 0, [], []);
    var seen: Observer := _ => true;
    var actions := [DoPublish(false, false, 1, 1, [], []), DoPublish(false, false, 0, 0, [], []),
                    DoReceive(IdFrame(PUBACK, 1), seen), DoTick(false), DoTick(true), DoTick(true)];
    var states := seq(7, k requires 0 <= k < 7 => Waits(f1, f2, k));
    forall k | 0 <= k < |actions|
      ensures Enabled(states[k], actions[k]) && states[k + 1] == Next(states[k], actions[k])
    {
      if k < 2 {
        BothPublished(f1, f2);
      } else if k == 2 {
        FirstAnswered(f1, f2, seen);
      } else {
        SecondRepeated(f1, f2);
      }
    }
    assert IsRun(states, actions);
  }

  /** The states of that run. */
  function Waits(f1: Frame, f2: Frame, k: nat): Session
    requires k < 7
  {
    var q1, q2, q2t := Item(f1, 1, true), Item(f2, 0, false), Item(f2, 0, true);
    if k == 0 then INITIAL
    else if k == 1 then Session([], [q1], [], true, 0, [f1], [])
    else if k == 2 then Session([], [q1, q2], [], true, 0, [f1], [])
    else if k == 3 then Session([], [q2], [], false, 0, [f1], [])
    else if k == 4 then Session([], [q2t], [], true, 0, [f1, f2], [])
    else if k == 5 then Session([], [q2t], [], true, 1, [f1, f2, f2], [])
    else Session([], [q2t], [], true, 2, [f1, f2, f2, f2], [])
  }

  lemma BothPublished(f1: Frame, f2: Frame)
    ensures Published(Waits(f1, f2, 0), f1, 1, 1) == Waits(f1, f2, 1)
    ensures Published(Waits(f1, f2, 1), f2, 0, 0) == Waits(f1, f2, 2)
  {
  }

  lemma FirstAnswered(f1: Frame, f2: Frame, seen: Observer)
    requires f1.typ == PUBLISH
    ensures HandleFrame(Waits(f1, f2, 2), IdFrame(PUBACK, 1), seen) == Waits(f1, f2, 3)
  {
    var q1, q2 := Item(f1, 1, true), Item(f2, 0, false);
    assert Without([q1, q2], PUBLISH, 1) == [q2] by {
      assert [q1, q2][..1] == [q1];
      assert Without([q1], PUBLISH, 1) == [];
    }
    assert Id(IdFrame(PUBACK, 1)) == 1;
  }

  lemma SecondRepeated(f1: Frame, f2: Frame)
    ensures Tick(Waits(f1, f2, 3), false) == Waits(f1, f2, 4)
    ensures Tick(Waits(f1, f2, 4), true) == Waits(f1, f2, 5)
    ensures Tick(Waits(f1, f2, 5), true) == Waits(f1, f2, 6)
  {
  }
}
