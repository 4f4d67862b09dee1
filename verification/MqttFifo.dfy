/** Requests are transmitted first in the order in which the application has made them. */
module MqttFifo {
  import opened MqttCodec
  import opened MqttSession
  import opened MqttActions

  // ---------------------------------------------------------------- subsequences

  predicate Sub<T(==)>(a: seq<T>, b: seq<T>)
    decreases |b|
  {
    a == [] || (b != [] && ((a[|a| - 1] == b[|b| - 1] && Sub(a[..|a| - 1], b[..|b| - 1])) || Sub(a, b[..|b| - 1])))
  }

  lemma {:induction false} SubSelf<T>(a: seq<T>)
    ensures Sub(a, a)
  {
    if a != [] {
      SubSelf(a[..|a| - 1]);
    }
  }

  lemma SubSnoc<T>(a: seq<T>, b: seq<T>, x: T)
    requires Sub(a, b)
    ensures Sub(a + [x], b + [x]) && Sub(a, b + [x])
  {
    assert (a + [x])[..|a|] == a && (b + [x])[..|b|] == b;
  }

  lemma {:induction false} SubTrans<T>(a: seq<T>, b: seq<T>, c: seq<T>)
    requires Sub(a, b) && Sub(b, c)
    ensures Sub(a, c)
    decreases |c|
  {
    if a != [] && c != [] {
      var a1, b1, c1 := a[..|a| - 1], b[..|b| - 1], c[..|c| - 1];
      if Sub(b, c1) {
        SubTrans(a, b, c1);
      } else if Sub(a, b1) {
        SubTrans(a, b1, c1);
      } else {
        SubTrans(a1, b1, c1);
      }
    }
  }

  lemma {:induction false} SubBehind<T>(front: seq<T>, a: seq<T>, b: seq<T>)
    requires Sub(a, b)
    ensures Sub(front + a, front + b)
    decreases |b|
  {
    if b == [] {
      SubSelf(front + a);
    } else {
      var b1 := b[..|b| - 1];
      assert front + b == (front + b1) + [b[|b| - 1]];
      if a == [] {
        SubBehind(front, a, b1);
        SubSnoc(front + a, front + b1, b[|b| - 1]);
      } else if Sub(a, b1) {
        SubBehind(front, a, b1);
        SubSnoc(front + a, front + b1, b[|b| - 1]);
      } else {
        SubBehind(front, a[..|a| - 1], b1);
        SubSnoc(front + a[..|a| - 1], front + b1, b[|b| - 1]);
        assert front + a == (front + a[..|a| - 1]) + [a[|a| - 1]];
      }
    }
  }

  /** A subsequence is shorter, or the same. */
  lemma {:induction false} SubLength<T>(a: seq<T>, b: seq<T>)
    requires Sub(a, b)
    ensures |a| <= |b| && (|a| == |b| ==> a == b)
    decreases |b|
  {
    if a != [] {
      var a1, b1 := a[..|a| - 1], b[..|b| - 1];
      if Sub(a, b1) {
        SubLength(a, b1);
      } else {
        SubLength(a1, b1);
        assert a == a1 + [a[|a| - 1]] && b == b1 + [b[|b| - 1]];
      }
    }
  }

  // ---------------------------------------------------------------- what is asked for, and what is written

  /** What the application asks for; a PUBREL is the session's own. */
  predicate IsSubmission(f: Frame) {
    f.typ == PUBLISH || f.typ == SUBSCRIBE || f.typ == UNSUBSCRIBE
  }

  function Submissions(frames: seq<Frame>): seq<Frame> {
    if frames == [] then []
    else
      var last := frames[|frames| - 1];
      Submissions(frames[..|frames| - 1]) + (if IsSubmission(last) then [last] else [])
  }

  function Submitted(s: Session, a: Action): seq<Frame>
    requires Enabled(s, a)
  {
    match a
    case DoPublish(retain, dup, qos, id, topic, payload) => [PublishFrame(retain, dup, qos, id, topic, payload)]
    case DoSubscribe(id, topic, maxQos) => [SubscribeFrame(id, topic, maxQos)]
    case DoUnsubscribe(id, topic) => [UnsubscribeFrame(id, topic)]
    case _ => []
  }

  /** The frames a step writes. */
  function Written(s: Session, t: Session): seq<Frame> {
    if |s.sent| <= |t.sent| then t.sent[|s.sent|..] else []
  }

  /** The tick writes a frame again: the head when its timer has expired, or a head that is marked already. */
  predicate Resends(s: Session, expired: bool) {
    var s1 := if expired then Expire(s) else s;
    s1.timer || (s1.outgoing != [] && s1.outgoing[0].transmitted)
  }

  /** The submissions a step writes for the first time. */
  function FirstSent(s: Session, a: Action): seq<Frame>
    requires Enabled(s, a)
  {
    if a.DoTick? && Resends(s, a.expired) then [] else Submissions(Written(s, Next(s, a)))
  }

  /** The queued frames that have not been written. */
  function Unsent(q: seq<Item>): seq<Frame> {
    if q == [] then []
    else
      var last := q[|q| - 1];
      Unsent(q[..|q| - 1]) + (if last.transmitted then [] else [last.frame])
  }

  predicate IsResponse(f: Frame) {
    f.typ in {PUBACK, PUBREC, PUBCOMP, SUBACK, UNSUBACK}
  }

  /** What waits is what the application has asked for. */
  predicate WaitsForSubmissions(q: seq<Item>) {
    forall i :: 0 <= i < |q| && !q[i].transmitted ==> IsSubmission(q[i].frame)
  }

  // ---------------------------------------------------------------- one step

  lemma {:induction false} UnsentCons(item: Item, q: seq<Item>)
    ensures Unsent([item] + q) == (if item.transmitted then [] else [item.frame]) + Unsent(q)
  {
    if q == [] {
      assert [item] + q == [item];
    } else {
      assert ([item] + q)[..|q|] == [item] + q[..|q| - 1];
      UnsentCons(item, q[..|q| - 1]);
    }
  }

  lemma UnsentSnoc(q: seq<Item>, item: Item)
    ensures Unsent(q + [item]) == Unsent(q) + (if item.transmitted then [] else [item.frame])
  {
    assert (q + [item])[..|q|] == q;
  }

  /** The head of the queue alone. */
  lemma UnsentHead(q: seq<Item>)
    requires q != []
    ensures Unsent(q) == (if q[0].transmitted then [] else [q[0].frame]) + Unsent(q[1..])
    ensures Unsent(q[0 := q[0].(transmitted := true)]) == Unsent(q[1..])
  {
    assert q == [q[0]] + q[1..];
    UnsentCons(q[0], q[1..]);
    var marked := q[0].(transmitted := true);
    assert q[0 := marked] == [marked] + q[1..];
    UnsentCons(marked, q[1..]);
  }

  /** No request with this type and id waits. */
  predicate NoneWaits(q: seq<Item>, typ: nibble, id: nat) {
    forall i :: 0 <= i < |q| && Matches(q[i], typ, id) ==> q[i].transmitted
  }

  lemma NoneWaitsSnoc(p: seq<Item>, last: Item, typ: nibble, id: nat)
    ensures NoneWaits(p + [last], typ, id) <==> NoneWaits(p, typ, id) && (Matches(last, typ, id) ==> last.transmitted)
  {
    var q := p + [last];
    assert q[|p|] == last && forall i :: 0 <= i < |p| ==> q[i] == p[i];
  }

  /** What removing requests does to those that wait. */
  lemma {:induction false} UnsentWithout(q: seq<Item>, typ: nibble, id: nat)
    ensures Sub(Unsent(Without(q, typ, id)), Unsent(q))
    ensures |Unsent(Without(q, typ, id))| == |Unsent(q)| <==> NoneWaits(q, typ, id)
  {
    if q != [] {
      var p, last := q[..|q| - 1], q[|q| - 1];
      assert q == p + [last];
      UnsentWithout(p, typ, id);
      OneMore(Without(p, typ, id), p, last);
      NoneWaitsSnoc(p, last, typ, id);
    }
  }

  lemma OneMore(rest: seq<Item>, p: seq<Item>, last: Item)
    requires Sub(Unsent(rest), Unsent(p))
    ensures |Unsent(rest)| <= |Unsent(p)|
    ensures Sub(Unsent(rest), Unsent(p + [last])) && Sub(Unsent(rest + [last]), Unsent(p + [last]))
    ensures |Unsent(p + [last])| == |Unsent(p)| + (if last.transmitted then 0 else 1)
    ensures |Unsent(rest + [last])| == |Unsent(rest)| + (if last.transmitted then 0 else 1)
  {
    SubLength(Unsent(rest), Unsent(p));
    SubSnoc(Unsent(rest), Unsent(p), last.frame);
    UnsentSnoc(rest, last);
    UnsentSnoc(p, last);
    assert last.transmitted ==> Unsent(rest + [last]) == Unsent(rest) && Unsent(p + [last]) == Unsent(p);
  }

  /** A response answers what has been sent: it removes no request that still waits. */
  predicate AnswersSent(s: Session, a: Action) {
    a.DoReceive? && IsResponse(a.frame) ==> NoneWaits(s.outgoing, RequestType(a.frame.typ), Id(a.frame))
  }

  /** The waiting requests that a step leaves in the queue or writes. */
  function Kept(s: Session, a: Action): seq<Frame> {
    if a.DoReceive? && IsResponse(a.frame) then Unsent(Without(s.outgoing, RequestType(a.frame.typ), Id(a.frame)))
    else Unsent(s.outgoing)
  }

  lemma SubmissionsOne(f: Frame)
    ensures Submissions([f]) == if IsSubmission(f) then [f] else []
  {
    assert [f][..0] == [];
  }

  /** Writing the head. */
  lemma TransmitInOrder(s: Session, s1: Session)
    requires s1.outgoing != [] && s1.sent == s.sent && WaitsForSubmissions(s1.outgoing)
    ensures WaitsForSubmissions(Transmit(s1).outgoing)
    ensures var now := Unsent(Transmit(s1).outgoing);
            if s1.outgoing[0].transmitted then now == Unsent(s1.outgoing)
            else Submissions(Written(s, Transmit(s1))) + now == Unsent(s1.outgoing)
  {
    UnsentHead(s1.outgoing);
    SubmissionsOne(s1.outgoing[0].frame);
    assert Written(s, Transmit(s1)) == [s1.outgoing[0].frame];
  }

  /** An expired timer touches what has been sent only. */
  lemma ExpireInOrder(s: Session)
    requires Disciplined(s) && WaitsForSubmissions(s.outgoing) && s.timer
    ensures Unsent(Expire(s).outgoing) == Unsent(s.outgoing) && WaitsForSubmissions(Expire(s).outgoing)
  {
    if s.attempts + 1 < RESEND_ATTEMPTS {
      TransmitInOrder(s, s.(attempts := s.attempts + 1));
    } else {
      UnsentHead(s.outgoing);
    }
  }

  /** First transmissions and waiting requests, before and after a tick: nothing overtakes. */
  lemma TickInOrder(s: Session, expired: bool)
    requires Disciplined(s) && WaitsForSubmissions(s.outgoing) && Enabled(s, DoTick(expired))
    ensures FirstSent(s, DoTick(expired)) + Unsent(Tick(s, expired).outgoing) == Unsent(s.outgoing)
    ensures WaitsForSubmissions(Tick(s, expired).outgoing)
  {
    if expired {
      ExpireInOrder(s);
    }
    var s1 := if expired then Expire(s) else s;
    if !s1.timer && s1.outgoing != [] {
      TransmitInOrder(s, s1);
    }
  }

  /** A submission is written at once. */
  lemma SubmitNow(s: Session, t: Session, f: Frame)
    requires IsSubmission(f) && s.outgoing == []
    requires t.sent == s.sent + [f] && (t.outgoing == [] || (|t.outgoing| == 1 && t.outgoing[0].transmitted))
    ensures Submissions(Written(s, t)) + Unsent(t.outgoing) == Unsent(s.outgoing) + [f]
    ensures WaitsForSubmissions(t.outgoing)
  {
    assert Written(s, t) == [f];
    SubmissionsOne(f);
    if t.outgoing != [] {
      assert t.outgoing == [] + [t.outgoing[0]];
      UnsentSnoc([], t.outgoing[0]);
    }
  }

  /** Or it waits at the end. */
  lemma SubmitLater(s: Session, t: Session, f: Frame, id: nat)
    requires IsSubmission(f) && t.sent == s.sent && t.outgoing == s.outgoing + [Item(f, id, false)]
    ensures Submissions(Written(s, t)) + Unsent(t.outgoing) == Unsent(s.outgoing) + [f]
    ensures WaitsForSubmissions(s.outgoing) ==> WaitsForSubmissions(t.outgoing)
  {
    UnsentSnoc(s.outgoing, Item(f, id, false));
    assert Written(s, t) == [];
  }

  lemma PublishInOrder(s: Session, f: Frame, qos: nat, id: nat)
    requires IsSubmission(f)
    ensures var t := Published(s, f, qos, id);
            && Submissions(Written(s, t)) + Unsent(t.outgoing) == Unsent(s.outgoing) + [f]
            && (WaitsForSubmissions(s.outgoing) ==> WaitsForSubmissions(t.outgoing))
  {
    if s.outgoing == [] {
      SubmitNow(s, Published(s, f, qos, id), f);
    } else {
      SubmitLater(s, Published(s, f, qos, id), f, id);
    }
  }

  lemma RequestInOrder(s: Session, f: Frame, id: nat)
    requires IsSubmission(f)
    ensures var t := Requested(s, f, id);
            && Submissions(Written(s, t)) + Unsent(t.outgoing) == Unsent(s.outgoing) + [f]
            && (WaitsForSubmissions(s.outgoing) ==> WaitsForSubmissions(t.outgoing))
  {
    if s.outgoing == [] {
      SubmitNow(s, Requested(s, f, id), f);
    } else {
      SubmitLater(s, Requested(s, f, id), f, id);
    }
  }

  /** Actions that neither tick nor receive. */
  lemma ApplicationInOrder(s: Session, a: Action)
    requires Enabled(s, a) && !a.DoTick? && !a.DoReceive?
    ensures FirstSent(s, a) + Unsent(Next(s, a).outgoing) == Unsent(s.outgoing) + Submitted(s, a)
    ensures WaitsForSubmissions(s.outgoing) ==> WaitsForSubmissions(Next(s, a).outgoing)
  {
    match a {
      case DoPublish(retain, dup, qos, id, topic, payload) =>
        PublishInOrder(s, PublishFrame(retain, dup, qos, id, topic, payload), qos, id);
      case DoSubscribe(id, topic, maxQos) => RequestInOrder(s, SubscribeFrame(id, topic, maxQos), id);
      case DoUnsubscribe(id, topic) => RequestInOrder(s, UnsubscribeFrame(id, topic), id);
      case DoWrite(f) =>
        SubmissionsOne(f);
        assert Written(s, Send(s, f)) == [f];
      case DoRead(room) =>
        assert Written(s, FrameRead(s, room)) == [];
    }
  }

  /** A response: the requests it names go, and a PUBREL that is marked already may come. */
  lemma ResponseInOrder(s: Session, f: Frame, seen: Observer)
    requires IsResponse(f) && WaitsForSubmissions(s.outgoing)
    ensures var t := HandleAck(s, f, seen);
            && Submissions(Written(s, t)) == [] && WaitsForSubmissions(t.outgoing)
            && Unsent(t.outgoing) == Unsent(Without(s.outgoing, RequestType(f.typ), Id(f)))
  {
    var t, rest, rel := HandleAck(s, f, seen), Without(s.outgoing, RequestType(f.typ), Id(f)), IdFrame(PUBREL, Id(f));
    WithoutWaits(s.outgoing, RequestType(f.typ), Id(f));
    WritesNoSubmission(s, t, rel);
    if f.typ == PUBREC {
      UnsentCons(Item(rel, Id(f), true), rest);
    }
  }

  lemma ReceiveInOrder(s: Session, f: Frame, seen: Observer)
    requires WellFormed(f) && WaitsForSubmissions(s.outgoing)
    ensures var a := DoReceive(f, seen);
            FirstSent(s, a) == [] && Unsent(HandleFrame(s, f, seen).outgoing) == Kept(s, a)
    ensures WaitsForSubmissions(HandleFrame(s, f, seen).outgoing)
  {
    if IsResponse(f) {
      ResponseInOrder(s, f, seen);
    } else {
      PlainReceive(s, f, seen);
    }
  }

  lemma WritesNoSubmission(s: Session, t: Session, f: Frame)
    requires t.sent == s.sent || (t.sent == s.sent + [f] && !IsSubmission(f))
    ensures Submissions(Written(s, t)) == []
  {
    SubmissionsOne(f);
    assert Written(s, t) == [] || Written(s, t) == [f];
  }

  /** Frames that are no responses leave the queue alone, and what is written back is no submission. */
  lemma PlainReceive(s: Session, f: Frame, seen: Observer)
    requires WellFormed(f) && !IsResponse(f)
    ensures HandleFrame(s, f, seen).outgoing == s.outgoing && Submissions(Written(s, HandleFrame(s, f, seen))) == []
  {
    var t := HandleFrame(s, f, seen);
    if f.typ == PUBREL {
      var pubcomp := IdFrame(PUBCOMP, Id(f));
      DeliverIdFrame(Send(s, pubcomp), s.inbound, Id(f), seen);
      WritesNoSubmission(s, t, pubcomp);
    } else if f.typ == PUBLISH {
      WritesNoSubmission(s, t, IdFrame(if Qos(f.flags) == 2 then PUBREC else PUBACK, Id(f)));
    } else {
      WritesNoSubmission(s, t, Frame(PINGRESP, 0, []));
    }
  }

  lemma {:induction false} WithoutWaits(q: seq<Item>, typ: nibble, id: nat)
    requires WaitsForSubmissions(q)
    ensures WaitsForSubmissions(Without(q, typ, id))
  {
    if q != [] {
      WithoutWaits(q[..|q| - 1], typ, id);
    }
  }

  /** One step: what is sent first and what waits afterwards is what was kept of the waiting, and then what is new. */
  lemma StepInOrder(s: Session, a: Action)
    requires Disciplined(s) && WaitsForSubmissions(s.outgoing) && Enabled(s, a)
    ensures FirstSent(s, a) + Unsent(Next(s, a).outgoing) == Kept(s, a) + Submitted(s, a)
    ensures WaitsForSubmissions(Next(s, a).outgoing)
  {
    match a {
      case DoTick(expired) => TickInOrder(s, expired);
      case DoReceive(f, seen) => ReceiveInOrder(s, f, seen);
      case _ => ApplicationInOrder(s, a);
    }
  }

  lemma KeptOfWaiting(s: Session, a: Action)
    ensures Sub(Kept(s, a), Unsent(s.outgoing)) && (|Kept(s, a)| == |Unsent(s.outgoing)| <==> AnswersSent(s, a))
  {
    if a.DoReceive? && IsResponse(a.frame) {
      UnsentWithout(s.outgoing, RequestType(a.frame.typ), Id(a.frame));
    } else {
      SubSelf(Unsent(s.outgoing));
    }
  }

  // ---------------------------------------------------------------- runs

  /** All submissions of the first `k` actions. */
  function Asked(states: seq<Session>, actions: seq<Action>, k: nat): seq<Frame>
    requires k <= |actions| && |states| == |actions| + 1
    requires forall i :: 0 <= i < k ==> Enabled(states[i], actions[i])
  {
    if k == 0 then [] else Asked(states, actions, k - 1) + Submitted(states[k - 1], actions[k - 1])
  }

  /** All first transmissions of the first `k` actions. */
  function First(states: seq<Session>, actions: seq<Action>, k: nat): seq<Frame>
    requires k <= |actions| && |states| == |actions| + 1
    requires forall i :: 0 <= i < k ==> Enabled(states[i], actions[i])
  {
    if k == 0 then [] else First(states, actions, k - 1) + FirstSent(states[k - 1], actions[k - 1])
  }

  /** The histories after one more step. */
  lemma Longer(first: seq<Frame>, waits: seq<Frame>, asked: seq<Frame>, kept: seq<Frame>, submitted: seq<Frame>)
    requires Sub(first + waits, asked) && Sub(kept, waits) && |submitted| <= 1
    ensures Sub((first + kept) + submitted, asked + submitted)
    ensures (first + kept) + submitted == asked + submitted <==> first + waits == asked && |kept| == |waits|
  {
    SubBehind(first, kept, waits);
    SubTrans(first + kept, first + waits, asked);
    if submitted == [] {
      assert asked + submitted == asked && (first + kept) + submitted == first + kept;
    } else {
      assert submitted == [submitted[0]];
      SubSnoc(first + kept, asked, submitted[0]);
    }
    SameLength(first, waits, asked, kept);
    SameEnd(first + kept, asked, submitted);
  }

  lemma SameLength(first: seq<Frame>, waits: seq<Frame>, asked: seq<Frame>, kept: seq<Frame>)
    requires Sub(first + waits, asked) && Sub(kept, waits)
    ensures first + kept == asked <==> first + waits == asked && |kept| == |waits|
  {
    SubLength(kept, waits);
    SubLength(first + waits, asked);
  }

  lemma SameEnd<T>(a: seq<T>, b: seq<T>, end: seq<T>)
    ensures a + end == b + end <==> a == b
  {
    if a + end == b + end {
      assert |a + end| == |b + end|;
      assert a == (a + end)[..|a|] && b == (b + end)[..|b|];
    }
  }

  lemma Regroup(first: seq<Frame>, more: seq<Frame>, waits: seq<Frame>, kept: seq<Frame>, submitted: seq<Frame>)
    requires more + waits == kept + submitted
    ensures (first + more) + waits == (first + kept) + submitted
  {
    assert (first + more) + waits == first + (more + waits);
    assert (first + kept) + submitted == first + (kept + submitted);
  }

  /** In every run, what has been transmitted first, followed by what waits, is asked for in this order: no request
      overtakes another one.  Nothing is missing iff every response answered what had been sent. */
  lemma {:induction false} FirstInFirstOut(states: seq<Session>, actions: seq<Action>, k: nat)
    requires IsRun(states, actions) && k < |states|
    ensures WaitsForSubmissions(states[k].outgoing)
    ensures Sub(First(states, actions, k) + Unsent(states[k].outgoing), Asked(states, actions, k))
    ensures First(states, actions, k) + Unsent(states[k].outgoing) == Asked(states, actions, k)
            <==> forall j :: 0 <= j < k ==> AnswersSent(states[j], actions[j])
  {
    if k > 0 {
      var s, a := states[k - 1], actions[k - 1];
      FirstInFirstOut(states, actions, k - 1);
      OutgoingDiscipline(states, actions, k - 1);
      StepInOrder(s, a);
      KeptOfWaiting(s, a);
      var first := First(states, actions, k - 1);
      Longer(first, Unsent(s.outgoing), Asked(states, actions, k - 1), Kept(s, a), Submitted(s, a));
      Regroup(first, FirstSent(s, a), Unsent(states[k].outgoing), Kept(s, a), Submitted(s, a));
    }
  }

  /** Nothing checks that a response answers what has been sent: a PUBACK for the second of two messages, which waits
      behind the first one, takes it out, and it is never written. */
  lemma AnsweredUnsent() returns (states: seq<Session>, actions: seq<Action>)
    ensures IsRun(states, actions) && |actions| == 3
    ensures First(states, actions, 3) + Unsent(states[3].outgoing) != Asked(states, actions, 3)
  {
    var f1, f2 := PublishFrame(false, false, 1, 1, [], []), PublishFrame(false, false, 1, 2, [], []);
    var a1, a2 := DoPublish(false, false, 1, 1, [], []), DoPublish(false, false, 1, 2, [], []);
    FirstSends(f1, f2);
    states, actions := ThreeSteps(INITIAL, a1, Late(f1, f2, 1), a2, Late(f1, f2, 2), DoReceive(IdFrame(PUBACK, 2), _ => true));
    WaitsThere(states[2], actions[2]);
    FirstInFirstOut(states, actions, 3);
  }

  lemma ThreeSteps(s0: Session, a0: Action, s1: Session, a1: Action, s2: Session, a2: Action)
    returns (states: seq<Session>, actions: seq<Action>)
    requires s0 == INITIAL
    requires Enabled(s0, a0) && s1 == Next(s0, a0) && Enabled(s1, a1) && s2 == Next(s1, a1) && Enabled(s2, a2)
    ensures IsRun(states, actions) && |actions| == 3 && states[2] == s2 && actions[2] == a2
  {
    states, actions := [s0, s1, s2, Next(s2, a2)], [a0, a1, a2];
  }

  lemma WaitsThere(s: Session, a: Action)
    requires |s.outgoing| == 2 && s.outgoing[1].frame.typ == PUBLISH && s.outgoing[1].id == 2 && !s.outgoing[1].transmitted
    requires a.DoReceive? && a.frame == IdFrame(PUBACK, 2)
    ensures !AnswersSent(s, a)
  {
    assert Id(a.frame) == 2;
    assert Matches(s.outgoing[1], PUBLISH, 2);
  }

  /** What a step writes of submissions and not for the first time, it or an earlier one has written before. */
  lemma WrittenBefore(s: Session, a: Action, f: Frame)
    requires Disciplined(s) && Enabled(s, a)
    requires f in Written(s, Next(s, a)) && IsSubmission(f) && f !in FirstSent(s, a)
    ensures f in s.sent
  {
    if a.DoTick? && Resends(s, a.expired) {
      var s1 := if a.expired then Expire(s) else s;
      if a.expired && s.attempts + 1 < RESEND_ATTEMPTS {
        assert Next(s, a).sent == s.sent + [s.outgoing[0].frame];
      }
    } else {
      SubmissionsKeep(Written(s, Next(s, a)), f);
    }
  }

  lemma {:induction false} SubmissionsKeep(frames: seq<Frame>, f: Frame)
    requires f in frames && IsSubmission(f)
    ensures f in Submissions(frames)
  {
    if f != frames[|frames| - 1] {
      SubmissionsKeep(frames[..|frames| - 1], f);
    }
  }
}
