/** Writing through a stream whose lower layer takes what it likes: what it does not take is queued in slices. */
module Streams {
  import opened Bytes
  import opened Buffers

  // ---------------------------------------------------------------- the layer below

  /** What the next write below will do: take at most so many bytes, or fail with EAGAIN, or fail. */
  datatype Answer = Took(count: nat) | Again | Failed

  const MAX_RW_COUNT := 0x7fff_f000   // no single write takes more

  function Min(a: nat, b: nat): nat {
    if a < b then a else b
  }

  /** The value returned by a write of `len` bytes. */
  function Ret(a: Answer, len: nat): int {
    if a.Took? then Min(Min(a.count, len), MAX_RW_COUNT) else -1
  }

  function First(answers: seq<Answer>): Answer {
    if answers == [] then Again else answers[0]
  }

  function Rest(answers: seq<Answer>): seq<Answer> {
    if answers == [] then [] else answers[1..]
  }

  // ---------------------------------------------------------------- the operations on values

  /** The outcome of an operation: its result, the queued slices, the answers still to come, and the bytes taken below. */
  datatype Outcome = Outcome(ret: int, queue: seq<seq<byte>>, answers: seq<Answer>, took: seq<byte>)

  /** stream_handle_outgoing_data, once `written` bytes are through. */
  function Handle(queue: seq<seq<byte>>, answers: seq<Answer>, written: nat): Outcome
    decreases |queue|
  {
    if queue == [] then Outcome(written, queue, answers, [])
    else
      var ret := Ret(First(answers), |queue[0]|);
      if ret <= 0 then Outcome(ret, queue, Rest(answers), [])
      else if ret < |queue[0]| then Outcome(written + ret, [queue[0][ret..]] + queue[1..], Rest(answers), queue[0][..ret])
      else var next := Handle(queue[1..], Rest(answers), written + ret); next.(took := queue[0] + next.took)
  }

  /** stream_do_write. */
  function Write(queue: seq<seq<byte>>, answers: seq<Answer>, data: seq<byte>): Outcome {
    if queue != [] then Outcome(|data|, queue + [data], answers, [])
    else
      var ret := Ret(First(answers), |data|);
      if ret < 0 then
        if First(answers).Again? then Outcome(|data|, [data], Rest(answers), []) else Outcome(ret, [], Rest(answers), [])
      else Outcome(|data|, if ret < |data| then [data[ret..]] else [], Rest(answers), data[..ret])
  }

  /** After `done` was taken, the rest of the operation is `o`, the whole of it `all`. */
  ghost predicate Through(done: seq<byte>, o: Outcome, all: Outcome) {
    o.(took := done + o.took) == all
  }

  /** One round of the loop. */
  lemma HandleRound(queue: seq<seq<byte>>, answers: seq<Answer>, written: nat, done: seq<byte>, all: Outcome)
    requires queue != [] && Through(done, Handle(queue, answers, written), all)
    ensures var ret := Ret(First(answers), |queue[0]|);
            if ret <= 0 then all == Outcome(ret, queue, Rest(answers), done)
            else if ret < |queue[0]| then
              all == Outcome(written + ret, [queue[0][ret..]] + queue[1..], Rest(answers), done + queue[0][..ret])
            else Through(done + queue[0], Handle(queue[1..], Rest(answers), written + ret), all)
  {
    var ret := Ret(First(answers), |queue[0]|);
    if ret <= 0 {
      assert done + [] == done;
    } else if ret == |queue[0]| {
      var next := Handle(queue[1..], Rest(answers), written + ret);
      assert (done + queue[0]) + next.took == done + (queue[0] + next.took);
    }
  }

  // ---------------------------------------------------------------- conservation

  lemma FlattenHead(head: seq<byte>, rest: seq<seq<byte>>)
    ensures Flatten([head] + rest) == head + Flatten(rest)
  {
    assert ([head] + rest)[1..] == rest;
  }

  lemma CutHead(head: seq<byte>, rest: seq<byte>, n: nat)
    requires n <= |head|
    ensures head[..n] + (head[n..] + rest) == head + rest
  {
  }

  /** Whatever the layer below answers, the bytes it took and the bytes still queued are those that were queued. */
  lemma {:induction false} HandleConserves(queue: seq<seq<byte>>, answers: seq<Answer>, written: nat)
    ensures var o := Handle(queue, answers, written); o.took + Flatten(o.queue) == Flatten(queue)
    decreases |queue|
  {
    if queue != [] {
      var ret := Ret(First(answers), |queue[0]|);
      if 0 < ret < |queue[0]| {
        FlattenHead(queue[0][ret..], queue[1..]);
        CutHead(queue[0], Flatten(queue[1..]), ret);
      } else if ret > 0 {
        HandleConserves(queue[1..], Rest(answers), written + ret);
        var next := Handle(queue[1..], Rest(answers), written + ret);
        assert (queue[0] + next.took) + Flatten(next.queue) == queue[0] + (next.took + Flatten(next.queue));
      }
    }
  }

  /** A write adds its bytes behind all others if it succeeds, and nothing if it fails. */
  lemma WriteConserves(queue: seq<seq<byte>>, answers: seq<Answer>, data: seq<byte>)
    ensures var o := Write(queue, answers, data);
            o.took + Flatten(o.queue) == Flatten(queue) + (if o.ret < 0 then [] else data)
    ensures Write(queue, answers, data).ret < 0 <==> queue == [] && First(answers).Failed?
  {
    var o := Write(queue, answers, data);
    if queue != [] {
      FlattenSnoc(queue, data);
    } else {
      if o.queue != [] {
        FlattenHead(o.queue[0], []);
        assert o.queue == [o.queue[0]] + [];
      }
    }
  }

  /** A write goes below at once iff nothing is queued; what succeeds is reported as written in full. */
  lemma WritesAtOnce(queue: seq<seq<byte>>, answers: seq<Answer>, data: seq<byte>)
    ensures var o := Write(queue, answers, data);
            && (queue != [] ==> o.took == [] && o.answers == answers)
            && (queue == [] ==> |o.took| == (if First(answers).Took? then Ret(First(answers), |data|) else 0))
            && (queue == [] ==> o.answers == Rest(answers))
            && (o.ret >= 0 ==> o.ret == |data|)
  {
  }

  // ---------------------------------------------------------------- runs

  datatype Op = DoWrite(data: seq<byte>) | DoHandle

  /** `sent` is the concatenation of all buffers whose write succeeded. */
  datatype State = State(queue: seq<seq<byte>>, answers: seq<Answer>, taken: seq<byte>, sent: seq<byte>)

  function Do(op: Op, s: State): State {
    match op
    case DoHandle =>
      var o := Handle(s.queue, s.answers, 0);
      State(o.queue, o.answers, s.taken + o.took, s.sent)
    case DoWrite(data) =>
      var o := Write(s.queue, s.answers, data);
      State(o.queue, o.answers, s.taken + o.took, if o.ret < 0 then s.sent else s.sent + data)
  }

  function Run(ops: seq<Op>, s: State): State {
    if ops == [] then s else Run(ops[1..], Do(ops[0], s))
  }

  predicate Conserved(s: State) {
    s.taken + Flatten(s.queue) == s.sent
  }

  lemma DoConserves(op: Op, s: State)
    requires Conserved(s)
    ensures Conserved(Do(op, s))
  {
    var o := if op.DoHandle? then Handle(s.queue, s.answers, 0) else Write(s.queue, s.answers, op.data);
    if op.DoHandle? {
      HandleConserves(s.queue, s.answers, 0);
    } else {
      WriteConserves(s.queue, s.answers, op.data);
    }
    assert (s.taken + o.took) + Flatten(o.queue) == s.taken + (o.took + Flatten(o.queue));
  }

  /** In every run: taken below and still queued make up everything written, in order. */
  lemma {:induction false} RunConserves(ops: seq<Op>, s: State)
    requires Conserved(s)
    ensures Conserved(Run(ops, s))
  {
    if ops != [] {
      DoConserves(ops[0], s);
      RunConserves(ops[1..], Do(ops[0], s));
    }
  }

  predicate NoEmptySlice(queue: seq<seq<byte>>) {
    forall i :: 0 <= i < |queue| ==> queue[i] != []
  }

  lemma {:induction false} HandleKeepsFull(queue: seq<seq<byte>>, answers: seq<Answer>, written: nat)
    requires NoEmptySlice(queue)
    ensures NoEmptySlice(Handle(queue, answers, written).queue)
    decreases |queue|
  {
    if queue != [] && Ret(First(answers), |queue[0]|) == |queue[0]| {
      HandleKeepsFull(queue[1..], Rest(answers), written + |queue[0]|);
    }
  }

  // ---------------------------------------------------------------- where the loop stops

  function Nth(answers: seq<Answer>, i: nat): Answer {
    if i < |answers| then answers[i] else Again
  }

  function Behind(answers: seq<Answer>, i: nat): seq<Answer> {
    if i < |answers| then answers[i..] else []
  }

  /** What slice `i` gets when every slice before it has been one write. */
  function Got(queue: seq<seq<byte>>, answers: seq<Answer>, i: nat): (n: int)
    requires i < |queue|
    ensures n <= |queue[i]|
  {
    Ret(Nth(answers, i), |queue[i]|)
  }

  predicate Whole(queue: seq<seq<byte>>, answers: seq<Answer>, i: nat)
    requires i < |queue|
  {
    0 < Got(queue, answers, i) == |queue[i]|
  }

  /** One write for each slice, up to the first one that is not taken as a whole: that one loses what was taken of it, and
      the result is what its write returned if that is not positive, and else the number of all bytes taken. */
  function Stopped(queue: seq<seq<byte>>, answers: seq<Answer>, written: nat, k: nat): Outcome
    requires k <= |queue|
  {
    var done := Flatten(queue[..k]);
    if k == |queue| then Outcome(written + |done|, [], Behind(answers, k), done)
    else
      var n := Got(queue, answers, k);
      if n <= 0 then Outcome(n, queue[k..], Behind(answers, k + 1), done)
      else Outcome(written + |done| + n, [queue[k][n..]] + queue[k + 1..], Behind(answers, k + 1), done + queue[k][..n])
  }

  lemma {:induction false} HandleStops(queue: seq<seq<byte>>, answers: seq<Answer>, written: nat) returns (k: nat)
    ensures k <= |queue| && (forall i :: 0 <= i < k ==> Whole(queue, answers, i))
    ensures k < |queue| ==> !Whole(queue, answers, k)
    ensures Handle(queue, answers, written) == Stopped(queue, answers, written, k)
    decreases |queue|
  {
    if queue == [] || !Whole(queue, answers, 0) {
      k := 0;
      assert queue[..0] == [] && queue[0..] == queue;
    } else {
      var next := HandleStops(queue[1..], Rest(answers), written + |queue[0]|);
      k := next + 1;
      forall i | 0 < i < |queue| ensures Got(queue, answers, i) == Got(queue[1..], Rest(answers), i - 1) {
        assert queue[i] == queue[1..][i - 1] && Nth(answers, i) == Nth(Rest(answers), i - 1);
      }
      forall i | 0 <= i < k ensures Whole(queue, answers, i) {
        assert i > 0 ==> Whole(queue[1..], Rest(answers), i - 1);
      }
      StoppedNext(queue, answers, written, next);
    }
  }

  /** The head slice before the others. */
  lemma StoppedNext(queue: seq<seq<byte>>, answers: seq<Answer>, written: nat, k: nat)
    requires k < |queue|
    ensures var o := Stopped(queue[1..], Rest(answers), written + |queue[0]|, k);
            Stopped(queue, answers, written, k + 1) == o.(took := queue[0] + o.took)
  {
    var rest := queue[1..];
    assert queue[..k + 1][0] == queue[0] && queue[..k + 1][1..] == rest[..k];
    assert rest[k..] == queue[k + 1..];
    assert Behind(answers, k + 1) == Behind(Rest(answers), k) && Behind(answers, k + 2) == Behind(Rest(answers), k + 1);
    if k < |rest| {
      assert rest[k] == queue[k + 1] && rest[k + 1..] == queue[k + 2..];
      var n := Got(queue, answers, k + 1);
      if 0 < n {
        assert (queue[0] + Flatten(rest[..k])) + rest[k][..n] == queue[0] + (Flatten(rest[..k]) + rest[k][..n]);
      }
    }
  }

  /** As long as nobody writes an empty buffer, no queued slice is empty. */
  lemma {:induction false} RunKeepsFull(ops: seq<Op>, s: State)
    requires NoEmptySlice(s.queue) && forall i :: 0 <= i < |ops| && ops[i].DoWrite? ==> ops[i].data != []
    ensures NoEmptySlice(Run(ops, s).queue)
  {
    if ops != [] {
      HandleKeepsFull(s.queue, s.answers, 0);
      RunKeepsFull(ops[1..], Do(ops[0], s));
    }
  }

  /** An empty slice at the head is never removed: it blocks the queue for good. */
  lemma EmptySliceBlocks(queue: seq<seq<byte>>, answers: seq<Answer>)
    requires queue != [] && queue[0] == []
    ensures var o := Handle(queue, answers, 0); o.ret <= 0 && o.queue == queue && o.took == []
  {
  }

  /** A head that is not empty gets shorter whenever the layer below takes anything at all. */
  lemma HandleProgresses(queue: seq<seq<byte>>, answers: seq<Answer>)
    requires queue != [] && queue[0] != [] && First(answers).Took? && First(answers).count > 0
    ensures |Flatten(Handle(queue, answers, 0).queue)| < |Flatten(queue)|
  {
    HandleConserves(queue, answers, 0);
    var o := Handle(queue, answers, 0);
    assert |o.took| > 0;
    assert |o.took + Flatten(o.queue)| == |o.took| + |Flatten(o.queue)|;
  }

  /** The layer below takes each slice as a whole. */
  predicate Willing(queue: seq<seq<byte>>, answers: seq<Answer>) {
    |queue| <= |answers| &&
    forall i :: 0 <= i < |queue| ==> answers[i].Took? && |queue[i]| <= answers[i].count && |queue[i]| <= MAX_RW_COUNT
  }

  /** With a willing layer below, the queue drains iff no slice is empty. */
  lemma {:induction false} DrainsIffNoneEmpty(queue: seq<seq<byte>>, answers: seq<Answer>, written: nat)
    requires Willing(queue, answers)
    ensures Handle(queue, answers, written).queue == [] <==> NoEmptySlice(queue)
    decreases |queue|
  {
    if queue != [] && queue[0] != [] {
      DrainsIffNoneEmpty(queue[1..], answers[1..], written + |queue[0]|);
      assert NoEmptySlice(queue[1..]) <==> NoEmptySlice(queue) by {
        assert queue == [queue[0]] + queue[1..];
      }
    }
  }

  lemma Grow(a: seq<byte>, b: seq<byte>, c: seq<byte>)
    ensures a + (b + c) == a + b + c
  {
  }

  // ---------------------------------------------------------------- the stream

  /** The layer below: what its next writes will answer, and what it has taken. */
  class Sink {
    var answers: seq<Answer>
    ghost var taken: seq<byte>

    constructor (answers: seq<Answer>)
      ensures this.answers == answers && taken == []
    {
      this.answers := answers;
      taken := [];
    }

    /** -1 means failure, with EAGAIN when `again`. */
    method Put(data: seq<byte>) returns (ret: int, again: bool)
      modifies this
      ensures ret == Ret(First(old(answers)), |data|) && again == First(old(answers)).Again?
      ensures -1 <= ret <= |data|
      ensures answers == Rest(old(answers)) && taken == old(taken) + (if ret < 0 then [] else data[..ret])
    {
      var a := First(answers);
      ret, again := Ret(a, |data|), a.Again?;
      answers := Rest(answers);
      taken := taken + if ret < 0 then [] else data[..ret];
    }
  }

  /** The slices hold these bytes. */
  ghost predicate Holding(slices: seq<Buffer>, queue: seq<seq<byte>>)
    reads slices, set b | b in slices :: b.alloc
  {
    |slices| == |queue| && forall i :: 0 <= i < |slices| ==> slices[i].Valid() && slices[i].Contents() == queue[i]
  }

  lemma HeadAndRest(slices: seq<Buffer>, queue: seq<seq<byte>>)
    requires slices != [] && queue != [] && Holding(slices[1..], queue[1..])
    requires slices[0].Valid() && slices[0].Contents() == queue[0]
    ensures Holding(slices, queue)
  {
    forall i | 0 <= i < |slices| ensures slices[i].Valid() && slices[i].Contents() == queue[i] {
      if i > 0 {
        assert slices[i] == slices[1..][i - 1] && queue[i] == queue[1..][i - 1];
      }
    }
  }

  class Stream {
    const sink: Sink
    var outgoing: seq<Buffer>
    ghost var queue: seq<seq<byte>>   // the contents of the slices

    ghost predicate Valid()
      reads this, outgoing, set b | b in outgoing :: b.alloc
    {
      && |queue| == |outgoing|
      && (forall i :: 0 <= i < |outgoing| ==> outgoing[i].Valid() && outgoing[i].Contents() == queue[i])
      && (forall i, j :: 0 <= i < j < |outgoing| ==> outgoing[i] != outgoing[j])
    }

    constructor (sink: Sink)
      ensures Valid() && queue == [] && this.sink == sink
    {
      this.sink := sink;
      outgoing, queue := [], [];
    }

    method QueueOutgoing(data: seq<byte>)
      requires Valid()
      modifies `outgoing, `queue
      ensures Valid() && queue == old(queue) + [data]
    {
      var slice := new Buffer(0);
      slice.Append(data);
      assert slice.Contents() == data;
      outgoing := outgoing + [slice];
      queue := queue + [data];
    }

    method DoWrite(data: seq<byte>) returns (ret: int)
      requires Valid()
      modifies `outgoing, `queue, sink
      ensures Valid()
      ensures var o := Write(old(queue), old(sink.answers), data);
              ret == o.ret && queue == o.queue && sink.answers == o.answers && sink.taken == old(sink.taken) + o.took
    {
      if outgoing != [] {
        QueueOutgoing(data);
        return |data|;
      }
      var n, again := sink.Put(data);
      if n < 0 {
        if again {
          QueueOutgoing(data);
          return |data|;
        }
        return n;
      }
      if n < |data| {
        QueueOutgoing(data[n..]);
      }
      return |data|;
    }

    /** The slice at the head loses its first bytes. */
    method CutHead(n: nat) returns (left: nat)
      requires Valid() && outgoing != [] && n <= |queue[0]|
      modifies `queue, outgoing[0]
      ensures Valid() && queue == [old(queue)[0][n..]] + old(queue)[1..] && left == |queue[0]|
    {
      ghost var q := [queue[0][n..]] + queue[1..];
      ghost var rest := outgoing[1..];
      assert Holding(rest, q[1..]);
      left := outgoing[0].Cut(n);
      queue := q;
      HeadAndRest(outgoing, q);
    }

    method DropHead()
      requires Valid() && outgoing != []
      modifies `outgoing, `queue
      ensures Valid() && queue == old(queue)[1..] && outgoing == old(outgoing)[1..]
    {
      outgoing, queue := outgoing[1..], queue[1..];
    }

    /** One round of the loop: the head slice is offered, and what was taken of it is cut off. */
    method OfferHead() returns (n: int, left: nat)
      requires Valid() && outgoing != []
      modifies `outgoing, `queue, outgoing[0], sink
      ensures Valid() && n == Ret(First(old(sink.answers)), |old(queue)[0]|) && sink.answers == Rest(old(sink.answers))
      ensures n <= 0 ==> sink.taken == old(sink.taken) && queue == old(queue) && left > 0
      ensures n > 0 ==> n <= |old(queue)[0]| && sink.taken == old(sink.taken) + old(queue)[0][..n]
      ensures n > 0 && left > 0 ==> n < |old(queue)[0]| && queue == [old(queue)[0][n..]] + old(queue)[1..]
      ensures n > 0 && left == 0 ==> n == |old(queue)[0]| && queue == old(queue)[1..] && outgoing == old(outgoing)[1..]
    {
      var slice := outgoing[0];
      var again;
      n, again := sink.Put(slice.alloc[slice.offset..slice.offset + slice.length]);
      left := 1;
      if n > 0 {
        ghost var rest := queue[1..];
        left := CutHead(n);
        if left == 0 {
          DropHead();
          assert queue == rest;
        }
      } else {
        assert sink.taken == old(sink.taken) by { assert old(sink.taken) + [] == old(sink.taken); }
      }
    }

    method HandleOutgoing() returns (ret: int)
      requires Valid()
      modifies `outgoing, `queue, outgoing, sink
      ensures Valid()
      ensures var o := Handle(old(queue), old(sink.answers), 0);
              ret == o.ret && queue == o.queue && sink.answers == o.answers && sink.taken == old(sink.taken) + o.took
    {
      var written := 0;
      ghost var all := Handle(queue, sink.answers, 0);
      ghost var done: seq<byte> := [];
      assert Through(done, all, all);
      while outgoing != []
        invariant Valid() && 0 <= written
        invariant forall b :: b in outgoing ==> b in old(outgoing)
        invariant sink.taken == old(sink.taken) + done
        invariant Through(done, Handle(queue, sink.answers, written), all)
        decreases |outgoing|
      {
        assert outgoing[0] in outgoing;
        HandleRound(queue, sink.answers, written, done, all);
        ghost var head := queue[0];
        var n, left := OfferHead();
        if n <= 0 {
          return n;
        }
        written := written + n;
        Grow(old(sink.taken), done, head[..n]);
        done := done + head[..n];
        if left > 0 {
          return written;
        }
        assert head[..n] == head;
      }
      assert done + [] == done;
      return written;
    }
  }
}
