/** From bytes read in arbitrary chunks to frames handed to the session. */
module MqttDeframer {
  import opened Bytes
  import opened Buffers
  import opened MqttCodec
  import opened MqttSession
  import opened Sources

  // ---------------------------------------------------------------- deframing as a function of all bytes

  /** The frames in a byte string, what is left behind them, and whether no bad length field was met. */
  datatype Deframed = Deframed(frames: seq<Frame>, rest: seq<byte>, ok: bool)

  function Deframe(d: seq<byte>): Deframed
    decreases |d|
  {
    match ParseFrame(d)
    case More(_) => Deframed([], d, true)
    case Bad => Deframed([], [], false)
    case Got(frame, _, length) =>
      ParseStable(d, []);
      Behind(frame, Deframe(d[length..]))
  }

  /** One frame before the others. */
  function Behind(first: Frame, r: Deframed): Deframed {
    Deframed([first] + r.frames, r.rest, r.ok)
  }

  /** The bytes of a sequence of frames. */
  function FormatAll(frames: seq<Frame>): seq<byte> {
    if frames == [] then [] else FormatFrame(frames[0]) + FormatAll(frames[1..])
  }

  predicate AllWellFormed(frames: seq<Frame>) {
    forall f :: f in frames ==> WellFormed(f)
  }

  /** A byte string without bad length fields and malformed bodies. */
  predicate Clean(d: seq<byte>) {
    Deframe(d).ok && AllWellFormed(Deframe(d).frames)
  }

  lemma NextFrame(c: seq<byte>, done: seq<Frame>, all: Deframed)
    requires ParseFrame(c).Got?
    requires all.frames == done + Deframe(c).frames && all.rest == Deframe(c).rest
    ensures var p := ParseFrame(c);
            && 0 < p.length <= |c|
            && all.frames == (done + [p.frame]) + Deframe(c[p.length..]).frames
            && all.rest == Deframe(c[p.length..]).rest
            && p.frame in all.frames
  {
    ParseStable(c, []);
    SnocConcat(done, ParseFrame(c).frame, Deframe(c[ParseFrame(c).length..]).frames);
  }

  lemma FirstIsFine(c: seq<byte>)
    requires ParseFrame(c).Got? && AllWellFormed(Deframe(c).frames)
    ensures WellFormed(ParseFrame(c).frame)
  {
    assert Deframe(c).frames[0] == ParseFrame(c).frame;
  }

  /** A frame at the start comes out first, whatever follows. */
  lemma DeframeGot(d: seq<byte>, e: seq<byte>)
    requires ParseFrame(d).Got?
    ensures var p := ParseFrame(d);
            0 < p.length <= |d| && Deframe(d + e) == Behind(p.frame, Deframe(d[p.length..] + e))
  {
    ParseStable(d, e);
    var p := ParseFrame(d);
    assert (d + e)[p.length..] == d[p.length..] + e;
  }

  /** What more bytes make of the frames found so far and the rest. */
  function Extended(a: Deframed, e: seq<byte>): Deframed {
    var b := Deframe(a.rest + e);
    Deframed(a.frames + b.frames, b.rest, b.ok)
  }

  lemma ExtendedBehind(f: Frame, a: Deframed, e: seq<byte>)
    ensures Extended(Behind(f, a), e) == Behind(f, Extended(a, e))
  {
    Regroup([f], a.frames, Deframe(a.rest + e).frames);
  }

  /** More bytes extend the frames found so far and the rest. */
  lemma {:induction false} DeframeAppend(d: seq<byte>, e: seq<byte>)
    ensures if Deframe(d).ok then Deframe(d + e) == Extended(Deframe(d), e) else !Deframe(d + e).ok
    decreases |d|
  {
    var p := ParseFrame(d);
    if p.Got? {
      DeframeGot(d, e);
      DeframeGot(d, []);
      assert d + [] == d && d[p.length..] + [] == d[p.length..];
      DeframeAppend(d[p.length..], e);
      ExtendedBehind(p.frame, Deframe(d[p.length..]), e);
    } else if p.Bad? {
      ParseStable(d, e);
    } else {
      assert [] + Deframe(d + e).frames == Deframe(d + e).frames;
    }
  }

  lemma Regroup(a: seq<Frame>, b: seq<Frame>, c: seq<Frame>)
    ensures a + (b + c) == (a + b) + c
  {
  }

  lemma CleanChunk(d: seq<byte>, frames: seq<Frame>, rest: seq<byte>, e: seq<byte>)
    requires Deframe(d) == Deframed(frames, rest, true) && Clean(d + e)
    ensures AllWellFormed(Deframe(rest + e).frames)
    ensures Deframe(d + e) == Deframed(frames + Deframe(rest + e).frames, Deframe(rest + e).rest, true)
  {
    DeframeAppend(d, e);
    assert forall f :: f in Deframe(rest + e).frames ==> f in frames + Deframe(rest + e).frames;
  }

  lemma CleanPrefix(d: seq<byte>, e: seq<byte>)
    requires Clean(d + e)
    ensures Clean(d)
  {
    DeframeAppend(d, e);
    var a, b := Deframe(d), Deframe(Deframe(d).rest + e);
    assert forall f :: f in a.frames ==> f in a.frames + b.frames;
  }

  lemma ReadClean(d: seq<byte>, chunk: seq<byte>, rest: seq<byte>)
    requires Clean(d + (chunk + rest))
    ensures Clean(d + chunk) && d + chunk + rest == d + (chunk + rest)
  {
    assert d + chunk + rest == d + (chunk + rest);
    CleanPrefix(d + chunk, rest);
  }

  /** A whole frame comes out first. */
  lemma DeframeOne(f: Frame, tail: seq<byte>)
    requires WellFormed(f)
    ensures Deframe(FormatFrame(f) + tail) == Behind(f, Deframe(tail))
  {
    FrameRoundTrip(f, tail);
    assert (FormatFrame(f) + tail)[|FormatFrame(f)|..] == tail;
  }

  lemma {:induction false} DeframeFormatAll(frames: seq<Frame>, rest: seq<byte>)
    requires AllWellFormed(frames)
    ensures Deframe(FormatAll(frames) + rest)
         == Deframed(frames + Deframe(rest).frames, Deframe(rest).rest, Deframe(rest).ok)
  {
    if frames == [] {
      assert FormatAll(frames) + rest == rest;
    } else {
      var f, tail := frames[0], FormatAll(frames[1..]) + rest;
      assert f in frames;
      assert FormatAll(frames) + rest == FormatFrame(f) + tail;
      DeframeOne(f, tail);
      DeframeFormatAll(frames[1..], rest);
      ConsConcat(frames, Deframe(rest).frames);
    }
  }

  /** Number of frames wholly contained in the first `k` bytes. */
  function WholeFrames(frames: seq<Frame>, k: nat): (n: nat)
    ensures n <= |frames|
  {
    if frames == [] || k < |FormatFrame(frames[0])| then 0
    else 1 + WholeFrames(frames[1..], k - |FormatFrame(frames[0])|)
  }

  /** The count means what it says. */
  lemma {:induction false} WholeFramesFit(frames: seq<Frame>, k: nat, n: nat)
    requires n <= |frames|
    ensures |FormatAll(frames[..n])| <= k <==> n <= WholeFrames(frames, k)
  {
    if n > 0 {
      assert frames[..n][1..] == frames[1..][..n - 1];
      if k >= |FormatFrame(frames[0])| {
        WholeFramesFit(frames[1..], k - |FormatFrame(frames[0])|, n - 1);
      }
    }
  }

  /** Of the bytes of well-formed frames, cut anywhere, exactly the whole frames come out, and the strict prefix of
      the next one is left. */
  lemma {:induction false} CutAnywhere(frames: seq<Frame>, k: nat)
    requires AllWellFormed(frames) && k <= |FormatAll(frames)|
    ensures var n := WholeFrames(frames, k);
            && |FormatAll(frames[..n])| <= k
            && Deframe(FormatAll(frames)[..k])
               == Deframed(frames[..n], FormatAll(frames)[|FormatAll(frames[..n])|..k], true)
  {
    if frames != [] {
      var f := frames[0];
      assert f in frames;
      if k < |FormatFrame(f)| {
        CutInFirst(frames, k);
      } else {
        var tail, j := FormatAll(frames[1..]), k - |FormatFrame(f)|;
        var n := WholeFrames(frames[1..], j);
        CutAnywhere(frames[1..], j);
        FirstAndBehind(f, tail[..j], frames[1..][..n], tail[|FormatAll(frames[1..][..n])|..j]);
        CutStep(frames, k, n);
      }
    }
  }

  lemma CutInFirst(frames: seq<Frame>, k: nat)
    requires frames != [] && WellFormed(frames[0]) && k < |FormatFrame(frames[0])|
    ensures Deframe(FormatAll(frames)[..k]) == Deframed([], FormatAll(frames)[..k], true)
  {
    assert FormatAll(frames)[..k] == FormatFrame(frames[0])[..k];
    StrictPrefixNeedsMore(frames[0], k);
  }

  /** The whole frames and the leftover bytes, one frame further. */
  lemma CutStep(frames: seq<Frame>, k: nat, n: nat)
    requires frames != [] && |FormatFrame(frames[0])| <= k <= |FormatAll(frames)|
    requires n == WholeFrames(frames[1..], k - |FormatFrame(frames[0])|)
    requires |FormatAll(frames[1..][..n])| <= k - |FormatFrame(frames[0])|
    ensures WholeFrames(frames, k) == n + 1 && frames[..n + 1] == [frames[0]] + frames[1..][..n]
    ensures |FormatAll(frames[..n + 1])| == |FormatFrame(frames[0])| + |FormatAll(frames[1..][..n])|
    ensures FormatAll(frames)[..k] == FormatFrame(frames[0]) + FormatAll(frames[1..])[..k - |FormatFrame(frames[0])|]
    ensures FormatAll(frames)[|FormatAll(frames[..n + 1])|..k]
         == FormatAll(frames[1..])[|FormatAll(frames[1..][..n])|..k - |FormatFrame(frames[0])|]
  {
    TakeFirst(frames, n);
    TakeBehind(FormatFrame(frames[0]), FormatAll(frames[1..]), k - |FormatFrame(frames[0])|, |FormatAll(frames[1..][..n])|);
  }

  /** A first frame and the bytes behind it. */
  lemma FirstAndBehind(f: Frame, d: seq<byte>, frames: seq<Frame>, rest: seq<byte>)
    requires WellFormed(f) && Deframe(d) == Deframed(frames, rest, true)
    ensures Deframe(FormatFrame(f) + d) == Deframed([f] + frames, rest, true)
  {
    DeframeOne(f, d);
  }

  lemma TakeBehind(first: seq<byte>, tail: seq<byte>, j: nat, cut: nat)
    requires cut <= j <= |tail|
    ensures (first + tail)[..|first| + j] == first + tail[..j]
    ensures (first + tail)[|first| + cut..|first| + j] == tail[cut..j]
  {
  }

  lemma TakeFirst(frames: seq<Frame>, n: nat)
    requires n < |frames|
    ensures frames[..n + 1] == [frames[0]] + frames[1..][..n]
    ensures FormatAll(frames[..n + 1]) == FormatFrame(frames[0]) + FormatAll(frames[1..][..n])
  {
    assert frames[..n + 1][1..] == frames[1..][..n];
  }

  /** The bytes of well-formed frames are a clean stream, wherever it is cut. */
  lemma FormattedIsClean(frames: seq<Frame>, k: nat)
    requires AllWellFormed(frames) && k <= |FormatAll(frames)|
    ensures Clean(FormatAll(frames)[..k])
  {
    CutAnywhere(frames, k);
  }

  // ---------------------------------------------------------------- the receiving half of stream_mqtt

  const MESSAGE_BUFFER_SIZE := 1024

  /** The session's reaction to a sequence of frames. */
  function HandleAll(s: Session, frames: seq<Frame>, seen: Observer): Session {
    if frames == [] then s
    else HandleFrame(HandleAll(s, frames[..|frames| - 1], seen), frames[|frames| - 1], seen)
  }

  lemma HandleAllSnoc(s: Session, frames: seq<Frame>, f: Frame, seen: Observer)
    ensures HandleAll(s, frames + [f], seen) == HandleFrame(HandleAll(s, frames, seen), f, seen)
  {
    assert (frames + [f])[..|frames|] == frames;
  }

  lemma DropLast(a: seq<Frame>, b: seq<Frame>)
    requires b != []
    ensures a + b != [] && (a + b)[..|a + b| - 1] == a + b[..|b| - 1] && (a + b)[|a + b| - 1] == b[|b| - 1]
  {
  }

  lemma {:induction false} HandleAllConcat(s: Session, a: seq<Frame>, b: seq<Frame>, seen: Observer)
    ensures HandleAll(s, a + b, seen) == HandleAll(HandleAll(s, a, seen), b, seen)
  {
    if b == [] {
      assert a + b == a;
    } else {
      var p := b[..|b| - 1];
      HandleAllConcat(s, a, p, seen);
      DropLast(a, b);
    }
  }

  /** What looking for a message comes to: the result, the session, the bytes left in the buffer, and the answers of the
      stream below still to come. */
  datatype Peeked = Peeked(ret: int, session: Session, rest: seq<byte>, answers: seq<ReadResult>)

  /** stream_mqtt_peek_frame: read until a message is waiting or an answer comes without data. */
  function Peek(s: Session, rest: seq<byte>, answers: seq<ReadResult>, seen: Observer): Peeked
    decreases |answers|
  {
    if s.incoming != [] then Peeked(|s.incoming[0].frame.body|, s, rest, answers)
    else if answers == [] then Peeked(-1, s, rest, [])
    else if !answers[0].Data? then Peeked(if answers[0].Closed? then 0 else -1, s, rest, answers[1..])
    else
      var d := Deframe(rest + answers[0].bytes);
      Peek(HandleAll(s, d.frames, seen), d.rest, answers[1..], seen)
  }

  /** A message waiting in the end is what the result tells of; without one, reading went on to the first answer without
      data, and the result tells whether the stream is closed. */
  lemma {:induction false} PeekReadsOn(s: Session, rest: seq<byte>, answers: seq<ReadResult>, seen: Observer)
    ensures var p := Peek(s, rest, answers, seen);
            && (s.incoming != [] ==> p.session == s && p.answers == answers && p.rest == rest)
            && (p.session.incoming != [] ==> p.ret == |p.session.incoming[0].frame.body|)
            && (p.session.incoming == [] ==>
                  p.answers == AfterStop(answers) && p.ret == if Stop(answers).Closed? then 0 else -1)
    decreases |answers|
  {
    if s.incoming == [] && answers != [] && answers[0].Data? {
      var d := Deframe(rest + answers[0].bytes);
      PeekReadsOn(HandleAll(s, d.frames, seen), d.rest, answers[1..], seen);
    }
  }

  /** When the result is 0: a waiting message with an empty body cannot be told from a closed stream. */
  lemma PeekIsZero(s: Session, rest: seq<byte>, answers: seq<ReadResult>, seen: Observer)
    ensures var p := Peek(s, rest, answers, seen);
            p.ret == 0 <==> if p.session.incoming != [] then p.session.incoming[0].frame.body == [] else Stop(answers).Closed?
  {
    PeekReadsOn(s, rest, answers, seen);
  }

  /** Both happen: a frame without a body that the observer leaves, and nothing but a closed stream. */
  lemma ZeroBothWays()
    ensures var f, leave := Frame(UNSUBSCRIBE, 0, []), (_: Frame) => false;
            && Peek(INITIAL, [], [Data(FormatFrame(f))], leave).ret == 0
            && Peek(INITIAL, [], [Data(FormatFrame(f))], leave).session.incoming == [Item(f, 0, false)]
            && Peek(INITIAL, [], [Closed], leave).ret == 0
  {
    var f, leave := Frame(UNSUBSCRIBE, 0, []), (_: Frame) => false;
    var bytes := FormatFrame(f);
    DeframeOne(f, []);
    assert bytes + [] == bytes == [] + bytes;
    HandleAllSnoc(INITIAL, [], f, leave);
    assert [] + [f] == [f] == [f] + Deframe([]).frames;
    assert Deframe([] + bytes).frames == [f];
  }

  /** `received` and `handled` are histories: all bytes read, all frames handed to the session. */
  class Receiver {
    const session: StreamMqtt
    const buffer: Buffer
    const source: Source
    ghost var received: seq<byte>
    ghost var handled: seq<Frame>

    ghost predicate Valid()
      reads this, session, buffer, buffer.alloc, source
    {
      && buffer.Valid() && source.Valid()
      && Deframe(received) == Deframed(handled, buffer.Contents(), true)
    }

    constructor (source: Source)
      requires source.Valid()
      ensures Valid() && this.source == source && received == [] && handled == []
      ensures fresh(session) && fresh(buffer) && fresh(buffer.alloc) && session.Abs() == INITIAL
    {
      session := new StreamMqtt();
      buffer := new Buffer(MESSAGE_BUFFER_SIZE);
      this.source := source;
      received, handled := [], [];
    }

    /** One round of the inner loop; `now` is the frame it handles, if any. */
    method HandleFirst(seen: Observer) returns (more: bool, ghost now: seq<Frame>)
      requires buffer.Valid() && AllWellFormed(Deframe(buffer.Contents()).frames)
      modifies session, buffer
      ensures buffer.Valid() && buffer.alloc == old(buffer.alloc)
      ensures !more ==> now == [] && buffer.Contents() == Deframe(buffer.Contents()).rest
                        && Deframe(buffer.Contents()).frames == []
      ensures more ==> |buffer.Contents()| < |old(buffer.Contents())|
      ensures Deframe(old(buffer.Contents())).frames == now + Deframe(buffer.Contents()).frames
      ensures Deframe(old(buffer.Contents())).rest == Deframe(buffer.Contents()).rest
      ensures session.Abs() == HandleAll(old(session.Abs()), now, seen)
    {
      var c := buffer.alloc[buffer.offset..buffer.offset + buffer.length];
      now := [];
      var p := ParseFrame(c);
      if p.More? {
        return false, [];
      }
      if p.Bad? {
        buffer.Reset();
      } else {
        NextFrame(c, [], Deframe(c));
        FirstIsFine(c);
        session.HandleReceivedFrame(p.frame, seen);
        HandleAllSnoc(old(session.Abs()), [], p.frame, seen);
        now := [p.frame];
        var left := buffer.Cut(p.length);
      }
      more := true;
    }

    /** The inner loop: it ends with no whole frame left in the buffer, which a bad length field empties. */
    method Drain(seen: Observer)
      requires buffer.Valid() && AllWellFormed(Deframe(buffer.Contents()).frames)
      modifies session, buffer
      ensures buffer.Valid() && buffer.alloc == old(buffer.alloc)
      ensures buffer.Contents() == Deframe(old(buffer.Contents())).rest
      ensures session.Abs() == HandleAll(old(session.Abs()), Deframe(old(buffer.Contents())).frames, seen)
    {
      ghost var all := Deframe(buffer.Contents());
      ghost var done: seq<Frame> := [];
      while !buffer.IsEmpty()
        invariant buffer.Valid() && buffer.alloc == old(buffer.alloc)
        invariant session.Abs() == HandleAll(old(session.Abs()), done, seen)
        invariant all.frames == done + Deframe(buffer.Contents()).frames
        invariant all.rest == Deframe(buffer.Contents()).rest
        decreases |buffer.Contents()|
      {
        ghost var before := Deframe(buffer.Contents()).frames;
        assert AllWellFormed(before) by {
          assert forall f :: f in before ==> f in all.frames;
        }
        ghost var now;
        var more: bool;
        more, now := HandleFirst(seen);
        HandleAllConcat(old(session.Abs()), done, now, seen);
        Regroup(done, now, Deframe(buffer.Contents()).frames);
        done := done + now;
        if !more {
          break;
        }
      }
      assert Deframe(buffer.Contents()).frames == [] && buffer.Contents() == Deframe(buffer.Contents()).rest;
      assert done == all.frames;
    }

    /** One chunk of a clean stream has been read. */
    method TakeChunk(chunk: seq<byte>, seen: Observer)
      requires Valid() && Clean(received + chunk)
      modifies this, session, buffer, buffer.alloc
      ensures Valid() && (buffer.alloc == old(buffer.alloc) || fresh(buffer.alloc))
      ensures received == old(received) + chunk
      ensures source.answers == old(source.answers)
      ensures handled == old(handled) + Deframe(old(buffer.Contents()) + chunk).frames
      ensures buffer.Contents() == Deframe(old(buffer.Contents()) + chunk).rest
      ensures session.Abs() == HandleAll(old(session.Abs()), Deframe(old(buffer.Contents()) + chunk).frames, seen)
    {
      ghost var news := Deframe(buffer.Contents() + chunk);
      CleanChunk(received, handled, buffer.Contents(), chunk);
      buffer.Append(chunk);
      Drain(seen);
      received := received + chunk;
      handled := handled + news.frames;
    }

    /** One read of the stream below, and what it brings. */
    method ReadMore(seen: Observer) returns (r: ReadResult)
      requires Valid() && Clean(received + BytesOf(source.answers))
      modifies this, session, buffer, buffer.alloc, source
      ensures Valid() && (buffer.alloc == old(buffer.alloc) || fresh(buffer.alloc))
      ensures received + BytesOf(source.answers) == old(received + BytesOf(source.answers))
      ensures if old(source.answers) == [] then r.Again? && source.answers == []
              else old(source.answers) == [r] + source.answers
      ensures !r.Data? ==> handled == old(handled) && received == old(received)
                           && buffer.Contents() == old(buffer.Contents()) && session.Abs() == old(session.Abs())
      ensures r.Data? ==> handled == old(handled) + Deframe(old(buffer.Contents()) + r.bytes).frames
                          && buffer.Contents() == Deframe(old(buffer.Contents()) + r.bytes).rest
                          && session.Abs() == HandleAll(old(session.Abs()), Deframe(old(buffer.Contents()) + r.bytes).frames, seen)
    {
      ghost var was, coming := received, BytesOf(source.answers);
      r := source.Read();
      if r.Data? {
        assert coming == r.bytes + BytesOf(source.answers);
        ReadClean(was, r.bytes, BytesOf(source.answers));
        TakeChunk(r.bytes, seen);
      }
    }

    /** Reads until a message is waiting or nothing more can be read.  The result is the length of the first waiting
        message, -1, or the failing read's own result. */
    method PeekFrame(seen: Observer) returns (ret: int)
      requires Valid() && Clean(received + BytesOf(source.answers))
      modifies this, session, buffer, buffer.alloc, source
      ensures Valid()
      ensures buffer.alloc == old(buffer.alloc) || fresh(buffer.alloc)
      ensures received + BytesOf(source.answers) == old(received + BytesOf(source.answers))
      ensures old(handled) <= handled
      ensures session.Abs() == HandleAll(old(session.Abs()), handled[|old(handled)|..], seen)
      ensures Peeked(ret, session.Abs(), buffer.Contents(), source.answers)
           == Peek(old(session.Abs()), old(buffer.Contents()), old(source.answers), seen)
    {
      ghost var start := |handled|;
      ghost var all := Peek(session.Abs(), buffer.Contents(), source.answers, seen);
      assert handled[start..] == [];
      while |session.incoming| == 0
        invariant Valid() && (buffer.alloc == old(buffer.alloc) || fresh(buffer.alloc))
        invariant received + BytesOf(source.answers) == old(received + BytesOf(source.answers))
        invariant old(handled) <= handled
        invariant session.Abs() == HandleAll(old(session.Abs()), handled[start..], seen)
        invariant Peek(session.Abs(), buffer.Contents(), source.answers, seen) == all
        decreases |source.answers|
      {
        ghost var before := handled;
        var r := ReadMore(seen);
        Extends(before, handled, start);
        HandleAllConcat(old(session.Abs()), before[start..], handled[|before|..], seen);
        if r.Again? {
          return -1;
        }
        if r.Closed? {
          return 0;
        }
        if r.Failed? {
          return -1;
        }
      }
      return |session.incoming[0].frame.body|;
    }
  }

  lemma Extends(a: seq<Frame>, b: seq<Frame>, start: nat)
    requires start <= |a| && a <= b
    ensures b[start..] == a[start..] + b[|a|..]
  {
  }
}
