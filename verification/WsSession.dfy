/** The WebSocket session layer in frame mode, after the handshake: deframing, reassembly, PING and PONG. */
module WsSession {
  import opened Bytes
  import opened Buffers
  import opened Sources
  import opened WsCodec
  import opened Wrappers

  const CONTINUE := 0
  const TEXT := 1
  const BINARY := 2
  const CLOSE := 8
  const PING := 9
  const PONG := 10

  /** 1002 as the code stores it: two 16-bit words on a little-endian machine. */
  const CLOSE_PAYLOAD: seq<byte> := [3, 0, 234, 0]

  // ---------------------------------------------------------------- deframing as a function of all bytes

  datatype Deframed = Deframed(frames: seq<Frame>, rest: seq<byte>, ok: bool)

  /** The frame's length has not wrapped, so all of its payload is there. */
  predicate Sound(p: ParseResult) {
    p.Got? && p.header.payloadOffset + p.header.payloadLength < SIZE_MAX_PLUS_1
  }

  lemma SoundFits(d: seq<byte>)
    requires Sound(ParseFrame(d))
    ensures var p := ParseFrame(d);
            && 2 <= p.length == p.header.payloadOffset + p.header.payloadLength <= |d|
            && (p.header.masked ==> p.header.maskOffset + 4 == p.header.payloadOffset)
  {
  }

  /** `ok` is false once a frame length has wrapped. */
  function Deframe(d: seq<byte>): Deframed
    decreases |d|
  {
    var p := ParseFrame(d);
    if p.More? then Deframed([], d, true)
    else if !Sound(p) then Deframed([], d, false)
    else
      SoundFits(d);
      Behind(FrameAt(d, p.header), Deframe(d[p.length..]))
  }

  /** One frame before the others. */
  function Behind(first: Frame, r: Deframed): Deframed {
    Deframed([first] + r.frames, r.rest, r.ok)
  }

  lemma SoundExtends(d: seq<byte>, e: seq<byte>)
    requires Sound(ParseFrame(d))
    ensures ParseFrame(d + e) == ParseFrame(d)
    ensures var p := ParseFrame(d);
            && 2 <= p.length == p.header.payloadOffset + p.header.payloadLength <= |d|
            && (p.header.masked ==> p.header.maskOffset + 4 == p.header.payloadOffset)
            && FrameAt(d + e, p.header) == FrameAt(d, p.header)
            && (d + e)[p.length..] == d[p.length..] + e
  {
    SoundFits(d);
    ParseStable(d, e);
    var h := ParseFrame(d).header;
    assert (d + e)[h.payloadOffset..h.payloadOffset + h.payloadLength] == d[h.payloadOffset..h.payloadOffset + h.payloadLength];
    assert h.masked ==> (d + e)[h.maskOffset..h.maskOffset + 4] == d[h.maskOffset..h.maskOffset + 4];
  }

  lemma Regroup<T>(a: seq<T>, b: seq<T>, c: seq<T>)
    ensures a + (b + c) == (a + b) + c
  {
  }

  /** The first frame of a byte string without a wrapped length. */
  lemma DeframeGot(d: seq<byte>)
    requires ParseFrame(d).Got? && Deframe(d).ok
    ensures var p := ParseFrame(d);
            && 2 <= p.length == p.header.payloadOffset + p.header.payloadLength <= |d|
            && (p.header.masked ==> p.header.maskOffset + 4 == p.header.payloadOffset)
            && Deframe(d) == Behind(FrameAt(d, p.header), Deframe(d[p.length..])) && Deframe(d[p.length..]).ok
  {
    SoundFits(d);
  }

  /** More bytes extend the frames found so far and the rest. */
  lemma {:induction false} DeframeAppend(d: seq<byte>, e: seq<byte>)
    requires Deframe(d).ok
    ensures var a := Deframe(d);
            var b := Deframe(a.rest + e);
            Deframe(d + e) == Deframed(a.frames + b.frames, b.rest, b.ok)
    decreases |d|
  {
    var p := ParseFrame(d);
    if p.Got? {
      SoundExtends(d, e);
      var tail := d[p.length..];
      DeframeAppend(tail, e);
      Regroup([FrameAt(d, p.header)], Deframe(tail).frames, Deframe(Deframe(tail).rest + e).frames);
    }
  }

  lemma {:induction false} OkPrefix(d: seq<byte>, e: seq<byte>)
    requires Deframe(d + e).ok
    ensures Deframe(d).ok
    decreases |d|
  {
    var p := ParseFrame(d);
    if Sound(p) {
      SoundExtends(d, e);
      OkPrefix(d[p.length..], e);
    } else if p.Got? {
      ParseStable(d, e);
    }
  }

  lemma DeframeOne(flags: byte, mask: Option<Mask>, payload: seq<byte>, tail: seq<byte>)
    requires |payload| + 14 < SIZE_MAX_PLUS_1
    ensures Deframe(FormatFrame(flags, mask, payload) + tail)
         == Behind(Frame(flags >= 128, flags % 16, mask, payload), Deframe(tail))
  {
    FrameRoundTrip(flags, mask, payload, tail);
    assert (FormatFrame(flags, mask, payload) + tail)[|FormatFrame(flags, mask, payload)|..] == tail;
  }

  /** The frames a well-behaved peer writes. */
  predicate Formattable(f: Frame) {
    f.opcode < 16 && |f.payload| + 14 < SIZE_MAX_PLUS_1
  }

  function FlagsOf(f: Frame): byte
    requires Formattable(f)
  {
    (if f.fin then FIN else 0) + f.opcode
  }

  function FormatOf(f: Frame): seq<byte>
    requires Formattable(f)
  {
    FormatFrame(FlagsOf(f), f.mask, f.payload)
  }

  function FormatAll(frames: seq<Frame>): seq<byte>
    requires forall f :: f in frames ==> Formattable(f)
  {
    if frames == [] then [] else FormatOf(frames[0]) + FormatAll(frames[1..])
  }

  lemma DeframeOfOne(f: Frame, tail: seq<byte>)
    requires Formattable(f)
    ensures Deframe(FormatOf(f) + tail) == Behind(f, Deframe(tail))
  {
    FlagsSplit(f);
    DeframeOne(FlagsOf(f), f.mask, f.payload, tail);
  }

  lemma FlagsSplit(f: Frame)
    requires Formattable(f)
    ensures Frame(FlagsOf(f) >= 128, FlagsOf(f) % 16, f.mask, f.payload) == f
  {
  }

  /** Of the bytes of frames and a strict prefix of another one, exactly the frames come out and the prefix is left. */
  lemma DeframeFormatAll(frames: seq<Frame>, next: Frame, k: nat)
    requires forall f :: f in frames ==> Formattable(f)
    requires Formattable(next) && k < |FormatOf(next)|
    ensures Deframe(FormatAll(frames) + FormatOf(next)[..k]) == Deframed(frames, FormatOf(next)[..k], true)
  {
    DeframeCut(next, k);
    DeframeThenCut(frames, FormatOf(next)[..k]);
  }

  lemma {:induction false} DeframeThenCut(frames: seq<Frame>, cut: seq<byte>)
    requires forall f :: f in frames ==> Formattable(f)
    requires Deframe([] + cut) == Deframed([], cut, true)
    ensures Deframe(FormatAll(frames) + cut) == Deframed(frames, cut, true)
  {
    if frames != [] {
      assert frames[0] in frames && forall f :: f in frames[1..] ==> f in frames;
      DeframeThenCut(frames[1..], cut);
      DeframeNext(frames[0], FormatAll(frames[1..]), cut, frames[1..]);
      HeadAndTail(frames);
    }
  }

  lemma HeadAndTail<T>(s: seq<T>)
    requires s != []
    ensures [s[0]] + s[1..] == s
  {
  }

  lemma DeframeCut(next: Frame, k: nat)
    requires Formattable(next) && k < |FormatOf(next)|
    ensures Deframe([] + FormatOf(next)[..k]) == Deframed([], FormatOf(next)[..k], true)
  {
    assert [] + FormatOf(next)[..k] == FormatOf(next)[..k];
    StrictPrefixNeedsMore(FlagsOf(next), next.mask, next.payload, k);
  }

  lemma DeframeNext(f: Frame, bytes: seq<byte>, cut: seq<byte>, others: seq<Frame>)
    requires Formattable(f) && Deframe(bytes + cut) == Deframed(others, cut, true)
    ensures Deframe((FormatOf(f) + bytes) + cut) == Deframed([f] + others, cut, true)
  {
    Regroup(FormatOf(f), bytes, cut);
    DeframeOfOne(f, bytes + cut);
  }

  // ---------------------------------------------------------------- the session

  /** A message being received, or received. */
  datatype Slice = Slice(opcode: nat, fin: bool, data: seq<byte>)

  /** `sent`: the frames written to the stream below, as bytes. */
  datatype Session = Session(cache: seq<Slice>, dataType: nat, client: bool, closing: bool, responded: bool,
                             sent: seq<seq<byte>>)

  /** The random masks a client draws, by the number of frames written before. */
  type Random = nat -> Mask

  function WriteFrame(s: Session, opcode: nat, payload: seq<byte>, random: Random): Session
    requires opcode < 16
  {
    var mask := if s.client then Some(random(|s.sent|)) else None;
    s.(sent := s.sent + [FormatFrame(FIN + opcode, mask, payload)])
  }

  function Disconnect(s: Session, random: Random): Session {
    WriteFrame(s, CLOSE, CLOSE_PAYLOAD, random).(closing := true)
  }

  function HandleData(s: Session, f: Frame, data: seq<byte>): Session {
    s.(dataType := f.opcode, cache := s.cache + [Slice(f.opcode, f.fin, data)])
  }

  function HandleContinue(s: Session, f: Frame, data: seq<byte>): Session {
    if s.cache == [] then s
    else
      var n := |s.cache| - 1;
      s.(cache := s.cache[n := Slice(s.cache[n].opcode, f.fin, s.cache[n].data + data)])
  }

  /** A client closes on a masked frame, and goes on with the payload as it came. */
  function HandleFrame(s: Session, f: Frame, random: Random): Session {
    var refuse := f.mask.Some? && s.client;
    var s1 := if refuse then Disconnect(s, random) else s;
    var data := if refuse then Masked(f.payload, f.mask.value) else f.payload;
    if f.opcode == TEXT || f.opcode == BINARY then HandleData(s1, f, data)
    else if f.opcode == CONTINUE then HandleContinue(s1, f, data)
    else if f.opcode == PING then WriteFrame(s1, PONG, data, random)
    else if f.opcode == PONG then s1.(responded := true)
    else s1
  }

  function HandleAll(s: Session, frames: seq<Frame>, random: Random): Session {
    if frames == [] then s
    else HandleFrame(HandleAll(s, frames[..|frames| - 1], random), frames[|frames| - 1], random)
  }

  lemma LastOfConcat<T>(a: seq<T>, b: seq<T>)
    requires b != []
    ensures |a + b| > 0 && (a + b)[..|a + b| - 1] == a + b[..|b| - 1] && (a + b)[|a + b| - 1] == b[|b| - 1]
  {
  }

  lemma HandleAllConcat(s: Session, a: seq<Frame>, b: seq<Frame>, random: Random)
    ensures HandleAll(s, a + b, random) == HandleAll(HandleAll(s, a, random), b, random)
  {
    if b == [] {
      assert a + b == a;
    } else {
      var n := |b| - 1;
      HandleAllConcat(s, a, b[..n], random);
      LastOfConcat(a, b);
    }
  }

  // ---------------------------------------------------------------- reassembly

  /** What reassembly looks at. */
  datatype Piece = Piece(opcode: nat, fin: bool, data: seq<byte>)

  predicate IsData(f: Frame) {
    f.opcode == CONTINUE || f.opcode == TEXT || f.opcode == BINARY
  }

  /** The data frames among all frames; control frames may be interleaved anywhere. */
  function Pieces(frames: seq<Frame>): seq<Piece> {
    if frames == [] then []
    else
      var f := frames[|frames| - 1];
      Pieces(frames[..|frames| - 1]) + (if IsData(f) then [Piece(f.opcode, f.fin, f.payload)] else [])
  }

  predicate Open(pieces: seq<Piece>) {
    pieces != [] && !pieces[|pieces| - 1].fin
  }

  /** RFC 6455 section 5.4: a message starts when none is open, and continues when one is. */
  predicate Legal(pieces: seq<Piece>) {
    pieces == [] ||
    var p, last := pieces[..|pieces| - 1], pieces[|pieces| - 1];
    Legal(p) && (Open(p) <==> last.opcode == CONTINUE)
  }

  /** The slices that a sequence of pieces makes up. */
  function Collected(pieces: seq<Piece>): seq<Slice> {
    if pieces == [] then []
    else
      AddPiece(Collected(pieces[..|pieces| - 1]), pieces[|pieces| - 1])
  }

  function AddPiece(c: seq<Slice>, last: Piece): seq<Slice> {
    if last.opcode != CONTINUE then c + [Slice(last.opcode, last.fin, last.data)]
    else if c == [] then c
    else c[|c| - 1 := Slice(c[|c| - 1].opcode, last.fin, c[|c| - 1].data + last.data)]
  }

  lemma PieceSnoc(p: seq<Piece>, last: Piece)
    ensures Legal(p + [last]) <==> Legal(p) && (Open(p) <==> last.opcode == CONTINUE)
    ensures Open(p + [last]) <==> !last.fin
    ensures Collected(p + [last]) == AddPiece(Collected(p), last)
  {
    assert (p + [last])[..|p|] == p;
  }

  /** Every slice but the last is complete, and the last one is unless a message is open. */
  predicate CompleteBut(c: seq<Slice>, open: bool) {
    && (forall i :: 0 <= i < |c| - 1 ==> c[i].fin)
    && (c == [] ==> !open)
    && (c != [] ==> (c[|c| - 1].fin <==> !open))
  }

  lemma {:induction false} CollectedComplete(pieces: seq<Piece>)
    requires Legal(pieces)
    ensures CompleteBut(Collected(pieces), Open(pieces))
  {
    if pieces != [] {
      CollectedComplete(pieces[..|pieces| - 1]);
    }
  }

  /** A message cut into parts: RFC 6455 section 5.4. */
  datatype Message = Message(opcode: nat, parts: seq<seq<byte>>)

  predicate IsMessage(m: Message) {
    m.parts != [] && (m.opcode == TEXT || m.opcode == BINARY)
  }

  /** The first `k` pieces of a message. */
  function MessagePieces(m: Message, k: nat): seq<Piece>
    requires k <= |m.parts|
  {
    seq(k, i requires 0 <= i < k => PieceOf(m, i))
  }

  function Script(msgs: seq<Message>): seq<Piece> {
    if msgs == [] then []
    else Script(msgs[..|msgs| - 1]) + MessagePieces(msgs[|msgs| - 1], |msgs[|msgs| - 1].parts|)
  }

  /** What the application is to read. */
  function Whole(m: Message): Slice {
    Slice(m.opcode, true, Flatten(m.parts))
  }

  function Wholes(msgs: seq<Message>): seq<Slice> {
    seq(|msgs|, i requires 0 <= i < |msgs| => Whole(msgs[i]))
  }

  /** The part of a message received so far. */
  function Partial(m: Message, k: nat): seq<Slice>
    requires k <= |m.parts|
  {
    if k == 0 then [] else [Slice(m.opcode, k == |m.parts|, Flatten(m.parts[..k]))]
  }

  /** A message on top of complete ones, up to any of its pieces. */
  lemma {:induction false} CollectMessage(before: seq<Piece>, m: Message, k: nat)
    requires IsMessage(m) && k <= |m.parts| && Legal(before) && !Open(before)
    ensures Legal(before + MessagePieces(m, k))
    ensures Open(before + MessagePieces(m, k)) <==> 0 < k < |m.parts|
    ensures Collected(before + MessagePieces(m, k)) == Collected(before) + Partial(m, k)
  {
    if k == 0 {
      assert before + MessagePieces(m, k) == before;
      assert Collected(before) + Partial(m, k) == Collected(before);
    } else {
      CollectMessage(before, m, k - 1);
      PiecesGrow(before, m, k);
      PieceSnoc(before + MessagePieces(m, k - 1), PieceOf(m, k - 1));
      PartialGrows(Collected(before), m, k);
    }
  }

  function PieceOf(m: Message, i: nat): Piece
    requires i < |m.parts|
  {
    Piece(if i == 0 then m.opcode else CONTINUE, i == |m.parts| - 1, m.parts[i])
  }

  lemma PiecesGrow(before: seq<Piece>, m: Message, k: nat)
    requires 0 < k <= |m.parts|
    ensures before + MessagePieces(m, k) == (before + MessagePieces(m, k - 1)) + [PieceOf(m, k - 1)]
  {
  }

  lemma PartialGrows(c: seq<Slice>, m: Message, k: nat)
    requires 0 < k <= |m.parts|
    requires m.opcode != CONTINUE
    ensures AddPiece(c + Partial(m, k - 1), PieceOf(m, k - 1)) == c + Partial(m, k)
  {
    assert m.parts[..k] == m.parts[..k - 1] + [m.parts[k - 1]];
    FlattenSnoc(m.parts[..k - 1], m.parts[k - 1]);
    if k == 1 {
      assert m.parts[..1] == [m.parts[0]];
      assert Flatten(m.parts[..1]) == [] + m.parts[0] == m.parts[0];
      assert c + Partial(m, 0) == c;
    }
  }

  lemma {:induction false} CollectScript(msgs: seq<Message>)
    requires forall m :: m in msgs ==> IsMessage(m)
    ensures Legal(Script(msgs)) && !Open(Script(msgs))
    ensures Collected(Script(msgs)) == Wholes(msgs)
  {
    if msgs == [] {
      assert Wholes(msgs) == [];
    } else {
      var p, m := msgs[..|msgs| - 1], msgs[|msgs| - 1];
      assert m in msgs;
      CollectScript(p);
      CollectMessage(Script(p), m, |m.parts|);
      assert m.parts[..|m.parts|] == m.parts;
      assert Partial(m, |m.parts|) == [Whole(m)];
      assert Wholes(msgs) == Wholes(p) + [Whole(m)];
    }
  }

  /** Any number of messages in any fragmentation, the last one possibly unfinished, with control frames anywhere:
      the slices are the complete messages, in order, and the unfinished one. */
  lemma MessagesReassemble(frames: seq<Frame>, msgs: seq<Message>, next: Message, k: nat)
    requires forall m :: m in msgs ==> IsMessage(m)
    requires IsMessage(next) && k < |next.parts|
    requires Pieces(frames) == Script(msgs) + MessagePieces(next, k)
    ensures Legal(Pieces(frames))
    ensures Collected(Pieces(frames)) == Wholes(msgs) + Partial(next, k)
  {
    CollectScript(msgs);
    CollectMessage(Script(msgs), next, k);
  }

  // ---------------------------------------------------------------- the cache is what has been collected and not read

  /** No masked frame reaches a client. */
  predicate Acceptable(client: bool, frames: seq<Frame>) {
    client ==> forall f :: f in frames ==> f.mask.None?
  }

  ghost predicate CacheOk(s: Session, read: seq<Slice>, pieces: seq<Piece>) {
    read + s.cache == Collected(pieces) && forall m :: m in read ==> m.fin
  }

  lemma PiecesSnoc(frames: seq<Frame>, f: Frame)
    ensures !IsData(f) ==> Pieces(frames + [f]) == Pieces(frames)
    ensures Pieces(frames + [f]) == Pieces(frames) + (if IsData(f) then [Piece(f.opcode, f.fin, f.payload)] else [])
  {
    assert (frames + [f])[..|frames|] == frames;
    assert Pieces(frames) + [] == Pieces(frames);
  }

  lemma LegalBefore(frames: seq<Frame>, f: Frame)
    requires Legal(Pieces(frames + [f]))
    ensures Legal(Pieces(frames))
  {
    PiecesSnoc(frames, f);
    if IsData(f) {
      var q := Pieces(frames + [f]);
      assert q[..|q| - 1] == Pieces(frames);
    }
  }

  /** What an acceptable frame does to the cache. */
  function NextCache(cache: seq<Slice>, f: Frame): seq<Slice> {
    if f.opcode == TEXT || f.opcode == BINARY then cache + [Slice(f.opcode, f.fin, f.payload)]
    else if f.opcode == CONTINUE && cache != [] then
      var last := cache[|cache| - 1];
      cache[|cache| - 1 := Slice(last.opcode, f.fin, last.data + f.payload)]
    else cache
  }

  lemma HandleShape(s: Session, f: Frame, random: Random)
    requires s.client ==> f.mask.None?
    ensures var t := HandleFrame(s, f, random);
            t.cache == NextCache(s.cache, f) && t.client == s.client && t.closing == s.closing
  {
  }

  lemma NextCacheCollects(cache: seq<Slice>, read: seq<Slice>, frames: seq<Frame>, f: Frame)
    requires read + cache == Collected(Pieces(frames)) && forall m :: m in read ==> m.fin
    requires Legal(Pieces(frames + [f]))
    ensures read + NextCache(cache, f) == Collected(Pieces(frames + [f]))
  {
    LegalBefore(frames, f);
    PiecesSnoc(frames, f);
    var p, q := Pieces(frames), Pieces(frames + [f]);
    if IsData(f) {
      assert q[..|q| - 1] == p;
      if f.opcode == CONTINUE {
        CollectedComplete(p);
        var last := Collected(p)[|Collected(p)| - 1];
        ContinueLast(read, cache, Collected(p), Slice(last.opcode, f.fin, last.data + f.payload));
      } else {
        Regroup(read, cache, [Slice(f.opcode, f.fin, f.payload)]);
      }
    }
  }

  lemma HandleKeepsCache(s: Session, read: seq<Slice>, frames: seq<Frame>, f: Frame, random: Random)
    requires CacheOk(s, read, Pieces(frames)) && Legal(Pieces(frames + [f])) && (s.client ==> f.mask.None?)
    ensures CacheOk(HandleFrame(s, f, random), read, Pieces(frames + [f]))
    ensures HandleFrame(s, f, random).client == s.client && HandleFrame(s, f, random).closing == s.closing
  {
    HandleShape(s, f, random);
    NextCacheCollects(s.cache, read, frames, f);
  }

  /** An unfinished last slice has not been read, so it is the last one in the cache. */
  lemma ContinueLast(read: seq<Slice>, cache: seq<Slice>, all: seq<Slice>, last: Slice)
    requires read + cache == all && all != [] && !all[|all| - 1].fin && forall m :: m in read ==> m.fin
    ensures cache != [] && cache[|cache| - 1] == all[|all| - 1]
    ensures read + cache[|cache| - 1 := last] == all[|all| - 1 := last]
  {
    assert cache != [] by {
      assert forall i :: 0 <= i < |read| ==> all[i] == read[i] && read[i] in read;
    }
  }

  /** The application takes the first complete message, if it fits. */
  function Readable(s: Session, room: nat): bool {
    s.cache != [] && s.cache[0].fin && |s.cache[0].data| <= room
  }

  lemma ReadKeepsCache(s: Session, read: seq<Slice>, pieces: seq<Piece>, room: nat)
    requires CacheOk(s, read, pieces) && Readable(s, room)
    ensures CacheOk(s.(cache := s.cache[1..]), read + [s.cache[0]], pieces)
  {
    assert (read + [s.cache[0]]) + s.cache[1..] == read + s.cache;
  }

  lemma {:induction false} HandleAllKeepsCache(s: Session, read: seq<Slice>, frames: seq<Frame>, news: seq<Frame>, random: Random)
    requires CacheOk(s, read, Pieces(frames)) && Legal(Pieces(frames + news)) && Acceptable(s.client, news)
    ensures var t := HandleAll(s, news, random);
            CacheOk(t, read, Pieces(frames + news)) && t.client == s.client && t.closing == s.closing
  {
    if news == [] {
      assert frames + news == frames;
    } else {
      var p, f := news[..|news| - 1], news[|news| - 1];
      assert frames + news == (frames + p) + [f];
      LegalBefore(frames + p, f);
      assert f in news && forall g :: g in p ==> g in news;
      HandleAllKeepsCache(s, read, frames, p, random);
      HandleKeepsCache(HandleAll(s, p, random), read, frames + p, f, random);
    }
  }

  // ---------------------------------------------------------------- PING and PONG

  /** The payloads of the PINGs, in order. */
  function Pings(frames: seq<Frame>): seq<seq<byte>> {
    if frames == [] then []
    else
      var f := frames[|frames| - 1];
      Pings(frames[..|frames| - 1]) + (if f.opcode == PING then [f.payload] else [])
  }

  function PongFrame(mask: Option<Mask>, payload: seq<byte>): seq<byte> {
    FormatFrame(FIN + PONG, mask, payload)
  }

  /** A final PONG frame with this payload. */
  ghost predicate IsPong(bytes: seq<byte>, payload: seq<byte>) {
    exists mask: Option<Mask> :: bytes == PongFrame(mask, payload)
  }

  /** Each PING makes exactly one PONG with the same payload, in order, and nothing else is written. */
  lemma {:induction false} PongPerPing(s: Session, frames: seq<Frame>, random: Random)
    requires Acceptable(s.client, frames)
    ensures var t := HandleAll(s, frames, random);
            && |t.sent| == |s.sent| + |Pings(frames)|
            && s.sent <= t.sent
            && t.client == s.client
            && forall i :: 0 <= i < |Pings(frames)| ==> IsPong(t.sent[|s.sent| + i], Pings(frames)[i])
  {
    if frames != [] {
      var p, f := frames[..|frames| - 1], frames[|frames| - 1];
      assert f in frames;
      assert forall g :: g in p ==> g in frames;
      PongPerPing(s, p, random);
      HandleSends(HandleAll(s, p, random), f, random);
    }
  }

  lemma HandleSends(s: Session, f: Frame, random: Random)
    requires s.client ==> f.mask.None?
    ensures var t := HandleFrame(s, f, random);
            && t.client == s.client
            && (f.opcode != PING ==> t.sent == s.sent)
            && (f.opcode == PING ==> |t.sent| == |s.sent| + 1 && s.sent <= t.sent && IsPong(t.sent[|s.sent|], f.payload))
  {
    if f.opcode == PING {
      var mask: Option<Mask> := if s.client then Some(random(|s.sent|)) else None;
      assert HandleFrame(s, f, random).sent == s.sent + [PongFrame(mask, f.payload)];
      assert IsPong(PongFrame(mask, f.payload), f.payload);
    }
  }

  // ---------------------------------------------------------------- the stream

  const MESSAGE_BUFFER_SIZE := 4096

  /** Bytes received, frames handled, bytes kept, the session and the messages read fit together. */
  ghost predicate Agree(received: seq<byte>, handled: seq<Frame>, kept: seq<byte>, s: Session, read: seq<Slice>) {
    Deframe(received) == Deframed(handled, kept, true) && CacheOk(s, read, Pieces(handled))
  }

  /** A complete message is first in the cache. */
  predicate Waiting(s: Session) {
    s.cache != [] && s.cache[0].fin
  }

  /** What looking for a message comes to: the result, the session, the bytes left in the buffer, and the answers of the
      stream below still to come. */
  datatype Peeked = Peeked(ret: int, session: Session, rest: seq<byte>, answers: seq<ReadResult>)

  /** stream_ws_peek_frame: read until a complete message is waiting or an answer comes without data. */
  function Peek(s: Session, rest: seq<byte>, answers: seq<ReadResult>, random: Random): Peeked
    decreases |answers|
  {
    if Waiting(s) then Peeked(|s.cache[0].data|, s, rest, answers)
    else if answers == [] then Peeked(-1, s, rest, [])
    else if !answers[0].Data? then Peeked(if answers[0].Closed? then 0 else -1, s, rest, answers[1..])
    else
      var d := Deframe(rest + answers[0].bytes);
      Peek(HandleAll(s, d.frames, random), d.rest, answers[1..], random)
  }

  /** A message waiting in the end is what the result tells of; without one, reading went on to the first answer without
      data, and the result tells whether the stream is closed. */
  lemma {:induction false} PeekReadsOn(s: Session, rest: seq<byte>, answers: seq<ReadResult>, random: Random)
    ensures var p := Peek(s, rest, answers, random);
            && (Waiting(s) ==> p.session == s && p.answers == answers && p.rest == rest)
            && (Waiting(p.session) ==> p.ret == |p.session.cache[0].data|)
            && (!Waiting(p.session) ==>
                  p.answers == AfterStop(answers) && p.ret == if Stop(answers).Closed? then 0 else -1)
    decreases |answers|
  {
    if !Waiting(s) && answers != [] && answers[0].Data? {
      var d := Deframe(rest + answers[0].bytes);
      PeekReadsOn(HandleAll(s, d.frames, random), d.rest, answers[1..], random);
    }
  }

  /** When the result is 0: an empty complete message cannot be told from a closed stream. */
  lemma PeekIsZero(s: Session, rest: seq<byte>, answers: seq<ReadResult>, random: Random)
    ensures var p := Peek(s, rest, answers, random);
            p.ret == 0 <==> if Waiting(p.session) then p.session.cache[0].data == [] else Stop(answers).Closed?
  {
    PeekReadsOn(s, rest, answers, random);
  }

  lemma EmptyFrame(bytes: seq<byte>, mask: Mask)
    requires bytes == FormatFrame(FIN + TEXT, Some(mask), [])
    ensures Deframe([] + bytes) == Deframed([Frame(true, TEXT, Some(mask), [])], [], true)
  {
    DeframeOne(FIN + TEXT, Some(mask), [], []);
    NothingAround(bytes);
    NothingBehind(Frame(true, TEXT, Some(mask), []));
  }

  lemma NothingAround(bytes: seq<byte>)
    ensures bytes + [] == [] + bytes
  {
  }

  lemma NothingBehind(f: Frame)
    ensures Behind(f, Deframe([])) == Deframed([f], [], true)
  {
  }

  /** A server that reads an empty text message. */
  lemma EmptyText(s: Session, bytes: seq<byte>, f: Frame, random: Random)
    requires s == Session([], BINARY, false, false, true, []) && f.opcode == TEXT && f.fin && f.payload == []
    requires Deframe([] + bytes) == Deframed([f], [], true)
    ensures var p := Peek(s, [], [Data(bytes)], random);
            p.ret == 0 && p.session.cache == [Slice(TEXT, true, [])]
  {
    HandleAllOne(s, f, random);
    assert HandleFrame(s, f, random).cache == [Slice(TEXT, true, [])];
  }

  /** Both happen: that server, and one whose stream is closed. */
  lemma ZeroBothWays(mask: Mask, random: Random)
    ensures var s, bytes := Session([], BINARY, false, false, true, []), FormatFrame(FIN + TEXT, Some(mask), []);
            && Peek(s, [], [Data(bytes)], random).ret == 0
            && Peek(s, [], [Data(bytes)], random).session.cache == [Slice(TEXT, true, [])]
            && Peek(s, [], [Closed], random).ret == 0
  {
    var s, bytes := Session([], BINARY, false, false, true, []), FormatFrame(FIN + TEXT, Some(mask), []);
    EmptyFrame(bytes, mask);
    EmptyText(s, bytes, Frame(true, TEXT, Some(mask), []), random);
  }

  /** `received`, `handled` and `read` are histories: all bytes read from below, all frames handled, all messages
      the application has taken. */
  class StreamWs {
    const buffer: Buffer
    const source: Source
    const clientRole: bool
    var cache: seq<Slice>
    var dataType: nat
    var closing: bool
    var keepAliveResponded: bool
    ghost var sent: seq<seq<byte>>
    ghost var received: seq<byte>
    ghost var handled: seq<Frame>
    ghost var read: seq<Slice>

    ghost function Abs(): Session
      reads this
    {
      Session(cache, dataType, clientRole, closing, keepAliveResponded, sent)
    }

    /** Bytes, frames and messages agree.  The status is READY as long as no frame has made the client close. */
    ghost predicate Valid()
      reads this, buffer, buffer.alloc, source
    {
      && buffer.Valid() && source.Valid()
      && Agree(received, handled, buffer.Contents(), Abs(), read)
    }

    /** What this layer relies on for a byte string: no wrapped length, legal fragmentation, and nothing masked that
        a client would refuse. */
    ghost predicate Good(bytes: seq<byte>)
      reads this
    {
      Deframe(bytes).ok && Legal(Pieces(Deframe(bytes).frames)) && Acceptable(clientRole, Deframe(bytes).frames)
    }

    constructor (source: Source, clientRole: bool)
      requires source.Valid()
      ensures Valid() && this.source == source && this.clientRole == clientRole && !closing
      ensures received == [] && read == [] && sent == [] && fresh(buffer) && fresh(buffer.alloc)
    {
      buffer := new Buffer(MESSAGE_BUFFER_SIZE);
      this.source := source;
      this.clientRole := clientRole;
      cache, dataType, closing, keepAliveResponded := [], BINARY, false, true;
      sent, received, handled, read := [], [], [], [];
    }

    /** `stream_ws_write_frame` with FIN set and a freshly generated mask. */
    method Write(opcode: nat, payload: seq<byte>, random: Random)
      requires opcode < 16
      modifies `sent
      ensures Abs() == WriteFrame(old(Abs()), opcode, payload, random)
    {
      ghost var mask := if clientRole then Some(random(|sent|)) else None;
      sent := sent + [FormatFrame(FIN + opcode, mask, payload)];
    }

    /** Unmasks the payload where it lies in the buffer. */
    method Unmask(h: Header)
      requires buffer.Valid() && h.masked
      requires h.maskOffset + 4 == h.payloadOffset && h.payloadOffset + h.payloadLength <= |buffer.Contents()|
      modifies buffer.alloc
      ensures buffer.Valid()
      ensures buffer.Contents() == UnmaskedAt(old(buffer.Contents()), h)
    {
      var start, pos := buffer.offset, buffer.offset + h.payloadOffset;
      var mask := buffer.alloc[start + h.maskOffset..start + h.maskOffset + 4];
      ghost var was, c := buffer.alloc[..], buffer.Contents();
      ApplyMask(buffer.alloc, pos, h.payloadLength, mask);
      UnmaskedIs(was, buffer.alloc[..], start, c, buffer.Contents(), h, mask);
    }

    /** Takes the mask off, or closes. */
    method Uncover(h: Header, random: Random)
      requires buffer.Valid() && h.masked
      requires h.payloadOffset + h.payloadLength <= |buffer.Contents()| && h.maskOffset + 4 == h.payloadOffset
      modifies `sent, `closing, buffer.alloc
      ensures buffer.Valid()
      ensures Abs() == if clientRole then Disconnect(old(Abs()), random) else old(Abs())
      ensures buffer.Contents() == if clientRole then old(buffer.Contents()) else UnmaskedAt(old(buffer.Contents()), h)
    {
      if clientRole {
        Write(CLOSE, CLOSE_PAYLOAD, random);
        closing := true;
      } else {
        Unmask(h);
      }
    }

    method Payload(h: Header) returns (data: seq<byte>)
      requires buffer.Valid() && h.payloadOffset + h.payloadLength <= |buffer.Contents()|
      ensures data == buffer.Contents()[h.payloadOffset..h.payloadOffset + h.payloadLength]
    {
      var pos := buffer.offset + h.payloadOffset;
      data := buffer.alloc[pos..pos + h.payloadLength];
      ArraySlice(buffer.alloc, buffer.offset, buffer.length, h.payloadOffset, h.payloadLength);
    }

    /** The switch over the opcode. */
    method Dispatch(fin: bool, opcode: nat, data: seq<byte>, random: Random)
      requires opcode < 16
      modifies `cache, `dataType, `keepAliveResponded, `sent
      ensures Abs() == HandleFrame(old(Abs()), Frame(fin, opcode, None, data), random)
    {
      if opcode == TEXT || opcode == BINARY {
        dataType := opcode;
        cache := cache + [Slice(opcode, fin, data)];
      } else if opcode == CONTINUE {
        if |cache| > 0 {
          var last := cache[|cache| - 1];
          cache := cache[|cache| - 1 := Slice(last.opcode, fin, last.data + data)];
        }
      } else if opcode == PING {
        Write(PONG, data, random);
      } else if opcode == PONG {
        keepAliveResponded := true;
      }
    }

    method HandleReceivedFrame(h: Header, random: Random)
      requires buffer.Valid() && h.opcode < 16
      requires h.payloadOffset + h.payloadLength <= |buffer.Contents()|
      requires h.masked ==> h.maskOffset + 4 == h.payloadOffset
      modifies `cache, `dataType, `keepAliveResponded, `sent, `closing, buffer.alloc
      ensures buffer.Valid() && |buffer.Contents()| == |old(buffer.Contents())|
      ensures Abs() == HandleFrame(old(Abs()), FrameAt(old(buffer.Contents()), h), random)
      ensures buffer.Contents()[h.payloadOffset + h.payloadLength..]
           == old(buffer.Contents())[h.payloadOffset + h.payloadLength..]
    {
      HandleInSteps(Abs(), FrameAt(buffer.Contents(), h), random);
      UnmaskedParts(buffer.Contents(), h);
      if h.masked {
        Uncover(h, random);
      }
      var data := Payload(h);
      Dispatch(h.fin, h.opcode, data, random);
    }

    /** One round of the parse loop; `now` is the frame it handles, if any. */
    method HandleFirst(random: Random) returns (more: bool, ghost now: seq<Frame>)
      requires buffer.Valid() && Deframe(buffer.Contents()).ok
      modifies `cache, `dataType, `keepAliveResponded, `sent, `closing, buffer, buffer.alloc
      ensures buffer.Valid() && buffer.alloc == old(buffer.alloc)
      ensures !more ==> now == [] && Deframe(buffer.Contents()) == Deframed([], buffer.Contents(), true)
      ensures more ==> |buffer.Contents()| < |old(buffer.Contents())|
      ensures Deframe(buffer.Contents()).ok
      ensures Deframe(old(buffer.Contents())).frames == now + Deframe(buffer.Contents()).frames
      ensures Deframe(old(buffer.Contents())).rest == Deframe(buffer.Contents()).rest
      ensures Abs() == HandleAll(old(Abs()), now, random)
    {
      var c := buffer.alloc[buffer.offset..buffer.offset + buffer.length];
      now := [];
      var p := ParseFrame(c);
      if p.More? {
        return false, [];
      }
      DeframeGot(c);
      ghost var f := FrameAt(c, p.header);
      HandleReceivedFrame(p.header, random);
      HandleAllOne(old(Abs()), f, random);
      now := [f];
      var left := buffer.Cut(p.length);
      assert buffer.Contents() == c[p.length..];
      more := true;
    }

    /** The parse loop: it ends with no whole frame left in the buffer. */
    method Drain(random: Random)
      requires buffer.Valid() && Deframe(buffer.Contents()).ok
      modifies `cache, `dataType, `keepAliveResponded, `sent, `closing, buffer, buffer.alloc
      ensures buffer.Valid() && buffer.alloc == old(buffer.alloc)
      ensures buffer.Contents() == Deframe(old(buffer.Contents())).rest
      ensures Abs() == HandleAll(old(Abs()), Deframe(old(buffer.Contents())).frames, random)
    {
      ghost var all := Deframe(buffer.Contents());
      ghost var done: seq<Frame> := [];
      while !buffer.IsEmpty()
        invariant buffer.Valid() && buffer.alloc == old(buffer.alloc) && Deframe(buffer.Contents()).ok
        invariant Abs() == HandleAll(old(Abs()), done, random)
        invariant all.frames == done + Deframe(buffer.Contents()).frames
        invariant all.rest == Deframe(buffer.Contents()).rest
        decreases |buffer.Contents()|
      {
        ghost var now;
        var more: bool;
        more, now := HandleFirst(random);
        HandleAllConcat(old(Abs()), done, now, random);
        Regroup(done, now, Deframe(buffer.Contents()).frames);
        done := done + now;
        if !more {
          break;
        }
      }
      assert Deframe(buffer.Contents()).frames == [] && Deframe(buffer.Contents()).rest == buffer.Contents();
      assert done == all.frames;
    }

    method Absorb(chunk: seq<byte>, random: Random)
      requires buffer.Valid() && Deframe(buffer.Contents() + chunk).ok
      modifies `cache, `dataType, `keepAliveResponded, `sent, `closing, buffer, buffer.alloc
      ensures buffer.Valid() && (buffer.alloc == old(buffer.alloc) || fresh(buffer.alloc))
      ensures buffer.Contents() == Deframe(old(buffer.Contents()) + chunk).rest
      ensures Abs() == HandleAll(old(Abs()), Deframe(old(buffer.Contents()) + chunk).frames, random)
    {
      buffer.Append(chunk);
      Drain(random);
    }

    /** Some bytes have been read. */
    method TakeChunk(chunk: seq<byte>, random: Random)
      requires Valid() && Good(received + chunk)
      modifies this, buffer, buffer.alloc
      ensures Valid() && (buffer.alloc == old(buffer.alloc) || fresh(buffer.alloc))
      ensures received == old(received) + chunk && read == old(read)
      ensures closing == old(closing) && source.answers == old(source.answers)
      ensures handled == old(handled) + Deframe(old(buffer.Contents()) + chunk).frames
      ensures buffer.Contents() == Deframe(old(buffer.Contents()) + chunk).rest
      ensures Abs() == HandleAll(old(Abs()), Deframe(old(buffer.Contents()) + chunk).frames, random)
    {
      ghost var news := Deframe(buffer.Contents() + chunk);
      ChunkKeepsAgreement(received, handled, buffer.Contents(), Abs(), read, chunk, random);
      Absorb(chunk, random);
      received := received + chunk;
      handled := handled + news.frames;
    }

    /** One read of the stream below, and what it brings. */
    method ReadMore(random: Random) returns (r: ReadResult)
      requires Valid() && Good(received + BytesOf(source.answers))
      modifies this, buffer, buffer.alloc, source
      ensures Valid() && (buffer.alloc == old(buffer.alloc) || fresh(buffer.alloc))
      ensures received + BytesOf(source.answers) == old(received + BytesOf(source.answers))
      ensures read == old(read) && closing == old(closing)
      ensures if old(source.answers) == [] then r.Again? && source.answers == []
              else old(source.answers) == [r] + source.answers
      ensures !r.Data? ==> handled == old(handled) && received == old(received)
                           && buffer.Contents() == old(buffer.Contents()) && Abs() == old(Abs())
      ensures r.Data? ==> handled == old(handled) + Deframe(old(buffer.Contents()) + r.bytes).frames
                          && buffer.Contents() == Deframe(old(buffer.Contents()) + r.bytes).rest
                          && Abs() == HandleAll(old(Abs()), Deframe(old(buffer.Contents()) + r.bytes).frames, random)
    {
      r := source.Read();
      if r.Data? {
        Regroup(received, r.bytes, BytesOf(source.answers));
        GoodPrefix(received + r.bytes, BytesOf(source.answers));
        TakeChunk(r.bytes, random);
      }
    }

    /** Reads until a complete message is waiting or nothing more can be read.  The result is the message's length,
        -1, or the failing read's own result. */
    method PeekFrame(random: Random) returns (ret: int)
      requires Valid() && !closing && Good(received + BytesOf(source.answers))
      modifies this, buffer, buffer.alloc, source
      ensures Valid() && !closing
      ensures buffer.alloc == old(buffer.alloc) || fresh(buffer.alloc)
      ensures received + BytesOf(source.answers) == old(received + BytesOf(source.answers))
      ensures old(handled) <= handled && read == old(read)
      ensures Abs() == HandleAll(old(Abs()), handled[|old(handled)|..], random)
      ensures Peeked(ret, Abs(), buffer.Contents(), source.answers)
           == Peek(old(Abs()), old(buffer.Contents()), old(source.answers), random)
    {
      ghost var start := |handled|;
      ghost var all := Peek(Abs(), buffer.Contents(), source.answers, random);
      assert handled[start..] == [];
      while !(|cache| > 0 && cache[0].fin)
        invariant Valid() && !closing && (buffer.alloc == old(buffer.alloc) || fresh(buffer.alloc))
        invariant received + BytesOf(source.answers) == old(received + BytesOf(source.answers))
        invariant old(handled) <= handled && read == old(read)
        invariant Abs() == HandleAll(old(Abs()), handled[start..], random)
        invariant Peek(Abs(), buffer.Contents(), source.answers, random) == all
        decreases |source.answers|
      {
        ghost var before := handled;
        var r := ReadMore(random);
        Extends(before, handled, start);
        HandleAllConcat(old(Abs()), before[start..], handled[|before|..], random);
        if r.Again? {
          return -1;
        }
        if r.Closed? {
          return 0;
        }
        if r.Failed? {
          return -1;
        }
      }
      return |cache[0].data|;
    }

    /** `None`: nothing there, the message is incomplete, or a bigger buffer is needed. */
    method ReadFrame(room: nat) returns (r: Option<Slice>)
      requires Valid()
      modifies `cache, `read
      ensures Valid()
      ensures r.Some? <==> Readable(old(Abs()), room)
      ensures r.None? ==> cache == old(cache) && read == old(read)
      ensures r.Some? ==> r.value.fin && read == old(read) + [r.value] && old(cache) == [r.value] + cache
    {
      if |cache| == 0 || !cache[0].fin || |cache[0].data| > room {
        return None;
      }
      ReadKeepsCache(Abs(), read, Pieces(handled), room);
      r := Some(cache[0]);
      cache := cache[1..];
      read := read + [r.value];
    }

    /** What the application has read, and the cache: the messages that were sent, in order. */
    lemma ReadsMessages(msgs: seq<Message>, next: Message, k: nat)
      requires Valid()
      requires forall m :: m in msgs ==> IsMessage(m)
      requires IsMessage(next) && k < |next.parts|
      requires Pieces(handled) == Script(msgs) + MessagePieces(next, k)
      ensures read + cache == Wholes(msgs) + Partial(next, k)
      ensures read <= Wholes(msgs)
      ensures forall i :: 0 <= i < |cache| - 1 ==> cache[i].fin
    {
      MessagesReassemble(handled, msgs, next, k);
      CollectedComplete(Pieces(handled));
      ReadIsPrefix(read, cache, Wholes(msgs), Partial(next, k));
      FinInTail(read, cache);
    }

    /** From bytes to messages: if the bytes received so far are those of some frames and a part of a further one, and
        the data frames among them carry these messages, the application reads the messages. */
    lemma BytesToMessages(frames: seq<Frame>, cut: Frame, j: nat, msgs: seq<Message>, next: Message, k: nat)
      requires Valid()
      requires (forall f :: f in frames ==> Formattable(f)) && Formattable(cut) && j < |FormatOf(cut)|
      requires received == FormatAll(frames) + FormatOf(cut)[..j]
      requires (forall m :: m in msgs ==> IsMessage(m)) && IsMessage(next) && k < |next.parts|
      requires Pieces(frames) == Script(msgs) + MessagePieces(next, k)
      ensures handled == frames
      ensures read + cache == Wholes(msgs) + Partial(next, k) && read <= Wholes(msgs)
    {
      DeframeFormatAll(frames, cut, j);
      ReadsMessages(msgs, next, k);
    }

    /** When no complete message is waiting any more, the application has read every complete one, and the cache holds
        the part of the unfinished one. */
    lemma AllMessagesRead(frames: seq<Frame>, cut: Frame, j: nat, msgs: seq<Message>, next: Message, k: nat)
      requires Valid() && !Waiting(Abs())
      requires (forall f :: f in frames ==> Formattable(f)) && Formattable(cut) && j < |FormatOf(cut)|
      requires received == FormatAll(frames) + FormatOf(cut)[..j]
      requires (forall m :: m in msgs ==> IsMessage(m)) && IsMessage(next) && k < |next.parts|
      requires Pieces(frames) == Script(msgs) + MessagePieces(next, k)
      ensures read == Wholes(msgs) && cache == Partial(next, k)
    {
      BytesToMessages(frames, cut, j, msgs, next, k);
      NothingFinished(read, cache, Wholes(msgs), Partial(next, k));
    }

    lemma GoodPrefix(d: seq<byte>, e: seq<byte>)
      requires Good(d + e)
      ensures Good(d)
    {
      OkPrefix(d, e);
      DeframeAppend(d, e);
      var a, b := Deframe(d).frames, Deframe(Deframe(d).rest + e).frames;
      LegalPrefix(a, b);
      assert forall f :: f in a ==> f in a + b;
    }
  }

  lemma HeadIsNext(read: seq<Slice>, cache: seq<Slice>, wholes: seq<Slice>, partial: seq<Slice>)
    requires read + cache == wholes + partial && |read| < |wholes|
    ensures cache != [] && cache[0] == wholes[|read|]
  {
    assert (read + cache)[|read|] == (wholes + partial)[|read|];
  }

  lemma NothingFinished(read: seq<Slice>, cache: seq<Slice>, wholes: seq<Slice>, partial: seq<Slice>)
    requires read + cache == wholes + partial && read <= wholes
    requires (forall i :: 0 <= i < |wholes| ==> wholes[i].fin) && (cache != [] ==> !cache[0].fin)
    ensures read == wholes && cache == partial
  {
    if |read| < |wholes| {
      HeadIsNext(read, cache, wholes, partial);
      assert false;
    }
    assert cache == (read + cache)[|read|..] && partial == (wholes + partial)[|wholes|..];
  }

  lemma FinInTail(read: seq<Slice>, cache: seq<Slice>)
    requires forall i :: 0 <= i < |read + cache| - 1 ==> (read + cache)[i].fin
    ensures forall i :: 0 <= i < |cache| - 1 ==> cache[i].fin
  {
    forall i | 0 <= i < |cache| - 1 ensures cache[i].fin {
      assert cache[i] == (read + cache)[|read| + i];
    }
  }

  lemma ArraySlice(a: array<byte>, offset: nat, length: nat, from: nat, n: nat)
    requires offset + length <= a.Length && from + n <= length
    ensures a[offset..offset + length][from..from + n] == a[offset + from..offset + from + n]
  {
    assert a[offset..offset + length] == a[..][offset..offset + length];
    SliceOfSlice(a[..], offset, offset + length, from, from + n);
    assert a[..][offset + from..offset + from + n] == a[offset + from..offset + from + n];
  }

  /** The bytes with the payload unmasked in place. */
  function UnmaskedAt(c: seq<byte>, h: Header): (r: seq<byte>)
    requires h.maskOffset + 4 == h.payloadOffset && h.payloadOffset + h.payloadLength <= |c|
    ensures |r| == |c|
  {
    c[..h.payloadOffset]
    + Masked(c[h.payloadOffset..h.payloadOffset + h.payloadLength], c[h.maskOffset..h.maskOffset + 4])
    + c[h.payloadOffset + h.payloadLength..]
  }

  /** Unmasking in the allocation is unmasking in the window on it. */
  lemma UnmaskedIs(was: seq<byte>, now: seq<byte>, start: nat, c: seq<byte>, d: seq<byte>, h: Header, mask: Mask)
    requires start + |c| <= |was| == |now| && c == was[start..start + |c|] && d == now[start..start + |c|]
    requires h.maskOffset + 4 == h.payloadOffset && h.payloadOffset + h.payloadLength <= |c|
    requires mask == was[start + h.maskOffset..start + h.payloadOffset]
    requires var pos, end := start + h.payloadOffset, start + (h.payloadOffset + h.payloadLength);
             now[pos..end] == Masked(was[pos..end], mask) && now[..pos] == was[..pos] && now[end..] == was[end..]
    ensures d == UnmaskedAt(c, h)
  {
    var from, to := h.payloadOffset, h.payloadOffset + h.payloadLength;
    PartOf(was, start, h.maskOffset, from, c);
    PartOf(was, start, from, to, c);
    PartOf(now, start, from, to, d);
    SameOutside(was, now, start, c, d, from, to);
    assert mask == c[h.maskOffset..from];
    assert d[from..to] == Masked(c[from..to], mask);
    Recombined(c, d, h, mask);
  }

  lemma Recombined(c: seq<byte>, d: seq<byte>, h: Header, mask: Mask)
    requires h.maskOffset + 4 == h.payloadOffset && h.payloadOffset + h.payloadLength <= |c| == |d|
    requires var from, to := h.payloadOffset, h.payloadOffset + h.payloadLength;
             && d[..from] == c[..from] && d[to..] == c[to..]
             && mask == c[h.maskOffset..from] && d[from..to] == Masked(c[from..to], mask)
    ensures d == UnmaskedAt(c, h)
  {
    ThreeParts(d, h.payloadOffset, h.payloadOffset + h.payloadLength);
  }

  lemma SameOutside(was: seq<byte>, now: seq<byte>, start: nat, c: seq<byte>, d: seq<byte>, from: nat, to: nat)
    requires start + |c| <= |was| == |now| && c == was[start..start + |c|] && d == now[start..start + |c|]
    requires from <= to <= |c| && now[..start + from] == was[..start + from] && now[start + to..] == was[start + to..]
    ensures d[..from] == c[..from] && d[to..] == c[to..]
  {
    forall i | 0 <= i < from ensures d[i] == c[i] {
      assert now[..start + from][start + i] == was[..start + from][start + i];
    }
    forall i | to <= i < |c| ensures d[i] == c[i] {
      assert now[start + to..][i - to] == was[start + to..][i - to];
    }
  }

  lemma ThreeParts(d: seq<byte>, from: nat, to: nat)
    requires from <= to <= |d|
    ensures d == d[..from] + d[from..to] + d[to..]
  {
  }

  lemma PartOf(was: seq<byte>, start: nat, from: nat, to: nat, c: seq<byte>)
    requires from <= to <= |c| && start + |c| <= |was| && c == was[start..start + |c|]
    ensures was[start + from..start + to] == c[from..to]
  {
    SliceOfSlice(was, start, start + |c|, from, to);
  }

  /** The payload and the tail, before and after unmasking. */
  lemma UnmaskedParts(c: seq<byte>, h: Header)
    requires h.payloadOffset + h.payloadLength <= |c|
    requires h.masked ==> h.maskOffset + 4 == h.payloadOffset
    ensures var f, end := FrameAt(c, h), h.payloadOffset + h.payloadLength;
            if h.masked
            then && UnmaskedAt(c, h)[h.payloadOffset..end] == f.payload && UnmaskedAt(c, h)[end..] == c[end..]
                 && c[h.payloadOffset..end] == Masked(f.payload, f.mask.value)
            else c[h.payloadOffset..end] == f.payload
  {
    if h.masked {
      MaskedTwice(c[h.payloadOffset..h.payloadOffset + h.payloadLength], c[h.maskOffset..h.maskOffset + 4]);
    }
  }

  lemma ChunkFacts(client: bool, d: seq<byte>, frames: seq<Frame>, rest: seq<byte>, e: seq<byte>)
    requires Deframe(d) == Deframed(frames, rest, true) && Deframe(d + e).ok
    requires Legal(Pieces(Deframe(d + e).frames)) && Acceptable(client, Deframe(d + e).frames)
    ensures var news := Deframe(rest + e);
            && news.ok && Legal(Pieces(frames + news.frames)) && Acceptable(client, news.frames)
            && Deframe(d + e) == Deframed(frames + news.frames, news.rest, true)
  {
    DeframeAppend(d, e);
    assert forall f :: f in Deframe(rest + e).frames ==> f in frames + Deframe(rest + e).frames;
  }

  lemma ChunkKeepsAgreement(d: seq<byte>, frames: seq<Frame>, rest: seq<byte>, s: Session, read: seq<Slice>,
                            e: seq<byte>, random: Random)
    requires Agree(d, frames, rest, s, read) && Deframe(d + e).ok
    requires Legal(Pieces(Deframe(d + e).frames)) && Acceptable(s.client, Deframe(d + e).frames)
    ensures var news, t := Deframe(rest + e), HandleAll(s, Deframe(rest + e).frames, random);
            news.ok && Agree(d + e, frames + news.frames, news.rest, t, read) && t.closing == s.closing
  {
    ChunkFacts(s.client, d, frames, rest, e);
    HandleAllKeepsCache(s, read, frames, Deframe(rest + e).frames, random);
  }

  /** A message read beyond the complete ones would be the unfinished one. */
  lemma ReadBeyond(read: seq<Slice>, cache: seq<Slice>, wholes: seq<Slice>, partial: seq<Slice>)
    requires read + cache == wholes + partial && |read| > |wholes|
    ensures exists m :: m in read && m in partial
  {
    assert read[|wholes|] == (wholes + partial)[|wholes|] == partial[0];
    assert partial[0] in read && partial[0] in partial;
  }

  lemma ReadIsPrefix(read: seq<Slice>, cache: seq<Slice>, wholes: seq<Slice>, partial: seq<Slice>)
    requires read + cache == wholes + partial
    requires (forall m :: m in partial ==> !m.fin) && (forall m :: m in read ==> m.fin)
    ensures read <= wholes
  {
    if |read| > |wholes| {
      ReadBeyond(read, cache, wholes, partial);
      assert false;
    }
    PrefixOfLonger(read, cache, wholes, partial);
  }

  lemma {:induction false} LegalPrefix(a: seq<Frame>, b: seq<Frame>)
    requires Legal(Pieces(a + b))
    ensures Legal(Pieces(a))
  {
    if b == [] {
      assert a + b == a;
    } else {
      var p, f := b[..|b| - 1], b[|b| - 1];
      assert a + b == (a + p) + [f];
      LegalBefore(a + p, f);
      LegalPrefix(a, p);
    }
  }

  lemma Extends(a: seq<Frame>, b: seq<Frame>, start: nat)
    requires start <= |a| && a <= b
    ensures b[start..] == a[start..] + b[|a|..]
  {
  }

  lemma HandleAllOne(s: Session, f: Frame, random: Random)
    ensures HandleAll(s, [f], random) == HandleFrame(s, f, random)
  {
    assert [f][..0] == [];
  }

  /** First the mask is dealt with, then the opcode. */
  lemma HandleInSteps(s: Session, f: Frame, random: Random)
    ensures HandleFrame(s, f, random) ==
            if f.mask.Some? && s.client
            then HandleFrame(Disconnect(s, random), Frame(f.fin, f.opcode, None, Masked(f.payload, f.mask.value)), random)
            else HandleFrame(s, Frame(f.fin, f.opcode, None, f.payload), random)
  {
  }
}
