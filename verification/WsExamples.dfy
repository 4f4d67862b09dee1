/** The frames that RFC 6455 section 5.7 gives as examples, and what a session answers to single frames. */
module WsExamples {
  import opened Bytes
  import opened Wrappers
  import opened WsCodec
  import opened WsSession

  const HELLO: seq<byte> := [0x48, 0x65, 0x6c, 0x6c, 0x6f]

  /** A single-frame unmasked text message, and its two fragments. */
  lemma Unmasked()
    ensures FormatFrame(0x81, None, HELLO) == [0x81, 0x05, 0x48, 0x65, 0x6c, 0x6c, 0x6f]
    ensures FormatFrame(0x01, None, HELLO[..3]) == [0x01, 0x03, 0x48, 0x65, 0x6c]
    ensures FormatFrame(0x80, None, HELLO[3..]) == [0x80, 0x02, 0x6c, 0x6f]
  {
  }

  lemma FirstByte()
    ensures Xor(0x48, 0x37) == 0x7f
  {
    assert XorBits(0, 0, 1) == 0;
    assert XorBits(2, 1, 3) == 3;
    assert XorBits(9, 6, 5) == 15;
    assert XorBits(36, 27, 7) == 63;
  }

  lemma SecondByte()
    ensures Xor(0x65, 0xfa) == 0x9f
  {
    assert XorBits(0, 1, 1) == 1;
    assert XorBits(3, 7, 3) == 4;
    assert XorBits(12, 31, 5) == 19;
    assert XorBits(50, 125, 7) == 79;
  }

  lemma ThirdByte()
    ensures Xor(0x6c, 0x21) == 0x4d
  {
    assert XorBits(0, 0, 1) == 0;
    assert XorBits(3, 1, 3) == 2;
    assert XorBits(13, 4, 5) == 9;
    assert XorBits(54, 16, 7) == 38;
  }

  lemma FourthByte()
    ensures Xor(0x6c, 0x3d) == 0x51
  {
    assert XorBits(0, 0, 1) == 0;
    assert XorBits(3, 1, 3) == 2;
    assert XorBits(13, 7, 5) == 10;
    assert XorBits(54, 30, 7) == 40;
  }

  lemma FifthByte()
    ensures Xor(0x6f, 0x37) == 0x58
  {
    assert XorBits(0, 0, 1) == 0;
    assert XorBits(3, 1, 3) == 2;
    assert XorBits(13, 6, 5) == 11;
    assert XorBits(55, 27, 7) == 44;
  }

  lemma FiveMasked(data: seq<byte>, mask: Mask, r: seq<byte>)
    requires |data| == |r| == 5
    requires r[0] == Xor(data[0], mask[0]) && r[1] == Xor(data[1], mask[1]) && r[2] == Xor(data[2], mask[2])
    requires r[3] == Xor(data[3], mask[3]) && r[4] == Xor(data[4], mask[0])
    ensures Masked(data, mask) == r
  {
    forall i | 0 <= i < 5 ensures r[i] == Xor(data[i], mask[i % 4]) {
      if i == 4 {
        assert i % 4 == 0;
      } else {
        assert i % 4 == i;
      }
    }
  }

  lemma MaskedHello(mask: Mask)
    requires mask == [0x37, 0xfa, 0x21, 0x3d]
    ensures Masked(HELLO, mask) == [0x7f, 0x9f, 0x4d, 0x51, 0x58]
  {
    FirstByte();
    SecondByte();
    ThirdByte();
    FourthByte();
    FifthByte();
    FiveMasked(HELLO, mask, [0x7f, 0x9f, 0x4d, 0x51, 0x58]);
  }

  /** A single-frame masked text message. */
  lemma MaskedText(mask: Mask)
    requires mask == [0x37, 0xfa, 0x21, 0x3d]
    ensures FormatFrame(0x81, Some(mask), HELLO) ==
            [0x81, 0x85] + ([0x37, 0xfa, 0x21, 0x3d] + [0x7f, 0x9f, 0x4d, 0x51, 0x58])
  {
    MaskedHello(mask);
    assert LengthField(5, true) == [0x85];
  }

  /** 256 bytes and 64 KiB of binary data in a single unmasked frame. */
  lemma LongFrames(data: seq<byte>)
    ensures |data| == 256 ==> FormatFrame(0x82, None, data) == [0x82, 0x7e, 0x01, 0x00] + data
    ensures |data| == 65536 ==>
      FormatFrame(0x82, None, data) == [0x82, 0x7f, 0x00, 0x00, 0x00, 0x00, 0x00, 0x01, 0x00, 0x00] + data
  {
  }

  // ---------------------------------------------------------------- answers

  lemma OneMore(s: Session, opcode: nat, payload: seq<byte>, random: Random)
    requires opcode < 16
    ensures WriteFrame(s, opcode, payload, random) ==
            s.(sent := s.sent + [FormatFrame(0x80 + opcode, if s.client then Some(random(|s.sent|)) else None, payload)])
  {
  }

  /** A PING is answered by one PONG with the same payload, masked by the client only, and changes nothing else. */
  lemma PingAnswered(s: Session, f: Frame, random: Random)
    requires f.opcode == 9 && !(f.mask.Some? && s.client)
    ensures HandleFrame(s, f, random) ==
            s.(sent := s.sent + [FormatFrame(0x8a, if s.client then Some(random(|s.sent|)) else None, f.payload)])
  {
  }

  /** A client that gets a masked frame writes one CLOSE frame before anything else and is closing from then on; a server,
      and a client that gets an unmasked frame, writes a PONG or nothing and is closing only if it was before. */
  lemma MaskedRefused(s: Session, f: Frame, random: Random)
    ensures var t := HandleFrame(s, f, random);
            var close := FormatFrame(0x88, if s.client then Some(random(|s.sent|)) else None, [3, 0, 234, 0]);
            && (t.closing <==> s.closing || (s.client && f.mask.Some?))
            && |t.sent| == |s.sent| + (if s.client && f.mask.Some? then 1 else 0) + (if f.opcode == 9 then 1 else 0)
            && s.sent <= t.sent
            && (s.client && f.mask.Some? ==> t.sent[|s.sent|] == close)
            && t.client == s.client && (t.responded <==> s.responded || f.opcode == 10)
            && t.dataType == if f.opcode == 1 || f.opcode == 2 then f.opcode else s.dataType
  {
  }
}
