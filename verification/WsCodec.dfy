/** WebSocket frames on the wire: RFC 6455 sections 5.2 and 5.3. */
module WsCodec {
  import opened Bytes
  import opened Wrappers

  type Mask = m: seq<byte> | |m| == 4 witness [0, 0, 0, 0]

  const SIZE_MAX_PLUS_1 := 0x1_0000_0000_0000_0000
  const FIN := 0x80
  const MASKED := 0x80

  // ---------------------------------------------------------------- masking

  /** Exclusive or of two numbers of `bits` bits, bit by bit. */
  function XorBits(a: nat, b: nat, bits: nat): (r: nat)
    decreases bits
  {
    if bits == 0 then 0 else (a % 2 + b % 2) % 2 + 2 * XorBits(a / 2, b / 2, bits - 1)
  }

  function Pow2(n: nat): nat {
    if n == 0 then 1 else 2 * Pow2(n - 1)
  }

  lemma {:induction false} XorBound(a: nat, b: nat, bits: nat)
    ensures XorBits(a, b, bits) < Pow2(bits)
  {
    if bits > 0 {
      XorBound(a / 2, b / 2, bits - 1);
    }
  }

  lemma Halves(bit: nat, y: nat)
    requires bit < 2
    ensures (bit + 2 * y) / 2 == y && (bit + 2 * y) % 2 == bit
  {
  }

  lemma BitTwice(p: nat, q: nat)
    requires p < 2 && q < 2
    ensures ((p + q) % 2 + q) % 2 == p
  {
  }

  lemma {:induction false} XorTwice(a: nat, b: nat, bits: nat)
    requires a < Pow2(bits)
    ensures XorBits(XorBits(a, b, bits), b, bits) == a
  {
    if bits > 0 {
      XorTwice(a / 2, b / 2, bits - 1);
      Halves((a % 2 + b % 2) % 2, XorBits(a / 2, b / 2, bits - 1));
      BitTwice(a % 2, b % 2);
    }
  }

  /** Bit `i` of a number, the least significant one being bit 0. */
  function BitAt(n: nat, i: nat): (r: nat)
    ensures r < 2
  {
    if i == 0 then n % 2 else BitAt(n / 2, i - 1)
  }

  /** Exclusive or: a bit is set iff it is set in one of the two numbers and not in the other. */
  lemma {:induction false} XorBit(a: nat, b: nat, bits: nat, i: nat)
    requires i < bits
    ensures BitAt(XorBits(a, b, bits), i) == 1 <==> BitAt(a, i) != BitAt(b, i)
  {
    Halves((a % 2 + b % 2) % 2, XorBits(a / 2, b / 2, bits - 1));
    if i > 0 {
      XorBit(a / 2, b / 2, bits - 1, i - 1);
    }
  }

  /** A number below two to the `bits` is given by its bits. */
  lemma {:induction false} SameBits(a: nat, b: nat, bits: nat)
    requires a < Pow2(bits) && b < Pow2(bits) && forall i: nat :: i < bits ==> BitAt(a, i) == BitAt(b, i)
    ensures a == b
  {
    if bits > 0 {
      assert BitAt(a, 0) == BitAt(b, 0);
      forall i: nat | i < bits - 1 ensures BitAt(a / 2, i) == BitAt(b / 2, i) {
        assert BitAt(a, i + 1) == BitAt(b, i + 1);
      }
      SameBits(a / 2, b / 2, bits - 1);
    }
  }

  lemma Pow2Of8()
    ensures Pow2(8) == 256
  {
    assert Pow2(4) == 16;
  }

  function Xor(a: byte, b: byte): byte {
    XorBound(a, b, 8);
    Pow2Of8();
    XorBits(a, b, 8)
  }

  function Masked(data: seq<byte>, mask: Mask): (r: seq<byte>)
    ensures |r| == |data|
  {
    seq(|data|, i requires 0 <= i < |data| => Xor(data[i], mask[i % 4]))
  }

  /** `now` is `was` with each bit of each byte inverted iff that bit of the mask byte is set (RFC 6455 section 5.3). */
  predicate IsMasked(now: seq<byte>, was: seq<byte>, mask: Mask) {
    |now| == |was| && forall k, i :: 0 <= k < |was| && 0 <= i < 8 ==> BitMasked(now[k], was[k], mask[k % 4], i)
  }

  predicate BitMasked(now: byte, was: byte, mask: byte, i: nat) {
    BitAt(now, i) == if BitAt(mask, i) == 1 then 1 - BitAt(was, i) else BitAt(was, i)
  }

  lemma MaskedBits(data: seq<byte>, mask: Mask)
    ensures IsMasked(Masked(data, mask), data, mask)
  {
    forall k, i | 0 <= k < |data| && 0 <= i < 8 ensures BitMasked(Masked(data, mask)[k], data[k], mask[k % 4], i) {
      XorBit(data[k], mask[k % 4], 8, i);
    }
  }

  /** Only one sequence of bytes is the masked one. */
  lemma MaskedOnly(now: seq<byte>, data: seq<byte>, mask: Mask)
    requires IsMasked(now, data, mask)
    ensures now == Masked(data, mask)
  {
    MaskedBits(data, mask);
    Pow2Of8();
    forall k | 0 <= k < |data| ensures now[k] == Masked(data, mask)[k] {
      forall i: nat | i < 8 ensures BitAt(now[k], i) == BitAt(Masked(data, mask)[k], i) {
        assert BitMasked(now[k], data[k], mask[k % 4], i) && BitMasked(Masked(data, mask)[k], data[k], mask[k % 4], i);
      }
      SameBits(now[k], Masked(data, mask)[k], 8);
    }
  }

  /** Masking is its own inverse. */
  lemma MaskedTwice(data: seq<byte>, mask: Mask)
    ensures Masked(Masked(data, mask), mask) == data
  {
    forall i | 0 <= i < |data| ensures Masked(Masked(data, mask), mask)[i] == data[i] {
      Pow2Of8();
      XorTwice(data[i], mask[i % 4], 8);
    }
  }

  /** `ws_apply_mask` on a stretch of a buffer. */
  method ApplyMask(a: array<byte>, pos: nat, length: nat, mask: Mask)
    requires pos + length <= a.Length
    modifies a
    ensures a[pos..pos + length] == Masked(old(a[pos..pos + length]), mask)
    ensures IsMasked(a[pos..pos + length], old(a[pos..pos + length]), mask)
    ensures a[..pos] == old(a[..pos]) && a[pos + length..] == old(a[pos + length..])
  {
    MaskedBits(a[pos..pos + length], mask);
    XorLoop(a, pos, length, mask);
  }

  /** The first `i` bytes from `pos` on are masked, all others as they were. */
  ghost predicate MaskedTo(now: seq<byte>, was: seq<byte>, pos: nat, i: nat, mask: Mask) {
    |now| == |was| && forall k :: 0 <= k < |was| ==>
      now[k] == if pos <= k < pos + i then Xor(was[k], mask[(k - pos) % 4]) else was[k]
  }

  lemma MaskedStep(now: seq<byte>, was: seq<byte>, pos: nat, i: nat, mask: Mask)
    requires MaskedTo(now, was, pos, i, mask) && pos + i < |was|
    ensures MaskedTo(now[pos + i := Xor(now[pos + i], mask[i % 4])], was, pos, i + 1, mask)
  {
    assert now[pos + i] == was[pos + i] && pos + i - pos == i;
  }

  lemma MaskedAll(now: seq<byte>, was: seq<byte>, pos: nat, length: nat, mask: Mask)
    requires MaskedTo(now, was, pos, length, mask) && pos + length <= |was|
    ensures now[pos..pos + length] == Masked(was[pos..pos + length], mask)
    ensures now[..pos] == was[..pos] && now[pos + length..] == was[pos + length..]
  {
    var part, data := now[pos..pos + length], was[pos..pos + length];
    forall i | 0 <= i < |part| ensures part[i] == Masked(data, mask)[i] {
      assert part[i] == now[pos + i] && data[i] == was[pos + i];
    }
  }

  /** Its loop. */
  method XorLoop(a: array<byte>, pos: nat, length: nat, mask: Mask)
    requires pos + length <= a.Length
    modifies a
    ensures a[pos..pos + length] == Masked(old(a[pos..pos + length]), mask)
    ensures a[..pos] == old(a[..pos]) && a[pos + length..] == old(a[pos + length..])
  {
    ghost var was := a[..];
    for i := 0 to length
      invariant MaskedTo(a[..], was, pos, i, mask)
    {
      ghost var before := a[..];
      MaskedStep(before, was, pos, i, mask);
      XorOne(a, pos + i, mask[i % 4], before);
    }
    MaskedAll(a[..], was, pos, length, mask);
  }

  method XorOne(a: array<byte>, j: nat, m: byte, ghost before: seq<byte>)
    requires j < a.Length && before == a[..]
    modifies a
    ensures a[..] == before[j := Xor(before[j], m)]
  {
    a[j] := Xor(a[j], m);
  }

  // ---------------------------------------------------------------- formatting

  function OptMasked(data: seq<byte>, mask: Option<Mask>): (r: seq<byte>)
    ensures |r| == |data|
  {
    if mask.Some? then Masked(data, mask.value) else data
  }

  /** A 64-bit length, most significant byte first. */
  function Long(n: nat): (r: seq<byte>)
    ensures |r| == 8
  {
    [n / 0x1_00_0000_0000_0000 % 256, n / 0x1_0000_0000_0000 % 256, n / 0x1_00_0000_0000 % 256, n / 0x1_0000_0000 % 256,
     n / 0x1_00_0000 % 256, n / 0x1_0000 % 256, n / 0x100 % 256, n % 256]
  }

  function GetLong(d: seq<byte>): nat
    requires |d| >= 8
  {
    d[0] as int * 0x1_00_0000_0000_0000 + d[1] as int * 0x1_0000_0000_0000 + d[2] as int * 0x1_00_0000_0000
    + d[3] as int * 0x1_0000_0000 + d[4] as int * 0x1_00_0000 + d[5] as int * 0x1_0000 + d[6] as int * 0x100 + d[7] as int
  }

  lemma LongRoundTrip(n: nat)
    requires n < SIZE_MAX_PLUS_1
    ensures GetLong(Long(n)) == n
  {
    TwoWords(n);
    LowWord(n);
    LowWord(n / 0x1_0000_0000);
    HighAndLow(n);
  }

  lemma TwoWords(n: nat)
    ensures GetLong(Long(n)) == LowWordOf(n / 0x1_0000_0000) * 0x1_0000_0000 + LowWordOf(n)
  {
    Shift40(n);
    Shift48(n);
    Shift56(n);
    GetTwoWords(Long(n), LowWordOf(n / 0x1_0000_0000), LowWordOf(n));
  }

  lemma HighAndLow(n: nat)
    requires n < SIZE_MAX_PLUS_1
    ensures n / 0x1_0000_0000 % 0x1_0000_0000 * 0x1_0000_0000 + n % 0x1_0000_0000 == n
  {
  }

  function LowWordOf(n: nat): nat {
    n / 0x1_00_0000 % 256 * 0x1_00_0000 + n / 0x1_0000 % 256 * 0x1_0000 + n / 0x100 % 256 * 0x100 + n % 256
  }

  lemma GetTwoWords(d: seq<byte>, high: nat, low: nat)
    requires |d| == 8
    requires high == d[0] as int * 0x1_00_0000 + d[1] as int * 0x1_0000 + d[2] as int * 0x100 + d[3] as int
    requires low == d[4] as int * 0x1_00_0000 + d[5] as int * 0x1_0000 + d[6] as int * 0x100 + d[7] as int
    ensures GetLong(d) == high * 0x1_0000_0000 + low
  {
  }

  /** The last four digits of a number in base 256. */
  lemma LowWord(n: nat)
    ensures LowWordOf(n) == n % 0x1_0000_0000
  {
    Shift16(n);
    Shift24(n);
    Shift32(n);
    FourDigits(n);
  }

  lemma FourDigits(n: nat)
    ensures n == n / 0x100 / 0x100 / 0x100 / 0x100 * 0x1_0000_0000 + n / 0x100 / 0x100 / 0x100 % 256 * 0x1_00_0000
                 + n / 0x100 / 0x100 % 256 * 0x1_0000 + n / 0x100 % 256 * 0x100 + n % 256
  {
  }

  lemma Shift16(n: nat)
    ensures n / 0x1_0000 == n / 0x100 / 0x100
  {
  }

  lemma Shift24(n: nat)
    ensures n / 0x1_00_0000 == n / 0x1_0000 / 0x100
  {
  }

  lemma Shift32(n: nat)
    ensures n / 0x1_0000_0000 == n / 0x1_00_0000 / 0x100
  {
  }

  lemma Shift40(n: nat)
    ensures n / 0x1_00_0000_0000 == n / 0x1_0000_0000 / 0x100
  {
  }

  lemma Shift48(n: nat)
    ensures n / 0x1_0000_0000_0000 == n / 0x1_0000_0000 / 0x1_0000
  {
  }

  lemma Shift56(n: nat)
    ensures n / 0x1_00_0000_0000_0000 == n / 0x1_0000_0000 / 0x1_00_0000
  {
  }

  /** The second header byte and the extended length. */
  function LengthField(length: nat, masked: bool): seq<byte> {
    var flag := if masked then MASKED else 0;
    if length > 0xFFFF then [127 + flag] + Long(length)
    else if length >= 126 then [126 + flag] + Short(length)
    else [length + flag]
  }

  function FormatFrame(flags: byte, mask: Option<Mask>, payload: seq<byte>): seq<byte> {
    [flags] + LengthField(|payload|, mask.Some?) + (if mask.Some? then mask.value else []) + OptMasked(payload, mask)
  }

  // ---------------------------------------------------------------- parsing

  /** What `ws_parse_frame` stores. */
  datatype Header = Header(fin: bool, opcode: nat, masked: bool, payloadLength: nat, maskOffset: nat, payloadOffset: nat)

  datatype ParseResult = More(hint: nat) | Got(header: Header, length: nat)

  function ExtSize(len7: nat): nat {
    if len7 == 126 then 2 else if len7 == 127 then 8 else 0
  }

  /** The frame length is a `size_t`, so its sum wraps. */
  function ParseFrame(d: seq<byte>): ParseResult {
    if |d| < 2 then More(2)
    else
      var masked := d[1] >= 128;
      var len7 := d[1] % 128;
      var maskOffset := 2 + ExtSize(len7);
      var payloadOffset := maskOffset + (if masked then 4 else 0);
      if |d| < payloadOffset then More(payloadOffset)
      else
        var length := if len7 == 126 then GetShort(d[2..]) else if len7 == 127 then GetLong(d[2..]) else len7;
        var expected := (payloadOffset + length) % SIZE_MAX_PLUS_1;
        if |d| < expected then More(expected)
        else Got(Header(d[0] >= 128, d[0] % 16, masked, length, maskOffset, payloadOffset), expected)
  }

  /** A frame as the application means it: the payload unmasked. */
  datatype Frame = Frame(fin: bool, opcode: nat, mask: Option<Mask>, payload: seq<byte>)

  /** The frame at the start of `d`. */
  function FrameAt(d: seq<byte>, h: Header): Frame
    requires h.masked ==> h.maskOffset + 4 <= |d|
    requires h.payloadOffset + h.payloadLength <= |d|
  {
    var raw := d[h.payloadOffset..h.payloadOffset + h.payloadLength];
    var mask := if h.masked then Some(d[h.maskOffset..h.maskOffset + 4]) else None;
    Frame(h.fin, h.opcode, mask, OptMasked(raw, mask))
  }

  /** No header that parses to the same payload length is shorter than the one written. */
  lemma LengthFieldIsMinimal(d: seq<byte>)
    requires ParseFrame(d).Got?
    ensures var h := ParseFrame(d).header; HeaderSize(h.payloadLength, h.masked) <= h.payloadOffset
  {
    if d[1] % 128 == 126 {
      assert GetShort(d[2..]) < 0x1_0000;
    }
  }

  function HeaderSize(length: nat, masked: bool): nat {
    1 + |LengthField(length, masked)| + (if masked then 4 else 0)
  }

  /** The extended length, read back. */
  lemma LengthFieldReads(flags: byte, length: nat, masked: bool, tail: seq<byte>)
    requires length < SIZE_MAX_PLUS_1
    ensures var d := [flags] + LengthField(length, masked) + tail;
            && |d| >= 2
            && (d[1] >= 128 <==> masked)
            && 2 + ExtSize(d[1] % 128) == 1 + |LengthField(length, masked)|
            && (d[1] % 128 == 126 ==> GetShort(d[2..]) == length)
            && (d[1] % 128 == 127 ==> GetLong(d[2..]) == length)
            && (d[1] % 128 < 126 ==> d[1] % 128 == length)
  {
    var d := [flags] + LengthField(length, masked) + tail;
    if length > 0xFFFF {
      LongRoundTrip(length);
      assert d[2..10] == Long(length);
      assert forall i :: 0 <= i < 8 ==> d[2..][i] == d[2..10][i];
    }
  }

  function HeaderOf(flags: byte, length: nat, masked: bool): Header {
    var n := HeaderSize(length, masked);
    Header(flags >= 128, flags % 16, masked, length, if masked then n - 4 else n, n)
  }

  /** The header comes back as soon as `d` starts with it; what else `d` holds only decides whether to wait. */
  lemma HeaderReads(flags: byte, length: nat, mask: Option<Mask>, tail: seq<byte>)
    requires length + 14 < SIZE_MAX_PLUS_1
    ensures var d := [flags] + LengthField(length, mask.Some?) + ((if mask.Some? then mask.value else []) + tail);
            var total := HeaderSize(length, mask.Some?) + length;
            ParseFrame(d) == if |d| < total then More(total) else Got(HeaderOf(flags, length, mask.Some?), total)
  {
    var m := if mask.Some? then mask.value else [];
    LengthFieldReads(flags, length, mask.Some?, m + tail);
    NoWrap(HeaderSize(length, mask.Some?), length);
  }

  lemma NoWrap(header: nat, length: nat)
    requires header + length < SIZE_MAX_PLUS_1
    ensures (header + length) % SIZE_MAX_PLUS_1 == header + length
  {
  }

  lemma FormatParts(flags: byte, mask: Option<Mask>, payload: seq<byte>, rest: seq<byte>)
    ensures FormatFrame(flags, mask, payload) + rest == [flags] + LengthField(|payload|, mask.Some?)
            + ((if mask.Some? then mask.value else []) + (OptMasked(payload, mask) + rest))
    ensures |FormatFrame(flags, mask, payload)| == HeaderSize(|payload|, mask.Some?) + |payload|
  {
    Regroup4([flags] + LengthField(|payload|, mask.Some?), if mask.Some? then mask.value else [], OptMasked(payload, mask), rest);
  }

  lemma Regroup4(a: seq<byte>, m: seq<byte>, b: seq<byte>, rest: seq<byte>)
    ensures a + m + b + rest == a + (m + (b + rest)) && |a + m + b| == |a| + |m| + |b|
  {
  }

  /** Where mask and payload are. */
  lemma MaskAndBody(head: seq<byte>, mask: seq<byte>, body: seq<byte>, rest: seq<byte>)
    ensures var d := head + (mask + (body + rest));
            && d[|head|..|head| + |mask|] == mask
            && d[|head| + |mask|..|head| + |mask| + |body|] == body
  {
  }

  lemma FrameReads(flags: byte, mask: Option<Mask>, payload: seq<byte>, rest: seq<byte>)
    ensures var d := FormatFrame(flags, mask, payload) + rest;
            var h := HeaderOf(flags, |payload|, mask.Some?);
            && h.payloadOffset + |payload| <= |d|
            && FrameAt(d, h) == Frame(flags >= 128, flags % 16, mask, payload)
  {
    FormatParts(flags, mask, payload, rest);
    MaskAndBody([flags] + LengthField(|payload|, mask.Some?), if mask.Some? then mask.value else [],
           OptMasked(payload, mask), rest);
    if mask.Some? {
      MaskedTwice(payload, mask.value);
    }
  }

  /** Formatting, then parsing: everything comes back, whatever follows. */
  lemma FrameRoundTrip(flags: byte, mask: Option<Mask>, payload: seq<byte>, rest: seq<byte>)
    requires |payload| + 14 < SIZE_MAX_PLUS_1
    ensures var f := FormatFrame(flags, mask, payload);
            var h := HeaderOf(flags, |payload|, mask.Some?);
            && |f| == h.payloadOffset + |payload|
            && ParseFrame(f + rest) == Got(h, |f|)
            && FrameAt(f + rest, h) == Frame(flags >= 128, flags % 16, mask, payload)
  {
    FormatParts(flags, mask, payload, rest);
    HeaderReads(flags, |payload|, mask, OptMasked(payload, mask) + rest);
    FrameReads(flags, mask, payload, rest);
  }

  /** A parsed frame does not depend on the bytes that follow. */
  lemma ParseStable(d: seq<byte>, e: seq<byte>)
    requires ParseFrame(d).Got?
    ensures ParseFrame(d + e) == ParseFrame(d)
    ensures ParseFrame(d).length <= |d|
    ensures ParseFrame(d).header.payloadOffset <= |d|
    ensures ParseFrame(d).header.masked ==> ParseFrame(d).header.maskOffset + 4 <= |d|
  {
    var len7 := d[1] % 128;
    assert len7 == 126 ==> (d + e)[2] == d[2] && (d + e)[3] == d[3];
    assert len7 == 127 ==> forall i :: 2 <= i < 10 ==> (d + e)[i] == d[i];
  }

  /** The two header bytes and the extended length decide; a cut before the mask ends asks for the header. */
  lemma CutInHeader(flags: byte, length: nat, masked: bool, tail: seq<byte>, k: nat)
    requires length + 14 < SIZE_MAX_PLUS_1 && 2 <= k < HeaderSize(length, masked)
    requires |tail| >= if masked then 4 else 0
    ensures ParseFrame(([flags] + LengthField(length, masked) + tail)[..k]) == More(HeaderSize(length, masked))
  {
    LengthFieldReads(flags, length, masked, tail);
  }

  /** A strict prefix asks for more, and for no more than the frame has. */
  lemma StrictPrefixNeedsMore(flags: byte, mask: Option<Mask>, payload: seq<byte>, k: nat)
    requires |payload| + 14 < SIZE_MAX_PLUS_1 && k < |FormatFrame(flags, mask, payload)|
    ensures var p := ParseFrame(FormatFrame(flags, mask, payload)[..k]);
            p.More? && k < p.hint <= |FormatFrame(flags, mask, payload)|
  {
    var n := HeaderSize(|payload|, mask.Some?);
    var body := OptMasked(payload, mask);
    var m := if mask.Some? then mask.value else [];
    FormatParts(flags, mask, payload, []);
    var f := [flags] + LengthField(|payload|, mask.Some?) + (m + (body + []));
    assert FormatFrame(flags, mask, payload) + [] == FormatFrame(flags, mask, payload);
    if 2 <= k < n {
      CutInHeader(flags, |payload|, mask.Some?, m + (body + []), k);
    } else if n <= k {
      HeaderReads(flags, |payload|, mask, body[..k - n]);
      assert f[..k] == [flags] + LengthField(|payload|, mask.Some?) + (m + body[..k - n]);
    }
  }
}
