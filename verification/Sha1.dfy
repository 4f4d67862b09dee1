/** Streaming SHA-1: block buffering, the two-word bit counter and the final padding. */
module Sha1 {
  import opened Sha1Transform

  const TWO29 := 0x2000_0000
  const TWO32 := 0x1_0000_0000
  const TWO64 := 0x1_0000_0000_0000_0000

  const IV := Regs(0x67452301, 0xEFCDAB89, 0x98BADCFE, 0x10325476, 0xC3D2E1F0)

  // ---------------------------------------------------------------- FIPS 180-4

  /** Section 6.1.2: the compressions of all complete blocks, in order. */
  function HashBlocks(h: Regs, data: seq<bv8>): Regs
    decreases |data|
  {
    if |data| < 64 then h else HashBlocks(Compress(h, data[..64]), data[64..])
  }

  function Zeros(n: nat): seq<bv8> {
    seq(n, _ => 0)
  }

  /** The conversion to `unsigned char`: the low eight bits. */
  function Octet(n: nat): bv8 {
    if n == 0 then 0 else (Octet(n / 2) << 1) | (if n % 2 == 1 then 1 else 0)
  }

  /** A 64-bit number, most significant byte first. */
  function Bytes64(v: nat): (r: seq<bv8>)
    ensures |r| == 8
  {
    [Octet(v / 0x1_00_0000_0000_0000 % 256), Octet(v / 0x1_0000_0000_0000 % 256),
     Octet(v / 0x1_00_0000_0000 % 256), Octet(v / 0x1_0000_0000 % 256),
     Octet(v / 0x1_00_0000 % 256), Octet(v / 0x1_0000 % 256), Octet(v / 0x100 % 256), Octet(v % 256)]
  }

  /** Number of zero bytes behind the 0x80 byte: the smallest that leaves 8 bytes of the last block. */
  function ZeroCount(len: nat): (k: nat)
    ensures (len + 1 + k) % 64 == 56 && k < 64
  {
    (119 - len % 64) % 64
  }

  function PadPrefix(msg: seq<bv8>, k: nat): seq<bv8> {
    msg + [0x80] + Zeros(k)
  }

  /** Section 5.1.1.  The standard admits messages of less than 2^64 bits only, where the modulo changes nothing. */
  function Padded(msg: seq<bv8>): seq<bv8> {
    PadPrefix(msg, ZeroCount(|msg|)) + Bytes64(8 * |msg| % TWO64)
  }

  function WordBytes(w: word): seq<bv8> {
    [((w >> 24) & 0xFF) as bv8, ((w >> 16) & 0xFF) as bv8, ((w >> 8) & 0xFF) as bv8, (w & 0xFF) as bv8]
  }

  function DigestOf(h: Regs): seq<bv8> {
    WordBytes(h.a) + WordBytes(h.b) + WordBytes(h.c) + WordBytes(h.d) + WordBytes(h.e)
  }

  /** The message digest, in one go. */
  function Digest(msg: seq<bv8>): seq<bv8> {
    DigestOf(HashBlocks(IV, Padded(msg)))
  }

  // ---------------------------------------------------------------- complete blocks and the remainder

  function Whole(n: nat): (w: nat)
    ensures w <= n < w + 64 && w % 64 == 0 && n - w == n % 64
  {
    n / 64 * 64
  }

  lemma {:induction false} HashBlocksConcat(h: Regs, a: seq<bv8>, b: seq<bv8>)
    requires |a| % 64 == 0
    ensures HashBlocks(h, a + b) == HashBlocks(HashBlocks(h, a), b)
    decreases |a|
  {
    if a == [] {
      assert a + b == b;
    } else {
      assert (a + b)[..64] == a[..64];
      assert (a + b)[64..] == a[64..] + b;
      HashBlocksConcat(Compress(h, a[..64]), a[64..], b);
    }
  }

  /** One more block behind complete blocks. */
  lemma HashOneMore(h: Regs, a: seq<bv8>, block: seq<bv8>)
    requires |a| % 64 == 0 && |block| == 64
    ensures HashBlocks(h, a + block) == Compress(HashBlocks(h, a), block)
  {
    HashBlocksConcat(h, a, block);
    assert block[..64] == block && block[64..] == [];
  }

  // ---------------------------------------------------------------- the counter

  /** The code's 32-bit sum, compared with 63, tells the truth exactly when it does not wrap. */
  lemma GuardIsExact(j: nat, len: nat)
    requires j < 64 && len < TWO32
    ensures ((j + len) % TWO32 > 63 <==> j + len > 63) <==> j + len < TWO32
  {
  }

  /** Adding `len` bytes to the counter words, with the carry the code computes. */
  lemma CounterAdds(c0: nat, c1: nat, n: nat, len: nat)
    requires c0 < TWO32 && c1 < TWO32 && len < TWO32
    requires c1 * TWO32 + c0 == 8 * n % TWO64
    ensures var d0 := (c0 + len * 8 % TWO32) % TWO32;
            var d1 := (c1 + (if d0 < c0 then 1 else 0) + len / TWO29) % TWO32;
            d1 * TWO32 + d0 == 8 * (n + len) % TWO64
  {
    var lo, hi := len * 8 % TWO32, len / TWO29;
    var d0 := (c0 + lo) % TWO32;
    var carry := if d0 < c0 then 1 else 0;
    assert len * 8 == hi * TWO32 + lo;
    assert c0 + lo == carry * TWO32 + d0;
    var s := c1 + carry + hi;
    var t := if s < TWO32 then s else s - TWO32;
    assert s < 2 * TWO32 && t == s % TWO32;
    var q := 8 * n / TWO64;
    assert 8 * n == q * TWO64 + (c1 * TWO32 + c0);
    assert 8 * (n + len) == q * TWO64 + s * TWO32 + d0;
    assert s * TWO32 == (if s < TWO32 then 0 else TWO64) + t * TWO32;
    assert 8 * (n + len) == (q + if s < TWO32 then 0 else 1) * TWO64 + (t * TWO32 + d0);
    Remainder(8 * (n + len), q + if s < TWO32 then 0 else 1, t * TWO32 + d0);
  }

  lemma Remainder(x: nat, q: nat, r: nat)
    requires x == q * TWO64 + r && r < TWO64
    ensures x % TWO64 == r
  {
  }

  /** The position in the buffer, as the low counter word tells it. */
  lemma CounterPosition(c0: nat, c1: nat, n: nat)
    requires c0 < TWO32 && c1 * TWO32 + c0 == 8 * n % TWO64
    ensures c0 / 8 % 64 == n % 64
  {
    var q := 8 * n / TWO64;
    var k := q * (TWO64 / 512) + c1 * (TWO32 / 512);
    assert 8 * n == 8 * (64 * k) + c0;
    Remainder64(n, k, c0 / 8);
  }

  lemma Remainder64(n: nat, k: nat, r: nat)
    requires n == 64 * k + r
    ensures n % 64 == r % 64
  {
  }

  // ---------------------------------------------------------------- the context

  /** The two counters hold the number of bits of `length` bytes. */
  predicate Counted(count0: nat, count1: nat, length: nat) {
    count1 * TWO32 + count0 == 8 * length % TWO64
  }

  class Sha1Context {
    const state: array<word>
    const buffer: array<bv8>
    var count0: nat
    var count1: nat
    ghost var message: seq<bv8>  // all bytes given so far

    ghost predicate Valid()
      reads this, state, buffer
    {
      && state.Length == 5 && buffer.Length == 64
      && count0 < TWO32 && count1 < TWO32
      && Counted(count0, count1, |message|)
      && StateOf(state) == HashBlocks(IV, message[..Whole(|message|)])
      && buffer[..|message| % 64] == message[Whole(|message|)..]
    }

    constructor ()
      ensures Valid() && message == [] && fresh(state) && fresh(buffer)
    {
      state := new word[5];
      buffer := new bv8[64];
      count0, count1 := 0, 0;
      message := [];
      new;
      state[0] := 0x67452301;
      state[1] := 0xEFCDAB89;
      state[2] := 0x98BADCFE;
      state[3] := 0x10325476;
      state[4] := 0xC3D2E1F0;
    }

    method AddToCount(len: nat) returns (j: nat)
      requires Valid() && len < TWO32
      modifies `count0, `count1
      ensures count0 < TWO32 && count1 < TWO32 && Counted(count0, count1, |message| + len)
      ensures j == |message| % 64
    {
      CounterAdds(count0, count1, |message|, len);
      CounterPosition(count0, count1, |message|);
      j := count0;
      count0 := (count0 + len * 8 % TWO32) % TWO32;
      var carry := if count0 < j then 1 else 0;
      count1 := (count1 + carry + len / TWO29) % TWO32;
      j := j / 8 % 64;
    }

    /** `memcpy` into the buffer. */
    method CopyIn(j: nat, data: seq<bv8>)
      requires buffer.Length == 64 && j + |data| <= 64
      modifies buffer
      ensures buffer[..j] == old(buffer[..j])
      ensures buffer[j..j + |data|] == data
      ensures j == 0 ==> buffer[..|data|] == data
    {
      forall k | 0 <= k < |data| {
        buffer[j + k] := data[k];
      }
    }

    /** The caller must keep the 32-bit sum of buffered and new bytes from wrapping (see GuardIsExact). */
    method Update(data: seq<bv8>)
      requires Valid() && |message| % 64 + |data| < TWO32
      modifies this, state, buffer
      ensures Valid() && message == old(message) + data
    {
      var len := |data|;
      var j := AddToCount(len);
      GuardIsExact(j, len);
      if (j + len) % TWO32 > 63 {
        TakeBlocks(j, data);
      } else {
        KeepBytes(j, data);
      }
      message := message + data;
    }

    /** Too few bytes to complete a block. */
    method KeepBytes(j: nat, data: seq<bv8>)
      requires buffer.Length == 64 && j == |message| % 64 && j + |data| <= 63
      requires buffer[..j] == message[Whole(|message|)..]
      modifies buffer
      ensures HashBlocks(IV, (message + data)[..Whole(|message + data|)]) == HashBlocks(IV, message[..Whole(|message|)])
      ensures buffer[..|message + data| % 64] == (message + data)[Whole(|message + data|)..]
    {
      Appended(message, data);
      CopyIn(j, data);
      assert buffer[..j + |data|] == buffer[..j] + buffer[j..j + |data|];
    }

    /** Completes the buffered block, hashes whole blocks from `data`, and buffers what is left. */
    method TakeBlocks(j: nat, data: seq<bv8>)
      requires state.Length == 5 && buffer.Length == 64 && j == |message| % 64 && j + |data| > 63
      requires StateOf(state) == HashBlocks(IV, message[..Whole(|message|)])
      requires buffer[..j] == message[Whole(|message|)..]
      modifies state, buffer
      ensures StateOf(state) == HashBlocks(IV, (message + data)[..Whole(|message + data|)])
      ensures buffer[..|message + data| % 64] == (message + data)[Whole(|message + data|)..]
    {
      var i := FillBlock(j, data);
      i := HashWholeBlocks(data, i);
      LastBytes(message, data, i);
      CopyIn(0, data[i..]);
    }

    method FillBlock(j: nat, data: seq<bv8>) returns (i: nat)
      requires state.Length == 5 && buffer.Length == 64 && j == |message| % 64 && j + |data| > 63
      requires StateOf(state) == HashBlocks(IV, message[..Whole(|message|)])
      requires buffer[..j] == message[Whole(|message|)..]
      modifies state, buffer
      ensures i == 64 - j && (|message| + i) % 64 == 0
      ensures StateOf(state) == HashBlocks(IV, (message + data)[..|message| + i])
    {
      i := 64 - j;
      CopyIn(j, data[..i]);
      FirstBlock(message, data, buffer[..]);
      Transform(state, buffer[..]);
    }

    method HashWholeBlocks(data: seq<bv8>, start: nat) returns (i: nat)
      requires state.Length == 5 && start <= |data| && (|message| + start) % 64 == 0
      requires StateOf(state) == HashBlocks(IV, (message + data)[..|message| + start])
      modifies state
      ensures i <= |data| < i + 64 && (|message| + i) % 64 == 0
      ensures StateOf(state) == HashBlocks(IV, (message + data)[..|message| + i])
    {
      i := start;
      while i + 63 < |data|
        invariant i <= |data| && (|message| + i) % 64 == 0
        invariant StateOf(state) == HashBlocks(IV, (message + data)[..|message| + i])
      {
        NextBlock(message, data, i);
        Transform(state, data[i..i + 64]);
        i := i + 64;
      }
    }

    /** The 0x80 byte and the loop of zero bytes. */
    method PadZeros()
      requires Valid()
      modifies this, state, buffer
      ensures Valid() && message == PadPrefix(old(message), ZeroCount(|old(message)|))
    {
      ghost var m := message;
      Update([0x80]);
      ghost var k := 0;
      PadNone(m);
      CounterPosition(count0, count1, |message|);
      while count0 / 8 % 64 != 56  // (count[0] & 504) != 448
        invariant Valid() && k <= ZeroCount(|m|)
        invariant message == PadPrefix(m, k)
        invariant count0 / 8 % 64 == |message| % 64
        decreases ZeroCount(|m|) - k
      {
        PadOneMore(m, k);
        Update([0]);
        k := k + 1;
        CounterPosition(count0, count1, |message|);
      }
      PadStops(m, k);
    }

    /** Big-endian bytes of the two counter words. */
    method CountBytes() returns (finalCount: seq<bv8>)
      requires Valid()
      ensures finalCount == Bytes64(8 * |message| % TWO64)
    {
      finalCount := [];
      for i := 0 to 8
        invariant |finalCount| == i
        invariant forall k :: 0 <= k < i ==> finalCount[k] == CountByte(count0, count1, k)
      {
        finalCount := finalCount + [CountByte(count0, count1, i)];
      }
      EightBytes(finalCount, count0, count1);
    }

    /** Hashes the padding: the bit count is taken before it is counted itself. */
    method HashPadding()
      requires Valid()
      modifies this, state, buffer
      ensures Valid()
      ensures StateOf(state) == HashBlocks(IV, Padded(old(message)))
    {
      PaddedIsWhole(message);
      var finalCount := CountBytes();
      PadZeros();
      Update(finalCount);  // completes the last block
    }

    /** The digest of everything given so far; the context is wiped. */
    method Final() returns (digest: seq<bv8>)
      requires Valid()
      modifies this, state, buffer
      ensures digest == Digest(old(message))
    {
      HashPadding();
      digest := DigestOf(Regs(state[0], state[1], state[2], state[3], state[4]));
      forall k | 0 <= k < 5 {
        state[k] := 0;
      }
      forall k | 0 <= k < 64 {
        buffer[k] := 0;
      }
      count0, count1 := 0, 0;
    }
  }

  lemma PadNone(m: seq<bv8>)
    ensures PadPrefix(m, 0) == m + [0x80]
  {
  }

  /** Where the loop goes on, a zero byte is still missing. */
  lemma PadOneMore(m: seq<bv8>, k: nat)
    requires k <= ZeroCount(|m|) && |PadPrefix(m, k)| % 64 != 56
    ensures k < ZeroCount(|m|)
    ensures PadPrefix(m, k) + [0] == PadPrefix(m, k + 1)
  {
    assert Zeros(k) + [0] == Zeros(k + 1);
  }

  lemma PadStops(m: seq<bv8>, k: nat)
    requires k <= ZeroCount(|m|) && |PadPrefix(m, k)| % 64 == 56
    ensures k == ZeroCount(|m|)
  {
    ZeroCountIs(|m|, k);
  }

  lemma ZeroCountIs(n: nat, k: nat)
    requires k <= ZeroCount(n) && (n + 1 + k) % 64 == 56
    ensures k == ZeroCount(n)
  {
    var z := ZeroCount(n);
    assert (n + 1 + z) % 64 == 56 && z < 64;
  }

  lemma BlockEnd(n: nat)
    requires n % 64 == 56
    ensures (n + 8) % 64 == 0
  {
  }

  lemma WholeIsAll(p: seq<bv8>)
    requires |p| % 64 == 0
    ensures p[..Whole(|p|)] == p
  {
  }

  lemma EndsAtBlock(x: seq<bv8>, y: seq<bv8>)
    requires |x| % 64 == 56 && |y| == 8
    ensures (x + y)[..Whole(|x + y|)] == x + y
  {
    BlockEnd(|x|);
    WholeIsAll(x + y);
  }

  /** The padded message consists of complete blocks. */
  lemma PaddedIsWhole(m: seq<bv8>)
    ensures Padded(m)[..Whole(|Padded(m)|)] == Padded(m)
  {
    assert |PadPrefix(m, ZeroCount(|m|))| == |m| + 1 + ZeroCount(|m|);
    EndsAtBlock(PadPrefix(m, ZeroCount(|m|)), Bytes64(8 * |m| % TWO64));
  }

  lemma FirstBlock(m: seq<bv8>, data: seq<bv8>, block: seq<bv8>)
    requires |m| % 64 + |data| >= 64 && |block| == 64
    requires block[..|m| % 64] == m[Whole(|m|)..] && block[|m| % 64..] == data[..64 - |m| % 64]
    ensures var i := 64 - |m| % 64;
            && (|m| + i) % 64 == 0
            && HashBlocks(IV, (m + data)[..|m| + i]) == Compress(HashBlocks(IV, m[..Whole(|m|)]), block)
  {
    HashOneMore(IV, m[..Whole(|m|)], block);
    assert m[..Whole(|m|)] + block == (m + data)[..Whole(|m|) + 64];
  }

  lemma NextBlock(m: seq<bv8>, data: seq<bv8>, i: nat)
    requires (|m| + i) % 64 == 0 && i + 64 <= |data|
    ensures (|m| + (i + 64)) % 64 == 0
    ensures HashBlocks(IV, (m + data)[..|m| + (i + 64)])
         == Compress(HashBlocks(IV, (m + data)[..|m| + i]), data[i..i + 64])
  {
    HashOneMore(IV, (m + data)[..|m| + i], data[i..i + 64]);
    assert (m + data)[..|m| + i] + data[i..i + 64] == (m + data)[..|m| + (i + 64)];
  }

  lemma LastBytes(m: seq<bv8>, data: seq<bv8>, i: nat)
    requires (|m| + i) % 64 == 0 && i <= |data| < i + 64
    ensures Whole(|m + data|) == |m| + i && |m + data| % 64 == |data| - i
    ensures (m + data)[|m| + i..] == data[i..]
  {
  }

  /** Data that does not complete a block. */
  lemma Appended(m: seq<bv8>, data: seq<bv8>)
    requires |m| % 64 + |data| < 64
    ensures Whole(|m + data|) == Whole(|m|)
    ensures (m + data)[..Whole(|m|)] == m[..Whole(|m|)]
    ensures (m + data)[Whole(|m|)..] == m[Whole(|m|)..] + data
  {
  }

  function CountByte(c0: nat, c1: nat, i: nat): bv8
    requires i < 8
  {
    var c := if i >= 4 then c0 else c1;
    var k := i % 4;
    Octet((if k == 0 then c / 0x100_0000 else if k == 1 then c / 0x1_0000 else if k == 2 then c / 0x100 else c) % 256)
  }

  lemma CountBytesAre64(c0: nat, c1: nat)
    requires c0 < TWO32 && c1 < TWO32
    ensures [CountByte(c0, c1, 0), CountByte(c0, c1, 1), CountByte(c0, c1, 2), CountByte(c0, c1, 3),
             CountByte(c0, c1, 4), CountByte(c0, c1, 5), CountByte(c0, c1, 6), CountByte(c0, c1, 7)]
         == Bytes64(c1 * TWO32 + c0)
  {
    HighBytes(c0, c1);
    LowBytes(c0, c1);
  }

  lemma EightBytes(f: seq<bv8>, c0: nat, c1: nat)
    requires c0 < TWO32 && c1 < TWO32
    requires |f| == 8 && forall k :: 0 <= k < 8 ==> f[k] == CountByte(c0, c1, k)
    ensures f == Bytes64(c1 * TWO32 + c0)
  {
    CountBytesAre64(c0, c1);
    assert f == [f[0], f[1], f[2], f[3], f[4], f[5], f[6], f[7]];
  }

  lemma HighBytes(c0: nat, c1: nat)
    requires c0 < TWO32
    ensures var v := c1 * TWO32 + c0;
            && v / 0x1_0000_0000 == c1 && v / 0x1_00_0000_0000 == c1 / 0x100
            && v / 0x1_0000_0000_0000 == c1 / 0x1_0000 && v / 0x1_00_0000_0000_0000 == c1 / 0x100_0000
  {
  }

  lemma LowBytes(c0: nat, c1: nat)
    ensures var v := c1 * TWO32 + c0;
            && v % 256 == c0 % 256 && v / 0x100 % 256 == c0 / 0x100 % 256
            && v / 0x1_0000 % 256 == c0 / 0x1_0000 % 256 && v / 0x1_00_0000 % 256 == c0 / 0x1_00_0000 % 256
  {
    var v := c1 * TWO32 + c0;
    SameByte(v, c0, c1 * 0x1_00_0000);
    assert v / 0x100 == c0 / 0x100 + c1 * 0x1_00_0000;
    SameByte(v / 0x100, c0 / 0x100, c1 * 0x1_0000);
    assert v / 0x1_0000 == c0 / 0x1_0000 + c1 * 0x1_0000;
    SameByte(v / 0x1_0000, c0 / 0x1_0000, c1 * 0x100);
    assert v / 0x1_00_0000 == c0 / 0x1_00_0000 + c1 * 0x100;
    SameByte(v / 0x1_00_0000, c0 / 0x1_00_0000, c1);
  }

  lemma SameByte(x: nat, y: nat, k: nat)
    requires x == y + k * 256
    ensures x % 256 == y % 256
  {
  }

  /** `SHA1`: one byte at a time. */
  method Sha1(str: seq<bv8>) returns (hash: seq<bv8>)
    requires |str| < TWO32
    ensures hash == Digest(str)
  {
    var ctx := new Sha1Context();
    for i := 0 to |str|
      invariant ctx.Valid() && ctx.message == str[..i] && fresh(ctx) && fresh(ctx.state) && fresh(ctx.buffer)
    {
      ctx.Update([str[i]]);
      assert str[..i] + [str[i]] == str[..i + 1];
    }
    assert str[..|str|] == str;
    hash := ctx.Final();
  }
}
