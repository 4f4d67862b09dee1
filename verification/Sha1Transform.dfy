/** The compression of one block: FIPS 180-4 section 6.1.2, and the unrolled in-place code that computes it. */
module Sha1Transform {

  type word = bv32

  // ---------------------------------------------------------------- FIPS 180-4

  function Rotl1(x: word): word { (x << 1) | (x >> 31) }
  function Rotl5(x: word): word { (x << 5) | (x >> 27) }
  function Rotl30(x: word): word { (x << 30) | (x >> 2) }

  function Ch(x: word, y: word, z: word): word { (x & y) ^ (!x & z) }
  function Parity(x: word, y: word, z: word): word { x ^ y ^ z }
  function Maj(x: word, y: word, z: word): word { (x & y) ^ (x & z) ^ (y & z) }

  /** Section 4.1.1. */
  function F(t: nat, x: word, y: word, z: word): word {
    if t < 20 then Ch(x, y, z)
    else if t < 40 then Parity(x, y, z)
    else if t < 60 then Maj(x, y, z)
    else Parity(x, y, z)
  }

  /** Section 4.2.1. */
  function K(t: nat): word {
    if t < 20 then 0x5A827999 else if t < 40 then 0x6ED9EBA1 else if t < 60 then 0x8F1BBCDC else 0xCA62C1D6
  }

  /** `k` is the floor of two to the 30th times the square root of `n`. */
  predicate IsRoot(k: nat, n: nat) {
    k * k <= n * 0x1000_0000_0000_0000 < (k + 1) * (k + 1)
  }

  /** Where the constants come from: the square roots of 2, 3, 5 and 10. */
  lemma ConstantsAreRoots(t: nat)
    ensures IsRoot(K(t) as nat, if t < 20 then 2 else if t < 40 then 3 else if t < 60 then 5 else 10)
  {
    assert (0x5A827999 as word) as nat == 0x5A827999 && (0x6ED9EBA1 as word) as nat == 0x6ED9EBA1;
    assert (0x8F1BBCDC as word) as nat == 0x8F1BBCDC && (0xCA62C1D6 as word) as nat == 0xCA62C1D6;
  }

  /** No two numbers are the floor of the same root. */
  lemma OneRoot(k: nat, l: nat, n: nat)
    requires IsRoot(k, n) && IsRoot(l, n)
    ensures k == l
  {
    if k < l {
      SquaresGrow(k + 1, l);
    } else if l < k {
      SquaresGrow(l + 1, k);
    }
  }

  lemma SquaresGrow(a: nat, b: nat)
    requires a <= b
    ensures a * a <= b * b
  {
    assert a * a <= a * b <= b * b;
  }

  /** A rotation doubles modulo two to the 32nd, and what is lost at the top comes in at the bottom. */
  lemma RotationDoubles(x: word)
    ensures x < 0x8000_0000 ==> Rotl1(x) == x + x
    ensures x >= 0x8000_0000 ==> Rotl1(x) == x + x + 1
  {
  }

  /** The others repeat it. */
  lemma RotationsRepeat(x: word)
    ensures Rotl5(x) == Rotl1(Rotl1(Rotl1(Rotl1(Rotl1(x)))))
    ensures Rotl1(Rotl1(Rotl30(x))) == x
  {
  }

  /** The 80-word message schedule of a 16-word block. */
  function W(m: seq<word>, t: nat): word
    requires |m| == 16
  {
    if t < 16 then m[t] else Rotl1(W(m, t - 3) ^ W(m, t - 8) ^ W(m, t - 14) ^ W(m, t - 16))
  }

  datatype Regs = Regs(a: word, b: word, c: word, d: word, e: word)

  function Sum5(r: word, f: word, e: word, k: word, w: word): word {
    r + f + e + k + w
  }

  /** The temporary word T of step 3. */
  function Temp(a: word, b: word, c: word, d: word, e: word, t: nat, w: word): word {
    Sum5(Rotl5(a), F(t, b, c, d), e, K(t), w)
  }

  function Round(r: Regs, t: nat, w: word): Regs {
    Regs(Temp(r.a, r.b, r.c, r.d, r.e, t, w), r.a, Rotl30(r.b), r.c, r.d)
  }

  /** The working variables after `t` rounds. */
  function Rounds(h: Regs, m: seq<word>, t: nat): Regs
    requires |m| == 16
  {
    if t == 0 then h else Round(Rounds(h, m, t - 1), t - 1, W(m, t - 1))
  }

  /** Addition modulo two to the 32nd. */
  function Plus(x: word, y: word): word {
    x + y
  }

  function Sum(h: Regs, r: Regs): Regs {
    Regs(Plus(h.a, r.a), Plus(h.b, r.b), Plus(h.c, r.c), Plus(h.d, r.d), Plus(h.e, r.e))
  }

  function BigEndian(b0: bv8, b1: bv8, b2: bv8, b3: bv8): word {
    (b0 as word << 24) | (b1 as word << 16) | (b2 as word << 8) | b3 as word
  }

  /** The block as big-endian words (section 5.2.1). */
  function Words(block: seq<bv8>): (m: seq<word>)
    requires |block| == 64
    ensures |m| == 16
  {
    seq(16, i requires 0 <= i < 16 => BigEndian(block[4 * i], block[4 * i + 1], block[4 * i + 2], block[4 * i + 3]))
  }

  function Compress(h: Regs, block: seq<bv8>): Regs
    requires |block| == 64
  {
    Sum(h, Rounds(h, Words(block), 80))
  }

  // ---------------------------------------------------------------- the code's own forms

  function LittleEndian(b0: bv8, b1: bv8, b2: bv8, b3: bv8): word {
    (b3 as word << 24) | (b2 as word << 16) | (b1 as word << 8) | b0 as word
  }

  /** `blk0` on a little-endian machine: the byte order of a word reversed by two rotations. */
  function SwapBytes(l: word): word {
    (((l << 24) | (l >> 8)) & 0xFF00FF00) | (((l << 8) | (l >> 24)) & 0x00FF00FF)
  }

  /** The boolean functions as the macros R0 to R4 write them. */
  function Mix(t: nat, w: word, x: word, y: word): word {
    if t < 20 then (w & (x ^ y)) ^ y
    else if t < 40 then w ^ x ^ y
    else if t < 60 then ((w | x) & y) | (w & x)
    else w ^ x ^ y
  }

  lemma SwapReadsBigEndian(b0: bv8, b1: bv8, b2: bv8, b3: bv8)
    ensures SwapBytes(LittleEndian(b0, b1, b2, b3)) == BigEndian(b0, b1, b2, b3)
  {
  }

  lemma ChForm(w: word, x: word, y: word)
    ensures (w & (x ^ y)) ^ y == Ch(w, x, y)
  {
  }

  lemma MajForm(w: word, x: word, y: word)
    ensures ((w | x) & y) | (w & x) == Maj(w, x, y)
  {
  }

  lemma MixIsF(t: nat, w: word, x: word, y: word)
    ensures Mix(t, w, x, y) == F(t, w, x, y)
  {
    ChForm(w, x, y);
    MajForm(w, x, y);
  }

  /** The order in which the macros add. */
  function MacroSum(z: word, f: word, blk: word, k: word, r: word): word {
    z + (f + blk + k + r)
  }

  lemma SumOrder(z: word, f: word, blk: word, k: word, r: word)
    ensures MacroSum(z, f, blk, k, r) == Sum5(r, f, z, k, blk)
  {
  }

  /** The constants as the macros write them. */
  function Constant(i: nat): word {
    if i < 20 then 0x5A827999 else if i < 40 then 0x6ED9EBA1 else if i < 60 then 0x8F1BBCDC else 0xCA62C1D6
  }

  /** The new value of `z`. */
  function Accumulate(v: word, w: word, x: word, y: word, z: word, i: nat, blk: word): word {
    MacroSum(z, Mix(i, w, x, y), blk, Constant(i), (v << 5) | (v >> 27))
  }

  lemma AccumulateIsTemp(v: word, w: word, x: word, y: word, z: word, i: nat, blk: word)
    ensures Accumulate(v, w, x, y, z, i, blk) == Temp(v, w, x, y, z, i, blk)
  {
    MixIsF(i, w, x, y);
    SumOrder(z, F(i, w, x, y), blk, K(i), Rotl5(v));
  }

  /** Before round `t` the circular block holds the last 16 schedule words, and input words not yet used. */
  ghost predicate Circular(block: seq<word>, m: seq<word>, t: nat)
    requires |m| == 16
  {
    && |block| == 16
    && (forall k :: 0 <= k < t && t - 16 <= k ==> block[k % 16] == W(m, k))
    && (forall j :: t <= j < 16 ==> SwapBytes(block[j]) == m[j])
  }

  lemma SixteenOn(x: nat)
    ensures (x + 16) % 16 == x % 16
  {
  }

  /** No two of sixteen places in a row are the same. */
  lemma Apart(k: nat, i: nat)
    requires k < i < k + 16
    ensures k % 16 != i % 16
  {
  }

  lemma WordAt(block: seq<word>, m: seq<word>, i: nat, k: nat)
    requires |m| == 16 && Circular(block, m, i) && k < i <= k + 16
    ensures block[k % 16] == W(m, k)
  {
  }

  lemma ScheduleNext(m: seq<word>, i: nat, a: word, b: word, c: word, d: word)
    requires |m| == 16 && i >= 16
    requires a == W(m, i - 3) && b == W(m, i - 8) && c == W(m, i - 14) && d == W(m, i - 16)
    ensures Rotl1(a ^ b ^ c ^ d) == W(m, i)
  {
  }

  /** Where the words are that the next one is made of. */
  lemma CircularReads(block: seq<word>, m: seq<word>, i: nat)
    requires |m| == 16 && Circular(block, m, i) && i >= 16
    ensures block[(i + 13) % 16] == W(m, i - 3) && block[(i + 8) % 16] == W(m, i - 8)
    ensures block[(i + 2) % 16] == W(m, i - 14) && block[i % 16] == W(m, i - 16)
  {
    SixteenOn(i - 3);
    SixteenOn(i - 8);
    SixteenOn(i - 14);
    SixteenOn(i - 16);
    WordAt(block, m, i, i - 3);
    WordAt(block, m, i, i - 8);
    WordAt(block, m, i, i - 14);
    WordAt(block, m, i, i - 16);
  }

  /** The next word takes the place of the oldest. */
  lemma CircularNext(block: seq<word>, m: seq<word>, i: nat)
    requires |m| == 16 && Circular(block, m, i)
    ensures Circular(block[i % 16 := W(m, i)], m, i + 1)
  {
    forall k | 0 <= k < i && i - 15 <= k ensures block[i % 16 := W(m, i)][k % 16] == W(m, k) {
      Apart(k, i);
      WordAt(block, m, i, k);
    }
  }

  /** rol(value, 1). */
  method Rotate(x: word) returns (y: word)
    ensures y == Rotl1(x)
  {
    y := (x << 1) | (x >> 31);
  }

  /** `blk0(i)` and `blk(i)`: computes schedule word `i` into its place. */
  method Expand(block: array<word>, i: nat, ghost m: seq<word>) returns (w: word)
    requires |m| == 16 && block.Length == 16 && Circular(block[..], m, i)
    modifies block
    ensures w == W(m, i) && Circular(block[..], m, i + 1)
  {
    ghost var was := block[..];
    if i < 16 {
      w := SwapBytes(block[i]);
      assert was[i] == block[i];
    } else {
      CircularReads(was, m, i);
      var a, b, c, d := block[(i + 13) % 16], block[(i + 8) % 16], block[(i + 2) % 16], block[i % 16];
      ScheduleNext(m, i, a, b, c, d);
      w := Rotate(a ^ b ^ c ^ d);
    }
    CircularNext(was, m, i);
    block[i % 16] := w;
    assert block[..] == was[i % 16 := w];
  }

  /** The macros R0 to R4: they change `z` and `w` only. */
  method Macro(block: array<word>, v: word, w: word, x: word, y: word, z: word, i: nat, ghost m: seq<word>)
    returns (w': word, z': word)
    requires |m| == 16 && block.Length == 16 && Circular(block[..], m, i)
    modifies block
    ensures Circular(block[..], m, i + 1)
    ensures Regs(z', v, w', x, y) == Round(Regs(v, w, x, y, z), i, W(m, i))
  {
    var blk := Expand(block, i, m);
    w', z' := (w << 30) | (w >> 2), Accumulate(v, w, x, y, z, i, blk);
    AccumulateIsTemp(v, w, x, y, z, i, blk);
  }

  /** Five macros in a row, with the arguments rotated as in the unrolled code: afterwards the names fit again. */
  method FiveRounds(block: array<word>, r: Regs, i: nat, ghost h: Regs, ghost m: seq<word>) returns (s: Regs)
    requires |m| == 16 && block.Length == 16 && Circular(block[..], m, i)
    requires r == Rounds(h, m, i)
    modifies block
    ensures Circular(block[..], m, i + 5)
    ensures s == Rounds(h, m, i + 5)
  {
    var a, b, c, d, e := r.a, r.b, r.c, r.d, r.e;
    b, e := Macro(block, a, b, c, d, e, i, m);
    assert Regs(e, a, b, c, d) == Rounds(h, m, i + 1);
    a, d := Macro(block, e, a, b, c, d, i + 1, m);
    assert Regs(d, e, a, b, c) == Rounds(h, m, i + 2);
    e, c := Macro(block, d, e, a, b, c, i + 2, m);
    assert Regs(c, d, e, a, b) == Rounds(h, m, i + 3);
    d, b := Macro(block, c, d, e, a, b, i + 3, m);
    assert Regs(b, c, d, e, a) == Rounds(h, m, i + 4);
    c, a := Macro(block, b, c, d, e, a, i + 4, m);
    s := Regs(a, b, c, d, e);
  }

  /** Loads the block as the machine sees it, least significant byte first. */
  method Load(buffer: seq<bv8>) returns (block: array<word>)
    requires |buffer| == 64
    ensures fresh(block) && block.Length == 16 && Circular(block[..], Words(buffer), 0)
  {
    block := new word[16];
    for i := 0 to 16
      invariant forall j :: 0 <= j < i ==> SwapBytes(block[j]) == Words(buffer)[j]
    {
      block[i] := LittleEndian(buffer[4 * i], buffer[4 * i + 1], buffer[4 * i + 2], buffer[4 * i + 3]);
      SwapReadsBigEndian(buffer[4 * i], buffer[4 * i + 1], buffer[4 * i + 2], buffer[4 * i + 3]);
    }
  }

  ghost function StateOf(state: array<word>): Regs
    requires state.Length == 5
    reads state
  {
    Regs(state[0], state[1], state[2], state[3], state[4])
  }

  /** The 80 unrolled rounds, five at a time. */
  method AllRounds(block: array<word>, h: Regs, ghost m: seq<word>) returns (r: Regs)
    requires |m| == 16 && block.Length == 16 && Circular(block[..], m, 0)
    modifies block
    ensures r == Rounds(h, m, 80)
  {
    r := h;
    for j := 0 to 16
      invariant Circular(block[..], m, 5 * j)
      invariant r == Rounds(h, m, 5 * j)
    {
      r := FiveRounds(block, r, 5 * j, h, m);
    }
  }

  method Transform(state: array<word>, buffer: seq<bv8>)
    requires state.Length == 5 && |buffer| == 64
    modifies state
    ensures StateOf(state) == Compress(old(StateOf(state)), buffer)
  {
    var block := Load(buffer);
    var h := Regs(state[0], state[1], state[2], state[3], state[4]);
    var r := AllRounds(block, h, Words(buffer));
    AddState(state, r);
  }

  method AddState(state: array<word>, r: Regs)
    requires state.Length == 5
    modifies state
    ensures StateOf(state) == Sum(old(StateOf(state)), r)
    ensures state[0] == Plus(old(state[0]), r.a) && state[1] == Plus(old(state[1]), r.b)
    ensures state[2] == Plus(old(state[2]), r.c) && state[3] == Plus(old(state[3]), r.d)
    ensures state[4] == Plus(old(state[4]), r.e)
  {
    state[0] := Plus(state[0], r.a);
    state[1] := Plus(state[1], r.b);
    state[2] := Plus(state[2], r.c);
    state[3] := Plus(state[3], r.d);
    state[4] := Plus(state[4], r.e);
  }
}
