/** Base64 (RFC 4648 section 4) into caller's buffers, with optional line feeds.  Shifts and masks are written as
    divisions and remainders. */
module Base64 {
  import opened Bytes

  const SIZE_LIMIT := 0x1_0000_0000_0000_0000   // sizes are 64-bit numbers
  const NEWLINE: byte := 10
  const PAD: byte := 61
  const INVALID: byte := 128

  // ---------------------------------------------------------------- the alphabet

  /** The symbol of a 6-bit value. */
  function Symbol(v: nat): byte
    requires v < 64
  {
    if v < 26 then 65 + v
    else if v < 52 then 71 + v
    else if v < 62 then v - 4
    else if v == 62 then 43
    else 47
  }

  /** The entry of the decoding table: the padding counts as zero. */
  function Value(c: byte): (v: byte)
    ensures v < 64 || v == INVALID
  {
    if 65 <= c <= 90 then c - 65
    else if 97 <= c <= 122 then c - 71
    else if 48 <= c <= 57 then c + 4
    else if c == 43 then 62
    else if c == 47 then 63
    else if c == PAD then 0
    else INVALID
  }

  lemma SymbolValue(v: nat)
    requires v < 64
    ensures Value(Symbol(v)) == v && Symbol(v) != PAD
  {
  }

  lemma ValueSymbol(c: byte)
    requires Value(c) != INVALID && c != PAD
    ensures Symbol(Value(c)) == c
  {
  }

  // ---------------------------------------------------------------- encoding

  function Quad(a: byte, b: byte, c: byte): seq<byte> {
    [Symbol(a / 4), Symbol(a % 4 * 16 + b / 16), Symbol(b % 16 * 4 + c / 64), Symbol(c % 64)]
  }

  /** The last one or two bytes, padded. */
  function Tail(src: seq<byte>): seq<byte>
    requires 0 < |src| < 3
  {
    if |src| == 1 then [Symbol(src[0] / 4), Symbol(src[0] % 4 * 16), PAD, PAD]
    else [Symbol(src[0] / 4), Symbol(src[0] % 4 * 16 + src[1] / 16), Symbol(src[1] % 16 * 4), PAD]
  }

  /** The text of `src` when the current line already has `line` characters. */
  function Encoded(src: seq<byte>, feed: bool, line: nat): seq<byte> {
    if |src| >= 3 then
      Quad(src[0], src[1], src[2])
      + if feed && line + 4 >= 72 then [NEWLINE] + Encoded(src[3..], feed, 0) else Encoded(src[3..], feed, line + 4)
    else if |src| > 0 then Tail(src) + (if feed then [NEWLINE] else [])
    else if feed && line > 0 then [NEWLINE]
    else []
  }

  /** The number of blocks of `len` bytes. */
  function Blocks(len: nat): nat {
    (len + 2) / 3
  }

  /** The buffer the encoder asks for, computed in 64 bits. */
  function Needed(len: nat): nat {
    var n1 := (len * 4 % SIZE_LIMIT / 3 + 4) % SIZE_LIMIT;
    var n2 := (n1 + n1 / 72) % SIZE_LIMIT;
    (n2 + 1) % SIZE_LIMIT
  }

  /** The size for `w`, four times the length as the multiplication left it. */
  function Padded(w: nat): nat {
    w / 3 + 4 + (w / 3 + 4) / 72 + 1
  }

  /** The same without the wrap-around. */
  function NeededExactly(len: nat): nat {
    Padded(len * 4)
  }

  /** Only the multiplication can wrap. */
  lemma OnlyTheProductWraps(len: nat)
    ensures Needed(len) == Padded(len * 4 % SIZE_LIMIT)
  {
    var n := len * 4 % SIZE_LIMIT / 3 + 4;
    Unwrapped(n);
    Unwrapped(n + n / 72);
    Unwrapped(n + n / 72 + 1);
  }

  lemma Unwrapped(n: nat)
    requires n < SIZE_LIMIT
    ensures n % SIZE_LIMIT == n
  {
  }

  lemma PaddedBounds(w: nat)
    ensures 216 * Padded(w) <= 73 * w + 2000 && w < 3 * Padded(w)
  {
  }

  lemma Wraps(len: nat)
    requires SIZE_LIMIT <= len * 4 < 4 * SIZE_LIMIT
    ensures len * 4 % SIZE_LIMIT <= len * 4 - SIZE_LIMIT && len * 4 % SIZE_LIMIT < SIZE_LIMIT
    ensures 73 * (len * 4 % SIZE_LIMIT) + 2000 < 216 * len
  {
    var j := len * 4 / SIZE_LIMIT;
    assert j == 1 || j == 2 || j == 3;
    assert len * 4 % SIZE_LIMIT == len * 4 - j * SIZE_LIMIT;
  }

  lemma PaddedDecides(len: nat, needed: nat, w: nat)
    requires needed == Padded(w)
    requires len * 4 < SIZE_LIMIT ==> w == len * 4
    requires len * 4 >= SIZE_LIMIT ==> w < SIZE_LIMIT && 73 * w + 2000 < 216 * len
    ensures needed < len <==> len * 4 >= SIZE_LIMIT
    ensures needed == Padded(len * 4) <==> len * 4 < SIZE_LIMIT
  {
    PaddedBounds(w);
    PaddedBounds(len * 4);
  }

  /** The overflow test rejects a length iff it is one for which the size computation wraps. */
  lemma OverflowTestIsExact(len: nat)
    requires len < SIZE_LIMIT
    ensures Needed(len) < len <==> len * 4 >= SIZE_LIMIT
    ensures Needed(len) == NeededExactly(len) <==> len * 4 < SIZE_LIMIT
  {
    var w := len * 4 % SIZE_LIMIT;
    assert Needed(len) == Padded(w) by {
      OnlyTheProductWraps(len);
    }
    if len * 4 >= SIZE_LIMIT {
      Wraps(len);
    } else {
      Unwrapped(len * 4);
    }
    PaddedDecides(len, Needed(len), w);
  }

  /** Line feeds for so many groups of four characters. */
  function Feeds(groups: nat): nat {
    (groups + 17) / 18
  }

  lemma BlocksStep(len: nat)
    requires len >= 3
    ensures Blocks(len) == 1 + Blocks(len - 3)
  {
  }

  lemma FeedsStep(groups: nat)
    ensures Feeds(groups + 18) == 1 + Feeds(groups)
  {
  }

  /** Four characters for every three bytes begun, and a line feed for every 18 such groups begun. */
  lemma {:induction false} EncodedLength(src: seq<byte>, feed: bool, line: nat)
    requires feed ==> line < 72 && line % 4 == 0
    ensures |Encoded(src, feed, line)| == 4 * Blocks(|src|) + if feed then Feeds(line / 4 + Blocks(|src|)) else 0
  {
    if |src| >= 3 {
      var next := if feed && line + 4 >= 72 then 0 else line + 4;
      EncodedLength(src[3..], feed, next);
      BlocksStep(|src|);
      FeedsStep(Blocks(|src| - 3));
      assert feed ==> if line + 4 >= 72 then line / 4 == 17 else next / 4 == line / 4 + 1;
    }
  }

  /** Everything the encoder writes, the final NUL included, fits in what it asks for. */
  lemma TextFits(src: seq<byte>, feed: bool)
    ensures |Encoded(src, feed, 0)| + 1 <= NeededExactly(|src|)
  {
    EncodedLength(src, feed, 0);
    EnoughNeeded(|src|);
  }

  lemma EnoughNeeded(len: nat)
    ensures 4 * Blocks(len) + Feeds(Blocks(len)) + 1 <= NeededExactly(len)
  {
    assert 4 * Blocks(len) <= len * 4 / 3 + 3;
  }

  // ---------------------------------------------------------------- what the text says

  /** The first and the last symbol of each run of the alphabet; within a run each follows the one before. */
  lemma AlphabetRuns(v: nat)
    requires v < 63
    ensures Symbol(0) as int == 'A' as int && Symbol(25) as int == 'Z' as int
    ensures Symbol(26) as int == 'a' as int && Symbol(51) as int == 'z' as int
    ensures Symbol(52) as int == '0' as int && Symbol(61) as int == '9' as int
    ensures Symbol(62) as int == '+' as int && Symbol(63) as int == '/' as int
    ensures v !in {25, 51, 61, 62} ==> Symbol(v + 1) == Symbol(v) + 1
  {
  }

  /** The four 6-bit values and the three bytes are the same 24 bits. */
  lemma QuadBits(a: byte, b: byte, c: byte)
    ensures var q := Quad(a, b, c);
            ((Value(q[0]) * 64 + Value(q[1])) * 64 + Value(q[2])) * 64 + Value(q[3])
            == (a as int * 256 + b as int) * 256 + c as int
  {
    SymbolValue(a / 4);
    SymbolValue(a % 4 * 16 + b / 16);
    SymbolValue(b % 16 * 4 + c / 64);
    SymbolValue(c % 64);
  }

  /** Test vectors of RFC 4648 section 10. */
  lemma Vectors()
    ensures Encoded([], false, 0) == []
    ensures Encoded([102], false, 0) == [90, 103, 61, 61]                       // "f" and "Zg=="
    ensures Encoded([102, 111], false, 0) == [90, 109, 56, 61]                  // "fo" and "Zm8="
    ensures Encoded([102, 111, 111], false, 0) == [90, 109, 57, 118]            // "foo" and "Zm9v"
    ensures Encoded([102, 111, 111, 98, 97, 114], false, 0) == [90, 109, 57, 118, 89, 109, 70, 121]  // "foobar" and "Zm9vYmFy"
  {
    var src := [102, 111, 111, 98, 97, 114];
    assert src[3..] == [98, 97, 114] && src[3..][3..] == [] && [102, 111, 111][3..] == [];
    assert Encoded(src[3..], false, 4) == [89, 109, 70, 121];
  }

  lemma SymbolIsNoFeed(v: nat)
    requires v < 64
    ensures Symbol(v) != NEWLINE
  {
  }

  lemma FourNoFeed(src: seq<byte>)
    ensures |src| >= 3 ==> NEWLINE !in Quad(src[0], src[1], src[2])
    ensures 0 < |src| < 3 ==> NEWLINE !in Tail(src)
  {
  }

  /** Where the text has line feeds. */
  ghost predicate FeedsAt(text: seq<byte>, line: nat) {
    forall i :: 0 <= i < |text| ==> (text[i] == NEWLINE <==> (line + i) % 73 == 72 || i == |text| - 1)
  }

  lemma FeedAfterFour(four: seq<byte>, rest: seq<byte>, line: nat)
    requires |four| == 4 && NEWLINE !in four && line < 68 && rest != [] && FeedsAt(rest, line + 4)
    ensures FeedsAt(four + rest, line)
  {
  }

  lemma FeedAfterLine(four: seq<byte>, rest: seq<byte>, line: nat)
    requires |four| == 4 && NEWLINE !in four && line == 68 && FeedsAt(rest, 0)
    ensures FeedsAt(four + ([NEWLINE] + rest), line)
  {
    var text := four + ([NEWLINE] + rest);
    forall i | 0 <= i < |text| ensures text[i] == NEWLINE <==> (line + i) % 73 == 72 || i == |text| - 1 {
      if i < 4 {
        assert text[i] == four[i] && four[i] in four;
      } else if i == 4 {
        assert text[4] == NEWLINE;
      } else {
        assert text[i] == rest[i - 5];
        NextLine(i - 5);
      }
    }
  }

  lemma NextLine(i: nat)
    ensures (73 + i) % 73 == i % 73
  {
  }

  /** A line feed stands behind every 72 characters and at the end, and nowhere else. */
  lemma {:induction false} FeedsStand(src: seq<byte>, line: nat)
    requires line < 72 && line % 4 == 0
    ensures FeedsAt(Encoded(src, true, line), line)
  {
    FourNoFeed(src);
    if |src| >= 3 {
      var quad := Quad(src[0], src[1], src[2]);
      if line == 68 {
        FeedsStand(src[3..], 0);
        FeedAfterLine(quad, Encoded(src[3..], true, 0), line);
      } else {
        FeedsStand(src[3..], line + 4);
        FeedAfterFour(quad, Encoded(src[3..], true, line + 4), line);
      }
    }
  }

  // ---------------------------------------------------------------- decoding

  /** The characters that are symbols or padding. */
  function Symbols(src: seq<byte>): seq<byte> {
    if src == [] then []
    else (if Value(src[0]) == INVALID then [] else [src[0]]) + Symbols(src[1..])
  }

  function Pad(c: byte): nat {
    if c == PAD then 1 else 0
  }

  function Pads(s: seq<byte>): nat
    requires |s| == 4
  {
    Pad(s[0]) + Pad(s[1]) + Pad(s[2]) + Pad(s[3])
  }

  /** Three bytes from four values, each cut to eight bits. */
  function Triple(v0: nat, v1: nat, v2: nat, v3: nat): seq<byte> {
    [(v0 * 4 + v1 / 16) % 256, (v1 * 16 + v2 / 4) % 256, (v2 * 64 + v3) % 256]
  }

  function TripleOf(s: seq<byte>): seq<byte>
    requires |s| == 4
  {
    Triple(Value(s[0]), Value(s[1]), Value(s[2]), Value(s[3]))
  }

  datatype Result = Good(bytes: seq<byte>) | BadPadding

  /** The blocks of four, up to the first one with padding. */
  function DecodedBlocks(s: seq<byte>): Result {
    if |s| < 4 then Good([])
    else
      var pads := Pads(s[..4]);
      if pads > 2 then BadPadding
      else if pads > 0 then Good(TripleOf(s[..4])[..3 - pads])
      else
        var rest := DecodedBlocks(s[4..]);
        if rest.Good? then Good(TripleOf(s[..4]) + rest.bytes) else BadPadding
  }

  /** What the decoder makes of `src` with room for `room` bytes; nothing if it rejects it. */
  function Decoded(src: seq<byte>, room: nat): seq<byte> {
    var s := Symbols(src);
    if s == [] || |s| % 4 != 0 || |s| / 4 * 3 > room then []
    else var r := DecodedBlocks(s); if r.Good? then r.bytes else []
  }

  lemma CutToByte(x: nat, y: nat, cut: nat, weight: nat)
    requires cut * weight == 256 && y < weight
    ensures (x * weight + y) % 256 == x % cut * weight + y
  {
    var q, r := x / cut, x % cut;
    assert x * weight + y == q * (cut * weight) + (r * weight + y);
    assert r * weight + y < (r + 1) * weight <= cut * weight;
  }

  /** Three bytes and the four values they come from are the same 24 bits. */
  lemma TripleBits(v0: nat, v1: nat, v2: nat, v3: nat)
    requires v0 < 64 && v1 < 64 && v2 < 64 && v3 < 64
    ensures var t := Triple(v0, v1, v2, v3);
            (t[0] as int * 256 + t[1] as int) * 256 + t[2] as int == ((v0 * 64 + v1) * 64 + v2) * 64 + v3
  {
    CutToByte(v1, v2 / 4, 16, 16);
    CutToByte(v2, v3, 4, 64);
  }

  function Block(s: seq<byte>, j: nat): seq<byte>
    requires 4 * j + 4 <= |s|
  {
    s[4 * j..4 * j + 4]
  }

  /** Block `k` is the first one with padding, or there is none and it is behind the last one. */
  predicate FirstPadded(s: seq<byte>, k: nat) {
    4 * k <= |s| && (forall j :: 0 <= j < k ==> PAD !in Block(s, j)) && (4 * k < |s| ==> 4 * k + 4 <= |s| && PAD in Block(s, k))
  }

  lemma {:induction false} OnePadded(s: seq<byte>) returns (k: nat)
    requires |s| % 4 == 0
    ensures FirstPadded(s, k)
  {
    k := 0;
    if s != [] && PAD !in Block(s, 0) {
      var rest := OnePadded(s[4..]);
      k := rest + 1;
      forall j | 0 < j && 4 * j + 4 <= |s| ensures Block(s, j) == Block(s[4..], j - 1) {
        NextBlock(s, j);
      }
    }
  }

  /** The bytes of the blocks: three for each one before block `k`, and those that the padding of block `k` leaves. */
  ghost predicate BytesOf(s: seq<byte>, k: nat, bytes: seq<byte>)
    requires FirstPadded(s, k)
  {
    && 3 * k <= |bytes| && (forall j :: 0 <= j < k ==> bytes[3 * j..3 * j + 3] == TripleOf(Block(s, j)))
    && (4 * k == |s| ==> bytes[3 * k..] == [])
    && (4 * k < |s| ==> Pads(Block(s, k)) <= 2 && bytes[3 * k..] == TripleOf(Block(s, k))[..3 - Pads(Block(s, k))])
  }

  /** The first block with padding is the last one looked at, wherever in it the padding is: with one or two pads it gives
      two bytes or one, with more the text is rejected.  Each block before it gives three bytes. */
  lemma {:induction false} BlocksMean(s: seq<byte>, k: nat)
    requires |s| % 4 == 0 && FirstPadded(s, k)
    ensures DecodedBlocks(s).Good? <==> 4 * k == |s| || Pads(Block(s, k)) <= 2
    ensures DecodedBlocks(s).Good? ==> BytesOf(s, k, DecodedBlocks(s).bytes)
  {
    if k > 0 {
      ShiftPadded(s, k);
      BlocksMean(s[4..], k - 1);
      WholeFirst(s, k);
    } else if s != [] {
      PaddedBlock(s);
      PaddedFirst(s, TripleOf(Block(s, 0))[..if Pads(Block(s, 0)) > 2 then 0 else 3 - Pads(Block(s, 0))]);
    }
  }

  lemma WholeFirst(s: seq<byte>, k: nat)
    requires k > 0 && FirstPadded(s, k) && FirstPadded(s[4..], k - 1)
    requires DecodedBlocks(s[4..]).Good? ==> BytesOf(s[4..], k - 1, DecodedBlocks(s[4..]).bytes)
    ensures DecodedBlocks(s).Good? <==> DecodedBlocks(s[4..]).Good?
    ensures DecodedBlocks(s).Good? ==> BytesOf(s, k, DecodedBlocks(s).bytes)
  {
    ShiftPadded(s, k);
    WholeBlock(s);
    if DecodedBlocks(s).Good? {
      ShiftBytes(s, k, DecodedBlocks(s[4..]).bytes);
    }
  }

  lemma PaddedFirst(s: seq<byte>, bytes: seq<byte>)
    requires |s| >= 4 && FirstPadded(s, 0)
    requires Pads(Block(s, 0)) <= 2 ==> bytes == TripleOf(Block(s, 0))[..3 - Pads(Block(s, 0))]
    ensures Pads(Block(s, 0)) <= 2 ==> BytesOf(s, 0, bytes)
  {
    assert bytes[0..] == bytes;
  }

  lemma WholeBlock(s: seq<byte>)
    requires |s| >= 4 && PAD !in Block(s, 0)
    ensures DecodedBlocks(s).Good? <==> DecodedBlocks(s[4..]).Good?
    ensures DecodedBlocks(s).Good? ==> DecodedBlocks(s).bytes == TripleOf(Block(s, 0)) + DecodedBlocks(s[4..]).bytes
  {
    FirstFour(s);
    NoPads(Block(s, 0));
  }

  lemma FirstFour(s: seq<byte>)
    requires |s| >= 4
    ensures Block(s, 0) == s[..4]
  {
  }

  lemma PaddedBlock(s: seq<byte>)
    requires |s| >= 4 && PAD in Block(s, 0)
    ensures DecodedBlocks(s) ==
            if Pads(Block(s, 0)) > 2 then BadPadding else Good(TripleOf(Block(s, 0))[..3 - Pads(Block(s, 0))])
  {
    FirstFour(s);
    NoPads(Block(s, 0));
  }

  lemma NoPads(four: seq<byte>)
    requires |four| == 4
    ensures Pads(four) == 0 <==> PAD !in four
  {
  }

  lemma ShiftPadded(s: seq<byte>, k: nat)
    requires k > 0 && FirstPadded(s, k)
    ensures FirstPadded(s[4..], k - 1) && PAD !in Block(s, 0)
    ensures 4 * k < |s| ==> Block(s, k) == Block(s[4..], k - 1)
  {
    forall j | 0 < j && 4 * j + 4 <= |s| ensures Block(s, j) == Block(s[4..], j - 1) {
      NextBlock(s, j);
    }
    forall j | 0 <= j < k - 1 ensures PAD !in Block(s[4..], j) {
      assert PAD !in Block(s, j + 1);
    }
  }

  lemma ShiftBytes(s: seq<byte>, k: nat, bytes: seq<byte>)
    requires k > 0 && FirstPadded(s, k) && FirstPadded(s[4..], k - 1) && BytesOf(s[4..], k - 1, bytes)
    ensures BytesOf(s, k, TripleOf(Block(s, 0)) + bytes)
  {
    var three := TripleOf(Block(s, 0));
    BehindThree(three, bytes, k);
    forall j | 0 <= j < k ensures (three + bytes)[3 * j..3 * j + 3] == TripleOf(Block(s, j)) {
      if j > 0 {
        NextBlock(s, j);
        ThreeBehind(three, bytes, j);
      }
    }
    if 4 * k < |s| {
      NextBlock(s, k);
    }
  }

  lemma NextBlock(s: seq<byte>, j: nat)
    requires 0 < j && 4 * j + 4 <= |s|
    ensures Block(s, j) == Block(s[4..], j - 1)
  {
    forall i | 0 <= i < 4 ensures Block(s, j)[i] == Block(s[4..], j - 1)[i] {
      assert Block(s, j)[i] == s[4 * j + i] && Block(s[4..], j - 1)[i] == s[4..][4 * (j - 1) + i];
    }
  }

  lemma BehindThree(three: seq<byte>, rest: seq<byte>, k: nat)
    requires |three| == 3 && k > 0 && 3 * (k - 1) <= |rest|
    ensures (three + rest)[..3] == three && (three + rest)[3 * k..] == rest[3 * (k - 1)..]
  {
  }

  lemma ThreeBehind(three: seq<byte>, rest: seq<byte>, j: nat)
    requires |three| == 3 && j > 0 && 3 * (j - 1) + 3 <= |rest|
    ensures (three + rest)[3 * j..3 * j + 3] == rest[3 * (j - 1)..3 * (j - 1) + 3]
  {
  }

  // ---------------------------------------------------------------- round trip

  /** The text without line feeds. */
  function Plain(src: seq<byte>): seq<byte> {
    if |src| >= 3 then Quad(src[0], src[1], src[2]) + Plain(src[3..])
    else if |src| > 0 then Tail(src)
    else []
  }

  lemma {:induction false} SymbolsConcat(a: seq<byte>, b: seq<byte>)
    ensures Symbols(a + b) == Symbols(a) + Symbols(b)
  {
    if a == [] {
      assert a + b == b;
    } else {
      assert (a + b)[1..] == a[1..] + b;
      SymbolsConcat(a[1..], b);
    }
  }

  predicate AllSymbols(s: seq<byte>) {
    forall i :: 0 <= i < |s| ==> Value(s[i]) != INVALID
  }

  lemma {:induction false} NothingSkipped(s: seq<byte>)
    requires AllSymbols(s)
    ensures Symbols(s) == s
  {
    if s != [] {
      NothingSkipped(s[1..]);
    }
  }

  lemma QuadSymbols(a: byte, b: byte, c: byte)
    ensures AllSymbols(Quad(a, b, c)) && Symbols(Quad(a, b, c)) == Quad(a, b, c)
  {
    NothingSkipped(Quad(a, b, c));
  }

  lemma TailSymbols(src: seq<byte>)
    requires 0 < |src| < 3
    ensures AllSymbols(Tail(src)) && Symbols(Tail(src)) == Tail(src)
  {
    NothingSkipped(Tail(src));
  }

  lemma QuadThen(q: seq<byte>, rest: seq<byte>, wrap: bool)
    requires Symbols(q) == q
    ensures Symbols(q + if wrap then [NEWLINE] + rest else rest) == q + Symbols(rest)
  {
    if wrap {
      SymbolsConcat(q, [NEWLINE] + rest);
      SkipNewline(rest);
    } else {
      SymbolsConcat(q, rest);
    }
  }

  lemma SkipNewline(rest: seq<byte>)
    ensures Symbols([NEWLINE] + rest) == Symbols(rest)
  {
    assert ([NEWLINE] + rest)[1..] == rest;
    assert [] + Symbols(rest) == Symbols(rest);
  }

  /** The decoder skips exactly the line feeds. */
  lemma {:induction false} SymbolsOfText(src: seq<byte>, feed: bool, line: nat)
    ensures Symbols(Encoded(src, feed, line)) == Plain(src)
  {
    if |src| >= 3 {
      var wrap := feed && line + 4 >= 72;
      QuadSymbols(src[0], src[1], src[2]);
      SymbolsOfText(src[3..], feed, if wrap then 0 else line + 4);
      QuadThen(Quad(src[0], src[1], src[2]), Encoded(src[3..], feed, if wrap then 0 else line + 4), wrap);
    } else if |src| > 0 {
      TailSymbols(src);
      TailThen(Tail(src), feed);
    } else {
      TailThen([], feed && line > 0);
    }
  }

  lemma TailThen(tail: seq<byte>, feed: bool)
    requires Symbols(tail) == tail
    ensures Symbols(tail + if feed then [NEWLINE] else []) == tail
  {
    if feed {
      SymbolsConcat(tail, [NEWLINE]);
      assert Symbols([NEWLINE]) == [];
    } else {
      assert tail + [] == tail;
    }
  }

  lemma FirstByte(a: byte, b: byte)
    ensures (a / 4 * 4 + (a % 4 * 16 + b / 16) / 16) % 256 == a
  {
    assert (a % 4 * 16 + b / 16) / 16 == a % 4;
  }

  lemma SecondByte(a: nat, b: byte, c: byte)
    ensures ((a * 16 + b / 16) * 16 + (b % 16 * 4 + c / 64) / 4) % 256 == b
  {
    Upper(b % 16, c / 64);
    assert (a * 16 + b / 16) * 16 + b % 16 == a * 256 + b;
    LowByte(a, b);
  }

  lemma Upper(x: nat, y: nat)
    requires y < 4
    ensures (x * 4 + y) / 4 == x
  {
  }

  lemma LowByte(q: nat, r: byte)
    ensures (q * 256 + r) % 256 == r
  {
  }

  lemma ThirdByte(b: nat, c: byte)
    ensures ((b * 4 + c / 64) * 64 + c % 64) % 256 == c
  {
    assert (b * 4 + c / 64) * 64 + c % 64 == b * 256 + c;
    LowByte(b, c);
  }

  lemma Bits(a: byte, b: byte, c: byte)
    ensures Triple(a / 4, a % 4 * 16 + b / 16, b % 16 * 4 + c / 64, c % 64) == [a, b, c]
  {
    FirstByte(a, b);
    SecondByte(a % 4, b, c);
    ThirdByte(b % 16, c);
  }

  lemma QuadTriple(a: byte, b: byte, c: byte)
    ensures TripleOf(Quad(a, b, c)) == [a, b, c] && Pads(Quad(a, b, c)) == 0
  {
    SymbolValue(a / 4);
    SymbolValue(a % 4 * 16 + b / 16);
    SymbolValue(b % 16 * 4 + c / 64);
    SymbolValue(c % 64);
    Bits(a, b, c);
  }

  lemma TailTriple(src: seq<byte>)
    requires 0 < |src| < 3
    ensures Pads(Tail(src)) == 3 - |src| && TripleOf(Tail(src))[..|src|] == src
  {
    SymbolValue(src[0] / 4);
    if |src| == 1 {
      SymbolValue(src[0] % 4 * 16);
      Bits(src[0], 0, 0);
    } else {
      SymbolValue(src[0] % 4 * 16 + src[1] / 16);
      SymbolValue(src[1] % 16 * 4);
      Bits(src[0], src[1], 0);
    }
  }

  lemma DecodedQuad(q: seq<byte>, rest: seq<byte>)
    requires |q| == 4 && Pads(q) == 0 && DecodedBlocks(rest).Good?
    ensures DecodedBlocks(q + rest) == Good(TripleOf(q) + DecodedBlocks(rest).bytes)
  {
    assert (q + rest)[..4] == q && (q + rest)[4..] == rest;
  }

  lemma {:induction false} PlainLength(src: seq<byte>)
    ensures |Plain(src)| == 4 * Blocks(|src|)
  {
    if |src| >= 3 {
      PlainLength(src[3..]);
      BlocksStep(|src|);
    }
  }

  lemma {:induction false} PlainDecodes(src: seq<byte>)
    ensures DecodedBlocks(Plain(src)) == Good(src)
  {
    if |src| >= 3 {
      PlainDecodes(src[3..]);
      QuadTriple(src[0], src[1], src[2]);
      DecodedQuad(Quad(src[0], src[1], src[2]), Plain(src[3..]));
      assert [src[0], src[1], src[2]] + src[3..] == src;
    } else if |src| > 0 {
      TailTriple(src);
      DecodedTail(Tail(src));
    }
  }

  lemma DecodedTail(s: seq<byte>)
    requires |s| == 4 && 0 < Pads(s) <= 2
    ensures DecodedBlocks(s) == Good(TripleOf(s)[..3 - Pads(s)])
  {
    assert s[..4] == s;
  }

  /** Decoding the encoder's text, with or without line feeds, gives back every byte string for which there is room. */
  lemma RoundTrip(src: seq<byte>, feed: bool, room: nat)
    ensures Decoded(Encoded(src, feed, 0), room) == if 3 * Blocks(|src|) <= room then src else []
  {
    SymbolsOfText(src, feed, 0);
    PlainDecodes(src);
    PlainLength(src);
    DecodedOf(Encoded(src, feed, 0), room, src, Blocks(|src|));
  }

  lemma DecodedOf(text: seq<byte>, room: nat, src: seq<byte>, blocks: nat)
    requires DecodedBlocks(Symbols(text)) == Good(src) && |Symbols(text)| == 4 * blocks && (blocks == 0 ==> src == [])
    ensures Decoded(text, room) == if 3 * blocks <= room then src else []
  {
    Quarter(|Symbols(text)|, blocks);
  }

  lemma Quarter(n: nat, blocks: nat)
    requires n == 4 * blocks
    ensures n % 4 == 0 && n / 4 == blocks && n / 4 * 3 == 3 * blocks
  {
  }

  // ---------------------------------------------------------------- the buffers

  method PutQuad(src: seq<byte>, i: nat, out: array<byte>, pos: nat)
    requires i + 3 <= |src| && pos + 4 <= out.Length
    modifies out
    ensures out[..pos + 4] == old(out[..pos]) + Quad(src[i], src[i + 1], src[i + 2])
    ensures forall j :: pos + 4 <= j < out.Length ==> out[j] == old(out[j])
  {
    out[pos] := Symbol(src[i] / 4);
    out[pos + 1] := Symbol(src[i] % 4 * 16 + src[i + 1] / 16);
    out[pos + 2] := Symbol(src[i + 1] % 16 * 4 + src[i + 2] / 64);
    out[pos + 3] := Symbol(src[i + 2] % 64);
  }

  method PutTail(src: seq<byte>, i: nat, out: array<byte>, pos: nat)
    requires 0 < |src| - i < 3 && pos + 4 <= out.Length
    modifies out
    ensures out[..pos + 4] == old(out[..pos]) + Tail(src[i..])
    ensures forall j :: pos + 4 <= j < out.Length ==> out[j] == old(out[j])
  {
    out[pos] := Symbol(src[i] / 4);
    if |src| - i == 1 {
      out[pos + 1] := Symbol(src[i] % 4 * 16);
      out[pos + 2] := PAD;
    } else {
      out[pos + 1] := Symbol(src[i] % 4 * 16 + src[i + 1] / 16);
      out[pos + 2] := Symbol(src[i + 1] % 16 * 4);
    }
    out[pos + 3] := PAD;
  }

  method PutByte(b: byte, out: array<byte>, pos: nat)
    requires pos < out.Length
    modifies out
    ensures out[..pos + 1] == old(out[..pos]) + [b] && forall j :: pos < j < out.Length ==> out[j] == old(out[j])
  {
    out[pos] := b;
  }

  lemma EncodedStep(src: seq<byte>, i: nat, feed: bool, line: nat, done: seq<byte>)
    requires i + 3 <= |src|
    ensures feed && line + 4 >= 72 ==>
              done + Encoded(src[i..], feed, line)
              == done + Quad(src[i], src[i + 1], src[i + 2]) + [NEWLINE] + Encoded(src[i + 3..], feed, 0)
    ensures !(feed && line + 4 >= 72) ==>
              done + Encoded(src[i..], feed, line)
              == done + Quad(src[i], src[i + 1], src[i + 2]) + Encoded(src[i + 3..], feed, line + 4)
  {
    var t, quad := src[i..], Quad(src[i], src[i + 1], src[i + 2]);
    assert t[3..] == src[i + 3..];
    if feed && line + 4 >= 72 {
      Regroup(done, quad, [NEWLINE], Encoded(t[3..], feed, 0));
    } else {
      Regroup(done, quad, [], Encoded(t[3..], feed, line + 4));
    }
  }

  lemma Regroup(a: seq<byte>, b: seq<byte>, c: seq<byte>, d: seq<byte>)
    ensures a + (b + (c + d)) == a + b + c + d
    ensures c == [] ==> a + (b + d) == a + b + d
  {
  }

  /** base64_encode: nothing is written if the text might not fit; otherwise the text and a NUL. */
  method Encode(src: seq<byte>, out: array<byte>, feed: bool) returns (n: nat)
    requires |src| < SIZE_LIMIT
    modifies out
    ensures n == if |src| * 4 < SIZE_LIMIT && NeededExactly(|src|) <= out.Length then |Encoded(src, feed, 0)| else 0
    ensures |src| * 4 < SIZE_LIMIT && NeededExactly(|src|) <= out.Length ==>
              n < out.Length && out[..n] == Encoded(src, feed, 0) && out[n] == 0 && forall j :: n < j < out.Length ==> out[j] == old(out[j])
    ensures !(|src| * 4 < SIZE_LIMIT && NeededExactly(|src|) <= out.Length) ==> out[..] == old(out[..])
  {
    var olen := (|src| * 4 % SIZE_LIMIT / 3 + 4) % SIZE_LIMIT;
    olen := (olen + olen / 72) % SIZE_LIMIT;
    olen := (olen + 1) % SIZE_LIMIT;
    OverflowTestIsExact(|src|);
    if olen < |src| || olen > out.Length {
      return 0;
    }
    TextFits(src, feed);
    n := EncodeFitting(src, out, feed);
  }

  method EncodeFitting(src: seq<byte>, out: array<byte>, feed: bool) returns (n: nat)
    requires |Encoded(src, feed, 0)| < out.Length
    modifies out
    ensures n == |Encoded(src, feed, 0)| && out[..n] == Encoded(src, feed, 0) && out[n] == 0
    ensures forall j :: n < j < out.Length ==> out[j] == old(out[j])
  {
    var i, line, pos := 0, 0, 0;
    ghost var text := Encoded(src, feed, 0);
    assert src[0..] == src;
    while |src| - i >= 3
      invariant i <= |src| && pos <= out.Length
      invariant out[..pos] + Encoded(src[i..], feed, line) == text
      invariant forall j :: pos <= j < out.Length ==> out[j] == old(out[j])
    {
      EncodedStep(src, i, feed, line, out[..pos]);
      PutQuad(src, i, out, pos);
      pos := pos + 4;
      i := i + 3;
      line := line + 4;
      if feed && line >= 72 {
        PutByte(NEWLINE, out, pos);
        pos := pos + 1;
        line := 0;
      }
    }
    n := EncodeRest(src, i, out, pos, feed, line);
  }

  /** The part after the loop. */
  method EncodeRest(src: seq<byte>, i: nat, out: array<byte>, pos: nat, feed: bool, line0: nat) returns (n: nat)
    requires 0 <= |src| - i < 3 && pos + |Encoded(src[i..], feed, line0)| < out.Length
    modifies out
    ensures n == pos + |Encoded(src[i..], feed, line0)| && out[..n] == old(out[..pos]) + Encoded(src[i..], feed, line0)
    ensures out[n] == 0 && forall j :: n < j < out.Length ==> out[j] == old(out[j])
  {
    n := pos;
    var line := line0;
    if |src| - i > 0 {
      PutTail(src, i, out, n);
      n := n + 4;
      line := line + 4;
    }
    if feed && line > 0 {
      PutByte(NEWLINE, out, n);
      n := n + 1;
    }
    assert out[..n] == old(out[..pos]) + Encoded(src[i..], feed, line0);
    out[n] := 0;
  }

  /** The decoding table: every entry invalid, then those of the 64 symbols and of the padding. */
  method MakeTable() returns (dtable: array<byte>)
    ensures fresh(dtable) && IsTable(dtable)
  {
    dtable := new byte[256](i => INVALID);
    for v := 0 to 64
      invariant forall c :: 0 <= c < 256 ==> dtable[c] == if c != PAD && Value(c) < v then Value(c) else INVALID
    {
      SymbolValue(v);
      OneSymbol(v);
      dtable[Symbol(v)] := v;
    }
    dtable[PAD] := 0;
  }

  lemma OneSymbol(v: nat)
    requires v < 64
    ensures forall c: byte :: c != PAD && Value(c) == v ==> c == Symbol(v)
  {
    forall c: byte | c != PAD && Value(c) == v ensures c == Symbol(v) {
      ValueSymbol(c);
    }
  }

  lemma SymbolsStep(src: seq<byte>, i: nat)
    requires i < |src|
    ensures Symbols(src[i..]) == (if Value(src[i]) == INVALID then [] else [src[i]]) + Symbols(src[i + 1..])
  {
    assert src[i..][1..] == src[i + 1..];
  }

  /** The number of characters that count. */
  method CountSymbols(src: seq<byte>, dtable: array<byte>) returns (count: nat)
    requires IsTable(dtable)
    ensures count == |Symbols(src)|
  {
    count := 0;
    assert src[0..] == src;
    for i := 0 to |src|
      invariant count + |Symbols(src[i..])| == |Symbols(src)|
    {
      SymbolsStep(src, i);
      if dtable[src[i]] != INVALID {
        count := count + 1;
      }
    }
  }

  /** Bytes already decoded, before the rest. */
  function Prepend(done: seq<byte>, rest: Result): Result {
    if rest.Good? then Good(done + rest.bytes) else BadPadding
  }

  /** The padding characters in a block begun. */
  function PadsIn(s: seq<byte>): nat
    requires |s| <= 4
  {
    (if |s| > 0 then Pad(s[0]) else 0) + (if |s| > 1 then Pad(s[1]) else 0)
    + (if |s| > 2 then Pad(s[2]) else 0) + (if |s| > 3 then Pad(s[3]) else 0)
  }

  lemma BlockDone(done: seq<byte>, block: seq<byte>, rest: seq<byte>)
    requires |block| == 4
    ensures var pads := PadsIn(block);
            Prepend(done, DecodedBlocks(block + rest))
            == if pads > 2 then BadPadding
               else if pads > 0 then Good(done + TripleOf(block)[..3 - pads])
               else Prepend(done + TripleOf(block), DecodedBlocks(rest))
  {
    assert (block + rest)[..4] == block && (block + rest)[4..] == rest;
    var r := DecodedBlocks(rest);
    if r.Good? {
      assert done + (TripleOf(block) + r.bytes) == done + TripleOf(block) + r.bytes;
    }
  }

  method PutTriple(block: array<byte>, out: array<byte>, pos: nat)
    requires block.Length == 4 && pos + 3 <= out.Length && block != out
    modifies out
    ensures out[..pos + 3] == old(out[..pos]) + Triple(block[0], block[1], block[2], block[3])
  {
    var v0: nat, v1: nat, v2: nat, v3: nat := block[0], block[1], block[2], block[3];
    out[pos] := (v0 * 4 + v1 / 16) % 256;
    out[pos + 1] := (v1 * 16 + v2 / 4) % 256;
    out[pos + 2] := (v2 * 64 + v3) % 256;
  }

  /** base64_decode. */
  method Decode(src: seq<byte>, out: array<byte>) returns (n: nat)
    modifies out
    ensures n == |Decoded(src, out.Length)| <= out.Length && out[..n] == Decoded(src, out.Length)
  {
    var dtable := MakeTable();
    var count := CountSymbols(src, dtable);
    if count == 0 || count % 4 != 0 {
      return 0;
    }
    var olen := count / 4 * 3;
    if olen > out.Length {
      return 0;
    }
    n := DecodeFitting(src, dtable, out);
  }

  /** With `done` in the buffer, a block begun and characters to come, the whole is `all`. */
  ghost predicate Decoding(done: seq<byte>, begun: seq<byte>, rest: seq<byte>, all: Result) {
    Prepend(done, DecodedBlocks(begun + rest)) == all
  }

  lemma TakeSymbol(done: seq<byte>, begun: seq<byte>, c: byte, rest: seq<byte>, all: Result)
    requires Decoding(done, begun, [c] + rest, all) && |begun| < 4
    ensures Decoding(done, begun + [c], rest, all) && PadsIn(begun + [c]) == PadsIn(begun) + Pad(c)
  {
    assert begun + ([c] + rest) == (begun + [c]) + rest;
  }

  lemma FullBlock(done: seq<byte>, block: seq<byte>, rest: seq<byte>, all: Result)
    requires |block| == 4 && Decoding(done, block, rest, all)
    ensures PadsIn(block) > 2 ==> all == BadPadding
    ensures 0 < PadsIn(block) <= 2 ==> all == Good(done + TripleOf(block)[..3 - PadsIn(block)])
    ensures PadsIn(block) == 0 ==> Decoding(done + TripleOf(block), [], rest, all)
  {
    BlockDone(done, block, rest);
    assert [] + rest == rest;
  }

  lemma NothingLeft(done: seq<byte>, begun: seq<byte>, all: Result)
    requires |begun| < 4 && Decoding(done, begun, [], all)
    ensures all == Good(done)
  {
    assert begun + [] == begun && done + [] == done;
  }

  /** The block holds the values of the characters begun. */
  ghost predicate Begun(block: array<byte>, begun: seq<byte>)
    reads block
  {
    block.Length == 4 && |begun| <= 4 && forall j :: 0 <= j < |begun| ==> block[j] == Value(begun[j])
  }

  method Add(block: array<byte>, count: nat, tmp: byte, ghost begun: seq<byte>, ghost c: byte)
    requires Begun(block, begun) && count == |begun| < 4 && tmp == Value(c)
    modifies block
    ensures Begun(block, begun + [c])
  {
    block[count] := tmp;
  }

  ghost predicate IsTable(dtable: array<byte>)
    reads dtable
  {
    dtable.Length == 256 && forall c :: 0 <= c < 256 ==> dtable[c] == Value(c)
  }

  /** A full block goes to the buffer; `more` unless it was padded. */
  method PutBlock(block: array<byte>, out: array<byte>, pos: nat, pad: nat, ghost begun: seq<byte>, ghost rest: seq<byte>, ghost all: Result)
    returns (n: nat, more: bool, bad: bool)
    requires Begun(block, begun) && |begun| == 4 && pos + 3 <= out.Length && block != out && pad == PadsIn(begun)
    requires Decoding(out[..pos], begun, rest, all)
    modifies out
    ensures n <= out.Length
    ensures bad ==> all == BadPadding
    ensures !bad && !more ==> all == Good(out[..n])
    ensures !bad && more ==> pad == 0 && n == pos + 3 && Decoding(out[..n], [], rest, all)
  {
    FullBlock(out[..pos], begun, rest, all);
    PutTriple(block, out, pos);
    n := pos + 3;
    more, bad := true, false;
    ghost var done := out[..n];
    if pad > 0 {
      more := false;
      if pad == 1 {
        n := n - 1;
      } else if pad == 2 {
        n := n - 2;
      } else {
        bad := true;
      }
      assert out[..n] == done[..n];
    }
  }

  /** A symbol goes to the block, and the block to the buffer when it is full. */
  method TakeOne(block: array<byte>, out: array<byte>, pos: nat, count: nat, pad: nat, c: byte, tmp: byte, ghost begun: seq<byte>,
                 ghost rest: seq<byte>, ghost all: Result)
    returns (n: nat, count1: nat, pad1: nat, ghost begun1: seq<byte>, more: bool, bad: bool)
    requires Begun(block, begun) && count == |begun| < 4 && pad == PadsIn(begun) && tmp == Value(c) && block != out
    requires pos <= out.Length && (count == 3 ==> pos + 3 <= out.Length)
    requires Decoding(out[..pos], begun, [c] + rest, all)
    modifies block, out
    ensures n <= out.Length
    ensures bad ==> all == BadPadding
    ensures !bad && !more ==> all == Good(out[..n])
    ensures !bad && more ==> Begun(block, begun1) && count1 == |begun1| < 4 && pad1 == PadsIn(begun1)
    ensures !bad && more ==> Decoding(out[..n], begun1, rest, all) && 4 * n + 3 * count1 == 4 * pos + 3 * (count + 1)
  {
    TakeSymbol(out[..pos], begun, c, rest, all);
    n, more, bad := pos, true, false;
    pad1 := if c == PAD then pad + 1 else pad;
    Add(block, count, tmp, begun, c);
    begun1 := begun + [c];
    count1 := count + 1;
    if count1 == 4 {
      n, more, bad := PutBlock(block, out, pos, pad1, begun1, rest, all);
      count1, begun1 := 0, [];
    }
  }

  lemma NothingInFront(s: seq<byte>)
    ensures [] + s == s
  {
  }

  lemma NothingYet(src: seq<byte>)
    ensures src[0..] == src && Decoding([], [], Symbols(src), DecodedBlocks(Symbols(src)))
  {
    assert [] + Symbols(src) == Symbols(src);
    var r := DecodedBlocks(Symbols(src));
    assert r.Good? ==> [] + r.bytes == r.bytes;
  }

  lemma RoomForBlock(n: nat, count: nat, left: nat, total: nat, room: nat)
    requires 4 * n + 3 * (count + (1 + left)) == 3 * total && total % 4 == 0 && total / 4 * 3 <= room
    ensures count == 3 ==> n + 3 <= room
  {
  }

  method DecodeFitting(src: seq<byte>, dtable: array<byte>, out: array<byte>) returns (n: nat)
    requires dtable != out && IsTable(dtable)
    requires |Symbols(src)| % 4 == 0 && |Symbols(src)| / 4 * 3 <= out.Length
    modifies out
    ensures n <= out.Length
    ensures out[..n] == if DecodedBlocks(Symbols(src)).Good? then DecodedBlocks(Symbols(src)).bytes else []
  {
    var block := new byte[4];
    var count, pad := 0, 0;
    ghost var begun: seq<byte> := [];
    ghost var all := DecodedBlocks(Symbols(src));
    n := 0;
    NothingYet(src);
    var i := 0;
    while i < |src|
      invariant i <= |src| && n <= out.Length
      invariant count == |begun| < 4 && pad == PadsIn(begun)
      invariant Begun(block, begun)
      invariant IsTable(dtable)
      invariant 4 * n + 3 * (count + |Symbols(src[i..])|) == 3 * |Symbols(src)|
      invariant Decoding(out[..n], begun, Symbols(src[i..]), all)
    {
      SymbolsStep(src, i);
      ghost var rest := Symbols(src[i + 1..]);
      var tmp := dtable[src[i]];
      if tmp == INVALID {
        NothingInFront(rest);
      } else {
        var more, bad;
        RoomForBlock(n, count, |rest|, |Symbols(src)|, out.Length);
        n, count, pad, begun, more, bad := TakeOne(block, out, n, count, pad, src[i], tmp, begun, rest, all);
        if bad {
          return 0;
        }
        if !more {
          return n;
        }
      }
      i := i + 1;
    }
    NothingLeft(out[..n], begun, all);
  }
}
