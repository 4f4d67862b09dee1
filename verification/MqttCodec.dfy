/** MQTT frames on the wire: the variable-size length field and the fixed header (MQTT 3.1.1 section 2.2). */
module MqttCodec {
  import opened Bytes

  const MAX_LENGTH_SIZE := 4
  const MAX_BODY := 268435455  // 128^4 - 1, the largest length four digits can hold

  /** A 4-bit field of the first header byte. */
  type nibble = x: int | 0 <= x < 16

  datatype Frame = Frame(typ: nibble, flags: nibble, body: seq<byte>)

  // ---------------------------------------------------------------- length field

  /** The digits of `value` in base 128, least significant first, all but the last one marked. */
  function EncodedLength(value: nat): (r: seq<byte>)
    ensures 1 <= |r|
  {
    if value < 128 then [value] else [value % 128 + 128] + EncodedLength(value / 128)
  }

  /** `done` written over `was` at `pos`. */
  ghost predicate Written(now: seq<byte>, was: seq<byte>, pos: nat, done: seq<byte>) {
    pos + |done| <= |was| == |now| && now[..pos] == was[..pos] && now[pos..pos + |done|] == done
    && now[pos + |done|..] == was[pos + |done|..]
  }

  /** One more digit behind those already there. */
  method PutDigit(buffer: array<byte>, pos: nat, idx: nat, d: byte, ghost was: seq<byte>, ghost done: seq<byte>)
    requires Written(buffer[..], was, pos, done) && idx == |done| && pos + idx < buffer.Length
    modifies buffer
    ensures Written(buffer[..], was, pos, done + [d])
  {
    buffer[pos + idx] := d;
    assert was[pos + idx..][1..] == was[pos + idx + 1..];
  }

  /** Writes the length field at `buffer[pos..]` and returns the number of bytes written. */
  method EncodeLength(buffer: array<byte>, pos: nat, value: nat) returns (idx: nat)
    requires pos + |EncodedLength(value)| <= buffer.Length
    modifies buffer
    ensures idx == |EncodedLength(value)| && Written(buffer[..], old(buffer[..]), pos, EncodedLength(value))
  {
    idx := 0;
    var v := value;
    var more := true;
    ghost var done: seq<byte> := [];
    while more
      invariant Writing(value, done, more, v) && idx == |done|
      invariant Written(buffer[..], old(buffer[..]), pos, done)
      decreases more, v
    {
      var d: byte := v % 128;
      NextDigit(value, done, v);
      v := v / 128;
      if v > 0 {
        d := d + 128;
      }
      more := v > 0;
      PutDigit(buffer, pos, idx, d, old(buffer[..]), done);
      done := done + [d];
      idx := idx + 1;
    }
  }

  /** The digits in the buffer, and those still to come if there are more. */
  ghost predicate Writing(value: nat, done: seq<byte>, more: bool, v: nat) {
    EncodedLength(value) == done + if more then EncodedLength(v) else []
  }

  lemma NextDigit(value: nat, done: seq<byte>, v: nat)
    requires Writing(value, done, true, v)
    ensures Writing(value, done + [if v / 128 > 0 then v % 128 + 128 else v % 128], v / 128 > 0, v / 128)
    ensures |done| < |EncodedLength(value)|
  {
    if v >= 128 {
      SnocConcat<byte>(done, v % 128 + 128, EncodedLength(v / 128));
    }
  }

  datatype LengthResult = LengthMore | LengthBad | LengthOk(size: nat, value: nat)

  /** The worth of one length digit. */
  function DigitValue(c: byte, multiplier: nat): nat {
    c as int % 128 * multiplier
  }

  /** What the decoder makes of `d` once it has consumed `idx` digits worth `val`. */
  function DecodedFrom(d: seq<byte>, idx: nat, multiplier: nat, val: nat): (r: LengthResult)
    requires idx <= MAX_LENGTH_SIZE
    decreases MAX_LENGTH_SIZE - idx
  {
    if |d| <= idx then LengthMore
    else if idx >= MAX_LENGTH_SIZE then LengthBad
    else
      var v := val + DigitValue(d[idx], multiplier);
      if d[idx] < 128 then LengthOk(idx + 1, v)
      else DecodedFrom(d, idx + 1, multiplier * 128, v)
  }

  function DecodedLength(d: seq<byte>): LengthResult {
    DecodedFrom(d, 0, 1, 0)
  }

  method DecodeLength(d: seq<byte>) returns (r: LengthResult)
    ensures r == DecodedLength(d)
  {
    var multiplier: nat, idx: nat, val: nat := 1, 0, 0;
    var more := true;
    while more
      invariant idx <= MAX_LENGTH_SIZE
      invariant more ==> DecodedLength(d) == DecodedFrom(d, idx, multiplier, val)
      invariant !more ==> DecodedLength(d) == LengthOk(idx, val)
      decreases more, MAX_LENGTH_SIZE - idx
    {
      if |d| <= idx {
        return LengthMore;
      }
      if idx >= MAX_LENGTH_SIZE {
        return LengthBad;
      }
      var c := d[idx];
      idx := idx + 1;
      val := val + DigitValue(c, multiplier);
      multiplier := multiplier * 128;
      more := c >= 128;
    }
    return LengthOk(idx, val);
  }

  /** Number of base-128 digits of `value`, as powers of 128. */
  function DigitsOf(value: nat): nat {
    if value < 128 then 1 else if value < 16384 then 2 else if value < 2097152 then 3
    else if value <= MAX_BODY then 4 else 5
  }

  /** The encoding is minimal: one byte per digit for everything four digits can hold. */
  lemma EncodingIsMinimal(value: nat)
    ensures value <= MAX_BODY ==> |EncodedLength(value)| == DigitsOf(value)
    ensures value > MAX_BODY ==> |EncodedLength(value)| > MAX_LENGTH_SIZE
  {
    var v1 := value / 128;
    var v2 := v1 / 128;
    var v3 := v2 / 128;
    var v4 := v3 / 128;
    assert value >= 128 ==> |EncodedLength(value)| == 1 + |EncodedLength(v1)|;
    assert v1 >= 128 ==> |EncodedLength(v1)| == 1 + |EncodedLength(v2)|;
    assert v2 >= 128 ==> |EncodedLength(v2)| == 1 + |EncodedLength(v3)|;
    assert v3 >= 128 ==> |EncodedLength(v3)| == 1 + |EncodedLength(v4)|;
  }

  /** Whatever decodes to a value is at least as long as its encoding. */
  lemma NoShorterEncoding(d: seq<byte>)
    requires DecodedLength(d).LengthOk?
    ensures |EncodedLength(DecodedLength(d).value)| <= DecodedLength(d).size
  {
    DecodedBound(d, 0, 1, 0);
    EncodingIsMinimal(DecodedLength(d).value);
  }

  function Power128(k: nat): nat {
    if k == 0 then 1 else 128 * Power128(k - 1)
  }

  lemma MulMonotone(a: nat, b: nat, m: nat)
    requires a <= b
    ensures a * m <= b * m
  {
    var rest := b - a;
    assert b * m == a * m + rest * m;
  }

  lemma DigitBound(c: byte, multiplier: nat)
    ensures DigitValue(c, multiplier) <= 127 * multiplier
  {
    MulMonotone(c as int % 128, 127, multiplier);
  }

  lemma {:induction false} DecodedBound(d: seq<byte>, idx: nat, multiplier: nat, val: nat)
    requires idx <= MAX_LENGTH_SIZE && multiplier == Power128(idx) && val < multiplier
    requires DecodedFrom(d, idx, multiplier, val).LengthOk?
    ensures var r := DecodedFrom(d, idx, multiplier, val); r.size <= MAX_LENGTH_SIZE && r.value < Power128(r.size)
    decreases MAX_LENGTH_SIZE - idx
  {
    DigitBound(d[idx], multiplier);
    if d[idx] >= 128 {
      DecodedBound(d, idx + 1, multiplier * 128, val + DigitValue(d[idx], multiplier));
    }
  }

  /** Decoding, started after `idx` digits, reads exactly the encoding of `v`. */
  lemma {:induction false} DecodesEncoding(d: seq<byte>, idx: nat, multiplier: nat, val: nat, v: nat, rest: seq<byte>)
    requires idx + |EncodedLength(v)| <= MAX_LENGTH_SIZE
    requires idx <= |d| && d[idx..] == EncodedLength(v) + rest
    ensures DecodedFrom(d, idx, multiplier, val) == LengthOk(idx + |EncodedLength(v)|, val + v * multiplier)
    decreases v
  {
    assert d[idx] == d[idx..][0];
    if v >= 128 {
      assert d[idx] % 128 == v % 128;
      assert d[idx + 1..] == d[idx..][1..] == EncodedLength(v / 128) + rest;
      DecodesEncoding(d, idx + 1, multiplier * 128, val + DigitValue(d[idx], multiplier), v / 128, rest);
      assert DigitValue(d[idx], multiplier) + v / 128 * (multiplier * 128) == v * multiplier by {
        DigitSum(v, multiplier);
      }
    }
  }

  lemma DigitSum(v: nat, multiplier: nat)
    ensures v % 128 * multiplier + v / 128 * (multiplier * 128) == v * multiplier
  {
    var hi, lo := v / 128, v % 128;
    calc {
      v * multiplier;
      (hi * 128 + lo) * multiplier;
      hi * 128 * multiplier + lo * multiplier;
      hi * (multiplier * 128) + lo * multiplier;
    }
  }

  /** Too many marked digits are an error as soon as a fifth byte is there, and "need more" before. */
  lemma {:induction false} MarkedDigits(d: seq<byte>, idx: nat, multiplier: nat, val: nat)
    requires idx <= MAX_LENGTH_SIZE
    requires forall k :: idx <= k < |d| && k < MAX_LENGTH_SIZE ==> d[k] >= 128
    ensures DecodedFrom(d, idx, multiplier, val) == if |d| > MAX_LENGTH_SIZE then LengthBad else LengthMore
    decreases MAX_LENGTH_SIZE - idx
  {
    if idx < |d| && idx < MAX_LENGTH_SIZE {
      MarkedDigits(d, idx + 1, multiplier * 128, val + DigitValue(d[idx], multiplier));
    }
  }

  lemma {:induction false} AllButLastMarked(v: nat, k: nat)
    requires k < |EncodedLength(v)|
    ensures k + 1 < |EncodedLength(v)| <==> EncodedLength(v)[k] >= 128
  {
    if v >= 128 && k > 0 {
      AllButLastMarked(v / 128, k - 1);
    }
  }

  /** A length survives the round trip exactly when four digits can hold it. */
  lemma LengthRoundTrip(v: nat, rest: seq<byte>)
    ensures DecodedLength(EncodedLength(v) + rest) == LengthOk(|EncodedLength(v)|, v) <==> v <= MAX_BODY
    ensures v > MAX_BODY ==> DecodedLength(EncodedLength(v) + rest) == LengthBad
  {
    var d := EncodedLength(v) + rest;
    EncodingIsMinimal(v);
    if v <= MAX_BODY {
      assert d[0..] == d;
      DecodesEncoding(d, 0, 1, 0, v, rest);
    } else {
      forall k | 0 <= k < |d| && k < MAX_LENGTH_SIZE ensures d[k] >= 128 {
        AllButLastMarked(v, k);
      }
      MarkedDigits(d, 0, 1, 0);
    }
  }

  /** Every strict prefix of an encoding asks for more bytes. */
  lemma LengthPrefixNeedsMore(v: nat, k: nat)
    requires v <= MAX_BODY && k < |EncodedLength(v)|
    ensures DecodedLength(EncodedLength(v)[..k]) == LengthMore
  {
    EncodingIsMinimal(v);
    var d := EncodedLength(v)[..k];
    forall i | 0 <= i < |d| ensures d[i] >= 128 {
      AllButLastMarked(v, i);
    }
    MarkedDigits(d, 0, 1, 0);
  }

  lemma {:induction false} DecodedFromStable(d: seq<byte>, e: seq<byte>, idx: nat, multiplier: nat, val: nat)
    requires idx <= MAX_LENGTH_SIZE
    requires DecodedFrom(d, idx, multiplier, val) != LengthMore
    ensures DecodedFrom(d + e, idx, multiplier, val) == DecodedFrom(d, idx, multiplier, val)
    ensures DecodedFrom(d, idx, multiplier, val).LengthOk? ==> idx < DecodedFrom(d, idx, multiplier, val).size <= |d|
    decreases MAX_LENGTH_SIZE - idx
  {
    if idx < MAX_LENGTH_SIZE && d[idx] >= 128 {
      DecodedFromStable(d, e, idx + 1, multiplier * 128, val + DigitValue(d[idx], multiplier));
    }
  }

  // ---------------------------------------------------------------- frames

  function Header(typ: nibble, flags: nibble, bodyLength: nat): seq<byte> {
    [typ * 16 + flags] + EncodedLength(bodyLength)
  }

  function FormatFrame(f: Frame): seq<byte> {
    Header(f.typ, f.flags, |f.body|) + f.body
  }

  /** `More(hint)`: wait until `hint` bytes are there.  `Got`: a frame, where its body starts, where it ends. */
  datatype ParseResult = More(hint: nat) | Bad | Got(frame: Frame, offset: nat, length: nat)

  function ParseFrame(d: seq<byte>): ParseResult {
    if |d| < 2 then More(2)
    else
      match DecodedLength(d[1..])
      case LengthBad => Bad
      case LengthMore => More(|d| + 1)
      case LengthOk(size, value) =>
        var offset := 1 + size;
        if |d| < offset + value then More(offset + value)
        else Got(Frame(d[0] / 16, d[0] % 16, d[offset..offset + value]), offset, offset + value)
  }

  /** The bytes of a frame, followed by anything, parse back to that frame; longer bodies are refused. */
  lemma FrameRoundTrip(f: Frame, rest: seq<byte>)
    ensures |f.body| <= MAX_BODY ==>
      ParseFrame(FormatFrame(f) + rest) == Got(f, 1 + |EncodedLength(|f.body|)|, |FormatFrame(f)|)
    ensures |f.body| > MAX_BODY ==> ParseFrame(FormatFrame(f) + rest) == Bad
  {
    var n := EncodedLength(|f.body|);
    var d := FormatFrame(f) + rest;
    LengthRoundTrip(|f.body|, f.body + rest);
    assert d[1..] == n + (f.body + rest);
    assert d[1 + |n|..1 + |n| + |f.body|] == f.body;
  }

  /** A decided parse does not depend on the bytes that follow. */
  lemma ParseStable(d: seq<byte>, e: seq<byte>)
    requires !ParseFrame(d).More?
    ensures ParseFrame(d + e) == ParseFrame(d)
    ensures ParseFrame(d).Got? ==> 2 <= ParseFrame(d).length <= |d|
  {
    assert (d + e)[1..] == d[1..] + e && (d + e)[0] == d[0];
    DecodedFromStable(d[1..], e, 0, 1, 0);
    var r := DecodedLength(d[1..]);
    if r.LengthOk? {
      assert 0 < r.size <= |d[1..]|;
      assert (d + e)[1 + r.size..1 + r.size + r.value] == d[1 + r.size..1 + r.size + r.value];
    }
  }

  /** A strict prefix of a frame asks for more, and for no more than the frame has. */
  lemma StrictPrefixNeedsMore(f: Frame, k: nat)
    requires |f.body| <= MAX_BODY && k < |FormatFrame(f)|
    ensures ParseFrame(FormatFrame(f)[..k]).More?
    ensures k < ParseFrame(FormatFrame(f)[..k]).hint <= |FormatFrame(f)|
  {
    var n := EncodedLength(|f.body|);
    var d := FormatFrame(f)[..k];
    if k >= 2 {
      if k < 1 + |n| {
        assert d[1..] == n[..k - 1];
        LengthPrefixNeedsMore(|f.body|, k - 1);
      } else {
        LengthRoundTrip(|f.body|, f.body[..k - 1 - |n|]);
        assert d[1..] == n + f.body[..k - 1 - |n|];
      }
    }
  }
}
