/** Bytes and sequence helpers shared by the codecs and the session layers. */
module Bytes {

  /** An `unsigned char`. */
  type byte = x: int | 0 <= x < 256

  /** A 16-bit number, most significant byte first. */
  function Short(n: nat): (r: seq<byte>)
    ensures |r| == 2
  {
    [n / 256 % 256, n % 256]
  }

  /** The 16-bit number stored at `d[0..2]`. */
  function GetShort(d: seq<byte>): nat
    requires |d| >= 2
  {
    d[0] as int * 256 + d[1] as int
  }

  /** The concatenation of a sequence of pieces. */
  function Flatten<T>(pieces: seq<seq<T>>): seq<T> {
    if pieces == [] then [] else pieces[0] + Flatten(pieces[1..])
  }

  lemma FlattenSnoc<T>(pieces: seq<seq<T>>, last: seq<T>)
    ensures Flatten(pieces + [last]) == Flatten(pieces) + last
  {
    if pieces == [] {
      assert pieces + [last] == [last];
    } else {
      assert (pieces + [last])[1..] == pieces[1..] + [last];
      FlattenSnoc(pieces[1..], last);
    }
  }

  lemma ConsConcat<T>(s: seq<T>, x: seq<T>)
    requires s != []
    ensures [s[0]] + (s[1..] + x) == s + x
  {
  }

  lemma SnocConcat<T>(s: seq<T>, x: T, t: seq<T>)
    ensures s + ([x] + t) == (s + [x]) + t
  {
  }

  lemma SliceOfSlice<T>(a: seq<T>, i: nat, j: nat, k: nat, l: nat)
    requires i <= j <= |a| && k <= l <= j - i
    ensures a[i..j][k..l] == a[i + k..i + l]
  {
    forall x | 0 <= x < l - k ensures a[i..j][k..l][x] == a[i + k..i + l][x] {
      assert a[i..j][k..l][x] == a[i..j][k + x] == a[i + (k + x)];
    }
  }

  /** If two texts extend each other's parts, the shorter head is a prefix of the longer one. */
  lemma PrefixOfLonger<T>(a: seq<T>, x: seq<T>, b: seq<T>, y: seq<T>)
    requires a + x == b + y
    requires |a| <= |b|
    ensures a <= b
  {
    forall i | 0 <= i < |a| ensures a[i] == b[i] {
      assert a[i] == (a + x)[i] == (b + y)[i];
    }
  }
}
