/**
 * Reading primitive fields out of a received datagram: the little-endian
 * reads of `BitConverter.ToInt32` and of QueryMaster's `Parser`, and LINQ's
 * `Skip`, which the packet reassembly uses to drop headers.
 */
module ByteCursor {

  type Byte = b: int | 0 <= b < 256

  const TwoTo31: int := 0x8000_0000
  const TwoTo32: int := 0x1_0000_0000

  /** LINQ `Skip(n)`: everything after the first `n` elements, or nothing when there are fewer. */
  function Skip<T>(s: seq<T>, n: nat): (r: seq<T>)
    ensures |r| == if n <= |s| then |s| - n else 0
    ensures forall i :: 0 <= i < |r| ==> r[i] == s[n + i]
  {
    if n <= |s| then s[n..] else []
  }

  /** Skipping a prefix of a concatenation that lies inside its first part. */
  lemma SkipAppend<T>(a: seq<T>, b: seq<T>, n: nat)
    requires n <= |a|
    ensures Skip(a + b, n) == Skip(a, n) + b
  {
    assert (a + b)[n..] == a[n..] + b;
  }

  /** The four bytes at `off` read as an unsigned little-endian number. */
  function UInt32LE(s: seq<Byte>, off: nat): nat
    requires off + 4 <= |s|
  {
    var b0: int, b1: int, b2: int, b3: int := s[off], s[off + 1], s[off + 2], s[off + 3];
    b0 + 256 * b1 + 65536 * b2 + 16777216 * b3
  }

  /** The four bytes at `off` read as a signed (two's complement) little-endian 32-bit integer. */
  function Int32LE(s: seq<Byte>, off: nat): (v: int)
    requires off + 4 <= |s|
    ensures -TwoTo31 <= v < TwoTo31
  {
    var u := UInt32LE(s, off);
    if u < TwoTo31 then u else u - TwoTo32
  }

  /** The little-endian two's complement encoding of a 32-bit integer. */
  function EncodeInt32(v: int): (b: seq<Byte>)
    requires -TwoTo31 <= v < TwoTo31
    ensures |b| == 4
  {
    var u := if v < 0 then v + TwoTo32 else v;
    var q1 := u / 256;
    var q2 := q1 / 256;
    [u % 256, q1 % 256, q2 % 256, q2 / 256]
  }

  /** A byte and what lies above it, put together and taken apart again. */
  lemma ByteSplit(low: int, high: int)
    requires 0 <= low < 256 && 0 <= high
    ensures (low + 256 * high) / 256 == high && (low + 256 * high) % 256 == low
  {
  }

  /** Reading back an encoded integer gives the integer. */
  lemma DecodeEncodeInt32(v: int)
    requires -TwoTo31 <= v < TwoTo31
    ensures Int32LE(EncodeInt32(v), 0) == v
  {
    var u := if v < 0 then v + TwoTo32 else v;
    var q1 := u / 256;
    var q2 := q1 / 256;
    assert u == u % 256 + 256 * q1;
    assert q1 == q1 % 256 + 256 * q2;
    assert q2 == q2 % 256 + 256 * (q2 / 256);
    assert UInt32LE(EncodeInt32(v), 0) == u;
  }

  /** Every four bytes are the encoding of the integer read from them. */
  lemma EncodeDecodeInt32(s: seq<Byte>, off: nat)
    requires off + 4 <= |s|
    ensures EncodeInt32(Int32LE(s, off)) == s[off..off + 4]
  {
    var b0: int, b1: int, b2: int, b3: int := s[off], s[off + 1], s[off + 2], s[off + 3];
    var r2 := b2 + 256 * b3;
    var r1 := b1 + 256 * r2;
    assert UInt32LE(s, off) == b0 + 256 * r1;
    ByteSplit(b0, r1);
    ByteSplit(b1, r2);
    ByteSplit(b2, b3);
    var e := EncodeInt32(Int32LE(s, off));
    assert e[0] == b0 && e[1] == b1 && e[2] == b2 && e[3] == b3;
  }

  /** The sign of a little-endian integer is the top bit of its last byte. */
  lemma Int32Negative(s: seq<Byte>, off: nat)
    requires off + 4 <= |s|
    ensures Int32LE(s, off) < 0 <==> s[off + 3] >= 128
  {
  }

  /** The value -1 is exactly the four bytes FF FF FF FF. */
  lemma Int32MinusOne(s: seq<Byte>, off: nat)
    requires off + 4 <= |s|
    ensures Int32LE(s, off) == -1 <==> s[off..off + 4] == [255, 255, 255, 255]
  {
    EncodeDecodeInt32(s, off);
  }

  /** The value -2 is exactly the four bytes FE FF FF FF. */
  lemma Int32MinusTwo(s: seq<Byte>, off: nat)
    requires off + 4 <= |s|
    ensures Int32LE(s, off) == -2 <==> s[off..off + 4] == [254, 255, 255, 255]
  {
    EncodeDecodeInt32(s, off);
  }
}
