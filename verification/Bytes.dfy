/** Bytes and the integer encodings that appear on the wire.  The host of the original is
    little-endian; fields the original passes through `swap_endian` are big-endian here. */
module Bytes {
  type byte = x: int | 0 <= x < 256

  const TWO_32: nat := 0x1_0000_0000

  /** The number whose base-256 digits are given, most significant first. */
  function Weigh(d3: int, d2: int, d1: int, d0: int): int {
    d0 + 0x100 * d1 + 0x1_0000 * d2 + 0x100_0000 * d3
  }

  lemma WeighDigits(n: nat)
    requires n < TWO_32
    ensures Weigh(n / 0x100_0000, n / 0x1_0000 % 256, n / 0x100 % 256, n % 256) == n
  {
    var q1 := n / 0x100;
    var q2 := q1 / 0x100;
    assert n == q1 * 0x100 + n % 256;
    assert q1 == q2 * 0x100 + q1 % 256;
    assert q2 == q2 / 0x100 * 0x100 + q2 % 256;
    assert n / 0x1_0000 == q2;
    assert n / 0x100_0000 == q2 / 0x100;
  }

  /** A 32-bit value as the host lays it out in memory. */
  function LE32(n: nat): (r: seq<byte>)
    requires n < TWO_32
    ensures |r| == 4
  {
    [n % 256, n / 0x100 % 256, n / 0x1_0000 % 256, n / 0x100_0000]
  }

  function FromLE32(b: seq<byte>): (r: nat)
    requires |b| == 4
    ensures r < TWO_32
  {
    Weigh(b[3], b[2], b[1], b[0])
  }

  /** A 32-bit value in network order (`swap_endian<uint32_t>`). */
  function BE32(n: nat): (r: seq<byte>)
    requires n < TWO_32
    ensures |r| == 4
  {
    [n / 0x100_0000, n / 0x1_0000 % 256, n / 0x100 % 256, n % 256]
  }

  function FromBE32(b: seq<byte>): (r: nat)
    requires |b| == 4
    ensures r < TWO_32
  {
    Weigh(b[0], b[1], b[2], b[3])
  }

  /** The low 24 bits in network order: the DataSegmentLength field of an iSCSI header. */
  function BE24(n: nat): (r: seq<byte>)
    ensures |r| == 3
  {
    [n / 0x1_0000 % 256, n / 0x100 % 256, n % 256]
  }

  function FromBE24(b: seq<byte>): (r: nat)
    requires |b| == 3
    ensures r < 0x100_0000
  {
    Weigh(0, b[0], b[1], b[2])
  }

  lemma LE32RoundTrip(n: nat)
    requires n < TWO_32
    ensures FromLE32(LE32(n)) == n
  {
    WeighDigits(n);
  }

  lemma BE32RoundTrip(n: nat)
    requires n < TWO_32
    ensures FromBE32(BE32(n)) == n
  {
    WeighDigits(n);
  }

  /** The other way round: the digits of a number read are the bytes it was read from. */
  lemma LE32Spells(b: seq<byte>)
    requires |b| == 4
    ensures LE32(FromLE32(b)) == b
  {
    var n: int := FromLE32(b);
    var b0: int, b1: int, b2: int, b3: int := b[0], b[1], b[2], b[3];
    assert n == b0 + 0x100 * (b1 + 0x100 * (b2 + 0x100 * b3));
    assert n / 0x100 == b1 + 0x100 * (b2 + 0x100 * b3);
    assert n / 0x1_0000 == n / 0x100 / 0x100 == b2 + 0x100 * b3;
    assert n / 0x100_0000 == n / 0x100 / 0x100 / 0x100 == b3;
  }

  lemma BE24RoundTrip(n: nat)
    requires n < 0x100_0000
    ensures FromBE24(BE24(n)) == n
  {
    WeighDigits(n);
  }

  /** Concatenation of a list of byte strings, the job of `join_memory`. */
  function Concat(parts: seq<seq<byte>>): seq<byte> {
    if parts == [] then [] else parts[0] + Concat(parts[1..])
  }

  lemma {:induction false} ConcatAppend(a: seq<seq<byte>>, b: seq<seq<byte>>)
    ensures Concat(a + b) == Concat(a) + Concat(b)
  {
    if a == [] {
      assert a + b == b;
    } else {
      assert (a + b)[1..] == a[1..] + b;
      ConcatAppend(a[1..], b);
    }
  }

  lemma ConcatSnoc(parts: seq<seq<byte>>, m: seq<byte>)
    ensures Concat(parts + [m]) == Concat(parts) + m
  {
    ConcatAppend(parts, [m]);
    assert Concat([m]) == m + Concat([m][1..]);
  }
}
