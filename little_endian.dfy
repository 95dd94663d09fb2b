/**
 The unsigned little-endian integers of the BMP headers, as `_read_int16`
 and `_read_int32` assemble them, with the encoders they invert.
 */
module LittleEndian {
  import opened ByteStream
  import Bits

  /** b[0] + b[1] * 2^8: always below 2^16. */
  function UInt16(b: seq<byte>): (v: nat)
    requires |b| == 2
    ensures v < 0x1_0000
  {
    b[0] as nat + b[1] as nat * 0x100
  }

  /** b[0] + b[1] * 2^8 + b[2] * 2^16 + b[3] * 2^24: always below 2^32. */
  function UInt32(b: seq<byte>): (v: nat)
    requires |b| == 4
    ensures v < 0x1_0000_0000
  {
    b[0] as nat + b[1] as nat * 0x100 + b[2] as nat * 0x1_0000 + b[3] as nat * 0x100_0000
  }

  function Bytes16(v: nat): (b: seq<byte>)
    requires v < 0x1_0000
    ensures |b| == 2
  {
    [(v % 0x100) as byte, (v / 0x100) as byte]
  }

  function Bytes32(v: nat): (b: seq<byte>)
    requires v < 0x1_0000_0000
    ensures |b| == 4
  {
    [(v % 0x100) as byte, (v / 0x100 % 0x100) as byte,
     (v / 0x1_0000 % 0x100) as byte, (v / 0x100_0000) as byte]
  }

  lemma UInt16RoundTrip(v: nat)
    requires v < 0x1_0000
    ensures UInt16(Bytes16(v)) == v
  {
  }

  lemma Bytes16RoundTrip(b: seq<byte>)
    requires |b| == 2
    ensures Bytes16(UInt16(b)) == b
  {
  }

  lemma UInt32RoundTrip(v: nat)
    requires v < 0x1_0000_0000
    ensures UInt32(Bytes32(v)) == v
  {
    var v1, v2 := v / 0x100, v / 0x1_0000;
    var b0, b3 := v % 0x100, v / 0x100_0000;
    Bits.DivModUnique(v, 0x1_0000, v1 / 0x100, v % 0x100 + v1 % 0x100 * 0x100);
    Bits.DivModUnique(v, 0x100_0000, v2 / 0x100, v % 0x100 + v1 % 0x100 * 0x100 + v2 % 0x100 * 0x1_0000);
    assert v == b0 + v1 % 0x100 * 0x100 + v2 % 0x100 * 0x1_0000 + b3 * 0x100_0000;
  }

  lemma Bytes32RoundTrip(b: seq<byte>)
    requires |b| == 4
    ensures Bytes32(UInt32(b)) == b
  {
    var v := UInt32(b);
    var b0, b1, b2, b3 := b[0] as nat, b[1] as nat, b[2] as nat, b[3] as nat;
    var h2 := b2 + b3 * 0x100;
    var h1 := b1 + h2 * 0x100;
    Bits.DivModUnique(v, 0x100, h1, b0);
    Bits.DivModUnique(h1, 0x100, h2, b1);
    Bits.DivModUnique(v, 0x1_0000, h2, b0 + b1 * 0x100);
    Bits.DivModUnique(h2, 0x100, b3, b2);
    Bits.DivModUnique(v, 0x100_0000, b3, b0 + b1 * 0x100 + b2 * 0x1_0000);
    assert Bytes32(v) == [b[0], b[1], b[2], b[3]];
  }

  /** Two byte strings of the same length read as the same integer only if they are equal. */
  lemma UInt32Injective(a: seq<byte>, b: seq<byte>)
    requires |a| == 4 && |b| == 4 && UInt32(a) == UInt32(b)
    ensures a == b
  {
    Bytes32RoundTrip(a);
    Bytes32RoundTrip(b);
  }
}
