/** Octets, their bit patterns, and the big-endian fields that every layer of the tunnel shares.

    Lengths, counters and types are ordinary integers; the few operations that work on bits (the
    frame check sequence and the RC4 exclusive-or) go through `ByteBits` and `ByteValue`, which are
    inverse to each other. */
module Bytes {

  type byte = x: int | 0 <= x < 0x100
  type uint16 = x: int | 0 <= x < 0x1_0000
  type uint32 = x: int | 0 <= x < 0x1_0000_0000

  // ----- bit patterns -----

  function NibbleValue(x: bv8): (n: nat)
    ensures n < 16
  {
    (if x & 8 == 8 then 8 else 0) + (if x & 4 == 4 then 4 else 0) +
    (if x & 2 == 2 then 2 else 0) + (if x & 1 == 1 then 1 else 0)
  }

  function NibbleBits(n: nat): (x: bv8)
    requires n < 16
    ensures x <= 15 && NibbleValue(x) == n
  {
    (if n >= 8 then 8 else 0) | (if n % 8 >= 4 then 4 else 0) |
    (if n % 4 >= 2 then 2 else 0) | (if n % 2 >= 1 then 1 else 0)
  }

  function ByteValue(x: bv8): byte {
    16 * NibbleValue(x >> 4) + NibbleValue(x & 15)
  }

  function ByteBits(n: byte): bv8 {
    (NibbleBits(n / 16) << 4) | NibbleBits(n % 16)
  }

  lemma NibbleBitsOfValue(x: bv8)
    requires x <= 15
    ensures NibbleBits(NibbleValue(x)) == x
  {
  }

  lemma ByteValueOfBits(n: byte)
    ensures ByteValue(ByteBits(n)) == n
  {
    var h, l := NibbleBits(n / 16), NibbleBits(n % 16);
    hide NibbleBits, NibbleValue;
    assert ((h << 4) | l) >> 4 == h;
    assert ((h << 4) | l) & 15 == l;
  }

  lemma ByteBitsOfValue(x: bv8)
    ensures ByteBits(ByteValue(x)) == x
  {
    hide NibbleBits, NibbleValue;
    var h, l := x >> 4, x & 15;
    assert h <= 15 && l <= 15 && (h << 4) | l == x;
    NibbleBitsOfValue(h);
    NibbleBitsOfValue(l);
  }

  function Xor(a: byte, b: byte): byte {
    ByteValue(ByteBits(a) ^ ByteBits(b))
  }

  lemma XorBitsTwice(x: bv8, y: bv8)
    ensures (x ^ y) ^ y == x
  {
  }

  lemma XorTwice(a: byte, b: byte)
    ensures Xor(Xor(a, b), b) == a
  {
    hide ByteValue, ByteBits;
    var x, y := ByteBits(a), ByteBits(b);
    assert Xor(a, b) == ByteValue(x ^ y) ;
    ByteBitsOfValue(x ^ y);
    assert Xor(Xor(a, b), b) == ByteValue((x ^ y) ^ y);
    XorBitsTwice(x, y);
    ByteValueOfBits(a);
  }

  // The bits of an octet, from the lowest on.
  function BitsOf(n: byte): (r: seq<bool>)
    ensures |r| == 8
  {
    [n % 2 == 1, n / 2 % 2 == 1, n / 4 % 2 == 1, n / 8 % 2 == 1,
     n / 16 % 2 == 1, n / 32 % 2 == 1, n / 64 % 2 == 1, n / 128 % 2 == 1]
  }

  function Has(x: bv8, mask: bv8): bool {
    x & mask == mask
  }

  function BvBits(x: bv8): (r: seq<bool>)
    ensures |r| == 8
  {
    [Has(x, 1), Has(x, 2), Has(x, 4), Has(x, 8), Has(x, 16), Has(x, 32), Has(x, 64), Has(x, 128)]
  }

  function Unequal(p: seq<bool>, q: seq<bool>): (r: seq<bool>)
    requires |p| == |q| == 8
  {
    [p[0] != q[0], p[1] != q[1], p[2] != q[2], p[3] != q[3], p[4] != q[4], p[5] != q[5], p[6] != q[6], p[7] != q[7]]
  }

  lemma NibbleBit(x: bv8)
    ensures var n := NibbleValue(x);
      && (n % 2 == 1 <==> Has(x, 1)) && (n / 2 % 2 == 1 <==> Has(x, 2))
      && (n / 4 % 2 == 1 <==> Has(x, 4)) && (n / 8 % 2 == 1 <==> Has(x, 8))
  {
  }

  lemma Halves(x: bv8)
    ensures Has(x >> 4, 1) <==> Has(x, 16)
    ensures Has(x >> 4, 2) <==> Has(x, 32)
    ensures Has(x >> 4, 4) <==> Has(x, 64)
    ensures Has(x >> 4, 8) <==> Has(x, 128)
    ensures (Has(x & 15, 1) <==> Has(x, 1)) && (Has(x & 15, 2) <==> Has(x, 2))
    ensures (Has(x & 15, 4) <==> Has(x, 4)) && (Has(x & 15, 8) <==> Has(x, 8))
  {
  }

  lemma LowNibble(n: byte, h: nat, l: nat)
    requires n == 16 * h + l && l < 16
    ensures n % 2 == l % 2 && n / 2 % 2 == l / 2 % 2 && n / 4 % 2 == l / 4 % 2 && n / 8 % 2 == l / 8 % 2
  {
    assert n / 2 == 8 * h + l / 2;
    assert n / 4 == 4 * h + l / 4;
    assert n / 8 == 2 * h + l / 8;
  }

  lemma HighNibble(n: byte, h: nat, l: nat)
    requires n == 16 * h + l && l < 16
    ensures n / 16 == h && n / 32 == h / 2 && n / 64 == h / 4 && n / 128 == h / 8
  {
    assert n / 16 == h;
  }

  lemma ValueBits(x: bv8)
    ensures BitsOf(ByteValue(x)) == BvBits(x)
  {
    hide NibbleValue, Has;
    Halves(x);
    NibbleBit(x >> 4);
    NibbleBit(x & 15);
    LowNibble(ByteValue(x), NibbleValue(x >> 4), NibbleValue(x & 15));
    HighNibble(ByteValue(x), NibbleValue(x >> 4), NibbleValue(x & 15));
  }

  lemma XorMasks(x: bv8, y: bv8)
    ensures Has(x ^ y, 1) <==> Has(x, 1) != Has(y, 1)
    ensures Has(x ^ y, 2) <==> Has(x, 2) != Has(y, 2)
    ensures Has(x ^ y, 4) <==> Has(x, 4) != Has(y, 4)
    ensures Has(x ^ y, 8) <==> Has(x, 8) != Has(y, 8)
    ensures Has(x ^ y, 16) <==> Has(x, 16) != Has(y, 16)
    ensures Has(x ^ y, 32) <==> Has(x, 32) != Has(y, 32)
    ensures Has(x ^ y, 64) <==> Has(x, 64) != Has(y, 64)
    ensures Has(x ^ y, 128) <==> Has(x, 128) != Has(y, 128)
  {
  }

  lemma BitwiseUnequal(x: bv8, y: bv8, z: bv8)
    requires Has(z, 1) <==> Has(x, 1) != Has(y, 1)
    requires Has(z, 2) <==> Has(x, 2) != Has(y, 2)
    requires Has(z, 4) <==> Has(x, 4) != Has(y, 4)
    requires Has(z, 8) <==> Has(x, 8) != Has(y, 8)
    requires Has(z, 16) <==> Has(x, 16) != Has(y, 16)
    requires Has(z, 32) <==> Has(x, 32) != Has(y, 32)
    requires Has(z, 64) <==> Has(x, 64) != Has(y, 64)
    requires Has(z, 128) <==> Has(x, 128) != Has(y, 128)
    ensures BvBits(z) == Unequal(BvBits(x), BvBits(y))
  {
    hide Has;
  }

  /** Exclusive-or, bit by bit. */
  lemma XorBits(a: byte, b: byte)
    ensures BitsOf(Xor(a, b)) == Unequal(BitsOf(a), BitsOf(b))
  {
    hide ByteValue, ByteBits, BitsOf, BvBits, Has, Unequal;
    var x, y := ByteBits(a), ByteBits(b);
    ByteValueOfBits(a);
    ByteValueOfBits(b);
    ValueBits(x);
    ValueBits(y);
    ValueBits(x ^ y);
    XorMasks(x, y);
    BitwiseUnequal(x, y, x ^ y);
  }

  lemma FromBits(n: byte)
    ensures var b := BitsOf(n);
      n == (if b[0] then 1 else 0) + (if b[1] then 2 else 0) + (if b[2] then 4 else 0) + (if b[3] then 8 else 0)
         + (if b[4] then 16 else 0) + (if b[5] then 32 else 0) + (if b[6] then 64 else 0) + (if b[7] then 128 else 0)
  {
    var b := BitsOf(n);
    LowBit(n, 1);
    LowBit(n, 2);
    LowBit(n, 4);
    LowBit(n, 8);
    LowBit(n, 16);
    LowBit(n, 32);
    LowBit(n, 64);
    assert n / 128 == if b[7] then 1 else 0;
  }

  lemma LowBit(n: byte, m: nat)
    requires m in {1, 2, 4, 8, 16, 32, 64}
    ensures n / m == 2 * (n / (2 * m)) + (if n / m % 2 == 1 then 1 else 0)
  {
    assert n / m / 2 == n / (2 * m);
  }

  lemma BitsOf32()
    ensures BitsOf(32) == [false, false, false, false, false, true, false, false]
  {
  }

  /** The exclusive-or with 32 adds it where it is missing, and takes it away where it is there. */
  lemma Xor32(n: byte)
    ensures Xor(n, 32) == if n / 32 % 2 == 1 then n - 32 else n + 32
  {
    XorBits(n, 32);
    BitsOf32();
    FromBits(n);
    FromBits(Xor(n, 32));
    assert BitsOf(n)[5] == (n / 32 % 2 == 1);
    hide BitsOf, Xor;
  }

  // ----- big-endian fields -----

  function PutBe16(v: uint16): seq<byte> {
    [v / 0x100, v % 0x100]
  }

  lemma Be16Size(v: uint16)
    ensures |PutBe16(v)| == 2
  {
  }

  function GetBe16(p: seq<byte>): uint16
    requires |p| >= 2
  {
    var hi: int, lo: int := p[0], p[1];
    hi * 0x100 + lo
  }

  function PutBe32(v: uint32): seq<byte> {
    PutBe16(v / 0x1_0000) + PutBe16(v % 0x1_0000)
  }

  function GetBe32(p: seq<byte>): uint32
    requires |p| >= 4
  {
    var hi: int, lo: int := GetBe16(p), GetBe16(p[2..]);
    hi * 0x1_0000 + lo
  }

  lemma Be32RoundTrip(v: uint32)
    ensures |PutBe32(v)| == 4 && GetBe32(PutBe32(v)) == v
  {
    var hi, lo := v / 0x1_0000, v % 0x1_0000;
    assert PutBe32(v)[2..] == PutBe16(lo);
    assert GetBe16(PutBe32(v)) == GetBe16(PutBe16(hi)) == hi;
  }
}
