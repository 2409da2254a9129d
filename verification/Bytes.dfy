/** Bytes and the little-endian conversions used on the wire. */
module Bytes {

  type byte = bv8

  function U16ToLe(x: nat): (r: seq<byte>)
    requires x < 0x1_0000
    ensures |r| == 2
  {
    [(x % 256) as byte, (x / 256) as byte]
  }

  function U16FromLe(b0: byte, b1: byte): (r: nat)
    ensures r < 0x1_0000
  {
    (b0 as nat) + 256 * (b1 as nat)
  }

  function U32ToLe(x: bv32): (r: seq<byte>)
    ensures |r| == 4
  {
    [(x & 0xFF) as byte, ((x >> 8) & 0xFF) as byte, ((x >> 16) & 0xFF) as byte, ((x >> 24) & 0xFF) as byte]
  }

  function U32FromLe(b0: byte, b1: byte, b2: byte, b3: byte): bv32 {
    (b0 as bv32) | ((b1 as bv32) << 8) | ((b2 as bv32) << 16) | ((b3 as bv32) << 24)
  }

  function LowHalf(x: bv64): bv32 {
    (x & 0xFFFF_FFFF) as bv32
  }

  function HighHalf(x: bv64): bv32 {
    ((x >> 32) & 0xFFFF_FFFF) as bv32
  }

  function Joined(lo: bv32, hi: bv32): bv64 {
    (lo as bv64) | ((hi as bv64) << 32)
  }

  function U64ToLe(x: bv64): (r: seq<byte>)
    ensures |r| == 8
  {
    U32ToLe(LowHalf(x)) + U32ToLe(HighHalf(x))
  }

  function U64FromLe(b: seq<byte>): bv64
    requires |b| == 8
  {
    Joined(U32FromLe(b[0], b[1], b[2], b[3]), U32FromLe(b[4], b[5], b[6], b[7]))
  }

  /** The first byte is the lowest. */
  lemma LowestFirst()
    ensures U16ToLe(0x0201) == [1, 2] && U32ToLe(0x0403_0201) == [1, 2, 3, 4]
    ensures U64ToLe(0x0807_0605_0403_0201) == [1, 2, 3, 4, 5, 6, 7, 8]
  {
    assert U16ToLe(0x0201)[0] == 1 && U16ToLe(0x0201)[1] == 2;
  }

  lemma ByteOfNat(n: nat)
    requires n < 256
    ensures (n as byte) as nat == n
  {
    assert n % 256 == n;
  }

  lemma NatOfByte(b: byte)
    ensures (b as nat) < 256 && (b as nat) as byte == b
  {
  }

  lemma U16RoundTrip(x: nat)
    requires x < 0x1_0000
    ensures var b := U16ToLe(x); U16FromLe(b[0], b[1]) == x
  {
    ByteOfNat(x % 256);
    ByteOfNat(x / 256);
  }

  lemma U16FromLeParts(b0: byte, b1: byte)
    ensures U16FromLe(b0, b1) % 256 == b0 as nat && U16FromLe(b0, b1) / 256 == b1 as nat
  {
  }

  lemma U16ToLeParts(x: nat, b0: byte, b1: byte)
    requires x < 0x1_0000
    requires x % 256 == b0 as nat && x / 256 == b1 as nat
    ensures U16ToLe(x) == [b0, b1]
  {
    NatOfByte(b0);
    NatOfByte(b1);
  }

  lemma U16BytesRoundTrip(b0: byte, b1: byte)
    ensures U16ToLe(U16FromLe(b0, b1)) == [b0, b1]
  {
    hide *;
    U16FromLeParts(b0, b1);
    U16ToLeParts(U16FromLe(b0, b1), b0, b1);
  }

  lemma U32RoundTrip(x: bv32)
    ensures var b := U32ToLe(x); U32FromLe(b[0], b[1], b[2], b[3]) == x
  {
  }

  lemma U32BytesRoundTrip(b0: byte, b1: byte, b2: byte, b3: byte)
    ensures U32ToLe(U32FromLe(b0, b1, b2, b3)) == [b0, b1, b2, b3]
  {
  }

  lemma HalvesJoined(x: bv64)
    ensures Joined(LowHalf(x), HighHalf(x)) == x
  {
  }

  lemma JoinedHalves(lo: bv32, hi: bv32)
    ensures LowHalf(Joined(lo, hi)) == lo && HighHalf(Joined(lo, hi)) == hi
  {
  }

  lemma U64RoundTrip(x: bv64)
    ensures U64FromLe(U64ToLe(x)) == x
  {
    hide U32ToLe, U32FromLe, Joined, LowHalf, HighHalf;
    U32RoundTrip(LowHalf(x));
    U32RoundTrip(HighHalf(x));
    HalvesJoined(x);
  }

  lemma U64BytesRoundTrip(b: seq<byte>)
    requires |b| == 8
    ensures U64ToLe(U64FromLe(b)) == b
  {
    hide U32ToLe, U32FromLe, Joined, LowHalf, HighHalf;
    U32BytesRoundTrip(b[0], b[1], b[2], b[3]);
    U32BytesRoundTrip(b[4], b[5], b[6], b[7]);
    JoinedHalves(U32FromLe(b[0], b[1], b[2], b[3]), U32FromLe(b[4], b[5], b[6], b[7]));
    assert b == [b[0], b[1], b[2], b[3]] + [b[4], b[5], b[6], b[7]];
  }

  lemma LowNibble(b: byte)
    ensures (b & 0x0F) as nat == (b as nat) % 16
  {
  }

  lemma ModMod(n: nat)
    ensures (n % 256) % 16 == n % 16
  {
  }

  /** The low four bits of a truncated number are the number modulo 16. */
  lemma NibbleOfNat(n: nat, b: byte)
    requires b == (n % 256) as byte
    ensures (b & 0x0F) as nat == n % 16
  {
    ByteOfNat(n % 256);
    LowNibble(b);
    ModMod(n);
  }
}
