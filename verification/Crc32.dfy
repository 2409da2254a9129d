/**
 The reference checksum: CRC-32/ISO-HDLC computed bit by bit (section 8 of RFC 1952, section
 8.1.1.6.2 of ITU-T V.42), and what the packet formats rely on it for.
 */
module Crc32 {
  import opened Bytes

  const INIT: bv32 := 0xFFFF_FFFF
  const FINAL_XOR: bv32 := 0xFFFF_FFFF
  const POLYNOMIAL: bv32 := 0xEDB8_8320

  function Xor(a: bv32, b: bv32): bv32 {
    a ^ b
  }

  function BitStep(c: bv32): bv32 {
    if c & 1 == 1 then (c >> 1) ^ POLYNOMIAL else c >> 1
  }

  /** The register after `n` bits are shifted out. */
  function Steps(c: bv32, n: nat): bv32
    decreases n
  {
    if n == 0 then c else Steps(BitStep(c), n - 1)
  }

  function EightSteps(c: bv32): bv32 {
    Steps(c, 8)
  }

  function ByteStep(c: bv32, b: byte): bv32 {
    EightSteps(Xor(c, b as bv32))
  }

  /** The register after the bytes of `data`, starting from `c`. */
  function Fold(c: bv32, data: seq<byte>): bv32
    decreases |data|
  {
    if data == [] then c else Fold(ByteStep(c, data[0]), data[1..])
  }

  function Checksum(data: seq<byte>): bv32 {
    Xor(Fold(INIT, data), FINAL_XOR)
  }

  lemma {:induction false} FoldAppend(c: bv32, a: seq<byte>, b: seq<byte>)
    ensures Fold(c, a + b) == Fold(Fold(c, a), b)
    decreases |a|
  {
    hide ByteStep;
    if a == [] {
      assert a + b == b;
    } else {
      assert (a + b)[1..] == a[1..] + b;
      FoldAppend(ByteStep(c, a[0]), a[1..], b);
    }
  }

  // ----- the published check value

  /** The register after each of the digits 1 to 9. */
  lemma CheckRegisters()
    ensures ByteStep(INIT, 0x31) == 0x7C23_1048
    ensures ByteStep(0x7C23_1048, 0x32) == 0xB0AC_BB32
    ensures ByteStep(0xB0AC_BB32, 0x33) == 0x77B7_9C2D
    ensures ByteStep(0x77B7_9C2D, 0x34) == 0x641C_1F5C
    ensures ByteStep(0x641C_1F5C, 0x35) == 0x340A_C5E3
    ensures ByteStep(0x340A_C5E3, 0x36) == 0xF68D_2C9E
    ensures ByteStep(0xF68D_2C9E, 0x37) == 0xAFFC_9660
    ensures ByteStep(0xAFFC_9660, 0x38) == 0x651F_2550
    ensures ByteStep(0x651F_2550, 0x39) == 0x340B_C6D9
  {
  }

  /** The check value of CRC-32/ISO-HDLC: the checksum of the digits 1 to 9. */
  lemma CheckValue()
    ensures Checksum([0x31, 0x32, 0x33, 0x34, 0x35, 0x36, 0x37, 0x38, 0x39]) == 0xCBF4_3926
  {
    hide ByteStep;
    CheckRegisters();
    var digits: seq<byte> := [0x31, 0x32, 0x33, 0x34, 0x35, 0x36, 0x37, 0x38, 0x39];
    assert Fold(INIT, digits[0..]) == Fold(0x7C23_1048, digits[1..]);
    assert Fold(0x7C23_1048, digits[1..]) == Fold(0xB0AC_BB32, digits[2..]);
    assert Fold(0xB0AC_BB32, digits[2..]) == Fold(0x77B7_9C2D, digits[3..]);
    assert Fold(0x77B7_9C2D, digits[3..]) == Fold(0x641C_1F5C, digits[4..]);
    assert Fold(0x641C_1F5C, digits[4..]) == Fold(0x340A_C5E3, digits[5..]);
    assert Fold(0x340A_C5E3, digits[5..]) == Fold(0xF68D_2C9E, digits[6..]);
    assert Fold(0xF68D_2C9E, digits[6..]) == Fold(0xAFFC_9660, digits[7..]);
    assert Fold(0xAFFC_9660, digits[7..]) == Fold(0x651F_2550, digits[8..]);
    assert Fold(0x651F_2550, digits[8..]) == Fold(0x340B_C6D9, digits[9..]);
  }

  // ----- the register never forgets a difference

  lemma XorCancel(a: bv32, b: bv32, x: bv32)
    requires Xor(a, x) == Xor(b, x)
    ensures a == b
  {
    assert (a ^ x) ^ x == a && (b ^ x) ^ x == b;
  }

  lemma BitStepInjective(a: bv32, b: bv32)
    requires BitStep(a) == BitStep(b)
    ensures a == b
  {
  }

  lemma {:induction false} StepsInjective(a: bv32, b: bv32, n: nat)
    requires Steps(a, n) == Steps(b, n)
    ensures a == b
    decreases n
  {
    hide BitStep;
    if n != 0 {
      StepsInjective(BitStep(a), BitStep(b), n - 1);
      BitStepInjective(a, b);
    }
  }

  lemma {:induction false} FoldInjective(a: bv32, b: bv32, data: seq<byte>)
    requires Fold(a, data) == Fold(b, data)
    ensures a == b
    decreases |data|
  {
    hide Steps, Xor;
    if data != [] {
      FoldInjective(ByteStep(a, data[0]), ByteStep(b, data[0]), data[1..]);
      var d := data[0] as bv32;
      StepsInjective(Xor(a, d), Xor(b, d), 8);
      XorCancel(a, b, d);
    }
  }

  // ----- four bytes act on the register as one 32-bit word

  lemma ShiftXor(a: bv32, b: bv32)
    ensures (a ^ b) >> 1 == (a >> 1) ^ (b >> 1)
  {
  }

  lemma LowBitXor(a: bv32, b: bv32)
    ensures (a ^ b) & 1 == 1 <==> (a & 1 == 1) != (b & 1 == 1)
  {
  }

  lemma BitStepOfXor(a: bv32, b: bv32)
    ensures BitStep(a ^ b) == BitStep(a) ^ BitStep(b)
  {
    ShiftXor(a, b);
    LowBitXor(a, b);
    var p, q := a >> 1, b >> 1;
    assert (p ^ POLYNOMIAL) ^ q == (p ^ q) ^ POLYNOMIAL;
    assert p ^ (q ^ POLYNOMIAL) == (p ^ q) ^ POLYNOMIAL;
    assert (p ^ POLYNOMIAL) ^ (q ^ POLYNOMIAL) == p ^ q;
  }

  lemma BitStepLinear(a: bv32, b: bv32)
    ensures BitStep(Xor(a, b)) == Xor(BitStep(a), BitStep(b))
  {
    hide BitStep;
    BitStepOfXor(a, b);
  }

  lemma {:induction false} StepsLinear(a: bv32, b: bv32, n: nat)
    ensures Steps(Xor(a, b), n) == Xor(Steps(a, n), Steps(b, n))
    decreases n
  {
    hide BitStep, Xor;
    if n != 0 {
      BitStepLinear(a, b);
      StepsLinear(BitStep(a), BitStep(b), n - 1);
    }
  }

  lemma EvenStep(x: bv32)
    requires x & 1 == 0
    ensures BitStep(x) == x >> 1
  {
  }

  lemma TwoBitsShiftOut(x: bv32)
    requires x & 3 == 0
    ensures BitStep(BitStep(x)) == x >> 2
  {
    EvenStep(x);
    EvenStep(x >> 1);
    assert (x >> 1) >> 1 == x >> 2;
  }

  lemma FourBitsShiftOut(x: bv32)
    requires x & 15 == 0
    ensures BitStep(BitStep(BitStep(BitStep(x)))) == x >> 4
  {
    TwoBitsShiftOut(x);
    TwoBitsShiftOut(x >> 2);
    assert (x >> 2) >> 2 == x >> 4;
  }

  lemma UnfoldFour(x: bv32, n: nat)
    requires n >= 4
    ensures Steps(x, n) == Steps(BitStep(BitStep(BitStep(BitStep(x)))), n - 4)
  {
    hide BitStep;
    var y := BitStep(x);
    var z := BitStep(y);
    assert Steps(x, n) == Steps(y, n - 1) == Steps(z, n - 2) == Steps(BitStep(z), n - 3);
  }

  lemma ZeroByteShiftsOut(x: bv32)
    requires x & 0xFF == 0
    ensures EightSteps(x) == x >> 8
  {
    FourBitsShiftOut(x);
    FourBitsShiftOut(x >> 4);
    assert (x >> 4) >> 4 == x >> 8;
    UnfoldFour(x, 8);
    UnfoldFour(x >> 4, 4);
  }

  lemma SplitLowByte(c: bv32, x: bv32)
    ensures Xor(c, x) == Xor(Xor(c, x & 0xFF), x & 0xFFFF_FF00)
    ensures (x & 0xFFFF_FF00) & 0xFF == 0 && (x & 0xFFFF_FF00) >> 8 == x >> 8
  {
  }

  /** Mixing in a whole word and shifting out a byte uses up the word's low byte only. */
  lemma ShiftWord(c: bv32, x: bv32)
    ensures EightSteps(Xor(c, x)) == Xor(EightSteps(Xor(c, x & 0xFF)), x >> 8)
  {
    hide Steps, Xor;
    SplitLowByte(c, x);
    StepsLinear(Xor(c, x & 0xFF), x & 0xFFFF_FF00, 8);
    ZeroByteShiftsOut(x & 0xFFFF_FF00);
  }

  lemma BytesOfWord(b0: byte, b1: byte, b2: byte, b3: byte)
    ensures
      var x := U32FromLe(b0, b1, b2, b3);
      && x & 0xFF == b0 as bv32
      && (x >> 8) & 0xFF == b1 as bv32
      && ((x >> 8) >> 8) & 0xFF == b2 as bv32
      && (((x >> 8) >> 8) >> 8) & 0xFF == b3 as bv32
      && (((x >> 8) >> 8) >> 8) >> 8 == 0
  {
  }

  function FourBytes(c: bv32): bv32 {
    EightSteps(EightSteps(EightSteps(EightSteps(c))))
  }

  lemma FourBytesInjective(p: bv32, q: bv32)
    requires FourBytes(p) == FourBytes(q)
    ensures p == q
  {
    hide Steps;
    StepsInjective(EightSteps(EightSteps(EightSteps(p))), EightSteps(EightSteps(EightSteps(q))), 8);
    StepsInjective(EightSteps(EightSteps(p)), EightSteps(EightSteps(q)), 8);
    StepsInjective(EightSteps(p), EightSteps(q), 8);
    StepsInjective(p, q, 8);
  }

  lemma FoldFour(c: bv32, w: seq<byte>)
    requires |w| == 4
    ensures Fold(c, w) == ByteStep(ByteStep(ByteStep(ByteStep(c, w[0]), w[1]), w[2]), w[3])
  {
    hide ByteStep;
    var c1 := ByteStep(c, w[0]);
    var c2 := ByteStep(c1, w[1]);
    var c3 := ByteStep(c2, w[2]);
    assert w[1..][1..][1..][1..] == [];
    assert Fold(c, w) == Fold(c1, w[1..]) == Fold(c2, w[1..][1..]) == Fold(c3, w[1..][1..][1..]);
    assert Fold(c3, w[1..][1..][1..]) == Fold(ByteStep(c3, w[3]), w[1..][1..][1..][1..]);
  }

  lemma WordStep(c: bv32, w: seq<byte>)
    requires |w| == 4
    ensures Fold(c, w) == FourBytes(Xor(c, U32FromLe(w[0], w[1], w[2], w[3])))
  {
    hide EightSteps, Xor, U32FromLe;
    BytesOfWord(w[0], w[1], w[2], w[3]);
    var x := U32FromLe(w[0], w[1], w[2], w[3]);
    var x1 := x >> 8;
    var x2 := x1 >> 8;
    var x3 := x2 >> 8;
    ShiftWord(c, x);
    var c1 := ByteStep(c, w[0]);
    ShiftWord(c1, x1);
    var c2 := ByteStep(c1, w[1]);
    ShiftWord(c2, x2);
    var c3 := ByteStep(c2, w[2]);
    ShiftWord(c3, x3);
    XorZero(ByteStep(c3, w[3]));
    FoldFour(c, w);
  }

  lemma XorZero(c: bv32)
    ensures Xor(c, 0) == c
  {
  }

  // ----- burst errors

  lemma FullWindowInjective(c: bv32, v: seq<byte>, w: seq<byte>)
    requires |v| == |w| == 4
    requires Fold(c, v) == Fold(c, w)
    ensures v == w
  {
    hide FourBytes, Xor, U32FromLe, U32ToLe;
    WordStep(c, v);
    WordStep(c, w);
    var x, y := U32FromLe(v[0], v[1], v[2], v[3]), U32FromLe(w[0], w[1], w[2], w[3]);
    FourBytesInjective(Xor(c, x), Xor(c, y));
    XorCommutes(c, x);
    XorCommutes(c, y);
    XorCancel(x, y, c);
    U32BytesRoundTrip(v[0], v[1], v[2], v[3]);
    U32BytesRoundTrip(w[0], w[1], w[2], w[3]);
    assert v == [v[0], v[1], v[2], v[3]] == [w[0], w[1], w[2], w[3]] == w;
  }

  lemma XorCommutes(a: bv32, b: bv32)
    ensures Xor(a, b) == Xor(b, a)
  {
  }

  lemma {:induction false} WindowInjective(c: bv32, v: seq<byte>, w: seq<byte>)
    requires |v| == |w| <= 4
    requires Fold(c, v) == Fold(c, w)
    ensures v == w
    decreases 4 - |v|
  {
    hide Fold;
    if |v| == 4 {
      FullWindowInjective(c, v, w);
    } else {
      FoldAppend(c, v, [0]);
      FoldAppend(c, w, [0]);
      WindowInjective(c, v + [0], w + [0]);
      assert v == (v + [0])[..|v|] && w == (w + [0])[..|w|];
    }
  }

  /** `a` and `b` are different, but only at four consecutive positions starting at `at`. */
  ghost predicate DifferInBurst(a: seq<byte>, b: seq<byte>, at: nat) {
    && |a| == |b|
    && a != b
    && forall j | 0 <= j < |a| && !(at <= j < at + 4) :: a[j] == b[j]
  }

  /** Every change confined to four consecutive bytes changes the checksum. */
  lemma BurstDetected(a: seq<byte>, b: seq<byte>, at: nat)
    requires DifferInBurst(a, b, at)
    ensures Checksum(a) != Checksum(b)
  {
    hide Fold, Xor;
    var i := if at <= |a| then at else |a|;
    var end := if at + 4 <= |a| then at + 4 else |a|;
    var c := Fold(INIT, a[..i]);
    var u, v, tail := a[i..end], b[i..end], a[end..];
    assert a[..i] == b[..i];
    assert tail == b[end..];
    assert a == a[..i] + (u + tail);
    assert b == a[..i] + (v + tail);
    FoldAppend(INIT, a[..i], u + tail);
    FoldAppend(INIT, a[..i], v + tail);
    FoldAppend(c, u, tail);
    FoldAppend(c, v, tail);
    if Checksum(a) == Checksum(b) {
      XorCancel(Fold(INIT, a), Fold(INIT, b), FINAL_XOR);
      FoldInjective(Fold(c, u), Fold(c, v), tail);
      WindowInjective(c, u, v);
      assert false;
    }
  }
}
