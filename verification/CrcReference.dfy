/** The checksum against what it is known to be: a polynomial remainder, its residue, and its check value. */
module CrcReference {
  import opened Bytes
  import opened Checksum

  // ── the remainder of a long division ───────────────────────────────────

  /** Long division over the two-element field, highest coefficient first, by the polynomial of degree 32 whose other
      coefficients are `POLY`: what is left when no more than 32 coefficients are. */
  function Remainder(dividend: Bits): Word
    requires |dividend| >= 32
    decreases |dividend|
  {
    if |dividend| == 32 then dividend
    else if dividend[0] then Remainder(Xor(dividend[1..33], POLY) + dividend[33..])
    else Remainder(dividend[1..])
  }

  /** The message followed by 32 zeros, the register mixed into the first 32 coefficients. */
  function Mixed(reg: Word, bits: Bits): (r: Bits)
    ensures |r| == 32 + |bits|
  {
    var padded := bits + Zeros(32);
    Xor(reg, padded[..32]) + padded[32..]
  }

  lemma {:induction false} FeedIsRemainder(reg: Word, bits: Bits)
    ensures FeedBits(reg, bits) == Remainder(Mixed(reg, bits))
    decreases |bits|
  {
    var m := Mixed(reg, bits);
    if bits == [] {
      assert m == reg;
    } else {
      var next := FeedBit(reg, bits[0]);
      FeedIsRemainder(next, bits[1..]);
      MixedStep(reg, bits);
    }
  }

  lemma MixedStep(reg: Word, bits: Bits)
    requires bits != []
    ensures var m := Mixed(reg, bits);
      Mixed(FeedBit(reg, bits[0]), bits[1..]) == if m[0] then Xor(m[1..33], POLY) + m[33..] else m[1..]
  {
    var m, padded, rest := Mixed(reg, bits), bits + Zeros(32), bits[1..] + Zeros(32);
    var next := Mixed(FeedBit(reg, bits[0]), bits[1..]);
    assert m[0] == (reg[0] != bits[0]) && rest == padded[1..];
    forall i | 0 <= i < |next|
      ensures next[i] == (if m[0] then Xor(m[1..33], POLY) + m[33..] else m[1..])[i]
    {
      if i < 32 {
        assert Shr(reg, 1)[i] == if i < 31 then reg[i + 1] else false;
        assert m[i + 1] == if i < 31 then reg[i + 1] != padded[i + 1] else padded[i + 1];
      } else {
        assert m[i + 1] == padded[i + 1] == rest[i];
      }
    }
  }

  /** The checksum is the complemented remainder of the message, its first 32 bits complemented, times x^32. */
  lemma CrcIsRemainder(bytes: Bytes)
    ensures var padded := Message(bytes) + Zeros(32);
      Crc(bytes) == Not(Remainder(Not(padded[..32]) + padded[32..]))
  {
    var padded := Message(bytes) + Zeros(32);
    FeedIsRemainder(ALL_ONES, Message(bytes));
    assert Xor(ALL_ONES, padded[..32]) == Not(padded[..32]);
  }

  // ── the register as a machine word ─────────────────────────────────────

  function Odd(x: bv32): bool { x & 1 != 0 }

  function Half(x: bv32): bv32 { x >> 1 }

  function XorW(x: bv32, y: bv32): bv32 { x ^ y }

  /** Bit `i` of `x`, the lowest first. */
  function BitOf(x: bv32, i: nat): bool {
    if i == 0 then Odd(x) else BitOf(Half(x), i - 1)
  }

  /** A `u32` as the checksum module writes it. */
  function Register(x: bv32): Word {
    seq(32, i requires 0 <= i < 32 => BitOf(x, i))
  }

  lemma {:induction false} BitXor(x: bv32, y: bv32, i: nat)
    ensures BitOf(XorW(x, y), i) == (BitOf(x, i) != BitOf(y, i))
    decreases i
  {
    hide Odd, Half, XorW;
    if i == 0 {
      OddXor(x, y);
    } else {
      HalfXor(x, y);
      BitXor(Half(x), Half(y), i - 1);
    }
  }

  lemma OddXor(x: bv32, y: bv32)
    ensures Odd(XorW(x, y)) == (Odd(x) != Odd(y))
  {
  }

  lemma HalfXor(x: bv32, y: bv32)
    ensures Half(XorW(x, y)) == XorW(Half(x), Half(y))
  {
  }

  function Halves(x: bv32, count: nat): bv32 {
    if count == 0 then x else Halves(Half(x), count - 1)
  }

  lemma {:induction false} BitFar(x: bv32, count: nat, i: nat)
    ensures BitOf(x, count + i) == BitOf(Halves(x, count), i)
    decreases count
  {
    hide Half, Odd;
    if count > 0 {
      BitFar(Half(x), count - 1, i);
    }
  }

  lemma Halves8(x: bv32)
    ensures Halves(x, 8) == x >> 8
  {
    HalvesSum(x, 4, 4);
    assert Halves(x, 4) == Half(Half(Half(Half(x)))) by { FourHalves(x); }
    FourHalves(Halves(x, 4));
  }

  lemma FourHalves(x: bv32)
    ensures Halves(x, 4) == Half(Half(Half(Half(x))))
  {
    hide Half;
    assert Halves(x, 4) == Halves(Half(x), 3) == Halves(Half(Half(x)), 2) == Halves(Half(Half(Half(x))), 1);
  }

  lemma {:induction false} HalvesSum(x: bv32, a: nat, b: nat)
    ensures Halves(x, a + b) == Halves(Halves(x, a), b)
    decreases a
  {
    hide Half;
    if a > 0 {
      HalvesSum(Half(x), a - 1, b);
    }
  }

  lemma Halves32(x: bv32)
    ensures Halves(x, 32) == 0
  {
    hide Halves;
    HalvesSum(x, 16, 16);
    HalvesSum(x, 8, 8);
    Halves8(x);
    Halves8(x >> 8);
    HalvesSum(Halves(x, 16), 8, 8);
    Halves8((x >> 8) >> 8);
    Halves8(((x >> 8) >> 8) >> 8);
    NothingLeft(x);
  }

  lemma NothingLeft(x: bv32)
    ensures (((x >> 8) >> 8) >> 8) >> 8 == 0
  {
  }

  lemma RegisterXor(x: bv32, y: bv32)
    ensures Register(XorW(x, y)) == Xor(Register(x), Register(y))
  {
    hide BitOf, XorW;
    forall i | 0 <= i < 32
      ensures Register(XorW(x, y))[i] == Xor(Register(x), Register(y))[i]
    {
      BitXor(x, y, i);
    }
  }

  lemma RegisterHalf(x: bv32)
    ensures Register(Half(x)) == Shr(Register(x), 1) && Register(x)[0] == Odd(x)
  {
    hide Half, Odd;
    NoBit32(x);
    forall i | 0 <= i < 32
      ensures Register(Half(x))[i] == Shr(Register(x), 1)[i]
    {
      assert BitOf(Half(x), i) == BitOf(x, i + 1);
    }
  }

  lemma NoBit32(x: bv32)
    ensures !BitOf(x, 32)
  {
    hide Half, Halves;
    BitFar(x, 32, 0);
    Halves32(x);
    assert !Odd(0);
  }

  function Step(x: bv32, bit: bool): bv32 {
    if Odd(x) != bit then XorW(0xEDB8_8320, Half(x)) else Half(x)
  }

  lemma StepFeeds(x: bv32, bit: bool)
    ensures FeedBit(Register(x), bit) == Register(Step(x, bit))
  {
    hide Register, Odd, Half, XorW, Shr;
    RegisterHalf(x);
    RegisterPoly();
    RegisterXor(0xEDB8_8320, Half(x));
  }

  lemma OctetIs(x: bv32)
    ensures BitOf(x, 0) == (x & 1 != 0)
    ensures BitOf(x, 1) == (x & 2 != 0)
    ensures BitOf(x, 2) == (x & 4 != 0)
    ensures BitOf(x, 3) == (x & 8 != 0)
    ensures BitOf(x, 4) == (x & 16 != 0)
    ensures BitOf(x, 5) == (x & 32 != 0)
    ensures BitOf(x, 6) == (x & 64 != 0)
    ensures BitOf(x, 7) == (x & 128 != 0)
  {
    hide Odd, Half, Halves, BitOf;
    FourBitsAre(x);
    FourHalves(x);
    FourDown(x);
    FourBitsAre(Halves(x, 4));
    BitFar(x, 4, 0);
    BitFar(x, 4, 1);
    BitFar(x, 4, 2);
    BitFar(x, 4, 3);
  }

  lemma FourDown(x: bv32)
    ensures var y := Half(Half(Half(Half(x))));
      (y & 1 != 0) == (x & 16 != 0) && (y & 2 != 0) == (x & 32 != 0) &&
      (y & 4 != 0) == (x & 64 != 0) && (y & 8 != 0) == (x & 128 != 0)
  {
  }

  lemma FourBitsAre(x: bv32)
    ensures BitOf(x, 0) == (x & 1 != 0)
    ensures BitOf(x, 1) == (x & 2 != 0)
    ensures BitOf(x, 2) == (x & 4 != 0)
    ensures BitOf(x, 3) == (x & 8 != 0)
  {
    hide Odd, Half;
    FourMasks(x);
    assert BitOf(x, 1) == BitOf(Half(x), 0);
    assert BitOf(x, 2) == BitOf(Half(x), 1) == BitOf(Half(Half(x)), 0);
    assert BitOf(x, 3) == BitOf(Half(x), 2) == BitOf(Half(Half(x)), 1) == BitOf(Half(Half(Half(x))), 0);
  }

  lemma FourMasks(x: bv32)
    ensures Odd(x) == (x & 1 != 0) && Odd(Half(x)) == (x & 2 != 0)
    ensures Odd(Half(Half(x))) == (x & 4 != 0) && Odd(Half(Half(Half(x)))) == (x & 8 != 0)
  {
  }

  function Octet(x: bv32): (r: Bits)
    ensures |r| == 8
  {
    seq(8, i requires 0 <= i < 8 => BitOf(x, i))
  }

  lemma RegisterSplits(x: bv32)
    ensures Register(x) == Octet(x) + Octet(Halves(x, 8)) + Octet(Halves(x, 16)) + Octet(Halves(x, 24))
  {
    hide BitOf, Halves;
    var parts := Octet(x) + Octet(Halves(x, 8)) + Octet(Halves(x, 16)) + Octet(Halves(x, 24));
    forall i | 0 <= i < 32
      ensures Register(x)[i] == parts[i]
    {
      if 8 <= i {
        var start := if i < 16 then 8 else if i < 24 then 16 else 24;
        BitFar(x, start, i - start);
      }
    }
  }

  lemma HalvesOf(x: bv32)
    ensures Halves(x, 8) == x >> 8 && Halves(x, 16) == (x >> 8) >> 8 && Halves(x, 24) == ((x >> 8) >> 8) >> 8
  {
    hide Halves;
    HalvesSum(x, 8, 8);
    HalvesSum(x, 16, 8);
    Halves8(x);
    Halves8(x >> 8);
    Halves8((x >> 8) >> 8);
  }

  lemma OctetOf(x: bv32, bits: Bits)
    requires |bits| == 8
    requires bits[0] == (x & 1 != 0)
    requires bits[1] == (x & 2 != 0)
    requires bits[2] == (x & 4 != 0)
    requires bits[3] == (x & 8 != 0)
    requires bits[4] == (x & 16 != 0)
    requires bits[5] == (x & 32 != 0)
    requires bits[6] == (x & 64 != 0)
    requires bits[7] == (x & 128 != 0)
    ensures Octet(x) == bits
  {
    hide BitOf;
    OctetIs(x);
    forall i | 0 <= i < 8
      ensures Octet(x)[i] == bits[i]
    {
    }
  }

  lemma RegisterPoly()
    ensures Register(0xEDB8_8320) == POLY
  {
    hide Octet, Register, Halves;
    RegisterSplits(0xEDB8_8320);
    HalvesOf(0xEDB8_8320);
    OctetOf(0xEDB8_8320, POLY_0);
    OctetOf(0x00ED_B883, POLY_1);
    OctetOf(0x0000_EDB8, POLY_2);
    OctetOf(0x0000_00ED, POLY_3);
  }

  function StepsN(x: bv32, b: nat, count: nat): bv32
    decreases count
  {
    if count == 0 then x else StepsN(Step(x, b % 2 == 1), b / 2, count - 1)
  }

  lemma {:induction false} StepsFeed(x: bv32, b: nat, count: nat)
    ensures FeedBits(Register(x), ToBits(b, count)) == Register(StepsN(x, b, count))
    decreases count
  {
    hide Register, Step;
    if count > 0 {
      StepFeeds(x, b % 2 == 1);
      StepsFeed(Step(x, b % 2 == 1), b / 2, count - 1);
      assert ToBits(b, count)[1..] == ToBits(b / 2, count - 1);
    }
  }

  /** One byte enters the register. */
  lemma ByteEnters(x: bv32, b: byte, rest: Bytes)
    ensures FeedBits(Register(x), Message([b] + rest)) == FeedBits(Register(StepsN(x, b, 8)), Message(rest))
  {
    hide Register, StepsN;
    assert ([b] + rest)[1..] == rest;
    FeedBitsConcat(Register(x), ToBits(b, 8), Message(rest));
    StepsFeed(x, b, 8);
  }

  predicate SameOctet(x: bv32, b: nat) {
    b < 256 && (b % 2 == 1) == (x & 1 != 0) && (b / 2 % 2 == 1) == (x & 2 != 0) &&
    (b / 2 / 2 % 2 == 1) == (x & 4 != 0) && (b / 2 / 2 / 2 % 2 == 1) == (x & 8 != 0) &&
    (b / 2 / 2 / 2 / 2 % 2 == 1) == (x & 16 != 0) && (b / 2 / 2 / 2 / 2 / 2 % 2 == 1) == (x & 32 != 0) &&
    (b / 2 / 2 / 2 / 2 / 2 / 2 % 2 == 1) == (x & 64 != 0) && (b / 2 / 2 / 2 / 2 / 2 / 2 / 2 % 2 == 1) == (x & 128 != 0)
  }

  lemma OctetValue(x: bv32, b: nat)
    requires SameOctet(x, b)
    ensures Value(Octet(x)) == b
  {
    hide Octet;
    OctetOf(x, ToBits(b, 8)) by {
      ToBitsAt(b);
    }
    assert Pow2(8) == 256;
    ValueToBits(b, 8);
  }

  lemma ToBitsAt(b: nat)
    ensures var r := ToBits(b, 8);
      r[0] == (b % 2 == 1) && r[1] == (b / 2 % 2 == 1) && r[2] == (b / 2 / 2 % 2 == 1) &&
      r[3] == (b / 2 / 2 / 2 % 2 == 1) && r[4] == (b / 2 / 2 / 2 / 2 % 2 == 1) &&
      r[5] == (b / 2 / 2 / 2 / 2 / 2 % 2 == 1) && r[6] == (b / 2 / 2 / 2 / 2 / 2 / 2 % 2 == 1) &&
      r[7] == (b / 2 / 2 / 2 / 2 / 2 / 2 / 2 % 2 == 1)
  {
    hide ToBits;
    Peel(b, 8);
    Peel(b / 2, 7);
    Peel(b / 2 / 2, 6);
    Peel(b / 2 / 2 / 2, 5);
    Peel(b / 2 / 2 / 2 / 2, 4);
    Peel(b / 2 / 2 / 2 / 2 / 2, 3);
    Peel(b / 2 / 2 / 2 / 2 / 2 / 2, 2);
    Peel(b / 2 / 2 / 2 / 2 / 2 / 2 / 2, 1);
  }

  lemma Peel(n: nat, count: nat)
    requires count > 0
    ensures ToBits(n, count)[0] == (n % 2 == 1) && ToBits(n, count) == [n % 2 == 1] + ToBits(n / 2, count - 1)
  {
  }

  lemma RegisterSum(x: bv32)
    ensures Value(Register(x)) == Value(Octet(x)) + 256 * (Value(Octet(Halves(x, 8)))
                                + 256 * (Value(Octet(Halves(x, 16))) + 256 * Value(Octet(Halves(x, 24)))))
  {
    hide Octet, Register, Halves, Value;
    RegisterSplits(x);
    var o0, o1, o2, o3 := Octet(x), Octet(Halves(x, 8)), Octet(Halves(x, 16)), Octet(Halves(x, 24));
    assert Register(x) == o0 + (o1 + (o2 + o3));
    AppendToByte(o0, o1 + (o2 + o3));
    AppendToByte(o1, o2 + o3);
    AppendToByte(o2, o3);
  }

  lemma RegisterOnes()
    ensures Register(0xFFFF_FFFF) == Not(Zeros(32))
  {
    hide Octet, Register, Halves;
    RegisterSplits(0xFFFF_FFFF);
    HalvesOf(0xFFFF_FFFF);
    var bits := [true, true, true, true, true, true, true, true];
    OctetOf(0xFFFF_FFFF, bits);
    OctetOf(0x00FF_FFFF, bits);
    OctetOf(0x0000_FFFF, bits);
    OctetOf(0x0000_00FF, bits);
    assert bits + bits + bits + bits == Not(Zeros(32));
  }

  lemma RegisterNot(x: bv32)
    ensures Not(Register(x)) == Register(XorW(x, 0xFFFF_FFFF))
  {
    hide Register, XorW;
    RegisterOnes();
    RegisterXor(x, 0xFFFF_FFFF);
    assert Xor(Register(x), Not(Zeros(32))) == Not(Register(x));
  }

  // ── the published values ───────────────────────────────────────────────

  lemma {:induction false} ZerosValue(count: nat)
    ensures Value(Zeros(count)) == 0
  {
    if count > 0 {
      ZerosValue(count - 1);
      assert Zeros(count)[1..] == Zeros(count - 1);
    }
  }

  /** The empty message has checksum zero. */
  lemma EmptyCrc()
    ensures Value(Crc([])) == 0
  {
    assert Crc([]) == Zeros(32);
    ZerosValue(32);
  }

  /** Eight steps, each register given. */
  lemma EightSteps(b: nat, x: seq<bv32>)
    requires |x| == 9
    requires x[1] == Step(x[0], b % 2 == 1)
    requires x[2] == Step(x[1], b / 2 % 2 == 1)
    requires x[3] == Step(x[2], b / 2 / 2 % 2 == 1)
    requires x[4] == Step(x[3], b / 2 / 2 / 2 % 2 == 1)
    requires x[5] == Step(x[4], b / 2 / 2 / 2 / 2 % 2 == 1)
    requires x[6] == Step(x[5], b / 2 / 2 / 2 / 2 / 2 % 2 == 1)
    requires x[7] == Step(x[6], b / 2 / 2 / 2 / 2 / 2 / 2 % 2 == 1)
    requires x[8] == Step(x[7], b / 2 / 2 / 2 / 2 / 2 / 2 / 2 % 2 == 1)
    ensures StepsN(x[0], b, 8) == x[8]
  {
    hide Step;
    assert StepsN(x[0], b, 8) == StepsN(x[1], b / 2, 7) == StepsN(x[2], b / 2 / 2, 6) == StepsN(x[3], b / 2 / 2 / 2, 5);
    assert StepsN(x[3], b / 2 / 2 / 2, 5) == StepsN(x[4], b / 2 / 2 / 2 / 2, 4);
  }

  lemma Digit1()
    ensures StepsN(0xFFFF_FFFF, 0x31, 8) == 0x7C23_1048
  {
    hide StepsN;
    EightSteps(0x31, [0xFFFF_FFFF, 0x7FFF_FFFF, 0xD247_7CDF, 0x849B_3D4F, 0xAFF5_1D87,
                      0x57FA_8EC3, 0x2BFD_4761, 0xF846_2090, 0x7C23_1048]);
  }

  lemma Digit2()
    ensures StepsN(0x7C23_1048, 0x32, 8) == 0xB0AC_BB32
  {
    hide StepsN;
    EightSteps(0x32, [0x7C23_1048, 0x3E11_8824, 0xF2B0_4732, 0x7958_2399, 0xD114_92EC,
                      0x8532_CA56, 0xAF21_E60B, 0xBA28_7025, 0xB0AC_BB32]);
  }

  lemma Digit3()
    ensures StepsN(0xB0AC_BB32, 0x33, 8) == 0x77B7_9C2D
  {
    hide StepsN;
    EightSteps(0x33, [0xB0AC_BB32, 0xB5EE_DEB9, 0x5AF7_6F5C, 0x2D7B_B7AE, 0x16BD_DBD7,
                      0x0B5E_EDEB, 0x05AF_76F5, 0xEF6F_385A, 0x77B7_9C2D]);
  }

  lemma Digit4()
    ensures StepsN(0x77B7_9C2D, 0x34, 8) == 0x641C_1F5C
  {
    hide StepsN;
    EightSteps(0x34, [0x77B7_9C2D, 0xD663_4D36, 0x6B31_A69B, 0x3598_D34D, 0xF774_EA86,
                      0x9602_F663, 0x4B01_7B31, 0xC838_3EB8, 0x641C_1F5C]);
  }

  lemma Digit5()
    ensures StepsN(0x641C_1F5C, 0x35, 8) == 0x340A_C5E3
  {
    hide StepsN;
    EightSteps(0x35, [0x641C_1F5C, 0xDFB6_8C8E, 0x6FDB_4647, 0x37ED_A323, 0xF64E_52B1,
                      0x7B27_2958, 0xD02B_178C, 0x6815_8BC6, 0x340A_C5E3]);
  }

  lemma Digit6()
    ensures StepsN(0x340A_C5E3, 0x36, 8) == 0xF68D_2C9E
  {
    hide StepsN;
    EightSteps(0x36, [0x340A_C5E3, 0xF7BD_E1D1, 0x7BDE_F0E8, 0xD057_FB54, 0x682B_FDAA,
                      0xD9AD_7DF5, 0x6CD6_BEFA, 0x366B_5F7D, 0xF68D_2C9E]);
  }

  lemma Digit7()
    ensures StepsN(0xF68D_2C9E, 0x37, 8) == 0xAFFC_9660
  {
    hide StepsN;
    EightSteps(0x37, [0xF68D_2C9E, 0x96FE_156F, 0x4B7F_0AB7, 0x25BF_855B, 0xFF67_418D,
                      0x7FB3_A0C6, 0xD261_5343, 0x8488_2A81, 0xAFFC_9660]);
  }

  lemma Digit8()
    ensures StepsN(0xAFFC_9660, 0x38, 8) == 0x651F_2550
  {
    hide StepsN;
    EightSteps(0x38, [0xAFFC_9660, 0x57FE_4B30, 0x2BFF_2598, 0x15FF_92CC, 0xE747_4A46,
                      0x9E1B_2603, 0x4F0D_9301, 0xCA3E_4AA0, 0x651F_2550]);
  }

  lemma Digit9()
    ensures StepsN(0x651F_2550, 0x39, 8) == 0x340B_C6D9
  {
    hide StepsN;
    EightSteps(0x39, [0x651F_2550, 0xDF37_1188, 0x6F9B_88C4, 0x37CD_C462, 0xF65E_6111,
                      0x7B2F_3088, 0xD02F_1B64, 0x6817_8DB2, 0x340B_C6D9]);
  }

  lemma Zero1()
    ensures StepsN(0xFFFF_FFFF, 0x00, 8) == 0x2DFD_1072
  {
    hide StepsN;
    EightSteps(0x00, [0xFFFF_FFFF, 0x9247_7CDF, 0xA49B_3D4F, 0xBFF5_1D87, 0xB242_0DE3,
                      0xB499_85D1, 0xB7F4_41C8, 0x5BFA_20E4, 0x2DFD_1072]);
  }

  lemma Zero2()
    ensures StepsN(0x2DFD_1072, 0x00, 8) == 0xBE26_ED00
  {
    hide StepsN;
    EightSteps(0x00, [0x2DFD_1072, 0x16FE_8839, 0xE6C7_C73C, 0x7363_E39E, 0x39B1_F1CF,
                      0xF160_7BC7, 0x9508_BEC3, 0xA73C_DC41, 0xBE26_ED00]);
  }

  lemma Zero3()
    ensures StepsN(0xBE26_ED00, 0x00, 8) == 0x00BE_26ED
  {
    hide StepsN;
    EightSteps(0x00, [0xBE26_ED00, 0x5F13_7680, 0x2F89_BB40, 0x17C4_DDA0, 0x0BE2_6ED0,
                      0x05F1_3768, 0x02F8_9BB4, 0x017C_4DDA, 0x00BE_26ED]);
  }

  lemma Zero4()
    ensures StepsN(0x00BE_26ED, 0x00, 8) == 0xDEBB_20E3
  {
    hide StepsN;
    EightSteps(0x00, [0x00BE_26ED, 0xEDE7_9056, 0x76F3_C82B, 0xD6C1_6735, 0x86D8_30BA,
                      0x436C_185D, 0xCC0E_8F0E, 0x6607_4787, 0xDEBB_20E3]);
  }

  lemma CheckRegister()
    ensures Value(Register(0xCBF4_3926)) == 0xCBF4_3926
  {
    hide Octet, Register, Halves, Value;
    RegisterSum(0xCBF4_3926);
    HalvesOf(0xCBF4_3926);
    OctetValue(0xCBF4_3926, 0x26);
    OctetValue(0x00CB_F439, 0x39);
    OctetValue(0x0000_CBF4, 0xF4);
    OctetValue(0x0000_00CB, 0xCB);
  }

  lemma ResidueRegister()
    ensures Value(Register(0x2144_DF1C)) == 0x2144_DF1C
  {
    hide Octet, Register, Halves, Value;
    RegisterSum(0x2144_DF1C);
    HalvesOf(0x2144_DF1C);
    OctetValue(0x2144_DF1C, 0x1C);
    OctetValue(0x0021_44DF, 0xDF);
    OctetValue(0x0000_2144, 0x44);
    OctetValue(0x0000_0021, 0x21);
  }

  /** The checksum of the ASCII digits 1 to 9. */
  lemma CheckValue()
    ensures Value(Crc([0x31, 0x32, 0x33, 0x34, 0x35, 0x36, 0x37, 0x38, 0x39])) == 0xCBF4_3926
  {
    hide Register, StepsN, FeedBits, Message, XorW, Value;
    var digits: Bytes := [0x31, 0x32, 0x33, 0x34, 0x35, 0x36, 0x37, 0x38, 0x39];
    RegisterOnes();
    Digit1();
    Enters(0xFFFF_FFFF, digits, 0);
    Digit2();
    Enters(0x7C23_1048, digits, 1);
    Digit3();
    Enters(0xB0AC_BB32, digits, 2);
    Digit4();
    Enters(0x77B7_9C2D, digits, 3);
    Digit5();
    Enters(0x641C_1F5C, digits, 4);
    Digit6();
    Enters(0x340A_C5E3, digits, 5);
    Digit7();
    Enters(0xF68D_2C9E, digits, 6);
    Digit8();
    Enters(0xAFFC_9660, digits, 7);
    Digit9();
    Enters(0x651F_2550, digits, 8);
    NothingEnters(Register(0x340B_C6D9), digits[9..]);
    RegisterNot(0x340B_C6D9);
    Complements();
    CheckRegister();
  }

  lemma Complements()
    ensures XorW(0x340B_C6D9, 0xFFFF_FFFF) == 0xCBF4_3926 && XorW(0xDEBB_20E3, 0xFFFF_FFFF) == 0x2144_DF1C
  {
  }

  lemma Enters(x: bv32, bytes: Bytes, i: nat)
    requires i < |bytes|
    ensures FeedBits(Register(x), Message(bytes[i..]))
         == FeedBits(Register(StepsN(x, bytes[i], 8)), Message(bytes[i + 1..]))
  {
    hide Register, StepsN, FeedBits, Message;
    assert bytes[i..] == [bytes[i]] + bytes[i + 1..];
    ByteEnters(x, bytes[i], bytes[i + 1..]);
  }

  lemma NothingEnters(reg: Word, bytes: Bytes)
    requires bytes == []
    ensures FeedBits(reg, Message(bytes)) == reg
  {
  }

  // ── the residue ────────────────────────────────────────────────────────

  lemma {:induction false} MessageOfLe(bits: Bits, count: nat)
    requires |bits| == 8 * count
    ensures Message(Le(Value(bits), count)) == bits
  {
    if count > 0 {
      var low, high := bits[..8], bits[8..];
      assert bits == low + high;
      AppendToByte(low, high);
      ToBitsValue(low);
      assert Pow2(8) == 256;
      MessageOfLe(high, count - 1);
      assert Value(bits) % 256 == Value(low) && Value(bits) / 256 == Value(high);
    }
  }

  /** A register that takes in its own complement holds what all ones hold after as many zeros. */
  lemma SelfCancels(reg: Word)
    ensures FeedBits(reg, Not(reg)) == FeedBits(Not(Zeros(32)), Zeros(32))
  {
    hide FeedBits, Shifts;
    var ones: Word, both: Word := Not(Zeros(32)), Xor(reg, Not(reg));
    FeedBitsAreShifts(reg, Not(reg));
    FeedBitsAreShifts(ones, Zeros(32));
    assert Not(reg) + Zeros(0) == Not(reg) && Zeros(32) + Zeros(0) == Zeros(32);
    assert both == ones;
    assert Xor(ones, Zeros(32)) == ones;
  }

  lemma FourZeros()
    ensures FeedBits(Not(Zeros(32)), Zeros(32)) == Register(0xDEBB_20E3)
  {
    hide Register, StepsN, FeedBits, Message;
    var zeros: Bytes := [0, 0, 0, 0];
    RegisterOnes();
    Zero1();
    Enters(0xFFFF_FFFF, zeros, 0);
    Zero2();
    Enters(0x2DFD_1072, zeros, 1);
    Zero3();
    Enters(0xBE26_ED00, zeros, 2);
    Zero4();
    Enters(0x00BE_26ED, zeros, 3);
    NothingEnters(Register(0xDEBB_20E3), zeros[4..]);
    MessageOfZeros();
    assert zeros[0..] == zeros;
  }

  lemma MessageOfZeros()
    ensures Message([0, 0, 0, 0]) == Zeros(32)
  {
    ZerosValue(32);
    MessageOfLe(Zeros(32), 4);
    assert Le(0, 4) == [0, 0, 0, 0];
  }

  /** A message followed by its own checksum always has the same checksum. */
  lemma Residue(message: Bytes)
    ensures Value(Crc(message + CrcBytes(message))) == 0x2144_DF1C
  {
    hide Register, StepsN, FeedBits, Message, XorW, Value;
    var reg := FeedBits(ALL_ONES, Message(message));
    MessageConcat(message, CrcBytes(message));
    FeedBitsConcat(ALL_ONES, Message(message), Message(CrcBytes(message)));
    MessageOfLe(Not(reg), 4);
    SelfCancels(reg);
    FourZeros();
    RegisterNot(0xDEBB_20E3);
    Complements();
    ResidueRegister();
  }
}
