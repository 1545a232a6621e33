/** CRC-32 of IEEE 802.3 in its reflected form: the table-driven loop, the bit-serial
    shift register it stands for, and the corruption it is guaranteed to detect.
    A `u32` is its 32 bits, least significant first. */
module Checksum {
  import opened Bytes

  // ── words as bits ──────────────────────────────────────────────────────

  type Bits = seq<bool>
  type Word = w: Bits | |w| == 32 witness
    [false, false, false, false, false, false, false, false,
     false, false, false, false, false, false, false, false,
     false, false, false, false, false, false, false, false,
     false, false, false, false, false, false, false, false]

  function Zeros(count: nat): (r: Bits)
    ensures |r| == count && forall i :: 0 <= i < count ==> !r[i]
  {
    seq(count, _ => false)
  }

  /** The `count` low bits of `n`, least significant first. */
  function ToBits(n: nat, count: nat): (r: Bits)
    ensures |r| == count
  {
    if count == 0 then [] else [n % 2 == 1] + ToBits(n / 2, count - 1)
  }

  function Value(bits: Bits): nat {
    if bits == [] then 0 else (if bits[0] then 1 else 0) + 2 * Value(bits[1..])
  }

  function Pow2(count: nat): (r: nat)
    ensures r > 0
  {
    if count == 0 then 1 else 2 * Pow2(count - 1)
  }

  lemma {:induction false} ValueToBits(n: nat, count: nat)
    requires n < Pow2(count)
    ensures Value(ToBits(n, count)) == n
  {
    if count > 0 {
      ValueToBits(n / 2, count - 1);
      assert ToBits(n, count)[1..] == ToBits(n / 2, count - 1);
    }
  }

  lemma {:induction false} ToBitsValue(bits: Bits)
    ensures Value(bits) < Pow2(|bits|)
    ensures ToBits(Value(bits), |bits|) == bits
  {
    if bits != [] {
      var low, rest := if bits[0] then 1 else 0, Value(bits[1..]);
      ToBitsValue(bits[1..]);
      LowBit(low, rest, |bits|);
      assert bits == [bits[0]] + bits[1..];
    }
  }

  lemma LowBit(low: nat, rest: nat, count: nat)
    requires low < 2 && count > 0
    ensures ToBits(low + 2 * rest, count) == [low == 1] + ToBits(rest, count - 1)
    ensures rest < Pow2(count - 1) ==> low + 2 * rest < Pow2(count)
  {
    assert (low + 2 * rest) % 2 == low && (low + 2 * rest) / 2 == rest;
  }

  function Xor(a: Bits, b: Bits): (r: Bits)
    requires |a| == |b|
    ensures |r| == |a| && forall i :: 0 <= i < |a| ==> r[i] == (a[i] != b[i])
  {
    seq(|a|, i requires 0 <= i < |a| => a[i] != b[i])
  }

  function Not(a: Bits): (r: Bits)
    ensures |r| == |a| && forall i :: 0 <= i < |a| ==> r[i] == !a[i]
  {
    seq(|a|, i requires 0 <= i < |a| => !a[i])
  }

  /** `a >> count` */
  function Shr(a: Word, count: nat): (r: Word)
    requires count <= 32
  {
    a[count..] + Zeros(count)
  }

  const POLY_0: Bits := [false, false, false, false, false, true, false, false]
  const POLY_1: Bits := [true, true, false, false, false, false, false, true]
  const POLY_2: Bits := [false, false, false, true, true, true, false, true]
  const POLY_3: Bits := [true, false, true, true, false, true, true, true]
  /** The reflected polynomial, 0xEDB8_8320. */
  const POLY: Word := POLY_0 + POLY_1 + POLY_2 + POLY_3
  const ALL_ONES: Word := Not(Zeros(32))

  // ── the bit-serial reference ───────────────────────────────────────────

  /** The shift register takes in one message bit. */
  function FeedBit(reg: Word, bit: bool): Word {
    if reg[0] != bit then Xor(POLY, Shr(reg, 1)) else Shr(reg, 1)
  }

  function FeedBits(reg: Word, bits: Bits): Word
    decreases |bits|
  {
    if bits == [] then reg else FeedBits(FeedBit(reg, bits[0]), bits[1..])
  }

  /** The bits of a message in the order they enter: byte after byte, low bit first. */
  function Message(bytes: Bytes): (r: Bits)
    ensures |r| == 8 * |bytes|
  {
    if bytes == [] then [] else ToBits(bytes[0], 8) + Message(bytes[1..])
  }

  /** The checksum of `bytes`, one message bit at a time, with no table. */
  function Crc(bytes: Bytes): Word {
    Not(FeedBits(ALL_ONES, Message(bytes)))
  }

  lemma {:induction false} FeedBitsConcat(reg: Word, a: Bits, b: Bits)
    ensures FeedBits(reg, a + b) == FeedBits(FeedBits(reg, a), b)
    decreases |a|
  {
    if a == [] {
      assert a + b == b;
    } else {
      assert (a + b)[1..] == a[1..] + b;
      FeedBitsConcat(FeedBit(reg, a[0]), a[1..], b);
    }
  }

  // ── shifting without input ─────────────────────────────────────────────

  function Shift(c: Word): Word {
    if c[0] then Xor(POLY, Shr(c, 1)) else Shr(c, 1)
  }

  function Shifts(c: Word, count: nat): Word
    decreases count
  {
    if count == 0 then c else Shifts(Shift(c), count - 1)
  }

  lemma DoubleProduct(p: nat, q: nat)
    ensures 2 * (p * q) == (2 * p) * q
  {
  }

  lemma ValueCons(bits: Bits)
    requires bits != []
    ensures Value(bits) == (if bits[0] then 1 else 0) + 2 * Value(bits[1..]) && Pow2(|bits|) == 2 * Pow2(|bits| - 1)
  {
  }

  lemma {:induction false} ValueConcat(a: Bits, b: Bits)
    ensures Value(a + b) == Value(a) + Pow2(|a|) * Value(b)
  {
    if a == [] {
      assert a + b == b;
    } else {
      hide Value, Pow2;
      assert (a + b)[1..] == a[1..] + b;
      ValueConcat(a[1..], b);
      ValueCons(a + b);
      ValueCons(a);
      DoubleProduct(Pow2(|a| - 1), Value(b));
    }
  }

  lemma ValueOfByte(bits: Bits)
    requires |bits| == 8
    ensures Value(bits) == Value(bits[..4]) + 16 * Value(bits[4..])
  {
    assert Pow2(4) == 16;
    assert bits == bits[..4] + bits[4..];
    ValueConcat(bits[..4], bits[4..]);
  }

  lemma AppendToByte(bits: Bits, rest: Bits)
    requires |bits| == 8
    ensures Value(bits + rest) == Value(bits) + 256 * Value(rest)
  {
    assert Pow2(8) == 256;
    ValueConcat(bits, rest);
  }

  lemma ValueOfNibble(a: bool, b: bool, c: bool, d: bool)
    ensures Value([a, b, c, d]) == (if a then 1 else 0) + (if b then 2 else 0) + (if c then 4 else 0) + (if d then 8 else 0)
  {
    assert [a, b, c, d][1..] == [b, c, d] && [b, c, d][1..] == [c, d] && [c, d][1..] == [d];
    assert Value([c, d]) == (if c then 1 else 0) + 2 * Value([d]);
  }

  lemma PolyByte0()
    ensures Value(POLY_0) == 0x20
  {
    ValueOfByte(POLY_0);
    assert POLY_0[..4] == [false, false, false, false] && POLY_0[4..] == [false, true, false, false];
    ValueOfNibble(false, false, false, false);
    ValueOfNibble(false, true, false, false);
  }

  lemma PolyByte1()
    ensures Value(POLY_1) == 0x83
  {
    ValueOfByte(POLY_1);
    assert POLY_1[..4] == [true, true, false, false] && POLY_1[4..] == [false, false, false, true];
    ValueOfNibble(true, true, false, false);
    ValueOfNibble(false, false, false, true);
  }

  lemma PolyByte2()
    ensures Value(POLY_2) == 0xb8
  {
    ValueOfByte(POLY_2);
    assert POLY_2[..4] == [false, false, false, true] && POLY_2[4..] == [true, true, false, true];
    ValueOfNibble(false, false, false, true);
    ValueOfNibble(true, true, false, true);
  }

  lemma PolyByte3()
    ensures Value(POLY_3) == 0xed
  {
    ValueOfByte(POLY_3);
    assert POLY_3[..4] == [true, false, true, true] && POLY_3[4..] == [false, true, true, true];
    ValueOfNibble(true, false, true, true);
    ValueOfNibble(false, true, true, true);
  }

  lemma PolyValue()
    ensures Value(POLY) == 0xEDB8_8320
  {
    hide Value;
    PolyByte0();
    PolyByte1();
    PolyByte2();
    PolyByte3();
    assert POLY == POLY_0 + (POLY_1 + (POLY_2 + POLY_3));
    AppendToByte(POLY_0, POLY_1 + (POLY_2 + POLY_3));
    AppendToByte(POLY_1, POLY_2 + POLY_3);
    AppendToByte(POLY_2, POLY_3);
  }

  lemma ShiftInjective(a: Word, b: Word)
    requires Shift(a) == Shift(b)
    ensures a == b
  {
    assert POLY[31];
    assert Shr(a, 1)[31] == false && Shr(b, 1)[31] == false;
    assert Shift(a)[31] == a[0] && Shift(b)[31] == b[0];
    forall i | 1 <= i < 32
      ensures a[i] == b[i]
    {
      assert Shr(a, 1)[i - 1] == a[i] && Shr(b, 1)[i - 1] == b[i];
      assert Shift(a)[i - 1] == Shift(b)[i - 1];
    }
  }

  lemma {:induction false} ShiftsInjective(a: Word, b: Word, count: nat)
    requires Shifts(a, count) == Shifts(b, count)
    ensures a == b
    decreases count
  {
    if count > 0 {
      ShiftsInjective(Shift(a), Shift(b), count - 1);
      ShiftInjective(a, b);
    }
  }

  /** Bits that have not reached the end of the register are only moved. */
  lemma ShiftPass(low: Word, high: Word)
    requires !high[0]
    ensures Shift(Xor(low, high)) == Xor(Shift(low), Shr(high, 1))
  {
    assert Shr(Xor(low, high), 1) == Xor(Shr(low, 1), Shr(high, 1));
    assert Xor(POLY, Xor(Shr(low, 1), Shr(high, 1))) == Xor(Xor(POLY, Shr(low, 1)), Shr(high, 1));
  }

  lemma {:induction false} ShiftsPass(low: Word, high: Word, count: nat)
    requires count <= 32 && forall i :: 0 <= i < count ==> !high[i]
    ensures Shifts(Xor(low, high), count) == Xor(Shifts(low, count), Shr(high, count))
    decreases count
  {
    if count == 0 {
      assert Shr(high, 0) == high;
    } else {
      ShiftPass(low, high);
      ShiftsPass(Shift(low), Shr(high, 1), count - 1);
      assert Shr(Shr(high, 1), count - 1) == Shr(high, count);
    }
  }

  /** Up to 32 message bits can be mixed in first and shifted afterwards. */
  lemma {:induction false} FeedBitsAreShifts(reg: Word, bits: Bits)
    requires |bits| <= 32
    ensures FeedBits(reg, bits) == Shifts(Xor(reg, bits + Zeros(32 - |bits|)), |bits|)
    decreases |bits|
  {
    if bits == [] {
      assert Xor(reg, bits + Zeros(32)) == reg;
    } else {
      var rest := bits[1..];
      var first: Word, later: Word := [bits[0]] + Zeros(31), [false] + rest + Zeros(32 - |bits|);
      assert Xor(reg, bits + Zeros(32 - |bits|)) == Xor(Xor(reg, first), later);
      assert Shr(Xor(reg, first), 1) == Shr(reg, 1);
      ShiftPass(Xor(reg, first), later);
      assert Shr(later, 1) == rest + Zeros(32 - |rest|);
      FeedBitsAreShifts(FeedBit(reg, bits[0]), rest);
    }
  }

  // ── the table-driven loop ──────────────────────────────────────────────

  /** A byte as a register: `u32::from(byte)`. */
  function Widen(b: nat): Word {
    ToBits(b, 8) + Zeros(24)
  }

  /** The low byte of a register, as the number the table is indexed with. */
  function Index(c: Word): (i: nat)
    ensures i < 256 && Widen(i) == c[..8] + Zeros(24)
  {
    ToBitsValue(c[..8]);
    assert Pow2(8) == 256;
    Value(c[..8])
  }

  /** What the table holds at `i`. */
  function Entry(i: nat): Word {
    Shifts(Widen(i), 8)
  }

  /** What one turn of the loop computes from the register and a message byte. */
  function Lookup(reg: Word, b: byte): Word {
    Xor(Entry(Index(Xor(reg, Widen(b)))), Shr(reg, 8))
  }

  /** One table lookup does the work of eight message bits. */
  lemma LookupStep(reg: Word, b: byte)
    ensures Lookup(reg, b) == FeedBits(reg, ToBits(b, 8))
  {
    var x := Xor(reg, Widen(b));
    var low: Word, high: Word := x[..8] + Zeros(24), Zeros(8) + x[8..];
    assert Xor(low, high) == x;
    ShiftsPass(low, high, 8);
    assert Shr(high, 8) == Shr(reg, 8);
    FeedBitsAreShifts(reg, ToBits(b, 8));
  }

  /** One entry of the table. */
  method Shifted(i: nat) returns (c: Word)
    requires i < 256
    ensures c == Entry(i)
  {
    hide Shift;
    c := Widen(i);
    for k := 0 to 8
      invariant Shifts(c, 8 - k) == Entry(i)
    {
      c := Shift(c);
    }
  }

  method Table() returns (table: array<Word>)
    ensures fresh(table) && table.Length == 256
    ensures forall i :: 0 <= i < 256 ==> table[i] == Entry(i)
  {
    hide Entry, Shift;
    table := new Word[256](_ => Zeros(32));
    for i := 0 to 256
      invariant forall k :: 0 <= k < i ==> table[k] == Entry(k)
    {
      var c := Shifted(i);
      table[i] := c;
    }
  }

  lemma LoopStep(reg: Word, bytes: Bytes, i: nat)
    requires i < |bytes|
    ensures FeedBits(Lookup(reg, bytes[i]), Message(bytes[i + 1..])) == FeedBits(reg, Message(bytes[i..]))
  {
    LookupStep(reg, bytes[i]);
    assert bytes[i..][1..] == bytes[i + 1..];
    FeedBitsConcat(reg, ToBits(bytes[i], 8), Message(bytes[i + 1..]));
  }

  method Crc32(bytes: Bytes) returns (crc: Word)
    ensures crc == Crc(bytes)
  {
    var table := Table();
    crc := ALL_ONES;
    for i := 0 to |bytes|
      invariant forall k :: 0 <= k < 256 ==> table[k] == Entry(k)
      invariant FeedBits(crc, Message(bytes[i..])) == FeedBits(ALL_ONES, Message(bytes))
    {
      LoopStep(crc, bytes, i);
      var idx := Index(Xor(crc, Widen(bytes[i])));
      crc := Xor(table[idx], Shr(crc, 8));
    }
    crc := Not(crc);
  }

  // ── what the checksum detects ──────────────────────────────────────────

  lemma {:induction false} FeedBitsInjective(a: Word, b: Word, bits: Bits)
    requires FeedBits(a, bits) == FeedBits(b, bits)
    ensures a == b
    decreases |bits|
  {
    if bits != [] {
      FeedBitsInjective(FeedBit(a, bits[0]), FeedBit(b, bits[0]), bits[1..]);
      FeedBitInjective(a, b, bits[0]);
    }
  }

  lemma FeedBitInjective(a: Word, b: Word, bit: bool)
    requires FeedBit(a, bit) == FeedBit(b, bit)
    ensures a == b
  {
    var mix: Word := [bit] + Zeros(31);
    FeedBitIsShift(a, bit);
    FeedBitIsShift(b, bit);
    ShiftInjective(Xor(a, mix), Xor(b, mix));
    XorCancels(mix, a, b);
  }

  lemma FeedBitIsShift(reg: Word, bit: bool)
    ensures FeedBit(reg, bit) == Shift(Xor(reg, [bit] + Zeros(31)))
  {
    FeedBitsAreShifts(reg, [bit]);
    assert FeedBits(reg, [bit]) == FeedBit(reg, bit);
    var x := Xor(reg, [bit] + Zeros(31));
    assert Shifts(x, 1) == Shifts(Shift(x), 0);
  }

  lemma XorCancels(mix: Word, a: Word, b: Word)
    requires Xor(a, mix) == Xor(b, mix)
    ensures a == b
  {
    forall i | 0 <= i < 32
      ensures a[i] == b[i]
    {
      assert Xor(a, mix)[i] == Xor(b, mix)[i];
    }
  }

  /** A burst of at most 32 message bits always changes the register. */
  lemma BurstChangesRegister(reg: Word, p: Bits, u: Bits, v: Bits, s: Bits)
    requires |u| == |v| <= 32 && u != v
    ensures FeedBits(reg, p + u + s) != FeedBits(reg, p + v + s)
  {
    var r := FeedBits(reg, p);
    FeedBitsConcat(reg, p + u, s);
    FeedBitsConcat(reg, p, u);
    FeedBitsConcat(reg, p + v, s);
    FeedBitsConcat(reg, p, v);
    if FeedBits(reg, p + u + s) == FeedBits(reg, p + v + s) {
      FeedBitsInjective(FeedBits(r, u), FeedBits(r, v), s);
      FeedBitsAreShifts(r, u);
      FeedBitsAreShifts(r, v);
      var u', v' := u + Zeros(32 - |u|), v + Zeros(32 - |v|);
      ShiftsInjective(Xor(r, u'), Xor(r, v'), |u|);
      forall i | 0 <= i < |u|
        ensures u[i] == v[i]
      {
        assert Xor(r, u')[i] == Xor(r, v')[i];
      }
      assert false;
    }
  }

  lemma {:induction false} MessageConcat(a: Bytes, b: Bytes)
    ensures Message(a + b) == Message(a) + Message(b)
  {
    if a == [] {
      assert a + b == b;
    } else {
      assert (a + b)[1..] == a[1..] + b;
      MessageConcat(a[1..], b);
    }
  }

  lemma {:induction false} MessageInjective(a: Bytes, b: Bytes)
    requires Message(a) == Message(b)
    ensures a == b
  {
    assert |a| == |b|;
    if a != [] {
      var x, y := ToBits(a[0], 8), ToBits(b[0], 8);
      assert Message(a)[..8] == x && Message(b)[..8] == y;
      assert Message(a)[8..] == Message(a[1..]) && Message(b)[8..] == Message(b[1..]);
      assert Pow2(8) == 256;
      ValueToBits(a[0], 8);
      ValueToBits(b[0], 8);
      MessageInjective(a[1..], b[1..]);
      assert a == [a[0]] + a[1..] && b == [b[0]] + b[1..];
    }
  }

  /** Replacing at most four consecutive bytes always changes the checksum. */
  lemma CrcDetectsBurst(p: Bytes, u: Bytes, v: Bytes, s: Bytes)
    requires |u| == |v| <= 4 && u != v
    ensures Crc(p + u + s) != Crc(p + v + s)
  {
    MessageConcat(p + u, s);
    MessageConcat(p, u);
    MessageConcat(p + v, s);
    MessageConcat(p, v);
    if Message(u) == Message(v) {
      MessageInjective(u, v);
    }
    BurstChangesRegister(ALL_ONES, Message(p), Message(u), Message(v), Message(s));
    NotInjective(FeedBits(ALL_ONES, Message(p + u + s)), FeedBits(ALL_ONES, Message(p + v + s)));
  }

  lemma NotInjective(a: Word, b: Word)
    ensures Not(a) == Not(b) ==> a == b
  {
    if Not(a) == Not(b) {
      forall i | 0 <= i < 32
        ensures a[i] == b[i]
      {
        assert Not(a)[i] == Not(b)[i];
      }
    }
  }

  /** Equal-length inputs that differ, but only inside four consecutive bytes, have different checksums. */
  lemma CrcDetectsWindow(a: Bytes, b: Bytes, at: nat)
    requires |a| == |b| && a != b
    requires forall k :: 0 <= k < |a| && !(at <= k < at + 4) ==> a[k] == b[k]
    ensures Crc(a) != Crc(b)
  {
    var lo := if at < |a| then at else |a|;
    var hi := if at + 4 < |a| then at + 4 else |a|;
    assert a[..lo] == b[..lo] && a[hi..] == b[hi..];
    assert a == a[..lo] + a[lo..hi] + a[hi..];
    assert b == b[..lo] + b[lo..hi] + b[hi..];
    CrcDetectsBurst(a[..lo], a[lo..hi], b[lo..hi], a[hi..]);
  }

  const CRC_LEN: nat := 4

  /** The checksum as it is stored: four bytes, little-endian. */
  function CrcBytes(bytes: Bytes): (r: Bytes)
    ensures |r| == 4
  {
    Le(Value(Crc(bytes)), 4)
  }

  lemma CrcBytesInjective(a: Bytes, b: Bytes)
    requires CrcBytes(a) == CrcBytes(b)
    ensures Crc(a) == Crc(b)
  {
    ToBitsValue(Crc(a));
    ToBitsValue(Crc(b));
    PowersAgree();
    LeInjective(Value(Crc(a)), Value(Crc(b)), 4);
  }

  lemma StoredCrc(body: Bytes)
    ensures FromLe(CrcBytes(body)) == Value(Crc(body))
  {
    ToBitsValue(Crc(body));
    PowersAgree();
    LeRoundTrip(Value(Crc(body)), 4);
  }

  lemma PowersAgree()
    ensures Pow2(32) == Span(4)
  {
    assert Pow2(8) == 256;
    PowSum(8, 8);
    PowSum(16, 16);
    SpanLiterals();
  }

  lemma {:induction false} PowSum(a: nat, b: nat)
    ensures Pow2(a + b) == Pow2(a) * Pow2(b)
  {
    if a > 0 {
      PowSum(a - 1, b);
      DoubleProduct(Pow2(a - 1), Pow2(b));
    }
  }

  // ── checked sections ───────────────────────────────────────────────────

  /** The four bytes at `crcAt` are the checksum of everything before them. */
  predicate CrcMatches(buf: Bytes, crcAt: nat)
    requires crcAt + 4 <= |buf|
  {
    Value(Crc(buf[..crcAt])) == FromLe(buf[crcAt..crcAt + 4])
  }

  lemma StoredCrcMatches(body: Bytes, tail: Bytes)
    ensures CrcMatches(body + CrcBytes(body) + tail, |body|)
  {
    hide Crc, CrcBytes, Value, FromLe;
    var buf := body + CrcBytes(body) + tail;
    assert buf[..|body|] == body && buf[|body|..|body| + 4] == CrcBytes(body);
    StoredCrc(body);
  }

  lemma MatchingCrcIsStored(buf: Bytes, crcAt: nat)
    requires crcAt + 4 <= |buf| && CrcMatches(buf, crcAt)
    ensures buf[crcAt..crcAt + 4] == CrcBytes(buf[..crcAt])
  {
    FromLeCanonical(buf[crcAt..crcAt + 4]);
  }

  /** `bad` has the length of `good` and differs from it, but only inside `[at, at + width)`. */
  ghost predicate CorruptedWithin(good: Bytes, bad: Bytes, at: nat, width: nat) {
    && |bad| == |good| && bad != good
    && forall k :: 0 <= k < |good| && !(at <= k < at + width) ==> bad[k] == good[k]
  }

  /** Up to four consecutive bytes of the body, or any bytes of the stored checksum itself;
      every single byte of a section is such a place. */
  predicate Detectable(crcAt: nat, at: nat, width: nat) {
    (width <= 4 && at + width <= crcAt) || (crcAt <= at && at + width <= crcAt + 4)
  }

  lemma ChecksumDetects(good: Bytes, bad: Bytes, crcAt: nat, at: nat, width: nat)
    requires crcAt + 4 <= |good| && CrcMatches(good, crcAt)
    requires CorruptedWithin(good, bad, at, width) && Detectable(crcAt, at, width)
    ensures !CrcMatches(bad, crcAt)
  {
    hide Crc, CrcBytes, Value, CrcMatches;
    MatchingCrcIsStored(good, crcAt);
    assert good == good[..crcAt] + good[crcAt..] && bad == bad[..crcAt] + bad[crcAt..];
    if at + width <= crcAt {
      assert bad[crcAt..] == good[crcAt..];
      assert bad[crcAt..crcAt + 4] == good[crcAt..crcAt + 4];
      CrcDetectsWindow(good[..crcAt], bad[..crcAt], at);
      if CrcMatches(bad, crcAt) {
        MatchingCrcIsStored(bad, crcAt);
        CrcBytesInjective(good[..crcAt], bad[..crcAt]);
      }
    } else {
      assert bad[..crcAt] == good[..crcAt];
      assert bad[crcAt + 4..] == good[crcAt + 4..];
      assert good[crcAt..] == good[crcAt..crcAt + 4] + good[crcAt + 4..];
      assert bad[crcAt..] == bad[crcAt..crcAt + 4] + bad[crcAt + 4..];
      if CrcMatches(bad, crcAt) {
        MatchingCrcIsStored(bad, crcAt);
      }
    }
  }

  /** Any single byte up to the end of the stored checksum is such a place, and so are four bytes in a row of the body. */
  lemma Places(good: Bytes, bad: Bytes, crcAt: nat, at: nat)
    requires |bad| == |good| && bad != good && at < crcAt + 4 <= |good|
    requires (bad[..at] == good[..at] && bad[at + 1..] == good[at + 1..])
          || (at + 4 <= crcAt && bad[..at] == good[..at] && bad[at + 4..] == good[at + 4..])
    ensures exists width :: CorruptedWithin(good, bad, at, width) && Detectable(crcAt, at, width)
  {
    var width := if bad[at + 1..] == good[at + 1..] then 1 else 4;
    forall k | 0 <= k < |good| && !(at <= k < at + width)
      ensures bad[k] == good[k]
    {
      if k < at {
        assert bad[k] == bad[..at][k];
      } else {
        assert bad[k] == bad[at + width..][k - at - width];
      }
    }
    assert CorruptedWithin(good, bad, at, width);
  }
}
