/** The order book checksum: the bit-at-a-time CRC-32/ISO-HDLC of the Rust core.

    The loop is tied to three independent views of the same checksum: the table-driven
    algorithm of section 8 of RFC 1952, a register fed one message bit at a time, and an
    exact description, through XOR-linearity, of the corruptions it cannot see.

    Facts about words are proved first, one bit pattern at a time; the facts about byte and
    bit sequences then use the word operations by name only. */
module Crc32 {

  const ONES: bv32 := 0xFFFF_FFFF

  // ----- The checksum ---------------------------------------------------------------

  function Xor(a: bv32, b: bv32): bv32 { a ^ b }

  /** One step of the inner loop, with the reflected polynomial 0x04C11DB7. */
  function ShiftStep(c: bv32): bv32 {
    if c & 1 != 0 then (c >> 1) ^ 0xEDB8_8320 else c >> 1
  }

  function Shift(c: bv32, n: nat): bv32
    decreases n
  {
    if n == 0 then c else Shift(ShiftStep(c), n - 1)
  }

  function AbsorbByte(c: bv32, b: bv8): bv32 {
    Shift(Xor(c, b as bv32), 8)
  }

  /** The register after absorbing `data`, starting from `c`. */
  function Register(c: bv32, data: seq<bv8>): bv32
    decreases |data|
  {
    if data == [] then c else Register(AbsorbByte(c, data[0]), data[1..])
  }

  function Checksum(data: seq<bv8>): bv32 {
    Xor(Register(ONES, data), ONES)
  }

  method Crc32Ieee(data: seq<bv8>) returns (crc: bv32)
    ensures crc == Checksum(data)
  {
    crc := 0xFFFF_FFFF;
    for i := 0 to |data|
      invariant Register(crc, data[i..]) == Register(ONES, data)
    {
      ghost var after := AbsorbByte(crc, data[i]);
      crc := Xor(crc, data[i] as bv32);
      var k := 8;
      while k > 0
        invariant k >= 0 && Shift(crc, k) == after
      {
        ghost var next := ShiftStep(crc);
        assert Shift(next, k - 1) == after;
        if crc & 1 != 0 {
          crc := (crc >> 1) ^ 0xEDB8_8320;
        } else {
          crc := crc >> 1;
        }
        assert crc == next;
        k := k - 1;
      }
      assert data[i..][1..] == data[i + 1..];
    }
    crc := Xor(crc, 0xFFFF_FFFF);
  }

  // ----- The shift step is linear and invertible ------------------------------------

  lemma LinearEvenEven(a: bv32, b: bv32)
    requires a & 1 == 0 && b & 1 == 0
    ensures ShiftStep(a ^ b) == ShiftStep(a) ^ ShiftStep(b)
  {
  }

  lemma LinearOddEven(a: bv32, b: bv32)
    requires a & 1 == 1 && b & 1 == 0
    ensures ShiftStep(a ^ b) == ShiftStep(a) ^ ShiftStep(b)
  {
  }

  lemma LinearOddOdd(a: bv32, b: bv32)
    requires a & 1 == 1 && b & 1 == 1
    ensures ShiftStep(a ^ b) == ShiftStep(a) ^ ShiftStep(b)
  {
  }

  lemma XorCommutes(a: bv32, b: bv32)
    ensures Xor(a, b) == Xor(b, a)
  {
  }

  lemma ShiftStepLinear(a: bv32, b: bv32)
    ensures ShiftStep(Xor(a, b)) == Xor(ShiftStep(a), ShiftStep(b))
  {
    if a & 1 == 0 && b & 1 == 0 {
      LinearEvenEven(a, b);
    } else if a & 1 == 1 && b & 1 == 0 {
      LinearOddEven(a, b);
    } else if a & 1 == 0 && b & 1 == 1 {
      LinearOddEven(b, a);
      XorCommutes(a, b);
      XorCommutes(ShiftStep(a), ShiftStep(b));
    } else {
      LinearOddOdd(a, b);
    }
  }

  lemma {:induction false} ShiftLinear(a: bv32, b: bv32, n: nat)
    ensures Shift(Xor(a, b), n) == Xor(Shift(a, n), Shift(b, n))
    decreases n
  {
    if n != 0 {
      ShiftStepLinear(a, b);
      ShiftLinear(ShiftStep(a), ShiftStep(b), n - 1);
    }
  }

  /** Undoes `ShiftStep`: the polynomial has its top bit set, so the top bit of the
      shifted register tells which branch was taken. */
  function UnshiftStep(d: bv32): bv32 {
    if d & 0x8000_0000 != 0 then ((d ^ 0xEDB8_8320) << 1) | 1 else d << 1
  }

  lemma UnshiftEven(c: bv32)
    requires c & 1 == 0
    ensures UnshiftStep(ShiftStep(c)) == c
  {
  }

  lemma UnshiftOdd(c: bv32)
    requires c & 1 == 1
    ensures UnshiftStep(ShiftStep(c)) == c
  {
  }

  lemma UnshiftShift(c: bv32)
    ensures UnshiftStep(ShiftStep(c)) == c
  {
    if c & 1 == 0 { UnshiftEven(c); } else { UnshiftOdd(c); }
  }

  lemma ShiftUnshiftLow(d: bv32)
    requires d & 0x8000_0000 == 0
    ensures ShiftStep(UnshiftStep(d)) == d
  {
  }

  lemma ShiftUnshiftHigh(d: bv32)
    requires d & 0x8000_0000 == 0x8000_0000
    ensures ShiftStep(UnshiftStep(d)) == d
  {
  }

  /** One shift of the register is a bijection on 32-bit words. */
  lemma ShiftStepBijective(c: bv32)
    ensures UnshiftStep(ShiftStep(c)) == c && ShiftStep(UnshiftStep(c)) == c
  {
    UnshiftShift(c);
    if c & 0x8000_0000 == 0 { ShiftUnshiftLow(c); } else { ShiftUnshiftHigh(c); }
  }

  lemma {:induction false} ShiftInjective(a: bv32, b: bv32, n: nat)
    ensures Shift(a, n) == Shift(b, n) ==> a == b
    decreases n
  {
    if n != 0 {
      ShiftInjective(ShiftStep(a), ShiftStep(b), n - 1);
      UnshiftShift(a);
      UnshiftShift(b);
    }
  }

  lemma {:induction false} ShiftZero(n: nat)
    ensures Shift(0, n) == 0
    decreases n
  {
    if n != 0 {
      ShiftZero(n - 1);
    }
  }

  lemma XorCancels(a: bv32, k: bv32)
    ensures Xor(Xor(a, k), k) == a
  {
  }

  lemma XorUnit(a: bv32)
    ensures Xor(a, 0) == a && Xor(0, a) == a && Xor(a, a) == 0
  {
  }

  lemma XorEqual(a: bv32, b: bv32)
    ensures Xor(a, b) == 0 <==> a == b
  {
    XorCancels(a, b);
    XorUnit(a);
    XorUnit(b);
  }

  lemma XorOnes(a: bv32, b: bv32)
    ensures Xor(a, ONES) == Xor(b, ONES) <==> a == b
  {
    XorCancels(a, ONES);
    XorCancels(b, ONES);
  }

  // ----- The table-driven algorithm of section 8 of RFC 1952 ------------------------

  function Half(m: bv32): bv32 { m >> 1 }

  predicate Odd(m: bv32) { m & 1 == 1 }

  function LowByte(c: bv32): bv8 { (c & 0xFF) as bv8 }

  function DropByte(c: bv32): bv32 { c >> 8 }

  /** Entry `n` of the 256-entry table. */
  function TableEntry(n: bv8): bv32 {
    Shift(n as bv32, 8)
  }

  function TableRegister(c: bv32, data: seq<bv8>): bv32
    decreases |data|
  {
    if data == [] then c
    else TableRegister(Xor(TableEntry(LowByte(Xor(c, data[0] as bv32))), DropByte(c)), data[1..])
  }

  /** The `crc` function of the RFC: complement, absorb, complement. */
  function TableChecksum(data: seq<bv8>): bv32 {
    Xor(TableRegister(Xor(0, ONES), data), ONES)
  }

  lemma ShiftStepEven(c: bv32)
    requires !Odd(c)
    ensures ShiftStep(c) == Half(c)
  {
  }

  function Halves(c: bv32, n: nat): bv32
    decreases n
  {
    if n == 0 then c else Halves(Half(c), n - 1)
  }

  predicate EvenFor(c: bv32, n: nat)
    decreases n
  {
    n == 0 || (!Odd(c) && EvenFor(Half(c), n - 1))
  }

  lemma {:induction false} ShiftHalves(c: bv32, n: nat)
    requires EvenFor(c, n)
    ensures Shift(c, n) == Halves(c, n)
    decreases n
  {
    if n != 0 {
      ShiftStepEven(c);
      ShiftHalves(Half(c), n - 1);
    }
  }

  lemma HighBytesEven(c: bv32)
    requires c & 0xFF == 0
    ensures EvenFor(c, 8)
  {
  }

  lemma EightHalves(c: bv32)
    ensures Halves(c, 8) == DropByte(c)
  {
  }

  lemma ShiftHighBytes(c: bv32)
    requires c & 0xFF == 0
    ensures Shift(c, 8) == DropByte(c)
  {
    HighBytesEven(c);
    ShiftHalves(c, 8);
    EightHalves(c);
  }

  lemma SplitWord(x: bv32) returns (high: bv32)
    ensures high & 0xFF == 0 && DropByte(high) == DropByte(x)
    ensures x == Xor(LowByte(x) as bv32, high)
  {
    high := x & 0xFFFF_FF00;
  }

  lemma DropAbsorbed(c: bv32, b: bv8)
    ensures DropByte(Xor(c, b as bv32)) == DropByte(c)
  {
  }

  lemma TableStep(c: bv32, b: bv8)
    ensures AbsorbByte(c, b) == Xor(TableEntry(LowByte(Xor(c, b as bv32))), DropByte(c))
  {
    var x := Xor(c, b as bv32);
    var high := SplitWord(x);
    ShiftLinear(LowByte(x) as bv32, high, 8);
    ShiftHighBytes(high);
    DropAbsorbed(c, b);
  }

  lemma {:induction false} TableRegisterAgrees(c: bv32, data: seq<bv8>)
    ensures TableRegister(c, data) == Register(c, data)
    decreases |data|
  {
    if data != [] {
      TableStep(c, data[0]);
      TableRegisterAgrees(AbsorbByte(c, data[0]), data[1..]);
    }
  }

  /** The bit-at-a-time loop computes the checksum of the RFC on every byte string. */
  lemma ChecksumIsRfc1952(data: seq<bv8>)
    ensures Checksum(data) == TableChecksum(data)
  {
    assert Xor(0, ONES) == ONES;
    TableRegisterAgrees(ONES, data);
  }

  // ----- The check value ------------------------------------------------------------

  lemma EightSteps(c: bv32)
    ensures Shift(c, 8) == ShiftStep(ShiftStep(ShiftStep(ShiftStep(ShiftStep(ShiftStep(ShiftStep(ShiftStep(c))))))))
  {
    assert Shift(c, 8) == Shift(ShiftStep(ShiftStep(ShiftStep(ShiftStep(c)))), 4);
  }

  lemma FirstSteps()
    ensures AbsorbByte(0xFFFF_FFFF, 0x31) == 0x7C23_1048 && AbsorbByte(0x7C23_1048, 0x32) == 0xB0AC_BB32
    ensures AbsorbByte(0xB0AC_BB32, 0x33) == 0x77B7_9C2D
  {
    EightSteps(0xFFFF_FFCE);
    EightSteps(0x7C23_107A);
    EightSteps(0xB0AC_BB01);
  }

  lemma MiddleSteps()
    ensures AbsorbByte(0x77B7_9C2D, 0x34) == 0x641C_1F5C && AbsorbByte(0x641C_1F5C, 0x35) == 0x340A_C5E3
    ensures AbsorbByte(0x340A_C5E3, 0x36) == 0xF68D_2C9E
  {
    EightSteps(0x77B7_9C19);
    EightSteps(0x641C_1F69);
    EightSteps(0x340A_C5D5);
  }

  lemma LastSteps()
    ensures AbsorbByte(0xF68D_2C9E, 0x37) == 0xAFFC_9660 && AbsorbByte(0xAFFC_9660, 0x38) == 0x651F_2550
    ensures AbsorbByte(0x651F_2550, 0x39) == 0x340B_C6D9
  {
    EightSteps(0xF68D_2CA9);
    EightSteps(0xAFFC_9658);
    EightSteps(0x651F_2569);
  }

  lemma RegisterNext(c: bv32, x: bv8, rest: seq<bv8>)
    ensures Register(c, [x] + rest) == Register(AbsorbByte(c, x), rest)
  {
    assert ([x] + rest)[1..] == rest;
  }

  lemma RegisterThree(c: bv32, x: bv8, y: bv8, z: bv8, rest: seq<bv8>)
    ensures Register(c, [x, y, z] + rest) == Register(AbsorbByte(AbsorbByte(AbsorbByte(c, x), y), z), rest)
  {
    assert [x, y, z] + rest == [x] + ([y] + ([z] + rest));
    RegisterNext(c, x, [y] + ([z] + rest));
    RegisterNext(AbsorbByte(c, x), y, [z] + rest);
    RegisterNext(AbsorbByte(AbsorbByte(c, x), y), z, rest);
  }

  /** The check value of CRC-32/ISO-HDLC: the checksum of the digits 1 to 9. */
  lemma CheckValue(data: seq<bv8>)
    requires data == [0x31, 0x32, 0x33, 0x34, 0x35, 0x36, 0x37, 0x38, 0x39]
    ensures Checksum(data) == 0xCBF4_3926
  {
    FirstSteps();
    MiddleSteps();
    LastSteps();
    assert data == [0x31, 0x32, 0x33] + ([0x34, 0x35, 0x36] + ([0x37, 0x38, 0x39] + []));
    RegisterThree(0xFFFF_FFFF, 0x31, 0x32, 0x33, [0x34, 0x35, 0x36] + ([0x37, 0x38, 0x39] + []));
    RegisterThree(0x77B7_9C2D, 0x34, 0x35, 0x36, [0x37, 0x38, 0x39] + []);
    RegisterThree(0xF68D_2C9E, 0x37, 0x38, 0x39, []);
  }

  // ----- One message bit at a time --------------------------------------------------

  function BitsOf(b: bv8): (s: seq<bool>)
    ensures |s| == 8
  {
    [b & 1 != 0, b & 2 != 0, b & 4 != 0, b & 8 != 0, b & 16 != 0, b & 32 != 0, b & 64 != 0, b & 128 != 0]
  }

  /** The message as bits, in the order in which they enter the register. */
  function Bits(data: seq<bv8>): (s: seq<bool>)
    ensures |s| == 8 * |data|
  {
    if data == [] then [] else BitsOf(data[0]) + Bits(data[1..])
  }

  function Bit(b: bool): bv32 { if b then 1 else 0 }

  function AbsorbBit(c: bv32, b: bool): bv32 { ShiftStep(Xor(c, Bit(b))) }

  function BitRegister(c: bv32, bits: seq<bool>): bv32
    decreases |bits|
  {
    if bits == [] then c else BitRegister(AbsorbBit(c, bits[0]), bits[1..])
  }

  function Push(w: bv32, b: bool): bv32 { if b then (w << 1) | 1 else w << 1 }

  /** Bits packed into a word, the first bit lowest. */
  function Word(bits: seq<bool>): bv32 {
    if bits == [] then 0 else Push(Word(bits[1..]), bits[0])
  }

  function And(w: bv32, m: bv32): bv32 { w & m }

  /** All bits of `w` lie under the mask `m`. */
  predicate Within(w: bv32, m: bv32) { And(w, m) == w }

  predicate Contiguous(m: bv32) { m & (m + 1) == 0 }

  /** The `n` lowest bits set. */
  function LowMask(n: nat): bv32
    requires n <= 32
    decreases 32 - n
  {
    if n == 32 then ONES else Half(LowMask(n + 1))
  }

  lemma HalfContiguous(m: bv32)
    requires Contiguous(m)
    ensures Contiguous(Half(m))
  {
  }

  lemma {:induction false} LowMaskContiguous(n: nat)
    requires n <= 32
    ensures Contiguous(LowMask(n))
    decreases 32 - n
  {
    if n < 32 {
      LowMaskContiguous(n + 1);
      HalfContiguous(LowMask(n + 1));
    }
  }

  lemma {:induction false} LowMaskHalves(n: nat, k: nat)
    requires n + k <= 32
    ensures LowMask(n) == Halves(LowMask(n + k), k)
    decreases k
  {
    if k != 0 {
      LowMaskHalves(n, k - 1);
      assert LowMask(n + (k - 1)) == Half(LowMask(n + k));
    }
  }

  lemma LowMaskOne()
    ensures LowMask(1) == 1
  {
    LowMaskHalves(24, 8);
    EightHalves(LowMask(32));
    LowMaskHalves(16, 8);
    EightHalves(LowMask(24));
    LowMaskHalves(8, 8);
    EightHalves(LowMask(16));
    assert LowMask(8) == 0xFF;
    LowMaskHalves(1, 7);
    assert Halves(0xFF, 7) == 1;
  }

  lemma ContiguousOdd(m: bv32)
    requires Contiguous(m) && Odd(Half(m))
    ensures Odd(m)
  {
  }

  lemma {:induction false} LowMaskOdd(n: nat)
    requires 1 <= n <= 32
    ensures Odd(LowMask(n))
  {
    if n == 1 {
      LowMaskOne();
    } else {
      LowMaskOdd(n - 1);
      LowMaskContiguous(n);
      ContiguousOdd(LowMask(n));
    }
  }

  lemma DoubleWithin(w: bv32, m: bv32)
    requires Within(w, Half(m))
    ensures Within(w << 1, m)
  {
  }

  lemma DoubleOneWithin(w: bv32, m: bv32)
    requires Within(w, Half(m)) && Odd(m)
    ensures Within((w << 1) | 1, m)
  {
  }

  lemma PushWithin(w: bv32, m: bv32, b: bool)
    requires Within(w, Half(m)) && Odd(m)
    ensures Within(Push(w, b), m)
  {
    if b { DoubleOneWithin(w, m); } else { DoubleWithin(w, m); }
  }

  lemma {:induction false} WordFits(bits: seq<bool>)
    requires |bits| <= 32
    ensures Within(Word(bits), LowMask(|bits|))
  {
    if bits != [] {
      var n := |bits|;
      WordFits(bits[1..]);
      LowMaskOdd(n);
      assert LowMask(n - 1) == Half(LowMask(n));
      PushWithin(Word(bits[1..]), LowMask(n), bits[0]);
      assert Word(bits) == Push(Word(bits[1..]), bits[0]);
    }
  }

  function Double(w: bv32): bv32 { w << 1 }

  lemma DoubleShifts(w: bv32, m: bv32)
    requires Within(w, Half(m))
    ensures ShiftStep(Double(w)) == w
  {
    assert w & 0x7FFF_FFFF == w;
    assert !Odd(Double(w));
    ShiftStepEven(Double(w));
  }

  lemma DoubleZero(w: bv32, m: bv32)
    requires Within(w, Half(m)) && Double(w) == 0
    ensures w == 0
  {
    assert w & 0x7FFF_FFFF == w;
  }

  lemma PushIsXor(w: bv32, b: bool)
    ensures Push(w, b) == Xor(Bit(b), Double(w))
  {
  }

  lemma PushZero(w: bv32, b: bool)
    requires Push(w, b) == 0
    ensures Double(w) == 0 && !b
  {
  }

  lemma XorAssociates(a: bv32, b: bv32, c: bv32)
    ensures Xor(a, Xor(b, c)) == Xor(Xor(a, b), c)
  {
  }

  /** Feeding up to 32 bits one by one is one word XOR followed by that many shifts. */
  lemma {:induction false} FeedIsWordXor(c: bv32, bits: seq<bool>)
    requires |bits| <= 32
    ensures BitRegister(c, bits) == Shift(Xor(c, Word(bits)), |bits|)
    decreases |bits|
  {
    if bits == [] {
      assert Xor(c, 0) == c;
    } else {
      var w := Word(bits[1..]);
      WordFits(bits[1..]);
      DoubleShifts(w, LowMask(|bits|));
      PushIsXor(w, bits[0]);
      XorAssociates(c, Bit(bits[0]), Double(w));
      ShiftStepLinear(Xor(c, Bit(bits[0])), Double(w));
      FeedIsWordXor(AbsorbBit(c, bits[0]), bits[1..]);
    }
  }

  lemma ByteIsPushed(b: bv8)
    ensures var s := BitsOf(b);
      Push(Push(Push(Push(Push(Push(Push(Push(0, s[7]), s[6]), s[5]), s[4]), s[3]), s[2]), s[1]), s[0]) == b as bv32
  {
  }

  lemma ByteWord(b: bv8)
    ensures Word(BitsOf(b)) == b as bv32
  {
    var s := BitsOf(b);
    assert s[7..][1..] == [] && Word(s[7..]) == Push(0, s[7]);
    assert s[6..][1..] == s[7..] && Word(s[6..]) == Push(Word(s[7..]), s[6]);
    assert s[5..][1..] == s[6..] && Word(s[5..]) == Push(Word(s[6..]), s[5]);
    assert s[4..][1..] == s[5..] && Word(s[4..]) == Push(Word(s[5..]), s[4]);
    assert s[3..][1..] == s[4..] && Word(s[3..]) == Push(Word(s[4..]), s[3]);
    assert s[2..][1..] == s[3..] && Word(s[2..]) == Push(Word(s[3..]), s[2]);
    assert s[1..][1..] == s[2..] && Word(s[1..]) == Push(Word(s[2..]), s[1]);
    ByteIsPushed(b);
  }

  lemma {:induction false} BitRegisterConcat(c: bv32, x: seq<bool>, y: seq<bool>)
    ensures BitRegister(c, x + y) == BitRegister(BitRegister(c, x), y)
    decreases |x|
  {
    if x == [] {
      assert x + y == y;
    } else {
      assert (x + y)[1..] == x[1..] + y;
      BitRegisterConcat(AbsorbBit(c, x[0]), x[1..], y);
    }
  }

  /** Absorbing a byte and shifting eight times is absorbing its bits, lowest first. */
  lemma {:induction false} RegisterIsBitRegister(c: bv32, data: seq<bv8>)
    ensures Register(c, data) == BitRegister(c, Bits(data))
    decreases |data|
  {
    if data != [] {
      FeedIsWordXor(c, BitsOf(data[0]));
      ByteWord(data[0]);
      BitRegisterConcat(c, BitsOf(data[0]), Bits(data[1..]));
      RegisterIsBitRegister(AbsorbByte(c, data[0]), data[1..]);
    }
  }

  lemma IndexConcat(a: seq<bool>, b: seq<bool>, n: nat)
    requires n < |a| + |b|
    ensures (a + b)[n] == if n < |a| then a[n] else b[n - |a|]
  {
  }

  lemma {:induction false} BitsAt(data: seq<bv8>, i: nat, k: nat)
    requires i < |data| && k < 8
    ensures Bits(data)[8 * i + k] == BitsOf(data[i])[k]
  {
    var first, rest := BitsOf(data[0]), Bits(data[1..]);
    IndexConcat(first, rest, 8 * i + k);
    if i != 0 {
      BitsAt(data[1..], i - 1, k);
      assert data[1..][i - 1] == data[i];
    }
  }

  lemma BitsOfInjective(a: bv8, b: bv8)
    requires BitsOf(a) == BitsOf(b)
    ensures a == b
  {
    ByteWord(a);
    ByteWord(b);
    assert (a as bv32) as bv8 == a && (b as bv32) as bv8 == b;
  }

  lemma BitsInjective(x: seq<bv8>, y: seq<bv8>)
    requires Bits(x) == Bits(y)
    ensures x == y
  {
    assert |x| == |y|;
    forall i | 0 <= i < |x| ensures x[i] == y[i] {
      forall k | 0 <= k < 8 ensures BitsOf(x[i])[k] == BitsOf(y[i])[k] {
        BitsAt(x, i, k);
        BitsAt(y, i, k);
      }
      BitsOfInjective(x[i], y[i]);
    }
  }

  // ----- Which corruptions go unseen ------------------------------------------------

  function XorBits(x: seq<bool>, y: seq<bool>): (e: seq<bool>)
    requires |x| == |y|
  {
    seq(|x|, i requires 0 <= i < |x| => x[i] != y[i])
  }

  lemma XorSwaps(a: bv32, b: bv32, c: bv32, d: bv32)
    ensures Xor(Xor(a, b), Xor(c, d)) == Xor(Xor(a, c), Xor(b, d))
  {
    XorAssociates(Xor(a, b), c, d);
    XorAssociates(a, b, c);
    XorCommutes(b, c);
    XorAssociates(a, c, b);
    XorAssociates(Xor(a, c), b, d);
  }

  lemma BitXor(a: bool, b: bool)
    ensures Bit(a != b) == Xor(Bit(a), Bit(b))
  {
  }

  lemma AbsorbBitLinear(c: bv32, d: bv32, a: bool, b: bool)
    ensures AbsorbBit(Xor(c, d), a != b) == Xor(AbsorbBit(c, a), AbsorbBit(d, b))
  {
    BitXor(a, b);
    XorSwaps(c, d, Bit(a), Bit(b));
    ShiftStepLinear(Xor(c, Bit(a)), Xor(d, Bit(b)));
  }

  lemma {:induction false} BitRegisterLinear(c: bv32, d: bv32, x: seq<bool>, y: seq<bool>)
    requires |x| == |y|
    ensures BitRegister(Xor(c, d), XorBits(x, y)) == Xor(BitRegister(c, x), BitRegister(d, y))
    decreases |x|
  {
    if x != [] {
      var e := XorBits(x, y);
      assert e[1..] == XorBits(x[1..], y[1..]);
      AbsorbBitLinear(c, d, x[0], y[0]);
      BitRegisterLinear(AbsorbBit(c, x[0]), AbsorbBit(d, y[0]), x[1..], y[1..]);
    }
  }

  /** Two payloads of one length share a checksum exactly when their bitwise difference
      drives the all-zero register back to zero. */
  lemma UndetectedExactly(x: seq<bv8>, y: seq<bv8>)
    requires |x| == |y|
    ensures Checksum(x) == Checksum(y) <==> BitRegister(0, XorBits(Bits(x), Bits(y))) == 0
  {
    RegisterIsBitRegister(ONES, x);
    RegisterIsBitRegister(ONES, y);
    BitRegisterLinear(ONES, ONES, Bits(x), Bits(y));
    XorEqual(ONES, ONES);
    XorEqual(Register(ONES, x), Register(ONES, y));
    XorOnes(Register(ONES, x), Register(ONES, y));
  }

  lemma {:induction false} WordZero(bits: seq<bool>)
    requires |bits| <= 32 && Word(bits) == 0
    ensures forall i :: 0 <= i < |bits| ==> !bits[i]
  {
    if bits != [] {
      WordFits(bits[1..]);
      PushZero(Word(bits[1..]), bits[0]);
      DoubleZero(Word(bits[1..]), LowMask(|bits|));
      WordZero(bits[1..]);
      assert forall i :: 1 <= i < |bits| ==> bits[i] == bits[1..][i - 1];
    }
  }

  lemma {:induction false} ZeroBits(c: bv32, bits: seq<bool>)
    requires forall i :: 0 <= i < |bits| ==> !bits[i]
    ensures BitRegister(c, bits) == Shift(c, |bits|)
    decreases |bits|
  {
    if bits != [] {
      assert Xor(c, 0) == c;
      ZeroBits(ShiftStep(c), bits[1..]);
    }
  }

  lemma ShortBurstVanishes(burst: seq<bool>)
    requires |burst| <= 32 && BitRegister(0, burst) == 0
    ensures forall i :: 0 <= i < |burst| ==> !burst[i]
  {
    FeedIsWordXor(0, burst);
    XorUnit(Word(burst));
    ShiftZero(|burst|);
    ShiftInjective(Word(burst), 0, |burst|);
    WordZero(burst);
  }

  /** Unchanged bits around a difference do not affect whether it is seen. */
  lemma PaddingIrrelevant(before: seq<bool>, burst: seq<bool>, after: seq<bool>)
    requires forall i :: 0 <= i < |before| ==> !before[i]
    requires forall i :: 0 <= i < |after| ==> !after[i]
    ensures BitRegister(0, before + (burst + after)) == 0 <==> BitRegister(0, burst) == 0
  {
    BitRegisterConcat(0, before, burst + after);
    ZeroBits(0, before);
    ShiftZero(|before|);
    BitRegisterConcat(0, burst, after);
    ZeroBits(BitRegister(0, burst), after);
    ShiftZero(|after|);
    ShiftInjective(BitRegister(0, burst), 0, |after|);
  }

  ghost predicate Quiet(bits: seq<bool>) {
    forall i :: 0 <= i < |bits| ==> !bits[i]
  }

  lemma QuietAround(e: seq<bool>, lo: nat, hi: nat)
    requires lo <= hi <= |e| && forall i :: 0 <= i < |e| && e[i] ==> lo <= i < hi
    ensures Quiet(e[..lo]) && Quiet(e[hi..]) && e == e[..lo] + (e[lo..hi] + e[hi..])
    ensures Quiet(e[lo..hi]) ==> Quiet(e)
  {
    assert forall i :: lo <= i < hi ==> e[i] == e[lo..hi][i - lo];
  }

  /** A difference that is confined to 32 consecutive bits and leaves the register at zero
      is no difference at all. */
  lemma BurstVanishes(e: seq<bool>, lo: nat)
    requires forall i :: 0 <= i < |e| && e[i] ==> lo <= i < lo + 32
    requires BitRegister(0, e) == 0
    ensures Quiet(e)
  {
    if lo < |e| {
      var hi := if lo + 32 < |e| then lo + 32 else |e|;
      QuietAround(e, lo, hi);
      PaddingIrrelevant(e[..lo], e[lo..hi], e[hi..]);
      ShortBurstVanishes(e[lo..hi]);
    }
  }

  /** Every corruption confined to 32 consecutive bits, byte-aligned or not, changes the
      checksum, so the received payload fails validation. */
  lemma BurstDetected(sent: seq<bv8>, received: seq<bv8>, lo: nat)
    requires |sent| == |received| && sent != received
    requires forall i :: 0 <= i < 8 * |sent| && Bits(sent)[i] != Bits(received)[i] ==> lo <= i < lo + 32
    ensures Checksum(sent) != Checksum(received)
  {
    UndetectedExactly(sent, received);
    if Checksum(sent) == Checksum(received) {
      var e := XorBits(Bits(sent), Bits(received));
      BurstVanishes(e, lo);
      assert forall i :: 0 <= i < |e| ==> e[i] == (Bits(sent)[i] != Bits(received)[i]);
      assert Bits(sent) == Bits(received);
      BitsInjective(sent, received);
    }
  }

  /** The byte-aligned case: a difference inside four consecutive bytes. */
  lemma FourByteBurstDetected(sent: seq<bv8>, received: seq<bv8>, first: nat)
    requires |sent| == |received| && sent != received
    requires forall i :: 0 <= i < |sent| && sent[i] != received[i] ==> first <= i < first + 4
    ensures Checksum(sent) != Checksum(received)
  {
    forall j | 0 <= j < 8 * |sent| && Bits(sent)[j] != Bits(received)[j]
      ensures 8 * first <= j < 8 * first + 32
    {
      BitsAt(sent, j / 8, j % 8);
      BitsAt(received, j / 8, j % 8);
    }
    BurstDetected(sent, received, 8 * first);
  }

  /** The bound is tight: among the bursts of 33 bits exactly one, the generator polynomial
      itself, goes unseen. */
  lemma ShortestUnseenBurst(tail: seq<bool>)
    requires |tail| == 32
    ensures BitRegister(0, [true] + tail) == 0 <==> Word(tail) == 0xEDB8_8320
  {
    var burst, c := [true] + tail, AbsorbBit(0, true);
    assert burst[1..] == tail;
    assert c == 0xEDB8_8320;
    FeedIsWordXor(c, tail);
    ShiftZero(32);
    ShiftInjective(Xor(c, Word(tail)), 0, 32);
    XorEqual(c, Word(tail));
  }

  // ----- The checksum as polynomial division ----------------------------------------

  /** The `n` lowest bits of a word, lowest first. */
  function Unpack(w: bv32, n: nat): (s: seq<bool>)
    ensures |s| == n
    decreases n
  {
    if n == 0 then [] else [Odd(w)] + Unpack(Half(w), n - 1)
  }

  lemma UnpackStep(w: bv32, m: bv32)
    requires Odd(m)
    ensures Push(And(Half(w), Half(m)), Odd(w)) == And(w, m)
  {
    if Odd(w) { UnpackOdd(w, m); } else { UnpackEven(w, m); }
  }

  lemma UnpackOdd(w: bv32, m: bv32)
    requires w & 1 == 1 && m & 1 == 1
    ensures (((w >> 1) & (m >> 1)) << 1) | 1 == w & m
  {
  }

  lemma UnpackEven(w: bv32, m: bv32)
    requires w & 1 == 0
    ensures ((w >> 1) & (m >> 1)) << 1 == w & m
  {
  }

  lemma {:induction false} UnpackWord(w: bv32, n: nat)
    requires n <= 32
    ensures Word(Unpack(w, n)) == And(w, LowMask(n))
    decreases n
  {
    if n == 0 {
      LowMaskZero();
    } else {
      UnpackWord(Half(w), n - 1);
      LowMaskOdd(n);
      assert LowMask(n - 1) == Half(LowMask(n));
      UnpackStep(w, LowMask(n));
    }
  }

  lemma LowMaskZero()
    ensures LowMask(0) == 0
  {
    LowMaskOne();
    assert LowMask(0) == Half(LowMask(1));
  }

  /** The generator polynomial, highest degree first. */
  function Generator(): (g: seq<bool>)
    ensures |g| == 33
  {
    [true] + Unpack(0xEDB8_8320, 32)
  }

  function Zeros(n: nat): seq<bool> { seq(n, _ => false) }

  /** Long multiplication of the polynomial `q` by the generator, over GF(2). */
  function Product(q: seq<bool>): (p: seq<bool>)
    ensures |p| == |q| + 32
  {
    if q == [] then Zeros(32)
    else XorBits(if q[0] then Generator() + Zeros(|q| - 1) else Zeros(|q| + 32), [false] + Product(q[1..]))
  }

  lemma AndOnes(w: bv32)
    ensures And(w, ONES) == w
  {
  }

  lemma GeneratorTail()
    ensures Word(Unpack(0xEDB8_8320, 32)) == 0xEDB8_8320
  {
    UnpackWord(0xEDB8_8320, 32);
    AndOnes(0xEDB8_8320);
  }

  lemma TrailingZeros(bits: seq<bool>, n: nat)
    ensures BitRegister(0, bits + Zeros(n)) == 0 <==> BitRegister(0, bits) == 0
  {
    PaddingIrrelevant([], bits, Zeros(n));
    assert [] + (bits + Zeros(n)) == bits + Zeros(n);
  }

  lemma GeneratorUnseen(n: nat)
    ensures BitRegister(0, Generator() + Zeros(n)) == 0
  {
    GeneratorTail();
    ShortestUnseenBurst(Unpack(0xEDB8_8320, 32));
    TrailingZeros(Generator(), n);
  }

  lemma ZerosUnseen(n: nat)
    ensures BitRegister(0, Zeros(n)) == 0
  {
    ZeroBits(0, Zeros(n));
    ShiftZero(n);
  }

  lemma LeadingZero(bits: seq<bool>)
    ensures BitRegister(0, [false] + bits) == BitRegister(0, bits)
  {
    assert ([false] + bits)[1..] == bits;
    XorUnit(0);
    assert AbsorbBit(0, false) == 0;
  }

  lemma XorUnseen(x: seq<bool>, y: seq<bool>)
    requires |x| == |y| && BitRegister(0, x) == 0
    ensures BitRegister(0, XorBits(x, y)) == BitRegister(0, y)
  {
    BitRegisterLinear(0, 0, x, y);
    XorUnit(0);
    XorUnit(BitRegister(0, y));
  }

  lemma {:induction false} MultipleUnseen(q: seq<bool>)
    ensures BitRegister(0, Product(q)) == 0
  {
    if q == [] {
      ZerosUnseen(32);
    } else {
      MultipleUnseen(q[1..]);
      LeadingZero(Product(q[1..]));
      GeneratorUnseen(|q| - 1);
      ZerosUnseen(|q| + 32);
      XorUnseen(if q[0] then Generator() + Zeros(|q| - 1) else Zeros(|q| + 32), [false] + Product(q[1..]));
    }
  }

  /** Long division: a difference that goes unseen leaves no remainder. */
  lemma {:induction false} Divide(e: seq<bool>) returns (q: seq<bool>)
    requires |e| >= 32 && BitRegister(0, e) == 0
    ensures |q| == |e| - 32 && e == Product(q)
    decreases |e|
  {
    if |e| == 32 {
      ShortBurstVanishes(e);
      q := [];
    } else {
      var step := if e[0] then Generator() + Zeros(|e| - 33) else Zeros(|e|);
      var rest := XorBits(step, e);
      GeneratorUnseen(|e| - 33);
      ZerosUnseen(|e|);
      XorUnseen(step, e);
      assert rest == [false] + rest[1..];
      LeadingZero(rest[1..]);
      var q' := Divide(rest[1..]);
      q := [e[0]] + q';
      assert q[1..] == q';
      assert e == XorBits(step, rest);
    }
  }

  /** `e`, with leading zeros where needed, is a multiple of the generator. */
  ghost predicate IsMultiple(e: seq<bool>) {
    exists n, q :: Zeros(n) + e == Product(q)
  }

  lemma {:induction false} LeadingZeros(n: nat, bits: seq<bool>)
    ensures BitRegister(0, Zeros(n) + bits) == BitRegister(0, bits)
  {
    if n == 0 {
      assert Zeros(0) + bits == bits;
    } else {
      assert Zeros(n) + bits == [false] + (Zeros(n - 1) + bits);
      LeadingZero(Zeros(n - 1) + bits);
      LeadingZeros(n - 1, bits);
    }
  }

  /** A corruption goes unseen exactly when the difference of the payloads, read as a
      polynomial over GF(2), is a multiple of the generator. */
  lemma UnseenIsMultiple(x: seq<bv8>, y: seq<bv8>)
    requires |x| == |y|
    ensures Checksum(x) == Checksum(y) <==> IsMultiple(XorBits(Bits(x), Bits(y)))
  {
    var e := XorBits(Bits(x), Bits(y));
    UndetectedExactly(x, y);
    if BitRegister(0, e) == 0 {
      var n := if |e| < 32 then 32 - |e| else 0;
      LeadingZeros(n, e);
      var q := Divide(Zeros(n) + e);
    }
    if IsMultiple(e) {
      var n, q :| Zeros(n) + e == Product(q);
      MultipleUnseen(q);
      LeadingZeros(n, e);
    }
  }
}
