/**
 The shift register against the code of section 8 of RFC 1952, which works on a machine word:
 shift right, and add 0xEDB88320 when a one falls out. With it a known value, and the residue
 that every message leaves when its own checksum follows it.
 */
module Crc32Law {
  import opened Bytes
  import opened Crc32

  // ---- The register as a machine word ----

  /** The eight bits of the register from `at` are the low bits of `w`. */
  ghost predicate ShowsByte(c: Register, at: nat, w: bv32)
    requires at <= 24
  {
    && (c[at] <==> w & 0x01 != 0) && (c[at + 1] <==> w & 0x02 != 0)
    && (c[at + 2] <==> w & 0x04 != 0) && (c[at + 3] <==> w & 0x08 != 0)
    && (c[at + 4] <==> w & 0x10 != 0) && (c[at + 5] <==> w & 0x20 != 0)
    && (c[at + 6] <==> w & 0x40 != 0) && (c[at + 7] <==> w & 0x80 != 0)
  }

  /** Word `v` is the register: bit `i` of the one is bit `i` of the other. */
  ghost predicate Shows(c: Register, v: bv32) {
    ShowsByte(c, 0, v) && ShowsByte(c, 8, v >> 8) && ShowsByte(c, 16, v >> 16) && ShowsByte(c, 24, v >> 24)
  }

  /** One bit of input. */
  function Next(v: bv32, b: bool): bv32 {
    if (v & 1 != 0) != b then (v >> 1) ^ 0xEDB8_8320 else v >> 1
  }

  function Word(v: bv32, bits: seq<bool>): bv32
    decreases |bits|
  {
    if bits == [] then v else Word(Next(v, bits[0]), bits[1..])
  }

  lemma Keep(c: Register, v: bv32)
    requires Shows(c, v)
    ensures ShowsByte(Shift(c, c[0]), 0, v >> 1) && ShowsByte(Shift(c, c[0]), 8, v >> 9)
    ensures ShowsByte(Shift(c, c[0]), 16, v >> 17) && ShowsByte(Shift(c, c[0]), 24, v >> 25)
  {}

  lemma AddLow(c: Register, v: bv32)
    requires Shows(c, v)
    ensures ShowsByte(Shift(c, !c[0]), 0, (v >> 1) ^ 0xEDB8_8320)
  {}

  lemma AddSecond(c: Register, v: bv32)
    requires Shows(c, v)
    ensures ShowsByte(Shift(c, !c[0]), 8, (v >> 9) ^ 0xED_B883)
  {}

  lemma AddThird(c: Register, v: bv32)
    requires Shows(c, v)
    ensures ShowsByte(Shift(c, !c[0]), 16, (v >> 17) ^ 0xEDB8)
  {}

  lemma AddHigh(c: Register, v: bv32)
    requires Shows(c, v)
    ensures ShowsByte(Shift(c, !c[0]), 24, (v >> 25) ^ 0xED)
  {}

  lemma Shifted(v: bv32)
    ensures (v >> 1) >> 8 == v >> 9 && (v >> 1) >> 16 == v >> 17 && (v >> 1) >> 24 == v >> 25
  {}

  lemma Added(v: bv32)
    ensures ((v >> 1) ^ 0xEDB8_8320) >> 8 == (v >> 9) ^ 0xED_B883
    ensures ((v >> 1) ^ 0xEDB8_8320) >> 16 == (v >> 17) ^ 0xEDB8
    ensures ((v >> 1) ^ 0xEDB8_8320) >> 24 == (v >> 25) ^ 0xED
  {}

  lemma KeepShown(c: Register, v: bv32)
    requires Shows(c, v)
    ensures Shows(Shift(c, c[0]), v >> 1)
  {
    Keep(c, v);
    Shifted(v);
  }

  lemma AddShown(c: Register, v: bv32)
    requires Shows(c, v)
    ensures Shows(Shift(c, !c[0]), (v >> 1) ^ 0xEDB8_8320)
  {
    AddLow(c, v);
    AddSecond(c, v);
    AddThird(c, v);
    AddHigh(c, v);
    Added(v);
  }

  lemma StepShown(c: Register, v: bv32, b: bool)
    requires Shows(c, v)
    ensures Shows(Shift(c, b), Next(v, b))
  {
    assert c[0] <==> v & 1 != 0;
    if c[0] == b {
      KeepShown(c, v);
    } else {
      AddShown(c, v);
    }
  }

  /** Over every message the register is the machine word. */
  lemma {:induction false} FeedShown(c: Register, v: bv32, bits: seq<bool>)
    requires Shows(c, v)
    ensures Shows(Feed(c, bits), Word(v, bits))
    decreases |bits|
  {
    if bits != [] {
      StepShown(c, v, bits[0]);
      FeedShown(Shift(c, bits[0]), Next(v, bits[0]), bits[1..]);
    }
  }

  lemma OnesShown()
    ensures Shows(Ones(), 0xFFFF_FFFF)
  {}

  /** Only the low byte of a word is looked at. */
  lemma ComplementByte(c: Register, at: nat, w: bv32, u: bv32)
    requires at <= 24 && ShowsByte(c, at, w) && !w & 0xFF == u & 0xFF
    ensures ShowsByte(Complement(c), at, u)
  {}

  lemma ComplementShown(c: Register, v: bv32)
    requires Shows(c, v)
    ensures Shows(Complement(c), !v)
  {
    assert ShowsByte(Complement(c), 0, !v) by {
      ComplementByte(c, 0, v, !v);
    }
    assert ShowsByte(Complement(c), 8, !v >> 8) by {
      ComplementByte(c, 8, v >> 8, !v >> 8);
    }
    assert ShowsByte(Complement(c), 16, !v >> 16) by {
      ComplementByte(c, 16, v >> 16, !v >> 16);
    }
    assert ShowsByte(Complement(c), 24, !v >> 24) by {
      ComplementByte(c, 24, v >> 24, !v >> 24);
    }
  }

  // ---- The number a register is ----

  function Bit(b: bool): nat {
    if b then 1 else 0
  }

  lemma {:induction false} ValueSplit(x: seq<bool>, y: seq<bool>)
    ensures Value(x + y) == Value(x) + Pow2(|x|) * Value(y)
  {
    if x == [] {
      assert x + y == y;
    } else {
      ValueSplit(x[1..], y);
      assert (x + y)[1..] == x[1..] + y;
      assert 2 * (Pow2(|x| - 1) * Value(y)) == Pow2(|x|) * Value(y);
    }
  }

  lemma ValueOfFour(x: seq<bool>)
    requires |x| == 4
    ensures Value(x) == Bit(x[0]) + 2 * Bit(x[1]) + 4 * Bit(x[2]) + 8 * Bit(x[3])
  {
    assert x[1..][1..] == x[2..] && x[2..][1..] == x[3..] && x[3..][1..] == [];
    assert Value(x[3..]) == Bit(x[3]);
    assert Value(x[2..]) == Bit(x[2]) + 2 * Bit(x[3]);
    assert Value(x[1..]) == Bit(x[1]) + 2 * Value(x[2..]);
  }

  lemma ValueOfNibbles(x: seq<bool>, y: seq<bool>)
    requires |x| == |y| == 4
    ensures Value(x + y) == Value(x) + 16 * Value(y)
  {
    ValueSplit(x, y);
    assert Pow2(4) == 16;
  }

  lemma ValueOfByte(x: seq<bool>)
    requires |x| == 8
    ensures Value(x) == Bit(x[0]) + 2 * Bit(x[1]) + 4 * Bit(x[2]) + 8 * Bit(x[3])
                        + 16 * Bit(x[4]) + 32 * Bit(x[5]) + 64 * Bit(x[6]) + 128 * Bit(x[7])
  {
    var low, high := x[..4], x[4..];
    assert x == low + high;
    ValueOfNibbles(low, high);
    ValueOfFour(low);
    ValueOfFour(high);
  }

  lemma ByteShown(c: Register, at: nat, w: bv32)
    requires at <= 24 && ShowsByte(c, at, w)
    ensures Value(c[at..at + 8]) == ByteNumber(w)
  {
    ValueOfByte(c[at..at + 8]);
  }

  /** The number in the low byte of a word. */
  function ByteNumber(w: bv32): nat {
    Bit(w & 0x01 != 0) + 2 * Bit(w & 0x02 != 0) + 4 * Bit(w & 0x04 != 0) + 8 * Bit(w & 0x08 != 0)
    + 16 * Bit(w & 0x10 != 0) + 32 * Bit(w & 0x20 != 0) + 64 * Bit(w & 0x40 != 0) + 128 * Bit(w & 0x80 != 0)
  }

  /** The register is its four bytes. */
  lemma ValueOfRegister(c: Register)
    ensures Value(c) ==
            Value(c[..8]) + 0x100 * (Value(c[8..16]) + 0x100 * (Value(c[16..24]) + 0x100 * Value(c[24..])))
  {
    assert c == c[..8] + c[8..] && c[8..] == c[8..16] + c[16..] && c[16..] == c[16..24] + c[24..];
    ValueSplit(c[..8], c[8..]);
    ValueSplit(c[8..16], c[16..]);
    ValueSplit(c[16..24], c[24..]);
    assert Pow2(8) == 256;
  }

  lemma ValueShown(c: Register, v: bv32)
    requires Shows(c, v)
    ensures Value(c) == WordNumber(v)
  {
    ByteShown(c, 0, v);
    ByteShown(c, 8, v >> 8);
    ByteShown(c, 16, v >> 16);
    ByteShown(c, 24, v >> 24);
    ValueOfRegister(c);
    assert c[0..8] == c[..8] && c[24..32] == c[24..];
  }

  /** The number a word stands for. */
  function WordNumber(v: bv32): nat {
    ByteNumber(v) + 0x100 * (ByteNumber(v >> 8) + 0x100 * (ByteNumber(v >> 16) + 0x100 * ByteNumber(v >> 24)))
  }

  lemma MessageShown(d: seq<byte>, w: bv32)
    requires w == Word(0xFFFF_FFFF, Bits(d))
    ensures Shows(Complement(Feed(Ones(), Bits(d))), !w)
  {
    OnesShown();
    FeedShown(Ones(), 0xFFFF_FFFF, Bits(d));
    ComplementShown(Feed(Ones(), Bits(d)), w);
  }

  /** The checksum is the complement of the word the message leaves. */
  lemma ChecksumOfWord(d: seq<byte>, w: bv32)
    requires w == Word(0xFFFF_FFFF, Bits(d))
    ensures Checksum(d) == WordNumber(!w)
  {
    MessageShown(d, w);
    ValueShown(Complement(Feed(Ones(), Bits(d))), !w);
  }

  // ---- A known value ----

  lemma BitsOfA()
    ensures Bits([0x61]) == [true, false, false, false, false, true, true, false]
  {}

  lemma WordOfA()
    ensures Word(0xFFFF_FFFF, Bits([0x61])) == 0x1748_41BC
  {
    BitsOfA();
    assert Word(0xFFFF_FFFF, Bits([0x61])) == Word(0x849B_3D4F, [false, false, true, true, false]);
  }

  /** The checksum of the letter a. */
  lemma KnownChecksum()
    ensures Checksum([0x61]) == 0xE8B7_BE43
  {
    WordOfA();
    ChecksumOfWord([0x61], 0x1748_41BC);
  }

  // ---- The residue ----

  function Zeros(n: nat): (bits: seq<bool>)
    ensures |bits| == n
  {
    if n == 0 then [] else [false] + Zeros(n - 1)
  }

  /** The register with a window of input already added to its low end. */
  function Mix(c: Register, x: seq<bool>): Register {
    seq(32, i requires 0 <= i < 32 => c[i] != (i < |x| && x[i]))
  }

  lemma MixStep(c: Register, x: seq<bool>)
    requires 0 < |x| <= 32
    ensures Shift(Mix(c, x), false) == Mix(Shift(c, x[0]), x[1..])
  {}

  /** Feeding up to 32 bits is adding them to the register and shifting. */
  lemma {:induction false} FeedIsMix(c: Register, x: seq<bool>)
    requires |x| <= 32
    ensures Feed(c, x) == Feed(Mix(c, x), Zeros(|x|))
    decreases |x|
  {
    if x == [] {
      assert Mix(c, x) == c;
    } else {
      MixStep(c, x);
      FeedIsMix(Shift(c, x[0]), x[1..]);
      assert Zeros(|x|)[1..] == Zeros(|x| - 1);
    }
  }

  lemma OneZero(v: bv32, n: nat)
    requires n > 0
    ensures Word(v, Zeros(n)) == Word(Next(v, false), Zeros(n - 1))
  {
    assert Zeros(n)[1..] == Zeros(n - 1);
  }

  lemma FourZeros(v: bv32, n: nat, w: bv32)
    requires n >= 4 && w == Next(Next(Next(Next(v, false), false), false), false)
    ensures Word(v, Zeros(n)) == Word(w, Zeros(n - 4))
  {
    OneZero(v, n);
    OneZero(Next(v, false), n - 1);
    OneZero(Next(Next(v, false), false), n - 2);
    OneZero(Next(Next(Next(v, false), false), false), n - 3);
  }

  lemma OnesThroughZeros()
    ensures Word(0xFFFF_FFFF, Zeros(32)) == 0xDEBB_20E3
  {
    FourZeros(0xFFFF_FFFF, 32, 0xB242_0DE3);
    FourZeros(0xB242_0DE3, 28, 0x2DFD_1072);
    FourZeros(0x2DFD_1072, 24, 0x39B1_F1CF);
    FourZeros(0x39B1_F1CF, 20, 0xBE26_ED00);
    FourZeros(0xBE26_ED00, 16, 0x0BE2_6ED0);
    FourZeros(0x0BE2_6ED0, 12, 0x00BE_26ED);
    FourZeros(0x00BE_26ED, 8, 0x86D8_30BA);
    FourZeros(0x86D8_30BA, 4, 0xDEBB_20E3);
  }

  /** A register fed its own complement comes out the same, whatever it was. */
  lemma OwnComplement(c: Register)
    ensures Shows(Feed(c, Complement(c)), 0xDEBB_20E3)
  {
    FeedIsMix(c, Complement(c));
    assert Mix(c, Complement(c)) == Ones();
    OnesShown();
    FeedShown(Ones(), 0xFFFF_FFFF, Zeros(32));
    OnesThroughZeros();
  }

  lemma {:induction false} ValueOfBits(s: seq<byte>)
    ensures Value(Bits(s)) == FromLe(s)
  {
    if s != [] {
      ValueOfBits(s[1..]);
      assert Pow2(8) == 256;
      ValueOfLowBits(s[0], 8);
      ValueSplit(LowBits(s[0], 8), Bits(s[1..]));
    }
  }

  /** Stored little-endian, the number of a register is the register's own bits. */
  lemma StoredBits(c: Register)
    ensures Bits(ToLe(Value(c), 4)) == c
  {
    ValueBound(c);
    RadixValues();
    LeRoundTrip(Value(c), 4);
    ValueOfBits(ToLe(Value(c), 4));
    ValueInjective(Bits(ToLe(Value(c), 4)), c);
  }

  /**
   A message followed by its own checksum, as the headers store it, always has the same
   checksum: the residue of the generator 0xEDB88320 started from ones and complemented.
   */
  lemma Residue(d: seq<byte>)
    ensures Checksum(d + ToLe(Checksum(d), 4)) == 0x2144_DF1C
  {
    var c := Feed(Ones(), Bits(d));
    StoredBits(Complement(c));
    BitsConcat(d, ToLe(Checksum(d), 4));
    FeedConcat(Ones(), Bits(d), Complement(c));
    OwnComplement(c);
    ResidueNumber(Feed(c, Complement(c)));
  }

  lemma ResidueNumber(c: Register)
    requires Shows(c, 0xDEBB_20E3)
    ensures Value(Complement(c)) == 0x2144_DF1C
  {
    ComplementShown(c, 0xDEBB_20E3);
    ValueShown(Complement(c), 0x2144_DF1C);
  }
}
