/** What the frame check sequence of Ethernet is, by clause 3.2.9 of IEEE 802.3: the complement of the remainder of the
    frame, with its first 32 bits complemented, after division by the generator polynomial. */
module CrcPolynomial {
  import opened Iteration
  import opened Crc32
  import Gf2

  function Mask(i: nat): bv32 {
    if i == 0 then 1 else Double(Mask(i - 1))
  }

  predicate AtMask(w: bv32, m: bv32) {
    w & m != 0
  }

  predicate Bit(w: bv32, i: nat) {
    AtMask(w, Mask(i))
  }

  function Shr(w: bv32): bv32 {
    w >> 1
  }

  function Double(m: bv32): bv32 {
    m << 1
  }

  /** The word as a polynomial: the lowest bit is the coefficient of x^31. */
  function Bits(w: bv32): (r: Gf2.Poly)
    ensures |r| == 32 && forall i :: 0 <= i < 32 ==> r[i] == Bit(w, i)
  {
    seq(32, i requires 0 <= i => Bit(w, i))
  }

  /** The bits of a byte in the order in which they are sent, the lowest first. */
  function ByteBits(b: bv8): (r: Gf2.Poly)
    ensures |r| == 8 && forall i :: 0 <= i < 8 ==> r[i] == Bit(Word(b), i)
  {
    seq(8, i requires 0 <= i => Bit(Word(b), i))
  }

  function MessageBits(m: seq<bv8>): (r: Gf2.Poly)
    ensures |r| == 8 * |m|
  {
    if m == [] then [] else MessageBits(m[..|m| - 1]) + ByteBits(m[|m| - 1])
  }

  // ---------------------------------------------------------------- single bits

  /** At most one bit is set. */
  predicate Single(m: bv32) {
    m & (m - 1) == 0
  }

  lemma DoubledMask(m: bv32)
    requires Single(m)
    ensures Single(Double(m))
  {
  }

  lemma {:induction false} OneBit(i: nat)
    ensures Single(Mask(i))
  {
    if i > 0 {
      OneBit(i - 1);
      DoubledMask(Mask(i - 1));
    }
  }

  lemma AndOfXor(a: bv32, b: bv32, m: bv32)
    ensures (a ^ b) & m == (a & m) ^ (b & m)
  {
  }

  lemma NoneOrAll(a: bv32, m: bv32)
    requires m & (m - 1) == 0
    ensures a & m == 0 || a & m == m
  {
  }

  lemma XorIsZero(x: bv32, y: bv32)
    ensures x ^ y == 0 <==> x == y
  {
  }

  lemma XorAtMask(a: bv32, b: bv32, m: bv32)
    requires Single(m)
    ensures AtMask(Xor(a, b), m) <==> AtMask(a, m) != AtMask(b, m)
  {
    AndOfXor(a, b, m);
    NoneOrAll(a, m);
    NoneOrAll(b, m);
    XorIsZero(a & m, b & m);
  }

  lemma XorBit(a: bv32, b: bv32, i: nat)
    ensures Bit(Xor(a, b), i) == (Bit(a, i) != Bit(b, i))
  {
    hide Single, AtMask, Xor;
    OneBit(i);
    XorAtMask(a, b, Mask(i));
  }

  lemma ShiftAtMask(w: bv32, m: bv32)
    ensures AtMask(Shr(w), m) <==> AtMask(w, Double(m))
  {
  }

  lemma ShiftBit(w: bv32, i: nat)
    ensures Bit(Shr(w), i) == Bit(w, i + 1)
  {
    hide AtMask, Shr, Double;
    ShiftAtMask(w, Mask(i));
  }

  lemma Masks()
    ensures Mask(0) == 0x1 && Mask(1) == 0x2 && Mask(2) == 0x4 && Mask(3) == 0x8
    ensures Mask(4) == 0x10 && Mask(5) == 0x20 && Mask(6) == 0x40 && Mask(7) == 0x80
    ensures Mask(8) == 0x100 && Mask(9) == 0x200 && Mask(10) == 0x400 && Mask(11) == 0x800
    ensures Mask(12) == 0x1000 && Mask(13) == 0x2000 && Mask(14) == 0x4000 && Mask(15) == 0x8000
    ensures Mask(16) == 0x10000 && Mask(17) == 0x20000 && Mask(18) == 0x40000 && Mask(19) == 0x80000
    ensures Mask(20) == 0x100000 && Mask(21) == 0x200000 && Mask(22) == 0x400000 && Mask(23) == 0x800000
    ensures Mask(24) == 0x1000000 && Mask(25) == 0x2000000 && Mask(26) == 0x4000000 && Mask(27) == 0x8000000
    ensures Mask(28) == 0x10000000 && Mask(29) == 0x20000000 && Mask(30) == 0x40000000 && Mask(31) == 0x80000000
  {
    assert Mask(0) == 0x1 && Mask(1) == 0x2;
    assert Mask(2) == 0x4 && Mask(3) == 0x8;
    assert Mask(4) == 0x10 && Mask(5) == 0x20;
    assert Mask(6) == 0x40 && Mask(7) == 0x80;
    assert Mask(8) == 0x100 && Mask(9) == 0x200;
    assert Mask(10) == 0x400 && Mask(11) == 0x800;
    assert Mask(12) == 0x1000 && Mask(13) == 0x2000;
    assert Mask(14) == 0x4000 && Mask(15) == 0x8000;
    assert Mask(16) == 0x10000 && Mask(17) == 0x20000;
    assert Mask(18) == 0x40000 && Mask(19) == 0x80000;
    assert Mask(20) == 0x100000 && Mask(21) == 0x200000;
    assert Mask(22) == 0x400000 && Mask(23) == 0x800000;
    assert Mask(24) == 0x1000000 && Mask(25) == 0x2000000;
    assert Mask(26) == 0x4000000 && Mask(27) == 0x8000000;
    assert Mask(28) == 0x10000000 && Mask(29) == 0x20000000;
    assert Mask(30) == 0x40000000 && Mask(31) == 0x80000000;
  }

  /** The constant of the code holds the coefficients of the generator, but for the one of x^32. */
  lemma PolynomialBit(i: nat)
    requires i < 32
    ensures Bit(POLYNOMIAL, i) == Gf2.InGenerator(31 - i)
  {
    Masks();
    if i == 0 { assert Mask(0) == 0x1; } if i == 1 { assert Mask(1) == 0x2; }
    if i == 2 { assert Mask(2) == 0x4; } if i == 3 { assert Mask(3) == 0x8; }
    if i == 4 { assert Mask(4) == 0x10; } if i == 5 { assert Mask(5) == 0x20; }
    if i == 6 { assert Mask(6) == 0x40; } if i == 7 { assert Mask(7) == 0x80; }
    if i == 8 { assert Mask(8) == 0x100; } if i == 9 { assert Mask(9) == 0x200; }
    if i == 10 { assert Mask(10) == 0x400; } if i == 11 { assert Mask(11) == 0x800; }
    if i == 12 { assert Mask(12) == 0x1000; } if i == 13 { assert Mask(13) == 0x2000; }
    if i == 14 { assert Mask(14) == 0x4000; } if i == 15 { assert Mask(15) == 0x8000; }
    if i == 16 { assert Mask(16) == 0x10000; } if i == 17 { assert Mask(17) == 0x20000; }
    if i == 18 { assert Mask(18) == 0x40000; } if i == 19 { assert Mask(19) == 0x80000; }
    if i == 20 { assert Mask(20) == 0x100000; } if i == 21 { assert Mask(21) == 0x200000; }
    if i == 22 { assert Mask(22) == 0x400000; } if i == 23 { assert Mask(23) == 0x800000; }
    if i == 24 { assert Mask(24) == 0x1000000; } if i == 25 { assert Mask(25) == 0x2000000; }
    if i == 26 { assert Mask(26) == 0x4000000; } if i == 27 { assert Mask(27) == 0x8000000; }
    if i == 28 { assert Mask(28) == 0x10000000; } if i == 29 { assert Mask(29) == 0x20000000; }
    if i == 30 { assert Mask(30) == 0x40000000; } if i == 31 { assert Mask(31) == 0x80000000; }
  }

  lemma NoBitBeyond(w: bv32)
    ensures !Bit(w, 32)
  {
    Masks();
    assert Mask(32) == Double(0x8000_0000);
  }

  // ---------------------------------------------------------------- the code as a shift register

  lemma StepParts(w: bv32)
    ensures Step(w) == if Bit(w, 0) then Xor(Shr(w), POLYNOMIAL) else Shr(w)
  {
  }

  lemma StepShifts(w: bv32)
    ensures Bits(Step(w)) == Gf2.Shift(Bits(w))
  {
    hide Bit, Step, Shr, Xor;
    StepParts(w);
    forall i: nat | i < 32
      ensures Bits(Step(w))[i] == Gf2.Shift(Bits(w))[i]
    {
      ShiftBit(w, i);
      XorBit(Shr(w), POLYNOMIAL, i);
      PolynomialBit(i);
      NoBitBeyond(w);
      Gf2.StepAt(Bits(w) + [false], i);
    }
  }

  lemma {:induction false} StepsShift(w: bv32, n: nat)
    ensures Bits(Iterate(Step, w, n)) == Gf2.Shifts(Bits(w), n)
    decreases n
  {
    if n > 0 {
      StepShifts(w);
      StepsShift(Step(w), n - 1);
    }
  }

  /** Bits from the ninth on. */
  predicate AboveByte(m: bv32) {
    m & 0xFF == 0
  }

  lemma DoubledAbove(m: bv32)
    requires AboveByte(m)
    ensures AboveByte(Double(m))
  {
  }

  lemma {:induction false} HighMask(i: nat)
    requires i >= 8
    ensures AboveByte(Mask(i))
  {
    if i == 8 {
      Masks();
    } else {
      HighMask(i - 1);
      DoubledAbove(Mask(i - 1));
    }
  }

  lemma NothingAboveByte(b: bv8, m: bv32)
    requires AboveByte(m)
    ensures !AtMask(Word(b), m)
  {
  }

  lemma ByteAdded(crc: bv32, b: bv8)
    ensures Bits(Xor(crc, Word(b))) == Gf2.AddFirst(Bits(crc), ByteBits(b))
  {
    hide AtMask, Xor, Word, AboveByte;
    forall i: nat | i < 32
      ensures Bits(Xor(crc, Word(b)))[i] == Gf2.AddFirst(Bits(crc), ByteBits(b))[i]
    {
      XorBit(crc, Word(b), i);
      if i >= 8 {
        HighMask(i);
        NothingAboveByte(b, Mask(i));
      }
    }
  }

  /** One byte through the loop of the code is eight bits of the message. */
  lemma ByteFed(crc: bv32, b: bv8)
    ensures Bits(AddByte(crc, b)) == Gf2.Feed(Bits(crc), ByteBits(b))
  {
    ByteAdded(crc, b);
    StepsShift(Xor(crc, Word(b)), 8);
    Gf2.FedTogether(Bits(crc), ByteBits(b));
  }

  lemma {:induction false} MessageFed(crc: bv32, m: seq<bv8>)
    ensures Bits(State(crc, m)) == Gf2.Feed(Bits(crc), MessageBits(m))
    decreases |m|
  {
    if m != [] {
      var n := |m| - 1;
      MessageFed(crc, m[..n]);
      ByteFed(State(crc, m[..n]), m[n]);
      Gf2.FeedAppend(Bits(crc), MessageBits(m[..n]), ByteBits(m[n]));
    }
  }

  // ---------------------------------------------------------------- what the checksum is

  function Ones(): bv32 {
    0xFFFF_FFFF
  }

  lemma {:induction false} NonZeroMask(i: nat)
    requires i < 32
    ensures Mask(i) != 0
    decreases 32 - i
  {
    if i == 31 {
      Masks();
    } else {
      NonZeroMask(i + 1);
      assert Mask(i + 1) == Double(Mask(i));
    }
  }

  lemma SetInOnes(i: nat)
    requires i < 32
    ensures Bit(Ones(), i)
  {
    NonZeroMask(i);
  }

  lemma NotIsXor(w: bv32)
    ensures !w == Xor(w, Ones())
  {
  }

  lemma NotBits(w: bv32)
    ensures Bits(!w) == Gf2.Complement(Bits(w))
  {
    hide Bit, Xor, Ones;
    NotIsXor(w);
    forall i: nat | i < 32
      ensures Bits(!w)[i] == Gf2.Complement(Bits(w))[i]
    {
      XorBit(w, Ones(), i);
      SetInOnes(i);
    }
  }

  lemma OnesBits()
    ensures Bits(Ones()) == Gf2.Complement(Gf2.Zeros(32))
  {
    forall i: nat | i < 32
      ensures Bits(Ones())[i]
    {
      SetInOnes(i);
    }
  }

  /** The dividend: the bits of the message in the order in which they are sent, then 32 zeros, with the first 32 of all
      these complemented. */
  function Dividend(m: seq<bv8>): (r: Gf2.Poly)
    ensures |r| == 8 * |m| + 32
    ensures forall i :: 0 <= i < |r| ==> r[i] == ((i < 8 * |m| && MessageBits(m)[i]) != (i < 32))
  {
    Gf2.AddFirst(MessageBits(m) + Gf2.Zeros(32), Gf2.Complement(Gf2.Zeros(32)))
  }

  lemma ChecksumParts(m: seq<bv8>)
    ensures Checksum(m) == !State(Ones(), m)
  {
  }

  /** For every message, the checksum is the complement of the remainder of that polynomial. */
  lemma ChecksumIsRemainder(m: seq<bv8>)
    ensures Bits(Checksum(m)) == Gf2.Complement(Gf2.Remainder(Dividend(m)))
  {
    hide Bits, State, Checksum, Ones, MessageBits, Gf2.Feed, Gf2.Remainder;
    ChecksumParts(m);
    MessageFed(Ones(), m);
    OnesBits();
    Gf2.FeedIsDivision(Bits(Ones()), MessageBits(m));
    NotBits(State(Ones(), m));
  }

  /** And that remainder is the only polynomial of degree below 32 by which it differs from a multiple of the
      generator. */
  lemma ChecksumExactly(m: seq<bv8>, q: Gf2.Poly, r: Gf2.Poly)
    requires Gf2.Divides(Dividend(m), q, r)
    ensures Bits(Checksum(m)) == Gf2.Complement(r)
  {
    ChecksumIsRemainder(m);
    Gf2.RemainderUnique(Dividend(m), q, r);
  }

  /** The shortest messages. */
  lemma ShortMessages()
    ensures Checksum([]) == 0 && Checksum([0]) == 0xD202_EF8D
  {
    Round1();
    XorZero(0xFFFF_FFFF);
    var m: seq<bv8> := [0];
    assert m[..0] == [];
    assert State(0xFFFF_FFFF, m) == AddByte(0xFFFF_FFFF, 0);
  }
}
