/** Iteration and folding of any function. */
module Iteration {
  function Iterate<T>(f: T -> T, x: T, n: nat): T {
    if n == 0 then x else Iterate(f, f(x), n - 1)
  }

  function Fold<S, B>(f: (S, B) -> S, s: S, items: seq<B>): S {
    if items == [] then s else f(Fold(f, s, items[..|items| - 1]), items[|items| - 1])
  }

  lemma {:induction false} FoldConcat<S, B>(f: (S, B) -> S, s: S, m1: seq<B>, m2: seq<B>)
    ensures Fold(f, s, m1 + m2) == Fold(f, Fold(f, s, m1), m2)
  {
    if m2 == [] {
      assert m1 + m2 == m1;
    } else {
      assert (m1 + m2)[..|m1 + m2| - 1] == m1 + m2[..|m2| - 1];
      FoldConcat(f, s, m1, m2[..|m2| - 1]);
    }
  }

  lemma FoldOf4<S, B>(f: (S, B) -> S, s: S, m: seq<B>)
    requires |m| == 4
    ensures Fold(f, s, m) == f(f(f(f(s, m[0]), m[1]), m[2]), m[3])
  {
    var m3, m2, m1 := m[..3], m[..2], m[..1];
    assert m3[..2] == m2 && m2[..1] == m1 && m1[..0] == [];
    assert Fold(f, s, m1) == f(s, m[0]);
    assert Fold(f, s, m2) == f(Fold(f, s, m1), m[1]);
    assert Fold(f, s, m3) == f(Fold(f, s, m2), m[2]);
  }

  lemma {:induction false} IterateDistributes<T(!new)>(f: T -> T, op: (T, T) -> T, x: T, y: T, n: nat)
    requires forall a, b :: f(op(a, b)) == op(f(a), f(b))
    ensures Iterate(f, op(x, y), n) == op(Iterate(f, x, n), Iterate(f, y, n))
    decreases n
  {
    if n > 0 {
      IterateDistributes(f, op, f(x), f(y), n - 1);
    }
  }

  lemma IterateOnce<T>(f: T -> T, x: T, n: nat)
    requires n > 0
    ensures Iterate(f, x, n) == Iterate(f, f(x), n - 1)
  {
  }

  lemma Iterate8<T>(f: T -> T, x: seq<T>, n: nat)
    requires n == 8 && |x| == 9 && forall k :: 0 <= k < 8 ==> f(x[k]) == x[k + 1]
    ensures Iterate(f, x[0], n) == x[8]
  {
    IterateAlong(f, x, n);
  }

  lemma {:induction false} IterateAlong<T>(f: T -> T, x: seq<T>, n: nat)
    requires |x| == n + 1 && forall k :: 0 <= k < n ==> f(x[k]) == x[k + 1]
    ensures Iterate(f, x[0], n) == x[n]
  {
    if n > 0 {
      IterateAlong(f, x[1..], n - 1);
    }
  }

  // ---------------------------------------------------------------- linear shift registers

  /** f is linear for xor, and n steps of f shift out the low byte of a word and act on the rest as a plain shift. */
  ghost predicate ShiftRegister<T(!new)>(f: T -> T, xor: (T, T) -> T, low: T -> T, high: T -> T, shr: T -> T, n: nat) {
    && (forall a, b :: f(xor(a, b)) == xor(f(a), f(b)))
    && (forall a, v :: xor(xor(a, v), low(v)) == xor(a, high(v)))
    && (forall v :: Iterate(f, high(v), n) == shr(v))
  }

  /** Feeding in the low byte of v, which the state already contains, leaves the rest of v. */
  lemma Absorb<T(!new)>(f: T -> T, xor: (T, T) -> T, low: T -> T, high: T -> T, shr: T -> T, n: nat, a: T, v: T)
    requires ShiftRegister(f, xor, low, high, shr, n)
    ensures Iterate(f, xor(xor(a, v), low(v)), n) == xor(Iterate(f, a, n), shr(v))
  {
    IterateDistributes(f, xor, a, high(v), n);
  }

  /** add feeds one byte, seen as a word, into the register. */
  ghost predicate Feeds<T(!new), B(!new)>(add: (T, B) -> T, f: T -> T, xor: (T, T) -> T, word: B -> T, n: nat) {
    forall s, b :: add(s, b) == Iterate(f, xor(s, word(b)), n)
  }

  /** The bytes of w from the lowest on. */
  predicate BytesOf<T(==), B>(bytes: seq<B>, word: B -> T, low: T -> T, shr: T -> T, w: T) {
    && |bytes| == 4
    && word(bytes[0]) == low(w) && word(bytes[1]) == low(shr(w))
    && word(bytes[2]) == low(shr(shr(w))) && word(bytes[3]) == low(shr(shr(shr(w))))
  }

  /** A register that holds xor(ones, w), fed with the bytes of w, ends where feeding nothing into `ones` ends. */
  lemma FeedOwnWord<T(!new), B(!new)>(add: (T, B) -> T, f: T -> T, xor: (T, T) -> T, low: T -> T, high: T -> T,
                                      shr: T -> T, word: B -> T, n: nat, ones: T, w: T, bytes: seq<B>, s: seq<T>)
    requires ShiftRegister(f, xor, low, high, shr, n) && Feeds(add, f, xor, word, n)
    requires BytesOf(bytes, word, low, shr, w)
    requires |s| == 5 && s[0] == ones && forall k :: 0 <= k < 4 ==> Iterate(f, s[k], n) == s[k + 1]
    ensures Fold(add, xor(ones, w), bytes) == xor(s[4], shr(shr(shr(shr(w)))))
  {
    FoldOf4(add, xor(ones, w), bytes);
    Absorb(f, xor, low, high, shr, n, s[0], w);
    assert add(xor(s[0], w), bytes[0]) == xor(s[1], shr(w));
    Absorb(f, xor, low, high, shr, n, s[1], shr(w));
    assert add(xor(s[1], shr(w)), bytes[1]) == xor(s[2], shr(shr(w)));
    Absorb(f, xor, low, high, shr, n, s[2], shr(shr(w)));
    assert add(xor(s[2], shr(shr(w))), bytes[2]) == xor(s[3], shr(shr(shr(w))));
    Absorb(f, xor, low, high, shr, n, s[3], shr(shr(shr(w))));
  }
}

/** The frame check sequence of Ethernet, computed bit by bit (apps/user/udp_demo.c). */
module Crc32 {
  import opened Iteration

  const POLYNOMIAL: bv32 := 0xEDB88320

  /** Division by the polynomial, one bit at a time, on bit-reversed words. */
  function Step(crc: bv32): bv32 {
    if crc & 1 == 1 then (crc >> 1) ^ POLYNOMIAL else crc >> 1
  }

  function Steps(crc: bv32, n: nat): bv32 {
    Iterate(Step, crc, n)
  }

  function Word(b: bv8): bv32 {
    b as bv32
  }

  function BitsPerByte(): nat {
    8
  }

  function AddByte(crc: bv32, b: bv8): bv32 {
    Steps(Xor(crc, Word(b)), BitsPerByte())
  }

  /** The state after a message, starting from any state. */
  function State(crc: bv32, message: seq<bv8>): bv32 {
    Fold(AddByte, crc, message)
  }

  function Checksum(message: seq<bv8>): bv32 {
    !State(0xFFFF_FFFF, message)
  }

  /** How a little-endian processor stores a word. */
  function LittleEndian(w: bv32): seq<bv8> {
    [(w & 0xFF) as bv8, ((w >> 8) & 0xFF) as bv8, ((w >> 16) & 0xFF) as bv8, ((w >> 24) & 0xFF) as bv8]
  }

  /** Processing two messages in turn is processing their concatenation. */
  lemma StateConcat(crc: bv32, m1: seq<bv8>, m2: seq<bv8>)
    ensures State(crc, m1 + m2) == State(State(crc, m1), m2)
  {
    FoldConcat(AddByte, crc, m1, m2);
  }

  // ---------------------------------------------------------------- the bits of one step

  /** The mask of the code selects the polynomial exactly when the low bit is set. */
  lemma MaskIsStep(crc: bv32, mask: bv32)
    requires mask == -(crc & 1)
    ensures (crc >> 1) ^ (POLYNOMIAL & mask) == Step(crc)
  {
    if crc & 1 != 1 {
      assert crc & 1 == 0;
    }
  }

  lemma LowBit(x: bv32, y: bv32)
    ensures (x ^ y) & 1 == (x & 1) ^ (y & 1)
    ensures x & 1 == 0 || x & 1 == 1
    ensures (x ^ y) >> 1 == (x >> 1) ^ (y >> 1)
  {
  }

  lemma XorPolynomial(a: bv32, b: bv32, p: bv32)
    ensures (a ^ p) ^ (b ^ p) == a ^ b && (a ^ b) ^ p == (a ^ p) ^ b && (a ^ b) ^ p == a ^ (b ^ p)
  {
  }

  lemma StepLinear(x: bv32, y: bv32)
    ensures Step(x ^ y) == Step(x) ^ Step(y)
  {
    LowBit(x, y);
    LowBit(y, x);
    XorPolynomial(x >> 1, y >> 1, POLYNOMIAL);
  }

  function Xor(x: bv32, y: bv32): bv32 {
    x ^ y
  }

  lemma StepIsLinear()
    ensures forall a, b {:trigger Step(Xor(a, b))} :: Step(Xor(a, b)) == Xor(Step(a), Step(b))
  {
    forall a, b
      ensures Step(Xor(a, b)) == Xor(Step(a), Step(b))
    {
      StepLinear(a, b);
    }
  }

  lemma EvenStep(y: bv32)
    requires y & 1 == 0
    ensures Step(y) == y >> 1
  {
  }

  lemma LowBits(y: bv32)
    requires y & 0xFF == 0
    ensures y & 1 == 0 && (y >> 1) & 1 == 0 && (y >> 2) & 1 == 0 && (y >> 3) & 1 == 0
    ensures (y >> 4) & 1 == 0 && (y >> 5) & 1 == 0 && (y >> 6) & 1 == 0 && (y >> 7) & 1 == 0
  {
  }

  lemma Shifts(y: bv32)
    ensures (y >> 1) >> 1 == y >> 2 && (y >> 2) >> 1 == y >> 3 && (y >> 3) >> 1 == y >> 4 && (y >> 4) >> 1 == y >> 5
    ensures (y >> 5) >> 1 == y >> 6 && (y >> 6) >> 1 == y >> 7 && (y >> 7) >> 1 == y >> 8
  {
  }

  /** Bits that have not reached the low end yet are only shifted. */
  lemma HighBitsShift(y: bv32)
    requires y & 0xFF == 0
    ensures Steps(y, BitsPerByte()) == y >> 8
  {
    LowBits(y);
    Shifts(y);
    EvenStep(y); EvenStep(y >> 1); EvenStep(y >> 2); EvenStep(y >> 3);
    EvenStep(y >> 4); EvenStep(y >> 5); EvenStep(y >> 6); EvenStep(y >> 7);
    Iterate8(Step, [y, y >> 1, y >> 2, y >> 3, y >> 4, y >> 5, y >> 6, y >> 7, y >> 8], BitsPerByte());
  }

  function Low(v: bv32): bv32 {
    v & 0xFF
  }

  function High(v: bv32): bv32 {
    v ^ (v & 0xFF)
  }

  function Shr8(v: bv32): bv32 {
    v >> 8
  }

  lemma HighLow(v: bv32)
    ensures High(v) & 0xFF == 0
    ensures High(v) >> 8 == v >> 8
  {
  }

  lemma HighPart(v: bv32)
    ensures Iterate(Step, High(v), BitsPerByte()) == Shr8(v)
  {
    HighLow(v);
    HighBitsShift(High(v));
  }

  lemma XorRaw(a: bv32, v: bv32, b: bv32)
    ensures (a ^ v) ^ b == a ^ (v ^ b)
  {
  }

  lemma XorLeft(a: bv32, v: bv32, b: bv32)
    ensures Xor(Xor(a, v), b) == (a ^ v) ^ b
  {
  }

  lemma XorRight(a: bv32, v: bv32, b: bv32)
    ensures Xor(a, v ^ b) == a ^ (v ^ b)
  {
  }

  lemma XorAssoc(a: bv32, v: bv32, b: bv32)
    ensures Xor(Xor(a, v), b) == Xor(a, v ^ b)
  {
    XorRaw(a, v, b);
    XorLeft(a, v, b);
    XorRight(a, v, b);
  }

  lemma XorRegroup(a: bv32, v: bv32)
    ensures Xor(Xor(a, v), Low(v)) == Xor(a, High(v))
  {
    XorAssoc(a, v, v & 0xFF);
  }

  lemma IsShiftRegister()
    ensures ShiftRegister(Step, Xor, Low, High, Shr8, BitsPerByte())
  {
    StepIsLinear();
    forall a, v
      ensures Xor(Xor(a, v), Low(v)) == Xor(a, High(v))
    {
      XorRegroup(a, v);
    }
    forall v
      ensures Iterate(Step, High(v), BitsPerByte()) == Shr8(v)
    {
      HighPart(v);
    }
  }

  lemma Round1()
    ensures Steps(0xFFFFFFFF, BitsPerByte()) == 0x2DFD1072
  {
    Iterate8(Step, [0xFFFFFFFF, 0x92477CDF, 0xA49B3D4F, 0xBFF51D87, 0xB2420DE3,
                    0xB49985D1, 0xB7F441C8, 0x5BFA20E4, 0x2DFD1072], BitsPerByte());
  }

  lemma Round2()
    ensures Steps(0x2DFD1072, BitsPerByte()) == 0xBE26ED00
  {
    Iterate8(Step, [0x2DFD1072, 0x16FE8839, 0xE6C7C73C, 0x7363E39E, 0x39B1F1CF,
                    0xF1607BC7, 0x9508BEC3, 0xA73CDC41, 0xBE26ED00], BitsPerByte());
  }

  lemma Round3()
    ensures Steps(0xBE26ED00, BitsPerByte()) == 0x00BE26ED
  {
    Iterate8(Step, [0xBE26ED00, 0x5F137680, 0x2F89BB40, 0x17C4DDA0, 0x0BE26ED0,
                    0x05F13768, 0x02F89BB4, 0x017C4DDA, 0x00BE26ED], BitsPerByte());
  }

  lemma Round4()
    ensures Steps(0x00BE26ED, BitsPerByte()) == 0xDEBB20E3
  {
    Iterate8(Step, [0x00BE26ED, 0xEDE79056, 0x76F3C82B, 0xD6C16735, 0x86D830BA,
                    0x436C185D, 0xCC0E8F0E, 0x66074787, 0xDEBB20E3], BitsPerByte());
  }

  // ---------------------------------------------------------------- the residue

  lemma Byte0(w: bv32)
    ensures Word((w & 0xFF) as bv8) == Low(w)
  {
  }

  lemma Byte1(w: bv32)
    ensures Word(((w >> 8) & 0xFF) as bv8) == Low(Shr8(w))
  {
  }

  lemma Byte2(w: bv32)
    ensures Word(((w >> 16) & 0xFF) as bv8) == Low(Shr8(Shr8(w)))
  {
  }

  lemma Byte3(w: bv32)
    ensures Word(((w >> 24) & 0xFF) as bv8) == Low(Shr8(Shr8(Shr8(w))))
  {
  }

  lemma LittleEndianBytes(w: bv32)
    ensures BytesOf(LittleEndian(w), Word, Low, Shr8, w)
  {
    Byte0(w);
    Byte1(w);
    Byte2(w);
    Byte3(w);
  }

  lemma AllShiftedOut(w: bv32)
    ensures Shr8(Shr8(Shr8(Shr8(w)))) == 0
  {
  }

  lemma BytesFeedRegister()
    ensures Feeds(AddByte, Step, Xor, Word, BitsPerByte())
  {
  }

  /** The states of a register that starts with all ones and is fed zeros. */
  const ROUNDS: seq<bv32> := [0xFFFF_FFFF, 0x2DFD1072, 0xBE26ED00, 0x00BE26ED, 0xDEBB20E3]

  lemma RoundsAre()
    ensures forall k :: 0 <= k < 4 ==> Iterate(Step, ROUNDS[k], BitsPerByte()) == ROUNDS[k + 1]
  {
    Round1();
    Round2();
    Round3();
    Round4();
  }

  lemma OwnWord(w: bv32)
    ensures State(Xor(0xFFFF_FFFF, w), LittleEndian(w)) == Xor(0xDEBB20E3, Shr8(Shr8(Shr8(Shr8(w)))))
  {
    IsShiftRegister();
    BytesFeedRegister();
    LittleEndianBytes(w);
    RoundsAre();
    FeedOwnWord(AddByte, Step, Xor, Low, High, Shr8, Word, BitsPerByte(), 0xFFFF_FFFF, w, LittleEndian(w), ROUNDS);
  }

  lemma Complement(c: bv32)
    ensures c == Xor(0xFFFF_FFFF, !c)
  {
  }

  lemma XorZero(c: bv32)
    ensures Xor(c, 0) == c
  {
  }

  /** From any state c, the four bytes of the complement of c lead to one and the same state. */
  lemma ComplementResidue(c: bv32)
    ensures State(c, LittleEndian(!c)) == 0xDEBB20E3
  {
    OwnWord(!c);
    Complement(c);
    AllShiftedOut(!c);
    XorZero(0xDEBB20E3);
  }

  /** For every message: the checksum of the message followed by its own checksum is the fixed residue of CRC-32. */
  lemma Residue(message: seq<bv8>)
    ensures Checksum(message + LittleEndian(Checksum(message))) == 0x2144DF1C
  {
    var c := State(0xFFFF_FFFF, message);
    StateConcat(0xFFFF_FFFF, message, LittleEndian(!c));
    ComplementResidue(c);
  }

  /** The body of the inner loop. */
  method ShiftOut(crc: bv32) returns (r: bv32)
    ensures r == Step(crc)
  {
    var mask := -(crc & 1);
    r := (crc >> 1) ^ (POLYNOMIAL & mask);
    MaskIsStep(crc, mask);
  }

  /** The inner loop. */
  method Shift8(crc: bv32) returns (r: bv32)
    ensures r == Steps(crc, BitsPerByte())
  {
    r := crc;
    var j := 7;
    while j >= 0
      invariant -1 <= j <= 7
      invariant Iterate(Step, r, j + 1) == Steps(crc, BitsPerByte())
    {
      IterateOnce(Step, r, j + 1);
      r := ShiftOut(r);
      j := j - 1;
    }
  }

  /** crc32: the outer loop. */
  method Compute(message: seq<bv8>) returns (r: bv32)
    ensures r == Checksum(message)
  {
    var crc: bv32 := 0xFFFF_FFFF;
    assert message[..0] == [];
    for i := 0 to |message|
      invariant crc == State(0xFFFF_FFFF, message[..i])
    {
      assert message[..i + 1][..i] == message[..i];
      crc := Shift8(Xor(crc, Word(message[i])));
    }
    assert message[..|message|] == message;
    r := !crc;
  }
}
