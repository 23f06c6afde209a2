/** Polynomials over GF(2), as sequences of coefficients with that of the highest power first, and their division by the
    generator polynomial of CRC-32. */
module Gf2 {
  type Poly = seq<bool>

  function Zeros(n: nat): (z: Poly)
    ensures |z| == n && forall i :: 0 <= i < n ==> !z[i]
  {
    seq(n, i => false)
  }

  function Complement(a: Poly): (r: Poly)
    ensures |r| == |a| && forall i :: 0 <= i < |a| ==> r[i] == !a[i]
  {
    seq(|a|, i requires 0 <= i < |a| => !a[i])
  }

  function Add(a: Poly, b: Poly): (r: Poly)
    requires |a| == |b|
    ensures |r| == |a| && forall i :: 0 <= i < |a| ==> r[i] == (a[i] != b[i])
  {
    seq(|a|, i requires 0 <= i < |a| => a[i] != b[i])
  }

  /** b added to the first coefficients of a. */
  function AddFirst(a: Poly, b: Poly): (r: Poly)
    requires |b| <= |a|
    ensures |r| == |a| && forall i :: 0 <= i < |a| ==> r[i] == if i < |b| then a[i] != b[i] else a[i]
  {
    seq(|a|, i requires 0 <= i < |a| => if i < |b| then a[i] != b[i] else a[i])
  }

  /** x^32 + x^26 + x^23 + x^22 + x^16 + x^12 + x^11 + x^10 + x^8 + x^7 + x^5 + x^4 + x^2 + x + 1 */
  predicate InGenerator(power: int) {
    power in {32, 26, 23, 22, 16, 12, 11, 10, 8, 7, 5, 4, 2, 1, 0}
  }

  function Generator(): (g: Poly)
    ensures |g| == 33 && g[0] && forall i :: 0 <= i < 33 ==> g[i] == InGenerator(32 - i)
  {
    seq(33, i => InGenerator(32 - i))
  }

  /** The generator times q. */
  function Times(q: Poly): (r: Poly)
    ensures |r| == |q| + 32
  {
    if q == [] then Zeros(32)
    else AddFirst([false] + Times(q[1..]), if q[0] then Generator() else [])
  }

  /** One step of the division: the first coefficient is made 0 and dropped. */
  function DivisionStep(a: Poly): (r: Poly)
    requires |a| > 32
    ensures |r| == |a| - 1
  {
    AddFirst(a, if a[0] then Generator() else [])[1..]
  }

  /** What is left of a when only 32 coefficients remain. */
  function Remainder(a: Poly): (r: Poly)
    requires |a| >= 32
    ensures |r| == 32
    decreases |a|
  {
    if |a| == 32 then a else Remainder(DivisionStep(a))
  }

  /** a is the generator times q, plus r. */
  predicate Divides(a: Poly, q: Poly, r: Poly) {
    |a| == |q| + 32 && |r| == 32 && a == Add(Times(q), Zeros(|q|) + r)
  }

  function Quotient(a: Poly): (q: Poly)
    requires |a| >= 32
    ensures |q| == |a| - 32
    decreases |a|
  {
    if |a| == 32 then [] else [a[0]] + Quotient(DivisionStep(a))
  }

  /** The coefficient of the generator at place i, or false past its end. */
  predicate GeneratorAt(i: int) {
    InGenerator(32 - i)
  }

  lemma ShiftedAt(t: Poly, first: bool, i: int)
    requires |t| >= 32 && 0 <= i <= |t|
    ensures AddFirst([false] + t, if first then Generator() else [])[i]
            == ((i > 0 && t[i - 1]) != (first && GeneratorAt(i)))
  {
  }

  lemma TimesAt(q: Poly, i: int)
    requires q != [] && 0 <= i < |q| + 32
    ensures Times(q)[i] == ((i > 0 && Times(q[1..])[i - 1]) != (q[0] && GeneratorAt(i)))
  {
    hide AddFirst, Generator, GeneratorAt;
    ShiftedAt(Times(q[1..]), q[0], i);
  }

  lemma StepAt(a: Poly, i: int)
    requires |a| > 32 && 0 <= i < |a| - 1
    ensures DivisionStep(a)[i] == (a[i + 1] != (a[0] && GeneratorAt(i + 1)))
  {
  }

  /** Divides, at place i. */
  predicate DividesAt(a: Poly, q: Poly, r: Poly, i: int)
    requires |a| == |q| + 32 && |r| == 32 && 0 <= i < |a|
  {
    a[i] == (Times(q)[i] != (i >= |q| && r[i - |q|]))
  }

  lemma DividesEverywhere(a: Poly, q: Poly, r: Poly)
    requires |a| == |q| + 32 && |r| == 32
    ensures Divides(a, q, r) <==> forall i :: 0 <= i < |a| ==> DividesAt(a, q, r, i)
  {
    var sum := Add(Times(q), Zeros(|q|) + r);
    if Divides(a, q, r) {
      assert forall i :: 0 <= i < |a| ==> a[i] == sum[i];
    } else if forall i :: 0 <= i < |a| ==> DividesAt(a, q, r, i) {
      forall i | 0 <= i < |a|
        ensures a[i] == sum[i]
      {
        assert DividesAt(a, q, r, i);
      }
    }
  }

  lemma DividesNext(a: Poly, q: Poly, r: Poly)
    requires |a| > 32 && |q| == |a| - 32 && |r| == 32 && q[0] == a[0]
    ensures Divides(a, q, r) <==> Divides(DivisionStep(a), q[1..], r)
  {
    hide Times, DivisionStep, Divides, GeneratorAt;
    var b := DivisionStep(a);
    DividesEverywhere(a, q, r);
    DividesEverywhere(b, q[1..], r);
    TimesAt(q, 0);
    assert DividesAt(a, q, r, 0) by { FirstCoefficient(); }
    forall i | 0 <= i < |b|
      ensures DividesAt(b, q[1..], r, i) <==> DividesAt(a, q, r, i + 1)
    {
      TimesAt(q, i + 1);
      StepAt(a, i);
    }
    assert forall i :: 0 < i < |a| ==> (DividesAt(a, q, r, i) <==> DividesAt(b, q[1..], r, i - 1));
  }

  lemma FirstCoefficient()
    ensures GeneratorAt(0)
  {
  }

  /** That is division: there is a quotient for it. */
  lemma {:induction false} QuotientExists(a: Poly)
    requires |a| >= 32
    ensures Divides(a, Quotient(a), Remainder(a))
    decreases |a|
  {
    if |a| > 32 {
      QuotientExists(DivisionStep(a));
      assert Quotient(a)[1..] == Quotient(DivisionStep(a));
      DividesNext(a, Quotient(a), Remainder(a));
    } else {
      DividesEverywhere(a, [], a);
    }
  }

  /** And only for this remainder. */
  lemma {:induction false} RemainderUnique(a: Poly, q: Poly, r: Poly)
    requires Divides(a, q, r)
    ensures r == Remainder(a)
    decreases |q|
  {
    DividesEverywhere(a, q, r);
    if q == [] {
      assert forall i :: 0 <= i < 32 ==> DividesAt(a, q, r, i);
    } else {
      assert DividesAt(a, q, r, 0);
      TimesAt(q, 0);
      DividesNext(a, q, r);
      RemainderUnique(DivisionStep(a), q[1..], r);
    }
  }

  // ---------------------------------------------------------------- a shift register

  /** Shifts out the highest coefficient. */
  function Shift(r: Poly): (r': Poly)
    requires |r| == 32
    ensures |r'| == 32
  {
    DivisionStep(r + [false])
  }

  /** One more coefficient of the dividend. */
  function FeedBit(r: Poly, b: bool): (r': Poly)
    requires |r| == 32
    ensures |r'| == 32
  {
    Shift(AddFirst(r, [b]))
  }

  function Feed(r: Poly, bits: Poly): (r': Poly)
    requires |r| == 32
    ensures |r'| == 32
    decreases |bits|
  {
    if bits == [] then r else Feed(FeedBit(r, bits[0]), bits[1..])
  }

  lemma {:induction false} FeedAppend(r: Poly, a: Poly, b: Poly)
    requires |r| == 32
    ensures Feed(r, a + b) == Feed(Feed(r, a), b)
    decreases |a|
  {
    if a == [] {
      assert a + b == b;
    } else {
      assert (a + b)[1..] == a[1..] + b;
      FeedAppend(FeedBit(r, a[0]), a[1..], b);
    }
  }

  lemma FeedOne(r: Poly, bits: Poly)
    requires |r| == 32 && bits != []
    ensures DivisionStep(AddFirst(bits + Zeros(32), r)) == AddFirst(bits[1..] + Zeros(32), FeedBit(r, bits[0]))
  {
    var a, r1 := AddFirst(bits + Zeros(32), r), AddFirst(r, [bits[0]]);
    var g := if a[0] then Generator() else [];
    var left, right := DivisionStep(a), AddFirst(bits[1..] + Zeros(32), FeedBit(r, bits[0]));
    assert a[0] == r1[0];
    forall i | 0 <= i < |left|
      ensures left[i] == right[i]
    {
      assert left[i] == AddFirst(a, g)[i + 1];
      assert (bits[1..] + Zeros(32))[i] == (bits + Zeros(32))[i + 1];
      if i < 32 {
        assert FeedBit(r, bits[0])[i] == AddFirst(r1 + [false], g)[i + 1];
        assert (r1 + [false])[i + 1] == if i < 31 then r[i + 1] else false;
      }
    }
  }

  /** A register that holds r and is fed bits ends with the remainder of these bits, followed by 32 zeros, with r added
      to the first 32 of them all. */
  lemma {:induction false} FeedIsDivision(r: Poly, bits: Poly)
    requires |r| == 32
    ensures Feed(r, bits) == Remainder(AddFirst(bits + Zeros(32), r))
    decreases |bits|
  {
    if bits == [] {
      assert AddFirst(bits + Zeros(32), r) == r;
    } else {
      FeedOne(r, bits);
      FeedIsDivision(FeedBit(r, bits[0]), bits[1..]);
    }
  }

  function Shifts(r: Poly, n: nat): (r': Poly)
    requires |r| == 32
    ensures |r'| == 32
    decreases n
  {
    if n == 0 then r else Shifts(Shift(r), n - 1)
  }

  lemma AddedEarly(r: Poly, bits: Poly)
    requires |r| == 32 && 0 < |bits| <= 32
    ensures Shift(AddFirst(r, bits)) == AddFirst(FeedBit(r, bits[0]), bits[1..])
  {
    var a, r1 := AddFirst(r, bits), AddFirst(r, [bits[0]]);
    var g := if a[0] then Generator() else [];
    assert a[0] == r1[0];
    forall i | 0 <= i < 32
      ensures Shift(a)[i] == AddFirst(FeedBit(r, bits[0]), bits[1..])[i]
    {
      assert Shift(a)[i] == AddFirst(a + [false], g)[i + 1];
      assert FeedBit(r, bits[0])[i] == AddFirst(r1 + [false], g)[i + 1];
    }
  }

  /** Bits that are added to the register together, before it is shifted, have the effect of bits fed one by one. */
  lemma {:induction false} FedTogether(r: Poly, bits: Poly)
    requires |r| == 32 && |bits| <= 32
    ensures Shifts(AddFirst(r, bits), |bits|) == Feed(r, bits)
    decreases |bits|
  {
    if bits == [] {
      assert AddFirst(r, bits) == r;
    } else {
      AddedEarly(r, bits);
      FedTogether(FeedBit(r, bits[0]), bits[1..]);
    }
  }
}
