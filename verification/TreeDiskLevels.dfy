/** The arithmetic of tree levels: shifts by multiples of log_rpb, and how many levels a file of a given size has. */
module TreeDiskLevels {

  function Pow2(n: nat): (r: nat)
    ensures r > 0
  {
    if n == 0 then 1 else 2 * Pow2(n - 1)
  }

  /** The C shift of a 32-bit number, with the shifts that C leaves undefined giving 0. */
  function LogShiftR(x: int, nbits: nat): int
  {
    if nbits >= 32 then 0 else x / Pow2(nbits)
  }

  /** The index, k levels above the leaves, of the node whose subtree holds leaf x. */
  function Up(x: nat, k: nat): nat {
    if k == 0 then x else Up(x, k - 1) / 128
  }

  /** The number of levels of the smallest tree that reaches leaf x. */
  function LevelsTo(x: nat): nat {
    if x == 0 then 0 else 1 + LevelsTo(x / 128)
  }

  /** The number of levels of the tree of a file of n blocks. */
  function Levels(n: nat): nat {
    if n == 0 then 0 else LevelsTo(n - 1)
  }

  lemma {:induction false} Pow2Add(m: nat, n: nat)
    ensures Pow2(m + n) == Pow2(m) * Pow2(n)
  {
    if m == 0 {
    } else {
      Pow2Add(m - 1, n);
      assert Pow2(m + n) == 2 * Pow2(m - 1 + n);
      assert 2 * (Pow2(m - 1) * Pow2(n)) == (2 * Pow2(m - 1)) * Pow2(n);
    }
  }

  lemma {:induction false} Pow2Grows(m: nat, n: nat)
    requires m <= n
    ensures Pow2(m) <= Pow2(n)
    decreases n
  {
    if m < n {
      Pow2Grows(m, n - 1);
    }
  }

  lemma Pow2Of7And32()
    ensures Pow2(7) == 128 && Pow2(32) == 0x1_0000_0000
  {
    assert Pow2(8) == 256 && Pow2(4) == 16;
    Pow2Add(8, 8);
    Pow2Add(16, 16);
  }

  lemma Pow2Of28()
    ensures Pow2(28) == 0x1000_0000
  {
    Pow2Of7And32();
    Pow2Add(7, 7);
    Pow2Add(14, 14);
  }

  lemma SmallOverLarge(x: nat, a: nat)
    requires x < a
    ensures x / a == 0
  {
  }

  /** Shifting is division, also for the shifts of 32 bits or more that C leaves undefined. */
  lemma LogShiftRIsDivision(x: int, nbits: nat)
    requires 0 <= x < 0x1_0000_0000
    ensures LogShiftR(x, nbits) == x / Pow2(nbits)
  {
    if nbits >= 32 {
      Pow2Of7And32();
      Pow2Grows(32, nbits);
      SmallOverLarge(x, Pow2(nbits));
    }
  }

  lemma {:induction false} MulGap(b: nat, q: int, gap: nat)
    requires gap > 0
    ensures b * (q + gap) >= b * q + b
  {
    if gap > 1 {
      MulGap(b, q, gap - 1);
      assert b * (q + gap) == b * (q + gap - 1) + b;
    }
  }

  lemma QuotientUnique(b: int, q: int, r: int, q': int, r': int)
    requires 0 <= r < b && 0 <= r' < b && b * q + r == b * q' + r'
    ensures q == q'
  {
    if q < q' {
      MulGap(b, q, q' - q);
    } else if q' < q {
      MulGap(b, q', q - q');
    }
  }

  lemma Distribute(a: int, x: int, y: int)
    ensures a * (x + y) == a * x + a * y
  {
  }

  lemma Regroup(a: nat, q: nat, r1: nat, r2: nat)
    requires r1 < a && r2 < 128
    ensures a * (128 * q + r2) + r1 == (a * 128) * q + (a * r2 + r1)
    ensures 0 <= a * r2 + r1 < a * 128
  {
    Distribute(a, 128 * q, r2);
    assert a * (128 * q) == (a * 128) * q;
    Distribute(a, r2, 128 - r2);
    assert a * (128 - r2) >= a by {
      Distribute(a, 127 - r2, 1);
    }
  }

  lemma DivDiv(x: nat, a: nat)
    requires a > 0
    ensures x / a / 128 == x / (a * 128)
  {
    var y, b := x / a, a * 128;
    var q, r1, r2 := y / 128, x % a, y % 128;
    Regroup(a, q, r1, r2);
    assert x == a * y + r1 && y == 128 * q + r2;
    QuotientRemainder(x, b);
    QuotientUnique(b, q, a * r2 + r1, x / b, x % b);
  }

  lemma QuotientRemainder(x: nat, b: nat)
    requires b > 0
    ensures x == b * (x / b) + x % b && 0 <= x % b < b
  {
  }

  lemma {:induction false} UpIsDivision(x: nat, k: nat)
    ensures Up(x, k) == x / Pow2(7 * k)
  {
    if k == 0 {
    } else {
      UpIsDivision(x, k - 1);
      DivDiv(x, Pow2(7 * (k - 1)));
      Pow2Add(7 * (k - 1), 7);
      Pow2Of7And32();
    }
  }

  /** The shifts of the tree walks compute the index of the subtree at each level. */
  lemma LogShiftRIsUp(x: int, k: nat)
    requires 0 <= x < 0x1_0000_0000
    ensures LogShiftR(x, k * 7) == Up(x, k)
  {
    LogShiftRIsDivision(x, 7 * k);
    UpIsDivision(x, k);
  }

  lemma {:induction false} UpShift(x: nat, k: nat)
    ensures Up(x, k + 1) == Up(x / 128, k)
  {
    if k > 0 {
      UpShift(x, k - 1);
    }
  }

  lemma {:induction false} UpMonotone(x: nat, y: nat, k: nat)
    requires x <= y
    ensures Up(x, k) <= Up(y, k)
  {
    if k > 0 {
      UpMonotone(x, y, k - 1);
    }
  }

  /** A tree of LevelsTo(x) levels reaches leaf x, and no smaller tree does. */
  lemma {:induction false} LevelsToIsLeast(x: nat, k: nat)
    ensures Up(x, k) == 0 <==> LevelsTo(x) <= k
  {
    if k == 0 || x == 0 {
      if k > 0 {
        LevelsToIsLeast(x, k - 1);
      }
    } else {
      LevelsToIsLeast(x / 128, k - 1);
      UpShift(x, k - 1);
    }
  }

  /** Stated on sizes: leaf x needs the least number of levels L with x < 128^L, and L <= 5 for 32-bit offsets. */
  lemma LevelsBound(x: nat)
    ensures x < Pow2(7 * LevelsTo(x))
    ensures LevelsTo(x) > 0 ==> x >= Pow2(7 * (LevelsTo(x) - 1))
    ensures x < 0x1_0000_0000 ==> LevelsTo(x) <= 5
  {
    var k := LevelsTo(x);
    LevelsToIsLeast(x, k);
    UpIsDivision(x, k);
    AtLeastOne(x, Pow2(7 * k));
    if k > 0 {
      LevelsToIsLeast(x, k - 1);
      UpIsDivision(x, k - 1);
      if x < Pow2(7 * (k - 1)) {
        SmallOverLarge(x, Pow2(7 * (k - 1)));
      }
    }
    if x < 0x1_0000_0000 {
      Pow2Of7And32();
      Pow2Grows(32, 35);
      UpIsDivision(x, 5);
      SmallOverLarge(x, Pow2(35));
      LevelsToIsLeast(x, 5);
    }
  }

  lemma AtLeastOne(x: nat, a: nat)
    requires a > 0 && x / a == 0
    ensures x < a
  {
    assert x == a * (x / a) + x % a;
  }

  /** Every leaf of a file of n blocks lies below the root of a tree of Levels(n) levels. */
  lemma LeafBelowRoot(x: nat, n: nat)
    requires x < n
    ensures Up(x, Levels(n)) == 0
  {
    LevelsToIsLeast(n - 1, Levels(n));
    UpMonotone(x, n - 1, Levels(n));
  }

  /** A larger file never has fewer levels. */
  lemma LevelsMonotone(m: nat, n: nat)
    requires m <= n
    ensures Levels(m) <= Levels(n)
  {
    if m > 0 {
      LevelsToIsLeast(n - 1, Levels(n));
      UpMonotone(m - 1, n - 1, Levels(n));
      LevelsToIsLeast(m - 1, Levels(n));
    }
  }

  /** The loops of treedisk_read and treedisk_write that count levels. */
  method CountLevels(last: int, logRpb: nat) returns (nlevels: nat)
    requires 0 <= last < 0x1_0000_0000 && logRpb == 7
    ensures nlevels == LevelsTo(last)
  {
    LevelsToIsLeast(last, LevelsTo(last));
    nlevels := 0;
    LogShiftRIsUp(last, 0);
    while LogShiftR(last, nlevels * logRpb) != 0
      invariant nlevels <= LevelsTo(last)
      invariant LogShiftR(last, nlevels * logRpb) == Up(last, nlevels)
      decreases LevelsTo(last) - nlevels
    {
      LevelsToIsLeast(last, nlevels);
      nlevels := nlevels + 1;
      LogShiftRIsUp(last, nlevels);
    }
    LevelsToIsLeast(last, nlevels);
  }

  /** The loop of treedisk_init that computes log_rpb: the least shift that clears 127. */
  method LogRefsPerBlock() returns (logRpb: nat)
    ensures logRpb == 7 && Pow2(logRpb) == 128
  {
    assert Pow2(3) == 8;
    Pow2Add(3, 3);
    Pow2Of7And32();
    logRpb := 1;
    while LogShiftR(127, logRpb) != 0
      invariant 1 <= logRpb <= 7
      invariant logRpb == 7 || LogShiftR(127, logRpb) != 0
      decreases 7 - logRpb
    {
      logRpb := logRpb + 1;
      assert Pow2(2) == 4 && Pow2(4) == 16 && Pow2(5) == 32;
    }
  }
}
