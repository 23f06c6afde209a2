/** The checksum of IP and UDP headers (apps/user/udp_demo.c), as section 1 of RFC 1071 describes it. */
module InternetChecksum {
  import opened Memory

  const UINT_LIMIT := 0x1_0000_0000

  /** The sum of the 16-bit big-endian words; an odd last byte is ignored. */
  function WordSum(bytes: seq<byte>): nat {
    if |bytes| < 2 then 0 else bytes[0] * 256 + bytes[1] + WordSum(bytes[2..])
  }

  /** The ones' complement sum of 16-bit words: their sum modulo 0xFFFF, with 0xFFFF standing for every positive
      multiple of it. */
  function Reduced(sum: nat): (r: nat)
    ensures r <= sum && r <= 0xFFFF && (r == 0 <==> sum == 0)
  {
    if sum == 0 then 0 else 1 + (sum - 1) % 0xFFFF
  }

  function Complemented(r: int): int {
    if 0xFFFF - r == 0 then 0xFFFF else 0xFFFF - r
  }

  /** checksum(): a partial sum of 32 bits, or the final complemented word. */
  function Checksum(r: nat, bytes: seq<byte>, complete: bool): int {
    Result((r + WordSum(bytes)) % 0x1_0000_0000, complete)
  }

  function Result(sum: nat, complete: bool): int {
    if complete then Complemented(Reduced(sum)) else Reduced(sum)
  }

  // ---------------------------------------------------------------- what folding computes

  /** Adding the carry back in keeps the reduced sum. */
  lemma FoldStep(r: nat)
    requires r >= 0x1_0000
    ensures var r' := r % 0x1_0000 + r / 0x1_0000; 0 < r' < r && Reduced(r') == Reduced(r)
  {
    var q, m := r / 0x1_0000, r % 0x1_0000;
    assert r - 1 == (m + q - 1) + 0xFFFF * q;
  }

  lemma FoldDone(r: nat)
    requires r < 0x1_0000
    ensures Reduced(r) == r
  {
  }

  /** A partial sum can be reduced before more is added. */
  lemma ReducePartial(x: nat, y: nat)
    ensures Reduced(Reduced(x) + y) == Reduced(x + y)
  {
    if x > 0 {
      var q, m := (x - 1) / 0xFFFF, (x - 1) % 0xFFFF;
      assert x + y - 1 == (m + y) + 0xFFFF * q;
    }
  }

  // ---------------------------------------------------------------- sums of parts

  lemma {:induction false} WordSumConcat(a: seq<byte>, b: seq<byte>)
    requires |a| % 2 == 0
    ensures WordSum(a + b) == WordSum(a) + WordSum(b)
  {
    if a == [] {
      assert a + b == b;
    } else {
      assert (a + b)[2..] == a[2..] + b;
      WordSumConcat(a[2..], b);
    }
  }

  lemma {:induction false} WordSumBound(bytes: seq<byte>)
    ensures WordSum(bytes) <= 0xFFFF * (|bytes| / 2)
  {
    if |bytes| >= 2 {
      WordSumBound(bytes[2..]);
    }
  }

  /** Without overflow the 32-bit sum is the sum. */
  lemma ChecksumIs(r: nat, bytes: seq<byte>, complete: bool, sum: nat)
    requires r + WordSum(bytes) == sum < UINT_LIMIT
    ensures Checksum(r, bytes, complete) == Result(sum, complete)
  {
    assert sum % 0x1_0000_0000 == sum;
  }

  /** One word, the high byte first; a single byte counts for nothing. */
  lemma OneWord(high: byte, low: byte)
    ensures WordSum([high, low]) == 256 * high + low && WordSum([high]) == 0 && WordSum([]) == 0
  {
    assert [high, low][2..] == [];
  }

  /** What the result is without overflow: a partial sum of 16 bits is congruent to the sum of the words modulo
      65535, and 0 only if all of them are; the final word is its negative, and never 0. */
  lemma ChecksumMeans(r: nat, bytes: seq<byte>)
    requires r + WordSum(bytes) < 0x1_0000_0000
    ensures var sum, partial, final := r + WordSum(bytes), Checksum(r, bytes, false), Checksum(r, bytes, true);
            && 0 <= partial <= 65535 && (partial - sum) % 65535 == 0 && (partial == 0 <==> sum == 0)
            && 0 < final <= 65535 && (final + sum) % 65535 == 0
  {
    var sum := r + WordSum(bytes);
    ChecksumIs(r, bytes, false, sum);
    ChecksumIs(r, bytes, true, sum);
    ReducedMeans(sum);
  }

  lemma ReducedMeans(sum: nat)
    ensures (Reduced(sum) - sum) % 65535 == 0 && (Complemented(Reduced(sum)) + sum) % 65535 == 0
  {
    if sum > 0 {
      var q, m := (sum - 1) / 65535, (sum - 1) % 65535;
      assert sum == 65535 * q + m + 1 && Reduced(sum) == m + 1;
      assert Reduced(sum) - sum == 65535 * -q;
      Multiple(-q);
      if m == 65534 {
        assert Complemented(Reduced(sum)) + sum == 65535 * (q + 2);
        Multiple(q + 2);
      } else {
        assert Complemented(Reduced(sum)) + sum == 65535 * (q + 1);
        Multiple(q + 1);
      }
    }
  }

  lemma Multiple(k: int)
    ensures 65535 * k % 65535 == 0
  {
  }

  /** The example in section 3 of RFC 1071. */
  lemma Example()
    ensures Checksum(0, [0x00, 0x01, 0xF2, 0x03, 0xF4, 0xF5, 0xF6, 0xF7], false) == 0xDDF2
    ensures Checksum(0, [0x00, 0x01, 0xF2, 0x03, 0xF4, 0xF5, 0xF6, 0xF7], true) == 0x220D
  {
    var bytes: seq<byte> := [0x00, 0x01, 0xF2, 0x03, 0xF4, 0xF5, 0xF6, 0xF7];
    assert bytes[2..][2..][2..][2..] == [];
    assert WordSum(bytes) == 0x2_DDF0;
  }

  /** Summing in two calls gives the checksum of the whole, unless the 32-bit sum overflows. */
  lemma PartsAgree(r: nat, a: seq<byte>, b: seq<byte>, complete: bool, p: nat)
    requires |a| % 2 == 0 && r + WordSum(a) + WordSum(b) < UINT_LIMIT
    requires p == Checksum(r, a, false)
    ensures Checksum(p, b, complete) == Checksum(r, a + b, complete)
  {
    var x, y, whole := r + WordSum(a), WordSum(b), a + b;
    assert r + WordSum(whole) == x + y by {
      WordSumConcat(a, b);
    }
    assert p == Reduced(x) by {
      ChecksumIs(r, a, false, x);
    }
    SumsAgree(r, whole, complete, p, b, x, y);
  }

  lemma SumsAgree(r: nat, whole: seq<byte>, complete: bool, p: nat, b: seq<byte>, x: nat, y: nat)
    requires r + WordSum(whole) == x + y < UINT_LIMIT && p == Reduced(x) && y == WordSum(b)
    ensures Checksum(p, b, complete) == Checksum(r, whole, complete)
  {
    ReducePartial(x, y);
    ChecksumIs(p, b, complete, p + y);
    ChecksumIs(r, whole, complete, x + y);
  }

  /** Starting from a 16-bit sum, no packet of up to 64 KB overflows. */
  lemma NoOverflow(r: nat, bytes: seq<byte>)
    requires r <= 0xFFFF && |bytes| <= 0x1_0000
    ensures r + WordSum(bytes) < UINT_LIMIT
  {
    WordSumBound(bytes);
  }

  /** The two bytes of a checksum as they are stored in a header. */
  function Stored(c: int): seq<byte>
    requires 0 <= c <= 0xFFFF
  {
    [c / 256, c % 256]
  }

  lemma ChecksumRange(r: nat, bytes: seq<byte>, complete: bool)
    ensures 0 <= Checksum(r, bytes, complete) <= 0xFFFF
    ensures complete ==> Checksum(r, bytes, complete) > 0
  {
  }

  /** A receiver that sums the data with the checksum in its place (which held zero before) always gets 0xFFFF. */
  lemma ReceiverGetsAllOnes(r: nat, before: seq<byte>, after: seq<byte>)
    requires |before| % 2 == 0 && r + WordSum(before) + 0xFFFF + WordSum(after) < UINT_LIMIT
    ensures var c := Checksum(r, before + [0, 0] + after, true);
            0 <= c <= 0xFFFF && Checksum(r, before + Stored(c) + after, false) == 0xFFFF
  {
    var s := r + WordSum(before) + WordSum(after);
    var c := Checksum(r, before + [0, 0] + after, true);
    ChecksumRange(r, before + [0, 0] + after, true);
    SumAround(before, 0, after);
    SumAround(before, c, after);
    ChecksumIs(r, before + [0, 0] + after, true, s);
    ChecksumIs(r, before + Stored(c) + after, false, s + c);
    ComplementFolds(s, c);
  }

  lemma ComplementFolds(s: nat, c: int)
    requires c == Complemented(Reduced(s)) && 0 <= c
    ensures Reduced(s + c) == 0xFFFF
  {
    if s > 0 {
      ComplementCancels(s, c);
    }
  }

  lemma SumAround(before: seq<byte>, c: int, after: seq<byte>)
    requires |before| % 2 == 0 && 0 <= c <= 0xFFFF
    ensures WordSum(before + Stored(c) + after) == WordSum(before) + c + WordSum(after)
    ensures c == 0 ==> Stored(c) == [0, 0]
  {
    var middle := Stored(c);
    assert before + middle + after == before + (middle + after);
    WordSumConcat(before, middle + after);
    WordSumConcat(middle, after);
    assert WordSum(middle[2..]) == 0;
  }

  lemma ComplementCancels(s: int, c: int)
    requires s > 0 && c == Complemented(1 + (s - 1) % 0xFFFF)
    ensures (s + c - 1) % 0xFFFF == 0xFFFE
  {
    var q, m := (s - 1) / 0xFFFF, (s - 1) % 0xFFFF;
    assert s - 1 == 0xFFFF * q + m;
    if m == 0xFFFE {
      assert c == 0xFFFF;
      assert s + c - 1 == 0xFFFF * (q + 1) + 0xFFFE;
    } else {
      assert c == 0xFFFE - m;
      assert s + c - 1 == 0xFFFF * q + 0xFFFE;
    }
  }

  lemma AddWord(x: nat, w: nat)
    ensures (x % 0x1_0000_0000 + w) % 0x1_0000_0000 == (x + w) % 0x1_0000_0000
  {
  }

  /** The first loop of checksum: the sum of the words, on 32-bit unsigned numbers. */
  method Sum(r: nat, bytes: seq<byte>) returns (sum: nat)
    requires r < UINT_LIMIT
    ensures sum == (r + WordSum(bytes)) % 0x1_0000_0000
  {
    var length := |bytes| / 2;
    sum := r;
    assert bytes[..0] == [];
    for i := 0 to length
      invariant sum == (r + WordSum(bytes[..2 * i])) % 0x1_0000_0000
    {
      assert bytes[..2 * (i + 1)] == bytes[..2 * i] + [bytes[2 * i], bytes[2 * i + 1]];
      WordSumConcat(bytes[..2 * i], [bytes[2 * i], bytes[2 * i + 1]]);
      var high: int, low: int := bytes[2 * i], bytes[2 * i + 1];
      AddWord(r + WordSum(bytes[..2 * i]), high * 256 + low);
      sum := (sum + (high * 256 + low)) % 0x1_0000_0000;
    }
    OddByteIgnored(bytes);
  }

  /** The second loop: folding until the sum fits in 16 bits. */
  method Fold(sum: nat) returns (folded: nat)
    ensures folded == Reduced(sum)
  {
    folded := sum;
    while folded / 0x1_0000 != 0
      invariant Reduced(folded) == Reduced(sum)
      decreases folded
    {
      FoldStep(folded);
      folded := folded % 0x1_0000 + folded / 0x1_0000;
    }
    FoldDone(folded);
  }

  /** checksum: both loops, and the complement. */
  method Compute(r: nat, bytes: seq<byte>, complete: bool) returns (result: int)
    requires r < UINT_LIMIT
    ensures result == Checksum(r, bytes, complete)
  {
    var sum := Sum(r, bytes);
    result := Fold(sum);
    if complete {
      result := 0xFFFF - result;
      if result == 0 {
        result := 0xFFFF;
      }
    }
  }

  lemma {:induction false} OddByteIgnored(bytes: seq<byte>)
    ensures WordSum(bytes[..2 * (|bytes| / 2)]) == WordSum(bytes)
  {
    if |bytes| >= 2 {
      assert bytes[..2 * (|bytes| / 2)][2..] == bytes[2..][..2 * (|bytes[2..]| / 2)];
      OddByteIgnored(bytes[2..]);
    }
  }
}
