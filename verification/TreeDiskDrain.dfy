/** Successive allocations of treedisk: which blocks they give out, and how many there are. */
module TreeDiskDrain {
  import opened TreeDiskLayout
  import opened TreeDiskFiles
  import opened TreeDiskFormat

  /** The blocks given out by n allocations in a row, or fewer if the free list ends. */
  function Drain(d: seq<Block>, n: nat): seq<int>
    requires |d| > 0
    decreases n
  {
    if n == 0 then [] else
      var (r, d') := AllocOn(d);
      if r.None? then [] else [r.value] + Drain(d', n - 1)
  }

  // ---------------------------------------------------------------- the free list in the order of allocation

  function Head(chain: seq<int>): int {
    if chain == [] then 0 else chain[0]
  }

  /** The list blocks are those of chain, from the first to the last. */
  ghost predicate OnList(d: seq<Block>, chain: seq<int>) {
    && |d| > 0 && d[0][1] == Head(chain)
    && (forall k :: 0 <= k < |chain| ==> 0 < chain[k] < |d| && d[chain[k]][0] == Head(chain[k + 1..]))
    && (forall k, m :: 0 <= k < m < |chain| ==> chain[k] != chain[m])
  }

  /** The references in the slots from i down to 1. */
  function Slots(block: Block, i: nat): seq<int>
    requires i < 128
  {
    if i == 0 then [] else (if block[i] != 0 then [block[i]] else []) + Slots(block, i - 1)
  }

  function FreeSeq(d: seq<Block>, chain: seq<int>): seq<int>
    requires forall k :: 0 <= k < |chain| ==> 0 <= chain[k] < |d|
  {
    if chain == [] then [] else Slots(d[chain[0]], 127) + [chain[0]] + FreeSeq(d, chain[1..])
  }

  lemma {:induction false} NoSlots(block: Block, i: nat)
    requires i < 128 && LastSlot(block, i) == 0
    ensures Slots(block, i) == []
  {
    if i > 0 {
      NoSlots(block, i - 1);
    }
  }

  lemma {:induction false} SlotsBelow(block: Block, block': Block, i: nat)
    requires i < 128 && forall k :: 1 <= k <= i ==> block'[k] == block[k]
    ensures Slots(block', i) == Slots(block, i)
  {
    if i > 0 {
      SlotsBelow(block, block', i - 1);
    }
  }

  lemma {:induction false} SlotsAbove(block: Block, k: nat, i: nat)
    requires k <= i < 128 && forall m :: k < m <= i ==> block[m] == 0
    ensures Slots(block, i) == Slots(block, k)
  {
    if k < i {
      SlotsAbove(block, k, i - 1);
    }
  }

  /** Clearing the last slot in use takes the first reference off. */
  lemma ClearSlot(block: Block, k: nat)
    requires 1 <= k < 128 && k == LastSlot(block, 127)
    ensures Slots(block, 127) == [block[k]] + Slots(block[k := 0], 127)
  {
    SlotsAbove(block, k, 127);
    SlotsAbove(block[k := 0], k - 1, 127);
    SlotsBelow(block, block[k := 0], k - 1);
  }

  lemma {:induction false} FreeSeqFrame(d: seq<Block>, d': seq<Block>, chain: seq<int>)
    requires |d'| == |d| && forall k :: 0 <= k < |chain| ==> 0 <= chain[k] < |d| && d'[chain[k]] == d[chain[k]]
    ensures FreeSeq(d', chain) == FreeSeq(d, chain)
  {
    if chain != [] {
      FreeSeqFrame(d, d', chain[1..]);
    }
  }

  lemma ClearKeepsList(d: seq<Block>, d': seq<Block>, chain: seq<int>, i: nat)
    requires OnList(d, chain) && chain != [] && 1 <= i < 128 && d' == d[chain[0] := d[chain[0]][i := 0]]
    ensures OnList(d', chain)
  {
    forall k | 0 <= k < |chain|
      ensures 0 < chain[k] < |d'| && d'[chain[k]][0] == Head(chain[k + 1..])
    {
      assert d[chain[k]][0] == Head(chain[k + 1..]);
    }
  }

  lemma ClearFirst(d: seq<Block>, d': seq<Block>, chain: seq<int>, i: nat)
    requires OnList(d, chain) && chain != [] && 1 <= i < 128 && i == LastSlot(d[chain[0]], 127)
    requires d' == d[chain[0] := d[chain[0]][i := 0]]
    ensures OnList(d', chain) && FreeSeq(d, chain) == [d[chain[0]][i]] + FreeSeq(d', chain)
  {
    var b, rest := chain[0], FreeSeq(d, chain[1..]);
    ClearKeepsList(d, d', chain, i);
    ClearSlot(d[b], i);
    FreeSeqFrame(d, d', chain[1..]);
    Regrouped(d[b][i], Slots(d'[b], 127), b, rest);
  }

  lemma Regrouped(x: int, slots: seq<int>, b: int, rest: seq<int>)
    ensures ([x] + slots) + [b] + rest == [x] + (slots + [b] + rest)
  {
  }

  /** An allocation gives out the first block of the free list, and leaves the rest. */
  lemma AllocFirst(d: seq<Block>, chain: seq<int>) returns (chain': seq<int>)
    requires OnList(d, chain) && chain != []
    ensures var (r, d') := AllocOn(d);
            && r.Some? && OnList(d', chain') && FreeSeq(d, chain) == [r.value] + FreeSeq(d', chain')
  {
    var i, d' := LastSlot(d[chain[0]], 127), AllocOn(d).1;
    if i == 0 {
      NoSlots(d[chain[0]], 127);
      chain' := chain[1..];
      FreeSeqFrame(d, d', chain');
      Shorter(d, d', chain);
    } else {
      chain' := chain;
      ClearFirst(d, d', chain, i);
    }
  }

  lemma Shorter(d: seq<Block>, d': seq<Block>, chain: seq<int>)
    requires OnList(d, chain) && chain != [] && d' == d[0 := d[0][1 := d[chain[0]][0]]]
    ensures OnList(d', chain[1..])
  {
    var rest := chain[1..];
    assert d[chain[0]][0] == Head(chain[0 + 1..]);
    forall k | 0 <= k < |rest|
      ensures 0 < rest[k] < |d'| && d'[rest[k]][0] == Head(rest[k + 1..])
    {
      assert rest[k] == chain[k + 1] && rest[k + 1..] == chain[k + 2..];
      assert d[chain[k + 1]][0] == Head(chain[(k + 1) + 1..]);
    }
  }

  /** So n allocations give out the first n blocks of the free list, in order. */
  lemma {:induction false} DrainIs(d: seq<Block>, chain: seq<int>, n: nat)
    requires OnList(d, chain)
    ensures Drain(d, n) == FreeSeq(d, chain)[..if n < |FreeSeq(d, chain)| then n else |FreeSeq(d, chain)|]
    decreases n
  {
    if n > 0 && chain != [] {
      var chain' := AllocFirst(d, chain);
      DrainIs(AllocOn(d).1, chain', n - 1);
    }
  }

  // ---------------------------------------------------------------- the free list of a consistent disk

  /** The first m list blocks, counted from the end of the list, in the order of the list. */
  function ChainOf(l: Layout, m: nat): (s: seq<int>)
    requires forall k :: 0 <= k < m ==> Chain(k) in l.at
    ensures |s| == m && forall k :: 0 <= k < m ==> s[k] == l.at[Chain(m - 1 - k)]
  {
    seq(m, k requires 0 <= k < m => l.at[Chain(m - 1 - k)])
  }

  lemma ChainDistinct(d: seq<Block>, l: Layout, k: nat, m: nat)
    requires Inv(d, l) && k < m < l.chain
    ensures Chain(k) in l.at && Chain(m) in l.at && l.at[Chain(k)] != l.at[Chain(m)]
  {
    assert l.owner[l.at[Chain(k)]] == Chain(k);
  }

  lemma ChainOnList(d: seq<Block>, l: Layout)
    requires Inv(d, l)
    ensures OnList(d, ChainOf(l, l.chain))
  {
    var chain := ChainOf(l, l.chain);
    EmptyFreeList(d, l);
    forall k | 0 <= k < |chain|
      ensures 0 < chain[k] < |d| && d[chain[k]][0] == Head(chain[k + 1..])
    {
      ChainLink(d, l, l.chain - 1 - k);
      assert k + 1 < |chain| ==> chain[k + 1..][0] == chain[k + 1];
    }
    forall k, m | 0 <= k < m < |chain|
      ensures chain[k] != chain[m]
    {
      ChainDistinct(d, l, l.chain - 1 - m, l.chain - 1 - k);
    }
  }

  lemma ChainLink(d: seq<Block>, l: Layout, depth: nat)
    requires Inv(d, l) && depth < l.chain
    ensures Chain(depth) in l.at && 0 < l.at[Chain(depth)] < |d|
    ensures d[l.at[Chain(depth)]][0] == if depth == 0 then 0 else l.at[Chain(depth - 1)]
  {
    assert Chain(depth) in l.at;
    var b := l.at[Chain(depth)];
    assert l.owner[0] == Super;
    assert SlotOk(d, l, b, 0);
    if depth == 0 {
      assert Chain(-1) in l.at ==> KeyOk(l, InodeBlocks(d), Chain(-1));
    } else {
      assert Chain(depth - 1) in l.at;
      assert l.at[Chain(depth - 1)] != 0;
    }
  }

  /** No block occurs twice in s. */
  ghost predicate Distinct(s: seq<int>) {
    forall k, m :: 0 <= k < m < |s| ==> s[k] != s[m]
  }

  /** The references of list block b are distinct, and play the roles of its slots. */
  lemma {:induction false} SlotsOwned(d: seq<Block>, l: Layout, b: int, i: nat)
    requires Inv(d, l) && 0 <= b < |d| && l.owner[b].Chain? && i < 128
    ensures var s := Slots(d[b], i);
            && Distinct(s)
            && forall k :: 0 <= k < |s| ==>
                 0 <= s[k] < |d| && l.owner[s[k]].Spare? && l.owner[s[k]].depth == l.owner[b].depth
                 && l.owner[s[k]].slot <= i
  {
    if i > 0 {
      SlotsOwned(d, l, b, i - 1);
      assert SlotOk(d, l, b, i);
    }
  }

  /** The free list names free blocks, none of them twice. */
  lemma {:induction false} FreeSeqOwned(d: seq<Block>, l: Layout, m: nat)
    requires Inv(d, l) && m <= l.chain
    ensures forall k :: 0 <= k < m ==> Chain(k) in l.at && 0 <= l.at[Chain(k)] < |d|
    ensures var s := FreeSeq(d, ChainOf(l, m));
            && Distinct(s)
            && forall k :: 0 <= k < |s| ==> 0 <= s[k] < |d| && IsFree(l.owner[s[k]]) && l.owner[s[k]].depth < m
  {
    if m > 0 {
      FreeSeqOwned(d, l, m - 1);
      var chain := ChainOf(l, m);
      assert chain[1..] == ChainOf(l, m - 1);
      assert l.owner[chain[0]] == Chain(m - 1);
      SlotsOwned(d, l, chain[0], 127);
    }
  }

  lemma {:induction false} InSlots(block: Block, i: nat, k: int)
    requires 1 <= k <= i < 128 && block[k] != 0
    ensures block[k] in Slots(block, i)
  {
    if k < i {
      InSlots(block, i - 1, k);
    }
  }

  /** And it names them all. */
  lemma {:induction false} FreeInSeq(d: seq<Block>, l: Layout, m: nat, b: int)
    requires Inv(d, l) && m <= l.chain && 0 <= b < |d| && IsFree(l.owner[b]) && l.owner[b].depth < m
    ensures forall k :: 0 <= k < m ==> Chain(k) in l.at && 0 <= l.at[Chain(k)] < |d|
    ensures b in FreeSeq(d, ChainOf(l, m))
  {
    assert KeyOk(l, InodeBlocks(d), l.owner[b]);
    var chain := ChainOf(l, m);
    assert chain[1..] == ChainOf(l, m - 1);
    assert l.owner[chain[0]] == Chain(m - 1);
    if l.owner[b].depth < m - 1 {
      FreeInSeq(d, l, m - 1, b);
    } else if l.owner[b].Spare? {
      var i := l.owner[b].slot;
      assert SlotOk(d, l, chain[0], i);
      InSlots(d[chain[0]], 127, i);
    }
  }

  lemma {:induction false} DistinctSize(s: seq<int>)
    requires Distinct(s)
    ensures |set x | x in s| == |s|
  {
    if s != [] {
      var n := |s| - 1;
      DistinctSize(s[..n]);
      assert (set x | x in s) == (set x | x in s[..n]) + {s[n]};
    }
  }

  lemma FreeSeqIs(d: seq<Block>, l: Layout)
    requires Inv(d, l)
    ensures OnList(d, ChainOf(l, l.chain))
    ensures var s := FreeSeq(d, ChainOf(l, l.chain));
            Distinct(s) && |s| == |FreeBlocks(l)| && forall b :: b in s <==> b in FreeBlocks(l)
  {
    ChainOnList(d, l);
    FreeSeqOwned(d, l, l.chain);
    var s := FreeSeq(d, ChainOf(l, l.chain));
    forall b
      ensures b in s <==> b in FreeBlocks(l)
    {
      if b in FreeBlocks(l) {
        assert KeyOk(l, InodeBlocks(d), l.owner[b]);
        FreeInSeq(d, l, l.chain, b);
      }
    }
    DistinctSize(s);
    assert (set x | x in s) == FreeBlocks(l);
  }

  /** On a consistent disk, exactly as many allocations succeed in a row as there are free blocks; they give out
      distinct free blocks, and all of them if there are enough allocations. */
  lemma DrainsAll(d: seq<Block>, l: Layout, n: nat)
    requires Inv(d, l)
    ensures var s, free := Drain(d, n), FreeBlocks(l);
            && Distinct(s) && |s| == (if n < |free| then n else |free|)
            && (forall b :: b in s ==> b in free) && (n >= |free| ==> forall b :: b in free ==> b in s)
  {
    FreeSeqIs(d, l);
    DrainIs(d, ChainOf(l, l.chain), n);
  }

  /** On a newly formatted disk these are the blocks after the inode blocks. */
  lemma DrainsFormatted(d: seq<Block>, inodeBlocks: nat, n: nat)
    requires Formatted(d, inodeBlocks) && n >= |d| - (inodeBlocks + 1)
    ensures var s := Drain(d, n);
            Distinct(s) && |s| == |d| - (inodeBlocks + 1) && forall b :: b in s <==> inodeBlocks < b < |d|
  {
    FormattedIsConsistent(d, inodeBlocks);
    DrainsAll(d, InitialLayout(|d|, inodeBlocks), n);
  }
}
