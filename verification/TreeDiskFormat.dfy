/** The layout of a freshly formatted disk, as treedisk_create and setup_freelist write it. */
module TreeDiskFormat {
  import opened SetSizes
  import opened TreeDiskLayout
  import opened TreeDiskFiles
  import opened FileStore

  /** Word i of the k-th free-list block, when the free blocks are [first, nblocks). */
  function FreelistWord(first: int, nblocks: int, k: nat, i: nat): int {
    if i == 0 then (if k == 0 then 0 else first + 128 * (k - 1))
    else if first + 128 * k + i < nblocks then first + 128 * k + i
    else 0
  }

  predicate IsFreelistBlock(b: Block, first: int, nblocks: int, k: nat) {
    forall i :: 0 <= i < 128 ==> b[i] == FreelistWord(first, nblocks, k, i)
  }

  /** How many free-list blocks it takes to list [first, nblocks). */
  function ChainLength(first: int, nblocks: int): nat
    requires first <= nblocks
  {
    (nblocks - first + 127) / 128
  }

  /** The first block of the finished free list: the last one written. */
  function FreelistHead(first: int, nblocks: int): int
    requires first <= nblocks
  {
    if first == nblocks then 0 else first + 128 * (ChainLength(first, nblocks) - 1)
  }

  function InitialOwner(n: nat, x: nat): Owner {
    if x == 0 then Super
    else if x <= n then InodeBlock(x - 1)
    else if (x - n - 1) % 128 == 0 then Chain((x - n - 1) / 128)
    else Spare((x - n - 1) / 128, (x - n - 1) % 128)
  }

  function InitialLayout(nblocks: nat, n: nat): Layout
    requires n < nblocks
  {
    Layout(seq(nblocks, x requires 0 <= x => InitialOwner(n, x)),
           map x | 0 <= x < nblocks :: InitialOwner(n, x) := x,
           seq(64 * n, i => 0),
           ChainLength(n + 1, nblocks))
  }

  /** What treedisk_create leaves on the disk. */
  ghost predicate Formatted(d: seq<Block>, n: nat) {
    && n + 2 <= |d| < WORD_LIMIT
    && d[0] == NULL_BLOCK[0 := n][1 := FreelistHead(n + 1, |d|)]
    && (forall b :: 1 <= b <= n ==> d[b] == NULL_BLOCK)
    && (forall b :: n + 1 <= b < |d| && (b - n - 1) % 128 == 0 ==> IsFreelistBlock(d[b], n + 1, |d|, (b - n - 1) / 128))
  }

  lemma FormattedSlot(d: seq<Block>, n: nat, b: int, i: int)
    requires Formatted(d, n) && 0 <= b < |d| && 0 <= i < 128
    ensures SlotOk(d, InitialLayout(|d|, n), b, i)
  {
    var l := InitialLayout(|d|, n);
    var o := l.owner[b];
    assert o == InitialOwner(n, b);
    if o.Super? {
      if i == 1 {
        SlotOfChain(l, n, |d|, l.chain - 1);
      }
    } else if o.InodeBlock? {
      forall x | x in l.at
        ensures !x.Node?
      {
      }
    } else if o.Chain? {
      var k: nat := (b - n - 1) / 128;
      assert IsFreelistBlock(d[b], n + 1, |d|, k);
      assert d[b][i] == FreelistWord(n + 1, |d|, k, i);
      if i == 0 {
        SlotOfChain(l, n, |d|, k - 1);
      } else {
        SlotOfSpare(l, n, |d|, k, i);
      }
    }
  }

  lemma SlotOfChain(l: Layout, n: nat, nblocks: nat, k: int)
    requires n + 2 <= nblocks && l == InitialLayout(nblocks, n) && -1 <= k < l.chain
    ensures Slot(if k < 0 then 0 else n + 1 + 128 * k, Chain(k), l.at)
  {
    if k >= 0 {
      var x := n + 1 + 128 * k;
      assert x < nblocks;
      assert InitialOwner(n, x) == Chain(k);
    } else {
      forall x | 0 <= x < nblocks
        ensures InitialOwner(n, x) != Chain(-1)
      {
      }
    }
  }

  lemma SlotOfSpare(l: Layout, n: nat, nblocks: nat, k: nat, i: int)
    requires n + 2 <= nblocks && l == InitialLayout(nblocks, n) && 1 <= i < 128
    ensures Slot(FreelistWord(n + 1, nblocks, k, i), Spare(k, i), l.at)
  {
    var x := n + 1 + 128 * k + i;
    assert (x - n - 1) / 128 == k && (x - n - 1) % 128 == i;
    assert InitialOwner(n, x) == Spare(k, i);
    if x >= nblocks {
      forall y | 0 <= y < nblocks
        ensures InitialOwner(n, y) != Spare(k, i)
      {
      }
    }
  }

  lemma FormattedInv(d: seq<Block>, n: nat)
    requires Formatted(d, n)
    ensures Inv(d, InitialLayout(|d|, n))
  {
    var l := InitialLayout(|d|, n);
    assert InodeBlocks(d) == n;
    forall b | 0 <= b < |d|
      ensures l.owner[b] in l.at && l.at[l.owner[b]] == b
    {
      assert l.owner[b] == InitialOwner(n, b);
    }
    assert Super in l.at && l.at[Super] == 0 by { assert InitialOwner(n, 0) == Super; }
    forall k | 0 <= k < n
      ensures InodeBlock(k) in l.at && l.at[InodeBlock(k)] == 1 + k
    {
      assert InitialOwner(n, 1 + k) == InodeBlock(k);
    }
    forall k | 0 <= k < l.chain
      ensures Chain(k) in l.at
    {
      SlotOfChain(l, n, |d|, k);
    }
    forall o | o in l.at
      ensures KeyOk(l, n, o)
    {
      assert o == InitialOwner(n, l.at[o]);
    }
    forall b, i | 0 <= b < |d| && 0 <= i < 128
      ensures SlotOk(d, l, b, i)
    {
      FormattedSlot(d, n, b, i);
    }
  }

  lemma FormattedFile(d: seq<Block>, n: nat, ino: int)
    requires Formatted(d, n) && 0 <= ino < 64 * n && Inv(d, InitialLayout(|d|, n))
    ensures FileOk(d, InitialLayout(|d|, n), ino) && Files(d, InitialLayout(|d|, n))[ino] == EMPTY_FILE
  {
    var l := InitialLayout(|d|, n);
    forall o | o in l.at
      ensures !o.Node?
    {
      assert o == InitialOwner(n, l.at[o]);
    }
    assert d[1 + ino / 64] == NULL_BLOCK;
    assert Offsets(l, ino) == {};
  }

  lemma FormattedFree(l: Layout, n: nat, nblocks: nat)
    requires n < nblocks && |l.owner| == nblocks && forall b :: 0 <= b < nblocks ==> (IsFree(l.owner[b]) <==> b > n)
    ensures FreeBlocks(l) == Below(nblocks) - Below(n + 1)
    ensures |FreeBlocks(l)| == nblocks - (n + 1)
  {
    hide IsFree, FreeBlocks, Below;
    forall b
      ensures b in FreeBlocks(l) <==> b in Below(nblocks) - Below(n + 1)
    {
      FreeBlockIs(l, b);
    }
    assert FreeBlocks(l) == Below(nblocks) - Below(n + 1);
    RangeSize(n + 1, nblocks);
  }

  lemma FreeBlockIs(l: Layout, b: int)
    ensures b in FreeBlocks(l) <==> 0 <= b < |l.owner| && IsFree(l.owner[b])
  {
  }

  /** A formatted disk is consistent; all its files are empty, and exactly the blocks after the inode blocks are
      free. */
  lemma FormattedIsConsistent(d: seq<Block>, n: nat)
    requires Formatted(d, n)
    ensures Consistent(d, InitialLayout(|d|, n))
    ensures Files(d, InitialLayout(|d|, n)) == EmptyFiles(64 * n)
    ensures FreeBlocks(InitialLayout(|d|, n)) == Below(|d|) - Below(n + 1)
    ensures |FreeBlocks(InitialLayout(|d|, n))| == |d| - (n + 1)
  {
    var l := InitialLayout(|d|, n);
    FormattedInv(d, n);
    FormattedFree(l, n, |d|);
    FormattedNoLoose(l, |d|, n);
    forall ino | 0 <= ino < 64 * n
      ensures FileOk(d, l, ino) && Files(d, l)[ino] == EMPTY_FILE
    {
      FormattedFile(d, n, ino);
    }
  }

  lemma FormattedNoLoose(l: Layout, nblocks: nat, n: nat)
    requires n < nblocks && l == InitialLayout(nblocks, n)
    ensures Loose !in l.at
  {
    forall o | o in l.at
      ensures o != Loose
    {
      assert o == InitialOwner(n, l.at[o]);
    }
  }

  /** Fills a free-list block: the previous list block, then as many of the next free blocks as there are. */
  method FillRefs(data: array<word>, previous: word, next: nat, nblocks: nat) returns (nextFree: nat)
    requires data.Length == 128 && next <= nblocks < WORD_LIMIT
    modifies data
    ensures nextFree == if next + 127 <= nblocks then next + 127 else nblocks
    ensures data[0] == previous
    ensures forall i :: 1 <= i < 128 ==> data[i] == if next + i - 1 < nblocks then next + i - 1 else 0
  {
    nextFree := next;
    data[0] := previous;
    var i := 1;
    while i < REFS_PER_BLOCK && nextFree < nblocks
      invariant 1 <= i <= 128 && nextFree == next + i - 1 <= nblocks
      invariant data[0] == previous
      invariant forall j :: 1 <= j < i ==> data[j] == next + j - 1
    {
      data[i] := nextFree;
      nextFree := nextFree + 1;
      i := i + 1;
    }
    while i < REFS_PER_BLOCK
      invariant 1 <= i <= 128 && nextFree <= nblocks
      invariant data[0] == previous
      invariant forall j :: 1 <= j < i ==> data[j] == if next + j - 1 < nblocks then next + j - 1 else 0
    {
      data[i] := 0;
      i := i + 1;
    }
  }

  /** setup_freelist: writes the free list of [first, nblocks) and returns its first block. */
  method SetupFreelist(disk: array<Block>, first: nat, nblocks: nat) returns (head: nat)
    requires 0 < first <= nblocks <= disk.Length < WORD_LIMIT
    modifies disk
    ensures head == FreelistHead(first, nblocks)
    ensures forall b :: first <= b < nblocks && (b - first) % 128 == 0 ==>
              IsFreelistBlock(disk[b], first, nblocks, (b - first) / 128)
    ensures forall b :: 0 <= b < first || nblocks <= b < disk.Length ==> disk[b] == old(disk[b])
  {
    var data := new word[128];
    var nextFree := first;
    var freelistBlock := 0;
    ghost var m: nat := 0;
    while nextFree < nblocks
      invariant nextFree == if first + 128 * m <= nblocks then first + 128 * m else nblocks
      invariant m > 0 ==> first + 128 * (m - 1) < nblocks
      invariant freelistBlock == if m == 0 then 0 else first + 128 * (m - 1)
      invariant forall b :: first <= b < nextFree && (b - first) % 128 == 0 ==>
                  IsFreelistBlock(disk[b], first, nblocks, (b - first) / 128)
      invariant forall b :: 0 <= b < first || nblocks <= b < disk.Length ==> disk[b] == old(disk[b])
    {
      var previous := freelistBlock;
      freelistBlock := nextFree;
      nextFree := FillRefs(data, previous, freelistBlock + 1, nblocks);
      disk[freelistBlock] := data[..];
      m := m + 1;
    }
    head := freelistBlock;
  }

  /** The number of inode blocks for ninodes inodes, computed in 32 bits. */
  function InodeBlocksFor(ninodes: nat): nat {
    (ninodes + INODES_PER_BLOCK - 1) % WORD_LIMIT / INODES_PER_BLOCK
  }

  /** How many inodes there are when ninodes have been asked for: these and no more than fill the last inode block, but
      none at all exactly if adding 63 to ninodes overflows 32 bits. */
  function InodesFor(ninodes: nat): (r: nat)
    requires ninodes < 0x1_0000_0000
    ensures r % 64 == 0 && r < ninodes + 64
    ensures r >= ninodes <==> ninodes <= 0x1_0000_0000 - 64
    ensures r == 0 <==> ninodes == 0 || ninodes > 0x1_0000_0000 - 64
  {
    if ninodes <= 0x1_0000_0000 - 64 then (ninodes + 63) / 64 * 64 else 0
  }

  lemma InodeBlocksHold(ninodes: nat)
    requires ninodes < 0x1_0000_0000
    ensures 64 * InodeBlocksFor(ninodes) == InodesFor(ninodes) <= 0x1_0000_0000 - 64
  {
    if ninodes > 0x1_0000_0000 - 64 {
      assert (ninodes + 63) % 0x1_0000_0000 == ninodes + 63 - 0x1_0000_0000;
    }
  }

  /** Inode ino exists on the disk, and its file is empty. */
  predicate EmptyInode(d: seq<Block>, ino: int) {
    HasInode(d, ino) && ino / 64 < d[0][0] && RootOf(d, ino) == 0 && SizeOfFile(d, ino) == 0
  }

  lemma FormattedInodes(d: seq<Block>, ninodes: nat)
    requires ninodes < 0x1_0000_0000 && Formatted(d, InodeBlocksFor(ninodes))
    ensures 64 * d[0][0] == InodesFor(ninodes)
    ensures forall ino {:trigger EmptyInode(d, ino)} :: 0 <= ino < InodesFor(ninodes) ==> EmptyInode(d, ino)
  {
    InodeBlocksHold(ninodes);
    forall ino | 0 <= ino < InodesFor(ninodes)
      ensures EmptyInode(d, ino)
    {
      assert d[1 + ino / 64] == NULL_BLOCK;
    }
  }

  /** treedisk_create: formats a disk of any content unless it is too small or its superblock says it is formatted. */
  method Create(disk: array<Block>, ninodes: nat) returns (r: int)
    requires 0 < disk.Length < WORD_LIMIT && ninodes < WORD_LIMIT
    modifies disk
    ensures r == if disk.Length < InodeBlocksFor(ninodes) + 2 then -1 else 0
    ensures r == -1 || old(disk[0][0]) != 0 ==> disk[..] == old(disk[..])
    ensures r == 0 && old(disk[0][0]) == 0 ==> Formatted(disk[..], InodeBlocksFor(ninodes))
    ensures r == 0 <==> InodesFor(ninodes) <= 64 * (disk.Length - 2)
    ensures r == 0 && old(disk[0][0]) == 0 ==>
              && 64 * disk[0][0] == InodesFor(ninodes)
              && forall ino {:trigger EmptyInode(disk[..], ino)} :: 0 <= ino < InodesFor(ninodes) ==>
                   EmptyInode(disk[..], ino)
  {
    InodeBlocksHold(ninodes);
    var n := InodeBlocksFor(ninodes);
    var nblocks := disk.Length;
    if nblocks < n + 2 {
      return -1;
    }
    var superblock := disk[0];
    if superblock[0] == 0 {
      superblock := NULL_BLOCK[0 := n];
      var head := SetupFreelist(disk, n + 1, nblocks);
      superblock := superblock[1 := head];
      disk[0] := superblock;
      for i := 1 to n + 1
        invariant disk[0] == superblock
        invariant forall b :: 1 <= b < i ==> disk[b] == NULL_BLOCK
        invariant forall b :: n + 1 <= b < nblocks && (b - n - 1) % 128 == 0 ==>
                    IsFreelistBlock(disk[b], n + 1, nblocks, (b - n - 1) / 128)
      {
        disk[i] := NULL_BLOCK;
      }
      FormattedInodes(disk[..], ninodes);
    }
    r := 0;
  }
}
