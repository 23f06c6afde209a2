/** Ownership of blocks, stated on the disk alone: what can be reached from each root and from the free list. */
module TreeDiskOwnership {
  import opened SetSizes
  import opened Wrappers
  import opened TreeDiskLayout
  import opened TreeDiskLevels
  import opened TreeDiskFiles
  import opened FileStore

  /** Block c is in the tree of the given level below reference b. */
  ghost predicate Reaches(d: seq<Block>, b: int, level: nat, c: int)
    decreases level
  {
    0 < b < |d| && (c == b || (level > 0 && exists i :: 0 <= i < 128 && Reaches(d, d[b][i], level - 1, c)))
  }

  ghost function FileBlocks(d: seq<Block>, ino: int): set<int>
    requires HasInode(d, ino)
  {
    set c | 0 <= c < |d| && Reaches(d, RootOf(d, ino), Levels(SizeOfFile(d, ino)), c)
  }

  /** The blocks on the free list that starts at b, following at most `fuel` links. */
  function ListBlocks(d: seq<Block>, b: int, fuel: nat): set<int>
    decreases fuel
  {
    if fuel == 0 || !(0 < b < |d|) then {}
    else {b} + (set i | 1 <= i < 128 && d[b][i] != 0 :: d[b][i]) + ListBlocks(d, d[b][0], fuel - 1)
  }

  function FreeList(d: seq<Block>): set<int>
    requires |d| > 0
  {
    ListBlocks(d, d[0][1], |d|)
  }

  lemma {:induction false} NodeAncestor(d: seq<Block>, l: Layout, ino: int, low: nat, index: nat, k: nat)
    requires Inv(d, l) && 0 <= ino < |l.heights| && low + k <= l.heights[ino] && Node(ino, low, index) in l.at
    ensures Node(ino, low + k, Up(index, k)) in l.at
  {
    if k > 0 {
      NodeAncestor(d, l, ino, low, index, k - 1);
      assert KeyOk(l, InodeBlocks(d), Node(ino, low + (k - 1), Up(index, k - 1)));
    }
  }

  /** Block c plays the role of a node in the subtree of Node(ino, level, index). */
  predicate InSubtree(l: Layout, ino: int, level: nat, index: nat, c: int) {
    && 0 <= c < |l.owner| && l.owner[c].Node? && l.owner[c].ino == ino
    && 0 <= l.owner[c].level <= level && 0 <= l.owner[c].index
    && Up(l.owner[c].index, level - l.owner[c].level) == index
  }

  lemma {:induction false} SubtreeReached(d: seq<Block>, l: Layout, ino: int, level: nat, index: nat, b: int, c: int)
    requires Inv(d, l) && 0 <= ino < |l.heights| && level <= l.heights[ino]
    requires Slot(b, Node(ino, level, index), l.at)
    requires InSubtree(l, ino, level, index, c)
    ensures Reaches(d, b, level, c)
    decreases level
  {
    var o := l.owner[c];
    assert KeyOk(l, InodeBlocks(d), o);
    NodeAncestor(d, l, ino, o.level, o.index, level - o.level);
    assert l.owner[0] == Super;
    if o.level == level {
      assert o == Node(ino, level, index);
    } else {
      var child: nat := Up(o.index, level - 1 - o.level);
      assert child / 128 == index;
      var i := child % 128;
      assert SlotOk(d, l, b, i);
      assert ChildOf(l, l.owner[b], i) == Some(Node(ino, level - 1, child));
      SubtreeReached(d, l, ino, level - 1, child, d[b][i], c);
    }
  }

  lemma {:induction false} ReachedInSubtree(d: seq<Block>, l: Layout, ino: int, level: nat, index: nat, b: int, c: int)
    requires Inv(d, l) && 0 <= ino < |l.heights| && level <= l.heights[ino]
    requires Slot(b, Node(ino, level, index), l.at)
    requires Reaches(d, b, level, c)
    ensures InSubtree(l, ino, level, index, c)
    decreases level
  {
    if c != b {
      var i :| 0 <= i < 128 && Reaches(d, d[b][i], level - 1, c);
      var child: nat := 128 * index + i;
      assert SlotOk(d, l, b, i);
      assert ChildOf(l, l.owner[b], i) == Some(Node(ino, level - 1, child));
      ReachedInSubtree(d, l, ino, level - 1, child, d[b][i], c);
      assert child / 128 == index;
    }
  }

  /** What the tree walk from a file's root reaches is what the layout labels with that file. */
  lemma FileBlocksAre(d: seq<Block>, l: Layout, ino: int, c: int)
    requires Consistent(d, l) && 0 <= ino < |l.heights| && HasInode(d, ino)
    ensures c in FileBlocks(d, ino) <==> 0 <= c < |d| && l.owner[c].Node? && l.owner[c].ino == ino
  {
    assert FileOk(d, l, ino);
    InodesOnDisk(d, l, ino);
    var h := l.heights[ino];
    if c in FileBlocks(d, ino) {
      ReachedInSubtree(d, l, ino, h, 0, RootOf(d, ino), c);
    } else if 0 <= c < |d| && l.owner[c].Node? && l.owner[c].ino == ino {
      var o := l.owner[c];
      assert KeyOk(l, InodeBlocks(d), o);
      NodeAncestor(d, l, ino, o.level, o.index, h - o.level);
      assert KeyOk(l, InodeBlocks(d), Node(ino, h, Up(o.index, h - o.level)));
      SubtreeReached(d, l, ino, h, 0, RootOf(d, ino), c);
    }
  }

  lemma {:induction false} ListBlocksAre(d: seq<Block>, l: Layout, depth: int, b: int, fuel: nat, c: int)
    requires Inv(d, l) && -1 <= depth < l.chain && Slot(b, Chain(depth), l.at) && fuel > depth
    ensures c in ListBlocks(d, b, fuel) <==> 0 <= c < |d| && IsFree(l.owner[c]) && l.owner[c].depth <= depth
    decreases fuel
  {
    assert l.owner[0] == Super;
    if 0 <= c < |d| {
      assert KeyOk(l, InodeBlocks(d), l.owner[c]);
    }
    if depth >= 0 {
      assert Chain(depth) in l.at;
      assert SlotOk(d, l, b, 0);
      ListBlocksAre(d, l, depth - 1, d[b][0], fuel - 1, c);
      SparesAre(d, l, depth, b, c);
    } else {
      assert b == 0 by { ChainBelowZero(d, l); }
    }
  }

  lemma ChainBelowZero(d: seq<Block>, l: Layout)
    requires Inv(d, l)
    ensures Chain(-1) !in l.at
  {
    forall o | o in l.at
      ensures o != Chain(-1)
    {
      assert KeyOk(l, InodeBlocks(d), o);
    }
  }

  lemma SparesAre(d: seq<Block>, l: Layout, depth: int, b: int, c: int)
    requires Inv(d, l) && 0 <= depth < l.chain && 0 <= b < |d| && l.owner[b] == Chain(depth)
    ensures (exists i :: 1 <= i < 128 && d[b][i] != 0 && d[b][i] == c)
            <==> 0 <= c < |d| && l.owner[c].Spare? && l.owner[c].depth == depth
  {
    assert l.owner[0] == Super;
    if i :| 1 <= i < 128 && d[b][i] != 0 && d[b][i] == c {
      assert SlotOk(d, l, b, i);
    }
    if 0 <= c < |d| && l.owner[c].Spare? && l.owner[c].depth == depth {
      assert KeyOk(l, InodeBlocks(d), l.owner[c]);
      assert SlotOk(d, l, b, l.owner[c].slot);
      assert d[b][l.owner[c].slot] == c;
    }
  }

  /** What the superblock's free list reaches is what the layout labels as free. */
  lemma FreeListIs(d: seq<Block>, l: Layout, c: int)
    requires Inv(d, l)
    ensures c in FreeList(d) <==> c in FreeBlocks(l)
  {
    assert SlotOk(d, l, 0, 1);
    ChainShorterThanDisk(d, l);
    ListBlocksAre(d, l, l.chain - 1, d[0][1], |d|, c);
    if 0 <= c < |d| {
      assert KeyOk(l, InodeBlocks(d), l.owner[c]);
    }
  }

  function ChainBlocks(l: Layout, m: nat): (s: set<int>)
    requires forall k :: 0 <= k < m ==> Chain(k) in l.at
  {
    if m == 0 then {} else ChainBlocks(l, m - 1) + {l.at[Chain(m - 1)]}
  }

  lemma {:induction false} ChainBlockIs(d: seq<Block>, l: Layout, m: nat, x: int)
    requires Bijection(d, l) && (forall k :: 0 <= k < m ==> Chain(k) in l.at) && x in ChainBlocks(l, m)
    ensures 0 <= x < |l.owner| && l.owner[x].Chain? && l.owner[x].depth < m
  {
    if x in ChainBlocks(l, m - 1) {
      ChainBlockIs(d, l, m - 1, x);
    } else {
      assert l.owner[l.at[Chain(m - 1)]] == Chain(m - 1);
    }
  }

  lemma ChainBlocksAre(d: seq<Block>, l: Layout, m: nat)
    requires Bijection(d, l) && forall k :: 0 <= k < m ==> Chain(k) in l.at
    ensures forall x :: x in ChainBlocks(l, m) ==> 0 <= x < |l.owner| && l.owner[x].Chain? && l.owner[x].depth < m
  {
    forall x: int {:trigger x in ChainBlocks(l, m)} | x in ChainBlocks(l, m)
      ensures 0 <= x < |l.owner| && l.owner[x].Chain? && l.owner[x].depth < m
    {
      ChainBlockIs(d, l, m, x);
    }
  }

  lemma {:induction false} ChainBlocksSize(d: seq<Block>, l: Layout, m: nat)
    requires Bijection(d, l) && forall k :: 0 <= k < m ==> Chain(k) in l.at
    ensures |ChainBlocks(l, m)| == m
  {
    if m > 0 {
      ChainBlocksSize(d, l, m - 1);
      var x := l.at[Chain(m - 1)];
      assert l.owner[x] == Chain(m - 1);
      assert x !in ChainBlocks(l, m - 1) by {
        ChainBlocksAre(d, l, m - 1);
      }
    }
  }

  lemma ChainShorterThanDisk(d: seq<Block>, l: Layout)
    requires Inv(d, l)
    ensures l.chain < |d|
  {
    ChainBlocksSize(d, l, l.chain);
    ChainBlocksAre(d, l, l.chain);
    assert l.owner[0] == Super;
    AtMost(ChainBlocks(l, l.chain) + {0}, |d|);
  }

  /** Superblock, inode blocks, the trees of the files and the free list are pairwise disjoint and cover the disk. */
  lemma OwnershipPartition(d: seq<Block>, l: Layout, c: int)
    requires Consistent(d, l) && 0 <= c < |d|
    ensures var n := InodeBlocks(d);
            && (c == 0 || 1 <= c <= n || c in FreeList(d) || exists ino :: 0 <= ino < 64 * n && c in FileBlocks(d, ino))
            && (c in FreeList(d) ==> c > n && forall ino :: 0 <= ino < 64 * n ==> c !in FileBlocks(d, ino))
            && (forall ino :: 0 <= ino < 64 * n && c in FileBlocks(d, ino) ==>
                                c > n && forall other :: 0 <= other < 64 * n && c in FileBlocks(d, other) ==>
                                  other == ino)
  {
    var o, n := l.owner[c], InodeBlocks(d);
    assert KeyOk(l, n, o);
    FreeListIs(d, l, c);
    forall ino | 0 <= ino < 64 * n
      ensures c in FileBlocks(d, ino) <==> o.Node? && o.ino == ino
    {
      FileBlocksAre(d, l, ino, c);
    }
    assert o.Node? ==> c in FileBlocks(d, o.ino);
    assert 1 <= c <= n ==> InodeBlock(c - 1) in l.at;
  }

  // ---------------------------------------------------------------- the files on the disk

  /** What the disk alone says is at an offset of the tree below reference b: from each block down, the word that the
      digit of the offset to the base 128 selects, and null wherever a reference is 0. */
  function BlockOnDisk(d: seq<Block>, b: int, level: nat, offset: nat): Option<Block>
    decreases level
  {
    if b == 0 then Some(NULL_BLOCK)
    else if !(0 < b < |d|) then None
    else if level == 0 then Some(d[b])
    else BlockOnDisk(d, d[b][offset / Pow2(7 * (level - 1)) % 128], level - 1, offset)
  }

  lemma {:induction false} TreeOnDisk(d: seq<Block>, l: Layout, ino: int, offset: nat, level: nat, b: int)
    requires Consistent(d, l) && 0 <= ino < |l.heights| && level <= l.heights[ino]
    requires Slot(b, OnPath(ino, offset, level), l.at) && offset < Files(d, l)[ino].size
    ensures BlockOnDisk(d, b, level, offset) == Get(Files(d, l)[ino], offset)
    decreases level
  {
    if b == 0 {
      HoleOnPath(d, l, ino, offset, level);
    } else if level == 0 {
      LeafOnPath(d, l, ino, offset, b);
    } else {
      StepDown(d, l, ino, offset, b, level - 1);
      UpIsDivision(offset, level - 1);
      TreeOnDisk(d, l, ino, offset, level - 1, d[b][Up(offset, level - 1) % 128]);
    }
  }

  /** A file is what its inode says, at word 2 * (ino % 64) of block 1 + ino / 64: its root, and then its size. */
  lemma FileOnDisk(d: seq<Block>, l: Layout, ino: int, offset: nat)
    requires Consistent(d, l) && 0 <= ino < 64 * InodeBlocks(d)
    ensures 1 + ino / 64 < |d| && |Files(d, l)| == 64 * InodeBlocks(d)
    ensures var root, size := d[1 + ino / 64][2 * (ino % 64)], d[1 + ino / 64][2 * (ino % 64) + 1];
            && Files(d, l)[ino].size == size
            && Get(Files(d, l)[ino], offset) == if offset >= size then None
                                                else BlockOnDisk(d, root, Levels(size), offset)
  {
    InodesOnDisk(d, l, ino);
    assert FileOk(d, l, ino);
    if offset < SizeOfFile(d, ino) {
      LeafBelowRoot(offset, SizeOfFile(d, ino));
      TreeOnDisk(d, l, ino, offset, l.heights[ino], RootOf(d, ino));
    }
  }
}
