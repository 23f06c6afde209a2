/** Each block has exactly one parent, stated on the disk alone: on the words that the code follows as references. */
module TreeDiskParents {
  import opened Wrappers
  import opened TreeDiskLayout
  import opened TreeDiskLevels
  import opened TreeDiskFiles
  import opened TreeDiskOwnership

  /** Block c is reached from reference b at a given level of the tree; b itself is at level `level`. */
  ghost predicate ReachesAt(d: seq<Block>, b: int, level: nat, low: nat, c: int)
    decreases level
  {
    && 0 < b < |d| && low <= level
    && if low == level then c == b else exists i :: 0 <= i < 128 && ReachesAt(d, d[b][i], level - 1, low, c)
  }

  /** The blocks that link the free list. */
  function Links(d: seq<Block>, b: int, fuel: nat): set<int>
    decreases fuel
  {
    if fuel == 0 || !(0 < b < |d|) then {} else {b} + Links(d, d[b][0], fuel - 1)
  }

  /** Word i of block b is one that the code follows: the head of the free list, the root of an inode, any word of a
      list block, any word of an indirect block of a file. */
  ghost predicate IsPointer(d: seq<Block>, b: int, i: int)
    requires |d| > 0
  {
    && 0 <= b < |d| && 0 <= i < 128
    && (|| (b == 0 && i == 1)
        || (1 <= b <= InodeBlocks(d) && i % 2 == 0)
        || b in Links(d, d[0][1], |d|)
        || IsIndirect(d, b))
  }

  ghost predicate IsIndirect(d: seq<Block>, b: int)
    requires |d| > 0
  {
    exists ino, low :: 0 <= ino < 64 * InodeBlocks(d) && low > 0 && IsAt(d, ino, low, b)
  }

  /** Block b is at level `low` of file ino. */
  ghost predicate IsAt(d: seq<Block>, ino: int, low: nat, b: int) {
    HasInode(d, ino) && ReachesAt(d, RootOf(d, ino), Levels(SizeOfFile(d, ino)), low, b)
  }

  lemma {:induction false} ReachedAtLevel(d: seq<Block>, l: Layout, ino: int, level: nat, index: nat, b: int, low: nat,
                                          c: int)
    requires Inv(d, l) && 0 <= ino < |l.heights| && level <= l.heights[ino]
    requires Slot(b, Node(ino, level, index), l.at)
    requires ReachesAt(d, b, level, low, c)
    ensures 0 <= c < |d| && l.owner[c].Node? && l.owner[c].ino == ino && l.owner[c].level == low
    decreases level
  {
    if low < level {
      var i :| 0 <= i < 128 && ReachesAt(d, d[b][i], level - 1, low, c);
      var child: nat := 128 * index + i;
      assert SlotOk(d, l, b, i);
      assert ChildOf(l, l.owner[b], i) == Some(Node(ino, level - 1, child));
      ReachedAtLevel(d, l, ino, level - 1, child, d[b][i], low, c);
    }
  }

  lemma {:induction false} LevelReached(d: seq<Block>, l: Layout, ino: int, level: nat, index: nat, b: int, c: int)
    requires Inv(d, l) && 0 <= ino < |l.heights| && level <= l.heights[ino]
    requires Slot(b, Node(ino, level, index), l.at)
    requires InSubtree(l, ino, level, index, c)
    ensures ReachesAt(d, b, level, l.owner[c].level, c)
    decreases level
  {
    var o := l.owner[c];
    assert KeyOk(l, InodeBlocks(d), o);
    NodeAncestor(d, l, ino, o.level, o.index, level - o.level);
    assert l.owner[0] == Super;
    if o.level == level {
      assert o == Node(ino, level, index);
    } else {
      var child: nat := Up(o.index, level - 1 - o.level);
      assert child / 128 == index;
      var i := child % 128;
      assert SlotOk(d, l, b, i);
      assert ChildOf(l, l.owner[b], i) == Some(Node(ino, level - 1, child));
      LevelReached(d, l, ino, level - 1, child, d[b][i], c);
    }
  }

  /** The levels found by walking the trees on disk are those of the layout. */
  lemma IsAtIs(d: seq<Block>, l: Layout, ino: int, low: nat, c: int)
    requires Consistent(d, l) && 0 <= ino < |l.heights|
    ensures IsAt(d, ino, low, c)
            <==> 0 <= c < |d| && l.owner[c].Node? && l.owner[c].ino == ino && l.owner[c].level == low
  {
    assert FileOk(d, l, ino);
    InodesOnDisk(d, l, ino);
    var h := l.heights[ino];
    if IsAt(d, ino, low, c) {
      ReachedAtLevel(d, l, ino, h, 0, RootOf(d, ino), low, c);
    } else if 0 <= c < |d| && l.owner[c].Node? && l.owner[c].ino == ino && l.owner[c].level == low {
      var o := l.owner[c];
      assert KeyOk(l, InodeBlocks(d), o);
      NodeAncestor(d, l, ino, o.level, o.index, h - o.level);
      assert KeyOk(l, InodeBlocks(d), Node(ino, h, Up(o.index, h - o.level)));
      LevelReached(d, l, ino, h, 0, RootOf(d, ino), c);
    }
  }

  lemma {:induction false} LinksAre(d: seq<Block>, l: Layout, depth: int, b: int, fuel: nat, c: int)
    requires Inv(d, l) && -1 <= depth < l.chain && Slot(b, Chain(depth), l.at) && fuel > depth
    ensures c in Links(d, b, fuel) <==> 0 <= c < |d| && l.owner[c].Chain? && l.owner[c].depth <= depth
    decreases fuel
  {
    assert l.owner[0] == Super;
    if 0 <= c < |d| {
      assert KeyOk(l, InodeBlocks(d), l.owner[c]);
    }
    if depth >= 0 {
      assert Chain(depth) in l.at;
      assert SlotOk(d, l, b, 0);
      LinksAre(d, l, depth - 1, d[b][0], fuel - 1, c);
    } else {
      assert b == 0 by { ChainBelowZero(d, l); }
    }
  }

  /** The words that the code follows are the references of the layout. */
  lemma PointersAre(d: seq<Block>, l: Layout, b: int, i: int)
    requires Consistent(d, l)
    ensures IsPointer(d, b, i) <==> IsReference(l, b, i)
  {
    if 0 <= b < |d| && 0 <= i < 128 {
      assert KeyOk(l, InodeBlocks(d), l.owner[b]);
      assert l.owner[0] == Super;
      assert SlotOk(d, l, 0, 1);
      ChainShorterThanDisk(d, l);
      LinksAre(d, l, l.chain - 1, d[0][1], |d|, b);
      IndirectIs(d, l, b);
      assert 1 <= b <= InodeBlocks(d) ==> InodeBlock(b - 1) in l.at;
    }
  }

  lemma IndirectIs(d: seq<Block>, l: Layout, b: int)
    requires Consistent(d, l) && 0 <= b < |d|
    ensures IsIndirect(d, b) <==> l.owner[b].Node? && l.owner[b].level > 0
  {
    assert KeyOk(l, InodeBlocks(d), l.owner[b]);
    if IsIndirect(d, b) {
      var ino, low :| 0 <= ino < 64 * InodeBlocks(d) && low > 0 && IsAt(d, ino, low, b);
      IsAtIs(d, l, ino, low, b);
    }
    if l.owner[b].Node? && l.owner[b].level > 0 {
      IsAtIs(d, l, l.owner[b].ino, l.owner[b].level, b);
    }
  }

  /** Two of these words that hold the same block number are the same word: no block has two parents, not even in one
      file. */
  lemma OneParent(d: seq<Block>, l: Layout, b: int, i: int, b': int, i': int)
    requires Consistent(d, l) && IsPointer(d, b, i) && IsPointer(d, b', i') && d[b][i] == d[b'][i'] != 0
    ensures b == b' && i == i'
  {
    PointersAre(d, l, b, i);
    PointersAre(d, l, b', i');
    OneReference(d, l, b, i, b', i');
  }

  /** And every block of a file or of the free list has one. */
  lemma HasParent(d: seq<Block>, l: Layout, c: int) returns (b: int, i: int)
    requires Consistent(d, l)
    requires c in FreeList(d)
             || exists ino :: 0 <= ino < 64 * InodeBlocks(d) && HasInode(d, ino) && c in FileBlocks(d, ino)
    ensures IsPointer(d, b, i) && d[b][i] == c != 0
  {
    FreeListIs(d, l, c);
    if c !in FreeList(d) {
      var ino :| 0 <= ino < 64 * InodeBlocks(d) && HasInode(d, ino) && c in FileBlocks(d, ino);
      FileBlocksAre(d, l, ino, c);
    }
    b, i := HasReference(d, l, c);
    PointersAre(d, l, b, i);
  }
}
