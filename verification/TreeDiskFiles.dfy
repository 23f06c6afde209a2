/**
 What a consistent disk means: the files it holds, which blocks a walk from the root to a leaf passes through, and
 how the layout lemmas act on both.
 */
module TreeDiskFiles {
  import opened Wrappers
  import opened TreeDiskLayout
  import opened TreeDiskLevels
  import opened FileStore

  /** The position, at the given level, of the ancestor of leaf `offset`. */
  function OnPath(ino: int, offset: nat, level: nat): Owner {
    Node(ino, level, Up(offset, level))
  }

  predicate HasInode(d: seq<Block>, ino: int) {
    0 <= ino && |d| > 0 && 1 + ino / 64 < |d|
  }

  function RootOf(d: seq<Block>, ino: int): int
    requires HasInode(d, ino)
  {
    d[1 + ino / 64][2 * (ino % 64)]
  }

  function SizeOfFile(d: seq<Block>, ino: int): nat
    requires HasInode(d, ino)
  {
    d[1 + ino / 64][2 * (ino % 64) + 1]
  }

  lemma InodesOnDisk(d: seq<Block>, l: Layout, ino: int)
    requires Inv(d, l) && 0 <= ino < |l.heights|
    ensures HasInode(d, ino) && l.owner[1 + ino / 64] == InodeBlock(ino / 64)
    ensures Slot(RootOf(d, ino), Node(ino, l.heights[ino], 0), l.at)
  {
    assert InodeBlock(ino / 64) in l.at;
    assert SlotOk(d, l, 1 + ino / 64, 2 * (ino % 64));
  }

  /** An ancestor of a leaf that is present is present too. */
  lemma {:induction false} AncestorsPresent(d: seq<Block>, l: Layout, ino: int, offset: nat, low: nat, high: nat)
    requires Inv(d, l) && 0 <= ino < |l.heights| && low <= high <= l.heights[ino]
    requires OnPath(ino, offset, low) in l.at
    ensures OnPath(ino, offset, high) in l.at
    ensures Up(offset, l.heights[ino]) == 0
    decreases l.heights[ino] - low
  {
    assert KeyOk(l, InodeBlocks(d), OnPath(ino, offset, low));
    if low < l.heights[ino] {
      assert OnPath(ino, offset, low + 1) in l.at;
      AncestorsPresent(d, l, ino, offset, low + 1, if high > low then high else low + 1);
    }
  }

  /** The blocks of the files: one for each leaf that is present. */
  function Contents(d: seq<Block>, l: Layout): map<Owner, Block>
    requires Bijection(d, l)
  {
    map o | o in l.at && o.Node? && o.level == 0 :: d[l.at[o]]
  }

  function Offsets(l: Layout, ino: int): set<int> {
    set o | o in l.at && o.Node? && o.ino == ino && o.level == 0 :: o.index
  }

  function FileOf(d: seq<Block>, l: Layout, ino: int): File
    requires Bijection(d, l) && HasInode(d, ino)
  {
    File(SizeOfFile(d, ino), map off | off in Offsets(l, ino) :: Contents(d, l)[Node(ino, 0, off)])
  }

  function Files(d: seq<Block>, l: Layout): (r: seq<File>)
    requires Inv(d, l)
    ensures |r| == |l.heights|
  {
    seq(|l.heights|, ino requires 0 <= ino < |l.heights| => FileOf(d, l, ino))
  }

  /** The state between operations: trees are exactly as tall as the sizes ask for, and a file ends at a written
      block. */
  ghost predicate Consistent(d: seq<Block>, l: Layout) {
    && Inv(d, l)
    && Loose !in l.at
    && (forall ino :: 0 <= ino < |l.heights| ==> FileOk(d, l, ino))
  }

  ghost predicate FileOk(d: seq<Block>, l: Layout, ino: int)
    requires 0 <= ino < |l.heights|
  {
    && HasInode(d, ino)
    && l.heights[ino] == Levels(SizeOfFile(d, ino))
    && (forall off: int :: Node(ino, 0, off) in l.at ==> off < SizeOfFile(d, ino))
    && (SizeOfFile(d, ino) > 0 ==> Node(ino, 0, SizeOfFile(d, ino) - 1) in l.at)
  }

  // ---------------------------------------------------------------- the free list

  predicate IsFree(o: Owner) {
    o.Chain? || o.Spare?
  }

  function FreeBlocks(l: Layout): set<int> {
    set b | 0 <= b < |l.owner| && IsFree(l.owner[b])
  }

  /** The free list is empty exactly when the superblock's reference to it is 0. */
  lemma EmptyFreeList(d: seq<Block>, l: Layout)
    requires Inv(d, l)
    ensures d[0][1] == 0 <==> l.chain == 0
    ensures d[0][1] == 0 <==> FreeBlocks(l) == {}
    ensures d[0][1] != 0 ==> Chain(l.chain - 1) in l.at && l.at[Chain(l.chain - 1)] == d[0][1]
  {
    assert SlotOk(d, l, 0, 1);
    if l.chain > 0 {
      assert Chain(l.chain - 1) in l.at;
      assert l.at[Chain(l.chain - 1)] in FreeBlocks(l);
      assert l.at[Chain(l.chain - 1)] != 0;
    } else {
      forall o | o in l.at
        ensures o != Chain(-1)
      {
        assert KeyOk(l, InodeBlocks(d), o);
      }
      forall b | 0 <= b < |d|
        ensures b !in FreeBlocks(l)
      {
        assert KeyOk(l, InodeBlocks(d), l.owner[b]);
      }
    }
  }

  /** One allocation: block x leaves the free list and becomes loose, and no inode or tree is touched. */
  ghost predicate Took(d: seq<Block>, l: Layout, d': seq<Block>, l': Layout, x: int) {
    && Inv(d, l) && Inv(d', l') && |d'| == |d|
    && Loose in l'.at && l'.at[Loose] == x
    && x in FreeBlocks(l) && FreeBlocks(l') == FreeBlocks(l) - {x}
    && l'.heights == l.heights
    && (forall o: Owner :: o.Node? || o.InodeBlock? ==> (o in l'.at <==> o in l.at))
    && (forall o: Owner :: (o.Node? || o.InodeBlock?) && o in l.at ==> l'.at[o] == l.at[o])
    && (forall b :: 0 <= b < |d| && (l.owner[b].Node? || l.owner[b].InodeBlock?) ==>
        d'[b] == d[b] && l'.owner[b] == l.owner[b])
  }

  lemma TookSpare(d: seq<Block>, l: Layout, b: int, i: int)
    requires Inv(d, l) && Loose !in l.at
    requires 0 <= b < |d| && l.owner[b].Chain? && 1 <= i < 128 && d[b][i] != 0
    ensures Spare(l.owner[b].depth, i) in l.at
    ensures Took(d, l, d[b := d[b][i := 0]], Relabel(l, Spare(l.owner[b].depth, i), Loose), d[b][i])
  {
    TakeSpare(d, l, b, i);
  }

  lemma TookChain(d: seq<Block>, l: Layout)
    requires Inv(d, l) && Loose !in l.at && l.chain > 0
    requires Chain(l.chain - 1) in l.at && NoSpares(d[l.at[Chain(l.chain - 1)]])
    ensures d[0][1] == l.at[Chain(l.chain - 1)]
    ensures Took(d, l, d[0 := d[0][1 := d[d[0][1]][0]]], Popped(l), d[0][1])
  {
    PopChain(d, l);
  }

  lemma TookLoose(d: seq<Block>, l: Layout, d': seq<Block>, l': Layout, x: int)
    requires Took(d, l, d', l', x)
    ensures Loose in l'.at && 0 <= l'.at[Loose] == x < |l'.owner| == |d'| && l'.heights == l.heights
  {
  }

  lemma SuperFirst(d: seq<Block>, l: Layout)
    requires Inv(d, l)
    ensures |l.owner| == |d| > 0 && l.owner[0] == Super
  {
  }

  lemma TookKeeps(d: seq<Block>, l: Layout, d': seq<Block>, l': Layout, x: int)
    requires Took(d, l, d', l', x)
    ensures Contents(d', l') == Contents(d, l)
    ensures SameSizes(d, d')
    ensures |FreeBlocks(l')| == |FreeBlocks(l)| - 1
  {
    forall ino | 0 <= ino < |l.heights|
      ensures HasInode(d, ino) && HasInode(d', ino) && SizeOfFile(d', ino) == SizeOfFile(d, ino)
    {
      InodesOnDisk(d, l, ino);
    }
  }

  ghost predicate SameSizes(d: seq<Block>, d': seq<Block>) {
    && |d| == |d'| && |d| > 0
    && InodeBlocks(d') == InodeBlocks(d)
    && forall ino :: 0 <= ino < 64 * InodeBlocks(d) ==>
                       HasInode(d, ino) && HasInode(d', ino) && SizeOfFile(d', ino) == SizeOfFile(d, ino)
  }

  /** The last slot of a list block, among the first i, that refers to a free block, or 0. */
  function LastSlot(block: Block, i: nat): (r: nat)
    requires i < 128
    ensures r <= i && (r > 0 ==> block[r] != 0) && forall k :: r < k <= i ==> block[k] == 0
  {
    if i == 0 || block[i] != 0 then i else LastSlot(block, i - 1)
  }

  /** What an allocation gives out, and the disk after it. */
  function AllocOn(d: seq<Block>): (r: (Option<int>, seq<Block>))
    requires |d| > 0
    ensures |r.1| == |d|
  {
    var b := d[0][1];
    if b == 0 || b >= |d| then (None, d)
    else
      var i := LastSlot(d[b], 127);
      if i == 0 then (Some(b), d[0 := d[0][1 := d[b][0]]]) else (Some(d[b][i]), d[b := d[b][i := 0]])
  }

  // ---------------------------------------------------------------- paths

  /** How many of the nodes on the path to `offset` at levels 0..level are missing. */
  function Missing(l: Layout, ino: int, offset: nat, level: int): nat
    decreases level + 1
  {
    if level < 0 then 0
    else (if OnPath(ino, offset, level) in l.at then 0 else 1) + Missing(l, ino, offset, level - 1)
  }

  lemma {:induction false} MissingFrame(l: Layout, l': Layout, ino: int, offset: nat, level: int)
    requires forall k: nat :: k <= level ==> (OnPath(ino, offset, k) in l'.at <==> OnPath(ino, offset, k) in l.at)
    ensures Missing(l', ino, offset, level) == Missing(l, ino, offset, level)
    decreases level + 1
  {
    if level >= 0 {
      MissingFrame(l, l', ino, offset, level - 1);
    }
  }

  lemma {:induction false} AllMissing(l: Layout, ino: int, offset: nat, level: int)
    requires forall k: nat :: k <= level ==> OnPath(ino, offset, k) !in l.at
    ensures level >= -1 ==> Missing(l, ino, offset, level) == level + 1
    decreases level + 1
  {
    if level >= 0 {
      AllMissing(l, ino, offset, level - 1);
    }
  }

  lemma {:induction false} MissingBound(l: Layout, ino: int, offset: nat, level: int)
    ensures level >= -1 ==> Missing(l, ino, offset, level) <= level + 1
    decreases level + 1
  {
    if level >= 0 {
      MissingBound(l, ino, offset, level - 1);
    }
  }

  /** How many blocks a write at `offset` allocates. */
  function Need(d: seq<Block>, l: Layout, ino: int, offset: nat): nat
    requires 0 <= ino < |l.heights| && HasInode(d, ino)
  {
    var before := l.heights[ino];
    var after := if offset >= SizeOfFile(d, ino) then LevelsTo(offset) else before;
    if after > before then (after - before) + after else Missing(l, ino, offset, before)
  }

  /** A write that adds no level allocates at most one block per level, plus the root only for an empty file. */
  lemma NeedBound(d: seq<Block>, l: Layout, ino: int, offset: nat)
    requires Consistent(d, l) && 0 <= ino < |l.heights| && HasInode(d, ino)
    requires Levels(offset + 1) <= l.heights[ino]
    ensures SizeOfFile(d, ino) > 0 ==> Need(d, l, ino, offset) <= l.heights[ino]
    ensures SizeOfFile(d, ino) == 0 ==> Need(d, l, ino, offset) == 1
  {
    assert FileOk(d, l, ino);
    var h: int := l.heights[ino];
    LevelsToIsLeast(offset, h);
    assert LevelsTo(offset) == Levels(offset + 1);
    if SizeOfFile(d, ino) > 0 {
      var last: nat := SizeOfFile(d, ino) - 1;
      AncestorsPresent(d, l, ino, last, 0, h);
      assert OnPath(ino, offset, h) == OnPath(ino, last, h);
      MissingBound(l, ino, offset, h - 1);
    } else {
      assert h == 0;
      assert OnPath(ino, offset, 0) == Node(ino, 0, offset);
      assert Missing(l, ino, offset, -1) == 0;
    }
  }

  /** No write needs more than ten blocks: five new levels and a path below them. */
  lemma NeedAtMostTen(d: seq<Block>, l: Layout, ino: int, offset: nat)
    requires Consistent(d, l) && 0 <= ino < |l.heights| && HasInode(d, ino) && offset < WORD_LIMIT
    ensures Need(d, l, ino, offset) <= 10
  {
    assert FileOk(d, l, ino);
    LevelsBound(offset);
    if SizeOfFile(d, ino) > 0 {
      LevelsBound(SizeOfFile(d, ino) - 1);
    }
    MissingBound(l, ino, offset, l.heights[ino]);
  }

  /** If the tree is too low for a leaf, no node on the path to that leaf is present. */
  lemma PathAbsent(d: seq<Block>, l: Layout, ino: int, offset: nat)
    requires Inv(d, l) && 0 <= ino < |l.heights| && Up(offset, l.heights[ino]) != 0
    ensures forall k: nat :: OnPath(ino, offset, k) !in l.at
  {
    forall k: nat | OnPath(ino, offset, k) in l.at
      ensures false
    {
      assert KeyOk(l, InodeBlocks(d), OnPath(ino, offset, k));
      AncestorsPresent(d, l, ino, offset, k, k);
    }
  }

  // ---------------------------------------------------------------- writes

  /** Changing only the size word of an inode. */
  lemma SetSize(d: seq<Block>, l: Layout, ino: int, n: word)
    requires Inv(d, l) && 0 <= ino < |l.heights|
    ensures HasInode(d, ino)
    ensures var ib, j := 1 + ino / 64, 2 * (ino % 64) + 1;
            var d' := d[ib := d[ib][j := n]];
            && Inv(d', l) && Contents(d', l) == Contents(d, l)
            && forall i :: 0 <= i < |l.heights| ==>
                             HasInode(d, i) && HasInode(d', i) && SizeOfFile(d', i) == if i == ino then n
                               else SizeOfFile(d, i)
  {
    InodesOnDisk(d, l, ino);
    var ib, j := 1 + ino / 64, 2 * (ino % 64) + 1;
    var d' := d[ib := d[ib][j := n]];
    assert l.owner[0] == Super;
    forall c, i | 0 <= c < |d'| && 0 <= i < 128
      ensures SlotOk(d', l, c, i)
    {
      assert SlotOk(d, l, c, i);
    }
    forall i | 0 <= i < |l.heights|
      ensures HasInode(d, i) && HasInode(d', i) && SizeOfFile(d', i) == if i == ino then n else SizeOfFile(d, i)
    {
      InodesOnDisk(d, l, i);
    }
    forall o | o in l.at && o.Node? && o.level == 0
      ensures d'[l.at[o]] == d[l.at[o]]
    {
    }
  }

  lemma AttachSizes(d: seq<Block>, l: Layout, p: int, i: int, o: Owner, x: int, content: Block)
    requires Inv(d, l) && Loose in l.at && x == l.at[Loose]
    requires 0 <= p < |d| && 0 <= i < 128 && o.Node?
    requires ChildOf(l, l.owner[p], i) == Some(o) && d[p][i] == 0
    requires o.level > 0 ==> content == NULL_BLOCK
    ensures SameSizes(d, AttachedDisk(d, p, i, x, content))
  {
    Attach(d, l, p, i, o, x, content);
    var d' := AttachedDisk(d, p, i, x, content);
    forall ino | 0 <= ino < |l.heights|
      ensures SizeOfFile(d', ino) == SizeOfFile(d, ino)
    {
      InodesOnDisk(d, l, ino);
    }
  }

  lemma AttachContents(d: seq<Block>, l: Layout, p: int, i: int, o: Owner, x: int, content: Block)
    requires Inv(d, l) && Loose in l.at && x == l.at[Loose]
    requires 0 <= p < |d| && 0 <= i < 128 && o.Node?
    requires ChildOf(l, l.owner[p], i) == Some(o) && d[p][i] == 0
    requires o.level > 0 ==> content == NULL_BLOCK
    ensures Inv(AttachedDisk(d, p, i, x, content), Relabel(l, Loose, o))
    ensures Contents(AttachedDisk(d, p, i, x, content), Relabel(l, Loose, o))
            == if o.level > 0 then Contents(d, l) else Contents(d, l)[o := content]
  {
    Attach(d, l, p, i, o, x, content);
  }

  /** Placing a loose block adds exactly its own node; only a leaf changes what the files hold. */
  lemma AttachKeeps(d: seq<Block>, l: Layout, p: int, i: int, o: Owner, x: int, content: Block)
    requires Inv(d, l) && Loose in l.at && x == l.at[Loose]
    requires 0 <= p < |d| && 0 <= i < 128 && o.Node?
    requires ChildOf(l, l.owner[p], i) == Some(o) && d[p][i] == 0
    requires o.level > 0 ==> content == NULL_BLOCK
    ensures var d', l' := AttachedDisk(d, p, i, x, content), Relabel(l, Loose, o);
            && Inv(d', l') && x != p && o !in l.at && Loose !in l'.at
            && FreeBlocks(l') == FreeBlocks(l)
            && SameSizes(d, d')
            && Contents(d', l') == if o.level > 0 then Contents(d, l) else Contents(d, l)[o := content]
  {
    Attach(d, l, p, i, o, x, content);
    AttachSizes(d, l, p, i, o, x, content);
    AttachContents(d, l, p, i, o, x, content);
  }

  lemma GrowKeeps(d: seq<Block>, l: Layout, ino: int, x: int, ib: int, j: int)
    requires Inv(d, l) && Loose in l.at && x == l.at[Loose] && 0 <= ino < |l.heights|
    requires ib == 1 + ino / 64 && j == 2 * (ino % 64)
    ensures ib < |d| && x != ib && Node(ino, l.heights[ino] + 1, 0) !in l.at
    ensures var d', l' := GrownDisk(d, ib, j, x), Grown(l, ino);
            && Inv(d', l') && Loose !in l'.at
            && FreeBlocks(l') == FreeBlocks(l)
            && SameSizes(d, d')
            && Contents(d', l') == Contents(d, l)
            && NodesPlus(l, l', Node(ino, l.heights[ino] + 1, 0))
  {
    Grow(d, l, ino, x, ib, j);
    var d', l' := GrownDisk(d, ib, j, x), Grown(l, ino);
    forall i | 0 <= i < |l.heights|
      ensures SizeOfFile(d', i) == SizeOfFile(d, i)
    {
      InodesOnDisk(d, l, i);
    }
  }

  /** The trees have gained exactly the node o. */
  ghost predicate NodesPlus(l: Layout, l': Layout, o: Owner) {
    o !in l.at && forall k: Owner :: k.Node? ==> (k in l'.at <==> k in l.at || k == o)
  }

  /** The path to `offset` after one more of its nodes has been placed. */
  lemma MissingAfterAttach(l: Layout, l': Layout, ino: int, offset: nat, level: nat)
    requires NodesPlus(l, l', OnPath(ino, offset, level))
    ensures Missing(l, ino, offset, level) == 1 + Missing(l', ino, offset, level - 1)
  {
    MissingFrame(l, l', ino, offset, level - 1);
  }

  /** One block has moved from the free list to the trees, as node o. */
  ghost predicate Added(d: seq<Block>, l: Layout, d': seq<Block>, l': Layout, o: Owner) {
    && Inv(d', l') && Loose !in l'.at
    && |FreeBlocks(l')| == |FreeBlocks(l)| - 1
    && SameSizes(d, d')
    && NodesPlus(l, l', o)
  }

  lemma AddedRoot(d: seq<Block>, l: Layout, d1: seq<Block>, l1: Layout, ino: int, x: int, ib: int, j: int)
    requires Took(d, l, d1, l1, x) && 0 <= ino < |l.heights|
    requires ib == 1 + ino / 64 && j == 2 * (ino % 64)
    ensures ib < |d|
    ensures Added(d, l, GrownDisk(d1, ib, j, x), Grown(l1, ino), Node(ino, l.heights[ino] + 1, 0))
    ensures Contents(GrownDisk(d1, ib, j, x), Grown(l1, ino)) == Contents(d, l)
    ensures Grown(l1, ino).heights == l.heights[ino := l.heights[ino] + 1]
  {
    hide Inv, Contents, FreeBlocks, GrownDisk;
    TookKeeps(d, l, d1, l1, x);
    GrowKeeps(d1, l1, ino, x, ib, j);
  }

  lemma AddedNode(d: seq<Block>, l: Layout, d1: seq<Block>, l1: Layout, p: int, i: int, o: Owner, x: int,
                  content: Block)
    requires Took(d, l, d1, l1, x) && o.Node?
    requires 0 <= p < |d| && 0 <= i < 128 && (l.owner[p].Node? || l.owner[p].InodeBlock?)
    requires ChildOf(l, l.owner[p], i) == Some(o) && d[p][i] == 0
    requires o.level > 0 ==> content == NULL_BLOCK
    ensures x != p
    ensures Added(d, l, AttachedDisk(d1, p, i, x, content), Relabel(l1, Loose, o), o)
    ensures Contents(AttachedDisk(d1, p, i, x, content), Relabel(l1, Loose, o))
            == if o.level > 0 then Contents(d, l) else Contents(d, l)[o := content]
  {
    hide Inv, Contents, FreeBlocks;
    TookKeeps(d, l, d1, l1, x);
    AttachKeeps(d1, l1, p, i, o, x, content);
  }

  /** Overwriting a leaf. */
  lemma WriteLeaf(d: seq<Block>, l: Layout, b: int, content: Block)
    requires Inv(d, l) && 0 <= b < |d| && l.owner[b].Node? && l.owner[b].level == 0
    ensures Inv(d[b := content], l)
    ensures SameSizes(d, d[b := content])
    ensures Contents(d[b := content], l) == Contents(d, l)[l.owner[b] := content]
  {
    var d' := d[b := content];
    assert l.owner[0] == Super;
    forall c, i | 0 <= c < |d'| && 0 <= i < 128
      ensures SlotOk(d', l, c, i)
    {
      assert SlotOk(d, l, c, i);
    }
    forall ino | 0 <= ino < |l.heights|
      ensures SizeOfFile(d', ino) == SizeOfFile(d, ino)
    {
      InodesOnDisk(d, l, ino);
    }
  }

  lemma SameSizesTrans(d: seq<Block>, d': seq<Block>, d'': seq<Block>)
    requires SameSizes(d, d') && SameSizes(d', d'')
    ensures SameSizes(d, d'')
  {
  }

  /** Part of the way down to leaf `offset`: word i of block p is the place of the path's node at `level`, and since
      (d0, l0), when the walk began at level `top`, only missing nodes of the path have been added. */
  ghost predicate OnTheWay(d0: seq<Block>, l0: Layout, d: seq<Block>, l: Layout,
                           ino: int, offset: nat, top: nat, p: int, i: int, level: nat)
  {
    && Inv(d0, l0) && Inv(d, l) && Loose !in l.at
    && l.heights == l0.heights
    && 0 <= p < |d| && 0 <= i < 128 && (l.owner[p].Node? || l.owner[p].InodeBlock?)
    && ChildOf(l, l.owner[p], i) == Some(OnPath(ino, offset, level))
    && SameSizes(d0, d)
    && Contents(d, l) == Contents(d0, l0)
    && |FreeBlocks(l)| - Missing(l, ino, offset, level) == |FreeBlocks(l0)| - Missing(l0, ino, offset, top)
  }

  /** The leaf is in place, in block b, but its content has yet to be written. */
  ghost predicate Arrived(d0: seq<Block>, l0: Layout, d: seq<Block>, l: Layout, ino: int, offset: nat, top: nat,
                          b: int) {
    && Inv(d0, l0) && Inv(d, l) && Loose !in l.at
    && l.heights == l0.heights
    && 0 <= b < |d| && l.owner[b] == OnPath(ino, offset, 0)
    && SameSizes(d0, d)
    && Contents(d, l) == Contents(d0, l0)[OnPath(ino, offset, 0) := d[b]]
    && |FreeBlocks(l)| == |FreeBlocks(l0)| - Missing(l0, ino, offset, top)
  }

  lemma WalkExisting(d0: seq<Block>, l0: Layout, d: seq<Block>, l: Layout,
                     ino: int, offset: nat, top: nat, p: int, i: int, level: nat)
    requires OnTheWay(d0, l0, d, l, ino, offset, top, p, i, level) && d[p][i] != 0
    ensures 0 < d[p][i] < |d|
    ensures level > 0 ==> OnTheWay(d0, l0, d, l, ino, offset, top, d[p][i], Up(offset, level - 1) % 128, level - 1)
    ensures level == 0 ==> Arrived(d0, l0, d, l, ino, offset, top, d[p][i])
  {
    assert SlotOk(d, l, p, i);
    if level > 0 {
      StepDown(d, l, ino, offset, d[p][i], level - 1);
    }
  }

  lemma WalkAdded(d0: seq<Block>, l0: Layout, d: seq<Block>, l: Layout, d': seq<Block>, l': Layout,
                  ino: int, offset: nat, top: nat, p: int, i: int, level: nat, b: int)
    requires OnTheWay(d0, l0, d, l, ino, offset, top, p, i, level)
    requires Added(d, l, d', l', OnPath(ino, offset, level)) && l'.heights == l.heights
    requires 0 < b < |d'| && l'.owner[b] == OnPath(ino, offset, level)
    requires Contents(d', l') == if level > 0 then Contents(d, l)
             else Contents(d, l)[OnPath(ino, offset, level) := d'[b]]
    ensures level > 0 ==> OnTheWay(d0, l0, d', l', ino, offset, top, b, Up(offset, level - 1) % 128, level - 1)
    ensures level == 0 ==> Arrived(d0, l0, d', l', ino, offset, top, b)
  {
    MissingAfterAttach(l, l', ino, offset, level);
    SameSizesTrans(d0, d, d');
    if level > 0 {
      StepDown(d', l', ino, offset, b, level - 1);
    }
  }

  lemma WriteArrived(d0: seq<Block>, l0: Layout, d: seq<Block>, l: Layout, ino: int, offset: nat, top: nat, b: int,
                     content: Block)
    requires Arrived(d0, l0, d, l, ino, offset, top, b)
    ensures var d' := d[b := content];
            && Inv(d', l) && SameSizes(d0, d') && Contents(d', l) == Contents(d0, l0)[Node(ino, 0, offset) := content]
  {
    WriteLeaf(d, l, b, content);
    SameSizesTrans(d0, d, d[b := content]);
  }

  /** The size of every file after a write at `offset` of file ino. */
  ghost predicate SizesAfter(d: seq<Block>, d': seq<Block>, ino: int, offset: nat) {
    && |d| == |d'| && |d| > 0
    && InodeBlocks(d') == InodeBlocks(d)
    && forall i :: 0 <= i < 64 * InodeBlocks(d) ==>
                     && HasInode(d, i) && HasInode(d', i)
                     && SizeOfFile(d', i) == if i == ino && offset >= SizeOfFile(d, i) then offset + 1
                        else SizeOfFile(d, i)
  }

  function HeightAfter(d: seq<Block>, l: Layout, ino: int, offset: nat): nat
    requires 0 <= ino < |l.heights| && HasInode(d, ino)
  {
    if offset >= SizeOfFile(d, ino) then LevelsTo(offset) else l.heights[ino]
  }

  lemma SizesAfterSame(d: seq<Block>, d': seq<Block>, d'': seq<Block>, ino: int, offset: nat)
    requires SizesAfter(d, d', ino, offset) && SameSizes(d', d'')
    ensures SizesAfter(d, d'', ino, offset)
  {
  }

  /** How many blocks a write at `offset` spends on new levels. */
  function Growth(d: seq<Block>, l: Layout, ino: int, offset: nat): int
    requires 0 <= ino < |l.heights| && HasInode(d, ino)
  {
    HeightAfter(d, l, ino, offset) - l.heights[ino]
  }

  /** The tree after a write reaches the leaf, and is never lower than before. */
  lemma HeightAfterFits(d: seq<Block>, l: Layout, ino: int, offset: nat)
    requires Consistent(d, l) && 0 <= ino < |l.heights| && HasInode(d, ino)
    ensures Up(offset, HeightAfter(d, l, ino, offset)) == 0
    ensures Growth(d, l, ino, offset) >= 0
  {
    assert FileOk(d, l, ino);
    if offset >= SizeOfFile(d, ino) {
      LevelsToIsLeast(offset, LevelsTo(offset));
      LevelsMonotone(SizeOfFile(d, ino), offset + 1);
    } else {
      LeafBelowRoot(offset, SizeOfFile(d, ino));
    }
  }

  /** With the new levels in place, what a write still has to allocate is what is missing on the path. */
  lemma NeedSplits(d: seq<Block>, l: Layout, l': Layout, ino: int, offset: nat)
    requires Consistent(d, l) && 0 <= ino < |l.heights| && HasInode(d, ino)
    requires Growth(d, l, ino, offset) == 0 ==> l' == l
    requires var h := HeightAfter(d, l, ino, offset);
             Growth(d, l, ino, offset) > 0 ==>
               OnPath(ino, offset, h) in l'.at && forall k: nat :: k < h ==> OnPath(ino, offset, k) !in l'.at
    ensures Need(d, l, ino, offset)
            == Growth(d, l, ino, offset) + Missing(l', ino, offset, HeightAfter(d, l, ino, offset))
  {
    HeightAfterFits(d, l, ino, offset);
    if Growth(d, l, ino, offset) > 0 {
      AllMissing(l', ino, offset, HeightAfter(d, l, ino, offset) - 1);
    }
  }

  lemma LeavesAfter(d0: seq<Block>, l0: Layout, d: seq<Block>, l: Layout, ino: int, offset: nat, content: Block)
    requires Bijection(d0, l0) && Bijection(d, l)
    requires Contents(d, l) == Contents(d0, l0)[Node(ino, 0, offset) := content]
    ensures forall i, off :: Node(i, 0, off) in l.at <==> Node(i, 0, off) in l0.at || (i == ino && off == offset)
  {
    forall i, off
      ensures Node(i, 0, off) in l.at <==> Node(i, 0, off) in l0.at || (i == ino && off == offset)
    {
      assert Node(i, 0, off) in l.at <==> Node(i, 0, off) in Contents(d, l);
      assert Node(i, 0, off) in l0.at <==> Node(i, 0, off) in Contents(d0, l0);
    }
  }

  /** What a completed write comes to, in terms of files. */
  lemma WriteRefines(d0: seq<Block>, l0: Layout, d: seq<Block>, l: Layout, ino: int, offset: nat, content: Block)
    requires Consistent(d0, l0) && Inv(d, l) && Loose !in l.at
    requires 0 <= ino < |l0.heights| && HasInode(d0, ino)
    requires l.heights == l0.heights[ino := HeightAfter(d0, l0, ino, offset)]
    requires SizesAfter(d0, d, ino, offset)
    requires Contents(d, l) == Contents(d0, l0)[Node(ino, 0, offset) := content]
    ensures Consistent(d, l)
    ensures Files(d, l) == Files(d0, l0)[ino := Put(Files(d0, l0)[ino], offset, content)]
  {
    LeavesAfter(d0, l0, d, l, ino, offset, content);
    forall i | 0 <= i < |l.heights|
      ensures FileOk(d, l, i)
      ensures Files(d, l)[i] == if i == ino then Put(Files(d0, l0)[i], offset, content) else Files(d0, l0)[i]
    {
      assert FileOk(d0, l0, i);
      FileRefines(d0, l0, d, l, ino, offset, content, i);
    }
  }

  /** A block of a file, by the label of its leaf. */
  lemma BlockOf(d: seq<Block>, l: Layout, i: int, off: int)
    requires Inv(d, l) && 0 <= i < |l.heights|
    ensures off in Files(d, l)[i].blocks <==> Node(i, 0, off) in l.at
    ensures Node(i, 0, off) in l.at ==> Node(i, 0, off) in Contents(d, l)
                                        && Files(d, l)[i].blocks[off] == Contents(d, l)[Node(i, 0, off)]
  {
    OffsetsOf(d, l, i, off);
  }

  lemma SizeIs(d: seq<Block>, l: Layout, i: int)
    requires Inv(d, l) && 0 <= i < |l.heights|
    ensures i < 64 * InodeBlocks(d) && HasInode(d, i) && Files(d, l)[i].size == SizeOfFile(d, i)
  {
  }

  lemma FileRefines(d0: seq<Block>, l0: Layout, d: seq<Block>, l: Layout, ino: int, offset: nat, content: Block, i: int)
    requires Inv(d0, l0) && Inv(d, l) && |l.heights| == |l0.heights| && 0 <= i < |l.heights|
    requires SizesAfter(d0, d, ino, offset)
    requires forall off :: Node(i, 0, off) in l.at <==> Node(i, 0, off) in l0.at || (i == ino && off == offset)
    requires Contents(d, l) == Contents(d0, l0)[Node(ino, 0, offset) := content]
    ensures Files(d, l)[i] == if i == ino then Put(Files(d0, l0)[i], offset, content) else Files(d0, l0)[i]
  {
    hide Inv, Files, Contents;
    var f, f0 := Files(d, l)[i], Files(d0, l0)[i];
    var want := if i == ino then f0.blocks[offset := content] else f0.blocks;
    forall off: int
      ensures off in f.blocks <==> off in want
      ensures off in f.blocks ==> f.blocks[off] == want[off]
    {
      BlockOf(d, l, i, off);
      BlockOf(d0, l0, i, off);
    }
    assert f.blocks == want;
    SizeIs(d, l, i);
    SizeIs(d0, l0, i);
  }

  /** The size word that a write beyond the end records, in 32 bits. */
  function SizeAfterWrite(offset: nat): word {
    (offset + 1) % WORD_LIMIT
  }

  /** Writing at the largest offset would record size 0, which hides the whole file; no other offset does. */
  lemma SizeAfterWriteCovers(offset: nat, blocks: map<int, Block>)
    requires offset < WORD_LIMIT
    ensures offset < SizeAfterWrite(offset) <==> offset != WORD_LIMIT - 1
    ensures (exists x: nat :: Get(File(SizeAfterWrite(offset), blocks), x).Some?) <==> offset != WORD_LIMIT - 1
  {
    if offset != WORD_LIMIT - 1 {
      assert SizeAfterWrite(offset) == offset + 1;
      assert Get(File(SizeAfterWrite(offset), blocks), offset).Some?;
    }
  }

  /** At that offset the recorded size is 0, so that the code inserts no level, and walks from the old root as through a
      tree of the five levels that the offset asks for.  This is the height of the tree only for a file of more than
      2^28 blocks; in a lower tree the walk takes blocks of data for indirect blocks. */
  lemma WalkAtLargestOffset(n: word)
    requires n > 0
    ensures SizeAfterWrite(WORD_LIMIT - 1) == 0 && LevelsTo(WORD_LIMIT - 1) == 5
    ensures Levels(n) == LevelsTo(WORD_LIMIT - 1) <==> n > 0x1000_0000
  {
    Pow2Of28();
    LevelsBound(WORD_LIMIT - 1);
    LevelsBound(n - 1);
    LevelsToIsLeast(WORD_LIMIT - 1, 4);
    UpIsDivision(WORD_LIMIT - 1, 4);
    LevelsToIsLeast(n - 1, 4);
    UpIsDivision(n - 1, 4);
  }

  // ---------------------------------------------------------------- reads

  /** Following the path to a leaf one level down. */
  lemma StepDown(d: seq<Block>, l: Layout, ino: int, offset: nat, b: int, level: nat)
    requires Inv(d, l) && b != 0 && Slot(b, OnPath(ino, offset, level + 1), l.at)
    ensures 0 <= b < |d| && l.owner[b] == OnPath(ino, offset, level + 1)
    ensures ChildOf(l, l.owner[b], Up(offset, level) % 128) == Some(OnPath(ino, offset, level))
    ensures Slot(d[b][Up(offset, level) % 128], OnPath(ino, offset, level), l.at)
  {
    assert SlotOk(d, l, b, Up(offset, level) % 128);
  }

  /** A hole anywhere on the path to a leaf means that the leaf was never written. */
  lemma HoleOnPath(d: seq<Block>, l: Layout, ino: int, offset: nat, level: nat)
    requires Consistent(d, l) && 0 <= ino < |l.heights| && level <= l.heights[ino]
    requires OnPath(ino, offset, level) !in l.at && offset < Files(d, l)[ino].size
    ensures Get(Files(d, l)[ino], offset) == Some(NULL_BLOCK)
  {
    if OnPath(ino, offset, 0) in l.at {
      AncestorsPresent(d, l, ino, offset, 0, level);
    }
    OffsetsOf(d, l, ino, offset);
  }

  lemma LeafOnPath(d: seq<Block>, l: Layout, ino: int, offset: nat, b: int)
    requires Consistent(d, l) && 0 <= ino < |l.heights|
    requires b != 0 && Slot(b, OnPath(ino, offset, 0), l.at) && offset < Files(d, l)[ino].size
    ensures 0 <= b < |d| && Get(Files(d, l)[ino], offset) == Some(d[b])
  {
    OffsetsOf(d, l, ino, offset);
  }

  lemma OffsetsOf(d: seq<Block>, l: Layout, ino: int, offset: int)
    requires Inv(d, l) && 0 <= ino < |l.heights|
    ensures offset in Files(d, l)[ino].blocks <==> Node(ino, 0, offset) in l.at
    ensures offset in Files(d, l)[ino].blocks ==> Files(d, l)[ino].blocks[offset] == d[l.at[Node(ino, 0, offset)]]
  {
  }
}
