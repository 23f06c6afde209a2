/**
 The on-disk format of the treedisk file system (library/file/file1.h) and its ownership discipline.

 A block is 512 bytes, and every structured view of it (superblock, inode block, free-list block, indirect block)
 is an array of 32-bit words, so a block is modelled as 128 words.

 Every block of the disk plays exactly one role, its Owner.  A tree block is labelled by its position: the file it
 belongs to, its level counted from the leaves, and its index within that level.  Counting from the leaves is what
 keeps all positions fixed when a write inserts new levels above the root.
 */
module TreeDiskLayout {
  import opened Wrappers

  const REFS_PER_BLOCK := 128
  const INODES_PER_BLOCK := 64
  const WORD_LIMIT := 0x1_0000_0000

  type word = x: int | 0 <= x < 0x1_0000_0000
  type Block = s: seq<word> | |s| == 128 witness seq(128, i => 0)

  function Zeros(n: nat): (s: seq<word>)
    ensures |s| == n && forall i :: 0 <= i < n ==> s[i] == 0
  {
    seq(n, i => 0)
  }

  const NULL_BLOCK: Block := Zeros(128)

  /** The number of inode blocks, kept in the first word of the superblock. */
  function InodeBlocks(d: seq<Block>): int
    requires |d| > 0
  {
    d[0][0]
  }

  datatype Owner =
    | Super
    | InodeBlock(k: int)
    | Chain(depth: int)             // the depth-th block of the free list, counted from its end
    | Spare(depth: int, slot: int)  // the free block that slot `slot` of that free-list block refers to
    | Node(ino: int, level: int, index: int)
    | Loose                         // taken off the free list, not yet placed in a tree

  datatype Layout = Layout(owner: seq<Owner>, at: map<Owner, int>, heights: seq<nat>, chain: nat)

  /** The role of the block that slot i of a block owned by o refers to, if that slot holds a reference at all. */
  function ChildOf(l: Layout, o: Owner, i: int): Option<Owner> {
    match o
    case Super => if i == 1 then Some(Chain(l.chain - 1)) else None
    case InodeBlock(k) =>
      var ino := 64 * k + i / 2;
      if i % 2 == 0 && 0 <= ino < |l.heights| then Some(Node(ino, l.heights[ino], 0)) else None
    case Chain(depth) => if i == 0 then Some(Chain(depth - 1)) else Some(Spare(depth, i))
    case Spare(_, _) => None
    case Node(ino, level, index) => if level > 0 then Some(Node(ino, level - 1, 128 * index + i)) else None
    case Loose => None
  }

  /** A reference is 0 exactly when nothing plays the role it stands for. */
  predicate Slot(w: int, o: Owner, at: map<Owner, int>) {
    if w == 0 then o !in at else o in at && at[o] == w
  }

  predicate SlotOk(d: seq<Block>, l: Layout, b: int, i: int)
    requires 0 <= b < |d| && |l.owner| == |d| && 0 <= i < 128
  {
    ChildOf(l, l.owner[b], i).Some? ==> Slot(d[b][i], ChildOf(l, l.owner[b], i).value, l.at)
  }

  predicate KeyOk(l: Layout, n: int, o: Owner)
    requires o in l.at
  {
    match o
    case Super => l.at[o] == 0
    case InodeBlock(k) => 0 <= k < n && l.at[o] == 1 + k
    case Chain(depth) => 0 <= depth < l.chain
    case Spare(depth, i) => 0 <= depth < l.chain && 1 <= i < 128
    case Node(ino, level, index) =>
      && 0 <= ino < |l.heights| && 0 <= level <= l.heights[ino] && 0 <= index
      && (if level == l.heights[ino] then index == 0 else Node(ino, level + 1, index / 128) in l.at)
    case Loose => true
  }

  ghost predicate Bijection(d: seq<Block>, l: Layout) {
    && |l.owner| == |d|
    && (forall b :: 0 <= b < |d| ==> l.owner[b] in l.at && l.at[l.owner[b]] == b)
    && (forall o :: o in l.at ==> 0 <= l.at[o] < |d| && l.owner[l.at[o]] == o)
  }

  ghost predicate Keys(l: Layout, n: int) {
    && Super in l.at && l.at[Super] == 0
    && (forall k :: 0 <= k < n ==> InodeBlock(k) in l.at && l.at[InodeBlock(k)] == 1 + k)
    && (forall k :: 0 <= k < l.chain ==> Chain(k) in l.at)
    && (forall o {:trigger KeyOk(l, n, o)} :: o in l.at ==> KeyOk(l, n, o))
  }

  ghost predicate Slots(d: seq<Block>, l: Layout)
    requires |l.owner| == |d|
  {
    forall b, i {:trigger SlotOk(d, l, b, i)} :: 0 <= b < |d| && 0 <= i < 128 ==> SlotOk(d, l, b, i)
  }

  /** Superblock, inode blocks, trees and free list are disjoint, cover the disk, and all references agree with that. */
  ghost predicate Inv(d: seq<Block>, l: Layout) {
    && 2 <= |d| < WORD_LIMIT
    && Bijection(d, l)
    && InodeBlocks(d) < |d| && |l.heights| == 64 * InodeBlocks(d)
    && Keys(l, InodeBlocks(d))
    && Slots(d, l)
  }

  function Relabel(l: Layout, from: Owner, to: Owner): Layout
    requires from in l.at && 0 <= l.at[from] < |l.owner|
  {
    l.(owner := l.owner[l.at[from] := to], at := (l.at - {from})[to := l.at[from]])
  }

  lemma RelabelBijection(d: seq<Block>, d': seq<Block>, l: Layout, from: Owner, to: Owner)
    requires Bijection(d, l) && |d'| == |d| && from in l.at && to !in l.at
    ensures Bijection(d', Relabel(l, from, to))
  {
  }

  /** Every role is referred to from one slot of one block only. */
  lemma UniqueParent(d: seq<Block>, l: Layout, b: int, i: int, b': int, i': int)
    requires Inv(d, l)
    requires 0 <= b < |d| && 0 <= i < 128 && 0 <= b' < |d| && 0 <= i' < 128
    requires ChildOf(l, l.owner[b], i).Some? && ChildOf(l, l.owner[b], i) == ChildOf(l, l.owner[b'], i')
    ensures b == b' && i == i'
  {
    assert KeyOk(l, InodeBlocks(d), l.owner[b]) && KeyOk(l, InodeBlocks(d), l.owner[b']);
    assert l.owner[b] == l.owner[b'];
  }

  /** Word i of block b refers to another block, or is 0. */
  predicate IsReference(l: Layout, b: int, i: int) {
    0 <= b < |l.owner| && 0 <= i < 128 && ChildOf(l, l.owner[b], i).Some?
  }

  /** On words: two references to the same block are the same word. */
  lemma OneReference(d: seq<Block>, l: Layout, b: int, i: int, b': int, i': int)
    requires Inv(d, l) && IsReference(l, b, i) && IsReference(l, b', i')
    requires d[b][i] == d[b'][i'] != 0
    ensures b == b' && i == i'
  {
    assert SlotOk(d, l, b, i) && SlotOk(d, l, b', i');
    UniqueParent(d, l, b, i, b', i');
  }

  /** And every tree and list block is referred to. */
  lemma HasReference(d: seq<Block>, l: Layout, c: int) returns (b: int, i: int)
    requires Inv(d, l) && 0 <= c < |d| && (l.owner[c].Node? || l.owner[c].Chain? || l.owner[c].Spare?)
    ensures IsReference(l, b, i) && d[b][i] == c != 0
  {
    var o := l.owner[c];
    assert KeyOk(l, InodeBlocks(d), o) && l.owner[0] == Super;
    var parent := match o
      case Node(ino, level, index) => if level == l.heights[ino] then InodeBlock(ino / 64)
        else Node(ino, level + 1, index / 128)
      case Chain(depth) => if depth == l.chain - 1 then Super else Chain(depth + 1)
      case Spare(depth, _) => Chain(depth)
      case _ => Super;
    b := l.at[parent];
    i := match o
      case Node(ino, level, index) => if level == l.heights[ino] then 2 * (ino % 64) else index % 128
      case Chain(depth) => if depth == l.chain - 1 then 1 else 0
      case Spare(_, slot) => slot
      case _ => 0;
    assert ChildOf(l, parent, i) == Some(o);
    assert SlotOk(d, l, b, i);
  }

  lemma TakeSpareSlot(d: seq<Block>, l: Layout, d': seq<Block>, s: Owner, b: int, i: int, c: int, j: int)
    requires Inv(d, l) && Loose !in l.at
    requires 0 <= b < |d| && 1 <= i < 128 && l.owner[b].Chain? && s == Spare(l.owner[b].depth, i) && s in l.at
    requires d' == d[b := d[b][i := 0]] && 0 <= c < |d'| && 0 <= j < 128
    ensures SlotOk(d', Relabel(l, s, Loose), c, j)
  {
    assert SlotOk(d, l, c, j);
    if ChildOf(l, l.owner[c], j) == Some(s) {
      UniqueParent(d, l, c, j, b, i);
    }
  }

  /** Taking the free block in slot i > 0 of a free-list block. */
  lemma TakeSpare(d: seq<Block>, l: Layout, b: int, i: int)
    requires Inv(d, l) && Loose !in l.at
    requires 0 <= b < |d| && l.owner[b].Chain? && 1 <= i < 128 && d[b][i] != 0
    ensures Spare(l.owner[b].depth, i) in l.at && l.at[Spare(l.owner[b].depth, i)] == d[b][i]
    ensures Inv(d[b := d[b][i := 0]], Relabel(l, Spare(l.owner[b].depth, i), Loose))
  {
    var s := Spare(l.owner[b].depth, i);
    assert SlotOk(d, l, b, i);
    var d' := d[b := d[b][i := 0]];
    var l' := Relabel(l, s, Loose);
    RelabelBijection(d, d', l, s, Loose);
    assert d'[0] == d[0];
    forall c, j | 0 <= c < |d'| && 0 <= j < 128
      ensures SlotOk(d', l', c, j)
    {
      TakeSpareSlot(d, l, d', s, b, i, c, j);
    }
    forall o | o in l'.at
      ensures KeyOk(l', InodeBlocks(d'), o)
    {
      assert o != Loose ==> KeyOk(l, InodeBlocks(d), o);
    }
  }

  /** The words of a free-list block that refers to no free block besides the next free-list block. */
  predicate NoSpares(refs: Block) {
    forall i :: 1 <= i < 128 ==> refs[i] == 0
  }

  function Popped(l: Layout): Layout
    requires Chain(l.chain - 1) in l.at && l.chain > 0 && 0 <= l.at[Chain(l.chain - 1)] < |l.owner|
  {
    Relabel(l, Chain(l.chain - 1), Loose).(chain := l.chain - 1)
  }

  lemma PopChainSlot(d: seq<Block>, l: Layout, d': seq<Block>, c: int, j: int)
    requires Inv(d, l) && Loose !in l.at && l.chain > 0
    requires Chain(l.chain - 1) in l.at && NoSpares(d[l.at[Chain(l.chain - 1)]])
    requires d' == d[0 := d[0][1 := d[l.at[Chain(l.chain - 1)]][0]]]
    requires 0 <= c < |d'| && 0 <= j < 128
    ensures SlotOk(d', Popped(l), c, j)
  {
    var top := Chain(l.chain - 1);
    assert SlotOk(d, l, c, j) && SlotOk(d, l, 0, 1) && SlotOk(d, l, l.at[top], 0);
    if ChildOf(l, l.owner[c], j) == Some(top) {
      UniqueParent(d, l, c, j, 0, 1);
    }
  }

  /** Taking the first free-list block itself, once it refers to no other free block. */
  lemma PopChain(d: seq<Block>, l: Layout)
    requires Inv(d, l) && Loose !in l.at && l.chain > 0
    requires Chain(l.chain - 1) in l.at && NoSpares(d[l.at[Chain(l.chain - 1)]])
    ensures d[0][1] == l.at[Chain(l.chain - 1)]
    ensures Inv(d[0 := d[0][1 := d[d[0][1]][0]]], Popped(l))
  {
    var top := Chain(l.chain - 1);
    var b := l.at[top];
    assert SlotOk(d, l, 0, 1);
    var d' := d[0 := d[0][1 := d[b][0]]];
    var l' := Popped(l);
    RelabelBijection(d, d', l, top, Loose);
    forall c, j | 0 <= c < |d'| && 0 <= j < 128
      ensures SlotOk(d', l', c, j)
    {
      PopChainSlot(d, l, d', c, j);
    }
    forall s: Owner {:trigger s in l.at} | s.Spare? && s.depth == l.chain - 1 && 1 <= s.slot < 128
      ensures s !in l.at
    {
      assert SlotOk(d, l, b, s.slot);
    }
    forall o | o in l'.at
      ensures KeyOk(l', InodeBlocks(d'), o)
    {
      assert o != Loose ==> KeyOk(l, InodeBlocks(d), o);
    }
  }

  /** The disk after word i of block p is set to x and block x is written. */
  function AttachedDisk(d: seq<Block>, p: int, i: int, x: int, content: Block): seq<Block>
    requires 0 <= p < |d| && 0 <= i < 128 && 0 <= x < |d| < WORD_LIMIT
  {
    var parent: Block := d[p][i := x];
    d[p := parent][x := content]
  }

  /** The disk after block x becomes the root of an inode, in word j of block ib, above the old root. */
  function GrownDisk(d: seq<Block>, ib: int, j: int, x: int): seq<Block>
    requires 0 <= ib < |d| && 0 <= j < 128 && 0 <= x < |d| < WORD_LIMIT
  {
    AttachedDisk(d, ib, j, x, NULL_BLOCK[0 := d[ib][j]])
  }

  lemma AttachSlot(d: seq<Block>, l: Layout, d': seq<Block>, p: int, i: int, o: Owner, x: int, content: Block, c: int,
                   j: int)
    requires Inv(d, l) && Loose in l.at && x == l.at[Loose]
    requires 0 <= p < |d| && 0 <= i < 128 && o.Node? && o !in l.at && x != p && x != 0
    requires ChildOf(l, l.owner[p], i) == Some(o) && d[p][i] == 0
    requires o.level > 0 ==> content == NULL_BLOCK
    requires d' == AttachedDisk(d, p, i, x, content)
    requires 0 <= c < |d'| && 0 <= j < 128
    ensures SlotOk(d', Relabel(l, Loose, o), c, j)
  {
    assert SlotOk(d, l, c, j);
    assert KeyOk(l, InodeBlocks(d), l.owner[p]);
    if c == x {
      if o.level > 0 {
        var child := Node(o.ino, o.level - 1, 128 * o.index + j);
        assert child.index / 128 == o.index;
        assert child in l.at ==> KeyOk(l, InodeBlocks(d), child);
      }
    } else if ChildOf(l, l.owner[c], j) == Some(o) {
      UniqueParent(d, l, c, j, p, i);
    }
  }

  /** Placing the loose block as node (ino, level, index), by storing its number in the parent's empty slot. */
  lemma Attach(d: seq<Block>, l: Layout, p: int, i: int, o: Owner, x: int, content: Block)
    requires Inv(d, l) && Loose in l.at && x == l.at[Loose]
    requires 0 <= p < |d| && 0 <= i < 128 && o.Node?
    requires ChildOf(l, l.owner[p], i) == Some(o) && d[p][i] == 0
    requires o.level > 0 ==> content == NULL_BLOCK
    ensures Inv(AttachedDisk(d, p, i, x, content), Relabel(l, Loose, o))
    ensures x != 0 && x != p && o !in l.at
  {
    assert SlotOk(d, l, p, i);
    assert l.owner[0] == Super;
    var d' := AttachedDisk(d, p, i, x, content);
    var l' := Relabel(l, Loose, o);
    RelabelBijection(d, d', l, Loose, o);
    assert KeyOk(l, InodeBlocks(d), l.owner[p]);
    forall c, j | 0 <= c < |d'| && 0 <= j < 128
      ensures SlotOk(d', l', c, j)
    {
      AttachSlot(d, l, d', p, i, o, x, content, c, j);
    }
    forall k | k in l'.at
      ensures KeyOk(l', InodeBlocks(d'), k)
    {
      AttachKey(d, l, p, i, o, k);
    }
  }

  lemma AttachKey(d: seq<Block>, l: Layout, p: int, i: int, o: Owner, k: Owner)
    requires Inv(d, l) && Loose in l.at
    requires 0 <= p < |d| && 0 <= i < 128 && o.Node? && o !in l.at
    requires ChildOf(l, l.owner[p], i) == Some(o)
    requires k in Relabel(l, Loose, o).at
    ensures KeyOk(Relabel(l, Loose, o), InodeBlocks(d), k)
  {
    assert KeyOk(l, InodeBlocks(d), l.owner[p]);
    if k != o {
      assert KeyOk(l, InodeBlocks(d), k);
    } else if l.owner[p].Node? {
      assert o.index / 128 == l.owner[p].index;
    }
  }

  function Grown(l: Layout, ino: int): Layout
    requires Loose in l.at && 0 <= l.at[Loose] < |l.owner| && 0 <= ino < |l.heights|
  {
    Relabel(l, Loose, Node(ino, l.heights[ino] + 1, 0)).(heights := l.heights[ino := l.heights[ino] + 1])
  }

  lemma NewRootSlot(d: seq<Block>, l: Layout, d': seq<Block>, ino: int, x: int, ib: int, j: int, i: int)
    requires Inv(d, l) && Loose in l.at && x == l.at[Loose] && 0 <= ino < |l.heights|
    requires ib == 1 + ino / 64 && j == 2 * (ino % 64) && 0 <= ib < |d| && l.owner[ib] == InodeBlock(ino / 64)
             && x != ib
    requires d' == GrownDisk(d, ib, j, x) && x != 0
    requires Node(ino, l.heights[ino] + 1, 0) !in l.at
    requires 0 <= i < 128
    ensures SlotOk(d', Grown(l, ino), x, i)
  {
    var child := Node(ino, l.heights[ino], i);
    assert SlotOk(d, l, ib, j);
    assert child in l.at ==> KeyOk(l, InodeBlocks(d), child);
  }

  lemma OldSlot(d: seq<Block>, l: Layout, d': seq<Block>, ino: int, x: int, ib: int, j: int, c: int, i: int)
    requires Inv(d, l) && Loose in l.at && x == l.at[Loose] && 0 <= ino < |l.heights|
    requires ib == 1 + ino / 64 && j == 2 * (ino % 64) && 0 <= ib < |d| && l.owner[ib] == InodeBlock(ino / 64)
             && x != ib
    requires d' == GrownDisk(d, ib, j, x) && x != 0
    requires Node(ino, l.heights[ino] + 1, 0) !in l.at
    requires 0 <= c < |d'| && 0 <= i < 128 && c != x
    ensures SlotOk(d', Grown(l, ino), c, i)
  {
    assert SlotOk(d, l, c, i);
    assert KeyOk(l, InodeBlocks(d), l.owner[c]);
    if ChildOf(l, l.owner[c], i) == ChildOf(l, l.owner[ib], j) {
      UniqueParent(d, l, c, i, ib, j);
    }
  }

  lemma GrowKey(d: seq<Block>, l: Layout, ino: int, k: Owner)
    requires Inv(d, l) && Loose in l.at && 0 <= ino < |l.heights|
    requires k in Grown(l, ino).at
    ensures KeyOk(Grown(l, ino), InodeBlocks(d), k)
  {
    if k != Node(ino, l.heights[ino] + 1, 0) {
      assert KeyOk(l, InodeBlocks(d), k);
    }
  }

  lemma GrowPlace(d: seq<Block>, l: Layout, ino: int, x: int, ib: int)
    requires Inv(d, l) && Loose in l.at && x == l.at[Loose] && 0 <= ino < |l.heights| && ib == 1 + ino / 64
    ensures 0 <= ib < |d| && 0 < x < |d| && x != ib && l.owner[ib] == InodeBlock(ino / 64)
    ensures Node(ino, l.heights[ino] + 1, 0) !in l.at
  {
    var o := Node(ino, l.heights[ino] + 1, 0);
    assert InodeBlock(ino / 64) in l.at;
    assert l.owner[0] == Super;
    assert o in l.at ==> KeyOk(l, InodeBlocks(d), o);
  }

  lemma GrowSlots(d: seq<Block>, l: Layout, ino: int, x: int, ib: int, j: int)
    requires Inv(d, l) && Loose in l.at && x == l.at[Loose] && 0 <= ino < |l.heights|
    requires ib == 1 + ino / 64 && j == 2 * (ino % 64)
    ensures ib < |d| && x != ib && Slots(GrownDisk(d, ib, j, x), Grown(l, ino))
  {
    GrowPlace(d, l, ino, x, ib);
    var d' := GrownDisk(d, ib, j, x);
    forall c, i | 0 <= c < |d'| && 0 <= i < 128
      ensures SlotOk(d', Grown(l, ino), c, i)
    {
      if c == x {
        NewRootSlot(d, l, d', ino, x, ib, j, i);
      } else {
        OldSlot(d, l, d', ino, x, ib, j, c, i);
      }
    }
  }

  lemma GrowKeys(d: seq<Block>, l: Layout, ino: int)
    requires Inv(d, l) && Loose in l.at && 0 <= ino < |l.heights|
    ensures Keys(Grown(l, ino), InodeBlocks(d))
  {
    forall k | k in Grown(l, ino).at
      ensures KeyOk(Grown(l, ino), InodeBlocks(d), k)
    {
      GrowKey(d, l, ino, k);
    }
  }

  /** Inserting the loose block as a new root above the old root of file ino. */
  lemma Grow(d: seq<Block>, l: Layout, ino: int, x: int, ib: int, j: int)
    requires Inv(d, l) && Loose in l.at && x == l.at[Loose] && 0 <= ino < |l.heights|
    requires ib == 1 + ino / 64 && j == 2 * (ino % 64)
    ensures ib < |d| && x != ib && x != 0 && l.owner[ib] == InodeBlock(ino / 64)
    ensures Inv(GrownDisk(d, ib, j, x), Grown(l, ino))
    ensures Node(ino, l.heights[ino] + 1, 0) !in l.at
  {
    GrowPlace(d, l, ino, x, ib);
    RelabelBijection(d, GrownDisk(d, ib, j, x), l, Loose, Node(ino, l.heights[ino] + 1, 0));
    GrowSlots(d, l, ino, x, ib, j);
    GrowKeys(d, l, ino);
  }
}
