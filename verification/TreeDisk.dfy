/** The treedisk inode store (library/file/file1.c), updating the blocks of the store below it in place. */
module TreeDisk {
  import opened Wrappers
  import opened TreeDiskLayout
  import opened TreeDiskLevels
  import opened TreeDiskFiles
  import opened FileStore

  /** How an operation ends: normally, with the error return -1, or by halting because the store is full. */
  datatype Outcome = Done | Error | Panic

  /** Working copies of the superblock and of one inode block. */
  class Snapshot {
    var superblock: Block
    var inodeblock: Block
    var inodeBlockNo: int
    var slot: int  // index, within the inode block, of the inode's root word; its size is the next word

    constructor ()
    {
      superblock, inodeblock, inodeBlockNo, slot := NULL_BLOCK, NULL_BLOCK, 0, 0;
    }
  }

  lemma Rewritten(d: seq<Block>, p: int, first: Block, second: Block)
    requires 0 <= p < |d|
    ensures d[p := first][p := second] == d[p := second]
  {
  }

  class Store {
    const disk: array<Block>
    var logRpb: nat
    ghost var lay: Layout

    ghost predicate Valid()
      reads this, disk
    {
      logRpb == 7 && Consistent(disk[..], lay)
    }

    /** Opens a formatted disk. */
    constructor Init(below: array<Block>, ghost l: Layout)
      requires Consistent(below[..], l)
      ensures Valid() && disk == below && lay == l
    {
      disk, lay := below, l;
      new;
      logRpb := LogRefsPerBlock();
    }

    method ReadBelow(b: int) returns (content: Block)
      requires 0 <= b < disk.Length
      ensures content == disk[b]
    {
      content := disk[b];
    }

    method WriteBelow(b: int, content: Block)
      requires 0 <= b < disk.Length
      modifies disk
      ensures disk[..] == old(disk[..])[b := content]
    {
      disk[b] := content;
    }

    /** The number of inodes, computed in 32 bits. */
    static function InodeLimit(superblock: Block): int {
      superblock[0] * INODES_PER_BLOCK % WORD_LIMIT
    }

    method GetSnapshot(snapshot: Snapshot, ino: int) returns (ok: bool)
      requires Valid() && 0 <= ino
      modifies snapshot
      ensures ok <==> ino < InodeLimit(disk[0])
      ensures ok ==> && ino < |lay.heights|
                     && snapshot.superblock == disk[0]
                     && snapshot.inodeBlockNo == 1 + ino / 64 < disk.Length
                     && snapshot.inodeblock == disk[snapshot.inodeBlockNo]
                     && snapshot.slot == 2 * (ino % 64)
    {
      var superblock := ReadBelow(0);
      snapshot.superblock := superblock;
      if ino >= InodeLimit(superblock) {
        return false;
      }
      assert ino < superblock[0] as int * INODES_PER_BLOCK;
      InodesOnDisk(disk[..], lay, ino);
      snapshot.inodeBlockNo := 1 + ino / INODES_PER_BLOCK;
      var inodeblock := ReadBelow(snapshot.inodeBlockNo);
      snapshot.inodeblock := inodeblock;
      snapshot.slot := 2 * (ino % INODES_PER_BLOCK);
      ok := true;
    }

    /** The last slot of a list block that refers to a free block, or 0. */
    method LastRef(freelistblock: Block) returns (i: int)
      ensures 0 <= i < 128 && i == LastSlot(freelistblock, 127)
    {
      i := REFS_PER_BLOCK - 1;
      while i > 0 && freelistblock[i] == 0
        invariant 0 <= i < 128 && LastSlot(freelistblock, i) == LastSlot(freelistblock, 127)
      {
        i := i - 1;
      }
    }

    /** Takes the first list block itself: the superblock moves on to the next one. */
    method TakeHead(snapshot: Snapshot, freelistblock: Block, ghost p: int, ghost pending: Block)
      requires 0 <= p < disk.Length && Inv(disk[..][p := pending], lay) && Loose !in lay.at
      requires lay.owner[p].Node? || lay.owner[p].InodeBlock?
      requires snapshot.superblock == disk[0] && lay.chain > 0 && disk[0][1] == lay.at[Chain(lay.chain - 1)] != p
      requires freelistblock == disk[disk[0][1]] && NoSpares(freelistblock)
      modifies disk, this`lay, snapshot`superblock
      ensures Took(old(disk[..][p := pending]), old(lay), disk[..][p := pending], lay, old(disk[0][1]))
      ensures disk[p] == old(disk[p]) && snapshot.superblock == disk[0]
      ensures var d := old(disk[..][p := pending]); disk[..][p := pending] == d[0 := d[0][1 := freelistblock[0]]]
    {
      ghost var d, l := disk[..][p := pending], lay;
      assert l.owner[0] == Super;
      TookChain(d, l);
      snapshot.superblock := snapshot.superblock[1 := freelistblock[0]];
      WriteBelow(0, snapshot.superblock);
      lay := Popped(l);
      assert disk[..][p := pending] == d[0 := d[0][1 := d[d[0][1]][0]]];
    }

    /** Takes the block that slot i of list block b refers to, and clears the slot. */
    method TakeSlot(b: int, freelistblock: Block, i: int, ghost p: int, ghost pending: Block)
      requires 0 <= p < disk.Length && Inv(disk[..][p := pending], lay) && Loose !in lay.at
      requires lay.owner[p].Node? || lay.owner[p].InodeBlock?
      requires 0 <= b < disk.Length && freelistblock == disk[b] && lay.owner[b].Chain? && 1 <= i < 128
               && freelistblock[i] != 0
      modifies disk, this`lay
      ensures Took(old(disk[..][p := pending]), old(lay), disk[..][p := pending], lay, freelistblock[i])
      ensures disk[p] == old(disk[p]) && disk[0] == old(disk[0])
      ensures disk[..][p := pending] == old(disk[..][p := pending])[b := freelistblock[i := 0]]
    {
      ghost var d, l := disk[..][p := pending], lay;
      assert l.owner[0] == Super;
      TookSpare(d, l, b, i);
      WriteBelow(b, freelistblock[i := 0]);
      lay := Relabel(l, Spare(l.owner[b].depth, i), Loose);
      assert disk[..][p := pending] == d[b := d[b][i := 0]];
    }

    /** Takes a block off the free list.  The tree block p may differ on disk from its up-to-date content pending. */
    method AllocBlock(snapshot: Snapshot, ghost p: int, ghost pending: Block) returns (r: Option<int>)
      requires 0 <= p < disk.Length && Inv(disk[..][p := pending], lay) && Loose !in lay.at
      requires lay.owner[p].Node? || lay.owner[p].InodeBlock?
      requires snapshot.superblock == disk[0]
      modifies disk, this`lay, snapshot`superblock
      ensures r.None? <==> old(FreeBlocks(lay)) == {}
      ensures r.None? ==> disk[..] == old(disk[..]) && lay == old(lay)
      ensures r.Some? ==> && Took(old(disk[..][p := pending]), old(lay), disk[..][p := pending], lay, r.value)
                          && disk[p] == old(disk[p])
      ensures (r, disk[..][p := pending]) == AllocOn(old(disk[..][p := pending]))
      ensures snapshot.superblock == disk[0]
    {
      ghost var d, l := disk[..][p := pending], lay;
      assert lay.owner[0] == Super;
      EmptyFreeList(d, l);
      var b := snapshot.superblock[1];
      if b == 0 {
        return None;
      }
      var freelistblock := ReadBelow(b);
      assert freelistblock == d[b];
      var i := LastRef(freelistblock);
      if i == 0 {
        TakeHead(snapshot, freelistblock, p, pending);
        r := Some(b);
      } else {
        TakeSlot(b, freelistblock, i, p, pending);
        r := Some(freelistblock[i]);
      }
    }

    /** The number of blocks of file ino as a C int, or -1. */
    method GetSize(ino: int) returns (r: int)
      requires Valid() && 0 <= ino
      ensures r == if ino < InodeLimit(disk[0]) then AsInt32(Files(disk[..], lay)[ino].size) else -1
    {
      var snapshot := new Snapshot();
      var ok := GetSnapshot(snapshot, ino);
      if !ok {
        return -1;
      }
      r := AsInt32(snapshot.inodeblock[snapshot.slot + 1]);
    }

    /** A word read as the two's complement number of the same 32 bits. */
    static function AsInt32(x: int): (r: int)
      ensures 0 <= x < 0x1_0000_0000 ==> -0x8000_0000 <= r < 0x8000_0000 && (r == x || r == x - 0x1_0000_0000)
    {
      if x < 0x8000_0000 then x else x - WORD_LIMIT
    }

    /** Reads block `offset` of file ino by walking down from the root; a missing block on the way is a hole. */
    method Read(ino: int, offset: nat) returns (r: Option<Block>)
      requires Valid() && 0 <= ino && offset < WORD_LIMIT
      ensures r == if ino < InodeLimit(disk[0]) then Get(Files(disk[..], lay)[ino], offset) else None
    {
      var snapshot := new Snapshot();
      var ok := GetSnapshot(snapshot, ino);
      if !ok {
        return None;
      }
      var nblocks := snapshot.inodeblock[snapshot.slot + 1];
      if offset >= nblocks {
        return None;
      }
      var nlevels: nat := 0;
      if nblocks > 0 {
        nlevels := CountLevels(nblocks - 1, logRpb);
      }
      assert FileOk(disk[..], lay, ino);
      LeafBelowRoot(offset, nblocks);
      InodesOnDisk(disk[..], lay, ino);
      var b: int := snapshot.inodeblock[snapshot.slot];
      while true
        invariant nlevels <= lay.heights[ino]
        invariant Slot(b, OnPath(ino, offset, nlevels), lay.at)
        decreases nlevels
      {
        if b == 0 {
          HoleOnPath(disk[..], lay, ino, offset, nlevels);
          return Some(NULL_BLOCK);
        }
        var block := ReadBelow(b);
        if nlevels == 0 {
          LeafOnPath(disk[..], lay, ino, offset, b);
          return Some(block);
        }
        nlevels := nlevels - 1;
        LogShiftRIsUp(offset, nlevels);
        var index := LogShiftR(offset, nlevels * logRpb) % REFS_PER_BLOCK;
        StepDown(disk[..], lay, ino, offset, b, nlevels);
        b := block[index];
      }
    }

    /** The disk as it will be once the working copy of the inode block is written back. */
    ghost function Pending(snapshot: Snapshot): seq<Block>
      requires 0 <= snapshot.inodeBlockNo < disk.Length
      reads disk, snapshot
    {
      disk[..][snapshot.inodeBlockNo := snapshot.inodeblock]
    }

    /** Writes a new indirect block that refers to the old root, and makes it the root in the working copy. */
    method StoreRoot(snapshot: Snapshot, indir: int)
      requires 0 < snapshot.inodeBlockNo < disk.Length < WORD_LIMIT && 0 <= snapshot.slot < 128
      requires 0 < indir < disk.Length && indir != snapshot.inodeBlockNo
      modifies disk, snapshot`inodeblock
      ensures Pending(snapshot) == GrownDisk(old(Pending(snapshot)), snapshot.inodeBlockNo, snapshot.slot, indir)
      ensures disk[0] == old(disk[0])
    {
      var tib := NULL_BLOCK[0 := snapshot.inodeblock[snapshot.slot]];
      snapshot.inodeblock := snapshot.inodeblock[snapshot.slot := indir];
      WriteBelow(indir, tib);
    }

    /** Makes a block that has just been taken the root of file ino. */
    method GrowRoot(snapshot: Snapshot, ino: int, indir: int, ghost d0: seq<Block>, ghost l0: Layout)
      requires 0 <= ino < |l0.heights| && snapshot.inodeBlockNo == 1 + ino / 64 < disk.Length
               && snapshot.slot == 2 * (ino % 64)
      requires Took(d0, l0, Pending(snapshot), lay, indir)
      modifies disk, this`lay, snapshot`inodeblock
      ensures disk[0] == old(disk[0]) && lay.heights == l0.heights[ino := l0.heights[ino] + 1]
      ensures Added(d0, l0, Pending(snapshot), lay, Node(ino, lay.heights[ino], 0))
      ensures Contents(Pending(snapshot), lay) == Contents(d0, l0)
    {
      ghost var d1, l1 := Pending(snapshot), lay;
      AddedRoot(d0, l0, d1, l1, ino, indir, snapshot.inodeBlockNo, snapshot.slot);
      GrowPlace(d1, l1, ino, indir, snapshot.inodeBlockNo);
      StoreRoot(snapshot, indir);
      lay := Grown(l1, ino);
    }

    /** Inserts one indirect block above the root of file ino. */
    method InsertLevel(snapshot: Snapshot, ino: int) returns (ok: bool)
      requires 0 <= ino < |lay.heights| && snapshot.inodeBlockNo == 1 + ino / 64 < disk.Length
               && snapshot.slot == 2 * (ino % 64)
      requires Inv(Pending(snapshot), lay) && Loose !in lay.at && snapshot.superblock == disk[0]
      modifies disk, this`lay, snapshot`superblock, snapshot`inodeblock
      ensures !ok ==> old(FreeBlocks(lay)) == {} && lay == old(lay)
      ensures ok ==> && snapshot.superblock == disk[0]
                     && lay.heights == old(lay.heights)[ino := old(lay.heights)[ino] + 1]
                     && Added(old(Pending(snapshot)), old(lay), Pending(snapshot), lay, Node(ino, lay.heights[ino], 0))
                     && Contents(Pending(snapshot), lay) == old(Contents(Pending(snapshot), lay))
    {
      ghost var d0, l0 := Pending(snapshot), lay;
      assert lay.owner[snapshot.inodeBlockNo].InodeBlock? by { InodesOnDisk(d0, l0, ino); }
      var indir := AllocBlock(snapshot, snapshot.inodeBlockNo, snapshot.inodeblock);
      ok := indir.Some?;
      if ok {
        GrowRoot(snapshot, ino, indir.value, d0, l0);
      }
    }

    /** Inserts indirect blocks above the root of file ino until its tree has nlevelsAfter levels. */
    method InsertLevels(snapshot: Snapshot, ino: int, offset: nat, nlevelsBefore: nat, nlevelsAfter: nat)
        returns (ok: bool)
      requires 0 <= ino < |lay.heights| && snapshot.inodeBlockNo == 1 + ino / 64 < disk.Length
               && snapshot.slot == 2 * (ino % 64)
      requires Inv(Pending(snapshot), lay) && Loose !in lay.at && snapshot.superblock == disk[0]
      requires lay.heights[ino] == nlevelsBefore < nlevelsAfter == LevelsTo(offset)
      modifies disk, this`lay, snapshot`superblock, snapshot`inodeblock
      ensures !ok ==> |old(FreeBlocks(lay))| < nlevelsAfter - nlevelsBefore
      ensures ok ==> && Inv(Pending(snapshot), lay) && Loose !in lay.at && snapshot.superblock == disk[0]
                     && lay.heights == old(lay.heights)[ino := nlevelsAfter]
                     && |FreeBlocks(lay)| == |old(FreeBlocks(lay))| - (nlevelsAfter - nlevelsBefore)
                     && SameSizes(old(Pending(snapshot)), Pending(snapshot))
                     && Contents(Pending(snapshot), lay) == old(Contents(Pending(snapshot), lay))
                     && Node(ino, nlevelsAfter, 0) in lay.at
                     && forall k: nat :: k < nlevelsAfter ==> OnPath(ino, offset, k) !in lay.at
    {
      hide Contents, FreeBlocks, Slots, Keys, Bijection;
      var nlevels := nlevelsBefore;
      LevelsToIsLeast(offset, nlevels);
      PathAbsent(Pending(snapshot), lay, ino, offset);
      while nlevelsAfter > nlevels
        invariant nlevelsBefore <= nlevels <= nlevelsAfter
        invariant Inv(Pending(snapshot), lay) && Loose !in lay.at && snapshot.superblock == disk[0]
        invariant lay.heights == old(lay.heights)[ino := nlevels]
        invariant |FreeBlocks(lay)| == |old(FreeBlocks(lay))| - (nlevels - nlevelsBefore)
        invariant SameSizes(old(Pending(snapshot)), Pending(snapshot))
        invariant Contents(Pending(snapshot), lay) == old(Contents(Pending(snapshot), lay))
        invariant nlevels > nlevelsBefore ==> Node(ino, nlevels, 0) in lay.at
        invariant forall k: nat :: k < nlevelsAfter ==> OnPath(ino, offset, k) !in lay.at
      {
        var inserted := InsertLevel(snapshot, ino);
        if !inserted {
          return false;
        }
        nlevels := nlevels + 1;
        LevelsToIsLeast(offset, nlevels);
      }
      ok := true;
    }

    /** Allocates a block for node o and stores its number in word i of its parent p, whose content is parent. */
    method AddNode(snapshot: Snapshot, p: int, i: int, parent: Block, ghost o: Owner) returns (r: Option<int>)
      requires 0 <= p < disk.Length && 0 <= i < 128 && Inv(disk[..][p := parent], lay) && Loose !in lay.at
      requires snapshot.superblock == disk[0]
      requires lay.owner[p].Node? || lay.owner[p].InodeBlock?
      requires ChildOf(lay, lay.owner[p], i) == Some(o) && o.Node? && parent[i] == 0
      modifies disk, this`lay, snapshot`superblock
      ensures r.None? ==> old(FreeBlocks(lay)) == {} && lay == old(lay)
      ensures r.Some? ==> 0 < r.value < disk.Length && snapshot.superblock == disk[0] && lay.heights == old(lay.heights)
      ensures r.Some? ==>
                var d, d' := old(disk[..])[p := parent], disk[..][r.value := if o.level > 0 then NULL_BLOCK
                                                                  else disk[r.value]];
                && Added(d, old(lay), d', lay, o) && lay.owner[r.value] == o
                && Contents(d', lay) == if o.level > 0 then Contents(d, old(lay))
                   else Contents(d, old(lay))[o := disk[r.value]]
    {
      hide Contents, FreeBlocks, SameSizes, Slots, Keys, ChildOf, NodesPlus, Took;
      ghost var d, l := disk[..][p := parent], lay;
      SuperFirst(d, lay);
      r := AllocBlock(snapshot, p, parent);
      if r.None? {
        return;
      }
      TookLoose(d, l, disk[..][p := parent], lay, r.value);
      ghost var d1, l1 := disk[..][p := parent], lay;
      ghost var content := if o.level > 0 then NULL_BLOCK else disk[r.value];
      AddedNode(d, l, d1, l1, p, i, o, r.value, content);
      Rewritten(disk[..], p, parent, parent[i := r.value]);
      WriteBelow(p, parent[i := r.value]);
      lay := Relabel(l1, Loose, o);
    }

    /** One step of the walk of a write: gets or allocates the path's node at `level`, below word i of block p.
        tib is the up-to-date content of that node, which for a new node is not on disk yet. */
    method Descend(snapshot: Snapshot, p: int, i: int, parent: Block, level: nat,
                   ghost d0: seq<Block>, ghost l0: Layout, ghost ino: int, ghost offset: nat, ghost top: nat)
      returns (r: Option<int>, tib: Block)
      requires 0 <= p < disk.Length && 0 <= i < 128 && snapshot.superblock == disk[0]
      requires OnTheWay(d0, l0, disk[..][p := parent], lay, ino, offset, top, p, i, level)
      requires parent[i] != 0 ==> disk[p] == parent
      modifies disk, this`lay, snapshot`superblock
      ensures r.None? ==> |old(FreeBlocks(lay))| == 0 && OnPath(ino, offset, level) !in old(lay.at)
      ensures r.Some? ==> && 0 < r.value < disk.Length && snapshot.superblock == disk[0]
                          && (tib == disk[r.value] || tib == NULL_BLOCK)
      ensures r.Some? && level > 0 ==>
                OnTheWay(d0, l0, disk[..][r.value := tib], lay, ino, offset, top, r.value, Up(offset, level - 1) % 128,
                         level - 1)
      ensures r.Some? && level == 0 ==> Arrived(d0, l0, disk[..], lay, ino, offset, top, r.value)
    {
      ghost var d, l := disk[..][p := parent], lay;
      if parent[i] == 0 {
        assert SlotOk(d, l, p, i);
        r := AddNode(snapshot, p, i, parent, OnPath(ino, offset, level));
        tib := NULL_BLOCK;
        if r.Some? {
          ghost var b := r.value;
          ghost var d' := disk[..][b := if level > 0 then NULL_BLOCK else disk[b]];
          assert level == 0 ==> d' == disk[..];
          WalkAdded(d0, l0, d, l, d', lay, ino, offset, top, p, i, level, b);
        }
      } else {
        assert d == disk[..];
        WalkExisting(d0, l0, d, l, ino, offset, top, p, i, level);
        r := Some(parent[i]);
        tib := ReadBelow(parent[i]);
        assert disk[..][parent[i] := tib] == disk[..];
      }
    }

    /** Walks down to leaf `offset`, allocating what is missing on the way, and writes the block there. */
    method PlaceBlock(snapshot: Snapshot, ino: int, offset: nat, nlevels: nat, block: Block) returns (ok: bool)
      requires logRpb == 7 && offset < WORD_LIMIT
      requires 0 <= ino < |lay.heights| && snapshot.inodeBlockNo == 1 + ino / 64 < disk.Length
               && snapshot.slot == 2 * (ino % 64)
      requires Inv(disk[..], lay) && Loose !in lay.at && snapshot.superblock == disk[0]
      requires snapshot.inodeblock == disk[snapshot.inodeBlockNo]
      requires lay.heights[ino] == nlevels && Up(offset, nlevels) == 0
      modifies disk, this`lay, snapshot`superblock
      ensures !ok ==> |old(FreeBlocks(lay))| < Missing(old(lay), ino, offset, nlevels)
      ensures ok ==> && Inv(disk[..], lay) && Loose !in lay.at
                     && lay.heights == old(lay.heights)
                     && |FreeBlocks(lay)| == |old(FreeBlocks(lay))| - Missing(old(lay), ino, offset, nlevels)
                     && SameSizes(old(disk[..]), disk[..])
                     && Contents(disk[..], lay) == old(Contents(disk[..], lay))[Node(ino, 0, offset) := block]
    {
      ghost var d0, l0 := disk[..], lay;
      InodesOnDisk(d0, l0, ino);
      var parentOff, parentIdx, parentBlock := snapshot.inodeBlockNo, snapshot.slot, snapshot.inodeblock;
      var level: nat := nlevels;
      var b: int;
      assert disk[..][parentOff := parentBlock] == d0;
      while true
        invariant 0 <= parentOff < disk.Length && 0 <= parentIdx < 128 && snapshot.superblock == disk[0]
        invariant OnTheWay(d0, l0, disk[..][parentOff := parentBlock], lay, ino, offset, nlevels, parentOff, parentIdx,
                           level)
        invariant parentBlock[parentIdx] != 0 ==> disk[parentOff] == parentBlock
        decreases level
      {
        var r, tib := Descend(snapshot, parentOff, parentIdx, parentBlock, level, d0, l0, ino, offset, nlevels);
        if r.None? {
          return false;
        }
        b := r.value;
        if level == 0 {
          break;
        }
        level := level - 1;
        LogShiftRIsUp(offset, level);
        parentOff, parentIdx, parentBlock := b, LogShiftR(offset, level * logRpb) % REFS_PER_BLOCK, tib;
      }
      WriteArrived(d0, l0, disk[..], lay, ino, offset, nlevels, b, block);
      WriteBelow(b, block);
      ok := true;
    }

    /** Sets the size in the working copy of the inode. */
    method GrowSize(snapshot: Snapshot, ino: int, offset: nat)
      requires Valid() && 0 <= ino < |lay.heights| && offset < WORD_LIMIT - 1
      requires snapshot.inodeBlockNo == 1 + ino / 64 < disk.Length && snapshot.slot == 2 * (ino % 64)
      requires snapshot.inodeblock == disk[snapshot.inodeBlockNo] && snapshot.inodeblock[snapshot.slot + 1] <= offset
      modifies snapshot`inodeblock
      ensures Inv(Pending(snapshot), lay) && SizesAfter(disk[..], Pending(snapshot), ino, offset)
      ensures Contents(Pending(snapshot), lay) == Contents(disk[..], lay)
      ensures snapshot.inodeblock[snapshot.slot + 1] == offset + 1
    {
      SetSize(disk[..], lay, ino, offset + 1);
      snapshot.inodeblock := snapshot.inodeblock[snapshot.slot + 1 := SizeAfterWrite(offset)];
    }

    /** Counts the levels of file ino before and after a write, and records a larger size in the working copy. */
    method RecordSize(snapshot: Snapshot, ino: int, offset: nat)
        returns (nlevels: nat, nlevelsAfter: nat, dirtyInode: bool)
      requires Valid() && 0 <= ino < |lay.heights| && offset < WORD_LIMIT - 1
      requires snapshot.inodeBlockNo == 1 + ino / 64 < disk.Length && snapshot.slot == 2 * (ino % 64)
      requires snapshot.inodeblock == disk[snapshot.inodeBlockNo]
      modifies snapshot`inodeblock
      ensures nlevels == lay.heights[ino] && nlevelsAfter == HeightAfter(disk[..], lay, ino, offset)
      ensures Inv(Pending(snapshot), lay) && SizesAfter(disk[..], Pending(snapshot), ino, offset)
      ensures Contents(Pending(snapshot), lay) == Contents(disk[..], lay)
      ensures snapshot.inodeblock[snapshot.slot + 1] != 0
      ensures !dirtyInode ==> nlevelsAfter == nlevels && snapshot.inodeblock == disk[snapshot.inodeBlockNo]
    {
      assert FileOk(disk[..], lay, ino);
      var slot := snapshot.slot;
      var nblocks: int := snapshot.inodeblock[slot + 1];
      nlevels := 0;
      if nblocks > 0 {
        nlevels := CountLevels(nblocks - 1, logRpb);
      }
      if offset >= nblocks {
        GrowSize(snapshot, ino, offset);
        dirtyInode := true;
        nlevelsAfter := CountLevels(offset, logRpb);
      } else {
        assert Pending(snapshot) == disk[..];
        dirtyInode := false;
        nlevelsAfter := nlevels;
      }
    }

    /** The first half of a write: records the new size and inserts the new levels. */
    method MakeRoom(snapshot: Snapshot, ino: int, offset: nat) returns (ok: bool, nlevels: nat)
      requires Valid() && 0 <= ino < |lay.heights| && offset < WORD_LIMIT - 1
      requires snapshot.inodeBlockNo == 1 + ino / 64 < disk.Length && snapshot.slot == 2 * (ino % 64)
      requires snapshot.superblock == disk[0] && snapshot.inodeblock == disk[snapshot.inodeBlockNo]
      modifies disk, this`lay, snapshot`superblock, snapshot`inodeblock
      ensures !ok ==> |old(FreeBlocks(lay))| < Growth(old(disk[..]), old(lay), ino, offset)
      ensures ok ==> && Inv(disk[..], lay) && Loose !in lay.at
                     && snapshot.superblock == disk[0] && snapshot.inodeblock == disk[snapshot.inodeBlockNo]
                     && nlevels == HeightAfter(old(disk[..]), old(lay), ino, offset)
                     && lay.heights == old(lay.heights)[ino := nlevels]
                     && |FreeBlocks(lay)| == |old(FreeBlocks(lay))| - Growth(old(disk[..]), old(lay), ino, offset)
                     && SizesAfter(old(disk[..]), disk[..], ino, offset)
                     && Contents(disk[..], lay) == old(Contents(disk[..], lay))
                     && Need(old(disk[..]), old(lay), ino, offset)
                        == Growth(old(disk[..]), old(lay), ino, offset) + Missing(lay, ino, offset, nlevels)
    {
      ghost var d0, l0 := disk[..], lay;
      HeightAfterFits(d0, l0, ino, offset);
      var nlevelsAfter, dirtyInode;
      nlevels, nlevelsAfter, dirtyInode := RecordSize(snapshot, ino, offset);
      ghost var d1 := Pending(snapshot);
      ok := true;
      var target: int := nlevelsAfter;
      var level: int := nlevels;
      if snapshot.inodeblock[snapshot.slot + 1] == 0 {
        level := target;  // never taken: the size has just been set
      } else if target > level {
        ok := InsertLevels(snapshot, ino, offset, nlevels, nlevelsAfter);
        if !ok {
          return;
        }
        level := target;
        dirtyInode := true;
      }
      nlevels := level;
      ghost var d2 := Pending(snapshot);
      if dirtyInode {
        WriteBelow(snapshot.inodeBlockNo, snapshot.inodeblock);
      }
      assert disk[..] == d2;
      SizesAfterSame(d0, d1, d2, ino, offset);
      NeedSplits(d0, l0, lay, ino, offset);
    }

    /** Writes block `offset` of file ino.  The largest 32-bit offset is excluded: see SizeAfterWriteCovers. */
    method Write(ino: int, offset: nat, block: Block) returns (r: Outcome)
      requires Valid() && 0 <= ino && offset < WORD_LIMIT - 1
      modifies disk, this`lay
      ensures r == Error <==> ino >= InodeLimit(old(disk[0]))
      ensures r == Error ==> disk[..] == old(disk[..]) && lay == old(lay)
      ensures r == Panic <==> && ino < InodeLimit(old(disk[0]))
                              && |old(FreeBlocks(lay))| < Need(old(disk[..]), old(lay), ino, offset)
      ensures r == Done ==> && Valid()
                            && Files(disk[..], lay)
                               == old(Files(disk[..], lay))[ino := Put(old(Files(disk[..], lay))[ino], offset, block)]
                            && |FreeBlocks(lay)| == |old(FreeBlocks(lay))| - Need(old(disk[..]), old(lay), ino, offset)
    {
      ghost var d0, l0 := disk[..], lay;
      var snapshot := new Snapshot();
      var ok := GetSnapshot(snapshot, ino);
      if !ok {
        return Error;
      }
      HeightAfterFits(d0, l0, ino, offset);
      var nlevels;
      ok, nlevels := MakeRoom(snapshot, ino, offset);
      if !ok {
        return Panic;
      }
      ghost var d1, l1 := disk[..], lay;
      ok := PlaceBlock(snapshot, ino, offset, nlevels, block);
      if !ok {
        return Panic;
      }
      SizesAfterSame(d0, d1, disk[..], ino, offset);
      WriteRefines(d0, l0, disk[..], lay, ino, offset, block);
      r := Done;
    }
  }
}
