/** Runs of the treedisk: building a file system on a raw disk (tools/mkfs.c) and reading it back (sys_file.c). */
module MakeFs {
  import opened Wrappers
  import opened TreeDiskLayout
  import opened TreeDiskFiles
  import opened TreeDiskFormat
  import opened FileStore
  import opened TreeDisk

  /** A disk between two operations. */
  datatype State = State(d: seq<Block>, l: Layout)

  /** The free blocks of a state. */
  function Free(s: State): nat {
    |FreeBlocks(s.l)|
  }

  /** From state s, a write goes through to state s': the file store gains the block, and exactly what the write needs
      is spent. */
  ghost predicate Written(s: State, op: WriteOp, s': State) {
    && Consistent(s.d, s.l) && Consistent(s'.d, s'.l) && op.ino < |Files(s.d, s.l)| && HasInode(s.d, op.ino)
    && Files(s'.d, s'.l) == Files(s.d, s.l)[op.ino := Put(Files(s.d, s.l)[op.ino], op.offset, op.content)]
    && Free(s) == Free(s') + Need(s.d, s.l, op.ino, op.offset)
  }

  /** The write is to an inode that does not exist, or needs more blocks than are free. */
  ghost predicate Fails(s: State, op: WriteOp) {
    |s.d| > 0 && (op.ino < Store.InodeLimit(s.d[0]) ==> NeedsMore(s, op))
  }

  ghost predicate NeedsMore(s: State, op: WriteOp) {
    op.ino < |s.l.heights| && HasInode(s.d, op.ino) && Free(s) < Need(s.d, s.l, op.ino, op.offset)
  }

  /** The states of a run of writes, and all that it has spent. */
  ghost predicate IsTrace(trace: seq<State>, ops: seq<WriteOp>) {
    && |trace| == |ops| + 1
    && forall k, m {:trigger Written(trace[k], ops[k], trace[m])} :: 0 <= k < |ops| && m == k + 1 ==>
         Written(trace[k], ops[k], trace[m])
  }

  ghost function Spent(trace: seq<State>, ops: seq<WriteOp>): nat
    requires IsTrace(trace, ops)
    decreases |ops|
  {
    if ops == [] then 0
    else
      var n := |ops| - 1;
      assert Written(trace[n], ops[n], trace[n + 1]);
      TracePrefix(trace, ops);
      Spent(trace[..n + 1], ops[..n]) + Need(trace[n].d, trace[n].l, ops[n].ino, ops[n].offset)
  }

  lemma TracePrefix(trace: seq<State>, ops: seq<WriteOp>)
    requires IsTrace(trace, ops) && ops != []
    ensures IsTrace(trace[..|trace| - 1], ops[..|ops| - 1])
  {
    var t, o := trace[..|trace| - 1], ops[..|ops| - 1];
    forall k, m | 0 <= k < |o| && m == k + 1
      ensures Written(t[k], o[k], t[m])
    {
      assert Written(trace[k], ops[k], trace[m]);
    }
  }

  lemma TraceExtended(trace: seq<State>, ops: seq<WriteOp>, op: WriteOp, s: State)
    requires IsTrace(trace, ops) && Written(trace[|ops|], op, s)
    ensures IsTrace(trace + [s], ops + [op])
  {
    var t, o := trace + [s], ops + [op];
    forall k, m | 0 <= k < |o| && m == k + 1
      ensures Written(t[k], o[k], t[m])
    {
      assert k < |ops| ==> Written(trace[k], ops[k], trace[m]);
    }
  }

  /** What a trace adds up to: the free blocks lost are those spent, ten for a write at most, and the files are the
      replay. */
  lemma {:induction false} TraceAddsUp(trace: seq<State>, ops: seq<WriteOp>)
    requires IsTrace(trace, ops) && Consistent(trace[0].d, trace[0].l)
    requires forall k :: 0 <= k < |ops| ==> ops[k].offset < WORD_LIMIT
    ensures Consistent(trace[|ops|].d, trace[|ops|].l) && WithinFiles(ops, |Files(trace[0].d, trace[0].l)|)
    ensures Free(trace[0]) == Free(trace[|ops|]) + Spent(trace, ops) && Spent(trace, ops) <= 10 * |ops|
    ensures Files(trace[|ops|].d, trace[|ops|].l) == Replay(Files(trace[0].d, trace[0].l), ops)
    decreases |ops|
  {
    if ops != [] {
      var n := |ops| - 1;
      TracePrefix(trace, ops);
      TraceAddsUp(trace[..n + 1], ops[..n]);
      assert Written(trace[n], ops[n], trace[n + 1]);
      NeedAtMostTen(trace[n].d, trace[n].l, ops[n].ino, ops[n].offset);
      assert ops == ops[..n] + [ops[n]];
    }
  }

  /** One write of a run. */
  method WriteOne(fs: Store, op: WriteOp) returns (ok: bool)
    requires fs.Valid() && op.offset < WORD_LIMIT - 1
    modifies fs.disk, fs`lay
    ensures ok <==> !Fails(State(old(fs.disk[..]), old(fs.lay)), op)
    ensures ok ==> fs.Valid() && fs.disk[0][0] == old(fs.disk[0][0])
                   && Written(State(old(fs.disk[..]), old(fs.lay)), op, State(fs.disk[..], fs.lay))
  {
    InodesExist(fs.disk[..], fs.lay, op.ino);
    var r := fs.Write(op.ino, op.offset, op.content);
    ok := r == Done;
  }

  lemma InodesExist(d: seq<Block>, l: Layout, ino: nat)
    requires Inv(d, l)
    ensures ino < Store.InodeLimit(d[0]) ==> ino < |l.heights| && HasInode(d, ino)
  {
    if ino < |l.heights| {
      InodesOnDisk(d, l, ino);
    }
  }

  lemma PrefixNext(ops: seq<WriteOp>, k: nat)
    requires k < |ops|
    ensures ops[..k + 1] == ops[..k] + [ops[k]]
  {
  }

  /** Any run of writes. It stops at the first write that is to an inode that does not exist or needs more blocks
      than are free, and the latter cannot happen with ten free blocks for every write; up to there it goes through
      the states of a trace, and its last state is the store. */
  method WriteAll(fs: Store, ops: seq<WriteOp>) returns (done: nat, ghost trace: seq<State>)
    requires fs.Valid() && forall k :: 0 <= k < |ops| ==> ops[k].offset < WORD_LIMIT - 1
    modifies fs.disk, fs`lay
    ensures done <= |ops| && IsTrace(trace, ops[..done]) && trace[0] == State(old(fs.disk[..]), old(fs.lay))
    ensures Free(trace[0]) == Free(trace[done]) + Spent(trace, ops[..done])
    ensures done == |ops| ==> fs.Valid() && trace[done] == State(fs.disk[..], fs.lay)
                              && WithinFiles(ops, |old(Files(fs.disk[..], fs.lay))|)
                              && Files(fs.disk[..], fs.lay) == Replay(old(Files(fs.disk[..], fs.lay)), ops)
                              && fs.disk[0][0] == old(fs.disk[0][0])
    ensures done < |ops| ==> Fails(trace[done], ops[done]) && trace[done].d[0][0] == old(fs.disk[0][0])
    ensures |old(FreeBlocks(fs.lay))| >= 10 * |ops| && WithinFiles(ops, Store.InodeLimit(old(fs.disk[0]))) ==>
              done == |ops|
  {
    done := 0;
    trace := [State(fs.disk[..], fs.lay)];
    assert ops[..0] == [];
    while done < |ops|
      invariant done <= |ops| && fs.Valid() && fs.disk[0][0] == old(fs.disk[0][0])
      invariant IsTrace(trace, ops[..done])
      invariant trace[0] == State(old(fs.disk[..]), old(fs.lay)) && trace[done] == State(fs.disk[..], fs.lay)
    {
      TraceAddsUp(trace, ops[..done]);
      var ok := WriteOne(fs, ops[done]);
      if !ok {
        FailsFor(trace[done], ops[done]);
        return;
      }
      PrefixNext(ops, done);
      TraceExtended(trace, ops[..done], ops[done], State(fs.disk[..], fs.lay));
      trace := trace + [State(fs.disk[..], fs.lay)];
      done := done + 1;
    }
    assert ops[..done] == ops;
    TraceAddsUp(trace, ops);
  }

  lemma FailsFor(s: State, op: WriteOp)
    requires Consistent(s.d, s.l) && Fails(s, op) && op.offset < WORD_LIMIT
    ensures op.ino >= Store.InodeLimit(s.d[0]) || Free(s) < 10
  {
    if op.ino < Store.InodeLimit(s.d[0]) {
      NeedAtMostTen(s.d, s.l, op.ino, op.offset);
    }
  }

  lemma FormattedCounts(d: seq<Block>, n: nat)
    requires Formatted(d, n) && 64 * n < WORD_LIMIT
    ensures Consistent(d, InitialLayout(|d|, n)) && Files(d, InitialLayout(|d|, n)) == EmptyFiles(64 * n)
    ensures Store.InodeLimit(d[0]) == 64 * n
    ensures |FreeBlocks(InitialLayout(|d|, n))| == |d| - 1 - n
  {
    hide Consistent, Inv, Files, FreeBlocks, InitialLayout;
    FormattedIsConsistent(d, n);
  }

  /** Creates and opens a file system on a disk of any content whose superblock is blank; it has the inodes asked
      for, or none if their number is so large that it overflows. */
  method Format(disk: array<Block>, ninodes: nat) returns (fs: Store?)
    requires 0 < disk.Length < WORD_LIMIT && ninodes < WORD_LIMIT && disk[0][0] == 0
    modifies disk
    ensures fs == null <==> InodesFor(ninodes) > 64 * (disk.Length - 2)
    ensures fs != null ==> && fresh(fs) && fs.disk == disk && fs.Valid()
                           && Store.InodeLimit(disk[0]) == InodesFor(ninodes)
                           && Files(disk[..], fs.lay) == EmptyFiles(InodesFor(ninodes))
                           && 64 * |FreeBlocks(fs.lay)| == 64 * (disk.Length - 1) - InodesFor(ninodes)
  {
    hide InodesFor;
    InodeBlocksHold(ninodes);
    var created := Create(disk, ninodes);
    if created != 0 {
      return null;
    }
    FormattedCounts(disk[..], InodeBlocksFor(ninodes));
    fs := new Store.Init(disk, InitialLayout(disk.Length, InodeBlocksFor(ninodes)));
  }

  /** Where a run of writes on a newly formatted disk has come to: it began with so many empty files and free blocks,
      and the first write that has not been done, if any, is to another inode or needs more blocks than are left. */
  ghost predicate CameTo(trace: seq<State>, ops: seq<WriteOp>, done: nat, inodes: nat, nblocks: int) {
    && done <= |ops| && IsTrace(trace, ops[..done]) && Consistent(trace[0].d, trace[0].l)
    && Files(trace[0].d, trace[0].l) == EmptyFiles(inodes) && 64 * Free(trace[0]) == 64 * (nblocks - 1) - inodes
    && Free(trace[0]) == Free(trace[done]) + Spent(trace, ops[..done])
    && (done < |ops| ==> ops[done].ino >= inodes || NeedsMore(trace[done], ops[done]))
  }

  /** The writes are to the inodes asked for, and there are ten blocks for each. */
  predicate RoomFor(ninodes: nat, ops: seq<WriteOp>, nblocks: nat) {
    && ninodes <= 0x1_0000_0000 - 64 && WithinFiles(ops, ninodes)
    && ninodes + 63 <= 64 * (nblocks - 2 - 10 * |ops|)
  }

  /** Formats a disk (null if it is too small) and performs a run of writes, up to the first one that is to an inode
      that does not exist or needs more blocks than are free. */
  method FormatWrite(disk: array<Block>, ninodes: nat, ops: seq<WriteOp>)
      returns (fs: Store?, done: nat, ghost trace: seq<State>)
    requires 0 < disk.Length < WORD_LIMIT && ninodes < WORD_LIMIT && disk[0][0] == 0
    requires forall k :: 0 <= k < |ops| ==> ops[k].offset < WORD_LIMIT - 1
    modifies disk
    ensures fs == null <==> InodesFor(ninodes) > 64 * (disk.Length - 2)
    ensures fs != null ==> CameTo(trace, ops, done, InodesFor(ninodes), disk.Length)
    ensures RoomFor(ninodes, ops, disk.Length) ==> fs != null && done == |ops|
    ensures fs != null && done == |ops| ==>
              && fresh(fs) && fs.disk == disk && fs.Valid() && Store.InodeLimit(disk[0]) == InodesFor(ninodes)
              && WithinFiles(ops, InodesFor(ninodes))
              && Files(disk[..], fs.lay) == Replay(EmptyFiles(InodesFor(ninodes)), ops)
  {
    done, trace := 0, [];
    fs := Format(disk, ninodes);
    if fs != null {
      done, trace := WriteAll(fs, ops);
    }
  }

  /** Formats a disk of any content whose superblock is blank, performs any run of writes, and then reads any block
      of an inode asked for: the read gives the last block written there, null where nothing was, and an error beyond
      the last offset written. It does not come to the read only if the disk is too small to format, an inode does
      not exist, or the blocks run out. */
  method FormatWriteRead(disk: array<Block>, ninodes: nat, ops: seq<WriteOp>, ino: nat, offset: nat)
      returns (ok: bool, r: Option<Block>, done: nat, ghost trace: seq<State>)
    requires 0 < disk.Length < WORD_LIMIT && ninodes < WORD_LIMIT && disk[0][0] == 0 && offset < WORD_LIMIT
    requires forall k :: 0 <= k < |ops| ==> ops[k].offset < WORD_LIMIT - 1
    modifies disk
    ensures ok <==> InodesFor(ninodes) <= 64 * (disk.Length - 2) && done == |ops|
    ensures InodesFor(ninodes) <= 64 * (disk.Length - 2) ==>
              CameTo(trace, ops, done, InodesFor(ninodes), disk.Length)
    ensures RoomFor(ninodes, ops, disk.Length) ==> ok
    ensures ok ==> r == if ino >= InodesFor(ninodes) || offset >= SizeOf(ops, ino) then None
                        else if LastWrite(ops, ino, offset).Some? then LastWrite(ops, ino, offset)
                        else Some(NULL_BLOCK)
  {
    var fs;
    fs, done, trace := FormatWrite(disk, ninodes, ops);
    ok, r := fs != null && done == |ops|, None;
    if ok {
      if ino < InodesFor(ninodes) {
        ReadAfterWrites(InodesFor(ninodes), ops, ino, offset);
      }
      r := fs.Read(ino, offset);
    }
  }
}
