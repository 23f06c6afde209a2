/** What the treedisk implements: a store of files, each an array of blocks with holes that read as null blocks. */
module FileStore {
  import opened Wrappers
  import opened TreeDiskLayout

  /** A file of `size` blocks, of which those at the offsets in `blocks` have been written. */
  datatype File = File(size: nat, blocks: map<int, Block>)

  const EMPTY_FILE := File(0, map[])

  function EmptyFiles(n: nat): (files: seq<File>)
    ensures |files| == n && forall i :: 0 <= i < n ==> files[i] == EMPTY_FILE
  {
    seq(n, i => EMPTY_FILE)
  }

  function Put(f: File, offset: nat, b: Block): File {
    File(if offset >= f.size then offset + 1 else f.size, f.blocks[offset := b])
  }

  function Get(f: File, offset: nat): Option<Block> {
    if offset >= f.size then None
    else if offset in f.blocks then Some(f.blocks[offset])
    else Some(NULL_BLOCK)
  }

  /** One successful write. */
  datatype WriteOp = WriteOp(ino: nat, offset: nat, content: Block)

  predicate WritesTo(op: WriteOp, ino: nat, offset: nat) {
    op.ino == ino && op.offset == offset
  }

  predicate WithinFiles(ops: seq<WriteOp>, n: nat) {
    forall k :: 0 <= k < |ops| ==> ops[k].ino < n
  }

  function Replay(files: seq<File>, ops: seq<WriteOp>): (r: seq<File>)
    requires WithinFiles(ops, |files|)
    ensures |r| == |files|
  {
    if ops == [] then files
    else
      var before, last := Replay(files, ops[..|ops| - 1]), ops[|ops| - 1];
      before[last.ino := Put(before[last.ino], last.offset, last.content)]
  }

  /** The history in plain terms: what was last written to (ino, offset), if anything was. */
  function LastWrite(ops: seq<WriteOp>, ino: nat, offset: nat): Option<Block> {
    if ops == [] then None
    else if WritesTo(ops[|ops| - 1], ino, offset) then Some(ops[|ops| - 1].content)
    else LastWrite(ops[..|ops| - 1], ino, offset)
  }

  function SizeOf(ops: seq<WriteOp>, ino: nat): nat {
    if ops == [] then 0
    else
      var s := SizeOf(ops[..|ops| - 1], ino);
      if ops[|ops| - 1].ino == ino && ops[|ops| - 1].offset >= s then ops[|ops| - 1].offset + 1 else s
  }

  lemma {:induction false} SizeIsMaxPlusOne(ops: seq<WriteOp>, ino: nat)
    ensures forall k :: 0 <= k < |ops| && ops[k].ino == ino ==> ops[k].offset < SizeOf(ops, ino)
    ensures SizeOf(ops, ino) > 0 ==>
              exists k :: 0 <= k < |ops| && ops[k].ino == ino && ops[k].offset == SizeOf(ops, ino) - 1
  {
    if ops != [] {
      var init := ops[..|ops| - 1];
      SizeIsMaxPlusOne(init, ino);
      if SizeOf(ops, ino) > 0 {
        if SizeOf(ops, ino) == SizeOf(init, ino) {
          var k :| 0 <= k < |init| && init[k].ino == ino && init[k].offset == SizeOf(init, ino) - 1;
          assert ops[k] == init[k];
        } else {
          assert ops[|ops| - 1].ino == ino;
        }
      }
    }
  }

  /** That is the content of a write to (ino, offset) with no other one after it, or None if there is no such write. */
  lemma {:induction false} LastWriteIs(ops: seq<WriteOp>, ino: nat, offset: nat)
    ensures LastWrite(ops, ino, offset).None? ==>
              forall k :: 0 <= k < |ops| ==> ops[k].ino != ino || ops[k].offset != offset
    ensures LastWrite(ops, ino, offset).Some? ==> exists k :: IsLastWrite(ops, ino, offset, k)
                                                           && LastWrite(ops, ino, offset).value == ops[k].content
  {
    if ops != [] {
      var init := ops[..|ops| - 1];
      LastWriteIs(init, ino, offset);
      if WritesTo(ops[|ops| - 1], ino, offset) {
        assert IsLastWrite(ops, ino, offset, |ops| - 1);
      } else if LastWrite(init, ino, offset).Some? {
        var k :| IsLastWrite(init, ino, offset, k) && LastWrite(init, ino, offset).value == init[k].content;
        assert IsLastWrite(ops, ino, offset, k);
      }
    }
  }

  ghost predicate IsLastWrite(ops: seq<WriteOp>, ino: nat, offset: nat, k: int) {
    && 0 <= k < |ops| && ops[k].ino == ino && ops[k].offset == offset
    && forall m :: k < m < |ops| ==> ops[m].ino != ino || ops[m].offset != offset
  }

  /** After any run of writes to empty files, a read gives the last block written there, null for a hole, or an error
      beyond the largest offset written. */
  lemma {:induction false} ReadAfterWrites(n: nat, ops: seq<WriteOp>, ino: nat, offset: nat)
    requires WithinFiles(ops, n)
    requires ino < n
    ensures var f := Replay(EmptyFiles(n), ops)[ino];
            && f.size == SizeOf(ops, ino)
            && (offset in f.blocks <==> LastWrite(ops, ino, offset).Some?)
            && (offset in f.blocks ==> offset < f.size)
            && Get(f, offset) == if offset >= SizeOf(ops, ino) then None
                                 else if LastWrite(ops, ino, offset).Some? then LastWrite(ops, ino, offset)
                                 else Some(NULL_BLOCK)
  {
    if ops != [] {
      ReadAfterWrites(n, ops[..|ops| - 1], ino, offset);
    }
  }
}
