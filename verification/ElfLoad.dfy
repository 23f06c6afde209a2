/**
 The ELF loader of egos (library/elf/elf.c), on top of the software TLB: it maps fresh frames into the address space of
 a process that is not running, and fills these frames directly.
 */
module ElfLoad {
  import opened Wrappers
  import opened Memory
  import opened SoftTlb
  import opened ElfImage
  import opened ElfArguments
  import opened SetSizes

  const STACK_TOP_PAGE := 0x80400  // APPS_STACK_TOP / PAGE_SIZE

  /** The pages that every process has besides its segments: arguments, system call, and two of stack. */
  predicate IsCommonPage(vpageNo: int) {
    || vpageNo == ARG_PAGE || vpageNo == SYSCALL_PAGE
    || vpageNo == STACK_TOP_PAGE - 1 || vpageNo == STACK_TOP_PAGE - 2
  }

  function UnusedFrames(table: seq<PageInfo>): set<int> {
    set i | 0 <= i < |table| && !table[i].use
  }

  function Unused(table: seq<PageInfo>): nat {
    |UnusedFrames(table)|
  }

  lemma UnusedUpdate(table: seq<PageInfo>, i: int, info: PageInfo)
    requires 0 <= i < |table| && !table[i].use && info.use
    ensures Unused(table[i := info]) == Unused(table) - 1
  {
    assert UnusedFrames(table[i := info]) == UnusedFrames(table) - {i};
  }

  lemma UnusedZero(table: seq<PageInfo>)
    ensures Unused(table) == 0 <==> forall i :: 0 <= i < |table| ==> table[i].use
  {
    if forall i :: 0 <= i < |table| ==> table[i].use {
      assert UnusedFrames(table) == {};
    } else {
      var i :| 0 <= i < |table| && !table[i].use;
      assert i in UnusedFrames(table);
    }
  }

  /** Frames that are in use without being the frame of a page. */
  function Unplaced(table: seq<PageInfo>): set<int> {
    set i | 0 <= i < |table| && table[i].use && table[i].pid == 0
  }

  function PlacedBelow(table: seq<PageInfo>, n: nat): set<int>
    requires n <= |table|
  {
    set i | 0 <= i < n && table[i].pid != 0
  }

  function PagesIn(frameOf: map<Addr, int>, n: nat): set<Addr> {
    set a | a in frameOf && frameOf[a] < n
  }

  lemma PlacedStep(table: seq<PageInfo>, n: nat)
    requires n < |table|
    ensures n !in PlacedBelow(table, n)
    ensures PlacedBelow(table, n + 1) == PlacedBelow(table, n) + if table[n].pid != 0 then {n} else {}
  {
  }

  lemma PageStep(table: seq<PageInfo>, frameOf: map<Addr, int>, n: nat)
    requires TableOk(table, frameOf) && n < |table|
    ensures var a := Addr(table[n].pid, table[n].vpageNo);
            && a !in PagesIn(frameOf, n)
            && PagesIn(frameOf, n + 1) == PagesIn(frameOf, n) + if table[n].pid != 0 then {a} else {}
  {
    var a := Addr(table[n].pid, table[n].vpageNo);
    forall b | b in frameOf
      ensures frameOf[b] == n <==> table[n].pid != 0 && b == a
    {
    }
  }

  lemma NothingBelowZero(table: seq<PageInfo>, frameOf: map<Addr, int>)
    requires TableOk(table, frameOf)
    ensures PlacedBelow(table, 0) == {} && PagesIn(frameOf, 0) == {}
  {
  }

  /** The frames below n that belong to pages, one for each of these pages. */
  lemma {:induction false} PagesBelow(table: seq<PageInfo>, frameOf: map<Addr, int>, n: nat)
    requires TableOk(table, frameOf) && n <= |table|
    ensures |PlacedBelow(table, n)| == |PagesIn(frameOf, n)|
  {
    hide TableOk, PlacedBelow, PagesIn;
    if n == 0 {
      NothingBelowZero(table, frameOf);
    } else {
      PagesBelow(table, frameOf, n - 1);
      PlacedStep(table, n - 1);
      PageStep(table, frameOf, n - 1);
    }
  }

  /** The numbers below n, divided into three sets. */
  lemma ThreeParts(n: nat, x: set<int>, y: set<int>, z: set<int>)
    requires forall i :: 0 <= i < n <==> i in x || i in y || i in z
    requires x !! y !! z
    ensures |x| + |y| + |z| == n
  {
    BelowSize(n);
    assert Below(n) == x + y + z;
  }

  /** Every frame is unused, belongs to one page, or is in use without a page. */
  lemma FramesAccounted(table: seq<PageInfo>, frameOf: map<Addr, int>)
    requires TableOk(table, frameOf)
    ensures Unused(table) + |Unplaced(table)| + |frameOf| == 512
  {
    PagesBelow(table, frameOf, |table|);
    assert frameOf.Keys == PagesIn(frameOf, |table|);
    ThreeParts(APPS_PAGES_CNT, UnusedFrames(table), Unplaced(table), PlacedBelow(table, |table|));
  }

  lemma Placed(table: seq<PageInfo>, i: int, info: PageInfo)
    requires 0 <= i < |table| && !table[i].use && info.use && info.pid != 0
    ensures Unplaced(table[i := info]) == Unplaced(table)
  {
  }

  /** No page of a process other than pid has come, gone or changed. */
  ghost predicate OthersKept(spaces0: Spaces, spaces: Spaces, pid: int) {
    forall a: Addr :: a.pid != pid ==>
      (a in spaces <==> a in spaces0) && (a in spaces ==> spaces[a] == spaces0[a])
  }

  /** Loading pid has come to a halt in mmu_alloc: all frames are in use, and the other processes see what they saw. */
  ghost predicate Halted(mmu: Mmu, pid: int, spaces0: Spaces)
    reads mmu, mmu.table
  {
    Unused(mmu.table[..]) == 0 && OthersKept(spaces0, mmu.spaces, pid)
  }

  /** mmu_alloc and mmu_map: a fresh frame at a page of a process that is not running.  Fails only if no frame is
      left. */
  method MapNew(mmu: Mmu, pid: int, vpageNo: int) returns (frame: Option<int>)
    requires mmu.Valid() && pid > 0 && pid != mmu.currVmPid && InWindow(vpageNo) && Addr(pid, vpageNo) !in mmu.spaces
    modifies mmu`spaces, mmu`frameOf, mmu.table
    ensures mmu.Valid()
    ensures frame.Some? <==> Unused(old(mmu.table[..])) > 0
    ensures frame.None? ==> mmu.spaces == old(mmu.spaces) && Unused(mmu.table[..]) == 0
    ensures Unplaced(mmu.table[..]) == Unplaced(old(mmu.table[..]))
    ensures frame.Some? ==>
              && 0 <= frame.value < APPS_PAGES_CNT && !old(mmu.table[..])[frame.value].use
              && mmu.table[frame.value] == PageInfo(true, pid, vpageNo)
              && Unused(mmu.table[..]) == Unused(old(mmu.table[..])) - 1
              && mmu.spaces == old(mmu.spaces)[Addr(pid, vpageNo) := mmu.mem[FIRST_FRAME + frame.value]]
  {
    UnusedZero(mmu.table[..]);
    frame := mmu.Alloc();
    if frame.Some? {
      mmu.Map(pid, vpageNo, frame.value);
      assert mmu.table[..] == old(mmu.table[..])[frame.value := PageInfo(true, pid, vpageNo)];
      UnusedUpdate(old(mmu.table[..]), frame.value, PageInfo(true, pid, vpageNo));
      Placed(old(mmu.table[..]), frame.value, PageInfo(true, pid, vpageNo));
    }
  }

  /** memset(PAGE_ID_TO_ADDR(frame), 0, PAGE_SIZE), for the frame of page a. */
  method Clear(mmu: Mmu, frame: int, ghost a: Addr)
    requires mmu.Valid() && 0 <= frame < APPS_PAGES_CNT && mmu.table[frame] == PageInfo(true, a.pid, a.vpageNo)
    requires a.pid > 0 && a.pid != mmu.currVmPid
    modifies mmu`spaces, mmu.mem
    ensures mmu.Valid() && mmu.spaces == old(mmu.spaces)[a := ZeroPage()]
  {
    mmu.WriteFrame(frame, ZeroPage());
  }

  lemma Overwritten(spaces: Spaces, a: Addr, x: Page, y: Page)
    ensures spaces[a := x][a := y] == spaces[a := y]
  {
  }

  /** A fresh zeroed frame. */
  method MapZeroed(mmu: Mmu, pid: int, vpageNo: int) returns (frame: Option<int>)
    requires mmu.Valid() && pid > 0 && pid != mmu.currVmPid && InWindow(vpageNo) && Addr(pid, vpageNo) !in mmu.spaces
    modifies mmu`spaces, mmu`frameOf, mmu.mem, mmu.table
    ensures mmu.Valid()
    ensures frame.Some? <==> Unused(old(mmu.table[..])) > 0
    ensures frame.None? ==> mmu.spaces == old(mmu.spaces) && Unused(mmu.table[..]) == 0
    ensures Unplaced(mmu.table[..]) == Unplaced(old(mmu.table[..]))
    ensures frame.Some? ==>
              && 0 <= frame.value < APPS_PAGES_CNT && mmu.table[frame.value] == PageInfo(true, pid, vpageNo)
              && Unused(mmu.table[..]) == Unused(old(mmu.table[..])) - 1
              && mmu.spaces == old(mmu.spaces)[Addr(pid, vpageNo) := ZeroPage()]
  {
    frame := MapNew(mmu, pid, vpageNo);
    if frame.Some? {
      Overwritten(old(mmu.spaces), Addr(pid, vpageNo), mmu.mem[FIRST_FRAME + frame.value], ZeroPage());
      Clear(mmu, frame.value, Addr(pid, vpageNo));
    }
  }

  /** memcpy(PAGE_ID_TO_ADDR(frame) + at, bytes, |bytes|), for the frame of page a. */
  method CopyIn(mmu: Mmu, frame: int, ghost a: Addr, at: int, bytes: seq<byte>)
    requires mmu.Valid() && 0 <= frame < APPS_PAGES_CNT && mmu.table[frame] == PageInfo(true, a.pid, a.vpageNo)
    requires a.pid > 0 && a.pid != mmu.currVmPid && 0 <= at && at + |bytes| <= 4096
    requires a in mmu.spaces
    modifies mmu`spaces, mmu.mem
    ensures mmu.Valid() && mmu.spaces == old(mmu.spaces)[a := Splice(old(mmu.spaces)[a], at, bytes)]
  {
    mmu.WriteFrame(frame, Splice(mmu.mem[FIRST_FRAME + frame], at, bytes));
  }

  // ---------------------------------------------------------------- segments

  /** The first n pages of a segment are mapped, with `upto` bytes in place; nothing else has changed. */
  ghost predicate LoadedUpTo(h: Header, reader: Reader, pid: int, spaces0: Spaces, spaces: Spaces, n: int, upto: int) {
    && (forall a :: a in spaces <==> a in spaces0 || (a.pid == pid && h.First() <= a.vpageNo < h.First() + n))
    && (forall a :: a in spaces0 ==> a in spaces && spaces[a] == spaces0[a])
    && (forall a :: a in spaces && a.pid == pid && h.First() <= a.vpageNo < h.First() + n ==>
                      spaces[a] == h.PageAt(reader, a.vpageNo - h.First(), upto))
  }

  ghost predicate Unmapped(h: Header, pid: int, spaces: Spaces) {
    forall p :: h.HasPage(p) ==> Addr(pid, p) !in spaces
  }

  lemma MapStep(h: Header, reader: Reader, pid: int, spaces0: Spaces, spaces: Spaces, spaces': Spaces, n: int,
                upto: int)
    requires LoadedUpTo(h, reader, pid, spaces0, spaces, n, upto) && 0 <= n
             && (upto <= n * 4096 || h.filesz <= n * 4096)
    requires Addr(pid, h.First() + n) !in spaces0
    requires spaces' == spaces[Addr(pid, h.First() + n) := ZeroPage()]
    ensures LoadedUpTo(h, reader, pid, spaces0, spaces', n + 1, upto)
  {
    EmptyPage(h, reader, n, upto);
  }

  lemma CopyStep(h: Header, reader: Reader, pid: int, spaces0: Spaces, spaces: Spaces, spaces': Spaces, n: int,
                 off: int, blockno: int, bytes: seq<byte>, a: Addr)
    requires LoadedUpTo(h, reader, pid, spaces0, spaces, n, off) && Unmapped(h, pid, spaces0) && h.Loads()
    requires Within(h, off, n) && off == (blockno - h.offset / 512) * 512 && off < h.filesz
    requires bytes == reader(blockno)[..BlockPart(h, off)] && off % 4096 + |bytes| <= 4096
    requires a == Addr(pid, h.First() + n - 1) && a in spaces
    requires spaces' == spaces[a := Splice(spaces[a], off % 4096, bytes)]
    ensures LoadedUpTo(h, reader, pid, spaces0, spaces', n, off + 512)
  {
    CopyBlock(h, reader, n - 1, off, blockno, bytes);
    forall k | 0 <= k < n - 1
      ensures h.PageAt(reader, k, off) == h.PageAt(reader, k, off + 512)
    {
      PageDone(h, reader, k, off, off + 512);
    }
    forall p | h.First() <= p < h.First() + n
      ensures Addr(pid, p) !in spaces0
    {
      assert h.HasPage(p);
    }
  }

  lemma AllBytesIn(h: Header, reader: Reader, pid: int, spaces0: Spaces, spaces: Spaces, n: int, upto: int)
    requires LoadedUpTo(h, reader, pid, spaces0, spaces, n, upto) && h.filesz <= upto
    ensures LoadedUpTo(h, reader, pid, spaces0, spaces, n, h.filesz)
  {
    forall k | 0 <= k < n
      ensures h.PageAt(reader, k, upto) == h.PageAt(reader, k, h.filesz)
    {
      PageDone(h, reader, k, upto, h.filesz);
    }
  }

  /** Where the loader is in a segment after `off` bytes and n pages. */
  predicate At(h: Header, off: int, n: int, pageno: int, blockno: int) {
    && 0 <= off <= n * 4096 < off + 4096 && n <= h.FilePages()
    && pageno == h.First() + n && off == (blockno - h.offset / 512) * 512
  }

  /** Where it is in the middle of a block, with the page of that block mapped. */
  predicate Within(h: Header, off: int, n: int) {
    0 < n <= h.FilePages() && n * 4096 - 4096 <= off < n * 4096
  }

  /** The first block of a page starts a page; the others fit into it. */
  lemma PagePosition(off: int, n: int, b: int)
    requires off == 512 * b && n * 4096 - 4096 < off <= n * 4096
    ensures off % 4096 == 0 <==> off == n * 4096
    ensures off % 4096 != 0 ==> off + 512 <= n * 4096
  {
  }

  lemma FilePagesBound(h: Header)
    ensures h.FilePages() * 4096 - 4096 < h.filesz <= h.FilePages() * 4096
  {
  }

  lemma NextBlock(h: Header, off: int, n: int, pageno: int, blockno: int)
    requires At(h, off, n, pageno, blockno) && off < h.filesz && h.Loads()
    ensures off % 4096 == 0 ==>
              && n < h.FilePages() && off == n * 4096 && h.HasPage(pageno)
              && Within(h, off, n + 1) && At(h, off + 512, n + 1, pageno + 1, blockno + 1)
    ensures off % 4096 != 0 ==> Within(h, off, n) && At(h, off + 512, n, pageno, blockno + 1)
  {
    PagePosition(off, n, blockno - h.offset / 512);
    FilePagesBound(h);
  }

  lemma FirstBlock(h: Header)
    requires h.filesz >= 0
    ensures At(h, 0, 0, h.First(), h.offset / 512)
  {
  }

  lemma LastBlock(h: Header, off: int, n: int, pageno: int, blockno: int)
    requires At(h, off, n, pageno, blockno) && off >= h.filesz
    ensures n == h.FilePages()
  {
    FilePagesBound(h);
  }

  lemma LastPageThere(h: Header, reader: Reader, pid: int, spaces0: Spaces, spaces: Spaces, n: int, off: int)
    requires LoadedUpTo(h, reader, pid, spaces0, spaces, n, off) && Within(h, off, n)
    ensures Addr(pid, h.First() + n - 1) in spaces
  {
  }

  /** The block at `off` of a segment, or what belongs to the segment, and where it goes in its page. */
  method ReadBlock(h: Header, reader: Reader, off: int, blockno: int) returns (at: int, bytes: seq<byte>)
    requires off == (blockno - h.offset / 512) * 512 && off < h.filesz
    ensures at == off % 4096 && 0 <= at && at + |bytes| <= 4096 && bytes == reader(blockno)[..BlockPart(h, off)]
  {
    BlockFits(off);
    at, bytes := off % 4096, reader(blockno)[..BlockPart(h, off)];
  }

  /** The next block of a segment goes to its place in the last mapped page. */
  method CopyNext(mmu: Mmu, pid: int, h: Header, reader: Reader, frame: int, off: int, blockno: int, ghost n: int,
                  ghost spaces0: Spaces)
    requires mmu.Valid() && pid > 0 && pid != mmu.currVmPid && h.Loads() && Unmapped(h, pid, spaces0)
    requires LoadedUpTo(h, reader, pid, spaces0, mmu.spaces, n, off)
    requires Within(h, off, n) && off == (blockno - h.offset / 512) * 512 && off < h.filesz
    requires 0 <= frame < APPS_PAGES_CNT && mmu.table[frame] == PageInfo(true, pid, h.First() + n - 1)
    modifies mmu`spaces, mmu.mem
    ensures mmu.Valid() && LoadedUpTo(h, reader, pid, spaces0, mmu.spaces, n, off + 512)
  {
    var at, bytes := ReadBlock(h, reader, off, blockno);
    ghost var a := Addr(pid, h.First() + n - 1);
    LastPageThere(h, reader, pid, spaces0, mmu.spaces, n, off);
    CopyIn(mmu, frame, a, at, bytes);
    CopyStep(h, reader, pid, spaces0, old(mmu.spaces), mmu.spaces, n, off, blockno, bytes, a);
  }

  /** One more zeroed page for a segment. */
  method MapNext(mmu: Mmu, pid: int, h: Header, reader: Reader, pageno: int, ghost n: int, ghost upto: int,
                 ghost spaces0: Spaces)
      returns (frame: Option<int>)
    requires mmu.Valid() && pid > 0 && pid != mmu.currVmPid && h.WellFormed() && Unmapped(h, pid, spaces0)
    requires LoadedUpTo(h, reader, pid, spaces0, mmu.spaces, n, upto)
    requires 0 <= n && (upto <= n * 4096 || h.filesz <= n * 4096) && pageno == h.First() + n && h.HasPage(pageno)
    modifies mmu`spaces, mmu`frameOf, mmu.mem, mmu.table
    ensures mmu.Valid()
    ensures frame.Some? <==> Unused(old(mmu.table[..])) > 0
    ensures frame.None? ==> mmu.spaces == old(mmu.spaces) && Unused(mmu.table[..]) == 0
    ensures Unplaced(mmu.table[..]) == Unplaced(old(mmu.table[..]))
    ensures frame.Some? ==>
              && 0 <= frame.value < APPS_PAGES_CNT && mmu.table[frame.value] == PageInfo(true, pid, pageno)
              && Unused(mmu.table[..]) == Unused(old(mmu.table[..])) - 1
              && LoadedUpTo(h, reader, pid, spaces0, mmu.spaces, n + 1, upto)
  {
    frame := MapZeroed(mmu, pid, pageno);
    if frame.Some? {
      MapStep(h, reader, pid, spaces0, old(mmu.spaces), mmu.spaces, n, upto);
    }
  }

  /** The loop of elf_load over the data of a segment: the state before the block at `off`. */
  ghost predicate Loading(mmu: Mmu, pid: int, h: Header, reader: Reader, off: int, n: int, pageno: int, blockno: int,
                          frame: int, spaces0: Spaces)
    reads mmu, mmu.table
  {
    && At(h, off, n, pageno, blockno) && LoadedUpTo(h, reader, pid, spaces0, mmu.spaces, n, off)
    && (off > 0 ==> 0 <= frame < mmu.table.Length && mmu.table[frame] == PageInfo(true, pid, pageno - 1))
  }

  /** The last mapped page is the one of the block at `off`. */
  ghost predicate PageReady(mmu: Mmu, pid: int, h: Header, reader: Reader, off: int, n: int, pageno: int, blockno: int,
                            frame: int, spaces0: Spaces)
    reads mmu, mmu.table
  {
    && Within(h, off, n) && At(h, off + 512, n, pageno, blockno + 1)
    && LoadedUpTo(h, reader, pid, spaces0, mmu.spaces, n, off)
    && 0 <= frame < mmu.table.Length && mmu.table[frame] == PageInfo(true, pid, pageno - 1)
  }

  /** A page for every eight blocks. */
  method NextPage(mmu: Mmu, pid: int, h: Header, reader: Reader, off: int, ghost n: int, pageno: int,
                  ghost blockno: int, frame: int, ghost spaces0: Spaces)
      returns (ok: bool, ghost n': int, pageno': int, frame': int)
    requires mmu.Valid() && pid > 0 && pid != mmu.currVmPid && h.Loads() && h.WellFormed() && Unmapped(h, pid, spaces0)
    requires Loading(mmu, pid, h, reader, off, n, pageno, blockno, frame, spaces0) && off < h.filesz
    modifies mmu`spaces, mmu`frameOf, mmu.mem, mmu.table
    ensures mmu.Valid()
    ensures ok ==> PageReady(mmu, pid, h, reader, off, n', pageno', blockno, frame', spaces0)
    ensures ok ==> Unused(mmu.table[..]) + n' == Unused(old(mmu.table[..])) + n
    ensures !ok ==> && mmu.spaces == old(mmu.spaces) && Unused(mmu.table[..]) == 0
                    && Unused(old(mmu.table[..])) == 0 && n < h.FilePages()
    ensures Unplaced(mmu.table[..]) == Unplaced(old(mmu.table[..]))
  {
    NextBlock(h, off, n, pageno, blockno);
    ok, n', pageno', frame' := true, n, pageno, frame;
    if off % 4096 == 0 {
      var page := MapNext(mmu, pid, h, reader, pageno, n, off, spaces0);
      if page.None? {
        ok := false;
        return;
      }
      n', pageno', frame' := n + 1, pageno + 1, page.value;
    }
  }

  /** One turn of that loop: the page, then the block. */
  method LoadBlock(mmu: Mmu, pid: int, h: Header, reader: Reader, off: int, ghost n: int, pageno: int, blockno: int,
                   frame: int, ghost spaces0: Spaces)
      returns (ok: bool, ghost n': int, pageno': int, frame': int)
    requires mmu.Valid() && pid > 0 && pid != mmu.currVmPid && h.Loads() && h.WellFormed() && Unmapped(h, pid, spaces0)
    requires Loading(mmu, pid, h, reader, off, n, pageno, blockno, frame, spaces0) && off < h.filesz
    modifies mmu`spaces, mmu`frameOf, mmu.mem, mmu.table
    ensures mmu.Valid()
    ensures ok ==> Loading(mmu, pid, h, reader, off + 512, n', pageno', blockno + 1, frame', spaces0)
    ensures ok ==> Unused(mmu.table[..]) + n' == Unused(old(mmu.table[..])) + n
    ensures !ok ==> && mmu.spaces == old(mmu.spaces) && Unused(mmu.table[..]) == 0
                    && Unused(old(mmu.table[..])) == 0 && n < h.FilePages()
    ensures Unplaced(mmu.table[..]) == Unplaced(old(mmu.table[..]))
  {
    ok, n', pageno', frame' := NextPage(mmu, pid, h, reader, off, n, pageno, blockno, frame, spaces0);
    if ok {
      CopyNext(mmu, pid, h, reader, frame', off, blockno, n', spaces0);
    }
  }

  /** The data of a segment; the result is also the next page number. */
  method LoadData(mmu: Mmu, pid: int, h: Header, reader: Reader) returns (ok: bool, pageno: int)
    requires mmu.Valid() && pid > 0 && pid != mmu.currVmPid && h.Loads() && h.WellFormed()
             && Unmapped(h, pid, mmu.spaces)
    modifies mmu`spaces, mmu`frameOf, mmu.mem, mmu.table
    ensures mmu.Valid()
    ensures ok <==> h.FilePages() <= Unused(old(mmu.table[..]))
    ensures !ok ==> Halted(mmu, pid, old(mmu.spaces))
    ensures Unplaced(mmu.table[..]) == Unplaced(old(mmu.table[..]))
    ensures ok ==> && Unused(mmu.table[..]) == Unused(old(mmu.table[..])) - h.FilePages()
                   && pageno == h.First() + h.FilePages()
    ensures ok ==> LoadedUpTo(h, reader, pid, old(mmu.spaces), mmu.spaces, h.FilePages(), h.filesz)
  {
    var off, blockno, frame := 0, h.offset / 512, 0;
    ghost var n := 0;
    pageno := h.First();
    FirstBlock(h);
    while off < h.filesz
      invariant mmu.Valid() && Loading(mmu, pid, h, reader, off, n, pageno, blockno, frame, old(mmu.spaces))
      invariant Unused(mmu.table[..]) + n == Unused(old(mmu.table[..]))
      invariant Unplaced(mmu.table[..]) == Unplaced(old(mmu.table[..]))
    {
      ok, n, pageno, frame := LoadBlock(mmu, pid, h, reader, off, n, pageno, blockno, frame, old(mmu.spaces));
      if !ok {
        return;
      }
      off, blockno := off + 512, blockno + 1;
    }
    LastBlock(h, off, n, pageno, blockno);
    AllBytesIn(h, reader, pid, old(mmu.spaces), mmu.spaces, n, off);
    ok := true;
  }

  /** A whole segment: its data, then pages of zeros up to the last whole page of its memory.  Exactly PageCount frames
      are taken; the load fails exactly when there are fewer. */
  method LoadSegment(mmu: Mmu, pid: int, h: Header, reader: Reader) returns (ok: bool)
    requires mmu.Valid() && pid > 0 && pid != mmu.currVmPid && h.Loads() && h.WellFormed()
             && Unmapped(h, pid, mmu.spaces)
    modifies mmu`spaces, mmu`frameOf, mmu.mem, mmu.table
    ensures mmu.Valid()
    ensures ok <==> h.PageCount() <= Unused(old(mmu.table[..]))
    ensures !ok ==> Halted(mmu, pid, old(mmu.spaces))
    ensures Unplaced(mmu.table[..]) == Unplaced(old(mmu.table[..]))
    ensures ok ==> Unused(mmu.table[..]) == Unused(old(mmu.table[..])) - h.PageCount()
    ensures ok ==> LoadedUpTo(h, reader, pid, old(mmu.spaces), mmu.spaces, h.PageCount(), h.filesz)
  {
    var endPageno, pageno := (h.vaddr + h.memsz) / 4096, 0;
    ok, pageno := LoadData(mmu, pid, h, reader);
    if !ok {
      return;
    }
    while pageno < endPageno
      invariant mmu.Valid() && h.First() + h.FilePages() <= pageno <= h.First() + h.PageCount()
      invariant Unused(mmu.table[..]) + (pageno - h.First()) == Unused(old(mmu.table[..]))
      invariant Unplaced(mmu.table[..]) == Unplaced(old(mmu.table[..]))
      invariant LoadedUpTo(h, reader, pid, old(mmu.spaces), mmu.spaces, pageno - h.First(), h.filesz)
    {
      var page := MapNext(mmu, pid, h, reader, pageno, pageno - h.First(), h.filesz, old(mmu.spaces));
      if page.None? {
        return false;
      }
      pageno := pageno + 1;
    }
  }

  // ---------------------------------------------------------------- all segments

  function FramesNeeded(phs: seq<Header>): int {
    if phs == [] then 0 else FramesNeeded(phs[..|phs| - 1]) + if phs[|phs| - 1].Loads() then phs[|phs| - 1].PageCount()
      else 0
  }

  /** Segments that can be loaded together: no page belongs to two of them, or to the pages that every process has. */
  ghost predicate Separate(phs: seq<Header>) {
    && (forall i :: 0 <= i < |phs| && phs[i].Loads() ==> phs[i].WellFormed())
    && (forall i, j, p :: 0 <= i < j < |phs| ==> !(phs[i].HasPage(p) && phs[j].HasPage(p)))
    && (forall i, p :: 0 <= i < |phs| && phs[i].HasPage(p) ==> !IsCommonPage(p))
  }

  /** Exactly the pages of the segments have been added, each with its bytes of the file and zeros. */
  ghost predicate SegmentsLoaded(phs: seq<Header>, reader: Reader, pid: int, spaces0: Spaces, spaces: Spaces) {
    && (forall a :: a in spaces0 ==> a in spaces && spaces[a] == spaces0[a])
    && (forall a :: a in spaces ==>
        a in spaces0 || (a.pid == pid && exists i :: 0 <= i < |phs| && phs[i].HasPage(a.vpageNo)))
    && (forall i, p :: 0 <= i < |phs| && phs[i].HasPage(p) ==>
                         && Addr(pid, p) in spaces
                         && spaces[Addr(pid, p)] == phs[i].PageAt(reader, p - phs[i].First(), phs[i].filesz))
  }

  lemma SegmentStep(phs: seq<Header>, h: Header, reader: Reader, pid: int, spaces0: Spaces, spaces: Spaces,
                    spaces': Spaces)
    requires SegmentsLoaded(phs, reader, pid, spaces0, spaces) && h.Loads() && h.PageCount() >= 0
    requires LoadedUpTo(h, reader, pid, spaces, spaces', h.PageCount(), h.filesz) && Unmapped(h, pid, spaces)
    ensures SegmentsLoaded(phs + [h], reader, pid, spaces0, spaces')
  {
    var all := phs + [h];
    forall a | a in spaces'
      ensures a in spaces0 || (a.pid == pid && exists i :: 0 <= i < |all| && all[i].HasPage(a.vpageNo))
    {
      if a in spaces && a !in spaces0 {
        var i :| 0 <= i < |phs| && phs[i].HasPage(a.vpageNo);
        assert all[i].HasPage(a.vpageNo);
      } else if a !in spaces {
        assert all[|phs|].HasPage(a.vpageNo);
      }
    }
    forall i, p | 0 <= i < |all| && all[i].HasPage(p)
      ensures Addr(pid, p) in spaces'
              && spaces'[Addr(pid, p)] == all[i].PageAt(reader, p - all[i].First(), all[i].filesz)
    {
      if i < |phs| {
        assert phs[i].HasPage(p);
      }
    }
  }

  lemma SegmentSkipped(phs: seq<Header>, h: Header, reader: Reader, pid: int, spaces0: Spaces, spaces: Spaces)
    requires SegmentsLoaded(phs, reader, pid, spaces0, spaces) && !h.Loads()
    ensures SegmentsLoaded(phs + [h], reader, pid, spaces0, spaces)
  {
    var all := phs + [h];
    forall a | a in spaces && a !in spaces0
      ensures exists i :: 0 <= i < |all| && all[i].HasPage(a.vpageNo)
    {
      var i :| 0 <= i < |phs| && phs[i].HasPage(a.vpageNo);
      assert all[i].HasPage(a.vpageNo);
    }
    forall i, p | 0 <= i < |all| && all[i].HasPage(p)
      ensures i < |phs| && phs[i].HasPage(p)
    {
    }
  }

  lemma {:induction false} MoreFrames(phs: seq<Header>, n: int)
    requires 0 <= n <= |phs| && forall i :: 0 <= i < |phs| && phs[i].Loads() ==> phs[i].WellFormed()
    ensures FramesNeeded(phs[..n]) <= FramesNeeded(phs)
    decreases |phs|
  {
    if n < |phs| {
      MoreFrames(phs[..|phs| - 1], n);
      assert phs[..|phs| - 1][..n] == phs[..n];
    } else {
      assert phs[..n] == phs;
    }
  }

  /** The segment at i, after those before it; one below RAM_START is skipped. */
  method LoadNext(mmu: Mmu, pid: int, phs: seq<Header>, i: int, reader: Reader, ghost spaces0: Spaces)
      returns (ok: bool)
    requires mmu.Valid() && pid > 0 && pid != mmu.currVmPid && Separate(phs) && 0 <= i < |phs|
    requires (forall a :: a in spaces0 ==> a.pid != pid) && SegmentsLoaded(phs[..i], reader, pid, spaces0, mmu.spaces)
    modifies mmu`spaces, mmu`frameOf, mmu.mem, mmu.table
    ensures mmu.Valid()
    ensures ok <==> FramesNeeded(phs[..i + 1]) - FramesNeeded(phs[..i]) <= Unused(old(mmu.table[..]))
    ensures !ok ==> Halted(mmu, pid, spaces0)
    ensures Unplaced(mmu.table[..]) == Unplaced(old(mmu.table[..]))
    ensures ok ==> && Unused(mmu.table[..]) + FramesNeeded(phs[..i + 1]) - FramesNeeded(phs[..i])
                      == Unused(old(mmu.table[..]))
                   && SegmentsLoaded(phs[..i + 1], reader, pid, spaces0, mmu.spaces)
  {
    assert phs[..i + 1] == phs[..i] + [phs[i]];
    if phs[i].vaddr < RAM_START {
      SegmentSkipped(phs[..i], phs[i], reader, pid, spaces0, mmu.spaces);
      return true;
    }
    ghost var before := mmu.spaces;
    NotYetMapped(phs, i, pid, reader, spaces0, before);
    ok := LoadSegment(mmu, pid, phs[i], reader);
    if ok {
      SegmentStep(phs[..i], phs[i], reader, pid, spaces0, before, mmu.spaces);
    }
  }

  /** The loop over the program headers. */
  method LoadSegments(mmu: Mmu, pid: int, phs: seq<Header>, reader: Reader) returns (ok: bool)
    requires mmu.Valid() && pid > 0 && pid != mmu.currVmPid && Separate(phs) && forall a :: a in mmu.spaces ==>
               a.pid != pid
    modifies mmu`spaces, mmu`frameOf, mmu.mem, mmu.table
    ensures mmu.Valid()
    ensures ok <==> FramesNeeded(phs) <= Unused(old(mmu.table[..]))
    ensures !ok ==> Halted(mmu, pid, old(mmu.spaces))
    ensures Unplaced(mmu.table[..]) == Unplaced(old(mmu.table[..]))
    ensures ok ==> Unused(mmu.table[..]) == Unused(old(mmu.table[..])) - FramesNeeded(phs)
    ensures ok ==> SegmentsLoaded(phs, reader, pid, old(mmu.spaces), mmu.spaces)
  {
    ghost var spaces0 := mmu.spaces;
    for i := 0 to |phs|
      invariant mmu.Valid() && SegmentsLoaded(phs[..i], reader, pid, spaces0, mmu.spaces)
      invariant Unused(mmu.table[..]) + FramesNeeded(phs[..i]) == Unused(old(mmu.table[..]))
      invariant Unplaced(mmu.table[..]) == Unplaced(old(mmu.table[..]))
    {
      MoreFrames(phs, i + 1);
      ok := LoadNext(mmu, pid, phs, i, reader, spaces0);
      if !ok {
        return;
      }
    }
    assert phs[..|phs|] == phs;
    ok := true;
  }

  lemma NotYetMapped(phs: seq<Header>, n: int, pid: int, reader: Reader, spaces0: Spaces, spaces: Spaces)
    requires 0 <= n < |phs| && Separate(phs) && SegmentsLoaded(phs[..n], reader, pid, spaces0, spaces)
    requires forall a :: a in spaces0 ==> a.pid != pid
    ensures Unmapped(phs[n], pid, spaces)
  {
    forall p | phs[n].HasPage(p)
      ensures Addr(pid, p) !in spaces
    {
      forall i | 0 <= i < n
        ensures !phs[..n][i].HasPage(p)
      {
        assert phs[..n][i] == phs[i];
      }
    }
  }

  // ---------------------------------------------------------------- the whole process

  /** Nothing but page a has been mapped or changed. */
  ghost predicate OnlyAt(spaces0: Spaces, spaces: Spaces, a: Addr) {
    && a in spaces
    && (forall b :: b in spaces <==> b in spaces0 || b == a)
    && (forall b :: b in spaces0 && b != a ==> spaces[b] == spaces0[b])
  }

  /** The frame of the argument page, so far with n pointers. */
  ghost predicate Writing(mmu: Mmu, a: Addr, frame: int, argc: int, argv: Option<seq<byte>>, n: int, spaces0: Spaces)
    requires 0 <= n <= argc <= CMD_NARGS && (argv.Some? ==> |argv.value| == argc * CMD_ARG_LEN)
    reads mmu, mmu.table
  {
    && 0 <= frame < mmu.table.Length && mmu.table[frame] == PageInfo(true, a.pid, a.vpageNo)
    && OnlyAt(spaces0, mmu.spaces, a) && Arguments(mmu.spaces[a], argc, argv, n)
  }

  lemma OneWritten(spaces0: Spaces, spaces: Spaces, a: Addr, page1: Page)
    requires a in spaces0 && a in spaces
    requires spaces == spaces0[a := page1] || spaces == spaces0[a := page1][a := spaces[a]]
    ensures OnlyAt(spaces0, spaces, a)
  {
  }

  method WriteStrings(mmu: Mmu, ghost a: Addr, frame: int, argc: int, argv: Option<seq<byte>>)
    requires mmu.Valid() && a.pid > 0 && a.pid != mmu.currVmPid && a in mmu.spaces
    requires 0 <= frame < mmu.table.Length && mmu.table[frame] == PageInfo(true, a.pid, a.vpageNo)
    requires 0 <= argc <= CMD_NARGS && (argv.Some? ==> |argv.value| == argc * CMD_ARG_LEN)
    modifies mmu`spaces, mmu.mem
    ensures mmu.Valid() && Writing(mmu, a, frame, argc, argv, 0, old(mmu.spaces))
  {
    ghost var page := mmu.spaces[a];
    CopyIn(mmu, frame, a, 0, WordBytes(argc));
    ghost var page1 := mmu.spaces[a];
    if argv.Some? {
      CopyIn(mmu, frame, a, 4 + 4 * CMD_NARGS, argv.value);
    }
    ArgcAndStrings(page, argc, argv, page1, mmu.spaces[a]);
    OneWritten(old(mmu.spaces), mmu.spaces, a, page1);
  }

  method WritePointer(mmu: Mmu, ghost a: Addr, frame: int, argc: int, ghost argv: Option<seq<byte>>, i: int,
                      ghost spaces0: Spaces)
    requires mmu.Valid() && a.pid > 0 && a.pid != mmu.currVmPid && a in mmu.spaces
    requires 0 <= i < argc <= CMD_NARGS && (argv.Some? ==> |argv.value| == argc * CMD_ARG_LEN)
    requires Writing(mmu, a, frame, argc, argv, i, spaces0)
    modifies mmu`spaces, mmu.mem
    ensures mmu.Valid() && Writing(mmu, a, frame, argc, argv, i + 1, spaces0)
  {
    OnePointer(mmu.spaces[a], argc, argv, i);
    CopyIn(mmu, frame, a, 4 + 4 * i, WordBytes(StringAddr(i)));
  }

  /** argc, the strings, and the pointers to them. */
  method WriteArguments(mmu: Mmu, ghost a: Addr, frame: int, argc: int, argv: Option<seq<byte>>)
    requires mmu.Valid() && a.pid > 0 && a.pid != mmu.currVmPid && a in mmu.spaces
    requires 0 <= frame < mmu.table.Length && mmu.table[frame] == PageInfo(true, a.pid, a.vpageNo)
    requires 0 <= argc <= CMD_NARGS && (argv.Some? ==> |argv.value| == argc * CMD_ARG_LEN)
    modifies mmu`spaces, mmu.mem
    ensures mmu.Valid() && OnlyAt(old(mmu.spaces), mmu.spaces, a) && Arguments(mmu.spaces[a], argc, argv, argc)
  {
    WriteStrings(mmu, a, frame, argc, argv);
    for i := 0 to argc
      invariant mmu.Valid() && Writing(mmu, a, frame, argc, argv, i, old(mmu.spaces))
    {
      WritePointer(mmu, a, frame, argc, argv, i, old(mmu.spaces));
    }
  }

  /** The page with the arguments of main: argc, the strings, and the pointers to them. */
  method LoadArguments(mmu: Mmu, pid: int, argc: int, argv: Option<seq<byte>>) returns (ok: bool)
    requires mmu.Valid() && pid > 0 && pid != mmu.currVmPid && Addr(pid, ARG_PAGE) !in mmu.spaces
    requires 0 <= argc <= CMD_NARGS && (argv.Some? ==> |argv.value| == argc * CMD_ARG_LEN)
    modifies mmu`spaces, mmu`frameOf, mmu.mem, mmu.table
    ensures mmu.Valid()
    ensures ok <==> Unused(old(mmu.table[..])) > 0
    ensures !ok ==> Halted(mmu, pid, old(mmu.spaces))
    ensures Unplaced(mmu.table[..]) == Unplaced(old(mmu.table[..]))
    ensures ok ==> Unused(mmu.table[..]) == Unused(old(mmu.table[..])) - 1
    ensures ok ==> && OnlyAt(old(mmu.spaces), mmu.spaces, Addr(pid, ARG_PAGE))
                   && Arguments(mmu.spaces[Addr(pid, ARG_PAGE)], argc, argv, argc)
  {
    var frame := MapNew(mmu, pid, ARG_PAGE);
    if frame.None? {
      return false;
    }
    ghost var a := Addr(pid, ARG_PAGE);
    WriteArguments(mmu, a, frame.value, argc, argv);
    ok := true;
  }

  /** Pages of pid have been added to a base. */
  ghost predicate Grown(base: Spaces, spaces: Spaces, pid: int, pages: set<int>) {
    && (forall a :: a in spaces <==> a in base || (a.pid == pid && a.vpageNo in pages))
    && (forall a :: a in base ==> a in spaces && spaces[a] == base[a])
  }

  /** A page with whatever its frame holds: the code clears neither the system call page nor the stack. */
  method MapCommon(mmu: Mmu, pid: int, vpageNo: int, ghost base: Spaces, ghost pages: set<int>) returns (ok: bool)
    requires mmu.Valid() && pid > 0 && pid != mmu.currVmPid && IsCommonPage(vpageNo)
    requires Grown(base, mmu.spaces, pid, pages) && Addr(pid, vpageNo) !in base && vpageNo !in pages
    modifies mmu`spaces, mmu`frameOf, mmu.table
    ensures mmu.Valid()
    ensures ok <==> Unused(old(mmu.table[..])) > 0
    ensures !ok ==> mmu.spaces == old(mmu.spaces) && Unused(mmu.table[..]) == 0
    ensures Unplaced(mmu.table[..]) == Unplaced(old(mmu.table[..]))
    ensures ok ==> Unused(mmu.table[..]) == Unused(old(mmu.table[..])) - 1
    ensures ok ==> Grown(base, mmu.spaces, pid, pages + {vpageNo})
  {
    var frame := MapNew(mmu, pid, vpageNo);
    ok := frame.Some?;
  }

  /** The common pages have been added, with the arguments of main on theirs. */
  ghost predicate CommonAdded(pid: int, argc: int, argv: Option<seq<byte>>, spaces0: Spaces, spaces: Spaces)
    requires 0 <= argc <= CMD_NARGS && (argv.Some? ==> |argv.value| == argc * CMD_ARG_LEN)
  {
    && (forall a :: a in spaces <==> a in spaces0 || (a.pid == pid && IsCommonPage(a.vpageNo)))
    && (forall a :: a in spaces0 ==> spaces[a] == spaces0[a])
    && Arguments(spaces[Addr(pid, ARG_PAGE)], argc, argv, argc)
  }

  /** Two pages of stack. */
  method LoadStack(mmu: Mmu, pid: int, ghost base: Spaces, ghost pages: set<int>) returns (ok: bool)
    requires mmu.Valid() && pid > 0 && pid != mmu.currVmPid && Grown(base, mmu.spaces, pid, pages)
    requires Addr(pid, STACK_TOP_PAGE - 1) !in base && STACK_TOP_PAGE - 1 !in pages
    requires Addr(pid, STACK_TOP_PAGE - 2) !in base && STACK_TOP_PAGE - 2 !in pages
    modifies mmu`spaces, mmu`frameOf, mmu.table
    ensures mmu.Valid()
    ensures ok <==> Unused(old(mmu.table[..])) >= 2
    ensures !ok ==> Halted(mmu, pid, old(mmu.spaces))
    ensures Unplaced(mmu.table[..]) == Unplaced(old(mmu.table[..]))
    ensures ok ==> Unused(mmu.table[..]) == Unused(old(mmu.table[..])) - 2
    ensures ok ==> Grown(base, mmu.spaces, pid, pages + {STACK_TOP_PAGE - 1} + {STACK_TOP_PAGE - 2})
  {
    ok := MapCommon(mmu, pid, STACK_TOP_PAGE - 1, base, pages);
    if ok {
      ok := MapCommon(mmu, pid, STACK_TOP_PAGE - 2, base, pages + {STACK_TOP_PAGE - 1});
    }
  }

  /** The system call page and two pages of stack. */
  method LoadSystemPages(mmu: Mmu, pid: int) returns (ok: bool)
    requires mmu.Valid() && pid > 0 && pid != mmu.currVmPid
    requires forall p :: IsCommonPage(p) && p != ARG_PAGE ==> Addr(pid, p) !in mmu.spaces
    modifies mmu`spaces, mmu`frameOf, mmu.mem, mmu.table
    ensures mmu.Valid()
    ensures ok <==> Unused(old(mmu.table[..])) >= 3
    ensures !ok ==> Halted(mmu, pid, old(mmu.spaces))
    ensures Unplaced(mmu.table[..]) == Unplaced(old(mmu.table[..]))
    ensures ok ==> Unused(mmu.table[..]) == Unused(old(mmu.table[..])) - 3
    ensures ok ==> Grown(old(mmu.spaces), mmu.spaces, pid, SystemPages())
  {
    ok := MapCommon(mmu, pid, SYSCALL_PAGE, mmu.spaces, {});
    if ok {
      ok := LoadStack(mmu, pid, old(mmu.spaces), {} + {SYSCALL_PAGE});
    }
  }

  ghost function SystemPages(): set<int> {
    {} + {SYSCALL_PAGE} + {STACK_TOP_PAGE - 1} + {STACK_TOP_PAGE - 2}
  }

  lemma ArgumentsKept(pid: int, argc: int, argv: Option<seq<byte>>, spaces0: Spaces, base: Spaces, spaces: Spaces)
    requires 0 <= argc <= CMD_NARGS && (argv.Some? ==> |argv.value| == argc * CMD_ARG_LEN)
    requires var a := Addr(pid, ARG_PAGE);
             a !in spaces0 && OnlyAt(spaces0, base, a) && Arguments(base[a], argc, argv, argc)
    requires Grown(base, spaces, pid, SystemPages())
    ensures CommonAdded(pid, argc, argv, spaces0, spaces)
  {
    forall a: Addr
      ensures a.vpageNo in SystemPages() || a.vpageNo == ARG_PAGE <==> IsCommonPage(a.vpageNo)
    {
    }
  }

  /** The pages that every process has: four frames. */
  method LoadCommon(mmu: Mmu, pid: int, argc: int, argv: Option<seq<byte>>) returns (ok: bool)
    requires mmu.Valid() && pid > 0 && pid != mmu.currVmPid
    requires forall p :: IsCommonPage(p) ==> Addr(pid, p) !in mmu.spaces
    requires 0 <= argc <= CMD_NARGS && (argv.Some? ==> |argv.value| == argc * CMD_ARG_LEN)
    modifies mmu`spaces, mmu`frameOf, mmu.mem, mmu.table
    ensures mmu.Valid()
    ensures ok <==> Unused(old(mmu.table[..])) >= 4
    ensures !ok ==> Halted(mmu, pid, old(mmu.spaces))
    ensures Unplaced(mmu.table[..]) == Unplaced(old(mmu.table[..]))
    ensures ok ==> Unused(mmu.table[..]) == Unused(old(mmu.table[..])) - 4
    ensures ok ==> CommonAdded(pid, argc, argv, old(mmu.spaces), mmu.spaces)
  {
    ok := LoadArguments(mmu, pid, argc, argv);
    ghost var base := mmu.spaces;
    if ok {
      ok := LoadSystemPages(mmu, pid);
    }
    if ok {
      ArgumentsKept(pid, argc, argv, old(mmu.spaces), base, mmu.spaces);
    }
  }

  /** The process after a load, by addresses and offsets of the file alone: the pages of its segments, the page of
      arguments, the page of system calls and two pages of stack below 0x8040_0000, and no others; the bytes of its
      segments; and the arguments of main. */
  ghost predicate InPlace(phs: seq<Header>, reader: Reader, pid: int, argc: int, argv: Option<seq<byte>>,
                          spaces: Spaces) {
    && (forall p :: Addr(pid, p) in spaces <==>
        || p == 0x8_0300 || p == 0x8_0301 || p == 0x8_03FE || p == 0x8_03FF
        || exists i :: 0 <= i < |phs| && NeedsPage(phs[i], p))
    && (forall i :: 0 <= i < |phs| ==> SegmentInPlace(spaces, pid, phs[i], reader))
    && ArgumentsInPlace(spaces, pid, argc, argv)
  }

  lemma IsInPlace(phs: seq<Header>, reader: Reader, pid: int, argc: int, argv: Option<seq<byte>>,
                  spaces0: Spaces, segments: Spaces, spaces: Spaces)
    requires forall a :: a in spaces0 ==> a.pid != pid
    requires 0 <= argc <= CMD_NARGS && (argv.Some? ==> |argv.value| == argc * CMD_ARG_LEN)
    requires SegmentsLoaded(phs, reader, pid, spaces0, segments) && CommonAdded(pid, argc, argv, segments, spaces)
    ensures InPlace(phs, reader, pid, argc, argv, spaces)
  {
    ProcessPages(phs, reader, pid, argc, argv, spaces0, segments, spaces);
    ArgumentsFound(spaces, pid, argc, argv);
    forall i | 0 <= i < |phs|
      ensures SegmentInPlace(spaces, pid, phs[i], reader)
    {
      IsSegmentInPlace(phs, reader, pid, argc, argv, spaces0, segments, spaces, i);
    }
    forall i, p | 0 <= i < |phs|
      ensures NeedsPage(phs[i], p) <==> phs[i].HasPage(p)
    {
      NeededPages(phs[i], p);
    }
  }

  lemma IsSegmentInPlace(phs: seq<Header>, reader: Reader, pid: int, argc: int, argv: Option<seq<byte>>,
                         spaces0: Spaces, segments: Spaces, spaces: Spaces, i: int)
    requires 0 <= argc <= CMD_NARGS && (argv.Some? ==> |argv.value| == argc * CMD_ARG_LEN)
    requires SegmentsLoaded(phs, reader, pid, spaces0, segments) && CommonAdded(pid, argc, argv, segments, spaces)
    requires 0 <= i < |phs|
    ensures SegmentInPlace(spaces, pid, phs[i], reader)
  {
    var h := phs[i];
    if h.vaddr >= 0x8000_0000 && h.vaddr % 4096 == 0 && h.offset % 512 == 0 && h.offset >= 0 {
      forall va | h.vaddr <= va && (va < h.vaddr + h.filesz || va / 4096 < (h.vaddr + h.memsz) / 4096)
        ensures FindsSegment(spaces, pid, h, reader, va)
      {
        if va < h.vaddr + h.filesz {
          PageOfAddress(h, va);
        }
        NeededPages(h, va / 4096);
        ProcessImage(phs, reader, pid, argc, argv, spaces0, segments, spaces, i, va);
        SegmentFound(spaces, pid, h, reader, va);
      }
    }
  }

  lemma CommonUnmapped(phs: seq<Header>, reader: Reader, pid: int, spaces0: Spaces, spaces: Spaces)
    requires Separate(phs) && SegmentsLoaded(phs, reader, pid, spaces0, spaces) && forall a :: a in spaces0 ==>
               a.pid != pid
    ensures forall p :: IsCommonPage(p) ==> Addr(pid, p) !in spaces
  {
  }

  /**
   elf_load, for a process without pages that is not running.  It succeeds exactly when there are enough frames, and
   then takes just these; what other processes see does not change; and the process sees its segments and its common
   pages, with nothing else mapped.
   */
  method Load(mmu: Mmu, pid: int, phs: seq<Header>, reader: Reader, argc: int, argv: Option<seq<byte>>)
      returns (ok: bool, ghost segments: Spaces)
    requires mmu.Valid() && pid > 0 && pid != mmu.currVmPid && Separate(phs) && forall a :: a in mmu.spaces ==>
               a.pid != pid
    requires 0 <= argc <= CMD_NARGS && (argv.Some? ==> |argv.value| == argc * CMD_ARG_LEN)
    modifies mmu`spaces, mmu`frameOf, mmu.mem, mmu.table
    ensures mmu.Valid()
    ensures ok <==> FramesNeeded(phs) + 4 <= Unused(old(mmu.table[..]))
    ensures !ok ==> Halted(mmu, pid, old(mmu.spaces))
    ensures Unplaced(mmu.table[..]) == Unplaced(old(mmu.table[..]))
    ensures ok ==> Unused(mmu.table[..]) == Unused(old(mmu.table[..])) - FramesNeeded(phs) - 4
    ensures ok ==> SegmentsLoaded(phs, reader, pid, old(mmu.spaces), segments)
                   && CommonAdded(pid, argc, argv, segments, mmu.spaces)
    ensures ok ==> InPlace(phs, reader, pid, argc, argv, mmu.spaces)
  {
    ok := LoadSegments(mmu, pid, phs, reader);
    segments := mmu.spaces;
    if ok {
      CommonUnmapped(phs, reader, pid, old(mmu.spaces), segments);
      ok := LoadCommon(mmu, pid, argc, argv);
    }
    if ok {
      IsInPlace(phs, reader, pid, argc, argv, old(mmu.spaces), segments, mmu.spaces);
    }
  }

  /** After that, the process has just its segments and the common pages, and the other processes see what they saw. */
  lemma ProcessPages(phs: seq<Header>, reader: Reader, pid: int, argc: int, argv: Option<seq<byte>>,
                     spaces0: Spaces, segments: Spaces, spaces: Spaces)
    requires forall a :: a in spaces0 ==> a.pid != pid
    requires 0 <= argc <= CMD_NARGS && (argv.Some? ==> |argv.value| == argc * CMD_ARG_LEN)
    requires SegmentsLoaded(phs, reader, pid, spaces0, segments) && CommonAdded(pid, argc, argv, segments, spaces)
    ensures Without(spaces, pid) == spaces0
    ensures forall p :: Addr(pid, p) in spaces <==> IsCommonPage(p) || exists i :: 0 <= i < |phs| && phs[i].HasPage(p)
  {
    forall p
      ensures Addr(pid, p) in spaces <==> IsCommonPage(p) || exists i :: 0 <= i < |phs| && phs[i].HasPage(p)
    {
      if Addr(pid, p) in segments {
        assert Addr(pid, p) !in spaces0;
      }
    }
  }

  /** And at every address of a segment the process finds the byte of the image. */
  lemma ProcessImage(phs: seq<Header>, reader: Reader, pid: int, argc: int, argv: Option<seq<byte>>,
                     spaces0: Spaces, segments: Spaces, spaces: Spaces, i: int, a: int)
    requires 0 <= argc <= CMD_NARGS && (argv.Some? ==> |argv.value| == argc * CMD_ARG_LEN)
    requires SegmentsLoaded(phs, reader, pid, spaces0, segments) && CommonAdded(pid, argc, argv, segments, spaces)
    requires 0 <= i < |phs| && phs[i].HasPage(a / 4096)
    ensures Addr(pid, a / 4096) in spaces && spaces[Addr(pid, a / 4096)][a % 4096] == Loaded(phs[i], reader, a)
  {
    assert Addr(pid, a / 4096) in segments;
  }
}
