/**
 The demand-paging ELF loader (group-16-4/SimpleSmartLoader.c): every page is mapped when it is first touched, and the
 program should not be able to tell.

 Mapping always succeeds here, and access permissions are not modelled.
 */
module DemandPaging {
  import opened Wrappers
  import opened Memory

  const PAGE_SIZE := 4096
  const PAGES := 0x10_0000  // of a 32-bit address space

  /** A program header. */
  datatype Segment = Segment(load: bool, vaddr: int, filesz: int, memsz: int, offset: int) {
    function FileEnd(): int { vaddr + filesz }

    function MemEnd(): int { vaddr + memsz }

    predicate Contains(a: int) { load && vaddr <= a < MemEnd() }

    predicate Touches(page: int) { load && memsz > 0 && vaddr / PAGE_SIZE <= page <= (MemEnd() - 1) / PAGE_SIZE }

    function PageCount(): int {
      if load && memsz > 0 then (MemEnd() - 1) / PAGE_SIZE - vaddr / PAGE_SIZE + 1 else 0
    }

    /** What the ELF format asks of a loadable segment. */
    predicate WellFormed(file: seq<byte>) {
      load ==>
        && 0 <= vaddr && 0 <= filesz <= memsz && MemEnd() <= PAGES * PAGE_SIZE
        && 0 <= offset && offset + filesz <= |file| && offset % PAGE_SIZE == vaddr % PAGE_SIZE
    }

    /** The image of the segment: its bytes in the file, then zeros. */
    function ByteAt(file: seq<byte>, a: int): byte
      requires WellFormed(file) && Contains(a)
    {
      if a < FileEnd() then file[offset + (a - vaddr)] else 0
    }
  }

  ghost predicate PagesApart(segs: seq<Segment>) {
    forall i, j, p :: 0 <= i < j < |segs| ==> !(segs[i].Touches(p) && segs[j].Touches(p))
  }

  lemma ContainsTouches(seg: Segment, a: int)
    requires seg.Contains(a)
    ensures seg.Touches(a / PAGE_SIZE)
  {
  }

  /** Each address is in the image of one segment at most. */
  lemma OneSegment(segs: seq<Segment>, i: int, j: int, a: int, b: int)
    requires PagesApart(segs) && 0 <= i < |segs| && 0 <= j < |segs|
    requires segs[i].Contains(a) && segs[j].Contains(b) && a / PAGE_SIZE == b / PAGE_SIZE
    ensures i == j
  {
    ContainsTouches(segs[i], a);
    ContainsTouches(segs[j], b);
  }

  // ---------------------------------------------------------------- the contents of a faulted page

  /** A page of a private mapping of the file: its bytes, and zeros past its end. */
  function FilePage(file: seq<byte>, offset: int): Page
    requires 0 <= offset < |file|
  {
    seq(4096, i requires 0 <= i < 4096 => if offset + i < |file| then file[offset + i] else 0)
  }

  /** memset(page + from, 0, n). */
  function Cleared(page: Page, from: int, n: int): Page {
    seq(4096, i requires 0 <= i < 4096 => if from <= i < from + n then 0 else page[i])
  }

  /** What a fault at fa brings in at an address a of the segment, in the page of fa. */
  function Brought(file: seq<byte>, seg: Segment, fa: int, a: int): byte
    requires seg.WellFormed(file) && seg.Contains(a)
  {
    if fa < seg.FileEnd() then seg.ByteAt(file, a) else 0
  }

  /** The first byte of the file that belongs in the page of fa. */
  function FirstInPage(seg: Segment, fa: int): int {
    var base := fa / PAGE_SIZE * PAGE_SIZE;
    seg.offset + if base < seg.vaddr then 0 else base - seg.vaddr
  }

  /** The fault is below the end of the file's bytes, or the page holds no nonzero byte of the file. */
  ghost predicate Faithful(file: seq<byte>, seg: Segment, fa: int)
    requires seg.WellFormed(file) && seg.Contains(fa)
  {
    fa < seg.FileEnd() || forall k :: FirstInPage(seg, fa) <= k < seg.offset + seg.filesz ==> file[k] == 0
  }

  /** A faulted page equals the eager image exactly when its first fault is faithful.  The exception is a first fault in
      the zero-filled part of a page that also holds bytes of the file, and these are not all zero. */
  lemma FaithfulExactly(file: seq<byte>, seg: Segment, fa: int)
    requires seg.WellFormed(file) && seg.Contains(fa)
    ensures Faithful(file, seg, fa)
            <==> forall a :: a / 4096 == fa / 4096 && seg.Contains(a) ==>
              Brought(file, seg, fa, a) == seg.ByteAt(file, a)
  {
    if forall a :: a / PAGE_SIZE == fa / PAGE_SIZE && seg.Contains(a) ==>
      Brought(file, seg, fa, a) == seg.ByteAt(file, a) {
      forall k | fa >= seg.FileEnd() && FirstInPage(seg, fa) <= k < seg.offset + seg.filesz
        ensures file[k] == 0
      {
        var a := seg.vaddr + (k - seg.offset);
        assert a / PAGE_SIZE == fa / PAGE_SIZE && seg.Contains(a);
        assert Brought(file, seg, fa, a) == seg.ByteAt(file, a) == file[k];
      }
    }
  }

  /** The exception: a one-byte segment with one byte of zero fill, first touched at the zero. */
  lemma FirstFaultInZeroFill()
    ensures var file, seg := [1 as byte], Segment(true, 0, 1, 2, 0);
            && seg.WellFormed(file) && seg.Contains(1) && seg.Contains(0) && !Faithful(file, seg, 1)
            && seg.ByteAt(file, 0) == 1 && Brought(file, seg, 1, 0) == 0
  {
    var file, seg := [1 as byte], Segment(true, 0, 1, 2, 0);
    assert FirstInPage(seg, 1) == 0 && file[0] == 1;
  }

  // ---------------------------------------------------------------- the program, loaded eagerly

  predicate InImage(segs: seq<Segment>, a: int) {
    exists i :: 0 <= i < |segs| && segs[i].Contains(a)
  }

  function Image(segs: seq<Segment>, file: seq<byte>, a: int): byte
    requires forall i :: 0 <= i < |segs| ==> segs[i].WellFormed(file)
  {
    if segs == [] then 0
    else if segs[0].Contains(a) then segs[0].ByteAt(file, a)
    else Image(segs[1..], file, a)
  }

  lemma {:induction false} ImageIs(segs: seq<Segment>, file: seq<byte>, i: int, a: int)
    requires forall j :: 0 <= j < |segs| ==> segs[j].WellFormed(file)
    requires PagesApart(segs) && 0 <= i < |segs| && segs[i].Contains(a)
    ensures Image(segs, file, a) == segs[i].ByteAt(file, a)
  {
    if segs[0].Contains(a) {
      OneSegment(segs, 0, i, a, a);
    } else {
      ImageIs(segs[1..], file, i - 1, a);
    }
  }

  /** One access of the program to its memory. */
  datatype Access = Read(a: int) | Write(a: int, b: byte)

  function EagerByte(segs: seq<Segment>, file: seq<byte>, written: map<int, byte>, a: int): byte
    requires forall i :: 0 <= i < |segs| ==> segs[i].WellFormed(file)
  {
    if a in written then written[a] else Image(segs, file, a)
  }

  /** What the program reads when everything was loaded at the start. */
  function EagerReads(segs: seq<Segment>, file: seq<byte>, written: map<int, byte>, run: seq<Access>): seq<byte>
    requires forall i :: 0 <= i < |segs| ==> segs[i].WellFormed(file)
    decreases |run|
  {
    if run == [] then []
    else
      match run[0]
      case Read(a) =>
        [EagerByte(segs, file, written, a)] + EagerReads(segs, file, written, run[1..])
      case Write(a, b) =>
        EagerReads(segs, file, written[a := b], run[1..])
  }

  /** What the program itself has stored at a, last. */
  function Stored(written: map<int, byte>, run: seq<Access>, a: int): Option<byte> {
    if run == [] then (if a in written then Some(written[a]) else None)
    else
      var last := run[|run| - 1];
      if last.Write? && last.a == a then Some(last.b) else Stored(written, run[..|run| - 1], a)
  }

  function ReadsIn(run: seq<Access>): nat {
    if run == [] then 0 else (if run[0].Read? then 1 else 0) + ReadsIn(run[1..])
  }

  lemma {:induction false} StoredLater(written: map<int, byte>, run: seq<Access>, x: Access, a: int)
    ensures Stored(written, [x] + run, a) == Stored(if x.Write? then written[x.a := x.b] else written, run, a)
    decreases |run|
  {
    if run == [] {
      assert ([x] + run)[..0] == [];
    } else {
      assert ([x] + run)[..|run|] == [x] + run[..|run| - 1];
      StoredLater(written, run[..|run| - 1], x, a);
    }
  }

  /** Each read gives what the program has stored there last, or else the byte of the file for that address, or 0
      from the end of the file bytes on. */
  lemma {:induction false} ReadGives(segs: seq<Segment>, file: seq<byte>, written: map<int, byte>, run: seq<Access>,
                                     k: nat, i: int)
    requires (forall j :: 0 <= j < |segs| ==> segs[j].WellFormed(file)) && PagesApart(segs)
    requires k < |run| && run[k].Read? && 0 <= i < |segs| && segs[i].load
    requires segs[i].vaddr <= run[k].a < segs[i].vaddr + segs[i].memsz
    ensures ReadsIn(run[..k]) < |EagerReads(segs, file, written, run)|
    ensures var value, x := EagerReads(segs, file, written, run)[ReadsIn(run[..k])], run[k].a - segs[i].vaddr;
            value == if Stored(written, run[..k], run[k].a).Some? then Stored(written, run[..k], run[k].a).value
                     else if x < segs[i].filesz then file[segs[i].offset + x] else 0
    decreases k
  {
    var seg := segs[i];
    if k == 0 {
      ImageIs(segs, file, i, run[0].a);
    } else {
      var written' := if run[0].Write? then written[run[0].a := run[0].b] else written;
      assert run[..k] == [run[0]] + run[1..][..k - 1];
      StoredLater(written, run[1..][..k - 1], run[0], run[k].a);
      ReadGives(segs, file, written', run[1..], k - 1, i);
    }
  }

  /** Every access that is the first one to its page is faithful. */
  ghost predicate FirstTouchesFaithful(segs: seq<Segment>, file: seq<byte>, mapped: set<int>, run: seq<Access>)
    requires forall i :: 0 <= i < |segs| ==> segs[i].WellFormed(file)
    decreases |run|
  {
    run == [] ||
    var page := run[0].a / PAGE_SIZE;
    && (page !in mapped ==> forall i :: 0 <= i < |segs| && segs[i].Contains(run[0].a) ==>
        Faithful(file, segs[i], run[0].a))
    && FirstTouchesFaithful(segs, file, mapped + {page}, run[1..])
  }

  predicate FirstTouch(mapped: set<int>, run: seq<Access>, k: int) {
    && 0 <= k < |run| && run[k].a / 4096 !in mapped
    && forall j :: 0 <= j < k ==> run[j].a / 4096 != run[k].a / 4096
  }

  ghost predicate FaithfulAt(segs: seq<Segment>, file: seq<byte>, a: int)
    requires forall i :: 0 <= i < |segs| ==> segs[i].WellFormed(file)
  {
    forall i :: 0 <= i < |segs| && segs[i].Contains(a) ==> Faithful(file, segs[i], a)
  }

  /** That is: the first access to each page is a faithful one. */
  lemma {:induction false} FirstTouchesAre(segs: seq<Segment>, file: seq<byte>, mapped: set<int>, run: seq<Access>)
    requires forall i :: 0 <= i < |segs| ==> segs[i].WellFormed(file)
    ensures FirstTouchesFaithful(segs, file, mapped, run)
            <==> forall k :: FirstTouch(mapped, run, k) ==> FaithfulAt(segs, file, run[k].a)
    decreases |run|
  {
    if run != [] {
      var page, rest := run[0].a / 4096, run[1..];
      FirstTouchesAre(segs, file, mapped + {page}, rest);
      forall k | 0 < k < |run|
        ensures FirstTouch(mapped, run, k) <==> FirstTouch(mapped + {page}, rest, k - 1)
      {
        LaterTouch(mapped, run, k);
      }
      assert FirstTouch(mapped, run, 0) <==> page !in mapped;
      forall k | FirstTouch(mapped + {page}, rest, k)
        ensures FirstTouch(mapped, run, k + 1) && rest[k] == run[k + 1]
      {
      }
    }
  }

  lemma LaterTouch(mapped: set<int>, run: seq<Access>, k: int)
    requires 0 < k < |run|
    ensures FirstTouch(mapped, run, k) <==> FirstTouch(mapped + {run[0].a / 4096}, run[1..], k - 1)
  {
    var rest := run[1..];
    if FirstTouch(mapped + {run[0].a / 4096}, rest, k - 1) {
      forall j | 0 <= j < k
        ensures run[j].a / 4096 != run[k].a / 4096
      {
        assert j > 0 ==> rest[j - 1] == run[j];
      }
    }
  }

  // ---------------------------------------------------------------- internal fragmentation

  /** The bytes of a page outside the segment. */
  function Fragment(seg: Segment, page: int): int {
    var start := if page * PAGE_SIZE < seg.vaddr then seg.vaddr else page * PAGE_SIZE;
    var end := if (page + 1) * PAGE_SIZE > seg.MemEnd() then seg.MemEnd() else (page + 1) * PAGE_SIZE;
    if end > start then PAGE_SIZE - (end - start) else 0
  }

  /** The fragmentation of a segment, counting the pages below n that are mapped. */
  function SegmentTotal(seg: Segment, mapped: set<int>, n: nat): int {
    if n == 0 then 0
    else SegmentTotal(seg, mapped, n - 1) + if n - 1 in mapped && seg.Touches(n - 1) then Fragment(seg, n - 1) else 0
  }

  function Total(segs: seq<Segment>, mapped: set<int>): int {
    if segs == [] then 0 else SegmentTotal(segs[0], mapped, PAGES) + Total(segs[1..], mapped)
  }

  lemma {:induction false} SegmentTotalAdd(seg: Segment, mapped: set<int>, page: int, n: nat)
    requires page !in mapped
    ensures SegmentTotal(seg, mapped + {page}, n)
            == SegmentTotal(seg, mapped, n) + if 0 <= page < n && seg.Touches(page) then Fragment(seg, page) else 0
  {
    if n > 0 {
      SegmentTotalAdd(seg, mapped, page, n - 1);
    }
  }

  lemma {:induction false} TotalSame(segs: seq<Segment>, mapped: set<int>, page: int)
    requires page !in mapped && forall j :: 0 <= j < |segs| ==> !segs[j].Touches(page)
    ensures Total(segs, mapped + {page}) == Total(segs, mapped)
  {
    if segs != [] {
      SegmentTotalAdd(segs[0], mapped, page, PAGES);
      TotalSame(segs[1..], mapped, page);
    }
  }

  lemma {:induction false} TotalAdd(segs: seq<Segment>, mapped: set<int>, page: int, i: int)
    requires page !in mapped && PagesApart(segs) && 0 <= i < |segs| && 0 <= page < PAGES && segs[i].Touches(page)
    ensures Total(segs, mapped + {page}) == Total(segs, mapped) + Fragment(segs[i], page)
  {
    SegmentTotalAdd(segs[0], mapped, page, PAGES);
    forall j | 0 <= j < |segs| && j != i
      ensures !segs[j].Touches(page)
    {
      assert i < j || j < i;
    }
    if i == 0 {
      TotalSame(segs[1..], mapped, page);
    } else {
      TotalAdd(segs[1..], mapped, page, i - 1);
    }
  }

  function Clamp(x: int, hi: int): int {
    if x < 0 then 0 else if x > hi then hi else x
  }

  lemma {:induction false} SegmentTotalBelow(seg: Segment, mapped: set<int>, n: nat)
    requires seg.load && seg.memsz > 0 && seg.vaddr >= 0
    requires forall p :: seg.Touches(p) ==> p in mapped
    ensures SegmentTotal(seg, mapped, n)
            == PAGE_SIZE * Clamp(n - seg.vaddr / PAGE_SIZE, seg.PageCount()) - Clamp(n * PAGE_SIZE - seg.vaddr,
                                                                                     seg.memsz)
  {
    if n > 0 {
      SegmentTotalBelow(seg, mapped, n - 1);
    }
  }

  /** What all segments waste when all their pages are mapped. */
  function Waste(segs: seq<Segment>): int {
    if segs == [] then 0
    else (if segs[0].load then 4096 * segs[0].PageCount() - segs[0].memsz else 0) + Waste(segs[1..])
  }

  /** Once every page has been touched, the total is the size of the pages less the size of the segments. */
  lemma {:induction false} AllTouched(segs: seq<Segment>, file: seq<byte>, mapped: set<int>)
    requires forall i :: 0 <= i < |segs| ==> segs[i].WellFormed(file)
    requires forall i, p :: 0 <= i < |segs| && segs[i].Touches(p) ==> p in mapped
    ensures Total(segs, mapped) == Waste(segs)
  {
    if segs != [] {
      var seg := segs[0];
      assert forall p :: seg.Touches(p) ==> p in mapped;
      if seg.load && seg.memsz > 0 {
        SegmentTotalBelow(seg, mapped, PAGES);
      } else {
        Untouched(seg, mapped, PAGES);
      }
      AllTouched(segs[1..], file, mapped);
    }
  }

  lemma {:induction false} Untouched(seg: Segment, mapped: set<int>, n: nat)
    requires forall p :: !seg.Touches(p)
    ensures SegmentTotal(seg, mapped, n) == 0
  {
    if n > 0 {
      Untouched(seg, mapped, n - 1);
    }
  }

  lemma {:induction false} NothingMapped(segs: seq<Segment>)
    ensures Total(segs, {}) == 0
  {
    if segs != [] {
      NothingIn(segs[0], PAGES);
      NothingMapped(segs[1..]);
    }
  }

  lemma {:induction false} NothingIn(seg: Segment, n: nat)
    ensures SegmentTotal(seg, {}, n) == 0
  {
    if n > 0 {
      NothingIn(seg, n - 1);
    }
  }

  // ---------------------------------------------------------------- the loader at work

  class Loader {
    const file: seq<byte>
    const phdr: seq<Segment>
    var pages: map<int, Page>  // the mapped pages, by page number
    var mapRanges: seq<int>    // the pages to unmap at the end
    var noPageFaults: int
    var noAllocations: int
    var fragmentation: int
    ghost var written: map<int, byte>  // the program's own stores
    ghost var spoiled: set<int>        // the pages whose first fault was not faithful

    /** What an eagerly loaded program holds at a. */
    ghost predicate Holds(a: int, b: byte)
      reads this
      requires forall i :: 0 <= i < |phdr| ==> phdr[i].WellFormed(file)
    {
      if a in written then b == written[a]
      else forall i :: 0 <= i < |phdr| && phdr[i].Contains(a) ==> b == phdr[i].ByteAt(file, a)
    }

    ghost predicate Bookkeeping()
      reads this
    {
      && (forall p :: p in pages <==> p in mapRanges)
      && (forall j, k :: 0 <= j < k < |mapRanges| ==> mapRanges[j] != mapRanges[k])
      && noAllocations == |mapRanges|
      && fragmentation == Total(phdr, pages.Keys)
    }

    ghost predicate Contents()
      reads this
    {
      && (forall i :: 0 <= i < |phdr| ==> phdr[i].WellFormed(file)) && PagesApart(phdr)
      && (forall a :: a in written ==> a / PAGE_SIZE in pages)
      && (forall a :: a / PAGE_SIZE in pages && a / PAGE_SIZE !in spoiled ==>
          Holds(a, pages[a / PAGE_SIZE][a % PAGE_SIZE]))
    }

    ghost predicate Valid()
      reads this
    {
      Contents() && Bookkeeping()
    }

    constructor (file: seq<byte>, phdr: seq<Segment>)
      requires (forall i :: 0 <= i < |phdr| ==> phdr[i].WellFormed(file)) && PagesApart(phdr)
      ensures Valid() && this.file == file && this.phdr == phdr
      ensures pages == map[] && written == map[] && spoiled == {} && noPageFaults == noAllocations == fragmentation == 0
    {
      this.file, this.phdr := file, phdr;
      pages, mapRanges := map[], [];
      noPageFaults, noAllocations, fragmentation := 0, 0, 0;
      written, spoiled := map[], {};
      new;
      NothingMapped(phdr);
      assert pages.Keys == {};
    }

    /** The page that loader_map_segment maps for a fault. */
    method PageFor(seg: Segment, fa: int) returns (page: Page)
      requires seg.WellFormed(file) && seg.Contains(fa)
      ensures forall a :: a / 4096 == fa / 4096 && seg.Contains(a) ==>
                page[a % 4096] == Brought(file, seg, fa, a)
      ensures Faithful(file, seg, fa) ==>
                forall a :: a / 4096 == fa / 4096 && seg.Contains(a) ==>
                  page[a % 4096] == seg.ByteAt(file, a)
    {
      FaithfulExactly(file, seg, fa);
      var base := fa / PAGE_SIZE * PAGE_SIZE;
      if fa < seg.FileEnd() {
        var fileOffset := seg.offset / PAGE_SIZE * PAGE_SIZE + (base - seg.vaddr / PAGE_SIZE * PAGE_SIZE);
        assert fileOffset == seg.offset + (base - seg.vaddr);
        page := FilePage(file, fileOffset);
        if seg.memsz > seg.filesz && base <= seg.FileEnd() < base + PAGE_SIZE {
          var bssStart := seg.FileEnd() - base;
          var bssEnd := if seg.MemEnd() <= base + PAGE_SIZE then seg.MemEnd() - base else PAGE_SIZE;
          if bssEnd - bssStart > 0 {
            page := Cleared(page, bssStart, bssEnd - bssStart);
          }
        }
      } else {
        page := seq(4096, i => 0);
      }
    }

    /** The mapping done by loader_map_segment. */
    method MapPage(i: int, fa: int)
      requires Contents() && 0 <= i < |phdr| && phdr[i].Contains(fa) && fa / PAGE_SIZE !in pages
      modifies this`pages, this`spoiled
      ensures Contents() && pages.Keys == old(pages.Keys) + {fa / PAGE_SIZE}
      ensures forall p :: p in old(pages) ==> pages[p] == old(pages)[p]
      ensures forall a :: a / PAGE_SIZE == fa / PAGE_SIZE && phdr[i].Contains(a) ==>
                pages[fa / PAGE_SIZE][a % PAGE_SIZE] == Brought(file, phdr[i], fa, a)
      ensures spoiled == if Faithful(file, phdr[i], fa) then old(spoiled) else old(spoiled) + {fa / PAGE_SIZE}
    {
      var page := PageFor(phdr[i], fa);
      forall j, a | 0 <= j < |phdr| && phdr[j].Contains(a) && a / PAGE_SIZE == fa / PAGE_SIZE
        ensures i == j
      {
        OneSegment(phdr, i, j, fa, a);
      }
      spoiled := if Faithful(file, phdr[i], fa) then spoiled else spoiled + {fa / PAGE_SIZE};
      pages := pages[fa / PAGE_SIZE := page];
      assert pages.Keys == old(pages.Keys) + {fa / PAGE_SIZE};
    }

    /** loader_map_segment. */
    method MapSegment(i: int, fa: int)
      requires Valid() && 0 <= i < |phdr| && phdr[i].Contains(fa) && fa / 4096 !in pages
      modifies this`pages, this`mapRanges, this`noAllocations, this`fragmentation, this`spoiled
      ensures Valid()
      ensures pages.Keys == old(pages.Keys) + {fa / 4096} && noAllocations == old(noAllocations) + 1
      ensures forall p :: p in old(pages) ==> pages[p] == old(pages)[p]
      ensures forall a :: a / 4096 == fa / 4096 && phdr[i].Contains(a) ==>
                pages[fa / 4096][a % 4096] == Brought(file, phdr[i], fa, a)
      ensures spoiled == if Faithful(file, phdr[i], fa) then old(spoiled) else old(spoiled) + {fa / 4096}
    {
      var seg, number := phdr[i], fa / PAGE_SIZE;
      MapPage(i, fa);
      mapRanges := mapRanges + [number];
      noAllocations := noAllocations + 1;
      var start := if number * PAGE_SIZE < seg.vaddr then seg.vaddr else number * PAGE_SIZE;
      var end := if (number + 1) * PAGE_SIZE > seg.MemEnd() then seg.MemEnd() else (number + 1) * PAGE_SIZE;
      if end > start {
        fragmentation := fragmentation + (PAGE_SIZE - (end - start));
      }
      ContainsTouches(seg, fa);
      TotalAdd(phdr, old(pages.Keys), number, i);
    }

    /** try_load_for_fault: fails exactly when no loadable segment has the address. */
    method TryLoad(fa: int) returns (ok: bool)
      requires Valid() && fa / 4096 !in pages
      modifies this`pages, this`mapRanges, this`noAllocations, this`fragmentation, this`spoiled
      ensures Valid()
      ensures ok <==> InImage(phdr, fa)
      ensures pages.Keys == if ok then old(pages.Keys) + {fa / 4096} else old(pages.Keys)
      ensures noAllocations == if ok then old(noAllocations) + 1 else old(noAllocations)
      ensures forall p :: p in old(pages) ==> pages[p] == old(pages)[p]
      ensures (forall i :: 0 <= i < |phdr| && phdr[i].Contains(fa) ==> Faithful(file, phdr[i], fa)) ==>
                spoiled == old(spoiled)
    {
      for i := 0 to |phdr|
        invariant Valid() && pages == old(pages) && spoiled == old(spoiled) && noAllocations == old(noAllocations)
        invariant forall j :: 0 <= j < i ==> !phdr[j].Contains(fa)
      {
        if phdr[i].load && phdr[i].vaddr <= fa < phdr[i].vaddr + phdr[i].memsz {
          MapSegment(i, fa);
          return true;
        }
      }
      ok := false;
    }

    /** An access to an address: if its page is not there, the fault handler counts the fault and loads it; false means
        that the program is killed. */
    method Touch(a: int) returns (ok: bool)
      requires Valid()
      modifies this`pages, this`mapRanges, this`noPageFaults, this`noAllocations, this`fragmentation, this`spoiled
      ensures Valid()
      ensures ok <==> a / 4096 in old(pages) || InImage(phdr, a)
      ensures pages.Keys == if ok then old(pages.Keys) + {a / 4096} else old(pages.Keys)
      ensures noPageFaults == if a / 4096 in old(pages) then old(noPageFaults) else old(noPageFaults) + 1
      ensures noAllocations == if ok && a / 4096 !in old(pages) then old(noAllocations) + 1 else old(noAllocations)
      ensures a / 4096 in old(pages)
              || (forall i :: 0 <= i < |phdr| && phdr[i].Contains(a) ==> Faithful(file, phdr[i], a))
              ==> spoiled == old(spoiled)
    {
      ok := true;
      if a / PAGE_SIZE !in pages {
        noPageFaults := noPageFaults + 1;
        ok := TryLoad(a);
      }
    }

    method Load(a: int) returns (b: byte)
      requires Valid() && a / PAGE_SIZE in pages
      ensures a / PAGE_SIZE !in spoiled ==> Holds(a, b)
    {
      b := pages[a / PAGE_SIZE][a % PAGE_SIZE];
    }

    method Store(a: int, b: byte)
      requires Valid() && a / PAGE_SIZE in pages
      modifies this`pages, this`written
      ensures Valid() && written == old(written)[a := b] && pages.Keys == old(pages.Keys)
    {
      ghost var before := pages;
      pages := pages[a / PAGE_SIZE := pages[a / PAGE_SIZE][a % PAGE_SIZE := b]];
      written := written[a := b];
      forall c | c / PAGE_SIZE in pages && c / PAGE_SIZE !in spoiled
        ensures Holds(c, pages[c / PAGE_SIZE][c % PAGE_SIZE])
      {
        assert c != a ==> pages[c / PAGE_SIZE][c % PAGE_SIZE] == before[c / PAGE_SIZE][c % PAGE_SIZE];
      }
      assert pages.Keys == before.Keys;
    }

    /** One access inside the image. */
    method Perform(x: Access) returns (value: Option<byte>)
      requires Valid() && InImage(phdr, x.a)
      modifies this
      ensures Valid()
      ensures pages.Keys == old(pages.Keys) + {x.a / PAGE_SIZE}
      ensures noPageFaults - old(noPageFaults) == noAllocations - old(noAllocations)
      ensures written == if x.Write? then old(written)[x.a := x.b] else old(written)
      ensures value.Some? <==> x.Read?
      ensures old(spoiled) == {}
              && (x.a / PAGE_SIZE in old(pages)
                  || forall i :: 0 <= i < |phdr| && phdr[i].Contains(x.a) ==> Faithful(file, phdr[i], x.a))
              ==> spoiled == {} && (x.Read? ==> value == Some(EagerByte(phdr, file, written, x.a)))
    {
      ghost var i :| 0 <= i < |phdr| && phdr[i].Contains(x.a);
      ImageIs(phdr, file, i, x.a);
      var ok := Touch(x.a);
      match x {
        case Read(a) =>
          var b := Load(a);
          value := Some(b);
        case Write(a, b) =>
          Store(a, b);
          value := None;
      }
    }

    /** A whole run of accesses inside the image.  If each page's first touch is faithful, the program reads what it
        would read had it been loaded eagerly. */
    method Run(run: seq<Access>) returns (values: seq<byte>)
      requires Valid() && spoiled == {}
      requires forall k :: 0 <= k < |run| ==> InImage(phdr, run[k].a)
      modifies this
      ensures Valid()
      ensures noPageFaults - old(noPageFaults) == noAllocations - old(noAllocations)
      ensures FirstTouchesFaithful(phdr, file, old(pages.Keys), run) ==>
                values == EagerReads(phdr, file, old(written), run)
    {
      values := [];
      for k := 0 to |run|
        invariant Valid()
        invariant noPageFaults - old(noPageFaults) == noAllocations - old(noAllocations)
        invariant FirstTouchesFaithful(phdr, file, old(pages.Keys), run) ==>
                    && spoiled == {} && FirstTouchesFaithful(phdr, file, pages.Keys, run[k..])
                    && EagerReads(phdr, file, old(written), run) == values + EagerReads(phdr, file, written, run[k..])
      {
        assert run[k..][0] == run[k] && run[k..][1..] == run[k + 1..];
        var value := Perform(run[k]);
        if value.Some? {
          values := values + [value.value];
        }
      }
    }

    /** Once every page of every segment has been touched, the fragmentation counted is the size of the pages less the
        size of the segments. */
    lemma TotalFragmentation()
      requires Valid() && forall i, p :: 0 <= i < |phdr| && phdr[i].Touches(p) ==> p in pages
      ensures fragmentation == Waste(phdr)
    {
      AllTouched(phdr, file, pages.Keys);
    }

    /** The part of loader_cleanup that unmaps: every page goes. */
    method Cleanup()
      requires Valid()
      modifies this`pages, this`mapRanges
      ensures pages == map[] && mapRanges == []
    {
      for i := 0 to |mapRanges|
        invariant mapRanges == old(mapRanges)
        invariant forall p :: p in pages ==> p in mapRanges[i..]
      {
        pages := pages - {mapRanges[i]};
        assert forall p :: p in mapRanges[i..] && p != mapRanges[i] ==> p in mapRanges[i + 1..];
      }
      assert forall p :: p !in pages;
      mapRanges := [];
    }
  }
}
