/**
 What the ELF loader of egos (library/elf/elf.c) puts at the pages of a process: the blocks of the file, then zeros.
 Pages have 4096 bytes (PAGE_SIZE), blocks have 512 (BLOCK_SIZE).
 */
module ElfImage {
  import opened Memory
  import opened SoftTlb

  const RAM_START := 0x8000_0000

  type Block = s: seq<byte> | |s| == 512 witness seq(512, i => 0)

  /** The file, as the reader gives it: block by block. */
  type Reader = int -> Block

  function ZeroPage(): (p: Page)
    ensures forall i :: 0 <= i < 4096 ==> p[i] == 0
  {
    seq(4096, i => 0)
  }

  datatype Header = Header(vaddr: int, filesz: int, memsz: int, offset: int) {
    predicate Loads() { vaddr >= RAM_START }

    function First(): int { vaddr / 4096 }

    function FilePages(): int { (filesz + 4096 - 1) / 4096 }

    /** The code counts the pages of the zero fill up to the last whole page. */
    function PageCount(): int {
      var end := (vaddr + memsz) / 4096 - First();
      if FilePages() > end then FilePages() else end
    }

    predicate HasPage(vpageNo: int) { Loads() && First() <= vpageNo < First() + PageCount() }

    /** 32-bit sizes that do not wrap around, and pages that are not frames. */
    ghost predicate WellFormed() {
      && 0 <= vaddr && 0 <= filesz <= 0x1_0000_0000 - 512 && 0 <= memsz && vaddr + memsz < 0x1_0000_0000 && 0 <= offset
      && forall p :: HasPage(p) ==> InWindow(p)
    }

    /** Page k of the segment once the first `upto` bytes of data are in place, or all of them if there are fewer. */
    function PageAt(reader: Reader, k: int, upto: int): Page
      requires 0 <= k
    {
      seq(4096, i requires 0 <= i < 4096 =>
        var x := k * 4096 + i;
        if x < upto && x < filesz then reader(offset / 512 + x / 512)[x % 512] else 0)
    }
  }

  /** memcpy(page + at, bytes, |bytes|) */
  function Splice(page: Page, at: int, bytes: seq<byte>): (r: Page)
    requires 0 <= at && at + |bytes| <= 4096
    ensures forall i :: 0 <= i < 4096 ==> r[i] == if at <= i < at + |bytes| then bytes[i - at] else page[i]
  {
    page[..at] + bytes + page[at + |bytes|..]
  }

  lemma EmptyPage(h: Header, reader: Reader, k: int, upto: int)
    requires 0 <= k && (upto <= k * 4096 || h.filesz <= k * 4096)
    ensures h.PageAt(reader, k, upto) == ZeroPage()
  {
  }

  /** How much of the block at `off` belongs to the segment. */
  function BlockPart(h: Header, off: int): int {
    if off + 512 < h.filesz then 512 else h.filesz - off
  }

  lemma BlockFits(off: int)
    requires off % 512 == 0
    ensures off % 4096 + 512 <= 4096
  {
    assert off == 512 * (off / 512);
  }

  /** Copying one block, or what is left of the file, brings in the next bytes of the segment. */
  lemma CopyBlock(h: Header, reader: Reader, k: int, off: int, blockno: int, bytes: seq<byte>)
    requires 0 <= k && k * 4096 <= off < (k + 1) * 4096 && off == (blockno - h.offset / 512) * 512 && off < h.filesz
    requires bytes == reader(blockno)[..BlockPart(h, off)]
    requires off % 4096 + |bytes| <= 4096
    ensures Splice(h.PageAt(reader, k, off), off % 4096, bytes) == h.PageAt(reader, k, off + 512)
  {
    assert off % 4096 == off - k * 4096;
    var before, after := h.PageAt(reader, k, off), h.PageAt(reader, k, off + 512);
    forall i | 0 <= i < 4096
      ensures Splice(before, off % 4096, bytes)[i] == after[i]
    {
      var x := k * 4096 + i;
      if off <= x < off + 512 {
        assert x / 512 == blockno - h.offset / 512 && x % 512 == x - off;
      }
    }
  }

  /** Page k no longer changes once its bytes, or all bytes of the segment, are in place. */
  lemma PageDone(h: Header, reader: Reader, k: int, upto: int, upto': int)
    requires 0 <= k && ((k + 1) * 4096 <= upto <= upto' || (h.filesz <= upto && h.filesz <= upto'))
    ensures h.PageAt(reader, k, upto) == h.PageAt(reader, k, upto')
  {
  }

  // ---------------------------------------------------------------- what this means for a linked segment

  /** The byte that the process finds at address a of the segment. */
  function Loaded(h: Header, reader: Reader, a: int): byte
    requires h.First() * 4096 <= a
  {
    h.PageAt(reader, a / 4096 - h.First(), h.filesz)[a % 4096]
  }

  /** For a page-aligned address and a block-aligned offset, the process finds at vaddr + x the byte offset + x of the
      file for x below filesz, and zeros from there to the end of the last page. */
  lemma AlignedImage(h: Header, reader: Reader, x: int)
    requires h.vaddr % 4096 == 0 && h.offset % 512 == 0 && 0 <= x && 0 <= h.offset
    ensures x < h.filesz ==>
              Loaded(h, reader, h.vaddr + x) == reader((h.offset + x) / 512)[(h.offset + x) % 512]
    ensures x >= h.filesz ==> Loaded(h, reader, h.vaddr + x) == 0
  {
    assert (h.vaddr + x) / 4096 - h.First() == x / 4096 && (h.vaddr + x) % 4096 == x % 4096;
    assert x / 4096 * 4096 + x % 4096 == x;
    assert (h.offset + x) / 512 == h.offset / 512 + x / 512;
  }

  /** At address va process pid finds what the segment has there: its bytes of the file, then zeros. */
  ghost predicate FindsSegment(spaces: Spaces, pid: int, h: Header, reader: Reader, va: int) {
    && Addr(pid, va / 4096) in spaces
    && spaces[Addr(pid, va / 4096)][va % 4096]
       == if va - h.vaddr < h.filesz
          then reader((h.offset + va - h.vaddr) / 512)[(h.offset + va - h.vaddr) % 512] else 0
  }

  /** What the loader makes of a segment with page-aligned address and block-aligned offset in the memory of process
      pid, by addresses and offsets alone: all its bytes of the file, and zeros up to its last whole page. */
  ghost predicate SegmentInPlace(spaces: Spaces, pid: int, h: Header, reader: Reader) {
    h.vaddr >= 0x8000_0000 && h.vaddr % 4096 == 0 && h.offset % 512 == 0 && h.offset >= 0 ==>
      forall va :: h.vaddr <= va && (va < h.vaddr + h.filesz || va / 4096 < (h.vaddr + h.memsz) / 4096) ==>
        FindsSegment(spaces, pid, h, reader, va)
  }

  /** The segment needs page p: nothing below the start of memory, the pages with its bytes of the file, and further
      ones up to the last whole page of its memory. */
  predicate NeedsPage(h: Header, p: int) {
    && h.vaddr >= 0x8000_0000 && h.vaddr / 4096 <= p
    && (p - h.vaddr / 4096 < (h.filesz + 4095) / 4096 || p < (h.vaddr + h.memsz) / 4096)
  }

  lemma NeededPages(h: Header, p: int)
    ensures NeedsPage(h, p) <==> h.HasPage(p)
  {
  }

  lemma SegmentFound(spaces: Spaces, pid: int, h: Header, reader: Reader, va: int)
    requires h.vaddr >= 0x8000_0000 && h.vaddr % 4096 == 0 && h.offset % 512 == 0 && h.offset >= 0 && h.vaddr <= va
    requires Addr(pid, va / 4096) in spaces && spaces[Addr(pid, va / 4096)][va % 4096] == Loaded(h, reader, va)
    ensures FindsSegment(spaces, pid, h, reader, va)
  {
    AlignedImage(h, reader, va - h.vaddr);
  }

  lemma PageOfAddress(h: Header, va: int)
    requires h.vaddr % 4096 == 0 && h.vaddr <= va < h.vaddr + h.filesz
    ensures va / 4096 - h.vaddr / 4096 < (h.filesz + 4095) / 4096
  {
  }

  /** All the memory of an aligned segment is mapped exactly when its size is a whole number of pages or its last page
      also holds bytes of the file: the last, partial page of a longer zero fill is left out. */
  lemma MemoryIsMapped(h: Header)
    requires h.Loads() && h.vaddr % 4096 == 0 && 0 <= h.filesz <= h.memsz
    ensures (forall a :: h.vaddr <= a < h.vaddr + h.memsz ==> h.HasPage(a / 4096))
            <==> h.memsz % 4096 == 0 || h.filesz > h.memsz / 4096 * 4096
  {
    if h.memsz % 4096 != 0 {
      var last := h.vaddr + h.memsz - 1;
      assert last / 4096 == h.First() + h.memsz / 4096;
      assert h.filesz <= h.memsz / 4096 * 4096 ==> !h.HasPage(last / 4096);
    }
  }

  /** One byte of zero fill past a whole page is never mapped. */
  lemma PartialZeroFillUnmapped()
    ensures var h := Header(0x8020_0000, 4096, 4096 + 1, 0);
            h.WellFormed() && !h.HasPage((h.vaddr + h.memsz - 1) / 4096)
  {
  }
}
