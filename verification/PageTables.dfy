/**
 The identity map built with Sv32 page tables (earth/cpu_mmu.c), against the address translation of section 4.3.2 of
 the RISC-V Privileged Architecture, version 1.10.

 Page-table entries are 32-bit numbers.  The code combines fields with bitwise or; here the fields never overlap, so
 they are added.
 */
module PageTables {
  import opened Wrappers
  import opened Memory

  const PAGE_SIZE := 4096
  const ENTRIES := 1024
  const FRAMES := 512
  const USER_RWX := 0xDF  // 0xC0 | 0x1F: dirty, accessed, user, execute, write, read, valid

  type Table = s: seq<int> | |s| == 1024 witness seq(1024, i => 0)

  function ZeroTable(): (t: Table)
    ensures forall k :: 0 <= k < ENTRIES ==> t[k] == 0
  {
    seq(1024, i => 0)
  }

  datatype Region = Region(addr: int, npages: int)

  datatype Platform = Qemu | Hardware

  // ---------------------------------------------------------------- the architecture

  /** Where an access goes, and with which flags, or a page fault. */
  datatype Translation = Fault | To(paddr: int, flags: int)

  function FrameOf(ppn: int): Option<int> {
    if FIRST_FRAME <= ppn < FIRST_FRAME + FRAMES then Some(ppn - FIRST_FRAME) else None
  }

  predicate Readable(pte: int) { pte / 2 % 2 == 1 }
  predicate Writable(pte: int) { pte / 4 % 2 == 1 }
  predicate Executable(pte: int) { pte / 8 % 2 == 1 }

  /** The entry is a leaf that maps a page (and not a reserved combination). */
  predicate IsLeaf(pte: int) { Readable(pte) || Executable(pte) }

  /** The two-level walk.  Tables outside the frames are not memory of this model and fault. */
  function Walk(frames: seq<Table>, root: int, va: int): Translation
    requires 0 <= root < |frames| && 0 <= va < 0x1_0000_0000
  {
    var vpn1, vpn0, offset := va / 0x40_0000, va / PAGE_SIZE % ENTRIES, va % PAGE_SIZE;
    var pte1 := frames[root][vpn1];
    if pte1 % 2 == 0 || (!Readable(pte1) && Writable(pte1)) then Fault
    else if IsLeaf(pte1) then
      if pte1 / 1024 % 1024 != 0 then Fault
      else To(pte1 / 0x10_0000 * 0x40_0000 + vpn0 * PAGE_SIZE + offset, pte1 % 256)
    else
      match FrameOf(pte1 / 1024)
      case None => Fault
      case Some(f) =>
        if f >= |frames| then Fault
        else
          var pte0 := frames[f][vpn0];
          if pte0 % 2 == 0 || (!Readable(pte0) && Writable(pte0)) || !IsLeaf(pte0) then Fault
          else To(pte0 / 1024 * PAGE_SIZE + offset, pte0 % 256)
  }

  // ---------------------------------------------------------------- what the tables should say

  predicate InRegion(r: Region, page: int) {
    r.addr / PAGE_SIZE <= page < r.addr / PAGE_SIZE + r.npages
  }

  predicate Covered(regions: seq<Region>, page: int) {
    exists k :: 0 <= k < |regions| && InRegion(regions[k], page)
  }

  /** A leaf-table entry maps its own page with all permissions if the page is covered, and is invalid otherwise. */
  predicate LeafEntryOk(pte: int, page: int, regions: seq<Region>) {
    if Covered(regions, page) then pte / 1024 == page && pte % 256 == USER_RWX else pte == 0
  }

  /** A root entry that points to the leaf table in frame f. */
  function Pointer(f: int): int {
    (FIRST_FRAME + f) * PAGE_SIZE / 4 + 1
  }

  /** The tables rooted at `root` map exactly the given regions; leafOf tells the frame of each leaf table. */
  ghost predicate MapsExactly(frames: seq<Table>, root: int, leafOf: map<int, int>, regions: seq<Region>) {
    && |frames| == FRAMES && 0 <= root < FRAMES
    && (forall v :: v in leafOf ==> 0 <= v < ENTRIES && 0 <= leafOf[v] < FRAMES && leafOf[v] != root)
    && (forall v, w :: v in leafOf && w in leafOf && leafOf[v] == leafOf[w] ==> v == w)
    && (forall v :: 0 <= v < ENTRIES ==> frames[root][v] == if v in leafOf then Pointer(leafOf[v]) else 0)
    && (forall v, k :: v in leafOf && 0 <= k < ENTRIES ==> LeafEntryOk(frames[leafOf[v]][k], v * ENTRIES + k, regions))
    && (forall page :: Covered(regions, page) ==> page / ENTRIES in leafOf)
  }

  lemma Odd(x: int, k: int)
    requires x == 2 * k + 1
    ensures x % 2 == 1
  {
  }

  lemma LeafQuotients(q: int)
    ensures (256 * q + 223) / 2 == 2 * (64 * q + 55) + 1
    ensures (256 * q + 223) / 4 == 2 * (32 * q + 27) + 1
    ensures (256 * q + 223) / 8 == 2 * (16 * q + 13) + 1
  {
  }

  lemma LeafBits(pte: int)
    requires pte % 256 == USER_RWX
    ensures pte % 2 == 1 && Readable(pte) && Writable(pte) && Executable(pte)
  {
    var q := pte / 256;
    assert pte == 256 * q + 223;
    LeafQuotients(q);
    Odd(pte, 128 * q + 111);
    Odd(pte / 2, 64 * q + 55);
    Odd(pte / 4, 32 * q + 27);
    Odd(pte / 8, 16 * q + 13);
  }

  lemma PointerBits(f: int)
    ensures Pointer(f) % 2 == 1 && !Readable(Pointer(f)) && !Writable(Pointer(f)) && !Executable(Pointer(f))
    ensures Pointer(f) / 1024 == FIRST_FRAME + f
  {
    assert Pointer(f) == (FIRST_FRAME + f) * 1024 + 1;
  }

  /** For every address: the walk gives the address itself, with R, W, X and U, in the regions, and faults elsewhere. */
  lemma IdentityMapCorrect(frames: seq<Table>, root: int, leafOf: map<int, int>, regions: seq<Region>, va: int)
    requires MapsExactly(frames, root, leafOf, regions) && 0 <= va < 0x1_0000_0000
    ensures Walk(frames, root, va) == if Covered(regions, va / PAGE_SIZE) then To(va, USER_RWX) else Fault
  {
    var vpn1, vpn0, page := va / 0x40_0000, va / PAGE_SIZE % ENTRIES, va / PAGE_SIZE;
    assert page == vpn1 * ENTRIES + vpn0 && page / ENTRIES == vpn1;
    if vpn1 in leafOf {
      PointerBits(leafOf[vpn1]);
      var pte0 := frames[leafOf[vpn1]][vpn0];
      assert LeafEntryOk(pte0, vpn1 * ENTRIES + vpn0, regions);
      if Covered(regions, page) {
        LeafBits(pte0);
      }
    }
  }

  // ---------------------------------------------------------------- building them

  /** A leaf-table entry as the code writes it: ((addr + i * PAGE_SIZE) >> 2) | USER_RWX. */
  function LeafEntry(addr: int, i: int): int {
    (addr + i * PAGE_SIZE) / 4 + USER_RWX
  }

  /** The regions that setup_identity_region is called with: their low address bits stay clear of the flags, and they do
      not cross a 4 MB boundary. */
  predicate RegionOk(r: Region) {
    && 0 <= r.addr < 0x1_0000_0000 && r.addr % 1024 == 0
    && 0 < r.npages && r.addr / PAGE_SIZE % ENTRIES + r.npages <= ENTRIES
  }

  lemma LeafEntryBits(addr: int, i: int)
    requires 0 <= addr && addr % 1024 == 0 && 0 <= i
    ensures LeafEntry(addr, i) / 1024 == addr / PAGE_SIZE + i && LeafEntry(addr, i) % 256 == USER_RWX
  {
    var page, low := addr / PAGE_SIZE, addr % PAGE_SIZE / 1024;
    assert addr == page * PAGE_SIZE + low * 1024;
    assert (addr + i * PAGE_SIZE) / 4 == (page + i) * 1024 + low * 256;
  }

  lemma PointerRoundTrip(f: int)
    requires 0 <= f < FRAMES
    ensures Pointer(f) * 4 % 0x1_0000_0000 / PAGE_SIZE * PAGE_SIZE == (FIRST_FRAME + f) * PAGE_SIZE
  {
    assert Pointer(f) * 4 == (FIRST_FRAME + f) * PAGE_SIZE + 4;
  }

  lemma CoveredAppend(regions: seq<Region>, r: Region, page: int)
    ensures Covered(regions + [r], page) <==> Covered(regions, page) || InRegion(r, page)
  {
    var rs := regions + [r];
    if Covered(regions, page) {
      var k :| 0 <= k < |regions| && InRegion(regions[k], page);
      assert InRegion(rs[k], page);
    }
    if InRegion(r, page) {
      assert InRegion(rs[|regions|], page);
    }
    if Covered(rs, page) {
      var k :| 0 <= k < |rs| && InRegion(rs[k], page);
      assert k < |regions| ==> InRegion(regions[k], page);
    }
  }

  /** A fresh zeroed leaf table for an untouched 4 MB range. */
  lemma AddLeafTable(frames: seq<Table>, frames': seq<Table>, root: int, leafOf: map<int, int>, regions: seq<Region>,
                     v: int, f: int)
    requires MapsExactly(frames, root, leafOf, regions) && 0 <= v < ENTRIES && v !in leafOf
    requires 0 <= f < FRAMES && f != root && forall w :: w in leafOf ==> leafOf[w] != f
    requires frames' == frames[f := ZeroTable()][root := frames[root][v := Pointer(f)]]
    ensures MapsExactly(frames', root, leafOf[v := f], regions)
  {
    forall k | 0 <= k < ENTRIES
      ensures LeafEntryOk(frames'[f][k], v * ENTRIES + k, regions)
    {
      assert (v * ENTRIES + k) / ENTRIES == v;
    }
  }

  /** Filling in the entries of one region in its leaf table. */
  lemma AddEntries(frames: seq<Table>, frames': seq<Table>, root: int, leafOf: map<int, int>, regions: seq<Region>,
                   r: Region, f: int)
    requires MapsExactly(frames, root, leafOf, regions) && RegionOk(r)
    requires r.addr / 0x40_0000 in leafOf && f == leafOf[r.addr / 0x40_0000]
    requires |frames'| == |frames| && frames' == frames[f := frames'[f]]
    requires forall k :: 0 <= k < ENTRIES ==>
               frames'[f][k] == var i := k - r.addr / PAGE_SIZE % ENTRIES;
                                if 0 <= i < r.npages then LeafEntry(r.addr, i) else frames[f][k]
    ensures MapsExactly(frames', root, leafOf, regions + [r])
  {
    forall page
      ensures Covered(regions + [r], page) <==> Covered(regions, page) || InRegion(r, page)
    {
      CoveredAppend(regions, r, page);
    }
    forall v, k | v in leafOf && 0 <= k < ENTRIES
      ensures LeafEntryOk(frames'[leafOf[v]][k], v * ENTRIES + k, regions + [r])
    {
      AddedEntry(frames, frames', root, leafOf, regions, r, f, v, k);
    }
    forall page | Covered(regions + [r], page)
      ensures page / ENTRIES in leafOf
    {
      if InRegion(r, page) {
        PageOfRegion(r, page);
      }
    }
  }

  lemma PageOfRegion(r: Region, page: int)
    requires RegionOk(r)
    ensures InRegion(r, page) ==> page / ENTRIES == r.addr / 0x40_0000
    ensures InRegion(r, page) <==> page / ENTRIES == r.addr / 0x40_0000
                                   && 0 <= page % ENTRIES - r.addr / PAGE_SIZE % ENTRIES < r.npages
  {
    var v, k := r.addr / 0x40_0000, r.addr / PAGE_SIZE % ENTRIES;
    assert r.addr / PAGE_SIZE == v * ENTRIES + k;
    assert page == (page / ENTRIES) * ENTRIES + page % ENTRIES;
  }

  lemma AddedEntry(frames: seq<Table>, frames': seq<Table>, root: int, leafOf: map<int, int>, regions: seq<Region>,
                   r: Region, f: int, v: int, k: int)
    requires MapsExactly(frames, root, leafOf, regions) && RegionOk(r) && v in leafOf && 0 <= k < ENTRIES
    requires r.addr / 0x40_0000 in leafOf && f == leafOf[r.addr / 0x40_0000]
    requires |frames'| == |frames| && frames' == frames[f := frames'[f]]
    requires forall j :: 0 <= j < ENTRIES ==>
               frames'[f][j] == var i := j - r.addr / PAGE_SIZE % ENTRIES;
                                if 0 <= i < r.npages then LeafEntry(r.addr, i) else frames[f][j]
    requires Covered(regions + [r], v * ENTRIES + k)
             <==> Covered(regions, v * ENTRIES + k) || InRegion(r, v * ENTRIES + k)
    ensures LeafEntryOk(frames'[leafOf[v]][k], v * ENTRIES + k, regions + [r])
  {
    var page := v * ENTRIES + k;
    assert page / ENTRIES == v && page % ENTRIES == k;
    assert LeafEntryOk(frames[leafOf[v]][k], page, regions);
    PageOfRegion(r, page);
    if InRegion(r, page) {
      LeafEntryBits(r.addr, k - r.addr / PAGE_SIZE % ENTRIES);
    }
  }

  // ---------------------------------------------------------------- the map of a platform

  /** What pagetable_identity_map sets up: the 6 MB of memory in two steps of 4 MB (so that the second one reaches 2 MB
      further), the devices of both platforms, then the platform's own devices. */
  function Regions(p: Platform): seq<Region> {
    [Region(0x8000_0000, 1024), Region(0x8040_0000, 1024)] + Devices(p) + OwnDevices(p)
  }

  function Devices(p: Platform): seq<Region> {
    if p == Qemu then
      [Region(0x4100_0000, 4), Region(0x1000_0000, 1), Region(0x0200_0000, 16), Region(0x2200_0000, 1024),
       Region(0x4200_0000, 512)]
    else
      [Region(0xF000_2000, 4), Region(0xF000_1000, 1), Region(0xF001_0000, 16), Region(0x2040_0000, 1024),
       Region(0x8060_0000, 512)]
  }

  function OwnDevices(p: Platform): seq<Region> {
    if p == Qemu then [Region(0x4000_0000, 1), Region(0x3001_8000, 1)]
    else [Region(0xF000_8800, 1), Region(0x9000_1000, 1), Region(0x9000_0000, 1)]
  }

  /** The flags of a page that is valid, readable, writable, executable and for the user, and counts as accessed and
      dirty. */
  function AllFlags(): int {
    1 + 2 + 4 + 8 + 16 + 64 + 128
  }

  /** va is in the region of so many bytes from addr. */
  predicate Within(va: int, addr: int, nbytes: int) {
    addr <= va < addr + nbytes
  }

  /** The frames of the page tables are the 2 MB of memory from 0x8040_0000 on. */
  lemma FrameAddress(ppn: int, f: int)
    requires 0 <= f < 512
    ensures FrameOf(ppn) == Some(f) <==> ppn * 4096 == 0x8040_0000 + f * 4096
  {
  }

  /** The memory and the registers that a process can get at on each platform. */
  predicate Accessible(p: Platform, va: int) {
    || Within(va, 0x8000_0000, 0x80_0000)     // 6 MB of memory and 2 MB more, the video frame buffer of the hardware
    || match p
       case Qemu =>
         || Within(va, 0x4100_0000, 0x4000)   // network card
         || Within(va, 0x1000_0000, 0x1000)   // terminal
         || Within(va, 0x0200_0000, 0x1_0000) // timer
         || Within(va, 0x2200_0000, 0x40_0000) // flash ROM
         || Within(va, 0x4200_0000, 0x20_0000) // video frame buffer
         || Within(va, 0x4000_0000, 0x1000)   // SD card
         || Within(va, 0x3001_8000, 0x1000)   // configuration of the network card
       case Hardware =>
         || Within(va, 0xF000_2000, 0x4000)
         || Within(va, 0xF000_1000, 0x1000)
         || Within(va, 0xF001_0000, 0x1_0000)
         || Within(va, 0x2040_0000, 0x40_0000)
         || Within(va, 0xF000_8000, 0x1000)   // SD card: its registers are from 0xF000_8800 on
         || Within(va, 0x9000_1000, 0x1000)   // network card, sending
         || Within(va, 0x9000_0000, 0x1000)   // network card, receiving
  }

  lemma RegionIs(r: Region, va: int, addr: int)
    requires addr == r.addr / 4096 * 4096
    ensures InRegion(r, va / PAGE_SIZE) <==> Within(va, addr, r.npages * 4096)
  {
    PageOfAddress(va, addr / 4096, r.npages);
  }

  lemma RegionsAre(p: Platform, va: int)
    ensures Covered(Regions(p), va / PAGE_SIZE) <==> Accessible(p, va)
  {
    var rs := Regions(p);
    RegionIs(rs[0], va, 0x8000_0000);
    RegionIs(rs[1], va, 0x8040_0000);
    match p
    case Qemu =>
      RegionIs(rs[2], va, 0x4100_0000);
      RegionIs(rs[3], va, 0x1000_0000);
      RegionIs(rs[4], va, 0x0200_0000);
      RegionIs(rs[5], va, 0x2200_0000);
      RegionIs(rs[6], va, 0x4200_0000);
      RegionIs(rs[7], va, 0x4000_0000);
      RegionIs(rs[8], va, 0x3001_8000);
    case Hardware =>
      RegionIs(rs[2], va, 0xF000_2000);
      RegionIs(rs[3], va, 0xF000_1000);
      RegionIs(rs[4], va, 0xF001_0000);
      RegionIs(rs[5], va, 0x2040_0000);
      RegionIs(rs[6], va, 0x8060_0000);
      RegionIs(rs[7], va, 0xF000_8000);
      RegionIs(rs[8], va, 0x9000_1000);
      RegionIs(rs[9], va, 0x9000_0000);
  }

  /** So tables that map the list give every address itself, or a fault. */
  lemma IdentityOf(frames: seq<Table>, root: int, leafOf: map<int, int>, platform: Platform, va: int)
    requires MapsExactly(frames, root, leafOf, Regions(platform)) && 0 <= va < 0x1_0000_0000
    ensures Walk(frames, root, va) == if Accessible(platform, va) then To(va, AllFlags()) else Fault
  {
    hide MapsExactly, Regions, Accessible, Walk, Covered;
    RegionsAre(platform, va);
    IdentityMapCorrect(frames, root, leafOf, Regions(platform), va);
  }

  lemma RegionsOk(platform: Platform)
    ensures forall k :: 0 <= k < |Regions(platform)| ==> RegionOk(Regions(platform)[k])
  {
  }

  lemma PageOfAddress(va: int, page: int, npages: int)
    ensures page <= va / 4096 < page + npages <==> page * 4096 <= va < page * 4096 + npages * 4096
  {
  }

  class PageTable {
    const frames: array<Table>
    const used: array<bool>
    var root: int
    ghost var leafOf: map<int, int>
    ghost var regions: seq<Region>
    ghost var others: map<int, Table>  // the frames that were taken before this page table, and what they hold

    ghost predicate Valid()
      reads this, frames, used
    {
      && frames.Length == FRAMES && used.Length == FRAMES
      && MapsExactly(frames[..], root, leafOf, regions)
      && used[root] && (forall v :: v in leafOf ==> used[leafOf[v]])
      && (forall i :: i in others ==> 0 <= i < FRAMES && used[i] && i != root && frames[i] == others[i])
      && (forall i, v :: i in others && v in leafOf ==> leafOf[v] != i)
    }

    /** mmu_alloc: the first unused frame, or None. */
    method Alloc() returns (r: Option<int>)
      requires used.Length == FRAMES
      modifies used
      ensures r.Some? ==> 0 <= r.value < FRAMES && !old(used[r.value]) && used[..] == old(used[..])[r.value := true]
      ensures r.None? ==> used[..] == old(used[..]) && forall i :: 0 <= i < FRAMES ==> used[i]
    {
      for i := 0 to FRAMES
        invariant used[..] == old(used[..])
        invariant forall j :: 0 <= j < i ==> used[j]
      {
        if !used[i] {
          used[i] := true;
          return Some(i);
        }
      }
      r := None;
    }

    /** The leaf table for a 4 MB range: found through the root, or allocated; None if memory is exhausted. */
    method LeafTable(vpn1: int) returns (leaf: Option<int>)
      requires Valid() && 0 <= vpn1 < ENTRIES
      modifies frames, used, this`leafOf
      ensures Valid()
      ensures leaf.Some? ==> vpn1 in leafOf && leafOf[vpn1] == leaf.value
      ensures leaf.None? ==> forall i :: 0 <= i < FRAMES ==> used[i]
    {
      var entry := frames[root][vpn1];
      if entry % 2 == 1 {
        PointerRoundTrip(leafOf[vpn1]);
        return Some(entry * 4 % 0x1_0000_0000 / PAGE_SIZE * PAGE_SIZE / PAGE_SIZE - FIRST_FRAME);
      }
      assert vpn1 !in leafOf by {
        if vpn1 in leafOf { PointerBits(leafOf[vpn1]); }
      }
      ghost var before := frames[..];
      leaf := Alloc();
      if leaf.Some? {
        frames[leaf.value] := ZeroTable();
        frames[root] := frames[root][vpn1 := (FIRST_FRAME + leaf.value) * PAGE_SIZE / 4 + 1];
        AddLeafTable(before, frames[..], root, leafOf, regions, vpn1, leaf.value);
        leafOf := leafOf[vpn1 := leaf.value];
      }
    }

    /** The entries of one region, in its leaf table. */
    method FillEntries(leaf: int, r: Region)
      requires 0 <= leaf < frames.Length && RegionOk(r)
      modifies frames
      ensures frames[..] == old(frames[..])[leaf := frames[leaf]]
      ensures forall k :: 0 <= k < ENTRIES ==>
                frames[leaf][k] == var i := k - r.addr / PAGE_SIZE % ENTRIES;
                                   if 0 <= i < r.npages then LeafEntry(r.addr, i) else old(frames[leaf])[k]
    {
      var vpn0 := r.addr / PAGE_SIZE % ENTRIES;
      for i := 0 to r.npages
        invariant frames[..] == old(frames[..])[leaf := frames[leaf]]
        invariant forall k :: 0 <= k < ENTRIES ==>
                    frames[leaf][k] == var j := k - vpn0; if 0 <= j < i then LeafEntry(r.addr, j)
                      else old(frames[leaf])[k]
      {
        frames[leaf] := frames[leaf][vpn0 + i := (r.addr + i * PAGE_SIZE) / 4 + USER_RWX];
      }
    }

    /** setup_identity_region: one more region is mapped, and nothing else changes what it maps. */
    method SetupRegion(r: Region) returns (ok: bool)
      requires Valid() && RegionOk(r)
      modifies frames, used, this`leafOf, this`regions
      ensures Valid()
      ensures regions == if ok then old(regions) + [r] else old(regions)
      ensures !ok ==> forall i :: 0 <= i < FRAMES ==> used[i]
    {
      var leaf := LeafTable(r.addr / 0x40_0000);
      if leaf.None? {
        return false;
      }
      ghost var before := frames[..];
      FillEntries(leaf.value, r);
      AddEntries(before, frames[..], root, leafOf, regions, r, leaf.value);
      regions := regions + [r];
      ok := true;
    }

    /** The root table: empty, so that every address faults. */
    method NewRoot() returns (ok: bool)
      requires frames.Length == FRAMES && used.Length == FRAMES
      modifies this, frames, used
      ensures ok ==> Valid() && regions == [] && 0 <= root < FRAMES && !old(used[..])[root]
      ensures ok ==> others == map i | 0 <= i < FRAMES && old(used[i]) :: old(frames[i])
      ensures !ok ==> forall i :: 0 <= i < FRAMES ==> used[i]
    {
      others := map i | 0 <= i < FRAMES && used[i] :: frames[i];
      var frame := Alloc();
      if frame.None? {
        return false;
      }
      root := frame.value;
      frames[root] := ZeroTable();
      leafOf, regions := map[], [];
      ok := true;
    }

    /** The regions of a list, one after the other, until memory is exhausted. */
    method SetupRegions(rs: seq<Region>) returns (ok: bool)
      requires Valid() && forall k :: 0 <= k < |rs| ==> RegionOk(rs[k])
      modifies frames, used, this`leafOf, this`regions
      ensures Valid()
      ensures ok ==> regions == old(regions) + rs
      ensures !ok ==> forall i :: 0 <= i < FRAMES ==> used[i]
    {
      for k := 0 to |rs|
        invariant Valid() && regions == old(regions) + rs[..k]
      {
        ok := SetupRegion(rs[k]);
        if !ok {
          return;
        }
        assert rs[..k + 1] == rs[..k] + [rs[k]];
      }
      ok := true;
    }

    /**
     pagetable_identity_map.  If it does not run out of frames, then for every one of the 2^32 addresses the walk gives
     the address itself, readable, writable, executable and for the user, if it is in memory or a register of the
     platform, and faults otherwise; and no frame that was in use before has changed.
     */
    method IdentityMap(platform: Platform) returns (ok: bool)
      requires frames.Length == FRAMES && used.Length == FRAMES
      modifies this, frames, used
      ensures ok ==> 0 <= root < FRAMES && !old(used[..])[root]
      ensures ok ==> forall va :: 0 <= va < 0x1_0000_0000 ==>
                       Walk(frames[..], root, va) == if Accessible(platform, va) then To(va, AllFlags()) else Fault
      ensures ok ==> forall i :: 0 <= i < FRAMES && old(used[i]) ==> used[i] && frames[i] == old(frames[i])
      ensures !ok ==> forall i :: 0 <= i < FRAMES ==> used[i]
    {
      hide MapsExactly, Regions, RegionOk, Accessible, Walk, AllFlags;
      RegionsOk(platform);
      ok := NewRoot();
      if ok {
        ok := SetupRegions(Regions(platform));
      }
      if ok {
        assert regions == Regions(platform);
        forall va | 0 <= va < 0x1_0000_0000
          ensures Walk(frames[..], root, va) == if Accessible(platform, va) then To(va, AllFlags()) else Fault
        {
          IdentityOf(frames[..], root, leafOf, platform, va);
        }
      }
    }
  }
}
