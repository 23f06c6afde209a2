/**
 The software TLB (earth/cpu_mmu.c): private address spaces made by copying pages in and out of one shared window.

 Physical memory is an array of pages, indexed by page number over the whole 32-bit address space.  The frames that
 mmu_alloc hands out are 512 of these pages; all other pages are the window in which the current process runs.
 */
module SoftTlb {
  import opened Wrappers
  import opened Memory

  const APPS_PAGES_CNT := 512         // (RAM_END - APPS_PAGES_BASE) / PAGE_SIZE
  const PAGES_IN_MEMORY := 0x10_0000  // 4 GB / PAGE_SIZE

  datatype PageInfo = PageInfo(use: bool, pid: int, vpageNo: int)

  /** A virtual page of a process. */
  datatype Addr = Addr(pid: int, vpageNo: int)

  /** What each process sees at each of its pages. */
  type Spaces = map<Addr, Page>

  predicate InWindow(vpageNo: int) {
    0 <= vpageNo < PAGES_IN_MEMORY && !(FIRST_FRAME <= vpageNo < FIRST_FRAME + APPS_PAGES_CNT)
  }

  function Without(spaces: Spaces, pid: int): Spaces {
    map a | a in spaces && a.pid != pid :: spaces[a]
  }

  /** Page-table entries and the frames of virtual pages agree: no two pages share a frame, no page has two frames. */
  ghost predicate TableOk(table: seq<PageInfo>, frameOf: map<Addr, int>) {
    && |table| == APPS_PAGES_CNT
    && (forall i :: 0 <= i < |table| && table[i].pid != 0 ==>
                      && table[i].use
                      && Addr(table[i].pid, table[i].vpageNo) in frameOf
                      && frameOf[Addr(table[i].pid, table[i].vpageNo)] == i)
    && (forall a :: a in frameOf ==>
                      && 0 <= frameOf[a] < |table| && a.pid > 0 && InWindow(a.vpageNo)
                      && table[frameOf[a]] == PageInfo(true, a.pid, a.vpageNo))
  }

  /** Where page a can be seen: in the window for the current process, in its frame for the others. */
  function ShownAt(a: Addr, frameOf: map<Addr, int>, curr: int): int
    requires a in frameOf
  {
    if a.pid == curr then a.vpageNo else FIRST_FRAME + frameOf[a]
  }

  ghost predicate Shows(mem: seq<Page>, frameOf: map<Addr, int>, curr: int, spaces: Spaces) {
    && |mem| == PAGES_IN_MEMORY
    && frameOf.Keys == spaces.Keys
    && (forall a :: a in frameOf ==>
        0 <= ShownAt(a, frameOf, curr) < |mem| && spaces[a] == mem[ShownAt(a, frameOf, curr)])
  }

  /** Different pages are shown at different places. */
  lemma ShownApart(table: seq<PageInfo>, frameOf: map<Addr, int>, curr: int, a: Addr, b: Addr)
    requires TableOk(table, frameOf) && a in frameOf && b in frameOf && a != b
    ensures ShownAt(a, frameOf, curr) != ShownAt(b, frameOf, curr)
  {
    assert frameOf[a] == frameOf[b] ==> a == b;
  }

  lemma MapKeepsTable(table: seq<PageInfo>, frameOf: map<Addr, int>, a: Addr, frame: int)
    requires TableOk(table, frameOf) && a.pid > 0 && InWindow(a.vpageNo) && a !in frameOf
    requires 0 <= frame < |table| && table[frame].use && table[frame].pid == 0
    ensures TableOk(table[frame := PageInfo(true, a.pid, a.vpageNo)], frameOf[a := frame])
  {
  }

  lemma FreeKeepsTable(table: seq<PageInfo>, table': seq<PageInfo>, frameOf: map<Addr, int>, frameOf': map<Addr, int>,
                       pid: int)
    requires TableOk(table, frameOf) && |table'| == |table|
    requires forall j :: 0 <= j < |table| ==>
               table'[j] == if table[j].use && table[j].pid == pid then PageInfo(false, 0, 0) else table[j]
    requires frameOf' == map a | a in frameOf && a.pid != pid :: frameOf[a]
    ensures TableOk(table', frameOf')
  {
  }

  lemma FreeShows(mem: seq<Page>, frameOf: map<Addr, int>, frameOf': map<Addr, int>, curr: int, spaces: Spaces,
                  pid: int)
    requires Shows(mem, frameOf, curr, spaces)
    requires frameOf' == map a | a in frameOf && a.pid != pid :: frameOf[a]
    ensures Shows(mem, frameOf', curr, Without(spaces, pid))
  {
    forall a
      ensures a in frameOf'.Keys <==> a in Without(spaces, pid).Keys
    {
      assert a in frameOf.Keys <==> a in spaces.Keys;
    }
  }

  /** Storing a page where a is shown changes what a shows, and nothing else. */
  lemma StoreShows(mem: seq<Page>, table: seq<PageInfo>, frameOf: map<Addr, int>, curr: int, spaces: Spaces, a: Addr,
                   content: Page)
    requires TableOk(table, frameOf) && Shows(mem, frameOf, curr, spaces) && a in frameOf
    ensures Shows(mem[ShownAt(a, frameOf, curr) := content], frameOf, curr, spaces[a := content])
  {
    forall b | b in frameOf && b != a
      ensures ShownAt(b, frameOf, curr) != ShownAt(a, frameOf, curr)
    {
      ShownApart(table, frameOf, curr, a, b);
    }
  }

  lemma FrameNotShown(mem: seq<Page>, table: seq<PageInfo>, frameOf: map<Addr, int>, curr: int, spaces: Spaces,
                      frame: int, content: Page)
    requires TableOk(table, frameOf) && Shows(mem, frameOf, curr, spaces) && 0 <= frame < |table|
    requires var a := Addr(table[frame].pid, table[frame].vpageNo); a in spaces ==> a.pid == curr
    ensures Shows(mem[FIRST_FRAME + frame := content], frameOf, curr, spaces)
  {
  }

  lemma MapShows(mem: seq<Page>, frameOf: map<Addr, int>, curr: int, spaces: Spaces, a: Addr, frame: int)
    requires Shows(mem, frameOf, curr, spaces) && a !in frameOf && InWindow(a.vpageNo) && 0 <= frame < APPS_PAGES_CNT
    ensures Shows(mem, frameOf[a := frame], curr,
                  spaces[a := if a.pid == curr then mem[a.vpageNo] else mem[FIRST_FRAME + frame]])
  {
  }

  /** Frames below i hold what the current process has in the window; nothing else has changed. */
  ghost predicate SavedUpTo(mem0: seq<Page>, mem: seq<Page>, frameOf: map<Addr, int>, curr: int, i: int) {
    && |mem| == |mem0| == PAGES_IN_MEMORY
    && (forall v :: InWindow(v) ==> mem[v] == mem0[v])
    && (forall a :: a in frameOf ==>
                      && 0 <= FIRST_FRAME + frameOf[a] < PAGES_IN_MEMORY && InWindow(a.vpageNo)
                      && mem[FIRST_FRAME + frameOf[a]] == if a.pid == curr && frameOf[a] < i then mem0[a.vpageNo]
                                                          else mem0[FIRST_FRAME + frameOf[a]])
  }

  lemma SaveStep(mem0: seq<Page>, mem: seq<Page>, table: seq<PageInfo>, frameOf: map<Addr, int>, curr: int, i: int)
    requires TableOk(table, frameOf) && SavedUpTo(mem0, mem, frameOf, curr, i) && 0 <= i < |table| && curr != 0
    ensures table[i].pid == curr ==>
              InWindow(table[i].vpageNo) && SavedUpTo(mem0, mem[FIRST_FRAME + i := mem[table[i].vpageNo]], frameOf,
                                                      curr, i + 1)
    ensures table[i].pid != curr ==> SavedUpTo(mem0, mem, frameOf, curr, i + 1)
  {
  }

  /** The window holds what the frames of pid (those below i) held; no frame of a page has changed. */
  ghost predicate WindowUpTo(mem0: seq<Page>, mem: seq<Page>, frameOf: map<Addr, int>, pid: int, i: int) {
    && |mem| == |mem0| == PAGES_IN_MEMORY
    && (forall a :: a in frameOf ==>
                      && 0 <= FIRST_FRAME + frameOf[a] < PAGES_IN_MEMORY && InWindow(a.vpageNo)
                      && mem[FIRST_FRAME + frameOf[a]] == mem0[FIRST_FRAME + frameOf[a]]
                      && (a.pid == pid && frameOf[a] < i ==> mem[a.vpageNo] == mem0[FIRST_FRAME + frameOf[a]]))
  }

  lemma LoadStep(mem0: seq<Page>, mem: seq<Page>, table: seq<PageInfo>, frameOf: map<Addr, int>, pid: int, i: int)
    requires TableOk(table, frameOf) && WindowUpTo(mem0, mem, frameOf, pid, i) && 0 <= i < |table| && pid > 0
    ensures table[i].pid == pid ==>
              InWindow(table[i].vpageNo) && WindowUpTo(mem0, mem[table[i].vpageNo := mem[FIRST_FRAME + i]], frameOf,
                                                       pid, i + 1)
    ensures table[i].pid != pid ==> WindowUpTo(mem0, mem, frameOf, pid, i + 1)
  {
  }

  /** Saving the old process's pages in their frames and loading the new one's into the window keeps every view. */
  lemma SwitchShows(mem: seq<Page>, saved: seq<Page>, loaded: seq<Page>, table: seq<PageInfo>, frameOf: map<Addr, int>,
                    curr: int, pid: int, spaces: Spaces)
    requires TableOk(table, frameOf) && Shows(mem, frameOf, curr, spaces) && pid != curr
    requires SavedUpTo(mem, saved, frameOf, curr, APPS_PAGES_CNT)
             && WindowUpTo(saved, loaded, frameOf, pid, APPS_PAGES_CNT)
    ensures Shows(loaded, frameOf, pid, spaces)
  {
    forall a | a in frameOf
      ensures spaces[a] == loaded[ShownAt(a, frameOf, pid)]
    {
      assert spaces[a] == mem[ShownAt(a, frameOf, curr)];
    }
  }

  class Mmu {
    const mem: array<Page>
    const table: array<PageInfo>
    var currVmPid: int
    ghost var spaces: Spaces
    ghost var frameOf: map<Addr, int>

    ghost predicate Valid()
      reads this, mem, table
    {
      currVmPid != 0 && TableOk(table[..], frameOf) && Shows(mem[..], frameOf, currVmPid, spaces)
    }

    /** The zeroed table at boot, with no current process. */
    constructor (memory: array<Page>)
      requires memory.Length == PAGES_IN_MEMORY
      ensures Valid() && mem == memory && spaces == map[] && currVmPid == -1
      ensures fresh(table) && table.Length == 512 && forall i :: 0 <= i < 512 ==> table[i] == PageInfo(false, 0, 0)
    {
      mem := memory;
      table := new PageInfo[APPS_PAGES_CNT](i => PageInfo(false, 0, 0));
      currVmPid := -1;
      spaces, frameOf := map[], map[];
    }

    /** Hands out the first unused frame, or halts (None) if there is none. */
    method Alloc() returns (r: Option<int>)
      requires Valid()
      modifies table
      ensures Valid()
      ensures r.None? <==> forall i :: 0 <= i < 512 ==> old(table[i].use)
      ensures r.None? ==> table[..] == old(table[..])
      ensures r.Some? ==> && 0 <= r.value < 512 && !old(table[r.value].use)
                          && (forall i :: 0 <= i < r.value ==> old(table[i].use))
                          && table[r.value] == PageInfo(true, 0, old(table[r.value].vpageNo))
                          && forall i :: 0 <= i < 512 && i != r.value ==> table[i] == old(table[i])
    {
      for i := 0 to APPS_PAGES_CNT
        invariant table[..] == old(table[..])
        invariant forall j :: 0 <= j < i ==> table[j].use
      {
        if !table[i].use {
          table[i] := table[i].(use := true);
          return Some(i);
        }
      }
      r := None;
    }

    /** The loop of mmu_free over the table. */
    method ClearEntries(pid: int)
      requires table.Length == APPS_PAGES_CNT
      modifies table
      ensures forall i :: 0 <= i < APPS_PAGES_CNT ==>
                table[i] == if old(table[i]).use && old(table[i]).pid == pid then PageInfo(false, 0, 0)
                  else old(table[i])
    {
      for i := 0 to APPS_PAGES_CNT
        invariant forall j :: 0 <= j < i ==>
                    table[j] == if old(table[j]).use && old(table[j]).pid == pid then PageInfo(false, 0, 0)
                      else old(table[j])
        invariant forall j :: i <= j < APPS_PAGES_CNT ==> table[j] == old(table[j])
      {
        if table[i].use && table[i].pid == pid {
          table[i] := PageInfo(false, 0, 0);
        }
      }
    }

    /** Releases every frame of pid. */
    method Free(pid: int)
      requires Valid()
      modifies table, this`spaces, this`frameOf
      ensures Valid() && spaces == Without(old(spaces), pid)
      ensures forall i :: 0 <= i < APPS_PAGES_CNT ==>
                table[i] == if old(table[i]).use && old(table[i]).pid == pid then PageInfo(false, 0, 0)
                  else old(table[i])
    {
      ClearEntries(pid);
      frameOf := map a | a in frameOf && a.pid != pid :: frameOf[a];
      spaces := Without(spaces, pid);
      FreeKeepsTable(old(table[..]), table[..], old(frameOf), frameOf, pid);
      FreeShows(mem[..], old(frameOf), frameOf, currVmPid, old(spaces), pid);
    }

    /** Gives frame `frame` to page vpageNo of pid.  What the process then sees there is the frame's content, unless it
        is the current process: its window is not refreshed. */
    method Map(pid: int, vpageNo: int, frame: int)
      requires Valid() && pid > 0 && InWindow(vpageNo)
      requires 0 <= frame < APPS_PAGES_CNT && table[frame].use && table[frame].pid == 0
      requires Addr(pid, vpageNo) !in spaces
      modifies table, this`spaces, this`frameOf
      ensures Valid()
      ensures spaces == old(spaces)[Addr(pid, vpageNo) := if pid == currVmPid then mem[vpageNo]
                                    else mem[FIRST_FRAME + frame]]
      ensures frameOf == old(frameOf)[Addr(pid, vpageNo) := frame]
      ensures table[..] == old(table[..])[frame := PageInfo(true, pid, vpageNo)]
    {
      MapKeepsTable(table[..], frameOf, Addr(pid, vpageNo), frame);
      MapShows(mem[..], frameOf, currVmPid, spaces, Addr(pid, vpageNo), frame);
      table[frame] := table[frame].(pid := pid);
      table[frame] := table[frame].(vpageNo := vpageNo);
      assert table[..] == old(table[..])[frame := PageInfo(true, pid, vpageNo)];
      frameOf := frameOf[Addr(pid, vpageNo) := frame];
      spaces := spaces[Addr(pid, vpageNo) := if pid == currVmPid then mem[vpageNo] else mem[FIRST_FRAME + frame]];
    }

    /** Whether a page of pid is mapped, by looking through the table. */
    method IsMapped(pid: int, vpageNo: int) returns (r: bool)
      requires Valid()
      ensures r <==> Addr(pid, vpageNo) in spaces
    {
      for i := 0 to APPS_PAGES_CNT
        invariant forall j :: 0 <= j < i ==>
                    !(table[j].use && table[j].pid != 0 && table[j].pid == pid && table[j].vpageNo == vpageNo)
      {
        if table[i].use && table[i].pid != 0 && table[i].pid == pid && table[i].vpageNo == vpageNo {
          return true;
        }
      }
      r := false;
    }

    /** The kernel writes a frame directly. */
    method WriteFrame(frame: int, content: Page)
      requires Valid() && 0 <= frame < APPS_PAGES_CNT
      modifies mem, this`spaces
      ensures Valid()
      ensures spaces == var a := Addr(table[frame].pid, table[frame].vpageNo);
                        if a in old(spaces) && a.pid != currVmPid then old(spaces)[a := content] else old(spaces)
      ensures mem[..] == old(mem[..])[FIRST_FRAME + frame := content]
    {
      ghost var a := Addr(table[frame].pid, table[frame].vpageNo);
      ghost var shown := a in spaces && a.pid != currVmPid;
      if shown {
        StoreShows(mem[..], table[..], frameOf, currVmPid, spaces, a, content);
        spaces := spaces[a := content];
      }
      mem[FIRST_FRAME + frame] := content;
      if !shown {
        FrameNotShown(old(mem[..]), table[..], frameOf, currVmPid, spaces, frame, content);
      }
    }

    /** Unmaps the current process: its pages go from the window to their frames. */
    method SaveWindow()
      requires Valid()
      modifies mem
      ensures SavedUpTo(old(mem[..]), mem[..], frameOf, currVmPid, APPS_PAGES_CNT)
    {
      ghost var mem0 := mem[..];
      for i := 0 to APPS_PAGES_CNT
        invariant SavedUpTo(mem0, mem[..], frameOf, currVmPid, i)
      {
        SaveStep(mem0, mem[..], table[..], frameOf, currVmPid, i);
        if table[i].use && table[i].pid == currVmPid {
          mem[FIRST_FRAME + i] := mem[table[i].vpageNo];
        }
      }
    }

    /** Maps pid: its pages go from their frames to the window. */
    method LoadWindow(pid: int)
      requires TableOk(table[..], frameOf) && mem.Length == PAGES_IN_MEMORY && pid > 0
      modifies mem
      ensures WindowUpTo(old(mem[..]), mem[..], frameOf, pid, APPS_PAGES_CNT)
    {
      ghost var mem0 := mem[..];
      for i := 0 to APPS_PAGES_CNT
        invariant WindowUpTo(mem0, mem[..], frameOf, pid, i)
      {
        LoadStep(mem0, mem[..], table[..], frameOf, pid, i);
        if table[i].use && table[i].pid == pid {
          mem[table[i].vpageNo] := mem[FIRST_FRAME + i];
        }
      }
    }

    /** Copies the window of the current process back to its frames, and the frames of pid into the window. */
    method Switch(pid: int)
      requires Valid() && pid > 0
      modifies mem, this`currVmPid
      ensures Valid() && currVmPid == pid
    {
      if pid == currVmPid {
        return;
      }
      SaveWindow();
      ghost var saved := mem[..];
      LoadWindow(pid);
      ghost var loaded := mem[..];
      SwitchShows(old(mem[..]), saved, loaded, table[..], frameOf, currVmPid, pid, spaces);
      currVmPid := pid;
      assert mem[..] == loaded;
    }

    /** Makes vaddr of pid accessible, and gives the address to use for it. */
    method Translate(pid: int, vaddr: int) returns (paddr: int)
      requires Valid() && pid > 0
      modifies mem, this`currVmPid
      ensures Valid() && currVmPid == pid && paddr == vaddr
    {
      Switch(pid);
      paddr := vaddr;
    }

    /** The running process, or the kernel at a translated address, stores a page. */
    method Store(vpageNo: int, content: Page)
      requires Valid() && Addr(currVmPid, vpageNo) in spaces
      modifies mem, this`spaces
      ensures Valid() && spaces == old(spaces)[Addr(currVmPid, vpageNo) := content]
    {
      StoreShows(mem[..], table[..], frameOf, currVmPid, spaces, Addr(currVmPid, vpageNo), content);
      mem[vpageNo] := content;
      spaces := spaces[Addr(currVmPid, vpageNo) := content];
    }

    method Load(vpageNo: int) returns (content: Page)
      requires Valid() && Addr(currVmPid, vpageNo) in spaces
      ensures content == spaces[Addr(currVmPid, vpageNo)]
    {
      content := mem[vpageNo];
    }
  }
}
