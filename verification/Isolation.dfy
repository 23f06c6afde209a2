/** Private memory over whole runs of the software TLB. */
module Isolation {
  import opened Memory
  import opened SoftTlb

  /** What kernel, loader and running process can ask of the memory manager. */
  datatype Request =
    | AllocFrame
    | MapPage(pid: int, vpageNo: int, frame: int)
    | FillFrame(pid: int, frame: int, content: Page)
    | SwitchTo(pid: int)
    | StorePage(vpageNo: int, content: Page)
    | FreeAll(pid: int)

  /** The current process after a request, and after a run of them. */
  function NextCurr(curr: int, request: Request): int {
    if request.SwitchTo? && request.pid > 0 then request.pid else curr
  }

  function CurrAfter(curr: int, requests: seq<Request>): int {
    if requests == [] then curr
    else NextCurr(CurrAfter(curr, requests[..|requests| - 1]), requests[|requests| - 1])
  }

  /** The request acts on behalf of process p, when curr is the current process. */
  predicate ActsFor(request: Request, curr: int, p: int) {
    match request
    case AllocFrame => false
    case MapPage(pid, _, _) => pid == p
    case FillFrame(pid, _, _) => pid == p
    case SwitchTo(_) => false
    case StorePage(_, _) => curr == p
    case FreeAll(pid) => pid == p
  }

  function PagesOf(spaces: Spaces, p: int): Spaces {
    map a | a in spaces && a.pid == p :: spaces[a]
  }

  lemma UpdateElsewhere(spaces: Spaces, a: Addr, content: Page, p: int)
    requires a.pid != p
    ensures PagesOf(spaces[a := content], p) == PagesOf(spaces, p)
  {
  }

  lemma RemoveElsewhere(spaces: Spaces, pid: int, p: int)
    requires pid != p
    ensures PagesOf(Without(spaces, pid), p) == PagesOf(spaces, p)
  {
  }

  /** Page v of process p has frame f. */
  ghost predicate InFrame(mmu: Mmu, p: int, v: int, f: int)
    reads mmu
  {
    Addr(p, v) in mmu.frameOf && mmu.frameOf[Addr(p, v)] == f && Addr(p, v) in mmu.spaces
  }

  /** What a request makes of page v of process p, in frame f, when curr is the current process: the page changes when p
      itself stores there, or when the kernel fills its frame while p is not running. */
  function After(content: Page, request: Request, curr: int, p: int, v: int, f: int): Page {
    match request
    case StorePage(vpageNo, stored) => if curr == p && vpageNo == v then stored else content
    case FillFrame(pid, frame, given) => if pid == p && frame == f && curr != p then given else content
    case _ => content
  }

  method ServeMap(mmu: Mmu, pid: int, vpageNo: int, frame: int, ghost p: int, ghost v: int, ghost f: int)
    requires mmu.Valid()
    modifies mmu`spaces, mmu`frameOf, mmu.table
    ensures mmu.Valid()
    ensures pid != p ==> PagesOf(mmu.spaces, p) == PagesOf(old(mmu.spaces), p)
    ensures old(InFrame(mmu, p, v, f)) ==>
              InFrame(mmu, p, v, f) && mmu.spaces[Addr(p, v)] == old(mmu.spaces)[Addr(p, v)]
  {
    if pid > 0 && InWindow(vpageNo) && 0 <= frame < APPS_PAGES_CNT && mmu.table[frame].use
      && mmu.table[frame].pid == 0 {
      var taken := mmu.IsMapped(pid, vpageNo);
      if !taken {
        ghost var before := mmu.spaces;
        mmu.Map(pid, vpageNo, frame);
        if pid != p {
          UpdateElsewhere(before, Addr(pid, vpageNo), mmu.spaces[Addr(pid, vpageNo)], p);
        }
      }
    }
  }

  method ServeFill(mmu: Mmu, pid: int, frame: int, content: Page, ghost p: int, ghost v: int, ghost f: int)
    requires mmu.Valid()
    modifies mmu`spaces, mmu.mem
    ensures mmu.Valid()
    ensures pid != p ==> PagesOf(mmu.spaces, p) == PagesOf(old(mmu.spaces), p)
    ensures old(InFrame(mmu, p, v, f)) ==>
              InFrame(mmu, p, v, f)
              && mmu.spaces[Addr(p, v)]
                 == After(old(mmu.spaces)[Addr(p, v)], FillFrame(pid, frame, content), mmu.currVmPid, p, v, f)
  {
    if 0 <= frame < APPS_PAGES_CNT && mmu.table[frame].pid == pid {
      if pid != p {
        UpdateElsewhere(mmu.spaces, Addr(pid, mmu.table[frame].vpageNo), content, p);
      }
      mmu.WriteFrame(frame, content);
    }
  }

  method ServeStore(mmu: Mmu, vpageNo: int, content: Page, ghost p: int, ghost v: int, ghost f: int)
    requires mmu.Valid()
    modifies mmu`spaces, mmu.mem
    ensures mmu.Valid()
    ensures mmu.currVmPid != p ==> PagesOf(mmu.spaces, p) == PagesOf(old(mmu.spaces), p)
    ensures old(InFrame(mmu, p, v, f)) ==>
              InFrame(mmu, p, v, f)
              && mmu.spaces[Addr(p, v)]
                 == After(old(mmu.spaces)[Addr(p, v)], StorePage(vpageNo, content), mmu.currVmPid, p, v, f)
  {
    var mine := mmu.IsMapped(mmu.currVmPid, vpageNo);
    if mine {
      if mmu.currVmPid != p {
        UpdateElsewhere(mmu.spaces, Addr(mmu.currVmPid, vpageNo), content, p);
      }
      mmu.Store(vpageNo, content);
    }
  }

  method ServeFree(mmu: Mmu, pid: int, ghost p: int, ghost v: int, ghost f: int)
    requires mmu.Valid()
    modifies mmu`spaces, mmu`frameOf, mmu.table
    ensures mmu.Valid()
    ensures pid != p ==> PagesOf(mmu.spaces, p) == PagesOf(old(mmu.spaces), p)
    ensures old(InFrame(mmu, p, v, f)) && pid != p ==>
              InFrame(mmu, p, v, f) && mmu.spaces[Addr(p, v)] == old(mmu.spaces)[Addr(p, v)]
  {
    if pid != p {
      RemoveElsewhere(mmu.spaces, pid, p);
    }
    mmu.Free(pid);
  }

  /** Serves one request; one that makes no sense in the present state is ignored. */
  method Serve(mmu: Mmu, request: Request, ghost p: int, ghost v: int, ghost f: int)
    requires mmu.Valid()
    modifies mmu, mmu.mem, mmu.table
    ensures mmu.Valid() && mmu.currVmPid == NextCurr(old(mmu.currVmPid), request)
    ensures !ActsFor(request, old(mmu.currVmPid), p) ==> PagesOf(mmu.spaces, p) == PagesOf(old(mmu.spaces), p)
    ensures old(InFrame(mmu, p, v, f)) && request != FreeAll(p) ==>
              InFrame(mmu, p, v, f)
              && mmu.spaces[Addr(p, v)] == After(old(mmu.spaces)[Addr(p, v)], request, old(mmu.currVmPid), p, v, f)
  {
    match request
    case AllocFrame =>
      var r := mmu.Alloc();
    case MapPage(pid, vpageNo, frame) =>
      ServeMap(mmu, pid, vpageNo, frame, p, v, f);
    case FillFrame(pid, frame, content) =>
      ServeFill(mmu, pid, frame, content, p, v, f);
    case SwitchTo(pid) =>
      if pid > 0 {
        mmu.Switch(pid);
      }
    case StorePage(vpageNo, content) =>
      ServeStore(mmu, vpageNo, content, p, v, f);
    case FreeAll(pid) =>
      ServeFree(mmu, pid, p, v, f);
  }

  /** Over any interleaving, what a process sees at its pages changes only by requests made on its own behalf. */
  method Run(mmu: Mmu, requests: seq<Request>, ghost p: int)
    requires mmu.Valid()
    requires forall k :: 0 <= k < |requests| ==> !ActsFor(requests[k], CurrAfter(mmu.currVmPid, requests[..k]), p)
    modifies mmu, mmu.mem, mmu.table
    ensures mmu.Valid() && PagesOf(mmu.spaces, p) == PagesOf(old(mmu.spaces), p)
    ensures mmu.currVmPid == CurrAfter(old(mmu.currVmPid), requests)
  {
    assert requests[..0] == [];
    for k := 0 to |requests|
      invariant mmu.Valid() && PagesOf(mmu.spaces, p) == PagesOf(old(mmu.spaces), p)
      invariant mmu.currVmPid == CurrAfter(old(mmu.currVmPid), requests[..k])
    {
      Serve(mmu, requests[k], p, 0, 0);
      assert requests[..k + 1][..k] == requests[..k];
    }
    assert requests[..|requests|] == requests;
  }

  /** What page v of process p, in frame f, holds after a run: what p last stored there or was last given, or else what
      it held before. */
  function LastOwn(content0: Page, requests: seq<Request>, curr: int, p: int, v: int, f: int): Page {
    if requests == [] then content0
    else
      var init, last := requests[..|requests| - 1], requests[|requests| - 1];
      After(LastOwn(content0, init, curr, p, v, f), last, CurrAfter(curr, init), p, v, f)
  }

  /** Process p becomes the running one and loads its page v. */
  method LoadFor(mmu: Mmu, p: int, v: int) returns (content: Page)
    requires mmu.Valid() && p > 0 && Addr(p, v) in mmu.spaces
    modifies mmu`currVmPid, mmu.mem
    ensures mmu.Valid() && content == mmu.spaces[Addr(p, v)]
  {
    mmu.Switch(p);
    content := mmu.Load(v);
  }

  lemma LastOwnNext(content0: Page, requests: seq<Request>, k: nat, curr: int, p: int, v: int, f: int)
    requires k < |requests|
    ensures CurrAfter(curr, requests[..k + 1]) == NextCurr(CurrAfter(curr, requests[..k]), requests[k])
    ensures LastOwn(content0, requests[..k + 1], curr, p, v, f)
            == After(LastOwn(content0, requests[..k], curr, p, v, f), requests[k], CurrAfter(curr, requests[..k]), p, v,
                     f)
  {
    assert requests[..k + 1][..k] == requests[..k];
  }

  /** Over any interleaving in which the process is not freed, a load gives it the page that it last stored or was
      given, whatever the others have mapped, stored, filled and freed in between. */
  method LoadsLastOwn(mmu: Mmu, requests: seq<Request>, p: int, v: int, ghost f: int) returns (content: Page)
    requires mmu.Valid() && InFrame(mmu, p, v, f) && FreeAll(p) !in requests
    modifies mmu, mmu.mem, mmu.table
    ensures mmu.Valid() && InFrame(mmu, p, v, f)
    ensures content == LastOwn(old(mmu.spaces)[Addr(p, v)], requests, old(mmu.currVmPid), p, v, f)
  {
    ghost var first, curr := mmu.spaces[Addr(p, v)], mmu.currVmPid;
    assert requests[..0] == [];
    for k := 0 to |requests|
      invariant mmu.Valid() && InFrame(mmu, p, v, f)
      invariant mmu.currVmPid == CurrAfter(curr, requests[..k])
      invariant mmu.spaces[Addr(p, v)] == LastOwn(first, requests[..k], curr, p, v, f)
    {
      LastOwnNext(first, requests, k, curr, p, v, f);
      Serve(mmu, requests[k], p, v, f);
    }
    assert requests[..|requests|] == requests;
    content := LoadFor(mmu, p, v);
  }
}
