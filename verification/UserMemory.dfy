/** The kernel over the software TLB and the loader: in every run, the system calls that the kernel reads and hands back
    are those on the pages of the processes, and only processes that have been loaded and not freed have pages. */
module UserMemory {
  import opened Wrappers
  import opened Memory
  import opened Processes
  import opened Ipc
  import opened Scheduling
  import opened Kernel
  import opened KernelRuns
  import opened BoundedWaiting
  import opened Messages
  import opened SoftTlb
  import opened CallPages
  import opened ElfImage
  import opened ElfArguments
  import opened ElfLoad

  /** The kernel's record of a blocked process fits the struct. */
  predicate FitsAt(p: Process) {
    Int32(p.pid) && (Blocked(p) ==> CallOk(p.syscall))
  }

  ghost predicate Fits(ps: Table) {
    |ps| == MAX_NPROCESS + 1 && forall i :: 0 <= i < MAX_NPROCESS ==> FitsAt(ps[i])
  }

  predicate CauseFits(cause: Cause) {
    cause.Call? ==> CallOk(cause.call)
  }

  lemma FitsAtYield(e: Entry)
    requires IsEntry(e) && Fits(e.before) && CauseFits(e.cause)
    ensures Fits(AtYield(e))
  {
  }

  lemma UndisturbedFits(ps0: Table, ps: Table, i: int)
    requires |ps| == |ps0| && 0 <= i < |ps| && FitsAt(ps0[i]) && Undisturbed(ps0, ps, i)
    ensures FitsAt(ps[i])
  {
  }

  lemma FitsAfterMatch(e: Entry, i: int)
    requires IsEntry(e) && Fits(AtYield(e)) && 0 <= i < MAX_NPROCESS && e.phase.Matched?
    ensures |e.ps| == MAX_NPROCESS + 1 && FitsAt(e.ps[i])
  {
    AtYieldOk(e);
    AfterMatch(AtYield(e), e.user0, e.c, e.t, e.phase.s, e.phase.d, e.ps, e.user, e.next);
    KeepsPids(e, i);
    assert FitsAt(AtYield(e)[i]);
    if i != e.phase.s && i != e.phase.d && i != e.next {
      UndisturbedFits(AtYield(e), e.ps, i);
    }
  }

  lemma FitsAfter(e: Entry, i: int)
    requires IsEntry(e) && Fits(AtYield(e)) && 0 <= i < MAX_NPROCESS
    ensures |e.ps| == MAX_NPROCESS + 1 && FitsAt(e.ps[i])
  {
    if e.phase.Matched? {
      FitsAfterMatch(e, i);
    } else {
      AfterNoMatch(AtYield(e), e.user0, e.c, e.t, e.ps, e.user, e.next);
      KeepsPids(e, i);
      assert FitsAt(AtYield(e)[i]);
      if i != e.next {
        UndisturbedFits(AtYield(e), e.ps, i);
      }
    }
  }

  /** What a match hands back fits the struct. */
  lemma ReplyFits(e: Entry)
    requires IsEntry(e) && e.phase.Matched? && Fits(AtYield(e))
    ensures 0 <= e.phase.s < MAX_NPROCESS && 0 <= e.phase.d < MAX_NPROCESS
    ensures var ps0, s, d := AtYield(e), e.phase.s, e.phase.d;
            && CallOk(MarkedCall(ps0, s, d)) && ps0[d].pid > 0 && ps0[d].pid in e.user0
            && e.user == e.user0[ps0[d].pid := MarkedCall(ps0, s, d)]
  {
    AtYieldOk(e);
    PartnersGoOn(e);
    var ps0, s, d := AtYield(e), e.phase.s, e.phase.d;
    assert FitsAt(ps0[s]) && FitsAt(ps0[d]);
    assert ProcessOk(ps0[d], e.user0);
  }

  lemma RunningHasCall(ps: Table, user: UserCalls, i: int)
    requires Ipc.TableOk(ps, user) && 0 <= i < |ps| && ps[i].status == Running
    ensures ps[i].pid > 0 && ps[i].pid in user
  {
    assert ProcessOk(ps[i], user);
  }

  /** The completed call that an entry hands back to a process, if any. */
  datatype Reply = Reply(pid: int, call: Syscall)

  function ReplyOf(e: Entry): Option<Reply>
    requires 0 <= e.c < |e.before|
  {
    if e.phase.Matched? && 0 <= e.phase.s < |e.before| && 0 <= e.phase.d < |e.before| then
      Some(Reply(e.before[e.phase.d].pid, MarkedCall(AtYield(e), e.phase.s, e.phase.d)))
    else None
  }

  /** What an entry means for memory. */
  ghost predicate InMemory(e: Entry) {
    && 0 < e.c < |e.before| && e.before[e.c].pid > 0 && e.before[e.c].pid in e.user0
    && (e.cause.Call? ==> e.user0[e.before[e.c].pid] == e.cause.call)
    && 0 < e.next < |e.ps| && e.ps[e.next].pid > 0 && e.ps[e.next].pid in e.user
    && match ReplyOf(e)
       case None => e.user == e.user0
       case Some(r) => r.pid > 0 && r.pid in e.user0 && CallOk(r.call) && e.user == e.user0[r.pid := r.call]
  }

  lemma EntryInMemory(e: Entry)
    requires IsEntry(e) && Fits(AtYield(e))
    ensures InMemory(e)
  {
    RunningHasCall(e.before, e.user0, e.c);
    RunningHasCall(e.ps, e.user, e.next);
    if e.phase.Matched? {
      ReplyFits(e);
    } else {
      AfterNoMatch(AtYield(e), e.user0, e.c, e.t, e.ps, e.user, e.next);
    }
  }

  /** A completed call goes to its receiver. */
  method HandBack(mmu: Mmu, e: Entry)
    requires mmu.Valid() && InMemory(e) && CallsIn(mmu.spaces) == e.user0
    modifies mmu`currVmPid, mmu`spaces, mmu.mem
    ensures mmu.Valid() && CallsIn(mmu.spaces) == e.user && SameButCalls(old(mmu.spaces), mmu.spaces)
  {
    var reply := ReplyOf(e);
    if reply.Some? {
      Deliver(mmu, reply.value.pid, reply.value.call);
    }
  }

  /** The arguments of the caller, if the kernel was entered by a call. */
  method FetchCause(mmu: Mmu, cause: Cause, pid: int) returns (fetched: Option<Syscall>)
    requires mmu.Valid() && pid > 0 && pid in CallsIn(mmu.spaces)
             && (cause.Call? ==> CallsIn(mmu.spaces)[pid] == cause.call)
    modifies mmu`currVmPid, mmu.mem
    ensures mmu.Valid() && fetched == if cause.Call? then Some(cause.call) else None
    ensures mmu.currVmPid == if cause.Call? then pid else old(mmu.currVmPid)
  {
    fetched := None;
    if cause.Call? {
      var call := Fetch(mmu, pid);
      fetched := Some(call);
    }
  }

  /** What one entry does to memory: it fetches the caller's arguments, copies a completed call to its receiver, and
      makes the pages of the next process accessible. */
  method Carry(mmu: Mmu, e: Entry) returns (fetched: Option<Syscall>)
    requires mmu.Valid() && InMemory(e) && CallsIn(mmu.spaces) == e.user0
    modifies mmu`currVmPid, mmu`spaces, mmu.mem
    ensures fetched == if e.cause.Call? then Some(e.cause.call) else None
    ensures mmu.Valid() && CallsIn(mmu.spaces) == e.user && SameButCalls(old(mmu.spaces), mmu.spaces)
    ensures 0 < e.next < |e.ps| && mmu.currVmPid == e.ps[e.next].pid
  {
    hide CallsIn, SameButCalls;
    fetched := FetchCause(mmu, e.cause, e.before[e.c].pid);
    HandBack(mmu, e);
    mmu.Switch(e.ps[e.next].pid);
  }

  lemma FitsNext(e: Entry)
    requires IsEntry(e) && Fits(AtYield(e))
    ensures Fits(e.ps)
  {
    forall i | 0 <= i < MAX_NPROCESS
      ensures |e.ps| == MAX_NPROCESS + 1 && FitsAt(e.ps[i])
    {
      FitsAfter(e, i);
    }
  }

  /** Before a system call, the running process writes the arguments to its page. */
  method WriteArguments(mmu: Mmu, cause: Cause, ghost from: State)
    requires mmu.Valid() && CauseFits(cause) && 0 <= from.c < |from.ps|
    requires CallsIn(mmu.spaces) == from.user && mmu.currVmPid == from.ps[from.c].pid && mmu.currVmPid in from.user
    modifies mmu`spaces, mmu.mem
    ensures mmu.Valid() && CallsIn(mmu.spaces) == Written(from, cause) && SameButCalls(old(mmu.spaces), mmu.spaces)
  {
    if cause.Call? {
      CallAt(mmu.spaces, mmu.currVmPid);
      CopyCall(mmu, cause.call);
    }
  }

  /** The pages hold the calls of the state, no other process has pages, and the running process is the current one for
      memory. */
  ghost predicate Mirrors(mmu: Mmu, state: State)
    reads mmu
  {
    && CallsIn(mmu.spaces) == state.user && OnlyOf(mmu.spaces, state.user)
    && 0 <= state.c < |state.ps| && mmu.currVmPid == state.ps[state.c].pid && mmu.currVmPid in state.user
  }

  ghost predicate OnlyOf(spaces: Spaces, user: UserCalls) {
    forall a :: a in spaces ==> a.pid in user
  }

  /** The running process enters the kernel. */
  method CarryEntry(mmu: Mmu, e: Entry, ghost from: State)
    requires mmu.Valid() && InMemory(e) && Begins(e, from) && CauseFits(e.cause) && Mirrors(mmu, from)
    modifies mmu`currVmPid, mmu`spaces, mmu.mem
    ensures mmu.Valid() && Mirrors(mmu, State(e.ps, e.user, e.next, from.lastPid, NextReset(e.t)))
  {
    WriteArguments(mmu, e.cause, from);
    var fetched := Carry(mmu, e);
    UsersKept(e, from);
  }

  /** No process loses its system call page by an entry. */
  lemma UsersKept(e: Entry, from: State)
    requires InMemory(e) && Begins(e, from)
    ensures forall pid :: pid in from.user ==> pid in e.user
  {
    assert forall pid :: pid in from.user ==> pid in e.user0;
  }

  // ---------------------------------------------------------------- processes come and go

  /** What elf_load is called with. */
  datatype Program = Program(phs: seq<Header>, reader: Reader, argc: int, argv: Option<seq<byte>>)

  ghost predicate ProgramOk(p: Program) {
    Separate(p.phs) && 0 <= p.argc <= CMD_NARGS && (p.argv.Some? ==> |p.argv.value| == p.argc * CMD_ARG_LEN)
  }

  lemma LoadedCalls(spaces0: Spaces, spaces: Spaces, pid: int, user: UserCalls, call: Syscall)
    requires Without(spaces, pid) == spaces0 && Addr(pid, SYSCALL_PAGE) in spaces && CallsIn(spaces0) == user
    requires call == Decode(spaces[Addr(pid, SYSCALL_PAGE)])
    ensures CallsIn(spaces) == user[pid := call]
  {
    forall p
      ensures p in user[pid := call] <==> p in CallsIn(spaces)
      ensures p in user[pid := call] ==> user[pid := call][p] == CallsIn(spaces)[p]
    {
      CallAt(spaces, p);
      CallAt(spaces0, p);
      assert p != pid ==> (Addr(p, SYSCALL_PAGE) in spaces <==> Addr(p, SYSCALL_PAGE) in spaces0);
    }
  }

  lemma LoadedOnly(spaces0: Spaces, spaces: Spaces, pid: int, user: UserCalls, call: Syscall)
    requires Without(spaces, pid) == spaces0 && OnlyOf(spaces0, user)
    ensures OnlyOf(spaces, user[pid := call])
  {
    forall a | a in spaces
      ensures a.pid in user[pid := call]
    {
      assert a.pid != pid ==> a in spaces0;
    }
  }

  /** The frames that are in use without being the frame of a page. */
  ghost function Loose(mmu: Mmu): set<int>
    reads mmu.table
  {
    Unplaced(mmu.table[..])
  }

  /** The number of pages of a process. */
  function PagesOf(spaces: Spaces, pid: int): nat {
    |set a | a in spaces && a.pid == pid|
  }

  lemma PagesDivided(spaces: Spaces, pid: int)
    ensures |spaces| == |Without(spaces, pid)| + PagesOf(spaces, pid)
  {
    var own := set a | a in spaces && a.pid == pid;
    assert spaces.Keys == Without(spaces, pid).Keys + own;
  }

  lemma OthersAre(spaces0: Spaces, spaces: Spaces, pid: int)
    requires OthersKept(spaces0, spaces, pid) && forall a :: a in spaces0 ==> a.pid != pid
    ensures Without(spaces, pid) == spaces0
  {
  }

  /** Where loading comes to a halt, the process has taken all the frames that were left. */
  lemma FramesTaken(table0: seq<PageInfo>, frameOf0: map<Addr, int>, spaces0: Spaces,
                    table: seq<PageInfo>, frameOf: map<Addr, int>, spaces: Spaces, pid: int)
    requires SoftTlb.TableOk(table0, frameOf0) && SoftTlb.TableOk(table, frameOf) && Unplaced(table) == Unplaced(table0)
    requires frameOf0.Keys == spaces0.Keys && frameOf.Keys == spaces.Keys
    requires ElfLoad.Unused(table) == 0 && Without(spaces, pid) == spaces0
    ensures PagesOf(spaces, pid) == ElfLoad.Unused(table0)
  {
    FramesAccounted(table0, frameOf0);
    FramesAccounted(table, frameOf);
    PagesDivided(spaces, pid);
    assert |frameOf0| == |frameOf0.Keys| == |spaces0| && |frameOf| == |frameOf.Keys| == |spaces|;
  }

  /** The program does not fit: no frame is left, and the process has fewer pages than it needs. */
  ghost predicate OutOfFrames(mmu: Mmu, pid: int, program: Program)
    reads mmu, mmu.table
  {
    ElfLoad.Unused(mmu.table[..]) == 0 && PagesOf(mmu.spaces, pid) < FramesNeeded(program.phs) + 4
  }

  /** Apart from the pages of pid, which is not one of them, these processes have pages, with these calls. */
  ghost predicate OthersHave(mmu: Mmu, pid: int, user: UserCalls)
    reads mmu
  {
    CallsIn(Without(mmu.spaces, pid)) == user && OnlyOf(Without(mmu.spaces, pid), user)
  }

  /** The program has been loaded into the process: the pages of its segments and the common pages have been added,
      each with what belongs there, and nothing else has changed. */
  ghost predicate IsLoaded(program: Program, pid: int, spaces0: Spaces, spaces: Spaces) {
    && ProgramOk(program) && Without(spaces, pid) == spaces0
    && InPlace(program.phs, program.reader, pid, program.argc, program.argv, spaces)
    && exists segments :: && SegmentsLoaded(program.phs, program.reader, pid, spaces0, segments)
                          && CommonAdded(pid, program.argc, program.argv, segments, spaces)
  }

  /** The process then finds its image: at every address of a segment, the byte that belongs there. */
  lemma ImageInPlace(program: Program, pid: int, spaces0: Spaces, spaces: Spaces, i: int, a: int)
    requires IsLoaded(program, pid, spaces0, spaces) && 0 <= i < |program.phs| && program.phs[i].HasPage(a / 4096)
    ensures Addr(pid, a / 4096) in spaces
    ensures spaces[Addr(pid, a / 4096)][a % 4096] == Loaded(program.phs[i], program.reader, a)
  {
    var segments :| && SegmentsLoaded(program.phs, program.reader, pid, spaces0, segments)
                    && CommonAdded(pid, program.argc, program.argv, segments, spaces);
    ProcessImage(program.phs, program.reader, pid, program.argc, program.argv, spaces0, segments, spaces, i, a);
  }

  method LoadPages(mmu: Mmu, pid: int, program: Program) returns (ok: bool)
    requires mmu.Valid() && pid > 0 && pid != mmu.currVmPid && ProgramOk(program)
    requires forall a :: a in mmu.spaces ==> a.pid != pid
    modifies mmu`spaces, mmu`frameOf, mmu.mem, mmu.table
    ensures mmu.Valid() && Without(mmu.spaces, pid) == old(mmu.spaces)
    ensures Loose(mmu) == old(Loose(mmu))
    ensures ok <==> FramesNeeded(program.phs) + 4 <= ElfLoad.Unused(old(mmu.table[..]))
    ensures if ok then IsLoaded(program, pid, old(mmu.spaces), mmu.spaces) && Addr(pid, SYSCALL_PAGE) in mmu.spaces
            else OutOfFrames(mmu, pid, program)
  {
    ghost var table0, frameOf0, spaces0 := mmu.table[..], mmu.frameOf, mmu.spaces;
    ghost var segments;
    ok, segments := Load(mmu, pid, program.phs, program.reader, program.argc, program.argv);
    if ok {
      ProcessPages(program.phs, program.reader, pid, program.argc, program.argv, spaces0, segments, mmu.spaces);
    } else {
      OthersAre(spaces0, mmu.spaces, pid);
      FramesTaken(table0, frameOf0, spaces0, mmu.table[..], mmu.frameOf, mmu.spaces, pid);
    }
  }

  /** What is on the system call page of a process that is not running. */
  method Peek(mmu: Mmu, pid: int) returns (call: Syscall)
    requires mmu.Valid() && pid != mmu.currVmPid && Addr(pid, SYSCALL_PAGE) in mmu.spaces
    ensures call == Decode(mmu.spaces[Addr(pid, SYSCALL_PAGE)])
  {
    var i := 0;
    while !(mmu.table[i].pid == pid && mmu.table[i].vpageNo == SYSCALL_PAGE)
      invariant 0 <= i <= mmu.frameOf[Addr(pid, SYSCALL_PAGE)]
      decreases mmu.frameOf[Addr(pid, SYSCALL_PAGE)] - i
    {
      i := i + 1;
    }
    call := Decode(mmu.mem[FIRST_FRAME + i]);
  }

  /** elf_load of a process without pages: if there are frames, it then has a system call page, and what the others have
      there does not change.  What is on the new page is left over from before. */
  method LoadProgram(mmu: Mmu, pid: int, program: Program, ghost user: UserCalls) returns (ok: bool, call: Syscall)
    requires mmu.Valid() && pid > 0 && pid != mmu.currVmPid && ProgramOk(program)
    requires CallsIn(mmu.spaces) == user && OnlyOf(mmu.spaces, user) && pid !in user
    modifies mmu`spaces, mmu`frameOf, mmu.mem, mmu.table
    ensures mmu.Valid()
    ensures ok <==> FramesNeeded(program.phs) + 4 <= ElfLoad.Unused(old(mmu.table[..]))
    ensures Loose(mmu) == old(Loose(mmu))
    ensures OthersHave(mmu, pid, user) && Without(mmu.spaces, pid) == old(mmu.spaces)
    ensures ok ==> IsLoaded(program, pid, old(mmu.spaces), mmu.spaces)
    ensures if ok then CallsIn(mmu.spaces) == user[pid := call] && OnlyOf(mmu.spaces, user[pid := call])
            else OutOfFrames(mmu, pid, program)
  {
    ghost var before := mmu.spaces;
    ok := LoadPages(mmu, pid, program);
    call := Syscall(0, 0, 0, [], Pending);
    if ok {
      call := Peek(mmu, pid);
      LoadedCalls(before, mmu.spaces, pid, user, call);
      LoadedOnly(before, mmu.spaces, pid, user, call);
    }
  }

  /** Exactly the pages of these processes are left, and they are as they were. */
  ghost predicate Kept(spaces: Spaces, user: UserCalls, spaces': Spaces) {
    && (forall a :: a in spaces' <==> a in spaces && a.pid in user)
    && (forall a :: a in spaces' ==> spaces'[a] == spaces[a])
  }

  lemma KeptFewer(spaces: Spaces, user: UserCalls, spaces1: Spaces, user': UserCalls, spaces2: Spaces)
    requires Kept(spaces, user, spaces1) && Kept(spaces1, user', spaces2) && user'.Keys <= user.Keys
    ensures Kept(spaces, user', spaces2)
  {
  }

  lemma AllKept(spaces: Spaces, user: UserCalls)
    requires OnlyOf(spaces, user)
    ensures Kept(spaces, user, spaces)
  {
  }

  lemma OneFreed(spaces: Spaces, user: UserCalls, pid: int)
    requires OnlyOf(spaces, user)
    ensures Kept(spaces, user - {pid}, Without(spaces, pid))
  {
  }

  lemma FreedCalls(spaces: Spaces, pid: int, user: UserCalls)
    requires CallsIn(spaces) == user && OnlyOf(spaces, user)
    ensures CallsIn(Without(spaces, pid)) == user - {pid} && OnlyOf(Without(spaces, pid), user - {pid})
  {
    forall p
      ensures p in user - {pid} <==> p in CallsIn(Without(spaces, pid))
      ensures p in user - {pid} ==> (user - {pid})[p] == CallsIn(Without(spaces, pid))[p]
    {
      CallAt(spaces, p);
      CallAt(Without(spaces, pid), p);
    }
  }

  /** mmu_free of one process. */
  method FreePages(mmu: Mmu, pid: int, ghost user: UserCalls)
    requires mmu.Valid() && CallsIn(mmu.spaces) == user && OnlyOf(mmu.spaces, user)
    modifies mmu`spaces, mmu`frameOf, mmu.table
    ensures mmu.Valid() && CallsIn(mmu.spaces) == user - {pid} && OnlyOf(mmu.spaces, user - {pid})
    ensures Kept(old(mmu.spaces), user - {pid}, mmu.spaces)
    ensures Loose(mmu) <= old(Loose(mmu))
  {
    FreedCalls(mmu.spaces, pid, user);
    OneFreed(mmu.spaces, user, pid);
    mmu.Free(pid);
  }

  /** What is left of the user memories when the users among the first n slots are gone. */
  ghost function Rest(user: UserCalls, ps: Table, n: int): UserCalls
    requires n <= |ps|
  {
    user - UserPids(ps, n)
  }

  /** What a turn of the loop of proc_free(GPID_ALL) at process p leaves of the user memories. */
  ghost predicate WithoutUser(user: UserCalls, p: Process, user': UserCalls) {
    user' == if LiveUser(p) then user - {p.pid} else user
  }

  ghost predicate AllWithout(rests: seq<UserCalls>, ps: Table) {
    |rests| == MAX_NPROCESS + 1 == |ps| && forall i :: 0 <= i < MAX_NPROCESS ==>
      WithoutUser(rests[i], ps[i], rests[i + 1])
  }

  lemma RestsOf(user: UserCalls, ps: Table) returns (rests: seq<UserCalls>)
    requires |ps| == MAX_NPROCESS + 1
    ensures AllWithout(rests, ps) && rests[0] == user && rests[MAX_NPROCESS] == Rest(user, ps, MAX_NPROCESS)
  {
    rests := seq(MAX_NPROCESS + 1, i requires 0 <= i <= MAX_NPROCESS => Rest(user, ps, i));
    forall i | 0 <= i < MAX_NPROCESS
      ensures WithoutUser(rests[i], ps[i], rests[i + 1])
    {
      UserPidsNext(ps, i);
    }
    assert UserPids(ps, 0) == {};
  }

  /** One turn of that loop. */
  method FreeUserPage(mmu: Mmu, p: Process, ghost user: UserCalls, ghost user': UserCalls)
    requires mmu.Valid() && CallsIn(mmu.spaces) == user && OnlyOf(mmu.spaces, user) && WithoutUser(user, p, user')
    modifies mmu`spaces, mmu`frameOf, mmu.table
    ensures mmu.Valid() && CallsIn(mmu.spaces) == user' && OnlyOf(mmu.spaces, user')
    ensures Loose(mmu) <= old(Loose(mmu)) && Kept(old(mmu.spaces), user', mmu.spaces)
  {
    AllKept(mmu.spaces, user);
    if LiveUser(p) {
      FreePages(mmu, p.pid, user);
    }
  }

  /** mmu_free of all live user processes, in that loop. */
  method FreeUserPages(mmu: Mmu, ps: Table, ghost rests: seq<UserCalls>)
    requires mmu.Valid() && AllWithout(rests, ps) && CallsIn(mmu.spaces) == rests[0] && OnlyOf(mmu.spaces, rests[0])
    modifies mmu`spaces, mmu`frameOf, mmu.table
    ensures mmu.Valid() && CallsIn(mmu.spaces) == rests[MAX_NPROCESS] && OnlyOf(mmu.spaces, rests[MAX_NPROCESS])
    ensures Loose(mmu) <= old(Loose(mmu)) && Kept(old(mmu.spaces), rests[MAX_NPROCESS], mmu.spaces)
  {
    AllKept(mmu.spaces, rests[0]);
    for i := 0 to MAX_NPROCESS
      invariant mmu.Valid() && CallsIn(mmu.spaces) == rests[i] && OnlyOf(mmu.spaces, rests[i])
      invariant Loose(mmu) <= old(Loose(mmu)) && Kept(old(mmu.spaces), rests[i], mmu.spaces)
    {
      ghost var before := mmu.spaces;
      FreeUserPage(mmu, ps[i], rests[i], rests[i + 1]);
      KeptFewer(old(mmu.spaces), rests[i], before, rests[i + 1], mmu.spaces);
    }
  }

  /** The running process is still there, with its page, after an operation. */
  lemma RunningKept(s: State, op: Op, s': State)
    requires StateOk(s) && Allowed(s, op) && OpDone(s, op, s') && s.ps[s.c].pid in s.user
    ensures |s'.ps| == MAX_NPROCESS + 1 && s'.c == s.c && s'.ps[s'.c].pid == s.ps[s.c].pid && s.ps[s.c].pid in s'.user
  {
    match op
    case Allocate(now) =>
      var i :| Allocated(s, i, now, s');
    case MakeReady(pid, call) =>
    case Release(pid) =>
    case ReleaseAll =>
  }

  /** The user memories after the operation. */
  ghost predicate IsUserOf(op: Op, ps: Table, user: UserCalls, user': UserCalls)
    requires |ps| == MAX_NPROCESS + 1
  {
    match op
    case Allocate(_) => user' == user
    case MakeReady(pid, call) => user' == user[pid := call]
    case Release(pid) => user' == if AnyUser(ps) then user - {pid} else user
    case ReleaseAll => user' == Rest(user, ps, MAX_NPROCESS)
  }

  lemma UserAfter(s: State, op: Op, s': State)
    requires StateOk(s) && OpDone(s, op, s')
    ensures IsUserOf(op, s.ps, s.user, s'.user)
  {
    if op.Allocate? {
      var i :| Allocated(s, i, op.now, s');
    }
  }

  /** What an operation means for memory. */
  ghost predicate OpInMemory(s: State, op: Op, s': State) {
    && |s.ps| == |s'.ps| == MAX_NPROCESS + 1 && 0 <= s.c == s'.c < |s.ps|
    && s'.ps[s.c].pid == s.ps[s.c].pid && s.ps[s.c].pid in s'.user && IsUserOf(op, s.ps, s.user, s'.user)
    && Readiable(op, s.ps[s.c].pid, s.user)
  }

  lemma StepInMemory(s: State, op: Op, s': State)
    requires StateOk(s) && Allowed(s, op) && OpDone(s, op, s')
    ensures OpInMemory(s, op, s')
  {
    RunningHasCall(s.ps, s.user, s.c);
    RunningKept(s, op, s');
    UserAfter(s, op, s');
  }

  /** Where it stops at making a process ready: the others have what they had, and the program does not fit, or the
      process finds another call on its page than the operation says. */
  ghost predicate Refused(mmu: Mmu, user: UserCalls, op: Op, program: Program)
    reads mmu, mmu.table
  {
    && op.MakeReady?
    && OthersHave(mmu, op.pid, user)
    && (OutOfFrames(mmu, op.pid, program) || FindsOther(CallsIn(mmu.spaces), op))
  }

  predicate FindsOther(calls: UserCalls, op: Op)
    requires op.MakeReady?
  {
    op.pid in calls && calls[op.pid] != op.call
  }

  /** Its page holds another call. */
  lemma OtherFound(calls: UserCalls, user: UserCalls, op: Op, found: Syscall)
    requires op.MakeReady? && calls == user[op.pid := found] && found != op.call
    ensures FindsOther(calls, op)
  {
  }

  /** Making a process ready, for memory: its program is loaded, and what it finds on its page must be what the
      operation says. */
  method ReadyPages(mmu: Mmu, op: Op, program: Program, ghost user: UserCalls) returns (ok: bool)
    requires mmu.Valid() && op.MakeReady? && CallsIn(mmu.spaces) == user && OnlyOf(mmu.spaces, user)
    requires ProgramOk(program) && Readiable(op, mmu.currVmPid, user)
    modifies mmu`spaces, mmu`frameOf, mmu.mem, mmu.table
    ensures mmu.Valid() && Loose(mmu) == old(Loose(mmu))
    ensures if ok then CallsIn(mmu.spaces) == user[op.pid := op.call] && OnlyOf(mmu.spaces, user[op.pid := op.call])
            else Refused(mmu, user, op, program)
  {
    var found;
    ok, found := LoadProgram(mmu, op.pid, program, user);
    if ok && found != op.call {
      OtherFound(CallsIn(mmu.spaces), user, op, found);
      ok := false;
    }
  }

  /** The other operations, for memory. */
  method OtherPages(mmu: Mmu, op: Op, ps: Table, ghost user: UserCalls, ghost user': UserCalls)
    requires mmu.Valid() && |ps| == MAX_NPROCESS + 1 && CallsIn(mmu.spaces) == user && OnlyOf(mmu.spaces, user)
    requires !op.MakeReady? && IsUserOf(op, ps, user, user')
    modifies mmu`spaces, mmu`frameOf, mmu.table
    ensures mmu.Valid() && Loose(mmu) <= old(Loose(mmu)) && Kept(old(mmu.spaces), user', mmu.spaces)
    ensures CallsIn(mmu.spaces) == user' && OnlyOf(mmu.spaces, user')
  {
    AllKept(mmu.spaces, user);
    match op {
      case Allocate(_) =>
      case Release(pid) =>
        if AnyUser(ps) {
          FreePages(mmu, pid, user);
        }
      case ReleaseAll =>
        ghost var rests := RestsOf(user, ps);
        FreeUserPages(mmu, ps, rests);
    }
  }

  method OpPages(mmu: Mmu, op: Op, ps: Table, ghost user: UserCalls, ghost user': UserCalls, program: Program)
      returns (ok: bool)
    requires mmu.Valid() && |ps| == MAX_NPROCESS + 1 && CallsIn(mmu.spaces) == user && OnlyOf(mmu.spaces, user)
    requires ProgramOk(program) && IsUserOf(op, ps, user, user') && Readiable(op, mmu.currVmPid, user)
    modifies mmu`spaces, mmu`frameOf, mmu.mem, mmu.table
    ensures mmu.Valid() && Loose(mmu) <= old(Loose(mmu))
    ensures if ok then CallsIn(mmu.spaces) == user' && OnlyOf(mmu.spaces, user') else Refused(mmu, user, op, program)
  {
    ok := true;
    if op.MakeReady? {
      ok := ReadyPages(mmu, op, program, user);
    } else {
      OtherPages(mmu, op, ps, user, user');
    }
  }

  /** A process that is made ready is not the current one, and has not been ready before. */
  predicate Readiable(op: Op, curr: int, user: UserCalls) {
    op.MakeReady? ==> op.pid > 0 && op.pid != curr && op.pid !in user
  }

  /** The same with the running process as the current one for memory. */
  ghost predicate Stopped(mmu: Mmu, s: State, op: Op, program: Program)
    reads mmu, mmu.table
  {
    Refused(mmu, s.user, op, program) && 0 <= s.c < |s.ps| && mmu.currVmPid == s.ps[s.c].pid
  }

  /** What an operation on the process table does to memory.  It stops (false) at a process that does not fit, or that
      finds something else on its page than the step says. */
  method CarryOp(mmu: Mmu, s: State, op: Op, ghost s': State, program: Program) returns (ok: bool)
    requires mmu.Valid() && OpInMemory(s, op, s') && Mirrors(mmu, s) && ProgramOk(program)
    modifies mmu`spaces, mmu`frameOf, mmu.mem, mmu.table
    ensures mmu.Valid() && Loose(mmu) <= old(Loose(mmu))
    ensures if ok then Mirrors(mmu, s') else Stopped(mmu, s, op, program)
  {
    ok := OpPages(mmu, op, s.ps, s.user, s'.user, program);
  }

  // ---------------------------------------------------------------- runs

  /** The ints of the step fit 32 bits. */
  predicate StepFits(step: Step) {
    match step
    case Entered(_, e) => CauseFits(e.cause)
    case Managed(from, op, _) => op.Allocate? ==> Int32(from.lastPid + 1)
  }

  lemma OpFits(s: State, op: Op, s': State)
    requires StateOk(s) && Allowed(s, op) && OpDone(s, op, s') && Fits(s.ps)
    requires op.Allocate? ==> Int32(s.lastPid + 1)
    ensures Fits(s'.ps)
  {
    match op
    case Allocate(now) =>
      var i :| Allocated(s, i, now, s');
    case MakeReady(pid, call) =>
    case Release(pid) =>
    case ReleaseAll =>
  }

  /** What a step needs to be carried out on memory. */
  ghost predicate Carriable(step: Step) {
    match step
    case Entered(from, e) => InMemory(e) && Begins(e, from) && CauseFits(e.cause)
    case Managed(from, op, to) => OpInMemory(from, op, to)
  }

  lemma StepKeepsFit(step: Step)
    requires IsStep(step) && StepFits(step) && Fits(step.from.ps)
    ensures Fits(After(step).ps) && Carriable(step)
  {
    match step
    case Entered(from, e) =>
      FitsAtYield(e);
      FitsNext(e);
      EntryInMemory(e);
    case Managed(from, op, to) =>
      OpFits(from, op, to);
      StepInMemory(from, op, to);
  }

  lemma {:induction false} RunFits(run: seq<Step>, from: State, n: nat)
    requires IsKernelRun(run) && n <= |run| && (run != [] ==> run[0].from == from) && Fits(from.ps)
    requires forall k :: 0 <= k < |run| ==> StepFits(run[k])
    ensures Fits(StateAt(run, from, n).ps)
    ensures n < |run| ==> run[n].from == StateAt(run, from, n) && Carriable(run[n])
    decreases |run|, n
  {
    hide IsStep, Carriable, Fits, StepFits;
    if n > 0 {
      RunFits(run, from, n - 1);
      assert IsStep(run[n - 1]);
      StepKeepsFit(run[n - 1]);
    }
    if n < |run| {
      assert IsStep(run[n]);
      assert n > 0 ==> NextStep(run[n - 1], run[n]);
      StepKeepsFit(run[n]);
    }
  }

  ghost predicate StoppedAt(mmu: Mmu, s: State, step: Step, program: Program)
    reads mmu, mmu.table
  {
    step.Managed? && Stopped(mmu, s, step.op, program)
  }

  method CarryStep(mmu: Mmu, step: Step, program: Program) returns (ok: bool)
    requires mmu.Valid() && Carriable(step) && Mirrors(mmu, step.from) && ProgramOk(program)
    modifies mmu, mmu.mem, mmu.table
    ensures mmu.Valid() && Loose(mmu) <= old(Loose(mmu))
    ensures if ok then Mirrors(mmu, After(step)) else StoppedAt(mmu, step.from, step, program)
  {
    hide Mirrors, CallsIn, OnlyOf, Stopped, InMemory, OpInMemory, Loose;
    match step {
      case Entered(from, e) =>
        CarryEntry(mmu, e, from);
        ok := true;
      case Managed(from, op, to) =>
        ok := CarryOp(mmu, from, op, to, program);
    }
  }

  ghost predicate RunCarriable(run: seq<Step>, from: State) {
    forall n: nat {:trigger StateAt(run, from, n)} :: n < |run| ==> NextCarriable(run[n], StateAt(run, from, n))
  }

  ghost predicate NextCarriable(step: Step, from: State) {
    step.from == from && Carriable(step)
  }

  lemma KernelRunCarriable(run: seq<Step>, from: State)
    requires IsKernelRun(run) && (run != [] ==> run[0].from == from) && Fits(from.ps)
    requires forall k :: 0 <= k < |run| ==> StepFits(run[k])
    ensures RunCarriable(run, from)
  {
    forall n: nat | n < |run|
      ensures NextCarriable(run[n], StateAt(run, from, n))
    {
      RunFits(run, from, n);
    }
  }

  method CarryAll(mmu: Mmu, run: seq<Step>, programs: seq<Program>, ghost from: State) returns (n: nat)
    requires mmu.Valid() && RunCarriable(run, from) && Mirrors(mmu, from)
    requires |programs| == |run| && forall k :: 0 <= k < |run| ==> ProgramOk(programs[k])
    modifies mmu, mmu.mem, mmu.table
    ensures mmu.Valid() && n <= |run| && Loose(mmu) <= old(Loose(mmu))
    ensures if n == |run| then Mirrors(mmu, StateAt(run, from, n))
            else StoppedAt(mmu, StateAt(run, from, n), run[n], programs[n])
  {
    n := 0;
    while n < |run|
      invariant n <= |run| && mmu.Valid() && Mirrors(mmu, StateAt(run, from, n))
      invariant Loose(mmu) <= old(Loose(mmu))
    {
      assert NextCarriable(run[n], StateAt(run, from, n));
      var ok := CarryStep(mmu, run[n], programs[n]);
      if !ok {
        return;
      }
      n := n + 1;
    }
  }

  /** In every run of the kernel, with processes created, loaded and freed on the way, the pages of the processes hold
      at every step what the kernel's model has for them, only processes that have been loaded and not freed have pages,
      and the running process can access its own.  It stops only at a process that does not fit into memory, or whose
      page is not as the run says when it is made ready. */
  method CarryRun(mmu: Mmu, run: seq<Step>, programs: seq<Program>, ghost from: State) returns (n: nat)
    requires mmu.Valid() && IsKernelRun(run) && (run != [] ==> run[0].from == from) && Fits(from.ps)
    requires forall k :: 0 <= k < |run| ==> StepFits(run[k])
    requires |programs| == |run| && forall k :: 0 <= k < |run| ==> ProgramOk(programs[k])
    requires Mirrors(mmu, from)
    modifies mmu, mmu.mem, mmu.table
    ensures mmu.Valid() && n <= |run| && Loose(mmu) <= old(Loose(mmu))
    ensures if n == |run| then Mirrors(mmu, StateAt(run, from, n))
            else StoppedAt(mmu, StateAt(run, from, n), run[n], programs[n])
  {
    KernelRunCarriable(run, from);
    n := CarryAll(mmu, run, programs, from);
  }
}
