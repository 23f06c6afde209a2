/** The kernel and the memory at work together: system calls, interrupts, and processes that are created, loaded and
    freed, with everything that the kernel and its processes tell each other going through the pages. */
module Machine {
  import opened Wrappers
  import opened Memory
  import opened Processes
  import opened Ipc
  import opened Kernel
  import opened KernelRuns
  import opened Messages
  import opened SoftTlb
  import opened CallPages
  import ElfLoad
  import opened UserMemory
  import opened SetSizes

  /** An entry into the kernel or an operation on the process table, or the load of a program into a new process, which
      is then made ready. */
  datatype Event = Happens(x: Input) | Loads(pid: int, program: Program)

  /** The arguments of a call fit the struct, and processes become ready only after a load. */
  ghost predicate EventOk(event: Event) {
    match event
    case Happens(Entering(call, _, _, _)) => call.Some? ==> CallOk(call.value)
    case Happens(Managing(op)) => !op.MakeReady?
    case Loads(_, program) => ProgramOk(program)
  }

  /** Step step is caused by the event. */
  predicate Handles(step: Step, event: Event) {
    match event
    case Happens(x) => Answers(step, x)
    case Loads(pid, _) => step.Managed? && step.op.MakeReady? && step.op.pid == pid
  }

  /** In state s, with so many frames unused, the event halts the kernel, or is nothing that the system server asks
      for. */
  ghost predicate Stops(s: State, event: Event, unused: int)
    requires |s.ps| == MAX_NPROCESS + 1 && 0 <= s.c < |s.ps|
  {
    match event
    case Happens(x) => HaltsOn(s, x)
    case Loads(pid, program) => !Unready(s, pid) || unused < ElfLoad.FramesNeeded(program.phs) + 4
  }

  // ---------------------------------------------------------------- entries

  function CauseOf(call: Option<Syscall>): Cause {
    if call.Some? then Call(call.value) else Interrupt
  }

  /** An entry hands back a call to at most one process, which is in the table. */
  ghost predicate OneReply(ps: Table, user0: UserCalls, user: UserCalls, reply: Option<Reply>) {
    match reply
    case None => user == user0
    case Some(r) =>
      && r.pid > 0 && r.pid in user0 && CallOk(r.call) && user == user0[r.pid := r.call]
      && exists d :: 0 <= d < |ps| && ps[d].pid == r.pid
  }

  lemma EntryReplies(e: Entry)
    requires IsEntry(e) && Fits(AtYield(e))
    ensures OneReply(e.ps, e.user0, e.user, ReplyOf(e))
  {
    EntryInMemory(e);
    if e.phase.Matched? {
      ReplyFits(e);
      KeepsPids(e, e.phase.d);
      assert e.ps[e.phase.d].pid == e.before[e.phase.d].pid;
    }
  }

  /** The pages hold the user memories before or after the entry; if before, none of the first n slots has the process
      that is still to be handed its call. */
  ghost predicate HandedBack(calls: UserCalls, ps: Table, n: int, user0: UserCalls, user: UserCalls,
                             reply: Option<Reply>)
    requires n <= |ps|
  {
    calls == user || (calls == user0 && reply.Some? && forall j :: 0 <= j < n ==> ps[j].pid != reply.value.pid)
  }

  predicate Changed(user0: UserCalls, user: UserCalls, pid: int) {
    pid in user0 && pid in user && user0[pid] != user[pid]
  }

  lemma OnlyReceiverChanged(ps: Table, user0: UserCalls, user: UserCalls, reply: Option<Reply>, pid: int)
    requires OneReply(ps, user0, user, reply)
    ensures Changed(user0, user, pid) ==>
              reply.Some? && pid == reply.value.pid && CallOk(user[pid]) && user == user0[pid := user[pid]]
              && user == user[pid := user[pid]]
    ensures !Changed(user0, user, pid) && reply.Some? && pid == reply.value.pid ==> user == user0
  {
  }

  /** What the kernel has changed in the user memory of a process goes to its page. */
  method HandBackTo(mmu: Mmu, ps: Table, i: int, user0: UserCalls, user: UserCalls, ghost reply: Option<Reply>)
    requires mmu.Valid() && 0 <= i < |ps| && OneReply(ps, user0, user, reply)
    requires HandedBack(CallsIn(mmu.spaces), ps, i, user0, user, reply)
    modifies mmu`currVmPid, mmu`spaces, mmu.mem
    ensures mmu.Valid() && SameButCalls(old(mmu.spaces), mmu.spaces)
    ensures HandedBack(CallsIn(mmu.spaces), ps, i + 1, user0, user, reply)
  {
    var pid := ps[i].pid;
    OnlyReceiverChanged(ps, user0, user, reply, pid);
    if Changed(user0, user, pid) {
      Deliver(mmu, pid, user[pid]);
    }
  }

  lemma NothingChanged(spaces: Spaces)
    ensures SameButCalls(spaces, spaces)
  {
  }

  /** Before the first slot nothing has been handed back, after the last one everything. */
  lemma BackBounds(calls: UserCalls, ps: Table, user0: UserCalls, user: UserCalls, reply: Option<Reply>)
    requires OneReply(ps, user0, user, reply)
    ensures calls == user0 ==> HandedBack(calls, ps, 0, user0, user, reply)
    ensures HandedBack(calls, ps, |ps|, user0, user, reply) ==> calls == user
  {
  }

  /** The same for all processes of the table. */
  method HandBackAll(mmu: Mmu, ps: Table, user0: UserCalls, user: UserCalls, ghost reply: Option<Reply>)
    requires mmu.Valid() && OneReply(ps, user0, user, reply) && CallsIn(mmu.spaces) == user0
    modifies mmu`currVmPid, mmu`spaces, mmu.mem
    ensures mmu.Valid() && CallsIn(mmu.spaces) == user && SameButCalls(old(mmu.spaces), mmu.spaces)
  {
    hide *;  // the contracts of what is called here are enough
    BackBounds(CallsIn(mmu.spaces), ps, user0, user, reply);
    NothingChanged(mmu.spaces);
    for i := 0 to |ps|
      invariant mmu.Valid() && SameButCalls(old(mmu.spaces), mmu.spaces)
      invariant HandedBack(CallsIn(mmu.spaces), ps, i, user0, user, reply)
    {
      ghost var before := mmu.spaces;
      HandBackTo(mmu, ps, i, user0, user, reply);
      KeptTwice(old(mmu.spaces), before, mmu.spaces);
    }
    BackBounds(CallsIn(mmu.spaces), ps, user0, user, reply);
  }

  lemma StillOnlyOf(spaces: Spaces, spaces': Spaces, user: UserCalls)
    requires SameButCalls(spaces, spaces') && OnlyOf(spaces, user)
    ensures OnlyOf(spaces', user)
  {
  }

  /** The running process writes the arguments of its call, if any, to its page, and the kernel reads them there. */
  method Present(mmu: Mmu, cause: Cause, pid: int, ghost from: State, ghost user0: UserCalls)
      returns (fetched: Option<Syscall>)
    requires mmu.Valid() && mmu.currVmPid == pid > 0 && Mirrors(mmu, from) && CauseFits(cause)
    requires user0 == Written(from, cause) && pid in user0 && (cause.Call? ==> user0[pid] == cause.call)
    modifies mmu`currVmPid, mmu`spaces, mmu.mem
    ensures mmu.Valid() && fetched == (if cause.Call? then Some(cause.call) else None) && mmu.currVmPid == pid
    ensures CallsIn(mmu.spaces) == user0 && SameButCalls(old(mmu.spaces), mmu.spaces)
  {
    WriteArguments(mmu, cause, from);
    fetched := FetchCause(mmu, cause, pid);
  }

  /** The kernel hands back what it has to, and makes the pages of the next process accessible. */
  method Resume(mmu: Mmu, ps: Table, user0: UserCalls, user: UserCalls, next: int, ghost reply: Option<Reply>)
    requires mmu.Valid() && OneReply(ps, user0, user, reply) && CallsIn(mmu.spaces) == user0
    requires 0 <= next < |ps| && ps[next].pid > 0
    modifies mmu`currVmPid, mmu`spaces, mmu.mem
    ensures mmu.Valid() && CallsIn(mmu.spaces) == user && SameButCalls(old(mmu.spaces), mmu.spaces)
    ensures mmu.currVmPid == ps[next].pid
  {
    HandBackAll(mmu, ps, user0, user, reply);
    mmu.Switch(ps[next].pid);
  }

  /** What an entry leaves to be done in memory. */
  ghost predicate ToResume(from: State, cause: Cause, to: State, reply: Option<Reply>) {
    && 0 <= from.c < |from.ps| && OneReply(to.ps, Written(from, cause), to.user, reply)
    && 0 <= to.c < |to.ps| && to.ps[to.c].pid > 0 && to.ps[to.c].pid in to.user
    && forall pid :: pid in from.user ==> pid in to.user
  }

  lemma EntryToResume(step: Step, call: Option<Syscall>)
    requires IsStep(step) && step.Entered? && step.e.cause == CauseOf(call) && Fits(step.from.ps)
    requires call.Some? ==> CallOk(call.value)
    ensures ToResume(step.from, CauseOf(call), After(step), ReplyOf(step.e)) && Fits(After(step).ps)
  {
    FitsAtYield(step.e);
    FitsNext(step.e);
    EntryInMemory(step.e);
    EntryReplies(step.e);
    UsersKept(step.e, step.from);
  }

  /** What holds of the running process when it enters the kernel. */
  lemma CallerReady(from: State, cause: Cause, pid: int, user0: UserCalls)
    requires StateOk(from) && pid == from.ps[from.c].pid && user0 == Written(from, cause)
    ensures pid > 0 && pid in from.user && pid in user0 && (cause.Call? ==> user0[pid] == cause.call)
  {
    RunningHasCall(from.ps, from.user, from.c);
  }

  /** The pages when the running process has written its arguments. */
  ghost predicate Presented(mmu: Mmu, from: State, call: Option<Syscall>)
    reads mmu
  {
    && 0 <= from.c < |from.ps| && mmu.currVmPid == from.ps[from.c].pid
    && CallsIn(mmu.spaces) == Written(from, CauseOf(call)) && OnlyOf(mmu.spaces, from.user)
  }

  method PresentCall(mmu: Mmu, call: Option<Syscall>, ghost from: State) returns (fetched: Option<Syscall>)
    requires mmu.Valid() && Mirrors(mmu, from) && StateOk(from) && (call.Some? ==> CallOk(call.value))
    modifies mmu`currVmPid, mmu`spaces, mmu.mem
    ensures mmu.Valid() && fetched == call && Presented(mmu, from, call)
    ensures SameButCalls(old(mmu.spaces), mmu.spaces)
  {
    var cause := CauseOf(call);
    ghost var user0 := Written(from, cause);
    CallerReady(from, cause, mmu.currVmPid, user0);
    fetched := Present(mmu, cause, mmu.currVmPid, from, user0);
    StillOnlyOf(old(mmu.spaces), mmu.spaces, from.user);
  }

  // ---------------------------------------------------------------- runs

  /** A run of the kernel from one state to another. */
  ghost predicate RunTo(run: seq<Step>, origin: State, to: State) {
    AllSteps(run) && Chained(run) && Leads(run, origin, to)
  }

  /** The run has one step more, which the event has caused. */
  predicate OneMore(run: seq<Step>, longer: seq<Step>, event: Event) {
    |longer| == |run| + 1 && longer[..|run|] == run && Handles(longer[|run|], event)
  }

  lemma RunLonger(run: seq<Step>, origin: State, step: Step, event: Event)
    requires RunTo(run, origin, step.from) && IsStep(step) && Handles(step, event)
    ensures RunTo(run + [step], origin, After(step)) && OneMore(run, run + [step], event)
  {
    StepsExtended(run, step);
    ChainExtended(run, step);
  }

  /** The kernel at work, and what it leaves to be done in memory. */
  method Answer(k: Kernel, x: Input) returns (ok: bool, user0: UserCalls, ghost step: Step, ghost reply: Option<Reply>)
    requires k.Valid() && Fits(k.procs[..]) && x.Entering? && (x.call.Some? ==> CallOk(x.call.value))
    modifies k, k.procs
    ensures ok <==> !HaltsOn(old(StateOf(k)), x)
    ensures ok ==> old(k.lastPid) <= k.lastPid <= old(k.lastPid) + 1
    ensures ok ==> && k.Valid() && IsStep(step) && step.from == old(StateOf(k)) && After(step) == StateOf(k)
                   && Answers(step, x)
    ensures ok ==> && ToResume(old(StateOf(k)), CauseOf(x.call), StateOf(k), reply) && Fits(k.procs[..])
                   && user0 == Written(old(StateOf(k)), CauseOf(x.call))
  {
    user0 := if x.call.Some? then k.user[k.procs[k.currIdx].pid := x.call.value] else k.user;
    ok, step := Enter(k, x);
    reply := None;
    if ok {
      EntryToResume(step, x.call);
      reply := ReplyOf(step.e);
    }
  }

  /** The same, as the next step of a run. */
  method AnswerInRun(k: Kernel, x: Input, ghost run: seq<Step>, ghost origin: State)
      returns (ok: bool, user0: UserCalls, ghost longer: seq<Step>, ghost reply: Option<Reply>)
    requires k.Valid() && Fits(k.procs[..]) && x.Entering? && (x.call.Some? ==> CallOk(x.call.value))
    requires RunTo(run, origin, StateOf(k))
    modifies k, k.procs
    ensures ok <==> !HaltsOn(old(StateOf(k)), x)
    ensures ok ==> old(k.lastPid) <= k.lastPid <= old(k.lastPid) + 1
    ensures ok ==> k.Valid() && RunTo(longer, origin, StateOf(k)) && OneMore(run, longer, Happens(x))
    ensures ok ==> && ToResume(old(StateOf(k)), CauseOf(x.call), StateOf(k), reply) && Fits(k.procs[..])
                   && user0 == Written(old(StateOf(k)), CauseOf(x.call))
    ensures !ok ==> longer == run
  {
    ghost var step;
    longer := run;
    ok, user0, step, reply := Answer(k, x);
    if ok {
      RunLonger(run, origin, step, Happens(x));
      longer := run + [step];
    }
  }

  method ResumeTo(mmu: Mmu, ps: Table, user0: UserCalls, user: UserCalls, next: int, ghost reply: Option<Reply>,
                  ghost from: State, ghost call: Option<Syscall>, ghost to: State)
    requires mmu.Valid() && Presented(mmu, from, call) && ToResume(from, CauseOf(call), to, reply)
    requires user0 == Written(from, CauseOf(call)) && ps == to.ps && user == to.user && next == to.c
    modifies mmu`currVmPid, mmu`spaces, mmu.mem
    ensures mmu.Valid() && Mirrors(mmu, to) && SameButCalls(old(mmu.spaces), mmu.spaces)
  {
    Resume(mmu, ps, user0, user, next, reply);
  }

  lemma KernelState(k: Kernel)
    requires k.Valid()
    ensures StateOk(StateOf(k)) && StateOf(k) == State(k.procs[..], k.user, k.currIdx, k.lastPid, k.lastReset)
    ensures |k.procs[..]| == MAX_NPROCESS + 1 && 0 <= k.currIdx <= MAX_NPROCESS
  {
  }

  /** The running process enters the kernel. */
  method EnterOnPages(k: Kernel, mmu: Mmu, x: Input, ghost run: seq<Step>, ghost origin: State)
      returns (ok: bool, ghost longer: seq<Step>)
    requires k.Valid() && mmu.Valid() && Mirrors(mmu, StateOf(k)) && Fits(k.procs[..])
    requires x.Entering? && (x.call.Some? ==> CallOk(x.call.value)) && RunTo(run, origin, StateOf(k))
    modifies k, k.procs, mmu`currVmPid, mmu`spaces, mmu.mem
    ensures mmu.Valid() && SameButCalls(old(mmu.spaces), mmu.spaces) && (ok <==> !HaltsOn(old(StateOf(k)), x))
    ensures ok ==> k.Valid() && RunTo(longer, origin, StateOf(k)) && OneMore(run, longer, Happens(x))
    ensures ok ==> Mirrors(mmu, StateOf(k)) && Fits(k.procs[..])
    ensures ok ==> old(k.lastPid) <= k.lastPid <= old(k.lastPid) + 1
    ensures !ok ==> longer == run && Presented(mmu, old(StateOf(k)), x.call)
  {
    hide *;
    KernelState(k);
    ghost var from, reply := StateOf(k), None;
    var fetched := PresentCall(mmu, x.call, from);
    var user0;
    ok, user0, longer, reply := AnswerInRun(k, x.(call := fetched), run, origin);
    if ok {
      KernelState(k);
      ghost var before := mmu.spaces;
      ResumeTo(mmu, k.procs[..], user0, k.user, k.currIdx, reply, from, fetched, StateOf(k));
      KeptTwice(old(mmu.spaces), before, mmu.spaces);
    }
  }

  // ---------------------------------------------------------------- operations on the process table

  /** An operation as the next step of a run, and what it means for memory. */
  method PerformInRun(k: Kernel, op: Op, ghost run: seq<Step>, ghost origin: State)
      returns (ok: bool, ghost longer: seq<Step>)
    requires k.Valid() && Fits(k.procs[..]) && (op.Allocate? ==> Int32(k.lastPid + 1)) && RunTo(run, origin, StateOf(k))
    modifies k, k.procs
    ensures ok <==> !HaltsOn(old(StateOf(k)), Managing(op))
    ensures ok ==> old(k.lastPid) <= k.lastPid <= old(k.lastPid) + 1
    ensures ok ==> k.Valid() && RunTo(longer, origin, StateOf(k)) && OneMore(run, longer, Happens(Managing(op)))
    ensures ok ==> OpInMemory(old(StateOf(k)), op, StateOf(k)) && Fits(k.procs[..])
    ensures !ok ==> longer == run
  {
    ghost var step;
    longer := run;
    ok, step := Perform(k, Managing(op));
    if ok {
      RunLonger(run, origin, step, Happens(Managing(op)));
      longer := run + [step];
      StepInMemory(step.from, op, step.to);
      OpFits(step.from, op, step.to);
    }
  }

  /** What it does to memory, unless it makes a process ready. */
  method PagesFollow(mmu: Mmu, op: Op, ps: Table, ghost from: State, ghost to: State)
    requires mmu.Valid() && Mirrors(mmu, from) && OpInMemory(from, op, to) && !op.MakeReady? && ps == from.ps
    modifies mmu`spaces, mmu`frameOf, mmu.table
    ensures mmu.Valid() && Mirrors(mmu, to) && Loose(mmu) <= old(Loose(mmu))
    ensures Kept(old(mmu.spaces), to.user, mmu.spaces)
  {
    OtherPages(mmu, op, ps, from.user, to.user);
  }

  /** An operation on the process table: proc_alloc, or proc_free with mmu_free. */
  method ManageOnPages(k: Kernel, mmu: Mmu, op: Op, ghost run: seq<Step>, ghost origin: State)
      returns (ok: bool, ghost longer: seq<Step>)
    requires k.Valid() && mmu.Valid() && Mirrors(mmu, StateOf(k)) && Fits(k.procs[..])
    requires !op.MakeReady? && (op.Allocate? ==> Int32(k.lastPid + 1)) && RunTo(run, origin, StateOf(k))
    modifies k, k.procs, mmu`spaces, mmu`frameOf, mmu.table
    ensures mmu.Valid() && Loose(mmu) <= old(Loose(mmu)) && (ok <==> !HaltsOn(old(StateOf(k)), Managing(op)))
    ensures ok ==> k.Valid() && RunTo(longer, origin, StateOf(k)) && OneMore(run, longer, Happens(Managing(op)))
    ensures ok ==> Mirrors(mmu, StateOf(k)) && Fits(k.procs[..])
    ensures ok ==> old(k.lastPid) <= k.lastPid <= old(k.lastPid) + 1
    ensures if ok then Kept(old(mmu.spaces), k.user, mmu.spaces) else mmu.spaces == old(mmu.spaces)
    ensures !ok ==> longer == run && Mirrors(mmu, old(StateOf(k)))
  {
    hide *;
    KernelState(k);
    ghost var from := StateOf(k);
    var ps := k.procs[..];
    ok, longer := PerformInRun(k, op, run, origin);
    if ok {
      KernelState(k);
      PagesFollow(mmu, op, ps, from, StateOf(k));
    }
  }

  // ---------------------------------------------------------------- loading

  /** Memory when the load of a program has come to a halt: it does not fit, and all else is as before. */
  ghost predicate LoadHalted(mmu: Mmu, s: State, pid: int, program: Program)
    reads mmu, mmu.table
  {
    && OthersHave(mmu, pid, s.user) && OutOfFrames(mmu, pid, program)
    && 0 <= s.c < |s.ps| && mmu.currVmPid == s.ps[s.c].pid
  }

  /** A new process has its pages, with a call on the system call page that is left over from before. */
  ghost predicate HasPages(mmu: Mmu, s: State, pid: int, call: Syscall)
    reads mmu
  {
    && CallsIn(mmu.spaces) == s.user[pid := call] && OnlyOf(mmu.spaces, s.user[pid := call])
    && 0 <= s.c < |s.ps| && mmu.currVmPid == s.ps[s.c].pid
  }

  /** A process that has not been ready is not the running one, and has no pages. */
  lemma NewToMemory(mmu: Mmu, s: State, pid: int)
    requires Mirrors(mmu, s) && StateOk(s) && Unready(s, pid)
    ensures pid > 0 && pid != mmu.currVmPid && pid !in s.user
    ensures CallsIn(mmu.spaces) == s.user && OnlyOf(mmu.spaces, s.user)
    ensures 0 <= s.c < |s.ps| && mmu.currVmPid == s.ps[s.c].pid
  {
  }

  lemma LoadedOrHalted(mmu: Mmu, s: State, pid: int, program: Program, ok: bool, call: Syscall)
    requires 0 <= s.c < |s.ps| && mmu.currVmPid == s.ps[s.c].pid && OthersHave(mmu, pid, s.user)
    requires if ok then CallsIn(mmu.spaces) == s.user[pid := call] && OnlyOf(mmu.spaces, s.user[pid := call])
             else OutOfFrames(mmu, pid, program)
    ensures if ok then HasPages(mmu, s, pid, call) else LoadHalted(mmu, s, pid, program)
  {
  }

  method LoadNewProcess(mmu: Mmu, pid: int, program: Program, ghost s: State) returns (ok: bool, call: Syscall)
    requires mmu.Valid() && Mirrors(mmu, s) && ProgramOk(program) && StateOk(s) && Unready(s, pid)
    modifies mmu`spaces, mmu`frameOf, mmu.mem, mmu.table
    ensures mmu.Valid() && Loose(mmu) == old(Loose(mmu))
    ensures ok <==> ElfLoad.FramesNeeded(program.phs) + 4 <= ElfLoad.Unused(old(mmu.table[..]))
    ensures if ok then HasPages(mmu, s, pid, call) else LoadHalted(mmu, s, pid, program)
    ensures if ok then IsLoaded(program, pid, old(mmu.spaces), mmu.spaces)
            else Without(mmu.spaces, pid) == old(mmu.spaces)
  {
    hide *;
    NewToMemory(mmu, s, pid);
    ok, call := LoadProgram(mmu, pid, program, s.user);
    LoadedOrHalted(mmu, s, pid, program, ok, call);
  }

  /** proc_set_ready as the next step of a run. */
  method ReadyInRun(k: Kernel, pid: int, program: Program, call: Syscall, ghost run: seq<Step>, ghost origin: State)
      returns (ghost longer: seq<Step>)
    requires k.Valid() && Fits(k.procs[..]) && Unready(StateOf(k), pid) && RunTo(run, origin, StateOf(k))
    modifies k.procs, k`user
    ensures k.Valid() && RunTo(longer, origin, StateOf(k)) && OneMore(run, longer, Loads(pid, program))
    ensures OpInMemory(old(StateOf(k)), MakeReady(pid, call), StateOf(k)) && Fits(k.procs[..])
  {
    ghost var step := ManageReady(k, pid, call);
    RunLonger(run, origin, step, Loads(pid, program));
    longer := run + [step];
    StepInMemory(step.from, step.op, step.to);
    OpFits(step.from, step.op, step.to);
  }

  lemma ReadyMirrored(mmu: Mmu, s: State, pid: int, call: Syscall, s': State)
    requires HasPages(mmu, s, pid, call) && OpInMemory(s, MakeReady(pid, call), s')
    ensures Mirrors(mmu, s')
  {
  }

  /** elf_load and proc_set_ready: whatever the loader leaves on the page is what the kernel's model has for the new
      process. */
  method LoadOnPages(k: Kernel, mmu: Mmu, pid: int, program: Program, ghost run: seq<Step>, ghost origin: State)
      returns (ok: bool, ghost longer: seq<Step>)
    requires k.Valid() && mmu.Valid() && Mirrors(mmu, StateOf(k)) && Fits(k.procs[..])
    requires ProgramOk(program) && Unready(StateOf(k), pid) && RunTo(run, origin, StateOf(k))
    modifies k.procs, k`user, mmu`spaces, mmu`frameOf, mmu.mem, mmu.table
    ensures mmu.Valid() && Loose(mmu) == old(Loose(mmu))
    ensures ok <==> ElfLoad.FramesNeeded(program.phs) + 4 <= ElfLoad.Unused(old(mmu.table[..]))
    ensures ok ==> k.Valid() && RunTo(longer, origin, StateOf(k)) && OneMore(run, longer, Loads(pid, program))
    ensures ok ==> Mirrors(mmu, StateOf(k)) && Fits(k.procs[..])
    ensures if ok then IsLoaded(program, pid, old(mmu.spaces), mmu.spaces)
            else Without(mmu.spaces, pid) == old(mmu.spaces)
    ensures !ok ==> longer == run && LoadHalted(mmu, old(StateOf(k)), pid, program)
  {
    hide *;
    KernelState(k);
    ghost var from := StateOf(k);
    longer := run;
    var call;
    ok, call := LoadNewProcess(mmu, pid, program, from);
    if ok {
      longer := ReadyInRun(k, pid, program, call, run, origin);
      ReadyMirrored(mmu, from, pid, call, StateOf(k));
    }
  }

  // ---------------------------------------------------------------- the machine at work

  /** What an event does to the memory of the processes: an entry changes nothing but system calls, an operation on the
      process table leaves the pages of the processes that go on, and a load adds those of the new process. */
  ghost predicate Moves(spaces: Spaces, event: Event, user: UserCalls, spaces': Spaces) {
    match event
    case Happens(x) => if x.Entering? then SameButCalls(spaces, spaces') else Kept(spaces, user, spaces')
    case Loads(pid, program) => IsLoaded(program, pid, spaces, spaces')
  }

  /** Memory where the event has stopped the kernel in state s: an entry halts it when the arguments have been written,
      a load when the frames have run out, and what other pages there were are as they were. */
  ghost predicate StoppedBy(mmu: Mmu, s: State, spaces: Spaces, event: Event)
    reads mmu, mmu.table
  {
    && |s.ps| == MAX_NPROCESS + 1 && 0 <= s.c < |s.ps|
    && match event
       case Happens(x) =>
         && HaltsOn(s, x)
         && if x.Entering? then Presented(mmu, s, x.call) && SameButCalls(spaces, mmu.spaces)
            else Untouched(mmu, s, spaces)
       case Loads(pid, program) =>
         if Unready(s, pid) then LoadHalted(mmu, s, pid, program) && Without(mmu.spaces, pid) == spaces
         else Untouched(mmu, s, spaces)
  }

  ghost predicate Untouched(mmu: Mmu, s: State, spaces: Spaces)
    reads mmu
  {
    Mirrors(mmu, s) && mmu.spaces == spaces
  }

  /** One event, on the kernel and in memory. */
  method Advance(k: Kernel, mmu: Mmu, event: Event, ghost run: seq<Step>, ghost origin: State)
      returns (ok: bool, ghost longer: seq<Step>)
    requires k.Valid() && mmu.Valid() && Mirrors(mmu, StateOf(k)) && Fits(k.procs[..])
    requires EventOk(event) && Int32(k.lastPid + 1) && RunTo(run, origin, StateOf(k))
    modifies k, k.procs, mmu, mmu.mem, mmu.table
    ensures mmu.Valid() && Loose(mmu) <= old(Loose(mmu))
    ensures ok <==> !Stops(old(StateOf(k)), event, old(ElfLoad.Unused(mmu.table[..])))
    ensures ok ==> k.Valid() && RunTo(longer, origin, StateOf(k)) && OneMore(run, longer, event)
    ensures ok ==> Mirrors(mmu, StateOf(k)) && Fits(k.procs[..])
    ensures ok ==> old(k.lastPid) <= k.lastPid <= old(k.lastPid) + 1
    ensures ok ==> Moves(old(mmu.spaces), event, k.user, mmu.spaces)
    ensures !ok ==> longer == run && StoppedBy(mmu, old(StateOf(k)), old(mmu.spaces), event)
  {
    hide k.Valid, mmu.Valid, StateOk, Fits, RunTo, OneMore, Mirrors, HaltsOn, Unready, Loose, Presented, SameButCalls,
         Kept, ElfLoad.FramesNeeded, ElfLoad.Unused, LoadHalted, IsLoaded, Without, CallsIn, ProgramOk;
    KernelState(k);
    ok, longer := false, run;
    match event {
      case Happens(x) =>
        if x.Entering? {
          ok, longer := EnterOnPages(k, mmu, x, run, origin);
        } else {
          ok, longer := ManageOnPages(k, mmu, x.op, run, origin);
        }
      case Loads(pid, program) =>
        if Unready(State(k.procs[..], k.user, k.currIdx, k.lastPid, k.lastReset), pid) {
          ok, longer := LoadOnPages(k, mmu, pid, program, run, origin);
        }
    }
  }

  predicate AllHandled(run: seq<Step>, events: seq<Event>) {
    |run| <= |events| && forall m {:trigger run[m]} :: 0 <= m < |run| ==> Handles(run[m], events[m])
  }

  lemma HandledNext(run: seq<Step>, longer: seq<Step>, events: seq<Event>)
    requires AllHandled(run, events) && |run| < |events| && OneMore(run, longer, events[|run|])
    ensures AllHandled(longer, events) && |longer| == |run| + 1
  {
    assert forall m :: 0 <= m < |run| ==> longer[m] == run[m];
  }

  /** From one memory to the next: the event moves it, and the system calls on the pages are those that the kernel's
      model has after the step, with no pages of any other process. */
  ghost predicate Follows(spaces: Spaces, event: Event, step: Step, spaces': Spaces) {
    && Moves(spaces, event, After(step).user, spaces')
    && CallsIn(spaces') == After(step).user && OnlyOf(spaces', After(step).user)
  }

  /** The memories between the steps of a run. */
  ghost predicate AllFollow(views: seq<Spaces>, events: seq<Event>, run: seq<Step>) {
    && |views| == |run| + 1 <= |events| + 1
    && forall m, j {:trigger Follows(views[m], events[m], run[m], views[j])} :: 0 <= m < |run| && j == m + 1 ==>
         Follows(views[m], events[m], run[m], views[j])
  }

  lemma NoStep(origin: State, spaces: Spaces, events: seq<Event>)
    ensures RunTo([], origin, origin) && AllHandled([], events) && AllFollow([spaces], events, [])
  {
  }

  lemma FollowNext(views: seq<Spaces>, events: seq<Event>, run: seq<Step>, longer: seq<Step>, spaces: Spaces)
    requires AllFollow(views, events, run) && |run| < |events| && OneMore(run, longer, events[|run|])
    requires Follows(views[|run|], events[|run|], longer[|run|], spaces)
    ensures AllFollow(views + [spaces], events, longer)
  {
    hide Follows, Moves;
    var more := views + [spaces];
    forall m, j | 0 <= m < |longer| && j == m + 1
      ensures Follows(more[m], events[m], longer[m], more[j])
    {
      if m < |run| {
        assert longer[m] == run[m] && Follows(views[m], events[m], run[m], views[j]);
      }
    }
  }

  /** The last step of the run has led to the present memory. */
  lemma LastFollows(mmu: Mmu, spaces: Spaces, event: Event, run: seq<Step>, longer: seq<Step>, origin: State, to: State)
    requires RunTo(longer, origin, to) && OneMore(run, longer, event)
    requires Mirrors(mmu, to) && Moves(spaces, event, to.user, mmu.spaces)
    ensures |longer| == |run| + 1 && Follows(spaces, event, longer[|run|], mmu.spaces)
  {
  }

  lemma RunIs(run: seq<Step>, origin: State, to: State)
    requires RunTo(run, origin, to)
    ensures IsKernelRun(run) && Leads(run, origin, to) && StateAt(run, origin, |run|) == to
  {
  }

  lemma PidFits(pid: int)
    requires 0 <= pid < 0x8000_0000
    ensures Int32(pid)
  {
  }

  /** Where the machine has come to, by that run and through those memories. */
  ghost predicate CameTo(mmu: Mmu, run: seq<Step>, origin: State, views: seq<Spaces>, events: seq<Event>, n: nat)
    reads mmu, mmu.table
  {
    && n == |run| <= |events| && IsKernelRun(run) && AllHandled(run, events) && AllFollow(views, events, run)
    && if n == |events| then Mirrors(mmu, StateAt(run, origin, n)) && mmu.spaces == views[n]
       else StoppedBy(mmu, StateAt(run, origin, n), views[n], events[n])
  }

  lemma ComesTo(mmu: Mmu, run: seq<Step>, origin: State, views: seq<Spaces>, events: seq<Event>, to: State)
    requires RunTo(run, origin, to) && AllHandled(run, events) && AllFollow(views, events, run)
    requires if |run| == |events| then Mirrors(mmu, to) && mmu.spaces == views[|run|]
             else StoppedBy(mmu, to, views[|run|], events[|run|])
    ensures CameTo(mmu, run, origin, views, events, |run|)
  {
  }

  /** Drives the kernel and memory until an event stops them.  What happens up to there is a run of the kernel, and at
      every step the pages of the processes hold what the kernel's model has for them, with no page for any other
      process, and nothing else on any page changes.  It stops where the kernel halts, where the system server does not
      ask for such a thing, or where a program needs more frames than there are; no frame is lost on the way. */
  method Drive(k: Kernel, mmu: Mmu, events: seq<Event>)
      returns (n: nat, ghost run: seq<Step>, ghost views: seq<Spaces>)
    requires k.Valid() && mmu.Valid() && Mirrors(mmu, StateOf(k)) && Fits(k.procs[..])
    requires 0 <= k.lastPid && k.lastPid + |events| < 0x8000_0000
    requires forall m :: 0 <= m < |events| ==> EventOk(events[m])
    modifies k, k.procs, mmu, mmu.mem, mmu.table
    ensures CameTo(mmu, run, old(StateOf(k)), views, events, n)
    ensures |views| > 0 && views[0] == old(mmu.spaces)
    ensures mmu.Valid() && Loose(mmu) <= old(Loose(mmu))
    ensures n == |events| ==> k.Valid() && Leads(run, old(StateOf(k)), StateOf(k))
  {
    hide *;
    n, run, views := 0, [], [mmu.spaces];
    NoStep(StateOf(k), mmu.spaces, events);
    while n < |events|
      invariant n <= |events| && |run| == n && k.Valid() && mmu.Valid() && Mirrors(mmu, StateOf(k)) && Fits(k.procs[..])
      invariant RunTo(run, old(StateOf(k)), StateOf(k)) && AllHandled(run, events) && AllFollow(views, events, run)
      invariant |views| == n + 1 && views[0] == old(mmu.spaces) && mmu.spaces == views[n]
      invariant Loose(mmu) <= old(Loose(mmu)) && old(k.lastPid) <= k.lastPid <= old(k.lastPid) + n
    {
      ghost var before, from := run, StateOf(k);
      PidFits(k.lastPid + 1);
      var ok;
      ok, run := Advance(k, mmu, events[n], run, old(StateOf(k)));
      if !ok {
        ComesTo(mmu, run, old(StateOf(k)), views, events, from);
        return;
      }
      KernelState(k);
      LastFollows(mmu, views[n], events[n], before, run, old(StateOf(k)), StateOf(k));
      FollowNext(views, events, before, run, mmu.spaces);
      HandledNext(before, run, events);
      views := views + [mmu.spaces];
      n := n + 1;
    }
    RunIs(run, old(StateOf(k)), StateOf(k));
    ComesTo(mmu, run, old(StateOf(k)), views, events, StateOf(k));
  }

  // ---------------------------------------------------------------- boot

  lemma AllFree(table: seq<PageInfo>)
    requires |table| == APPS_PAGES_CNT
    requires forall i :: 0 <= i < APPS_PAGES_CNT ==> table[i] == PageInfo(false, 0, 0)
    ensures ElfLoad.Unused(table) == APPS_PAGES_CNT && ElfLoad.Unplaced(table) == {}
  {
    BelowSize(APPS_PAGES_CNT);
    assert ElfLoad.UnusedFrames(table) == Below(APPS_PAGES_CNT);
  }

  method NewMemory(memory: array<Page>) returns (mmu: Mmu)
    requires memory.Length == PAGES_IN_MEMORY
    ensures fresh(mmu) && fresh(mmu.table) && mmu.mem == memory && mmu.Valid() && mmu.currVmPid == -1
    ensures mmu.spaces == map[] && Loose(mmu) == {} && ElfLoad.Unused(mmu.table[..]) == 512
  {
    mmu := new Mmu(memory);
    AllFree(mmu.table[..]);
  }

  lemma NoPages(spaces: Spaces, user: UserCalls)
    requires spaces == map[] && user == map[]
    ensures CallsIn(spaces) == user && OnlyOf(spaces, user)
  {
  }

  lemma FirstCall(call: Syscall, user: UserCalls)
    requires user == map[]
    ensures user[1 := call] == map[1 := call]
  {
  }

  method LoadFirst(mmu: Mmu, program: Program, ghost user: UserCalls) returns (ok: bool, call: Syscall)
    requires mmu.Valid() && mmu.currVmPid == -1 && CallsIn(mmu.spaces) == user && OnlyOf(mmu.spaces, user)
    requires 1 !in user && ProgramOk(program)
    modifies mmu`currVmPid, mmu`spaces, mmu`frameOf, mmu.mem, mmu.table
    ensures ok <==> ElfLoad.FramesNeeded(program.phs) + 4 <= ElfLoad.Unused(old(mmu.table[..]))
    ensures ok ==> mmu.Valid() && mmu.currVmPid == 1
    ensures ok ==> CallsIn(mmu.spaces) == user[1 := call] && OnlyOf(mmu.spaces, user[1 := call])
    ensures Loose(mmu) == old(Loose(mmu)) && (ok ==> IsLoaded(program, 1, old(mmu.spaces), mmu.spaces))
  {
    hide *;
    ok, call := LoadProgram(mmu, 1, program, user);
    if ok {
      mmu.Switch(1);
    }
  }

  method NewKernel(call: Syscall, now: int) returns (k: Kernel)
    ensures fresh(k) && fresh(k.procs) && k.Valid() && Fits(k.procs[..]) && k.lastPid == 1
    ensures StateOf(k).user == map[1 := call] && StateOf(k).c == 1 && k.procs[1].pid == 1
  {
    k := new Kernel(call, now);
  }

  lemma FirstMirrored(mmu: Mmu, call: Syscall, s: State)
    requires CallsIn(mmu.spaces) == map[1 := call] && OnlyOf(mmu.spaces, map[1 := call]) && mmu.currVmPid == 1
    requires |s.ps| > 1 && s.ps[1].pid == 1 && s.c == 1 && s.user == map[1 := call]
    ensures Mirrors(mmu, s)
  {
  }

  /** grass_entry: the first process is loaded, takes the first slot, and runs with its pages in the window. */
  method Boot(memory: array<Page>, program: Program, now: int) returns (ok: bool, k: Kernel, mmu: Mmu)
    requires memory.Length == PAGES_IN_MEMORY && ProgramOk(program)
    modifies memory
    ensures ok <==> ElfLoad.FramesNeeded(program.phs) + 4 <= 512
    ensures fresh(k) && fresh(k.procs) && fresh(mmu) && fresh(mmu.table) && mmu.mem == memory
    ensures ok ==> k.Valid() && mmu.Valid() && Mirrors(mmu, StateOf(k)) && Fits(k.procs[..])
    ensures ok ==> k.lastPid == 1 && Loose(mmu) == {} && IsLoaded(program, 1, map[], mmu.spaces)
  {
    hide *;
    mmu := NewMemory(memory);
    ghost var user := map[];
    NoPages(mmu.spaces, user);
    var call;
    ok, call := LoadFirst(mmu, program, user);
    FirstCall(call, user);
    k := NewKernel(call, now);
    KernelState(k);
    if ok {
      FirstMirrored(mmu, call, StateOf(k));
    }
  }

  /** Every frame is unused, belongs to one page of a process, or was in use without a page from the start. */
  lemma FramesAddUp(mmu: Mmu)
    requires mmu.Valid()
    ensures ElfLoad.Unused(mmu.table[..]) + |Loose(mmu)| + |mmu.spaces| == 512
  {
    ElfLoad.FramesAccounted(mmu.table[..], mmu.frameOf);
    assert |mmu.frameOf| == |mmu.frameOf.Keys| == |mmu.spaces.Keys| == |mmu.spaces|;
  }

  /** From boot on, whatever happens: if the first program fits, then the machine goes on as Drive says, and every frame
      is unused or belongs to one page of a process. */
  method BootAndDrive(memory: array<Page>, program: Program, now: int, events: seq<Event>)
      returns (ok: bool, n: nat, k: Kernel, mmu: Mmu, ghost origin: State, ghost run: seq<Step>,
               ghost views: seq<Spaces>)
    requires memory.Length == PAGES_IN_MEMORY && ProgramOk(program)
    requires 1 + |events| < 0x8000_0000 && forall m :: 0 <= m < |events| ==> EventOk(events[m])
    modifies memory
    ensures ok <==> ElfLoad.FramesNeeded(program.phs) + 4 <= 512
    ensures ok ==> CameTo(mmu, run, origin, views, events, n)
    ensures ok ==> |views| > 0 && IsLoaded(program, 1, map[], views[0])
    ensures ok ==> mmu.Valid() && ElfLoad.Unused(mmu.table[..]) + |mmu.spaces| == 512
    ensures ok && n == |events| ==> k.Valid() && Leads(run, origin, StateOf(k))
  {
    hide *;
    n, run, views := 0, [], [];
    ok, k, mmu := Boot(memory, program, now);
    origin := StateOf(k);
    if ok {
      n, run, views := Drive(k, mmu, events);
      FramesAddUp(mmu);
    }
  }
}
