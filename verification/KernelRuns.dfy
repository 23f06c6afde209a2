/** Runs of the kernel: system calls, timer interrupts, and the processes that come and go in between. */
module KernelRuns {
  import opened Wrappers
  import opened Processes
  import opened Ipc
  import opened Scheduling
  import opened Kernel

  /** Why the kernel is entered. */
  datatype Cause = Call(call: Syscall) | Interrupt

  /** One completed entry into the kernel: the tables and user memories before and after. */
  datatype Entry = Entry(before: Table, user0: UserCalls, c: int, cause: Cause, t: Tick, phase: Phase,
                         ps: Table, user: UserCalls, next: int)

  function AtYield(e: Entry): Table
    requires 0 <= e.c < |e.before|
  {
    match e.cause
    case Call(call) => Calling(e.before, e.c, call)
    case Interrupt => Interrupted(e.before, e.c)
  }

  /** What Ecall and Timer promise of an entry that does not halt. */
  ghost predicate IsEntry(e: Entry) {
    && TableOk(e.before, e.user0) && Quiescent(e.before) && 0 < e.c < MAX_NPROCESS && e.before[e.c].status == Running
    && (e.cause.Call? ==> e.cause.call.kind == SYS_RECV || e.cause.call.kind == SYS_SEND)
    && (e.cause.Call? ==> e.before[e.c].pid in e.user0 && e.user0[e.before[e.c].pid] == e.cause.call)
    && (e.cause.Interrupt? ==> e.phase.Open?)
    && Yielded(AtYield(e), e.user0, e.c, e.t, e.phase, e.ps, e.user, e.next)
  }

  lemma AtYieldOk(e: Entry)
    requires IsEntry(e)
    ensures TableOk(AtYield(e), e.user0)
  {
    if e.cause.Call? {
      CallingOk(e.before, e.user0, e.c, e.cause.call);
    } else {
      InterruptedOk(e.before, e.user0, e.c);
    }
  }

  // ---------------------------------------------------------------- steps

  /** The kernel between two steps: the table, the user memories, the current slot, the last pid given out, and the time
      from which the period of the next reset of all levels counts (0 before the first entry). */
  datatype State = State(ps: Table, user: UserCalls, c: int, lastPid: int, lastReset: int)

  /** What the running process may ask of the process table: proc_alloc, proc_set_ready (after loading, with whatever is
      on the system call page then), and proc_free of one process or of all user processes. */
  datatype Op = Allocate(now: int) | MakeReady(pid: int, call: Syscall) | Release(pid: int) | ReleaseAll

  /** A step of the kernel: an entry, or an operation on the process table. */
  datatype Step = Entered(from: State, e: Entry) | Managed(from: State, op: Op, to: State)

  function After(step: Step): State {
    match step
    case Entered(from, e) => State(e.ps, e.user, e.next, from.lastPid, NextReset(e.t))
    case Managed(_, _, to) => to
  }

  ghost predicate StateOk(s: State) {
    && TableOk(s.ps, s.user) && Quiescent(s.ps)
    && 0 < s.c < MAX_NPROCESS && Current(s.ps, s.c, s.lastPid)
  }

  /** The user memories when slot c enters the kernel: for a system call, it has written the arguments to its own. */
  function Written(from: State, cause: Cause): UserCalls
    requires 0 <= from.c < |from.ps|
  {
    match cause
    case Call(call) => from.user[from.ps[from.c].pid := call]
    case Interrupt => from.user
  }

  predicate Begins(e: Entry, from: State) {
    && e.before == from.ps && e.c == from.c && 0 <= from.c < |from.ps| && e.user0 == Written(from, e.cause)
    && e.t.lastReset == from.lastReset
  }

  /** No process with this pid has been ready yet. */
  predicate Unready(s: State, pid: int)
    requires |s.ps| == MAX_NPROCESS + 1
  {
    && pid > 0 && pid !in s.user
    && forall i :: 0 <= i < MAX_NPROCESS && s.ps[i].pid == pid ==> s.ps[i].status == Loading
  }

  /** The system server asks for this: only processes that have just been loaded become ready, and the running process,
      which is not a user process when it asks for all of these to go, does not free itself. */
  predicate Allowed(s: State, op: Op)
    requires |s.ps| == MAX_NPROCESS + 1 && 0 <= s.c < |s.ps|
  {
    match op
    case Allocate(_) => true
    case MakeReady(pid, _) => Unready(s, pid)
    case Release(pid) => pid != GPID_ALL && pid != s.ps[s.c].pid
    case ReleaseAll => s.ps[s.c].pid < GPID_USER_START
  }

  /** What the operation makes of the state. */
  ghost predicate OpDone(s: State, op: Op, s': State)
    requires |s.ps| == MAX_NPROCESS + 1
  {
    match op
    case Allocate(now) => exists i :: Allocated(s, i, now, s')
    case MakeReady(pid, call) => s' == s.(ps := WithStatus(s.ps, pid, Ready), user := s.user[pid := call])
    case Release(pid) =>
      s' == if AnyUser(s.ps) then s.(ps := WithStatus(s.ps, pid, Unused), user := s.user - {pid}) else s
    case ReleaseAll => s' == s.(ps := WithoutUsers(s.ps), user := s.user - UserPids(s.ps, MAX_NPROCESS))
  }

  /** Slot i is taken for a new process. */
  predicate Allocated(s: State, i: int, now: int, s': State)
    requires |s.ps| == MAX_NPROCESS + 1
  {
    FirstUnused(s.ps, i) && s' == s.(ps := Occupied(s.ps, i, s.lastPid, now), lastPid := s.lastPid + 1)
  }

  /** So a process that has just been allocated may be made ready, if nothing has had its pid before. */
  lemma FreshMayBeReady(s: State, i: int, now: int, s': State, call: Syscall)
    requires StateOk(s) && Allocated(s, i, now, s') && s.lastPid + 1 !in s.user
    ensures |s'.ps| == MAX_NPROCESS + 1 && 0 <= s'.c < |s'.ps| && Allowed(s', MakeReady(s.lastPid + 1, call))
  {
    forall j | 0 <= j < MAX_NPROCESS && s'.ps[j].pid == s.lastPid + 1
      ensures s'.ps[j].status == Loading
    {
      assert s.ps[j].pid <= s.lastPid;
    }
  }

  /** And every other live process may be freed, by any process; the system processes, with pids below 5, may free all
      users at once. */
  lemma OthersMayBeFreed(s: State, i: int)
    requires StateOk(s) && 0 <= i <= MAX_NPROCESS && s.ps[i].status != Unused && i != s.c
    ensures Allowed(s, Release(s.ps[i].pid)) && (Allowed(s, ReleaseAll) <==> s.ps[s.c].pid < 5)
  {
    assert ProcessOk(s.ps[i], s.user);
  }

  ghost predicate IsStep(step: Step) {
    && StateOk(step.from)
    && match step
       case Entered(from, e) => IsEntry(e) && Begins(e, from)
       case Managed(from, op, to) => Allowed(from, op) && OpDone(from, op, to)
  }

  ghost predicate AllSteps(run: seq<Step>) {
    forall k {:trigger IsStep(run[k])} :: 0 <= k < |run| ==> IsStep(run[k])
  }

  predicate NextStep(step: Step, step': Step) {
    step'.from == After(step)
  }

  predicate Chained(run: seq<Step>) {
    forall k, m {:trigger NextStep(run[k], run[m])} :: 0 <= k < |run| && m == k + 1 < |run| ==>
      NextStep(run[k], run[m])
  }

  /** A run of the kernel: each step begins where the one before has ended.  In between, only the running process writes
      to its system call page. */
  ghost predicate IsKernelRun(run: seq<Step>) {
    AllSteps(run) && Chained(run)
  }

  /** The state after the first n steps of a run from a given state. */
  function StateAt(run: seq<Step>, from: State, n: nat): State
    requires n <= |run|
  {
    if n == 0 then from else After(run[n - 1])
  }

  /** Operation op frees the process in slot j. */
  ghost predicate Frees(s: State, op: Op, j: int)
    requires |s.ps| == MAX_NPROCESS + 1 && 0 <= j < MAX_NPROCESS
  {
    match op
    case Release(pid) => AnyUser(s.ps) && s.ps[j].pid == pid && s.ps[j].status != Unused
    case ReleaseAll => LiveUser(s.ps[j])
    case _ => false
  }

  ghost predicate FreesSlot(step: Step, j: int) {
    step.Managed? && |step.from.ps| == MAX_NPROCESS + 1 && 0 <= j < MAX_NPROCESS && Frees(step.from, step.op, j)
  }

  /** Only the operations that free a process touch a blocked one, or one that can run, whatever slot it is in. */
  lemma OpKeepsSlot(s: State, op: Op, s': State, j: int)
    requires StateOk(s) && Allowed(s, op) && OpDone(s, op, s') && 0 <= j < MAX_NPROCESS
    requires s.ps[j].status != Unused && s.ps[j].status != Loading && !Frees(s, op, j)
    ensures |s'.ps| == MAX_NPROCESS + 1 && s'.ps[j] == s.ps[j] && s'.c == s.c
  {
    match op
    case Allocate(now) =>
      var i :| Allocated(s, i, now, s');
    case MakeReady(pid, call) =>
    case Release(pid) =>
    case ReleaseAll =>
  }

  /** What every step keeps. */
  lemma StepKeepsOk(step: Step)
    requires IsStep(step)
    ensures StateOk(After(step))
  {
    match step
    case Entered(from, e) => EntryKeepsOk(from, e);
    case Managed(from, op, to) => OpKeepsOk(from, op, to);
  }

  lemma EntryKeepsOk(from: State, e: Entry)
    requires StateOk(from) && IsEntry(e) && Begins(e, from)
    ensures StateOk(State(e.ps, e.user, e.next, from.lastPid, NextReset(e.t)))
  {
    YieldedRunning(AtYield(e), e.user0, e.c, e.t, e.phase, e.ps, e.user, e.next, from.lastPid);
  }

  lemma OpKeepsOk(s: State, op: Op, s': State)
    requires StateOk(s) && Allowed(s, op) && OpDone(s, op, s')
    ensures StateOk(s')
  {
    match op
    case Allocate(now) =>
      var i :| Allocated(s, i, now, s');
      OccupiedOk(s.ps, s'.ps, s.user, s.c, i, s.lastPid, now);
    case MakeReady(pid, call) =>
      StatusOk(s, pid, Ready, s'.user);
    case Release(pid) =>
      if AnyUser(s.ps) {
        StatusOk(s, pid, Unused, s'.user);
      }
    case ReleaseAll =>
      WithoutUsersOk(s.ps, s.user);
  }

  lemma StatusOk(s: State, pid: int, status: Status, user': UserCalls)
    requires StateOk(s) && (status == Ready || status == Unused) && pid != s.ps[s.c].pid
    requires status == Ready ==> forall i :: 0 <= i < MAX_NPROCESS && s.ps[i].pid == pid ==> s.ps[i].status == Loading
    requires status == Ready ==> pid > 0 && pid in user' && forall p :: p in s.user ==> p in user'
    requires status == Unused ==> user' == s.user - {pid}
    ensures StateOk(s.(ps := WithStatus(s.ps, pid, status), user := user'))
  {
    var ps' := WithStatus(s.ps, pid, status);
    forall i | 0 <= i < |ps'|
      ensures ProcessOk(ps'[i], user')
    {
      assert ProcessOk(s.ps[i], s.user);
    }
    TableChanged(s.ps, ps', s.user, user');
  }

  // ---------------------------------------------------------------- the kernel at work

  /** What happens next: a system call whose arguments the running process writes to its memory, a timer interrupt, or
      an operation on the process table. */
  datatype Input =
    | Entering(call: Option<Syscall>, now: int, nowReset: int, ttyInput: bool)
    | Managing(op: Op)

  /** Input x halts the kernel in state s, or is nothing that the system server asks for. */
  ghost predicate HaltsOn(s: State, x: Input)
    requires |s.ps| == MAX_NPROCESS + 1 && 0 <= s.c < |s.ps|
  {
    match x
    case Entering(None, _, _, _) => exists i :: Orphan(s.ps, i)
    case Entering(Some(call), _, _, _) => call.kind !in {SYS_RECV, SYS_SEND} || Halts(Calling(s.ps, s.c, call))
    case Managing(op) =>
      !Allowed(s, op) || (op.Allocate? && forall i :: 1 <= i <= MAX_NPROCESS ==> s.ps[i].status != Unused)
  }

  ghost function StateOf(k: Kernel): State
    reads k, k.procs
  {
    State(k.procs[..], k.user, k.currIdx, k.lastPid, k.lastReset)
  }

  /** Step step is caused by input x. */
  predicate Answers(step: Step, x: Input) {
    match x
    case Entering(call, now, nowReset, ttyInput) =>
      && step.Entered? && step.e.cause == (if call.Some? then Call(call.value) else Interrupt)
      && step.e.t.now == now && step.e.t.nowReset == nowReset && step.e.t.ttyInput == ttyInput
    case Managing(op) => step.Managed? && step.op == op
  }

  /** A timer interrupt as an entry. */
  method EnterByTimer(k: Kernel, now: int, nowReset: int, ttyInput: bool) returns (ok: bool, ghost e: Entry)
    requires k.Valid()
    modifies k, k.procs
    ensures ok <==> !exists i :: Orphan(old(k.procs[..]), i)
    ensures ok ==> && k.Valid() && k.lastPid == old(k.lastPid) && IsEntry(e) && Begins(e, old(StateOf(k)))
                   && e.ps == k.procs[..] && e.user == k.user && e.next == k.currIdx && e.cause == Interrupt
                   && e.t == Tick(now, nowReset, ttyInput, old(k.lastReset)) && k.lastReset == NextReset(e.t)
  {
    ghost var before, user0, c := k.procs[..], k.user, k.currIdx;
    ghost var t := Tick(now, nowReset, ttyInput, k.lastReset);
    ok := k.Timer(now, nowReset, ttyInput);
    e := Entry(before, user0, c, Interrupt, t, Open, k.procs[..], k.user, k.currIdx);
  }

  /** A system call as an entry; any other than send and receive halts the kernel. */
  method EnterByCall(k: Kernel, call: Syscall, now: int, nowReset: int, ttyInput: bool)
      returns (ok: bool, ghost e: Entry)
    requires k.Valid()
    modifies k, k.procs
    ensures ok <==> call.kind in {SYS_RECV, SYS_SEND} && !Halts(Calling(old(k.procs[..]), old(k.currIdx), call))
    ensures ok ==> && k.Valid() && k.lastPid == old(k.lastPid) && IsEntry(e) && Begins(e, old(StateOf(k)))
                   && e.ps == k.procs[..] && e.user == k.user && e.next == k.currIdx && e.cause == Call(call)
                   && e.t == Tick(now, nowReset, ttyInput, old(k.lastReset)) && k.lastReset == NextReset(e.t)
  {
    ghost var before, c := k.procs[..], k.currIdx;
    ghost var t := Tick(now, nowReset, ttyInput, k.lastReset);
    k.user := k.user[k.procs[k.currIdx].pid := call];
    MemoryWritten(before, old(k.user), k.user);
    ghost var user0, phase := k.user, Open;
    ok := call.kind == SYS_RECV || call.kind == SYS_SEND;
    if ok {
      ok, phase := k.Ecall(now, nowReset, ttyInput);
    }
    e := Entry(before, user0, c, Call(call), t, phase, k.procs[..], k.user, k.currIdx);
  }

  lemma MemoryWritten(ps: Table, user: UserCalls, user': UserCalls)
    requires TableOk(ps, user) && forall pid :: pid in user ==> pid in user'
    ensures TableOk(ps, user')
  {
    forall i | 0 <= i < |ps|
      ensures ProcessOk(ps[i], user')
    {
      assert ProcessOk(ps[i], user);
    }
  }

  /** An entry into the kernel as a step. */
  method Enter(k: Kernel, x: Input) returns (ok: bool, ghost step: Step)
    requires k.Valid() && x.Entering?
    modifies k, k.procs
    ensures ok <==> !HaltsOn(old(StateOf(k)), x)
    ensures ok ==> && k.Valid() && IsStep(step) && step.from == old(StateOf(k)) && After(step) == StateOf(k)
                   && Answers(step, x)
  {
    ghost var from := StateOf(k);
    ghost var e;
    if x.call.None? {
      ok, e := EnterByTimer(k, x.now, x.nowReset, x.ttyInput);
    } else {
      ok, e := EnterByCall(k, x.call.value, x.now, x.nowReset, x.ttyInput);
    }
    step := Entered(from, e);
  }

  method AllocateSlot(k: Kernel, now: int) returns (ok: bool)
    requires k.Valid()
    modifies k, k.procs
    ensures ok <==> exists i :: 1 <= i <= MAX_NPROCESS && old(k.procs[i]).status == Unused
    ensures ok ==> k.Valid() && exists i :: Allocated(old(StateOf(k)), i, now, StateOf(k))
  {
    ghost var from := StateOf(k);
    var pid := k.Alloc(now);
    ok := pid.Some?;
    if ok {
      ghost var i :| FirstUnused(from.ps, i) && k.procs[..] == Occupied(from.ps, i, from.lastPid, now);
      assert Allocated(from, i, now, StateOf(k));
    }
  }

  /** proc_set_ready as a step. */
  method ManageReady(k: Kernel, pid: int, call: Syscall) returns (ghost step: Step)
    requires k.Valid() && Unready(StateOf(k), pid)
    modifies k.procs, k`user
    ensures k.Valid() && IsStep(step) && step == Managed(old(StateOf(k)), MakeReady(pid, call), StateOf(k))
  {
    ghost var from := StateOf(k);
    k.SetReady(pid, call);
    step := Managed(from, MakeReady(pid, call), StateOf(k));
  }

  /** proc_free of one process as a step. */
  method ManageRelease(k: Kernel, pid: int) returns (ghost step: Step)
    requires k.Valid() && Allowed(StateOf(k), Release(pid))
    modifies k.procs, k`user
    ensures k.Valid() && IsStep(step) && step == Managed(old(StateOf(k)), Release(pid), StateOf(k))
  {
    ghost var from := StateOf(k);
    k.Free(pid);
    step := Managed(from, Release(pid), StateOf(k));
  }

  /** proc_free of all user processes as a step. */
  method ManageReleaseAll(k: Kernel) returns (ghost step: Step)
    requires k.Valid() && Allowed(StateOf(k), ReleaseAll)
    modifies k.procs, k`user
    ensures k.Valid() && IsStep(step) && step == Managed(old(StateOf(k)), ReleaseAll, StateOf(k))
  {
    ghost var from := StateOf(k);
    k.FreeAllUsers();
    step := Managed(from, ReleaseAll, StateOf(k));
  }

  /** proc_alloc as a step. */
  method ManageAllocate(k: Kernel, now: int) returns (ok: bool, ghost step: Step)
    requires k.Valid()
    modifies k, k.procs
    ensures ok <==> exists i :: 1 <= i <= MAX_NPROCESS && old(k.procs[i]).status == Unused
    ensures ok ==> k.Valid() && IsStep(step) && step == Managed(old(StateOf(k)), Allocate(now), StateOf(k))
  {
    ghost var from := StateOf(k);
    ok := AllocateSlot(k, now);
    step := Managed(from, Allocate(now), StateOf(k));
  }

  /** An operation on the process table as a step. */
  method Manage(k: Kernel, op: Op) returns (ok: bool, ghost step: Step)
    requires k.Valid() && Allowed(StateOf(k), op)
    modifies k, k.procs
    ensures ok <==> !HaltsOn(old(StateOf(k)), Managing(op))
    ensures ok ==> k.Valid() && IsStep(step) && step == Managed(old(StateOf(k)), op, StateOf(k))
  {
    ok := true;
    match op {
      case Allocate(now) => ok, step := ManageAllocate(k, now);
      case MakeReady(pid, call) => step := ManageReady(k, pid, call);
      case Release(pid) => step := ManageRelease(k, pid);
      case ReleaseAll => step := ManageReleaseAll(k);
    }
  }

  /** Performs one step; an operation that the system server does not ask for is refused. */
  method Perform(k: Kernel, x: Input) returns (ok: bool, ghost step: Step)
    requires k.Valid()
    modifies k, k.procs
    ensures ok <==> !HaltsOn(old(StateOf(k)), x)
    ensures ok ==> && k.Valid() && IsStep(step) && step.from == old(StateOf(k)) && After(step) == StateOf(k)
                   && Answers(step, x)
  {
    match x {
      case Entering(_, _, _, _) => ok, step := Enter(k, x);
      case Managing(op) =>
        var state := State(k.procs[..], k.user, k.currIdx, k.lastPid, k.lastReset);
        ok := Allowed(state, op);
        if ok {
          ok, step := Manage(k, op);
        } else {
          step := Managed(state, op, state);
        }
    }
  }

  /** The run leads from one state to another. */
  predicate Leads(run: seq<Step>, from: State, to: State) {
    (run != [] ==> run[0].from == from) && to == StateAt(run, from, |run|)
  }

  /** Extends a run by one step, unless the kernel halts. */
  method PerformNext(k: Kernel, x: Input, ghost run: seq<Step>, ghost from: State)
      returns (ok: bool, ghost longer: seq<Step>)
    requires k.Valid() && AllSteps(run) && Chained(run) && Leads(run, from, StateOf(k))
    modifies k, k.procs
    ensures ok <==> !HaltsOn(old(StateOf(k)), x)
    ensures longer == run || (ok && |longer| == |run| + 1 && run == longer[..|run|] && Answers(longer[|run|], x))
    ensures ok ==> k.Valid() && longer != run
    ensures ok ==> Leads(longer, from, StateOf(k))
    ensures AllSteps(longer) && Chained(longer)
  {
    ghost var step;
    longer := run;
    ok, step := Perform(k, x);
    if ok {
      StepsExtended(run, step);
      ChainExtended(run, step);
      longer := run + [step];
    }
  }

  /** The kernel halts on input x in the state that the run has led to. */
  ghost predicate HaltsAfter(run: seq<Step>, from: State, to: State, x: Input) {
    Leads(run, from, to) && |to.ps| == MAX_NPROCESS + 1 && 0 <= to.c < |to.ps| && HaltsOn(to, x)
  }

  predicate AllAnswer(run: seq<Step>, inputs: seq<Input>) {
    |run| <= |inputs| && forall m {:trigger run[m]} :: 0 <= m < |run| ==> Answers(run[m], inputs[m])
  }

  lemma AnswerNext(run: seq<Step>, longer: seq<Step>, inputs: seq<Input>)
    requires AllAnswer(run, inputs) && |run| < |inputs| && |longer| == |run| + 1 && run == longer[..|run|]
    requires Answers(longer[|run|], inputs[|run|])
    ensures AllAnswer(longer, inputs)
  {
    assert forall m :: 0 <= m < |run| ==> longer[m] == run[m];
  }

  /** Drives the kernel until an input halts it: what happens up to there is a run. */
  method Drive(k: Kernel, inputs: seq<Input>) returns (n: nat, ghost run: seq<Step>)
    requires k.Valid()
    modifies k, k.procs
    ensures n <= |inputs| && |run| == n && IsKernelRun(run)
    ensures AllAnswer(run, inputs)
    ensures n == |inputs| ==> k.Valid() && Leads(run, old(StateOf(k)), StateOf(k))
    ensures n < |inputs| ==> exists to :: HaltsAfter(run, old(StateOf(k)), to, inputs[n])
  {
    n, run := 0, [];
    var ok := true;
    while n < |inputs|
      invariant n <= |inputs| && |run| == n && ok && k.Valid()
      invariant AllSteps(run) && Chained(run) && Leads(run, old(StateOf(k)), StateOf(k))
      invariant AllAnswer(run, inputs)
    {
      ghost var to, before := StateOf(k), run;
      ok, run := PerformNext(k, inputs[n], run, old(StateOf(k)));
      if !ok {
        assert HaltsAfter(run, old(StateOf(k)), to, inputs[n]);
        return;
      }
      AnswerNext(before, run, inputs);
      n := n + 1;
    }
  }

  lemma StepsExtended(run: seq<Step>, step: Step)
    requires AllSteps(run) && IsStep(step)
    ensures AllSteps(run + [step])
  {
    var longer := run + [step];
    forall k | 0 <= k < |longer|
      ensures IsStep(longer[k])
    {
      SameStep(if k < |run| then run[k] else step, longer[k]);
    }
  }

  lemma SameStep(step: Step, step': Step)
    requires IsStep(step) && step' == step
    ensures IsStep(step')
  {
  }

  lemma ChainExtended(run: seq<Step>, step: Step)
    requires Chained(run) && (run != [] ==> NextStep(run[|run| - 1], step))
    ensures Chained(run + [step])
  {
    var longer := run + [step];
    forall k, m | 0 <= k < |longer| && m == k + 1 < |longer|
      ensures NextStep(longer[k], longer[m])
    {
      assert longer[k] == run[k];
      if m < |run| {
        assert NextStep(run[k], run[m]);
      }
    }
  }
}
