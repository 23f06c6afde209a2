/** Starting and ending processes (grass/process.c): what proc_alloc and proc_free do when the table is full, or when no
    user process is left. */
module ProcessLife {
  import opened Wrappers
  import opened Processes
  import opened Mlfq
  import opened Ipc
  import opened Scheduling
  import opened Kernel
  import opened KernelRuns

  /** The new process is in the first unused slot i; it is ready there, unless this is the last slot. */
  predicate StartedIn(before: Table, after: Table, pid: int, i: int)
    requires |before| == |after| == MAX_NPROCESS + 1
  {
    && 1 <= i <= MAX_NPROCESS && before[i].status == Unused && (forall j :: 1 <= j < i ==> before[j].status != Unused)
    && (forall j :: 0 <= j <= MAX_NPROCESS && j != i ==> after[j] == before[j])
    && after[i].pid == pid && after[i].status == if i < MAX_NPROCESS then Ready else Loading
  }

  ghost predicate Started(before: Table, after: Table, pid: int)
    requires |before| == |after| == MAX_NPROCESS + 1
  {
    exists i :: StartedIn(before, after, pid, i)
  }

  /** proc_alloc, then proc_set_ready once the loader is done: None if no slot is unused.  The process becomes ready
      exactly if one of the slots 1 to 15 was unused. */
  method Start(k: Kernel, now: int, call: Syscall) returns (pid: Option<int>)
    requires k.Valid()
    modifies k, k.procs
    ensures pid.None? <==> forall i :: 1 <= i <= MAX_NPROCESS ==> old(k.procs[i]).status != Unused
    ensures pid.None? ==> k.procs[..] == old(k.procs[..])
    ensures pid.Some? ==> k.Valid() && k.currIdx == old(k.currIdx) && k.lastPid == pid.value == old(k.lastPid) + 1
    ensures pid.Some? ==> Started(old(k.procs[..]), k.procs[..], pid.value)
    ensures pid.Some? ==>
              ((exists i :: 0 <= i < k.procs.Length && k.procs[i].pid == pid.value && k.procs[i].status == Ready)
               <==> exists i :: 1 <= i < MAX_NPROCESS && old(k.procs[i]).status == Unused)
  {
    hide k.Valid, Occupied, WithStatus, Started;
    ValidPids(k);
    ghost var before := k.procs[..];
    pid := k.Alloc(now);
    if pid.Some? {
      ghost var loaded := k.procs[..];
      OnlyLoading(before, loaded, old(k.lastPid), now);
      k.SetReady(pid.value, call);
      LoadedThenReady(before, loaded, k.procs[..], old(k.lastPid), pid.value, now);
      ReadyExactly(before, k.procs[..], old(k.lastPid), pid.value);
    }
  }

  lemma ValidPids(k: Kernel)
    requires k.Valid()
    ensures k.procs.Length == MAX_NPROCESS + 1 && k.lastPid >= 0
    ensures forall i :: 0 <= i < k.procs.Length ==> k.procs[i].pid <= k.lastPid
  {
  }

  lemma OnlyLoading(before: Table, loaded: Table, lastPid: int, now: int)
    requires |before| == MAX_NPROCESS + 1 && forall i :: 0 <= i < |before| ==> before[i].pid <= lastPid
    requires exists i :: FirstUnused(before, i) && loaded == Occupied(before, i, lastPid, now)
    ensures forall i :: 0 <= i < |loaded| && loaded[i].pid == lastPid + 1 ==> loaded[i].status == Loading
  {
  }

  lemma LoadedThenReady(before: Table, loaded: Table, after: Table, lastPid: int, pid: int, now: int)
    requires |before| == MAX_NPROCESS + 1 && pid == lastPid + 1
    requires forall i :: 0 <= i < |before| ==> before[i].pid <= lastPid
    requires exists i :: FirstUnused(before, i) && loaded == Occupied(before, i, lastPid, now)
    requires after == WithStatus(loaded, pid, Ready)
    ensures Started(before, after, pid)
  {
    var i :| FirstUnused(before, i) && loaded == Occupied(before, i, lastPid, now);
    assert StartedIn(before, after, pid, i);
  }

  lemma ReadyExactly(before: Table, after: Table, lastPid: int, pid: int)
    requires |before| == |after| == MAX_NPROCESS + 1 && pid == lastPid + 1 && Started(before, after, pid)
    requires forall i :: 0 <= i < |before| ==> before[i].pid <= lastPid
    ensures (exists i :: 0 <= i < |after| && after[i].pid == pid && after[i].status == Ready)
            <==> exists i :: 1 <= i < MAX_NPROCESS && before[i].status == Unused
  {
    var i :| StartedIn(before, after, pid, i);
  }

  /** No entry changes whose slot 16 is or what state it is in: whatever was loaded there is never made ready,
      dispatched or blocked. */
  lemma LastSlotStays(e: Entry)
    requires IsEntry(e)
    ensures |e.before| == |e.ps| == MAX_NPROCESS + 1 && 0 < e.next < MAX_NPROCESS
    ensures e.ps[MAX_NPROCESS].pid == e.before[MAX_NPROCESS].pid
    ensures e.ps[MAX_NPROCESS].status == e.before[MAX_NPROCESS].status
  {
    var ps1 := Accounted(AtYield(e), e.c, e.t);
    assert AlikeProcess(Dispatched(Settled(ps1, e.phase), e.next, e.t.now)[MAX_NPROCESS], e.ps[MAX_NPROCESS]);
  }

  lemma LastSlotStep(step: Step)
    requires IsStep(step) && step.from.ps[MAX_NPROCESS].status == Loading
    ensures |After(step).ps| == MAX_NPROCESS + 1 && After(step).ps[MAX_NPROCESS].status == Loading
    ensures After(step).ps[MAX_NPROCESS].pid == step.from.ps[MAX_NPROCESS].pid
    ensures step.Entered? ==> step.e.next != MAX_NPROCESS
  {
    match step
    case Entered(from, e) => LastSlotStays(e);
    case Managed(from, op, to) =>
      if op.Allocate? {
        var i :| Allocated(from, i, op.now, to);
      }
  }

  /** In every run of the kernel, slot 16, once taken, belongs to the same process for good: it is not made ready, not
      dispatched, and not freed either, by proc_free of this process or of all. */
  lemma {:induction false} LastSlotForGood(run: seq<Step>, n: nat, m: nat)
    requires IsKernelRun(run) && n < m <= |run|
    requires |run[n].from.ps| == MAX_NPROCESS + 1 && run[n].from.ps[MAX_NPROCESS].status == Loading
    ensures |After(run[m - 1]).ps| == MAX_NPROCESS + 1 && After(run[m - 1]).ps[MAX_NPROCESS].status == Loading
    ensures After(run[m - 1]).ps[MAX_NPROCESS].pid == run[n].from.ps[MAX_NPROCESS].pid
    ensures run[m - 1].Entered? ==> run[m - 1].e.next != MAX_NPROCESS
    decreases m
  {
    assert IsStep(run[m - 1]);
    if n + 1 < m {
      LastSlotForGood(run, n, m - 1);
      assert NextStep(run[m - 2], run[m - 1]);
    }
    LastSlotStep(run[m - 1]);
  }

  /** A table with 15 processes, one in each slot that is scanned. */
  function FullTable(call: Syscall, now: int): (ps: Table)
    ensures |ps| == MAX_NPROCESS + 1
    ensures forall i :: 1 <= i < MAX_NPROCESS ==>
              ps[i] == Process(i, call, if i == 1 then Running else Ready, InitialAccount(now))
    ensures ps[0].status == ps[MAX_NPROCESS].status == Unused && ps[0].pid == ps[MAX_NPROCESS].pid == 0
    ensures forall i :: 0 <= i <= MAX_NPROCESS ==> ps[i].account == InitialAccount(now)
  {
    seq(MAX_NPROCESS + 1, i requires 0 <= i =>
      if 1 <= i < MAX_NPROCESS then Process(i, call, if i == 1 then Running else Ready, InitialAccount(now))
      else Process(0, call, Unused, InitialAccount(now)))
  }

  /** The next process started then goes to slot 16, where it is never made ready. */
  lemma SixteenthProcess(call: Syscall, now: int, after: Table, pid: int)
    requires |after| == MAX_NPROCESS + 1 && pid == 16 && Started(FullTable(call, now), after, pid)
    ensures after[MAX_NPROCESS].pid == pid && after[MAX_NPROCESS].status == Loading
    ensures forall i :: 0 <= i <= MAX_NPROCESS && after[i].pid == pid ==> after[i].status == Loading
  {
    var i :| StartedIn(FullTable(call, now), after, pid, i);
    assert i == MAX_NPROCESS;
  }

  /** The full table is one the kernel can be in. */
  lemma FullTableIsValid(call: Syscall, now: int, user: UserCalls)
    requires forall pid :: 1 <= pid < MAX_NPROCESS ==> pid in user
    ensures TableOk(FullTable(call, now), user) && Quiescent(FullTable(call, now))
            && Current(FullTable(call, now), 1, 15)
  {
  }

  /** Slots 1 to n - 1 are taken. */
  predicate Filled(ps: Table, n: int)
    requires |ps| == MAX_NPROCESS + 1
  {
    forall i :: 1 <= i <= MAX_NPROCESS ==> (ps[i].status != Unused <==> i < n)
  }

  lemma FilledOne(before: Table, after: Table, pid: int, n: int)
    requires |before| == |after| == MAX_NPROCESS + 1 && Filled(before, n) && 1 <= n <= MAX_NPROCESS
             && Started(before, after, pid)
    ensures StartedIn(before, after, pid, n) && Filled(after, n + 1)
  {
    var i :| StartedIn(before, after, pid, i);
    assert before[n].status == Unused && before[i].status == Unused;
  }

  /** The processes started so far are in slots 1 to n - 1, with these numbers. */
  predicate Numbered(ps: Table, n: int)
    requires |ps| == MAX_NPROCESS + 1
  {
    forall i :: 1 <= i < n && i <= MAX_NPROCESS ==> ps[i].pid == i
  }

  /** It gets there by starting 15 processes after boot; the last one is loaded in slot 16 and stays unready for
      good. */
  method FillUp(call: Syscall, now: int) returns (k: Kernel, pid: int)
    ensures fresh(k) && fresh(k.procs) && k.Valid() && pid == 16 && k.currIdx == 1 && k.procs[1].pid == 1
            && k.UserAlive()
    ensures k.procs[MAX_NPROCESS].pid == pid && k.procs[MAX_NPROCESS].status == Loading
    ensures !exists i :: 0 <= i < k.procs.Length && k.procs[i].pid == pid && k.procs[i].status == Ready
  {
    k := new Kernel(call, now);
    for n := 2 to MAX_NPROCESS
      invariant fresh(k) && fresh(k.procs) && k.Valid() && k.lastPid == n - 1 && k.currIdx == 1
      invariant Filled(k.procs[..], n) && Numbered(k.procs[..], n)
    {
      var p := OneMore(k, call, now, n);
    }
    pid := OneMore(k, call, now, MAX_NPROCESS);
    assert LiveUser(k.procs[..][5]);
  }

  method OneMore(k: Kernel, call: Syscall, now: int, n: int) returns (pid: int)
    requires k.Valid() && 1 <= n <= MAX_NPROCESS && Filled(k.procs[..], n)
    modifies k, k.procs
    ensures k.Valid() && pid == k.lastPid == old(k.lastPid) + 1 && k.currIdx == old(k.currIdx)
    ensures Filled(k.procs[..], n + 1)
    ensures StartedIn(old(k.procs[..]), k.procs[..], pid, n)
    ensures (exists i :: 0 <= i < k.procs.Length && k.procs[i].pid == pid && k.procs[i].status == Ready)
            <==> n < MAX_NPROCESS
  {
    ghost var before := k.procs[..];
    assert before[n].status == Unused;
    var p := Start(k, now, call);
    pid := p.value;
    FilledOne(before, k.procs[..], pid, n);
  }

  /** No slot of the table holds the process. */
  ghost predicate Gone(ps: Table, pid: int) {
    forall i :: 0 <= i < |ps| && ps[i].pid == pid ==> ps[i].status == Unused
  }

  /** proc_free of another process: the process is gone exactly if it was already, or some user process was alive in the
      slots 0 to 15 and it was not itself in slot 16. */
  method End(k: Kernel, pid: int)
    requires k.Valid() && pid != k.procs[k.currIdx].pid && pid > 0
    modifies k, k.procs
    ensures k.Valid() && k.currIdx == old(k.currIdx)
    ensures Gone(k.procs[..], pid)
            <==> old(Gone(k.procs[..], pid))
                 || (old(exists i :: 0 <= i < 16 && k.procs[i].pid >= 5 && k.procs[i].status != Unused)
                     && !(old(k.procs[MAX_NPROCESS]).pid == pid && old(k.procs[MAX_NPROCESS]).status != Unused))
  {
    k.Free(pid);
  }

  /** After boot, the second system process cannot be freed: no user process is alive. */
  method FreeWithoutUsers(call: Syscall, now: int) returns (k: Kernel)
    ensures fresh(k) && k.Valid() && !k.UserAlive()
    ensures exists i :: 0 <= i < MAX_NPROCESS && k.procs[i].pid == 2 && k.procs[i].status == Ready
  {
    k := new Kernel(call, now);
    ghost var before := k.procs[..];
    var pid := OneMore(k, call, now, 2);
    assert StartedIn(before, k.procs[..], 2, 2);
    k.Free(pid);
    assert k.procs[2].pid == 2;
  }

  /** proc_free(GPID_ALL): all user processes are gone exactly if none was in slot 16; those in the other slots go, and
      nothing else changes. */
  method EndAll(k: Kernel)
    requires k.Valid() && k.procs[k.currIdx].pid < 5
    modifies k, k.procs
    ensures k.Valid() && k.currIdx == old(k.currIdx)
    ensures (forall i :: 0 <= i < k.procs.Length && k.procs[i].pid >= 5 ==> k.procs[i].status == Unused)
            <==> !old(k.procs[16].pid >= 5 && k.procs[16].status != Unused)
    ensures forall i :: 0 <= i < 16 && old(k.procs[i].pid) >= 5 ==> k.procs[i].status == Unused
    ensures forall i :: 0 <= i < k.procs.Length && old(k.procs[i].pid < 5 || k.procs[i].status == Unused) ==>
              k.procs[i] == old(k.procs[i])
  {
    k.FreeAllUsers();
  }

  /** The sixteenth process is not freed, although user processes are alive, and not by freeing all users either. */
  method SixteenthNotFreed(call: Syscall, now: int) returns (k: Kernel)
    ensures fresh(k) && k.Valid()
    ensures k.procs[MAX_NPROCESS].pid == 16 && k.procs[MAX_NPROCESS].status == Loading
    ensures forall i :: 0 <= i < MAX_NPROCESS ==> !LiveUser(k.procs[i])
  {
    var pid;
    k, pid := FillUp(call, now);
    assert LiveUser(k.procs[MAX_NPROCESS]);
    k.Free(pid);
    assert k.procs[MAX_NPROCESS].status == Loading;
    k.FreeAllUsers();
  }
}
