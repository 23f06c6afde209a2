/** Bounded waiting over the runs of the kernel, and what the periodic reset gives to everyone. */
module Waiting {
  import opened Processes
  import opened Ipc
  import opened Scheduling
  import opened Kernel
  import opened KernelRuns
  import opened BoundedWaiting

  /** The number of entries among the steps n to m - 1. */
  function CountEntries(run: seq<Step>, n: nat, m: nat): nat
    requires n <= m <= |run|
    decreases m - n
  {
    if n == m then 0 else (if run[n].Entered? then 1 else 0) + CountEntries(run, n + 1, m)
  }

  /** A process that waits when an entry begins still waits when it reaches the scheduler. */
  lemma WaitsAtYield(from: State, e: Entry, j: int)
    requires StateOk(from) && IsEntry(e) && Begins(e, from) && 0 < j < MAX_NPROCESS && WaitsAtTop(from.ps, j)
    ensures j != e.c && |AtYield(e)| == MAX_NPROCESS + 1 && WaitsAtTop(AtYield(e), j)
  {
  }

  /** One entry dispatches j or brings the scan closer to it. */
  lemma EntryCloser(from: State, e: Entry, j: int)
    requires StateOk(from) && IsEntry(e) && Begins(e, from) && 0 < j < MAX_NPROCESS && WaitsAtTop(from.ps, j)
    ensures |e.ps| == MAX_NPROCESS + 1 && j != e.c
    ensures e.next == j || (WaitsAtTop(e.ps, j) && Distance(e.next, j) < Distance(e.c, j))
  {
    WaitsAtYield(from, e, j);
    AtYieldOk(e);
    YieldCloser(AtYield(e), e.user0, e.c, e.t, e.phase, e.ps, e.user, e.next, j);
  }

  /** Step k serves slot j: it dispatches the process, or frees it. */
  ghost predicate Serves(step: Step, j: int) {
    (step.Entered? && step.e.next == j) || FreesSlot(step, j)
  }

  lemma StepCloser(step: Step, j: int)
    requires IsStep(step) && 0 < j < MAX_NPROCESS && WaitsAtTop(step.from.ps, j) && !Serves(step, j)
    ensures StateOk(After(step)) && WaitsAtTop(After(step).ps, j)
    ensures Distance(After(step).c, j) + (if step.Entered? then 1 else 0) <= Distance(step.from.c, j)
  {
    StepKeepsOk(step);
    match step
    case Entered(from, e) => EntryCloser(from, e, j);
    case Managed(from, op, to) => OpKeepsSlot(from, op, to, j);
  }

  /** Step n of the run serves slot j, or leaves it waiting and closer. */
  ghost predicate Advances(run: seq<Step>, j: int, n: nat)
    requires n < |run| && 0 < j < MAX_NPROCESS
  {
    && |run[n].from.ps| == MAX_NPROCESS + 1
    && (WaitsAtTop(run[n].from.ps, j) && !Serves(run[n], j) ==>
          && |After(run[n]).ps| == MAX_NPROCESS + 1 && WaitsAtTop(After(run[n]).ps, j)
             && 0 < After(run[n]).c < MAX_NPROCESS
          && Distance(After(run[n]).c, j) + (if run[n].Entered? then 1 else 0) <= Distance(run[n].from.c, j))
    && (n + 1 < |run| ==> run[n + 1].from == After(run[n]))
  }

  lemma StepAdvances(run: seq<Step>, j: int, n: nat)
    requires IsKernelRun(run) && 0 < j < MAX_NPROCESS && n < |run|
    ensures Advances(run, j, n)
  {
    assert IsStep(run[n]);
    if WaitsAtTop(run[n].from.ps, j) && !Serves(run[n], j) {
      StepCloser(run[n], j);
    }
    assert n + 1 < |run| ==> NextStep(run[n], run[n + 1]);
  }

  lemma {:induction false} ServedWithin(run: seq<Step>, j: int, n: nat) returns (k: nat)
    requires 0 < j < MAX_NPROCESS && n < |run| && forall m: nat :: n <= m < |run| ==> Advances(run, j, m)
    requires |run[n].from.ps| == MAX_NPROCESS + 1 && WaitsAtTop(run[n].from.ps, j)
    requires CountEntries(run, n, |run|) >= Distance(run[n].from.c, j) > 0
    ensures n <= k < |run| && Serves(run[k], j)
    ensures CountEntries(run, n, k) < Distance(run[n].from.c, j)
    decreases |run| - n
  {
    k := n;
    assert Advances(run, j, n);
    if !Serves(run[n], j) {
      assert CountEntries(run, n + 1, |run|) >= Distance(After(run[n]).c, j);
      k := ServedWithin(run, j, n + 1);
    }
  }

  /** The step frees a process or all user processes, with the process in slot j among them. */
  predicate EndsProcess(step: Step, j: int) {
    && step.Managed? && (step.op.Release? || step.op.ReleaseAll?)
    && 0 <= j < |step.from.ps| == |step.to.ps| && step.from.ps[j].status != Unused && step.to.ps[j].status == Unused
  }

  lemma FreedEnds(step: Step, j: int)
    requires IsStep(step) && FreesSlot(step, j)
    ensures EndsProcess(step, j)
  {
  }

  /** In every run of the kernel, whatever processes come and go, a process that is ready at level 0 is dispatched by
      one of the next 15 entries, or freed before. */
  lemma DispatchedInRun(run: seq<Step>, j: int, n: nat) returns (k: nat)
    requires IsKernelRun(run) && 0 < j < MAX_NPROCESS && n < |run|
    requires |run[n].from.ps| == MAX_NPROCESS + 1 && WaitsAtTop(run[n].from.ps, j)
    requires CountEntries(run, n, |run|) >= 15
    ensures n <= k < |run| && CountEntries(run, n, k) < 15
    ensures (run[k].Entered? && run[k].e.next == j) || EndsProcess(run[k], j)
  {
    assert IsStep(run[n]);
    forall m: nat | n <= m < |run|
      ensures Advances(run, j, m)
    {
      StepAdvances(run, j, m);
    }
    k := ServedWithin(run, j, n);
    assert IsStep(run[k]);
    if FreesSlot(run[k], j) {
      FreedEnds(run[k], j);
    }
  }

  // ---------------------------------------------------------------- who is next

  lemma SameLevel(ps1: Table, phase: Phase, next: int, now: int, ps: Table, i: int)
    requires |ps1| == |ps| && 0 <= next < |ps| && 0 <= i < |ps|
    requires phase.Matched? ==> 0 <= phase.s < |ps| && 0 <= phase.d < |ps|
    requires Alike(Dispatched(Settled(ps1, phase), next, now), ps)
    ensures ps[i].account.level == ps1[i].account.level
    ensures ps[i].status == Unused || ps1[i].status != Unused || i == next
            || (phase.Matched? && i in {phase.s, phase.d})
  {
    assert AlikeProcess(Dispatched(Settled(ps1, phase), next, now)[i], ps[i]);
  }

  /** A process that could run when the entry began, or was interrupted by it. */
  predicate CouldRun(e: Entry, j: int) {
    && 0 <= e.c < |e.before| && 0 <= j < |e.before|
    && (e.before[j].status == Ready || e.before[j].status == Runnable || (j == e.c && e.cause.Interrupt?))
  }

  lemma ChosenFirst(ps: Table, skip: int, c: int, lowest: int, next: int, j: int)
    requires |ps| == MAX_NPROCESS + 1 && 0 < c < MAX_NPROCESS && 0 <= j < MAX_NPROCESS && 0 <= next < MAX_NPROCESS
    requires Chosen(ps, skip, c, MAX_NPROCESS, lowest, next) && Eligible(ps, skip, j)
    ensures ps[next].account.level < ps[j].account.level
            || (ps[next].account.level == ps[j].account.level && Distance(c, next) <= Distance(c, j))
  {
    var k := AllPassed(c, j);
    var n :| 1 <= n <= MAX_NPROCESS && ChosenAt(ps, skip, c, MAX_NPROCESS, lowest, next, n);
    assert Eligible(ps, skip, At(c, k));
  }

  /** The process dispatched is at a lower level than any other that could have run, or at the same level and before it
      in the order of the table after the slot that enters. */
  lemma LowestFirst(e: Entry, j: int)
    requires IsEntry(e) && 0 <= j < MAX_NPROCESS && CouldRun(e, j)
    requires e.phase.Matched? ==> j != e.phase.s && j != e.phase.d
    ensures |e.ps| == MAX_NPROCESS + 1 && 0 < e.next < MAX_NPROCESS
    ensures e.ps[e.next].account.level < e.ps[j].account.level
            || (e.ps[e.next].account.level == e.ps[j].account.level && Distance(e.c, e.next) <= Distance(e.c, j))
  {
    var ps1 := Accounted(AtYield(e), e.c, e.t);
    EligibleAtYield(e, j);
    var lowest :| Chosen(Settled(ps1, e.phase), SkipOf(e.phase, e.c), e.c, MAX_NPROCESS, lowest, e.next);
    ChosenFirst(Settled(ps1, e.phase), SkipOf(e.phase, e.c), e.c, lowest, e.next, j);
    SameLevel(ps1, e.phase, e.next, e.t.now, e.ps, j);
    SameLevel(ps1, e.phase, e.next, e.t.now, e.ps, e.next);
  }

  lemma EligibleAtYield(e: Entry, j: int)
    requires IsEntry(e) && 0 <= j < MAX_NPROCESS && CouldRun(e, j)
    requires e.phase.Matched? ==> j != e.phase.s && j != e.phase.d
    ensures var ps1 := Accounted(AtYield(e), e.c, e.t);
            && |ps1| == MAX_NPROCESS + 1 && (e.phase.Matched? ==> 0 <= e.phase.s < |ps1| && 0 <= e.phase.d < |ps1|)
            && |Settled(ps1, e.phase)| == |ps1| && Eligible(Settled(ps1, e.phase), SkipOf(e.phase, e.c), j)
            && forall i :: 0 <= i < |ps1| ==> Settled(ps1, e.phase)[i].account.level == ps1[i].account.level
  {
    assert e.before[e.c].status == Running;
  }

  lemma StatusKept(ps1: Table, phase: Phase, next: int, now: int, ps: Table, i: int)
    requires |ps1| == |ps| && 0 <= next < |ps| && 0 <= i < |ps|
    requires phase.Matched? ==> 0 <= phase.s < |ps| && 0 <= phase.d < |ps|
    requires Alike(Dispatched(Settled(ps1, phase), next, now), ps)
    ensures ps[i].pid == ps1[i].pid
    ensures ps[i].status == if i == next then Running
                            else if phase.Matched? && (i == phase.s || i == phase.d) then Runnable
                            else ps1[i].status
  {
    assert AlikeProcess(Dispatched(Settled(ps1, phase), next, now)[i], ps[i]);
  }

  /** What an entry leaves of each process: the one that is dispatched runs, the partners of a completed rendezvous and
      a process that has been interrupted can run, the caller is blocked otherwise, and all others are as they were. */
  lemma StatusAfter(e: Entry, i: int)
    requires IsEntry(e) && 0 <= i <= MAX_NPROCESS
    ensures |e.before| == |e.ps| == MAX_NPROCESS + 1 && e.ps[i].pid == e.before[i].pid
    ensures e.ps[i].status == if i == e.next then Running
                              else if e.phase.Matched? && (i == e.phase.s || i == e.phase.d) then Runnable
                              else if i != e.c then e.before[i].status
                              else if e.cause.Interrupt? then Runnable else PendingSyscall
  {
    StatusKept(Accounted(AtYield(e), e.c, e.t), e.phase, e.next, e.t.now, e.ps, i);
  }

  // ---------------------------------------------------------------- the periodic reset

  /** Ten million microseconds have passed since the last reset, by a clock of 64 bits. */
  predicate ResetAfterTenSeconds(t: Tick) {
    t.lastReset != 0 && (t.nowReset - t.lastReset) % 0x1_0000_0000_0000_0000 >= 10_000_000
  }

  /** Right after the periodic reset every live process is at level 0. */
  lemma AllAtTopAfterReset(e: Entry, i: int)
    requires IsEntry(e) && ResetAfterTenSeconds(e.t) && 0 <= i < MAX_NPROCESS
    ensures |e.ps| == MAX_NPROCESS + 1 && (e.ps[i].status != Unused ==> e.ps[i].account.level == 0)
  {
    SameLevel(Accounted(AtYield(e), e.c, e.t), e.phase, e.next, e.t.now, e.ps, i);
  }

  /** So every process that is ready then is dispatched by one of the next 15 entries, or freed before. */
  lemma DispatchedAfterReset(run: seq<Step>, j: int, n: nat) returns (k: nat)
    requires IsKernelRun(run) && 0 < j < MAX_NPROCESS && n < |run| && run[n].Entered?
    requires ResetAfterTenSeconds(run[n].e.t) && j < |run[n].e.ps|
    requires run[n].e.ps[j].status == Ready || run[n].e.ps[j].status == Runnable
    requires CountEntries(run, n + 1, |run|) >= 15
    ensures n < k < |run| && CountEntries(run, n + 1, k) < 15
    ensures (run[k].Entered? && run[k].e.next == j) || EndsProcess(run[k], j)
  {
    assert IsStep(run[n]);
    AllAtTopAfterReset(run[n].e, j);
    assert NextStep(run[n], run[n + 1]);
    k := DispatchedInRun(run, j, n + 1);
  }
}
