/** When processes are charged and levels are reset, over the runs of the kernel, by the clocks of the entries alone. */
module Slices {
  import opened Processes
  import opened Mlfq
  import opened Ipc
  import opened Scheduling
  import opened Kernel
  import opened KernelRuns
  import opened Accounts

  // ---------------------------------------------------------------- from one entry to the next

  /** A dispatched process has the time of its dispatch in its account. */
  lemma DispatchTime(e: Entry)
    requires IsEntry(e)
    ensures 0 < e.next < |e.ps| == MAX_NPROCESS + 1 && e.ps[e.next].account.lastScheduled == e.t.now
  {
    DispatchedTime(Settled(Accounted(AtYield(e), e.c, e.t), e.phase), e.next, e.t.now, e.ps);
  }

  lemma DispatchedTime(ps: Table, next: int, now: int, ps': Table)
    requires 0 <= next < |ps| && Alike(Dispatched(ps, next, now), ps')
    ensures |ps'| == |ps| && ps'[next].account.lastScheduled == now
  {
    assert AlikeProcess(Dispatched(ps, next, now)[next], ps'[next]);
  }

  /** Operations on the process table leave the running process alone. */
  lemma OpKeepsRunning(s: State, op: Op, s': State)
    requires StateOk(s) && Allowed(s, op) && OpDone(s, op, s')
    ensures |s'.ps| == MAX_NPROCESS + 1 && s'.c == s.c && s'.ps[s.c] == s.ps[s.c] && s'.lastReset == s.lastReset
  {
    OpKeepsSlot(s, op, s', s.c);
    if op.Allocate? {
      var i :| Allocated(s, i, op.now, s');
    }
  }

  /** Entry m is the first one after entry k. */
  predicate NextEntry(run: seq<Step>, k: nat, m: nat) {
    && k < m < |run| && run[k].Entered? && run[m].Entered?
    && forall j :: k < j < m ==> run[j].Managed?
  }

  lemma EntryOfStep(step: Step)
    requires IsStep(step) && step.Entered?
    ensures IsEntry(step.e)
  {
  }

  predicate StillRunning(e: Entry, s: State) {
    && |e.ps| == |s.ps| == MAX_NPROCESS + 1 && s.c == e.next && 0 < e.next < MAX_NPROCESS
    && s.ps[e.next] == e.ps[e.next] && s.lastReset == NextReset(e.t)
  }

  lemma {:induction false} KeepsRunning(run: seq<Step>, k: nat, m: nat)
    requires IsKernelRun(run) && k < m < |run| && run[k].Entered? && forall j :: k < j < m ==> run[j].Managed?
    ensures StillRunning(run[k].e, run[m].from)
    decreases m
  {
    assert IsStep(run[m - 1]) && NextStep(run[m - 1], run[m]);
    if m - 1 > k {
      KeepsRunning(run, k, m - 1);
      OpKeepsRunning(run[m - 1].from, run[m - 1].op, run[m - 1].to);
    } else {
      DispatchTime(run[k].e);
    }
  }

  /** The reset of levels that an entry brings for slot i: for the shell with keyboard input, and for every live process
      when ten seconds have passed since the last time. */
  function ResetPart(step: Step, i: int): seq<Event>
    requires step.Entered? && 0 <= i < |step.from.ps|
  {
    if i < 16 && ((step.e.t.ttyInput && step.from.ps[i].pid == 4)
                  || (PeriodOver(step) && step.from.ps[i].status != Unused)) then [Reset] else []
  }

  /** The period is over: ten million microseconds of a clock with 64 bits. */
  predicate PeriodOver(step: Step)
    requires step.Entered?
  {
    step.from.lastReset != 0
    && (step.e.t.nowReset - step.from.lastReset) % 0x1_0000_0000_0000_0000 >= 10_000_000
  }

  function SlicePart(time: int): seq<Event> {
    [Ran(time % 0x1_0000_0000_0000_0000)]
  }

  lemma DispatchedSince(run: seq<Step>, k: nat, m: nat)
    requires IsKernelRun(run) && NextEntry(run, k, m)
    ensures k < m < |run| && run[k].Entered? && run[m].Entered? && IsStep(run[m])
    ensures |run[m].from.ps| == MAX_NPROCESS + 1 && 0 <= run[m].from.c == run[k].e.next < MAX_NPROCESS
    ensures run[m].from.ps[run[k].e.next].account.lastScheduled == run[k].e.t.now
  {
    assert IsStep(run[k]) && IsStep(run[m]);
    hide IsStep, IsEntry;
    KeepsRunning(run, k, m);
    EntryOfStep(run[k]);
    DispatchTime(run[k].e);
  }

  /** What happens to the accounts in an entry is this: the process that the entry before has dispatched is charged for
      the time since then, unless that was at time 0, no other one is, and levels are reset. */
  lemma SliceOfEntry(run: seq<Step>, k: nat, m: nat, i: int)
    requires IsKernelRun(run) && NextEntry(run, k, m) && 0 <= i <= MAX_NPROCESS
    ensures |run[m].from.ps| == MAX_NPROCESS + 1
    ensures EventsBy(run[m], i)
            == (if i == run[k].e.next && run[k].e.t.now > 0 then SlicePart(run[m].e.t.now - run[k].e.t.now) else [])
               + ResetPart(run[m], i)
  {
    hide *;
    DispatchedSince(run, k, m);
    EventsAre(run[m], i);
  }

  /** The same, with the time of the last dispatch from the account. */
  lemma EventsAre(step: Step, i: int)
    requires IsStep(step) && step.Entered? && 0 <= i <= MAX_NPROCESS
    ensures |step.from.ps| == MAX_NPROCESS + 1
    ensures var last := step.from.ps[i].account.lastScheduled;
            EventsBy(step, i) == (if i == step.from.c && last > 0 then SlicePart(step.e.t.now - last) else [])
                                 + ResetPart(step, i)
  {
    assert step.from.ps[step.from.c].status == Running;
  }

  lemma DispatchedStatistics(ps: Table, next: int, now: int, ps': Table, i: int)
    requires 0 <= next < |ps| && 0 <= i < |ps| && Alike(Dispatched(ps, next, now), ps')
    ensures |ps'| == |ps|
    ensures var a, b := ps[i].account, ps'[i].account;
            && b.created == a.created && b.interrupts == a.interrupts
            && b.lastScheduled == (if i == next then now else a.lastScheduled)
            && b.firstScheduled == if i == next && a.firstScheduled == 0 then now else a.firstScheduled
  {
    assert AlikeProcess(Dispatched(ps, next, now)[i], ps'[i]);
  }

  /** What an entry does to the other statistics of slot i: it counts a timer interrupt of the running process, and
      notes the times of the first and the last dispatch. */
  lemma EntryStatistics(e: Entry, i: int)
    requires IsEntry(e) && 0 <= i <= MAX_NPROCESS
    ensures |e.before| == |e.ps| == MAX_NPROCESS + 1
    ensures var a, b := e.before[i].account, e.ps[i].account;
            && b.created == a.created && b.interrupts == (if e.cause.Interrupt? && i == e.c then a.interrupts + 1
                                                          else a.interrupts)
            && b.lastScheduled == (if i == e.next then e.t.now else a.lastScheduled)
            && b.firstScheduled == if i == e.next && a.firstScheduled == 0 then e.t.now else a.firstScheduled
  {
    hide Settled, Accounted, Dispatched, AtYield;
    StatisticsAtYield(e, i);
    SettledStatistics(Accounted(AtYield(e), e.c, e.t), e.phase, i);
    DispatchedOf(e);
    DispatchedStatistics(Settled(Accounted(AtYield(e), e.c, e.t), e.phase), e.next, e.t.now, e.ps, i);
  }

  lemma DispatchedOf(e: Entry)
    requires IsEntry(e)
    ensures 0 < e.next < |e.ps|
    ensures Alike(Dispatched(Settled(Accounted(AtYield(e), e.c, e.t), e.phase), e.next, e.t.now), e.ps)
  {
  }

  lemma SettledStatistics(ps: Table, phase: Phase, i: int)
    requires 0 <= i < |ps| && (phase.Matched? ==> 0 <= phase.s < |ps| && 0 <= phase.d < |ps|)
    ensures |Settled(ps, phase)| == |ps| && Settled(ps, phase)[i].account == ps[i].account
  {
  }

  /** Up to the dispatch, only a timer interrupt is counted. */
  lemma StatisticsAtYield(e: Entry, i: int)
    requires IsEntry(e) && 0 <= i <= MAX_NPROCESS
    ensures |e.before| == |AtYield(e)| == |Accounted(AtYield(e), e.c, e.t)| == MAX_NPROCESS + 1
    ensures var a, b := e.before[i].account, Accounted(AtYield(e), e.c, e.t)[i].account;
            && b.created == a.created && b.lastScheduled == a.lastScheduled && b.firstScheduled == a.firstScheduled
            && b.interrupts == if e.cause.Interrupt? && i == e.c then a.interrupts + 1 else a.interrupts
  {
  }

  // ---------------------------------------------------------------- the periodic reset

  lemma ResetTime(step: Step)
    requires IsStep(step)
    ensures After(step).lastReset
            == if step.Entered? && (step.from.lastReset == 0 || PeriodOver(step)) then step.e.t.nowReset
               else step.from.lastReset
  {
    if step.Managed? {
      OpKeepsRunning(step.from, step.op, step.to);
    }
  }

  /** Entry j is the first one since boot, or one in which the period is over, and up to step m the period has not been
      over again. */
  predicate PeriodFrom(run: seq<Step>, j: nat, m: nat) {
    && j < m < |run| && run[j].Entered? && (run[j].from.lastReset == 0 || PeriodOver(run[j]))
    && run[j].e.t.nowReset != 0
    && forall l :: j < l < m && run[l].Entered? ==> !PeriodOver(run[l])
  }

  lemma {:induction false} PeriodSince(run: seq<Step>, j: nat, m: nat)
    requires IsKernelRun(run) && PeriodFrom(run, j, m)
    ensures run[m].from.lastReset == run[j].e.t.nowReset
    decreases m
  {
    assert IsStep(run[m - 1]) && NextStep(run[m - 1], run[m]);
    ResetTime(run[m - 1]);
    if m - 1 > j {
      PeriodSince(run, j, m - 1);
    }
  }

  /** The next periodic reset comes in the first entry that is ten seconds or more later. */
  lemma NextPeriod(run: seq<Step>, j: nat, m: nat)
    requires IsKernelRun(run) && PeriodFrom(run, j, m) && run[m].Entered?
    ensures PeriodOver(run[m]) <==>
            (run[m].e.t.nowReset - run[j].e.t.nowReset) % 0x1_0000_0000_0000_0000 >= 10_000_000
  {
    PeriodSince(run, j, m);
  }

  /** In a run from boot the period begins with the first entry. */
  lemma {:induction false} FirstPeriod(run: seq<Step>, j: nat)
    requires IsKernelRun(run) && j < |run| && run[0].from.lastReset == 0 && forall l :: 0 <= l < j ==> run[l].Managed?
    ensures run[j].from.lastReset == 0 && (run[j].Entered? ==> !PeriodOver(run[j]))
    decreases j
  {
    if j > 0 {
      assert IsStep(run[j - 1]) && NextStep(run[j - 1], run[j]);
      FirstPeriod(run, j - 1);
      ResetTime(run[j - 1]);
    }
  }

  // ---------------------------------------------------------------- all the time that a process has run

  /** The last entry before step m, or -1. */
  function Previous(run: seq<Step>, m: nat): (k: int)
    requires m <= |run|
    ensures -1 <= k < m && (k >= 0 ==> run[k].Entered?)
    ensures forall j :: k < j < m ==> run[j].Managed?
  {
    if m == 0 then -1 else if run[m - 1].Entered? then m - 1 else Previous(run, m - 1)
  }

  /** How long slot i has run when step m begins: since the entry that dispatched it, if that was not at
      time 0. */
  function SliceTime(run: seq<Step>, i: int, m: nat): int
    requires m < |run|
  {
    var k := Previous(run, m);
    if run[m].Entered? && k >= 0 && run[k].e.next == i && run[k].e.t.now > 0
      then (run[m].e.t.now - run[k].e.t.now) % 0x1_0000_0000_0000_0000 else 0
  }

  function RunTime(run: seq<Step>, i: int, n: nat, m: nat): int
    requires m <= |run|
    decreases m
  {
    if m <= n then 0 else RunTime(run, i, n, m - 1) + SliceTime(run, i, m - 1)
  }

  lemma {:induction false} TotalAppend(a: seq<Event>, b: seq<Event>)
    ensures TotalRun(a + b) == TotalRun(a) + TotalRun(b)
    decreases |b|
  {
    if b == [] {
      assert a + b == a;
    } else {
      assert (a + b)[..|a + b| - 1] == a + b[..|b| - 1];
      TotalAppend(a, b[..|b| - 1]);
    }
  }

  lemma TotalOfEntry(time: int, slice: bool, reset: bool)
    ensures TotalRun((if slice then SlicePart(time) else []) + (if reset then [Reset] else []))
            == if slice then time % 0x1_0000_0000_0000_0000 else 0
  {
    var a, b := if slice then SlicePart(time) else [], if reset then [Reset] else [];
    TotalAppend(a, b);
    if slice {
      assert a[..0] == [];
    }
    if reset {
      assert b[..0] == [];
    }
  }

  lemma {:induction false} KeepsCurrent(run: seq<Step>, n: nat, m: nat)
    requires IsKernelRun(run) && n <= m < |run| && forall j :: n <= j < m ==> run[j].Managed?
    ensures run[m].from.c == run[n].from.c
    decreases m
  {
    if m > n {
      assert IsStep(run[m - 1]) && NextStep(run[m - 1], run[m]);
      KeepsCurrent(run, n, m - 1);
      OpKeepsRunning(run[m - 1].from, run[m - 1].op, run[m - 1].to);
    }
  }

  /** A slot that is taken is not the current one. */
  lemma TakenIsNotCurrent(step: Step, i: int)
    requires IsStep(step) && Takes(step, i)
    ensures i != step.from.c
  {
  }

  /** What a step charges slot i for, after it has been given to a new process at step n. */
  lemma ChargedInStep(run: seq<Step>, i: int, n: nat, m: nat)
    requires IsKernelRun(run) && n < m < |run| && 1 <= i <= MAX_NPROCESS && Takes(run[n], i)
    ensures TotalRun(EventsBy(run[m], i)) == SliceTime(run, i, m)
  {
    if run[m].Entered? {
      var k := Previous(run, m);
      if k >= 0 {
        ChargedAfter(run, i, k, m);
      } else {
        assert IsStep(run[n]) && IsStep(run[m]);
        KeepsCurrent(run, n, m);
        TakenIsNotCurrent(run[n], i);
        EventsAre(run[m], i);
        TotalOfEntry(0, false, ResetPart(run[m], i) != []);
      }
    }
  }

  lemma ChargedAfter(run: seq<Step>, i: int, k: nat, m: nat)
    requires IsKernelRun(run) && NextEntry(run, k, m) && 1 <= i <= MAX_NPROCESS
    requires k == Previous(run, m)
    ensures TotalRun(EventsBy(run[m], i)) == SliceTime(run, i, m)
  {
    hide EventsBy, IsKernelRun, TotalRun, ResetPart;
    SliceOfEntry(run, k, m, i);
    ResetPartIs(run[m], i);
    TotalOfEntry(run[m].e.t.now - run[k].e.t.now, i == run[k].e.next && run[k].e.t.now > 0,
                 ResetPart(run[m], i) == [Reset]);
  }

  lemma ResetPartIs(step: Step, i: int)
    requires step.Entered? && 0 <= i < |step.from.ps|
    ensures ResetPart(step, i) == [Reset] || ResetPart(step, i) == []
  {
  }

  lemma EventsNext(run: seq<Step>, i: int, n: nat, m: nat)
    requires n < m <= |run|
    ensures AllEvents(run, i, n, m) == AllEvents(run, i, n, m - 1) + EventsBy(run[m - 1], i)
  {
    var lists := EventLists(run, i, n, m);
    assert lists[..|lists| - 1] == EventLists(run, i, n, m - 1);
  }

  lemma NoEvents(run: seq<Step>, i: int, n: nat)
    requires n <= |run|
    ensures TotalRun(AllEvents(run, i, n, n)) == 0
  {
  }

  /** Since its creation at step n, a process has been charged for the time between each of its dispatches and the next
      entry, and for no other. */
  lemma {:induction false} ChargedForSlices(run: seq<Step>, i: int, n: nat, m: nat)
    requires IsKernelRun(run) && n < m <= |run| && 1 <= i <= MAX_NPROCESS && Takes(run[n], i)
    ensures TotalRun(AllEvents(run, i, n + 1, m)) == RunTime(run, i, n + 1, m)
    decreases m
  {
    hide IsKernelRun, Takes, EventsBy, SliceTime, AllEvents, TotalRun;
    NoEvents(run, i, n + 1);
    if m > n + 1 {
      ChargedForSlices(run, i, n, m - 1);
      EventsNext(run, i, n + 1, m);
      TotalAppend(AllEvents(run, i, n + 1, m - 1), EventsBy(run[m - 1], i));
      ChargedInStep(run, i, n, m - 1);
    }
  }

  /** So its total run time is what the clocks of the entries say, modulo 2^64. */
  lemma RunTimeOfProcess(run: seq<Step>, i: int, n: nat, m: nat)
    requires IsKernelRun(run) && n + 1 < m <= |run| && 1 <= i <= MAX_NPROCESS
    requires Takes(run[n], i) && forall k :: n < k < m ==> !Takes(run[k], i)
    ensures |After(run[m - 1]).ps| == MAX_NPROCESS + 1
    ensures After(run[m - 1]).ps[i].account.totalRuntime == RunTime(run, i, n + 1, m) % 0x1_0000_0000_0000_0000
  {
    BudgetOfProcess(run, i, n, m);
    ChargedForSlices(run, i, n, m);
  }
}
