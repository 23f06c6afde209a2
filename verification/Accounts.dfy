/** The accounts of the processes over the runs of the kernel: what the scheduler has done to the account of a slot is a
    run of slices and resets. */
module Accounts {
  import opened Processes
  import opened Mlfq
  import opened Ipc
  import opened Scheduling
  import opened Kernel
  import opened KernelRuns

  /** What the scheduler goes by. */
  datatype Budget = Budget(level: int, remaining: int, levelRuntime: int, totalRuntime: int, cpuRuntime: int)

  function BudgetOf(a: Account): Budget {
    Budget(a.level, a.remaining, a.levelRuntime, a.totalRuntime, a.cpuRuntime)
  }

  predicate SameBudget(a: Account, b: Account) {
    BudgetOf(a) == BudgetOf(b)
  }

  /** What one yield does to the account of process p in slot i. */
  function EventsOf(p: Process, i: int, c: int, t: Tick): seq<Event> {
    (if i == c && p.status != Unused && p.account.lastScheduled > 0
     then [Ran(Wrap(t.now - p.account.lastScheduled))] else [])
    + (if i < MAX_NPROCESS && ((t.ttyInput && p.pid == GPID_SHELL) || (ResetDue(t) && p.status != Unused))
       then [Reset] else [])
  }

  lemma {:induction false} ApplyAppend(a: Account, x: seq<Event>, y: seq<Event>)
    ensures ApplyAll(a, x + y) == ApplyAll(ApplyAll(a, x), y)
  {
    if y == [] {
      assert x + y == x;
    } else {
      var n := |y| - 1;
      ApplyAppend(a, x, y[..n]);
      assert (x + y)[..|x + y| - 1] == x + y[..n];
    }
  }

  lemma ApplyOne(a: Account, e: Event)
    ensures ApplyAll(a, [e]) == Apply(a, e)
  {
    assert [e][..0] == [];
  }

  lemma SameApply(a: Account, b: Account, e: Event)
    requires SameBudget(a, b)
    ensures SameBudget(Apply(a, e), Apply(b, e))
  {
  }

  lemma {:induction false} SameApplied(a: Account, b: Account, events: seq<Event>)
    requires SameBudget(a, b)
    ensures SameBudget(ApplyAll(a, events), ApplyAll(b, events))
  {
    if events != [] {
      var init, last := events[..|events| - 1], events[|events| - 1];
      SameApplied(a, b, init);
      SameApply(ApplyAll(a, init), ApplyAll(b, init), last);
    }
  }

  lemma NewAccountApplies(p: Process, i: int, c: int, t: Tick)
    ensures NewAccount(p, i, c, t) == ApplyAll(p.account, EventsOf(p, i, c, t))
  {
    var charged := i == c && p.status != Unused && p.account.lastScheduled > 0;
    var slice, reset := Ran(Wrap(t.now - p.account.lastScheduled)), Reset;
    ApplyOne(p.account, slice);
    ApplyOne(p.account, reset);
    ApplyAppend(p.account, if charged then [slice] else [], [reset]);
    ApplyOne(if charged then Apply(p.account, slice) else p.account, reset);
    assert [slice] + [] == [slice] && [] + [reset] == [reset];
  }

  /** What a step does to the account of slot i. */
  function EventsBy(step: Step, i: int): seq<Event> {
    if step.Entered? && 0 <= step.e.c < |step.e.before| && 0 <= i < |step.e.before|
    then EventsOf(AtYield(step.e)[i], i, step.e.c, step.e.t) else []
  }

  /** The step gives slot i to a new process. */
  predicate Takes(step: Step, i: int) {
    step.Managed? && step.op.Allocate? && FirstUnused(step.from.ps, i)
  }

  lemma DispatchKeepsBudget(ps1: Table, phase: Phase, next: int, now: int, ps: Table, i: int)
    requires |ps1| == |ps| && 0 <= next < |ps| && 0 <= i < |ps|
    requires phase.Matched? ==> 0 <= phase.s < |ps| && 0 <= phase.d < |ps|
    requires Alike(Dispatched(Settled(ps1, phase), next, now), ps)
    ensures SameBudget(ps[i].account, ps1[i].account)
  {
    assert AlikeProcess(Dispatched(Settled(ps1, phase), next, now)[i], ps[i]);
  }

  lemma EntryAccount(e: Entry, i: int)
    requires IsEntry(e) && 0 <= i <= MAX_NPROCESS
    ensures |e.before| == |e.ps| == MAX_NPROCESS + 1
    ensures SameBudget(e.ps[i].account, NewAccount(AtYield(e)[i], i, e.c, e.t))
    ensures SameBudget(AtYield(e)[i].account, e.before[i].account)
  {
    DispatchKeepsBudget(Accounted(AtYield(e), e.c, e.t), e.phase, e.next, e.t.now, e.ps, i);
  }

  lemma OpAccount(s: State, op: Op, s': State, i: int)
    requires StateOk(s) && OpDone(s, op, s') && 0 <= i <= MAX_NPROCESS
    requires !(op.Allocate? && FirstUnused(s.ps, i))
    ensures |s'.ps| == MAX_NPROCESS + 1 && s'.ps[i].account == s.ps[i].account
  {
    match op
    case Allocate(now) =>
      var k :| Allocated(s, k, now, s');
    case MakeReady(pid, call) =>
    case Release(pid) =>
    case ReleaseAll =>
  }

  lemma StepAccount(step: Step, i: int)
    requires IsStep(step) && 0 <= i <= MAX_NPROCESS && !Takes(step, i)
    ensures |step.from.ps| == |After(step).ps| == MAX_NPROCESS + 1
    ensures SameBudget(After(step).ps[i].account, ApplyAll(step.from.ps[i].account, EventsBy(step, i)))
  {
    match step
    case Entered(from, e) =>
      EntryAccount(e, i);
      NewAccountApplies(AtYield(e)[i], i, e.c, e.t);
      SameApplied(AtYield(e)[i].account, e.before[i].account, EventsBy(step, i));
    case Managed(from, op, to) =>
      OpAccount(from, op, to, i);
  }

  /** What a run of events does to a budget. */
  function Outcome(b: Budget, events: seq<Event>): Budget {
    BudgetOf(ApplyAll(AccountOf(b), events))
  }

  function AccountOf(b: Budget): Account {
    Account(b.level, b.remaining, b.levelRuntime, b.totalRuntime, b.cpuRuntime, 0, 0, 0, 0)
  }

  lemma OutcomeIs(a: Account, events: seq<Event>)
    ensures Outcome(BudgetOf(a), events) == BudgetOf(ApplyAll(a, events))
  {
    SameApplied(AccountOf(BudgetOf(a)), a, events);
  }

  lemma OutcomeAppend(b: Budget, x: seq<Event>, y: seq<Event>)
    ensures Outcome(b, x + y) == Outcome(Outcome(b, x), y)
  {
    ApplyAppend(AccountOf(b), x, y);
    SameApplied(ApplyAll(AccountOf(b), x), AccountOf(Outcome(b, x)), y);
  }

  /** The budget of slot i before step k, or after the last step. */
  function BudgetAt(run: seq<Step>, i: int, k: nat): Budget
    requires k <= |run|
  {
    if k < |run| then BudgetIn(run[k].from, i) else if k > 0 then BudgetIn(After(run[k - 1]), i)
      else Budget(0, 0, 0, 0, 0)
  }

  function BudgetIn(s: State, i: int): Budget {
    if 0 <= i < |s.ps| then BudgetOf(s.ps[i].account) else Budget(0, 0, 0, 0, 0)
  }

  lemma StepOfRun(run: seq<Step>, i: int, k: nat)
    requires IsKernelRun(run) && k < |run| && 0 <= i <= MAX_NPROCESS
    ensures |run[k].from.ps| == |After(run[k]).ps| == MAX_NPROCESS + 1
    ensures BudgetAt(run, i, k + 1) == BudgetIn(After(run[k]), i)
    ensures !Takes(run[k], i) ==> BudgetAt(run, i, k + 1) == Outcome(BudgetAt(run, i, k), EventsBy(run[k], i))
  {
    assert IsStep(run[k]);
    StepKeepsOk(run[k]);
    assert k + 1 < |run| ==> NextStep(run[k], run[k + 1]);
    if !Takes(run[k], i) {
      StepAccount(run[k], i);
      OutcomeIs(run[k].from.ps[i].account, EventsBy(run[k], i));
    }
  }

  /** A rule that takes events one after the other, taken along a run. */
  lemma {:induction false} TakenTogether<A(!new), E(!new)>(apply: (A, seq<E>) -> A, states: seq<A>, events: seq<seq<E>>)
    requires forall a, x, y {:trigger apply(a, x + y)} :: apply(a, x + y) == apply(apply(a, x), y)
    requires |states| == |events| + 1 && forall k :: 0 <= k < |events| ==> states[k + 1] == apply(states[k], events[k])
    ensures events != [] ==> states[|events|] == apply(states[0], Flatten(events))
  {
    if |events| > 1 {
      var n := |events| - 1;
      TakenTogether(apply, states[..n + 1], events[..n]);
    } else if |events| == 1 {
      assert Flatten(events[..0]) == [] && Flatten(events) == events[0];
    }
  }

  function Flatten<E>(events: seq<seq<E>>): seq<E> {
    if events == [] then [] else Flatten(events[..|events| - 1]) + events[|events| - 1]
  }

  /** What happens to slot i in the steps n to m - 1, step by step, and all together. */
  function EventLists(run: seq<Step>, i: int, n: nat, m: nat): seq<seq<Event>>
    requires n <= m <= |run|
  {
    seq(m - n, k requires 0 <= k < m - n => EventsBy(run[n + k], i))
  }

  function AllEvents(run: seq<Step>, i: int, n: nat, m: nat): seq<Event>
    requires n <= m <= |run|
  {
    Flatten(EventLists(run, i, n, m))
  }

  lemma BudgetOverRun(rule: (Budget, seq<Event>) -> Budget, run: seq<Step>, i: int, n: nat, m: nat)
    requires forall b, x, y {:trigger rule(b, x + y)} :: rule(b, x + y) == rule(rule(b, x), y)
    requires n < m <= |run|
    requires forall k: nat :: n <= k < m ==> BudgetAt(run, i, k + 1) == rule(BudgetAt(run, i, k), EventsBy(run[k], i))
    ensures BudgetAt(run, i, m) == rule(BudgetAt(run, i, n), AllEvents(run, i, n, m))
  {
    var budgets := seq(m - n + 1, k requires 0 <= k <= m - n => BudgetAt(run, i, n + k));
    var lists := EventLists(run, i, n, m);
    forall k | 0 <= k < |lists|
      ensures budgets[k + 1] == rule(budgets[k], lists[k])
    {
      var step: nat := n + k;
      assert BudgetAt(run, i, step + 1) == rule(BudgetAt(run, i, step), EventsBy(run[step], i));
    }
    TakenTogether(rule, budgets, lists);
  }

  lemma OutcomesAppend()
    ensures forall b: Budget, x: seq<Event>, y: seq<Event> {:trigger Outcome(b, x + y)} ::
              Outcome(b, x + y) == Outcome(Outcome(b, x), y)
  {
    forall b: Budget, x: seq<Event>, y: seq<Event>
      ensures Outcome(b, x + y) == Outcome(Outcome(b, x), y)
    {
      OutcomeAppend(b, x, y);
    }
  }

  /** As long as a slot is not given to another process, its level, budget and runtimes are what the slices and resets
      make of them. */
  lemma AccountOverRun(run: seq<Step>, i: int, n: nat, m: nat)
    requires IsKernelRun(run) && n < m <= |run| && 0 <= i <= MAX_NPROCESS
    requires forall k :: n <= k < m ==> !Takes(run[k], i)
    ensures BudgetIn(After(run[m - 1]), i) == Outcome(BudgetIn(run[n].from, i), AllEvents(run, i, n, m))
  {
    forall k: nat | n <= k < m
      ensures BudgetAt(run, i, k + 1) == Outcome(BudgetAt(run, i, k), EventsBy(run[k], i))
      ensures BudgetAt(run, i, k + 1) == BudgetIn(After(run[k]), i)
    {
      StepOfRun(run, i, k);
    }
    OutcomesAppend();
    BudgetOverRun(Outcome, run, i, n, m);
  }

  lemma {:induction false} FlattenValid(events: seq<seq<Event>>)
    requires forall k, e :: 0 <= k < |events| && e in events[k] ==> ValidEvent(e)
    ensures forall k :: 0 <= k < |Flatten(events)| ==> ValidEvent(Flatten(events)[k])
  {
    if events != [] {
      var n := |events| - 1;
      FlattenValid(events[..n]);
      assert forall k :: 0 <= k < |events[n]| ==> events[n][k] in events[n];
    }
  }

  lemma ValidEvents(step: Step, i: int, e: Event)
    requires e in EventsBy(step, i)
    ensures ValidEvent(e)
  {
  }

  lemma EventsAreValid(run: seq<Step>, i: int, n: nat, m: nat)
    requires n <= m <= |run|
    ensures forall k :: 0 <= k < |AllEvents(run, i, n, m)| ==> ValidEvent(AllEvents(run, i, n, m)[k])
  {
    forall k, e | 0 <= k < m - n && e in EventLists(run, i, n, m)[k]
      ensures ValidEvent(e)
    {
      ValidEvents(run[n + k], i, e);
    }
    FlattenValid(EventLists(run, i, n, m));
  }

  lemma TakenAccount(step: Step, i: int)
    requires IsStep(step) && Takes(step, i)
    ensures |After(step).ps| == MAX_NPROCESS + 1 && After(step).ps[i].account == InitialAccount(step.op.now)
  {
    var k :| Allocated(step.from, k, step.op.now, step.to);
    assert k == i;
  }

  /** A new process begins at the top level with the 100 ms of that level, and has not run. */
  lemma StartsAtTop(step: Step, i: int)
    requires IsStep(step) && Takes(step, i)
    ensures |After(step).ps| == MAX_NPROCESS + 1
    ensures var a := After(step).ps[i].account;
            && a.level == 0 && a.remaining == 100_000 && a.levelRuntime == 0 && a.totalRuntime == 0 && a.cpuRuntime == 0
            && a.created == step.op.now && a.firstScheduled == 0 && a.lastScheduled == 0 && a.interrupts == 0
  {
    TakenAccount(step, i);
  }

  lemma KeepsBudget(a: Account, now: int, events: seq<Event>)
    requires BudgetOf(a) == Outcome(BudgetOf(InitialAccount(now)), events)
    requires forall k :: 0 <= k < |events| ==> ValidEvent(events[k])
    ensures Budgeted(a, TotalRun(events), Allotment(now, events))
  {
    OutcomeIs(InitialAccount(now), events);
    AccountingOverRuns(now, events);
    SameBudgeted(a, ApplyAll(InitialAccount(now), events), TotalRun(events), Allotment(now, events));
  }

  lemma SameBudgeted(a: Account, b: Account, total: int, allotment: int)
    requires BudgetOf(a) == BudgetOf(b) && Budgeted(b, total, allotment)
    ensures Budgeted(a, total, allotment)
  {
  }

  /** From its creation on, in every run of the kernel, the account of a process obeys the rules: the level stays in
      range, both runtimes are the sum of its slices modulo 2^64, and what has run at this level plus what remains is
      the last allotment modulo 2^64. */
  lemma BudgetOfProcess(run: seq<Step>, i: int, n: nat, m: nat)
    requires IsKernelRun(run) && n + 1 < m <= |run| && 1 <= i <= MAX_NPROCESS
    requires Takes(run[n], i) && forall k :: n < k < m ==> !Takes(run[k], i)
    ensures |After(run[m - 1]).ps| == MAX_NPROCESS + 1
    ensures var events := AllEvents(run, i, n + 1, m);
            Budgeted(After(run[m - 1]).ps[i].account, TotalRun(events), Allotment(run[n].op.now, events))
  {
    hide *;
    StepOfRun(run, i, m - 1);
    TakesAllocates(run[n], i);
    BudgetInIs(After(run[m - 1]), i);
    StartsFresh(run, i, n);
    EventsAreValid(run, i, n + 1, m);
    AccountOverRun(run, i, n + 1, m);
    KeepsBudget(After(run[m - 1]).ps[i].account, run[n].op.now, AllEvents(run, i, n + 1, m));
  }

  lemma TakesAllocates(step: Step, i: int)
    requires Takes(step, i)
    ensures step.Managed? && step.op.Allocate?
  {
  }

  lemma BudgetInIs(s: State, i: int)
    requires 0 <= i < |s.ps|
    ensures BudgetIn(s, i) == BudgetOf(s.ps[i].account)
  {
  }

  lemma StartsFresh(run: seq<Step>, i: int, n: nat)
    requires IsKernelRun(run) && n + 1 < |run| && 1 <= i <= MAX_NPROCESS && Takes(run[n], i)
    ensures BudgetIn(run[n + 1].from, i) == BudgetOf(InitialAccount(run[n].op.now))
  {
    assert IsStep(run[n]) && NextStep(run[n], run[n + 1]);
    TakenAccount(run[n], i);
  }
}
