/** The accounting of the multi-level feedback queue (grass/process.c). */
module Mlfq {
  import opened Processes

  const MLFQ_NLEVELS := 5
  const MLFQ_RESET_PERIOD := 10000000

  function LevelRuntime(level: int): int {
    (level + 1) * 100000
  }

  /** C arithmetic on unsigned 64-bit numbers. */
  function Wrap(x: int): int {
    x % 0x1_0000_0000_0000_0000
  }

  /** mlfq_update_level. */
  function Charge(a: Account, runtime: int): Account {
    var b := a.(totalRuntime := Wrap(a.totalRuntime + runtime),
                levelRuntime := Wrap(a.levelRuntime + runtime),
                cpuRuntime := Wrap(a.cpuRuntime + runtime),
                remaining := Wrap(a.remaining - runtime));
    if b.remaining <= 0 then
      var level := if b.level < MLFQ_NLEVELS - 1 then b.level + 1 else b.level;
      b.(level := level, remaining := LevelRuntime(level), levelRuntime := 0)
    else b
  }

  function InitialAccount(now: int): Account {
    Account(0, LevelRuntime(0), 0, 0, 0, now, 0, 0, 0)
  }

  /** What happens to the account of one process over its life. */
  datatype Event =
    | Ran(runtime: int)  // charged for a slice
    | Reset              // the periodic reset, or the shell's on keyboard input

  function Apply(a: Account, e: Event): Account {
    match e
    case Ran(runtime) => Charge(a, runtime)
    case Reset => a.(level := 0)
  }

  function ApplyAll(a: Account, events: seq<Event>): Account {
    if events == [] then a else Apply(ApplyAll(a, events[..|events| - 1]), events[|events| - 1])
  }

  predicate ValidEvent(e: Event) {
    e.Ran? ==> 0 <= e.runtime < ULL_LIMIT
  }

  function TotalRun(events: seq<Event>): int {
    if events == [] then 0
    else TotalRun(events[..|events| - 1]) + (if events[|events| - 1].Ran? then events[|events| - 1].runtime else 0)
  }

  /** The budget last handed out, recomputed from the history alone. */
  function Allotment(now: int, events: seq<Event>): int {
    if events == [] then LevelRuntime(0)
    else
      var init, last := events[..|events| - 1], events[|events| - 1];
      var before := ApplyAll(InitialAccount(now), init);
      NextAllotment(before, last, Allotment(now, init))
  }

  ghost predicate InRange(a: Account) {
    && 0 <= a.level < MLFQ_NLEVELS
    && 0 < a.remaining < ULL_LIMIT && 0 <= a.levelRuntime < ULL_LIMIT
  }

  lemma WrapShift(x: int, k: int)
    ensures Wrap(x + k * ULL_LIMIT) == Wrap(x)
  {
    var q := x / ULL_LIMIT;
    assert x + k * ULL_LIMIT == (q + k) * ULL_LIMIT + x % ULL_LIMIT;
  }

  lemma WrapAdd(x: int, y: int)
    ensures Wrap(Wrap(x) + y) == Wrap(x + y)
  {
    var k := x / ULL_LIMIT;
    assert x + y == Wrap(x) + y + k * ULL_LIMIT;
    WrapShift(Wrap(x) + y, k);
  }

  lemma WrapMove(x: int, y: int, r: int)
    ensures Wrap(Wrap(x + r) + Wrap(y - r)) == Wrap(x + y)
  {
    WrapAdd(x + r, Wrap(y - r));
    WrapAdd(y - r, x + r);
  }

  lemma ChargeStep(a: Account, runtime: int)
    requires InRange(a) && 0 <= runtime < ULL_LIMIT
    ensures InRange(Charge(a, runtime))
    ensures var b := Charge(a, runtime);
            Wrap(b.levelRuntime + b.remaining)
            == if Wrap(a.remaining - runtime) == 0 then LevelRuntime(b.level) else Wrap(a.levelRuntime + a.remaining)
  {
    if Wrap(a.remaining - runtime) != 0 {
      WrapMove(a.levelRuntime, a.remaining, runtime);
    }
  }

  /** The next allotment, from the account before an event. */
  function NextAllotment(a: Account, e: Event, allotment: int): int {
    if e.Ran? && Wrap(a.remaining - e.runtime) == 0
      then LevelRuntime(if a.level < MLFQ_NLEVELS - 1 then a.level + 1 else a.level)
    else allotment
  }

  lemma AccountingStep(a: Account, e: Event, allotment: int)
    requires InRange(a) && ValidEvent(e) && Wrap(a.levelRuntime + a.remaining) == allotment
    requires LevelRuntime(0) <= allotment <= LevelRuntime(MLFQ_NLEVELS - 1)
    ensures InRange(Apply(a, e))
    ensures Wrap(Apply(a, e).levelRuntime + Apply(a, e).remaining) == NextAllotment(a, e, allotment)
    ensures LevelRuntime(0) <= NextAllotment(a, e, allotment) <= LevelRuntime(MLFQ_NLEVELS - 1)
  {
    if e.Ran? {
      ChargeStep(a, e.runtime);
    }
  }

  lemma {:induction false} TotalsOverRuns(now: int, events: seq<Event>)
    ensures var a := ApplyAll(InitialAccount(now), events);
            a.totalRuntime == a.cpuRuntime == Wrap(TotalRun(events))
  {
    if events != [] {
      var init, last := events[..|events| - 1], events[|events| - 1];
      TotalsOverRuns(now, init);
      if last.Ran? {
        WrapAdd(TotalRun(init), last.runtime);
      }
    }
  }

  /** An account obeys the rules, given the sum of the slices and the last allotment. */
  predicate Budgeted(a: Account, total: int, allotment: int) {
    && 0 <= a.level < MLFQ_NLEVELS && 0 < a.remaining < ULL_LIMIT && 0 <= a.levelRuntime < ULL_LIMIT
    && a.totalRuntime == a.cpuRuntime == Wrap(total) && Wrap(a.levelRuntime + a.remaining) == allotment
  }

  /** Over any run of slices and resets: the level stays in range, both runtimes are the sum of the slices modulo 2^64,
      and what has run at this level plus what remains is the last allotment modulo 2^64. */
  lemma {:induction false} AccountingOverRuns(now: int, events: seq<Event>)
    requires forall k :: 0 <= k < |events| ==> ValidEvent(events[k])
    ensures var a := ApplyAll(InitialAccount(now), events);
            && InRange(a) && Budgeted(a, TotalRun(events), Allotment(now, events))
            && LevelRuntime(0) <= Allotment(now, events) <= LevelRuntime(MLFQ_NLEVELS - 1)
  {
    TotalsOverRuns(now, events);
    if events != [] {
      var init, last := events[..|events| - 1], events[|events| - 1];
      AccountingOverRuns(now, init);
      assert ValidEvent(last);
      var a := ApplyAll(InitialAccount(now), init);
      AccountingStep(a, last, Allotment(now, init));
    }
  }

  // ---------------------------------------------------------------- the budget a scheduler means to keep

  /** The intended rule on unbounded integers: demote as soon as the budget of the level is used up. */
  function IdealCharge(a: Account, runtime: int): Account {
    var b := a.(totalRuntime := a.totalRuntime + runtime,
                levelRuntime := a.levelRuntime + runtime,
                cpuRuntime := a.cpuRuntime + runtime,
                remaining := a.remaining - runtime);
    if b.remaining <= 0 then
      var level := if b.level < MLFQ_NLEVELS - 1 then b.level + 1 else b.level;
      b.(level := level, remaining := LevelRuntime(level), levelRuntime := 0)
    else b
  }

  /** The code demotes when the intended rule does exactly when the slice does not exceed what remains: an overshooting
      slice wraps around and leaves the process at its level with an enormous budget. */
  lemma ChargeAgreesIff(a: Account, runtime: int)
    requires InRange(a) && 0 <= runtime < ULL_LIMIT
    requires a.totalRuntime + runtime < ULL_LIMIT && a.cpuRuntime + runtime < ULL_LIMIT
             && a.levelRuntime + runtime < ULL_LIMIT
    requires 0 <= a.totalRuntime && 0 <= a.cpuRuntime
    ensures Charge(a, runtime) == IdealCharge(a, runtime) <==> runtime <= a.remaining
    ensures runtime > a.remaining ==>
              Charge(a, runtime).level == a.level && Charge(a, runtime).remaining == ULL_LIMIT - (runtime - a.remaining)
  {
  }

  function IdealApplyAll(a: Account, events: seq<Event>): Account {
    if events == [] then a
    else
      var before, last := IdealApplyAll(a, events[..|events| - 1]), events[|events| - 1];
      if last.Ran? then IdealCharge(before, last.runtime) else Apply(before, last)
  }

  /** Every slice so far fitted in what remained of the budget. */
  predicate NoOvershoot(now: int, events: seq<Event>) {
    events == [] ||
    var init, last := events[..|events| - 1], events[|events| - 1];
    NoOvershoot(now, init) && (last.Ran? ==> last.runtime <= IdealApplyAll(InitialAccount(now), init).remaining)
  }

  /** As long as no slice overshoots (and the totals fit 64 bits), the code is the intended machine. */
  lemma {:induction false} IdealOverRuns(now: int, events: seq<Event>)
    requires forall k :: 0 <= k < |events| ==> ValidEvent(events[k])
    requires NoOvershoot(now, events) && TotalRun(events) < ULL_LIMIT
    ensures ApplyAll(InitialAccount(now), events) == IdealApplyAll(InitialAccount(now), events)
    ensures var a := IdealApplyAll(InitialAccount(now), events);
            InRange(a) && 0 <= a.levelRuntime <= a.totalRuntime == a.cpuRuntime == TotalRun(events)
  {
    if events != [] {
      var init, last := events[..|events| - 1], events[|events| - 1];
      assert ValidEvent(last);
      IdealOverRuns(now, init);
      if last.Ran? {
        ChargeAgreesIff(IdealApplyAll(InitialAccount(now), init), last.runtime);
      }
    }
  }

  // ---------------------------------------------------------------- levels by run time

  /** A process gets 100 ms at level 0, 200 ms at level 1, 300 ms at level 2 and 400 ms at level 3. */
  function LevelAfter(microseconds: int): int {
    if microseconds < 100_000 then 0
    else if microseconds < 300_000 then 1
    else if microseconds < 600_000 then 2
    else if microseconds < 1_000_000 then 3
    else 4
  }

  /** What is left at the level is what is missing to the next one. */
  predicate OnSchedule(a: Account, total: int) {
    && a.level == LevelAfter(total) && a.remaining > 0
    && (a.level == 0 ==> total + a.remaining == 100_000)
    && (a.level == 1 ==> total + a.remaining == 300_000)
    && (a.level == 2 ==> total + a.remaining == 600_000)
    && (a.level == 3 ==> total + a.remaining == 1_000_000)
  }

  lemma StaysOnSchedule(a: Account, total: int, runtime: int)
    requires OnSchedule(a, total) && 0 <= runtime <= a.remaining
    ensures OnSchedule(IdealCharge(a, runtime), total + runtime)
  {
  }

  /** As long as no slice overshoots and no level is reset, the level of a process follows from how long it has run. */
  lemma {:induction false} LevelByRuntime(now: int, events: seq<Event>)
    requires forall k :: 0 <= k < |events| ==> events[k].Ran? && ValidEvent(events[k])
    requires NoOvershoot(now, events) && TotalRun(events) < ULL_LIMIT
    ensures OnSchedule(ApplyAll(InitialAccount(now), events), TotalRun(events))
  {
    IdealOverRuns(now, events);
    if events != [] {
      var init, last := events[..|events| - 1], events[|events| - 1];
      assert last.Ran? && ValidEvent(last);
      LevelByRuntime(now, init);
      IdealOverRuns(now, init);
      StaysOnSchedule(IdealApplyAll(InitialAccount(now), init), TotalRun(init), last.runtime);
    }
  }
}
