/** What one pass through proc_yield does to the process table, apart from the rendezvous (grass/kernel.c,
    process.c). */
module Scheduling {
  import opened Processes
  import opened Mlfq
  import opened Ipc

  // ---------------------------------------------------------------- status

  /** proc_set_status: all slots but the last with this pid. */
  function WithStatus(ps: Table, pid: int, status: Status): (r: Table)
    ensures |r| == |ps|
    ensures forall i :: 0 <= i < |ps| ==>
              r[i] == if i < MAX_NPROCESS && ps[i].pid == pid then ps[i].(status := status) else ps[i]
  {
    seq(|ps|, i requires 0 <= i < |ps| => if i < MAX_NPROCESS && ps[i].pid == pid then ps[i].(status := status)
        else ps[i])
  }

  /** Only one slot has the pid of a live process. */
  lemma WithStatusIsUpdate(ps: Table, user: UserCalls, i: int, status: Status)
    requires TableOk(ps, user) && 0 <= i < MAX_NPROCESS && ps[i].pid > 0
    ensures WithStatus(ps, ps[i].pid, status) == ps[i := ps[i].(status := status)]
  {
  }

  // ---------------------------------------------------------------- accounting

  /** The clock values, keyboard state and reset timer that one yield sees. */
  datatype Tick = Tick(now: int, nowReset: int, ttyInput: bool, lastReset: int)

  predicate ResetDue(t: Tick) {
    t.lastReset != 0 && Wrap(t.nowReset - t.lastReset) >= MLFQ_RESET_PERIOD
  }

  function NextReset(t: Tick): int {
    if t.lastReset == 0 || ResetDue(t) then t.nowReset else t.lastReset
  }

  /** The account of process p in slot i after charging slot c and resetting levels. */
  function NewAccount(p: Process, i: int, c: int, t: Tick): Account {
    var a := if i == c && p.status != Unused && p.account.lastScheduled > 0
             then Charge(p.account, Wrap(t.now - p.account.lastScheduled)) else p.account;
    if i < MAX_NPROCESS && ((t.ttyInput && p.pid == GPID_SHELL) || (ResetDue(t) && p.status != Unused))
    then a.(level := 0) else a
  }

  function Accounted(ps: Table, c: int, t: Tick): (r: Table)
    ensures |r| == |ps|
    ensures forall i :: 0 <= i < |ps| ==> r[i] == ps[i].(account := NewAccount(ps[i], i, c, t))
  {
    seq(|ps|, i requires 0 <= i < |ps| => ps[i].(account := NewAccount(ps[i], i, c, t)))
  }

  lemma NewAccountLevel(p: Process, i: int, c: int, t: Tick)
    requires 0 <= p.account.level < 5
    ensures 0 <= NewAccount(p, i, c, t).level < 5
    ensures i != c ==> NewAccount(p, i, c, t).level == p.account.level || NewAccount(p, i, c, t).level == 0
  {
  }

  lemma AccountedOk(ps: Table, user: UserCalls, c: int, t: Tick)
    requires TableOk(ps, user)
    ensures TableOk(Accounted(ps, c, t), user)
  {
    forall i | 0 <= i < |ps|
      ensures ProcessOk(Accounted(ps, c, t)[i], user)
    {
      assert ProcessOk(ps[i], user);
      NewAccountLevel(ps[i], i, c, t);
    }
  }

  /** Accounting does not look at system calls, so it commutes with the progress of a match. */
  lemma AccountedInPhase(ps0: Table, user0: UserCalls, phase: Phase, ps: Table, user: UserCalls, c: int, t: Tick,
                         sending: bool)
    requires InPhase(ps0, user0, phase, ps, user) && !phase.Matched? && OnlyWith(ps0, c, sending)
    ensures InPhase(Accounted(ps0, c, t), user0, phase, Accounted(ps, c, t), user)
    ensures OnlyWith(Accounted(ps0, c, t), c, sending)
    ensures forall s, d :: Pair(Accounted(ps0, c, t), s, d) <==> Pair(ps0, s, d)
  {
    AccountedOk(ps0, user0, c, t);
    var qs0, qs := Accounted(ps0, c, t), Accounted(ps, c, t);
    assert forall s, d :: Pair(qs0, s, d) <==> Pair(ps0, s, d);
    var base, qbase := if phase.Linked? then Marked(ps0, phase.s, phase.d) else ps0,
                       if phase.Linked? then Marked(qs0, phase.s, phase.d) else qs0;
    forall i | 0 <= i < |ps|
      ensures AlikeProcess(qbase[i], qs[i])
    {
      assert AlikeProcess(base[i], ps[i]);
    }
  }

  // ---------------------------------------------------------------- choice

  /** Slot i can be chosen.  In the scan that releases a sender after passing it, that sender (skip) is not
      considered. */
  predicate Eligible(ps: Table, skip: int, i: int)
    requires 0 <= i < |ps|
  {
    Schedulable(ps[i]) && i != skip
  }

  function At(c: int, k: int): int {
    (c + k) % 16
  }

  /** Of the first n slots after c, next is the first eligible one at the lowest level, or MAX_NPROCESS if none is. */
  ghost predicate Chosen(ps: Table, skip: int, c: int, n: int, lowest: int, next: int)
    requires |ps| == MAX_NPROCESS + 1
  {
    if next == MAX_NPROCESS then lowest == 5 && forall k :: 1 <= k <= n ==> !Eligible(ps, skip, At(c, k))
    else exists j :: 1 <= j <= n && ChosenAt(ps, skip, c, n, lowest, next, j)
  }

  ghost predicate ChosenAt(ps: Table, skip: int, c: int, n: int, lowest: int, next: int, j: int)
    requires |ps| == MAX_NPROCESS + 1
  {
    && next == At(c, j) && Eligible(ps, skip, next) && ps[next].account.level == lowest < 5
    && forall k :: 1 <= k <= n && Eligible(ps, skip, At(c, k)) ==>
                     ps[At(c, k)].account.level >= lowest && (k < j ==> ps[At(c, k)].account.level > lowest)
  }

  lemma ChosenStep(ps: Table, skip: int, c: int, n: int, lowest: int, next: int)
    requires |ps| == MAX_NPROCESS + 1 && 0 <= n < MAX_NPROCESS && Chosen(ps, skip, c, n, lowest, next)
    requires forall i :: 0 <= i < |ps| ==> 0 <= ps[i].account.level < 5
    ensures var i := At(c, n + 1);
            Chosen(ps, skip, c, n + 1,
                   if Eligible(ps, skip, i) && ps[i].account.level < lowest then ps[i].account.level else lowest,
                   if Eligible(ps, skip, i) && ps[i].account.level < lowest then i else next)
  {
    var i := At(c, n + 1);
    if Eligible(ps, skip, i) && ps[i].account.level < lowest {
      assert ChosenAt(ps, skip, c, n + 1, ps[i].account.level, i, n + 1);
    } else if next != MAX_NPROCESS {
      var j :| 1 <= j <= n && ChosenAt(ps, skip, c, n, lowest, next, j);
      assert ChosenAt(ps, skip, c, n + 1, lowest, next, j);
    }
  }

  /** The choice made so far stands when statuses and levels of the slots passed so far stay as they were seen. */
  lemma ChosenFrame(ps: Table, ps': Table, skip: int, skip': int, c: int, n: int, lowest: int, next: int)
    requires |ps| == |ps'| == MAX_NPROCESS + 1 && Chosen(ps, skip, c, n, lowest, next)
    requires forall k :: 1 <= k <= n ==>
               && (Eligible(ps', skip', At(c, k)) <==> Eligible(ps, skip, At(c, k)))
               && ps'[At(c, k)].account.level == ps[At(c, k)].account.level
    ensures Chosen(ps', skip', c, n, lowest, next)
  {
    if next != MAX_NPROCESS {
      var j :| 1 <= j <= n && ChosenAt(ps, skip, c, n, lowest, next, j);
      assert ChosenAt(ps', skip', c, n, lowest, next, j);
    }
  }

  /** The 16 slots after c are all slots but the last. */
  lemma AllPassed(c: int, i: int) returns (k: int)
    requires 0 <= c < MAX_NPROCESS && 0 <= i < MAX_NPROCESS
    ensures 1 <= k <= MAX_NPROCESS && At(c, k) == i
    ensures i == c ==> k == MAX_NPROCESS
  {
    k := if i > c then i - c else i - c + MAX_NPROCESS;
  }

  // ---------------------------------------------------------------- dispatch

  function Dispatched(ps: Table, next: int, now: int): Table
    requires 0 <= next < |ps|
  {
    var a := ps[next].account.(lastScheduled := now);
    var b := if a.firstScheduled == 0 then a.(firstScheduled := now) else a;
    ps[next := ps[next].(account := b, status := Running)]
  }
}
