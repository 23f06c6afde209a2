/** The kernel: system calls, timer interrupts, the scheduling scan and the process table (grass/kernel.c,
    process.c). */
module Kernel {
  import opened Wrappers
  import opened Processes
  import opened Mlfq
  import opened Ipc
  import opened Scheduling

  // ---------------------------------------------------------------- the scan, on values

  function SkipOf(phase: Phase, c: int): int {
    if phase.Matched? && phase.d == c then phase.s else -1
  }

  /** In the order of the scan that begins after c, no slot before s could send to anyone. */
  ghost predicate FirstSender(ps: Table, c: int, s: int)
    requires |ps| == MAX_NPROCESS + 1
  {
    exists j :: 1 <= j <= MAX_NPROCESS && At(c, j) == s && forall k, d :: 1 <= k < j ==> !Pair(ps, At(c, k), d)
  }

  /** After visiting the first n slots after c. */
  ghost predicate Scanned(ps0: Table, user0: UserCalls, c: int, sending: bool, phase: Phase, ps: Table, user: UserCalls,
                          n: int, lowest: int, next: int)
  {
    && InPhase(ps0, user0, phase, ps, user) && |ps| == MAX_NPROCESS + 1
    && OnlyWith(ps0, c, sending)
    && (phase.Open? ==> && (forall k, d :: 1 <= k <= n ==> !Pair(ps0, At(c, k), d))
                        && (sending ==> forall s, d :: !Pair(ps0, s, d)))
    && (phase.Linked? ==> forall k :: 1 <= k <= n ==> At(c, k) != phase.d)
    && (phase.Matched? && phase.d == c ==> n == MAX_NPROCESS)
    && (!phase.Open? && phase.d == c ==> FirstSender(ps0, c, phase.s))
    && Chosen(ps, SkipOf(phase, c), c, n, lowest, next)
  }

  /** Releasing the two processes of a linked match. */
  lemma ReleaseBoth(ps0: Table, user0: UserCalls, s: int, d: int, ps: Table, user: UserCalls)
    requires InPhase(ps0, user0, Linked(s, d), ps, user)
    ensures |ps| == MAX_NPROCESS + 1 && 0 <= d < MAX_NPROCESS && ps[d].pid == ps0[d].pid
            && ps[d].syscall == MarkedCall(ps0, s, d)
    ensures var ps2 := WithStatus(WithStatus(ps, ps[d].pid, Runnable), ps[d].syscall.sender, Runnable);
            && InPhase(ps0, user0, Matched(s, d), ps2, user[ps[d].pid := ps[d].syscall])
            && ps2 == ps[d := ps[d].(status := Runnable)][s := ps[s].(status := Runnable)]
  {
    PhaseOk(ps0, user0, Linked(s, d), ps, user);
    DeliveredOk(ps0, user0, s, d);
    var base := Marked(ps0, s, d);
    assert AlikeProcess(base[s], ps[s]) && AlikeProcess(base[d], ps[d]);
    assert ps[d] == base[d] && ps[s] == base[s];
    assert ProcessOk(ps[s], user) && ProcessOk(ps[d], user);
    WithStatusIsUpdate(ps, user, d, Runnable);
    var ps1 := ps[d := ps[d].(status := Runnable)];
    var ps2 := ps1[s := ps1[s].(status := Runnable)];
    assert WithStatus(ps1, ps[s].pid, Runnable) == ps2 by {
      assert forall i :: 0 <= i < |ps| ==> ps1[i].pid == ps[i].pid;
      assert forall i :: 0 <= i < |ps| && i != s ==> ps[i].pid != ps[s].pid;
    }
    forall i | 0 <= i < |ps|
      ensures AlikeProcess(Delivered(ps0, s, d)[i], ps2[i])
    {
      assert AlikeProcess(base[i], ps[i]);
    }
  }

  /** A pending sender whose receiver does not exist: the kernel halts when it comes across one. */
  predicate Orphan(ps: Table, s: int)
    requires |ps| == MAX_NPROCESS + 1
  {
    && 0 <= s < MAX_NPROCESS && Blocked(ps[s]) && ps[s].syscall.kind == SYS_SEND
    && forall d :: 0 <= d < MAX_NPROCESS ==> !IsTarget(ps, d, ps[s].syscall.receiver)
  }

  /** A scan neither makes nor removes orphans. */
  lemma OrphanStays(ps0: Table, user0: UserCalls, phase: Phase, ps: Table, user: UserCalls, i: int)
    requires InPhase(ps0, user0, phase, ps, user) && |ps| == MAX_NPROCESS + 1 && 0 <= i < MAX_NPROCESS
    ensures |ps0| == MAX_NPROCESS + 1 && (Orphan(ps, i) <==> Orphan(ps0, i))
  {
    forall j | 0 <= j < MAX_NPROCESS
      ensures ps[j].pid == ps0[j].pid && (ps[j].status == Unused <==> ps0[j].status == Unused)
      ensures Blocked(ps[j]) ==> Blocked(ps0[j])
      ensures Blocked(ps0[j]) && !Blocked(ps[j]) ==> exists s, d :: Pair(ps0, s, d) && (j == s || j == d)
      ensures Blocked(ps0[j]) && ps0[j].syscall.kind == SYS_SEND && Blocked(ps[j]) ==> ps[j].syscall == ps0[j].syscall
      ensures Blocked(ps[j]) && ps[j].syscall.kind == SYS_SEND ==> ps[j].syscall == ps0[j].syscall
    {
      var base :=
        match phase
        case Open => ps0
        case Linked(s, d) => Marked(ps0, s, d)
        case Matched(s, d) => Delivered(ps0, s, d);
      assert AlikeProcess(base[j], ps[j]);
    }
    SameOrphan(ps0, ps, i);
  }

  lemma SameOrphan(ps0: Table, ps: Table, i: int)
    requires |ps0| == |ps| == MAX_NPROCESS + 1 && 0 <= i < MAX_NPROCESS
    requires forall j :: 0 <= j < MAX_NPROCESS ==>
               ps[j].pid == ps0[j].pid && (ps[j].status == Unused <==> ps0[j].status == Unused)
    requires Blocked(ps[i]) ==> Blocked(ps0[i])
    requires Blocked(ps0[i]) && !Blocked(ps[i]) ==> exists s, d :: Pair(ps0, s, d) && (i == s || i == d)
    requires Blocked(ps0[i]) && ps0[i].syscall.kind == SYS_SEND && Blocked(ps[i]) ==> ps[i].syscall == ps0[i].syscall
    requires Blocked(ps[i]) && ps[i].syscall.kind == SYS_SEND ==> ps[i].syscall == ps0[i].syscall
    ensures Orphan(ps, i) <==> Orphan(ps0, i)
  {
    forall d, pid | 0 <= d < MAX_NPROCESS
      ensures IsTarget(ps, d, pid) <==> IsTarget(ps0, d, pid)
    {
    }
    if Blocked(ps0[i]) && !Blocked(ps[i]) {
      var s, d :| Pair(ps0, s, d) && (i == s || i == d);
      assert i == s ==> IsTarget(ps0, d, ps0[i].syscall.receiver);
    }
  }

  /** What a visit leaves to the next one. */
  ghost predicate Visited(ps0: Table, user0: UserCalls, c: int, sending: bool, phase: Phase, ps: Table, user: UserCalls,
                          n: int, lowest: int, next: int)
  {
    && InPhase(ps0, user0, phase, ps, user) && |ps| == MAX_NPROCESS + 1
    && OnlyWith(ps0, c, sending)
    && (phase.Open? ==> && (forall k, d :: 1 <= k <= n + 1 ==> !Pair(ps0, At(c, k), d))
                        && (sending ==> forall s, d :: !Pair(ps0, s, d)))
    && (phase.Linked? ==> forall k :: 1 <= k <= n + 1 ==> At(c, k) != phase.d)
    && (phase.Matched? && phase.d == c ==> n + 1 == MAX_NPROCESS)
    && (!phase.Open? && phase.d == c ==> FirstSender(ps0, c, phase.s))
    && Chosen(ps, SkipOf(phase, c), c, n, lowest, next)
  }

  lemma AfterOther(ps0: Table, user0: UserCalls, c: int, sending: bool, phase: Phase, ps: Table, user: UserCalls,
                   n: int, lowest: int, next: int)
    requires Scanned(ps0, user0, c, sending, phase, ps, user, n, lowest, next) && 0 <= n < MAX_NPROCESS
    requires 0 < c < MAX_NPROCESS && !Blocked(ps[At(c, n + 1)])
    ensures Visited(ps0, user0, c, sending, phase, ps, user, n, lowest, next)
  {
    if phase.Open? {
      assert AlikeProcess(ps0[At(c, n + 1)], ps[At(c, n + 1)]);
    } else if phase.Linked? {
      assert AlikeProcess(Marked(ps0, phase.s, phase.d)[phase.d], ps[phase.d]);
    }
  }

  /** Visiting a blocked receiver releases the linked match, if it is this receiver's. */
  lemma AfterReceiver(ps0: Table, user0: UserCalls, c: int, sending: bool, phase: Phase, ps: Table, user: UserCalls,
                      n: int, lowest: int, next: int, ps': Table, user': UserCalls) returns (phase': Phase)
    requires Scanned(ps0, user0, c, sending, phase, ps, user, n, lowest, next) && 0 < c < MAX_NPROCESS
             && 0 <= n < MAX_NPROCESS
    requires var p := ps[At(c, n + 1)];
             && Blocked(p) && p.syscall.kind == SYS_RECV
             && (p.syscall.status == Pending ==> ps' == ps && user' == user)
             && (p.syscall.status == Done ==>
                   && user' == user[p.pid := p.syscall]
                   && ps' == WithStatus(WithStatus(ps, p.pid, Runnable), p.syscall.sender, Runnable))
    ensures Visited(ps0, user0, c, sending, phase', ps', user', n, lowest, next)
  {
    var i := At(c, n + 1);
    VisitReceiver(ps0, user0, phase, ps, user, i);
    phase' := phase;
    if ps[i].syscall.status == Done {
      var s, d := phase.s, phase.d;
      ReleaseBoth(ps0, user0, s, d, ps, user);
      phase' := Matched(s, d);
      ReleasedNotSeen(ps0, user0, c, sending, s, d, ps, user, n, ps');
      ChosenFrame(ps, ps', -1, SkipOf(phase', c), c, n, lowest, next);
    } else {
      assert phase.Open? ==> forall d :: !Pair(ps0, i, d) by {
        if phase.Open? { assert AlikeProcess(ps0[i], ps[i]); }
      }
    }
  }

  /** The processes released at visit n + 1 were not eligible when the first n slots were passed, and stay so. */
  lemma ReleasedNotSeen(ps0: Table, user0: UserCalls, c: int, sending: bool, s: int, d: int, ps: Table, user: UserCalls,
                        n: int, ps': Table)
    requires InPhase(ps0, user0, Linked(s, d), ps, user) && |ps| == MAX_NPROCESS + 1 && OnlyWith(ps0, c, sending)
    requires 0 < c < MAX_NPROCESS && 0 <= n < MAX_NPROCESS && d == At(c, n + 1)
    requires forall k :: 1 <= k <= n ==> At(c, k) != d
    requires ps' == ps[d := ps[d].(status := Runnable)][s := ps[s].(status := Runnable)]
    ensures forall k :: 1 <= k <= n ==>
              && (Eligible(ps', SkipOf(Matched(s, d), c), At(c, k)) <==> Eligible(ps, -1, At(c, k)))
              && ps'[At(c, k)].account.level == ps[At(c, k)].account.level
  {
    DeliveredOk(ps0, user0, s, d);
    assert AlikeProcess(Marked(ps0, s, d)[s], ps[s]);
    assert Pair(ps0, s, d);
    assert !Schedulable(ps[s]);
    if d != c {
      assert s == c;
    }
  }

  lemma SenderLinks(ps0: Table, user0: UserCalls, c: int, sending: bool, phase: Phase, ps: Table, user: UserCalls,
                    n: int, lowest: int, next: int, i: int, d: int)
    requires Scanned(ps0, user0, c, sending, phase, ps, user, n, lowest, next) && 0 < c < MAX_NPROCESS
             && 0 <= n < MAX_NPROCESS
    requires i == At(c, n + 1) && Blocked(ps[i]) && ps[i].syscall.kind == SYS_SEND
             && IsTarget(ps, d, ps[i].syscall.receiver)
    requires Accepts(ps[d], ps[i].pid) && Blocked(ps[d])
    ensures Visited(ps0, user0, c, sending, Linked(i, d), Marked(ps, i, d), user, n, lowest, next)
  {
    VisitSender(ps0, user0, phase, ps, user, c, sending, i, d);
    SenderPassed(ps0, user0, c, sending, phase, ps, user, n, i, d);
    ChosenFrame(ps, Marked(ps, i, d), -1, -1, c, n, lowest, next);
  }

  lemma SenderWaits(ps0: Table, user0: UserCalls, c: int, sending: bool, phase: Phase, ps: Table, user: UserCalls,
                    n: int, lowest: int, next: int, i: int, d: int, ps': Table)
    requires Scanned(ps0, user0, c, sending, phase, ps, user, n, lowest, next) && 0 < c < MAX_NPROCESS
             && 0 <= n < MAX_NPROCESS
    requires i == At(c, n + 1) && Blocked(ps[i]) && ps[i].syscall.kind == SYS_SEND
             && IsTarget(ps, d, ps[i].syscall.receiver)
    requires !(Accepts(ps[d], ps[i].pid) && Blocked(ps[d]))
    requires ps' == if Accepts(ps[d], ps[i].pid) then Marked(ps, i, d) else ps
    ensures Visited(ps0, user0, c, sending, phase, ps', user, n, lowest, next)
  {
    VisitSender(ps0, user0, phase, ps, user, c, sending, i, d);
    SenderPassed(ps0, user0, c, sending, phase, ps, user, n, i, d);
    ChosenFrame(ps, ps', SkipOf(phase, c), SkipOf(phase, c), c, n, lowest, next);
    if phase.Open? {
      NoPartner(ps0, ps, i, d);
      assert forall d' :: !Pair(ps0, i, d');
    }
  }

  lemma NoPartner(ps0: Table, ps: Table, i: int, d: int)
    requires |ps0| == |ps| == MAX_NPROCESS + 1 && Alike(ps0, ps) && 0 <= i < |ps| && 0 <= d < |ps|
    requires Blocked(ps[i]) && !(Accepts(ps[d], ps[i].pid) && Blocked(ps[d]))
    ensures !Pair(ps0, i, d)
  {
    assert AlikeProcess(ps0[i], ps[i]) && AlikeProcess(ps0[d], ps[d]);
  }

  /** Visiting a blocked sender links the match that involves c, if this sender makes it. */
  lemma AfterSender(ps0: Table, user0: UserCalls, c: int, sending: bool, phase: Phase, ps: Table, user: UserCalls,
                    n: int, lowest: int, next: int, ps': Table) returns (phase': Phase)
    requires Scanned(ps0, user0, c, sending, phase, ps, user, n, lowest, next) && 0 < c < MAX_NPROCESS
             && 0 <= n < MAX_NPROCESS
    requires var p := ps[At(c, n + 1)];
             && Blocked(p) && p.syscall.kind == SYS_SEND
             && exists d :: IsTarget(ps, d, p.syscall.receiver)
                            && ps' == if Accepts(ps[d], p.pid) then Marked(ps, At(c, n + 1), d) else ps
    ensures Visited(ps0, user0, c, sending, phase', ps', user, n, lowest, next)
  {
    var i := At(c, n + 1);
    var d :| IsTarget(ps, d, ps[i].syscall.receiver) && ps' == if Accepts(ps[d], ps[i].pid) then Marked(ps, i, d)
      else ps;
    if Accepts(ps[d], ps[i].pid) && Blocked(ps[d]) {
      SenderLinks(ps0, user0, c, sending, phase, ps, user, n, lowest, next, i, d);
      phase' := Linked(i, d);
    } else {
      SenderWaits(ps0, user0, c, sending, phase, ps, user, n, lowest, next, i, d, ps');
      phase' := phase;
    }
  }

  lemma SenderPassed(ps0: Table, user0: UserCalls, c: int, sending: bool, phase: Phase, ps: Table, user: UserCalls,
                     n: int, i: int, d: int)
    requires i == At(c, n + 1)
    requires InPhase(ps0, user0, phase, ps, user) && |ps| == MAX_NPROCESS + 1 && OnlyWith(ps0, c, sending)
    requires 0 < c < MAX_NPROCESS && 0 <= n < MAX_NPROCESS
    requires var p := ps[i]; Blocked(p) && p.syscall.kind == SYS_SEND && IsTarget(ps, d, p.syscall.receiver)
    requires phase.Open? ==> sending ==> forall s, d' :: !Pair(ps0, s, d')
    requires phase.Open? ==> forall k, d' :: 1 <= k <= n ==> !Pair(ps0, At(c, k), d')
    ensures phase.Open? ==> FirstSender(ps0, c, i)
    ensures phase.Open? ==> forall d' :: Pair(ps0, i, d') ==> d' == d
    ensures phase.Open? && Pair(ps0, i, d) ==> d == c && forall k :: 1 <= k <= n + 1 ==> At(c, k) != d
    ensures phase.Linked? ==> i != phase.d
  {
    if phase.Open? {
      assert AlikeProcess(ps0[i], ps[i]) && AlikeProcess(ps0[d], ps[d]);
      forall d' | Pair(ps0, i, d')
        ensures d' == d
      {
        UniqueTarget(ps0, user0, d, d', ps0[i].syscall.receiver);
      }
      if Pair(ps0, i, d) {
        assert ps0[d].syscall.kind == SYS_RECV;
      }
    } else if phase.Linked? {
      assert AlikeProcess(Marked(ps0, phase.s, phase.d)[i], ps[i]);
    }
  }

  /** The slot just visited competes with the best one so far. */
  lemma NextVisit(ps0: Table, user0: UserCalls, c: int, sending: bool, phase: Phase, ps: Table, user: UserCalls,
                  n: int, lowest: int, next: int, lowest': int, next': int)
    requires Visited(ps0, user0, c, sending, phase, ps, user, n, lowest, next)
    requires 0 < c < MAX_NPROCESS && 0 <= n < MAX_NPROCESS
    requires var i := At(c, n + 1);
             var better := Schedulable(ps[i]) && ps[i].account.level < lowest;
             lowest' == (if better then ps[i].account.level else lowest) && next' == (if better then i else next)
    ensures Scanned(ps0, user0, c, sending, phase, ps, user, n + 1, lowest', next')
  {
    PhaseOk(ps0, user0, phase, ps, user);
    assert forall j :: 0 <= j < |ps| ==> ProcessOk(ps[j], user);
    ChosenStep(ps, SkipOf(phase, c), c, n, lowest, next);
  }

  /** The table with the one match of a finished scan carried out. */
  function Settled(ps: Table, phase: Phase): Table
    requires phase.Matched? ==> 0 <= phase.s < |ps| && 0 <= phase.d < |ps|
  {
    if phase.Matched? then Delivered(ps, phase.s, phase.d) else ps
  }

  /** After a whole scan: the match, if there was one to make, has been carried out, and none is left to make. */
  lemma ScanComplete(ps0: Table, user0: UserCalls, c: int, sending: bool, phase: Phase, ps: Table, user: UserCalls,
                     lowest: int, next: int)
    requires Scanned(ps0, user0, c, sending, phase, ps, user, MAX_NPROCESS, lowest, next) && 0 < c < MAX_NPROCESS
    ensures !phase.Linked? && (phase.Matched? ==> Pair(ps0, phase.s, phase.d))
    ensures phase.Open? <==> forall s, d :: !Pair(ps0, s, d)
    ensures Alike(Settled(ps0, phase), ps) && Quiescent(ps)
  {
    if phase.Linked? {
      var k := AllPassed(c, phase.d);
    }
    if phase.Open? {
      forall s, d | 0 <= s < MAX_NPROCESS
        ensures !Pair(ps0, s, d)
      {
        var k := AllPassed(c, s);
        assert !Pair(ps0, At(c, k), d);
      }
    }
    SettledQuiet(ps0, user0, c, sending, phase, ps, user);
  }

  lemma SettledQuiet(ps0: Table, user0: UserCalls, c: int, sending: bool, phase: Phase, ps: Table, user: UserCalls)
    requires InPhase(ps0, user0, phase, ps, user) && OnlyWith(ps0, c, sending) && |ps| == MAX_NPROCESS + 1
             && !phase.Linked?
    requires phase.Open? ==> forall s, d :: !Pair(ps0, s, d)
    ensures Quiescent(ps)
  {
    var base := Settled(ps0, phase);
    forall i | 0 <= i < MAX_NPROCESS && Blocked(ps[i])
      ensures ps[i] == ps0[i]
    {
      assert AlikeProcess(base[i], ps[i]);
    }
    forall s, d
      ensures !Pair(ps, s, d)
    {
      assert Pair(ps, s, d) ==> Pair(ps0, s, d);
      if phase.Matched? && Pair(ps0, s, d) {
        PairsCoincide(ps0, user0, c, sending, phase.s, phase.d, s, d);
      }
    }
  }

  /** proc_yield's first statement: a process that was running becomes runnable. */
  function Rested(ps: Table, c: int): Table
    requires 0 <= c < |ps|
  {
    if ps[c].status == Running then WithStatus(ps, ps[c].pid, Runnable) else ps
  }

  /** What a yield of slot c does: the one possible match is carried out, accounts are brought up to date, and the first
      eligible process at the lowest level is dispatched.  No match is left possible or half done. */
  ghost predicate Yielded(ps0: Table, user0: UserCalls, c: int, t: Tick, phase: Phase, ps: Table, user: UserCalls,
                          next: int)
    requires 0 <= c < |ps0|
  {
    |ps0| == MAX_NPROCESS + 1 && YieldedFrom(ps0, Accounted(ps0, c, t), user0, c, phase, t.now, ps, user, next)
  }

  /** The same, with the table after accounting, ps1, given. */
  ghost predicate YieldedFrom(ps0: Table, ps1: Table, user0: UserCalls, c: int, phase: Phase, now: int, ps: Table,
                              user: UserCalls, next: int)
  {
    && |ps0| == |ps1| == |ps| == MAX_NPROCESS + 1 && 0 < next < MAX_NPROCESS
    && !phase.Linked?
    && (phase.Matched? ==> Pair(ps1, phase.s, phase.d))
    && (phase.Open? <==> forall s, d :: !Pair(ps0, s, d))
    && (phase.Matched? && phase.d == c ==> FirstSender(ps0, c, phase.s))
    && (exists lowest :: Chosen(Settled(ps1, phase), SkipOf(phase, c), c, MAX_NPROCESS, lowest, next))
    && Alike(Dispatched(Settled(ps1, phase), next, now), ps)
    && user == (if phase.Matched? then user0[ps0[phase.d].pid := MarkedCall(ps0, phase.s, phase.d)] else user0)
    && Quiescent(ps) && TableOk(ps, user)
    && ps[next].status == Running
  }

  /** The outcome of the scan alone: ps1 is the table before it, after accounting. */
  ghost predicate Selected(ps1: Table, user0: UserCalls, c: int, phase: Phase, ps: Table, user: UserCalls, next: int)
  {
    && |ps1| == |ps| == MAX_NPROCESS + 1 && 0 <= next < MAX_NPROCESS
    && !phase.Linked?
    && (phase.Matched? ==> Pair(ps1, phase.s, phase.d))
    && (phase.Open? <==> forall s, d :: !Pair(ps1, s, d))
    && (phase.Matched? && phase.d == c ==> FirstSender(ps1, c, phase.s))
    && (exists lowest :: Chosen(Settled(ps1, phase), SkipOf(phase, c), c, MAX_NPROCESS, lowest, next))
    && Alike(Settled(ps1, phase), ps)
    && user == (if phase.Matched? then user0[ps1[phase.d].pid := MarkedCall(ps1, phase.s, phase.d)] else user0)
    && Quiescent(ps) && TableOk(ps, user) && Schedulable(ps[next])
  }

  lemma NextIsLive(ps: Table, user: UserCalls, next: int)
    requires TableOk(ps, user) && 0 <= next < |ps| && Schedulable(ps[next])
    ensures 0 < next && ps[next].pid > 0
  {
    assert ProcessOk(ps[next], user);
  }

  lemma SameMarkedCall(ps0: Table, ps1: Table, s: int, d: int)
    requires |ps1| == |ps0| && 0 <= s < |ps0| && 0 <= d < |ps0|
    requires forall i :: 0 <= i < |ps0| ==> ps1[i].pid == ps0[i].pid && ps1[i].syscall == ps0[i].syscall
    ensures MarkedCall(ps1, s, d) == MarkedCall(ps0, s, d) && ps1[d].pid == ps0[d].pid
  {
  }

  lemma SameFirstSender(ps0: Table, ps1: Table, c: int, s: int)
    requires |ps0| == |ps1| == MAX_NPROCESS + 1 && FirstSender(ps1, c, s)
    requires forall s, d :: Pair(ps1, s, d) <==> Pair(ps0, s, d)
    ensures FirstSender(ps0, c, s)
  {
    var j :| 1 <= j <= MAX_NPROCESS && At(c, j) == s && forall k, d :: 1 <= k < j ==> !Pair(ps1, At(c, k), d);
    assert forall k, d :: 1 <= k < j ==> !Pair(ps0, At(c, k), d);
  }

  lemma SelectedThenDispatched(ps0: Table, ps1: Table, user0: UserCalls, c: int, phase: Phase, now: int, ps: Table,
                               user: UserCalls, next: int)
    requires |ps0| == |ps1| == MAX_NPROCESS + 1 && Selected(ps1, user0, c, phase, ps, user, next)
    requires forall i :: 0 <= i < |ps0| ==> ps1[i].pid == ps0[i].pid && ps1[i].syscall == ps0[i].syscall
    requires forall s, d :: Pair(ps1, s, d) <==> Pair(ps0, s, d)
    ensures 0 < next && ps[next].pid > 0
    ensures YieldedFrom(ps0, ps1, user0, c, phase, now, Dispatched(ps, next, now), user, next)
  {
    NextIsLive(ps, user, next);
    if phase.Matched? {
      SameMarkedCall(ps0, ps1, phase.s, phase.d);
      if phase.d == c {
        SameFirstSender(ps0, ps1, c, phase.s);
      }
    }
    DispatchKeeps(Settled(ps1, phase), ps, user, next, now);
  }

  lemma AccountedHalts(ps0: Table, c: int, t: Tick)
    requires |ps0| == MAX_NPROCESS + 1
    ensures Halts(Accounted(ps0, c, t)) <==> Halts(ps0)
  {
    var ps1 := Accounted(ps0, c, t);
    forall s, d | 0 <= d < MAX_NPROCESS
      ensures IsTarget(ps1, d, s) <==> IsTarget(ps0, d, s)
    {
    }
    forall s
      ensures Orphan(ps1, s) <==> Orphan(ps0, s)
    {
    }
    assert forall s, d :: Pair(ps1, s, d) <==> Pair(ps0, s, d);
  }

  /** None of the first n slots of a scan from c is an orphan. */
  ghost predicate NoneUpTo(ps0: Table, c: int, n: int)
    requires |ps0| == MAX_NPROCESS + 1
  {
    forall k {:trigger At(c, k)} :: 1 <= k <= n ==> !Orphan(ps0, At(c, k))
  }

  lemma NoneNext(ps0: Table, c: int, n: int)
    requires |ps0| == MAX_NPROCESS + 1 && NoneUpTo(ps0, c, n - 1) && !Orphan(ps0, At(c, n))
    ensures NoneUpTo(ps0, c, n)
  {
  }

  lemma NoOrphan(ps0: Table, c: int)
    requires |ps0| == MAX_NPROCESS + 1 && 0 < c < MAX_NPROCESS
    requires NoneUpTo(ps0, c, MAX_NPROCESS)
    ensures forall s :: !Orphan(ps0, s)
  {
    forall s | 0 <= s < MAX_NPROCESS
      ensures !Orphan(ps0, s)
    {
      var k := AllPassed(c, s);
    }
  }

  /** The kernel halts in a yield: a pending sender has no receiver, or nothing can run. */
  ghost predicate Halts(ps: Table)
    requires |ps| == MAX_NPROCESS + 1
  {
    (exists s :: Orphan(ps, s)) || Idle(ps)
  }

  /** Nothing can run: no process is schedulable, and no match would release one. */
  ghost predicate Idle(ps: Table)
    requires |ps| == MAX_NPROCESS + 1
  {
    (forall i :: 0 <= i < MAX_NPROCESS ==> !Schedulable(ps[i])) && forall s, d :: !Pair(ps, s, d)
  }

  lemma NotIdle(ps1: Table, phase: Phase, ps: Table, next: int)
    requires |ps1| == |ps| == MAX_NPROCESS + 1 && 0 <= next < MAX_NPROCESS && !phase.Linked? && Schedulable(ps[next])
    requires phase.Matched? ==> Pair(ps1, phase.s, phase.d)
    requires Alike(Settled(ps1, phase), ps)
    ensures !Idle(ps1)
  {
    assert AlikeProcess(Settled(ps1, phase)[next], ps[next]);
  }

  lemma NothingChosen(ps1: Table, user0: UserCalls, c: int, sending: bool, phase: Phase, ps: Table, user: UserCalls,
                      lowest: int)
    requires Scanned(ps1, user0, c, sending, phase, ps, user, MAX_NPROCESS, lowest, MAX_NPROCESS)
             && 0 < c < MAX_NPROCESS
    ensures Idle(ps1)
  {
    ScanComplete(ps1, user0, c, sending, phase, ps, user, lowest, MAX_NPROCESS);
    ChosenAlike(Settled(ps1, phase), ps, SkipOf(phase, c), c, lowest, MAX_NPROCESS);
    forall i | 0 <= i < MAX_NPROCESS
      ensures !Eligible(Settled(ps1, phase), SkipOf(phase, c), i)
      ensures phase.Open? ==> !Schedulable(ps1[i])
    {
      var k := AllPassed(c, i);
    }
    if phase.Matched? {
      DeliveredOk(ps1, user0, phase.s, phase.d);
      assert Eligible(Settled(ps1, phase), SkipOf(phase, c), phase.d);
    }
  }

  lemma DispatchKeeps(qs: Table, ps: Table, user: UserCalls, next: int, now: int)
    requires TableOk(ps, user) && Quiescent(ps) && Alike(qs, ps) && 0 <= next < MAX_NPROCESS && Schedulable(ps[next])
    ensures var ps' := Dispatched(ps, next, now);
            TableOk(ps', user) && Quiescent(ps') && Alike(Dispatched(qs, next, now), ps')
  {
    var ps' := Dispatched(ps, next, now);
    forall i | 0 <= i < |ps|
      ensures ProcessOk(ps'[i], user) && AlikeProcess(Dispatched(qs, next, now)[i], ps'[i])
    {
      assert ProcessOk(ps[i], user) && AlikeProcess(qs[i], ps[i]);
    }
    forall s, d
      ensures !Pair(ps', s, d)
    {
      assert Pair(ps', s, d) ==> Pair(ps, s, d);
    }
  }

  lemma ChosenAlike(qs: Table, ps: Table, skip: int, c: int, lowest: int, next: int)
    requires |ps| == MAX_NPROCESS + 1 && Alike(qs, ps) && Chosen(ps, skip, c, MAX_NPROCESS, lowest, next)
    ensures Chosen(qs, skip, c, MAX_NPROCESS, lowest, next)
    ensures next != MAX_NPROCESS ==> 0 <= next < MAX_NPROCESS && Schedulable(ps[next])
  {
    forall k | 1 <= k <= MAX_NPROCESS
      ensures (Eligible(qs, skip, At(c, k)) <==> Eligible(ps, skip, At(c, k)))
              && qs[At(c, k)].account.level == ps[At(c, k)].account.level
    {
      assert AlikeProcess(qs[At(c, k)], ps[At(c, k)]);
    }
    ChosenFrame(ps, qs, skip, skip, c, MAX_NPROCESS, lowest, next);
  }

  /** The table when a timer interrupt of slot c enters the scheduler. */
  function Interrupted(ps: Table, c: int): Table
    requires 0 <= c < |ps|
  {
    ps[c := ps[c].(status := Runnable, account := ps[c].account.(interrupts := ps[c].account.interrupts + 1))]
  }

  function Counted(ps: Table, c: int): Table
    requires 0 <= c < |ps|
  {
    ps[c := ps[c].(account := ps[c].account.(interrupts := ps[c].account.interrupts + 1))]
  }

  lemma CountedOk(ps: Table, user: UserCalls, c: int)
    requires TableOk(ps, user) && 0 < c < MAX_NPROCESS && ps[c].status == Running
    ensures TableOk(Counted(ps, c), user) && Rested(Counted(ps, c), c) == Interrupted(ps, c)
  {
    forall i | 0 <= i < |ps|
      ensures ProcessOk(Counted(ps, c)[i], user)
    {
      assert ProcessOk(ps[i], user);
    }
    WithStatusIsUpdate(Counted(ps, c), user, c, Runnable);
  }

  lemma InterruptedOk(ps: Table, user: UserCalls, c: int)
    requires TableOk(ps, user) && Quiescent(ps) && 0 < c < MAX_NPROCESS && ps[c].status == Running
    ensures InPhase(Interrupted(ps, c), user, Open, Interrupted(ps, c), user) && OnlyWith(Interrupted(ps, c), c, false)
    ensures forall s, d :: !Pair(Interrupted(ps, c), s, d)
  {
    var ps' := Interrupted(ps, c);
    forall i | 0 <= i < |ps|
      ensures ProcessOk(ps'[i], user)
    {
      assert ProcessOk(ps[i], user);
    }
    forall s, d
      ensures !Pair(ps', s, d)
    {
      assert Pair(ps', s, d) ==> Pair(ps, s, d);
    }
  }

  lemma InterruptedOrphans(ps: Table, c: int)
    requires |ps| == MAX_NPROCESS + 1 && 0 < c < MAX_NPROCESS && ps[c].status == Running
    ensures forall s :: Orphan(Interrupted(ps, c), s) <==> Orphan(ps, s)
  {
    forall pid, d | 0 <= d < MAX_NPROCESS
      ensures IsTarget(Interrupted(ps, c), d, pid) <==> IsTarget(ps, d, pid)
    {
    }
  }

  /** The table once slot c is blocked in a system call. */
  function Calling(ps: Table, c: int, call: Syscall): Table
    requires 0 <= c < |ps|
  {
    ps[c := ps[c].(syscall := call.(status := Pending), status := PendingSyscall)]
  }

  lemma CallingOk(ps: Table, user: UserCalls, c: int, call: Syscall)
    requires TableOk(ps, user) && Quiescent(ps) && 0 < c < MAX_NPROCESS && ps[c].status == Running
    requires call.kind == SYS_RECV || call.kind == SYS_SEND
    ensures TableOk(Calling(ps, c, call), user) && OnlyWith(Calling(ps, c, call), c, call.kind == SYS_SEND)
  {
    var ps' := Calling(ps, c, call);
    forall i | 0 <= i < |ps|
      ensures ProcessOk(ps'[i], user)
    {
      assert ProcessOk(ps[i], user);
    }
    forall s, d | Pair(ps', s, d)
      ensures s == c || d == c
    {
      assert s != c && d != c ==> Pair(ps, s, d);
    }
  }

  lemma CopiedThenPending(ps: Table, copied: Table, user: UserCalls, c: int, call: Syscall)
    requires TableOk(ps, user) && 0 < c < MAX_NPROCESS && ps[c].pid > 0
    requires copied == ps[c := ps[c].(syscall := call.(status := Pending))]
    ensures WithStatus(copied, ps[c].pid, PendingSyscall) == Calling(ps, c, call)
  {
  }

  /** The first attempt at the system call, made before the scan. */
  lemma FirstAttempt(ps0: Table, user: UserCalls, c: int, ps: Table) returns (phase: Phase)
    requires TableOk(ps0, user) && 0 < c < MAX_NPROCESS && Blocked(ps0[c]) && ps0[c].syscall.status == Pending
    requires OnlyWith(ps0, c, ps0[c].syscall.kind == SYS_SEND)
    requires if ps0[c].syscall.kind == SYS_RECV then ps == ps0
             else exists d :: IsTarget(ps0, d, ps0[c].syscall.receiver)
                              && ps == if Accepts(ps0[d], ps0[c].pid) then Marked(ps0, c, d) else ps0
    ensures InPhase(ps0, user, phase, ps, user) && !phase.Matched? && |ps| == MAX_NPROCESS + 1 && Blocked(ps[c])
    ensures phase.Linked? ==> ps0[c].syscall.kind == SYS_SEND
    ensures phase.Open? && ps0[c].syscall.kind == SYS_SEND ==> forall s, d :: !Pair(ps0, s, d)
  {
    phase := Open;
    assert ProcessOk(ps0[c], user);
    if ps0[c].syscall.kind == SYS_SEND {
      var d :| IsTarget(ps0, d, ps0[c].syscall.receiver)
               && ps == if Accepts(ps0[d], ps0[c].pid) then Marked(ps0, c, d) else ps0;
      VisitSender(ps0, user, Open, ps0, user, c, true, c, d);
      if Accepts(ps0[d], ps0[c].pid) && Blocked(ps0[d]) {
        phase := Linked(c, d);
      }
      forall s, d' | Pair(ps0, s, d')
        ensures d' == d
      {
        UniqueTarget(ps0, user, d, d', ps0[c].syscall.receiver);
      }
    }
  }

  /** Only slot c is running (or none, for c == 0), and no pid is beyond the last one given out. */
  ghost predicate Current(ps: Table, c: int, lastPid: int) {
    && (forall i :: 0 <= i < |ps| ==> (ps[i].status == Running <==> i == c && c > 0))
    && (forall i :: 0 <= i < |ps| ==> 0 <= ps[i].pid <= lastPid)
  }

  /** After a yield only the dispatched process is running, and no process has changed its pid. */
  lemma YieldedRunning(ps0: Table, user0: UserCalls, c: int, t: Tick, phase: Phase, ps: Table, user: UserCalls,
                       next: int, lastPid: int)
    requires 0 <= c < |ps0| && Yielded(ps0, user0, c, t, phase, ps, user, next)
    requires Current(ps0, 0, lastPid)
    ensures |ps| == MAX_NPROCESS + 1 && Current(ps, next, lastPid) && TableOk(ps, user) && Quiescent(ps)
            && 0 < next < MAX_NPROCESS
  {
    forall i | 0 <= i < |ps|
      ensures (ps[i].status == Running <==> i == next) && 0 <= ps[i].pid <= lastPid
    {
      assert AlikeProcess(Dispatched(Settled(Accounted(ps0, c, t), phase), next, t.now)[i], ps[i]);
    }
  }

  /** Allocating, starting and freeing processes: blocked processes keep their calls, and no new one becomes blocked. */
  lemma TableChanged(ps: Table, ps': Table, user: UserCalls, user': UserCalls)
    requires TableOk(ps, user) && Quiescent(ps) && |ps'| == |ps|
    requires forall i :: 0 <= i < |ps| ==>
               ps'[i] == ps[i] || (!Blocked(ps'[i]) && ps'[i].status in {Unused, Loading, Ready})
    requires forall i :: 0 <= i < |ps| ==> ProcessOk(ps'[i], user')
    requires forall i, j :: 0 <= i < j < |ps| && ps'[i].pid == ps'[j].pid ==> ps'[i].pid <= 0
    requires ps'[0].status == Unused && ps'[MAX_NPROCESS].status in {Unused, Loading}
    ensures TableOk(ps', user') && Quiescent(ps')
  {
    forall s, d
      ensures !Pair(ps', s, d)
    {
      assert Pair(ps', s, d) ==> Pair(ps, s, d);
    }
  }

  // ---------------------------------------------------------------- coming and going

  /** Slot i is the one that proc_alloc takes. */
  predicate FirstUnused(ps: Table, i: int) {
    && |ps| == MAX_NPROCESS + 1 && 1 <= i <= MAX_NPROCESS && ps[i].status == Unused
    && forall j :: 1 <= j < i ==> ps[j].status != Unused
  }

  function Occupied(ps: Table, i: int, lastPid: int, now: int): Table
    requires 0 <= i < |ps|
  {
    ps[i := Process(lastPid + 1, ps[i].syscall, Loading, InitialAccount(now))]
  }

  lemma OccupiedOk(ps: Table, ps': Table, user: UserCalls, c: int, i: int, lastPid: int, now: int)
    requires TableOk(ps, user) && Quiescent(ps) && Current(ps, c, lastPid) && 0 < c < MAX_NPROCESS
    requires 1 <= i <= MAX_NPROCESS && ps[i].status == Unused && ps' == Occupied(ps, i, lastPid, now)
    ensures TableOk(ps', user) && Quiescent(ps') && Current(ps', c, lastPid + 1)
  {
    forall k | 0 <= k < |ps|
      ensures ProcessOk(ps'[k], user)
    {
      assert ProcessOk(ps[k], user);
    }
    TableChanged(ps, ps', user, user);
  }

  predicate LiveUser(p: Process) {
    p.pid >= GPID_USER_START && p.status != Unused
  }

  /** The test of proc_free, which looks at slots 0 to 15. */
  predicate AnyUser(ps: Table)
    requires |ps| == MAX_NPROCESS + 1
  {
    exists i :: 0 <= i < MAX_NPROCESS && LiveUser(ps[i])
  }

  /** proc_free(GPID_ALL) on the table. */
  function WithoutUsers(ps: Table): (r: Table)
    ensures |r| == |ps|
    ensures forall i :: 0 <= i < |ps| ==>
              r[i] == if i < MAX_NPROCESS && LiveUser(ps[i]) then ps[i].(status := Unused) else ps[i]
  {
    seq(|ps|, i requires 0 <= i < |ps| =>
      if i < MAX_NPROCESS && LiveUser(ps[i]) then ps[i].(status := Unused) else ps[i])
  }

  /** The pids of the live user processes in the first n slots. */
  function UserPids(ps: Table, n: int): set<int>
    requires n <= |ps|
  {
    set i | 0 <= i < n && LiveUser(ps[i]) :: ps[i].pid
  }

  lemma UserPidsNext(ps: Table, n: int)
    requires 0 <= n < |ps|
    ensures UserPids(ps, n + 1) == UserPids(ps, n) + if LiveUser(ps[n]) then {ps[n].pid} else {}
  {
  }

  lemma WithoutUsersOk(ps: Table, user: UserCalls)
    requires TableOk(ps, user) && Quiescent(ps)
    ensures TableOk(WithoutUsers(ps), user - UserPids(ps, MAX_NPROCESS)) && Quiescent(WithoutUsers(ps))
  {
    var ps', user' := WithoutUsers(ps), user - UserPids(ps, MAX_NPROCESS);
    forall i | 0 <= i < |ps|
      ensures ProcessOk(ps'[i], user')
    {
      assert ProcessOk(ps[i], user);
    }
    TableChanged(ps, ps', user, user');
  }

  /** Slot c gives up the processor, with its system call (if any) tried once and not completed. */
  ghost predicate Waiting(ps0: Table, user: UserCalls, c: int, sending: bool, phase: Phase, ps: Table)
    requires |ps| == MAX_NPROCESS + 1 && 0 < c < MAX_NPROCESS
  {
    && |ps0| == MAX_NPROCESS + 1
    && InPhase(ps0, user, phase, Rested(ps, c), user) && OnlyWith(ps0, c, sending)
    && !phase.Matched? && (phase.Linked? ==> sending) && (phase.Open? && sending ==> forall s, d :: !Pair(ps0, s, d))
  }

  class Kernel {
    const procs: array<Process>
    var user: UserCalls
    var currIdx: int
    var lastPid: int
    var lastReset: int

    /** The first process, GPID_PROCESS, running in the otherwise empty table (grass_entry). */
    constructor (call: Syscall, now: int)
      ensures Valid() && currIdx == 1 && lastPid == 1 && lastReset == 0 && user == map[1 := call] && fresh(procs)
      ensures forall i :: 0 <= i <= MAX_NPROCESS ==>
                procs[i].pid == (if i == 1 then 1 else 0) && (procs[i].status != Unused <==> i == 1)
    {
      procs := new Process[MAX_NPROCESS + 1](i requires 0 <= i =>
        if i == 1 then Process(1, Syscall(0, 0, 0, [], Pending), Running, InitialAccount(now))
        else Process(0, Syscall(0, 0, 0, [], Pending), Unused, Account(0, 0, 0, 0, 0, 0, 0, 0, 0)));
      user := map[1 := call];
      currIdx, lastPid, lastReset := 1, 1, 0;
    }

    method SetStatus(pid: int, status: Status)
      requires procs.Length == MAX_NPROCESS + 1
      modifies procs
      ensures procs[..] == WithStatus(old(procs[..]), pid, status)
    {
      for i := 0 to MAX_NPROCESS
        invariant forall j :: 0 <= j < procs.Length ==>
                    procs[j] == if j < i && old(procs[j]).pid == pid then old(procs[j]).(status := status)
                      else old(procs[j])
      {
        if procs[i].pid == pid {
          procs[i] := procs[i].(status := status);
        }
      }
    }

    /** Copies the message of sender s into the receiver's record if the receiver takes it; halts (false) if there is
        no such receiver. */
    method TrySend(s: int) returns (ok: bool)
      requires procs.Length == MAX_NPROCESS + 1 && 0 <= s < MAX_NPROCESS
      modifies procs
      ensures !ok ==> procs[..] == old(procs[..]) && forall d :: !IsTarget(procs[..], d, procs[s].syscall.receiver)
      ensures ok ==> exists d :: && IsTarget(old(procs[..]), d, old(procs[s]).syscall.receiver)
                                 && procs[..] == if Accepts(old(procs[d]), old(procs[s]).pid)
                                                 then Marked(old(procs[..]), s, d) else old(procs[..])
    {
      var sender := procs[s];
      for i := 0 to MAX_NPROCESS
        invariant procs[..] == old(procs[..])
        invariant forall d :: 0 <= d < i ==> !IsTarget(procs[..], d, sender.syscall.receiver)
      {
        var dst := procs[i];
        if dst.pid == sender.syscall.receiver && dst.status != Unused {
          assert IsTarget(procs[..], i, sender.syscall.receiver);
          if !(dst.syscall.kind == SYS_RECV && dst.syscall.status == Pending) {
            return true;
          }
          if !(dst.syscall.sender == GPID_ALL || dst.syscall.sender == sender.pid) {
            return true;
          }
          dst := dst.(syscall := dst.syscall.(status := Done, sender := sender.pid));
          dst := dst.(syscall := dst.syscall.(content := sender.syscall.content));
          procs[i] := dst;
          assert procs[..] == Marked(old(procs[..]), s, i);
          return true;
        }
      }
      ok := false;
    }

    /** Completes a receive whose message has arrived: hands the call back to user space and releases both processes. */
    method TryRecv(r: int)
      requires procs.Length == MAX_NPROCESS + 1 && 0 <= r < MAX_NPROCESS
      modifies procs, this`user
      ensures var p := old(procs[r]);
              if p.syscall.status == Pending then procs[..] == old(procs[..]) && user == old(user)
              else && user == old(user)[p.pid := p.syscall]
                   && procs[..] == WithStatus(WithStatus(old(procs[..]), p.pid, Runnable), p.syscall.sender, Runnable)
    {
      if procs[r].syscall.status == Pending {
        return;
      }
      var call := procs[r].syscall;
      user := user[procs[r].pid := call];
      SetStatus(procs[r].pid, Runnable);
      SetStatus(call.sender, Runnable);
    }

    /** Tries to complete the system call of slot i; halts (false) on an unknown call or receiver. */
    method TrySyscall(i: int) returns (ok: bool)
      requires procs.Length == MAX_NPROCESS + 1 && 0 <= i < MAX_NPROCESS
      modifies procs, this`user
      ensures var p := old(procs[i]);
              if p.syscall.kind == SYS_RECV then
                && ok
                && (p.syscall.status == Pending ==> procs[..] == old(procs[..]) && user == old(user))
                && (p.syscall.status == Done ==>
                      && user == old(user)[p.pid := p.syscall]
                      && procs[..] == WithStatus(WithStatus(old(procs[..]), p.pid, Runnable), p.syscall.sender,
                                                 Runnable))
              else
                && user == old(user)
                && (ok ==> p.syscall.kind == SYS_SEND
                           && exists d :: && IsTarget(old(procs[..]), d, p.syscall.receiver)
                                          && procs[..] == if Accepts(old(procs[d]), p.pid)
                                             then Marked(old(procs[..]), i, d)
                                                          else old(procs[..]))
                && (!ok ==> p.syscall.kind == SYS_SEND ==> forall d :: !IsTarget(old(procs[..]), d, p.syscall.receiver))
    {
      if procs[i].syscall.kind == SYS_RECV {
        TryRecv(i);
        ok := true;
      } else if procs[i].syscall.kind == SYS_SEND {
        ok := TrySend(i);
      } else {
        ok := false;
      }
    }

    /** Visits slot At(c, n + 1) in the scan: its pending system call first. */
    method Visit(n: int, lowest: int, next: int, ghost ps0: Table, ghost user0: UserCalls, ghost sending: bool,
                 ghost phase: Phase)
      returns (ok: bool, ghost phase': Phase)
      requires procs.Length == MAX_NPROCESS + 1 && 0 < currIdx < MAX_NPROCESS && 0 <= n < MAX_NPROCESS
      requires Scanned(ps0, user0, currIdx, sending, phase, procs[..], user, n, lowest, next)
      modifies procs, this`user
      ensures |ps0| == MAX_NPROCESS + 1 && (ok <==> !Orphan(ps0, At(currIdx, n + 1)))
      ensures ok ==> Visited(ps0, user0, currIdx, sending, phase', procs[..], user, n, lowest, next)
    {
      phase' := phase;
      ghost var c, ps, u := currIdx, procs[..], user;
      var i := At(currIdx, n + 1);
      PhaseOk(ps0, user0, phase, ps, u);
      assert ProcessOk(ps[i], u);
      OrphanStays(ps0, user0, phase, ps, u, i);
      ok := true;
      if procs[i].status == PendingSyscall {
        ok := TrySyscall(i);
        if ok && ps[i].syscall.kind == SYS_RECV {
          phase' := AfterReceiver(ps0, user0, c, sending, phase, ps, u, n, lowest, next, procs[..], user);
        } else if ok {
          phase' := AfterSender(ps0, user0, c, sending, phase, ps, u, n, lowest, next, procs[..]);
        }
      } else {
        AfterOther(ps0, user0, c, sending, phase, ps, u, n, lowest, next);
      }
    }

    /** mlfq_update_level for the process that has just run. */
    method ChargeCurrent(now: int)
      requires procs.Length == MAX_NPROCESS + 1 && 0 < currIdx < MAX_NPROCESS
      modifies procs
      ensures forall i :: 0 <= i < procs.Length ==>
                procs[i] == if i == currIdx && old(procs[i]).status != Unused && old(procs[i]).account.lastScheduled > 0
                            then old(procs[i]).(account := Charge(old(procs[i]).account,
                                                                  Wrap(now - old(procs[i]).account.lastScheduled)))
                            else old(procs[i])
    {
      var p := procs[currIdx];
      if p.status != Unused {
        if p.account.lastScheduled > 0 {
          procs[currIdx] := p.(account := Charge(p.account, Wrap(now - p.account.lastScheduled)));
        }
      }
    }

    /** mlfq_reset_level. */
    method ResetLevels(ttyInput: bool, now: int)
      requires procs.Length == MAX_NPROCESS + 1
      requires forall i, j :: 0 <= i < j < procs.Length && procs[i].pid == procs[j].pid ==> procs[i].pid <= 0
      modifies procs, this`lastReset
      ensures var t := Tick(now, now, ttyInput, old(lastReset));
              && lastReset == NextReset(t)
              && forall i :: 0 <= i < procs.Length ==>
                   procs[i] == if i < MAX_NPROCESS
                                  && ((ttyInput && old(procs[i]).pid == GPID_SHELL)
                                      || (ResetDue(t) && old(procs[i]).status != Unused))
                               then old(procs[i]).(account := old(procs[i]).account.(level := 0)) else old(procs[i])
    {
      if ttyInput {
        var count := 0;
        while count < MAX_NPROCESS
          invariant 0 <= count <= MAX_NPROCESS
          invariant procs[..] == old(procs[..])
          invariant forall j :: 0 <= j < count ==> procs[j].pid != GPID_SHELL
        {
          if procs[count].pid == GPID_SHELL {
            procs[count] := procs[count].(account := procs[count].account.(level := 0));
            break;
          }
          count := count + 1;
        }
      }
      ghost var afterShell := procs[..];
      assert forall i :: 0 <= i < procs.Length ==>
        procs[i] == if i < MAX_NPROCESS && ttyInput && old(procs[i]).pid == GPID_SHELL
                    then old(procs[i]).(account := old(procs[i]).account.(level := 0)) else old(procs[i]);
      if lastReset == 0 {
        lastReset := now;
      }
      if Wrap(now - lastReset) >= MLFQ_RESET_PERIOD {
        for i := 0 to MAX_NPROCESS
          invariant forall j :: 0 <= j < procs.Length ==>
                      procs[j] == if j < i && afterShell[j].status != Unused
                                  then afterShell[j].(account := afterShell[j].account.(level := 0)) else afterShell[j]
        {
          if procs[i].status != Unused {
            procs[i] := procs[i].(account := procs[i].account.(level := 0));
          }
        }
        lastReset := now;
      }
    }

    /** The second half of a turn of the scheduling loop: keeps the better choice. */
    method Consider(i: int, lowestLevel: int, next: int, ghost ps0: Table, ghost user0: UserCalls, ghost sending: bool,
                    ghost phase: Phase)
      returns (lowestLevel': int, next': int)
      requires procs.Length == MAX_NPROCESS + 1 && 0 < currIdx < MAX_NPROCESS && 1 <= i <= MAX_NPROCESS
      requires Visited(ps0, user0, currIdx, sending, phase, procs[..], user, i - 1, lowestLevel, next)
      ensures Scanned(ps0, user0, currIdx, sending, phase, procs[..], user, i, lowestLevel', next')
    {
      lowestLevel', next' := lowestLevel, next;
      var p := procs[(currIdx + i) % 16];
      if p.status == Ready || p.status == Runnable {
        if p.account.level < lowestLevel {
          lowestLevel' := p.account.level;
          next' := (currIdx + i) % 16;
        }
      }
      assert (currIdx + i) % 16 == At(currIdx, i - 1 + 1);
      NextVisit(ps0, user0, currIdx, sending, phase, procs[..], user, i - 1, lowestLevel, next, lowestLevel', next');
    }

    /** One turn of the scheduling loop. */
    method Turn(i: int, lowest: int, next: int, ghost ps0: Table, ghost user0: UserCalls, ghost sending: bool,
                ghost phase: Phase)
      returns (ok: bool, lowest': int, next': int, ghost phase': Phase)
      requires procs.Length == MAX_NPROCESS + 1 && 0 < currIdx < MAX_NPROCESS && 1 <= i <= MAX_NPROCESS
      requires Scanned(ps0, user0, currIdx, sending, phase, procs[..], user, i - 1, lowest, next)
      modifies procs, this`user
      ensures |ps0| == MAX_NPROCESS + 1 && (ok <==> !Orphan(ps0, At(currIdx, i)))
      ensures ok ==> Scanned(ps0, user0, currIdx, sending, phase', procs[..], user, i, lowest', next')
    {
      lowest', next' := lowest, next;
      ok, phase' := Visit(i - 1, lowest, next, ps0, user0, sending, phase);
      if ok {
        lowest', next' := Consider(i, lowest, next, ps0, user0, sending, phase');
      }
    }

    /** The scheduling loop. */
    method Scan(ghost ps0: Table, ghost user0: UserCalls, ghost sending: bool, ghost phase0: Phase)
      returns (ok: bool, next: int, ghost phase: Phase, lowestLevel: int)
      requires procs.Length == MAX_NPROCESS + 1 && 0 < currIdx < MAX_NPROCESS
      requires Scanned(ps0, user0, currIdx, sending, phase0, procs[..], user, 0, 5, MAX_NPROCESS)
      modifies procs, this`user
      ensures |ps0| == MAX_NPROCESS + 1 && (ok <==> forall s :: !Orphan(ps0, s))
      ensures ok ==> Scanned(ps0, user0, currIdx, sending, phase, procs[..], user, MAX_NPROCESS, lowestLevel, next)
    {
      phase := phase0;
      lowestLevel := 5;
      next := MAX_NPROCESS;
      ok := true;
      for i := 1 to MAX_NPROCESS + 1
        invariant ok && Scanned(ps0, user0, currIdx, sending, phase, procs[..], user, i - 1, lowestLevel, next)
        invariant |ps0| == MAX_NPROCESS + 1 && NoneUpTo(ps0, currIdx, i - 1)
      {
        ok, lowestLevel, next, phase := Turn(i, lowestLevel, next, ps0, user0, sending, phase);
        if !ok {
          return;
        }
        NoneNext(ps0, currIdx, i);
      }
      NoOrphan(ps0, currIdx);
    }

    /** Brings the accounts up to date. */
    method UpdateAccounts(now: int, nowReset: int, ttyInput: bool)
      requires procs.Length == MAX_NPROCESS + 1 && 0 < currIdx < MAX_NPROCESS
      requires forall i, j :: 0 <= i < j < procs.Length && procs[i].pid == procs[j].pid ==> procs[i].pid <= 0
      modifies procs, this`lastReset
      ensures procs[..] == Accounted(old(procs[..]), currIdx, Tick(now, nowReset, ttyInput, old(lastReset)))
      ensures lastReset == NextReset(Tick(now, nowReset, ttyInput, old(lastReset)))
    {
      ChargeCurrent(now);
      assert forall i :: 0 <= i < procs.Length ==> procs[i].pid == old(procs[i]).pid;
      ResetLevels(ttyInput, nowReset);
    }

    /** Makes slot next the running process. */
    method Dispatch(next: int, now: int)
      requires procs.Length == MAX_NPROCESS + 1 && 0 <= next < MAX_NPROCESS && TableOk(procs[..], user)
               && procs[next].pid > 0
      modifies procs, this`currIdx
      ensures procs[..] == Dispatched(old(procs[..]), next, now) && currIdx == next
    {
      ghost var ps := procs[..];
      procs[next] := procs[next].(account := procs[next].account.(lastScheduled := now));
      if procs[next].account.firstScheduled == 0 {
        procs[next] := procs[next].(account := procs[next].account.(firstScheduled := now));
      }
      currIdx := next;
      assert forall i :: 0 <= i < procs.Length && i != next ==> ps[i].pid != ps[next].pid;
      SetStatus(procs[currIdx].pid, Running);
    }

    /** The scan and its outcome. */
    method Select(ghost ps1: Table, ghost user0: UserCalls, ghost sending: bool, ghost phase0: Phase)
      returns (ok: bool, next: int, ghost phase: Phase)
      requires procs.Length == MAX_NPROCESS + 1 && 0 < currIdx < MAX_NPROCESS
      requires Scanned(ps1, user0, currIdx, sending, phase0, procs[..], user, 0, 5, MAX_NPROCESS)
      modifies procs, this`user
      ensures |ps1| == MAX_NPROCESS + 1 && (ok <==> !Halts(ps1))
      ensures ok ==> Selected(ps1, user0, currIdx, phase, procs[..], user, next)
    {
      var lowest;
      ok, next, phase, lowest := Scan(ps1, user0, sending, phase0);
      if !ok {
        return;
      }
      if next == MAX_NPROCESS {
        NothingChosen(ps1, user0, currIdx, sending, phase, procs[..], user, lowest);
        return false, next, phase;
      }
      ScanComplete(ps1, user0, currIdx, sending, phase, procs[..], user, lowest, next);
      PhaseOk(ps1, user0, phase, procs[..], user);
      ChosenAlike(Settled(ps1, phase), procs[..], SkipOf(phase, currIdx), currIdx, lowest, next);
      NotIdle(ps1, phase, procs[..], next);
    }

    /** What proc_yield does before its loop: the running process becomes eligible, and the accounts are brought up to
        date. */
    method Prepare(now: int, nowReset: int, ttyInput: bool, ghost ps0: Table, ghost user0: UserCalls,
                   ghost sending: bool, ghost phase0: Phase)
      requires procs.Length == MAX_NPROCESS + 1 && 0 < currIdx < MAX_NPROCESS && TableOk(procs[..], user)
      requires user == user0 && Waiting(ps0, user0, currIdx, sending, phase0, procs[..])
      modifies procs, this`lastReset
      ensures lastReset == NextReset(Tick(now, nowReset, ttyInput, old(lastReset)))
      ensures var ps1 := Accounted(ps0, currIdx, Tick(now, nowReset, ttyInput, old(lastReset)));
              && |ps0| == MAX_NPROCESS + 1 && Scanned(ps1, user0, currIdx, sending, phase0, procs[..], user, 0, 5,
                                                      MAX_NPROCESS)
              && forall s, d :: Pair(ps1, s, d) <==> Pair(ps0, s, d)
    {
      if procs[currIdx].status == Running {
        SetStatus(procs[currIdx].pid, Runnable);
      }
      ghost var rested := procs[..];
      UpdateAccounts(now, nowReset, ttyInput);
      AccountedInPhase(ps0, user0, phase0, rested, user, currIdx, Tick(now, nowReset, ttyInput, old(lastReset)),
                       sending);
    }

    /** The rest of proc_yield, with t for what it has seen of the clocks and the keyboard. */
    method Choose(now: int, ghost t: Tick, ghost ps0: Table, ghost user0: UserCalls, ghost sending: bool,
                  ghost phase0: Phase)
      returns (ok: bool, ghost phase: Phase)
      requires procs.Length == MAX_NPROCESS + 1 && 0 < currIdx < MAX_NPROCESS && t.now == now
               && |ps0| == MAX_NPROCESS + 1
      requires Scanned(Accounted(ps0, currIdx, t), user0, currIdx, sending, phase0, procs[..], user, 0, 5, MAX_NPROCESS)
      requires forall s, d :: Pair(Accounted(ps0, currIdx, t), s, d) <==> Pair(ps0, s, d)
      modifies procs, this`user, this`currIdx
      ensures ok ==> Yielded(ps0, user0, old(currIdx), t, phase, procs[..], user, currIdx)
      ensures ok <==> !Halts(ps0)
    {
      ghost var c := currIdx;
      var next;
      ok, next, phase := Select(Accounted(ps0, c, t), user0, sending, phase0);
      AccountedHalts(ps0, c, t);
      if ok {
        SelectedThenDispatched(ps0, Accounted(ps0, c, t), user0, c, phase, now, procs[..], user, next);
        Dispatch(next, now);
      }
    }

    /** proc_yield.  It halts (false) only on an orphan or when nothing can run. */
    method Yield(now: int, nowReset: int, ttyInput: bool, ghost ps0: Table, ghost user0: UserCalls, ghost sending: bool,
                 ghost phase0: Phase)
      returns (ok: bool, ghost phase: Phase)
      requires procs.Length == MAX_NPROCESS + 1 && 0 < currIdx < MAX_NPROCESS && TableOk(procs[..], user)
      requires user == user0 && Waiting(ps0, user0, currIdx, sending, phase0, procs[..])
      modifies procs, this`user, this`currIdx, this`lastReset
      ensures ok ==> Yielded(ps0, user0, old(currIdx), Tick(now, nowReset, ttyInput, old(lastReset)), phase, procs[..],
                             user, currIdx)
      ensures lastReset == NextReset(Tick(now, nowReset, ttyInput, old(lastReset)))
      ensures |ps0| == MAX_NPROCESS + 1 && (ok <==> !Halts(ps0))
    {
      ghost var t := Tick(now, nowReset, ttyInput, lastReset);
      Prepare(now, nowReset, ttyInput, ps0, user0, sending, phase0);
      ok, phase := Choose(now, t, ps0, user0, sending, phase0);
    }

    /** Between entries into the kernel: exactly the current process is running, and no rendezvous is possible or half
        done. */
    ghost predicate Valid()
      reads this, procs
    {
      && procs.Length == MAX_NPROCESS + 1 && 0 < currIdx < MAX_NPROCESS
      && TableOk(procs[..], user) && Quiescent(procs[..])
      && Current(procs[..], currIdx, lastPid)
    }

    /** A yield between two entries into the kernel. */
    method Reschedule(now: int, nowReset: int, ttyInput: bool, ghost ps0: Table, ghost sending: bool,
                      ghost phase0: Phase)
      returns (ok: bool, ghost phase: Phase)
      requires procs.Length == MAX_NPROCESS + 1 && 0 < currIdx < MAX_NPROCESS && TableOk(procs[..], user)
      requires Waiting(ps0, user, currIdx, sending, phase0, procs[..]) && Current(ps0, 0, lastPid)
      modifies procs, this`user, this`currIdx, this`lastReset
      ensures ok ==>
                && Valid()
                && Yielded(ps0, old(user), old(currIdx), Tick(now, nowReset, ttyInput, old(lastReset)), phase,
                           procs[..], user, currIdx)
      ensures ok ==> lastReset == NextReset(Tick(now, nowReset, ttyInput, old(lastReset)))
      ensures |ps0| == MAX_NPROCESS + 1 && (ok <==> !Halts(ps0))
    {
      ok, phase := Yield(now, nowReset, ttyInput, ps0, user, sending, phase0);
      if ok {
        YieldedRunning(ps0, old(user), old(currIdx), Tick(now, nowReset, ttyInput, old(lastReset)), phase, procs[..],
                       user, currIdx, lastPid);
      }
    }

    method CountInterrupt()
      requires procs.Length == MAX_NPROCESS + 1 && 0 < currIdx < MAX_NPROCESS
      modifies procs
      ensures procs[..] == Counted(old(procs[..]), currIdx)
    {
      var account := procs[currIdx].account;
      procs[currIdx] := procs[currIdx].(account := account.(interrupts := account.interrupts + 1));
    }

    /** A timer interrupt.  Nothing is delivered; the current process competes with all others. */
    method Timer(now: int, nowReset: int, ttyInput: bool) returns (ok: bool)
      requires Valid()
      modifies procs, this`user, this`currIdx, this`lastReset
      ensures ok ==> Valid() && user == old(user)
                     && Yielded(Interrupted(old(procs[..]), old(currIdx)), old(user), old(currIdx),
                                Tick(now, nowReset, ttyInput, old(lastReset)), Open, procs[..], user, currIdx)
      ensures ok ==> lastReset == NextReset(Tick(now, nowReset, ttyInput, old(lastReset)))
      ensures ok <==> forall s :: !Orphan(old(procs[..]), s)
    {
      ghost var before, c := procs[..], currIdx;
      CountInterrupt();
      ghost var ps0 := Interrupted(before, c);
      InterruptedOk(before, user, c);
      CountedOk(before, user, c);
      ghost var phase;
      ok, phase := Reschedule(now, nowReset, ttyInput, ps0, false, Open);
      assert Schedulable(ps0[c]);
      InterruptedOrphans(before, c);
    }

    /** Copies the system call into the kernel and blocks the current process. */
    method Block(pid: int, call: Syscall)
      requires Valid() && pid == procs[currIdx].pid
      modifies procs
      ensures procs[..] == Calling(old(procs[..]), currIdx, call)
    {
      ghost var before := procs[..];
      assert ProcessOk(before[currIdx], user);
      procs[currIdx] := procs[currIdx].(syscall := call.(status := Pending));
      CopiedThenPending(before, procs[..], user, currIdx, call);
      SetStatus(pid, PendingSyscall);
    }

    /** The first half of a system call: blocks the caller and tries to complete the call once. */
    method Attempt(pid: int, call: Syscall, ghost ps0: Table) returns (ok: bool, ghost phase: Phase)
      requires Valid() && pid == procs[currIdx].pid && ps0 == Calling(procs[..], currIdx, call)
      modifies procs, this`user
      ensures user == old(user)
      ensures ok ==> && TableOk(procs[..], user) && call.kind in {SYS_RECV, SYS_SEND}
                     && Waiting(ps0, user, currIdx, call.kind == SYS_SEND, phase, procs[..])
      ensures !ok ==> call.kind !in {SYS_RECV, SYS_SEND} || Orphan(ps0, currIdx)
    {
      ghost var before, c := procs[..], currIdx;
      assert ProcessOk(before[c], user);
      Block(pid, call);
      ok := TrySyscall(currIdx);
      if ok {
        CallingOk(before, user, c, call);
        phase := FirstAttempt(ps0, user, c, procs[..]);
        PhaseOk(ps0, user, phase, procs[..], user);
      } else {
        phase := Open;
      }
    }

    /** A system call of the current process, whose arguments are in its user memory.  It is matched at once if a
        partner is waiting; the message then goes from the sender's user memory to the receiver's. */
    method Ecall(now: int, nowReset: int, ttyInput: bool) returns (ok: bool, ghost phase: Phase)
      requires Valid()
      modifies procs, this`user, this`currIdx, this`lastReset
      ensures ok ==>
                var pid := old(procs[currIdx]).pid;
                && Valid() && pid in old(user)
                && Yielded(Calling(old(procs[..]), old(currIdx), old(user)[pid]), old(user), old(currIdx),
                           Tick(now, nowReset, ttyInput, old(lastReset)), phase, procs[..], user, currIdx)
      ensures ok ==> lastReset == NextReset(Tick(now, nowReset, ttyInput, old(lastReset)))
      ensures var pid := old(procs[currIdx]).pid;
              && pid in old(user)
              && (ok <==> && old(user)[pid].kind in {SYS_RECV, SYS_SEND}
                          && !Halts(Calling(old(procs[..]), old(currIdx), old(user)[pid])))
    {
      ghost var before, c := procs[..], currIdx;
      assert ProcessOk(before[c], user);
      var pid := procs[currIdx].pid;
      var call := user[pid];
      ghost var ps0 := Calling(before, c, call);
      ok, phase := Attempt(pid, call, ps0);
      if ok {
        ok, phase := Reschedule(now, nowReset, ttyInput, ps0, call.kind == SYS_SEND, phase);
      }
    }

    /** The assignments of proc_alloc to an unused slot. */
    method Fill(i: int, now: int)
      requires Valid() && 1 <= i <= MAX_NPROCESS && procs[i].status == Unused
      modifies procs, this`lastPid
      ensures Valid() && lastPid == old(lastPid) + 1
      ensures procs[..] == Occupied(old(procs[..]), i, old(lastPid), now)
    {
      ghost var before := procs[..];
      lastPid := lastPid + 1;
      procs[i] := procs[i].(pid := lastPid, status := Loading, account := InitialAccount(now));
      OccupiedOk(before, procs[..], user, currIdx, i, lastPid - 1, now);
    }

    /** proc_alloc: takes the first unused slot, which may be the last one, or halts (None) if there is none. */
    method Alloc(now: int) returns (r: Option<int>)
      requires Valid()
      modifies procs, this`lastPid
      ensures r.None? ==> procs[..] == old(procs[..]) && lastPid == old(lastPid)
                          && forall i :: 1 <= i <= MAX_NPROCESS ==> procs[i].status != Unused
      ensures r.Some? ==>
                && Valid() && r.value == lastPid == old(lastPid) + 1
                && exists i :: && FirstUnused(old(procs[..]), i)
                               && procs[..] == Occupied(old(procs[..]), i, old(lastPid), now)
    {
      for i := 1 to MAX_NPROCESS + 1
        invariant procs[..] == old(procs[..]) && lastPid == old(lastPid)
        invariant forall j :: 1 <= j < i ==> procs[j].status != Unused
      {
        if procs[i].status == Unused {
          assert FirstUnused(old(procs[..]), i);
          Fill(i, now);
          return Some(lastPid);
        }
      }
      r := None;
    }

    /** proc_set_ready, called once the loader has mapped the system call page of a new process. */
    method SetReady(pid: int, call: Syscall)
      requires Valid() && pid > 0
      requires forall i :: 0 <= i < MAX_NPROCESS && procs[i].pid == pid ==> procs[i].status == Loading
      modifies procs, this`user
      ensures Valid() && procs[..] == WithStatus(old(procs[..]), pid, Ready) && user == old(user)[pid := call]
    {
      ghost var before, u := procs[..], user;
      user := user[pid := call];
      SetStatus(pid, Ready);
      TableChanged(before, procs[..], u, user);
    }

    ghost predicate UserAlive()
      reads this, procs
      requires procs.Length == MAX_NPROCESS + 1
    {
      AnyUser(procs[..])
    }

    /** The effect of freeing one process. */
    method Release(pid: int)
      requires Valid() && pid != procs[currIdx].pid && pid != GPID_ALL
      modifies procs, this`user
      ensures Valid() && procs[..] == WithStatus(old(procs[..]), pid, Unused) && user == old(user) - {pid}
    {
      ghost var before, u := procs[..], user;
      user := user - {pid};
      SetStatus(pid, Unused);
      TableChanged(before, procs[..], u, user);
    }

    /** proc_free of a process other than the current one.  It takes effect only while some user process is alive in the
        slots 0 to 15, and only on these slots. */
    method Free(pid: int)
      requires Valid() && pid != procs[currIdx].pid && pid != GPID_ALL
      modifies procs, this`user
      ensures Valid()
      ensures procs[..] == if old(UserAlive()) then WithStatus(old(procs[..]), pid, Unused) else old(procs[..])
      ensures user == if old(UserAlive()) then old(user) - {pid} else old(user)
    {
      for i := 0 to MAX_NPROCESS
        invariant unchanged(procs) && user == old(user)
        invariant forall j :: 0 <= j < i ==> !LiveUser(procs[j])
      {
        if procs[i].pid >= GPID_USER_START && procs[i].status != Unused {
          Release(pid);
          return;
        }
      }
    }

    /** The loop of proc_free(GPID_ALL). */
    method ReleaseUsers()
      requires procs.Length == MAX_NPROCESS + 1
      modifies procs, this`user
      ensures procs[..] == WithoutUsers(old(procs[..])) && user == old(user) - UserPids(old(procs[..]), MAX_NPROCESS)
    {
      ghost var before := procs[..];
      for i := 0 to MAX_NPROCESS
        invariant forall j :: 0 <= j < procs.Length ==>
                    procs[j] == if j < i && LiveUser(before[j]) then before[j].(status := Unused) else before[j]
        invariant user == old(user) - UserPids(before, i)
      {
        UserPidsNext(before, i);
        if procs[i].pid >= GPID_USER_START && procs[i].status != Unused {
          user := user - {procs[i].pid};
          procs[i] := procs[i].(status := Unused);
        }
      }
      assert procs[..] == WithoutUsers(before);
    }

    /** proc_free(GPID_ALL): every live user process in the slots 0 to 15 goes. */
    method FreeAllUsers()
      requires Valid() && procs[currIdx].pid < GPID_USER_START
      modifies procs, this`user
      ensures Valid()
      ensures procs[..] == WithoutUsers(old(procs[..])) && user == old(user) - UserPids(old(procs[..]), MAX_NPROCESS)
    {
      ghost var before, u := procs[..], user;
      ReleaseUsers();
      WithoutUsersOk(before, u);
    }
  }
}
