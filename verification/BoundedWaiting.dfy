/** What the kernel promises to processes: rendezvous happen once and at once, and a ready process at the top level is
    dispatched within one round of the table. */
module BoundedWaiting {
  import opened Processes
  import opened Ipc
  import opened Scheduling
  import opened Kernel

  // ---------------------------------------------------------------- system calls

  /** What happens to everyone but the two partners (and the process dispatched next): nothing. */
  ghost predicate Undisturbed(ps0: Table, ps: Table, i: int)
    requires |ps0| == |ps| && 0 <= i < |ps|
  {
    ps[i].status == ps0[i].status && ps[i].pid == ps0[i].pid && (Blocked(ps0[i]) ==> ps[i].syscall == ps0[i].syscall)
  }

  /** Process i has been released: it can run, or is running. */
  predicate Released(p: Process) {
    p.status == Runnable || p.status == Running
  }

  lemma AfterMatch(ps0: Table, user0: UserCalls, c: int, t: Tick, s: int, d: int, ps: Table, user: UserCalls, next: int)
    requires 0 <= c < |ps0| && Yielded(ps0, user0, c, t, Matched(s, d), ps, user, next) && TableOk(ps0, user0)
    ensures 0 <= s < MAX_NPROCESS && 0 <= d < MAX_NPROCESS && s != d && Pair(ps0, s, d)
    ensures Released(ps[s]) && Released(ps[d])
    ensures forall i :: 0 <= i < |ps| && i != s && i != d && i != next ==> Undisturbed(ps0, ps, i)
    ensures user == user0[ps0[d].pid := MarkedCall(ps0, s, d)]
  {
    var ps1 := Accounted(ps0, c, t);
    assert Pair(ps1, s, d) ==> Pair(ps0, s, d);
    DeliveredOk(ps0, user0, s, d);
    var end := Dispatched(Settled(ps1, Matched(s, d)), next, t.now);
    forall i | 0 <= i < |ps|
      ensures i == s || i == d ==> Released(ps[i])
      ensures i != s && i != d && i != next ==> Undisturbed(ps0, ps, i)
    {
      assert AlikeProcess(end[i], ps[i]);
    }
  }

  lemma AfterNoMatch(ps0: Table, user0: UserCalls, c: int, t: Tick, ps: Table, user: UserCalls, next: int)
    requires 0 <= c < |ps0| && Yielded(ps0, user0, c, t, Open, ps, user, next)
    ensures forall i :: 0 <= i < |ps| && i != next ==> Undisturbed(ps0, ps, i)
    ensures user == user0
  {
    var end := Dispatched(Accounted(ps0, c, t), next, t.now);
    forall i | 0 <= i < |ps| && i != next
      ensures Undisturbed(ps0, ps, i)
    {
      assert AlikeProcess(end[i], ps[i]);
    }
  }

  lemma OneReceiver(ps: Table, user: UserCalls, s: int, d: int, d': int)
    requires TableOk(ps, user) && 0 <= s < |ps| && IsTarget(ps, d, ps[s].syscall.receiver)
    ensures Pair(ps, s, d') ==> d' == d
  {
    if IsTarget(ps, d', ps[s].syscall.receiver) {
      UniqueTarget(ps, user, d, d', ps[s].syscall.receiver);
    }
  }

  /** How many slots the scan after c goes on to reach j. */
  function Distance(c: int, j: int): int {
    if j > c then j - c else j - c + 16
  }

  /** Slot d is blocked in a receive, from anyone or from pid. */
  predicate Receives(ps: Table, d: int, pid: int)
    requires 0 <= d < |ps|
  {
    && ps[d].status == PendingSyscall && ps[d].syscall.kind == 1
    && (ps[d].syscall.sender == -1 || ps[d].syscall.sender == pid)
  }

  /** A send by c: if its receiver is waiting for it, the message is in the receiver's user memory and both go on; if
      not, c stays blocked with its message and no memory changes. */
  lemma SendOutcome(before: Table, user0: UserCalls, c: int, call: Syscall, t: Tick, phase: Phase, ps: Table,
                    user: UserCalls, next: int, d: int)
    requires TableOk(before, user0) && Quiescent(before) && 0 < c < MAX_NPROCESS && before[c].status == Running
    requires call.kind == 2 && 0 <= d < 16 && before[d].pid == call.receiver && before[d].status != Unused
    requires Yielded(Calling(before, c, call), user0, c, t, phase, ps, user, next)
    ensures var waiting := Receives(before, d, before[c].pid);
            if waiting then
              && phase == Matched(c, d) && Released(ps[c]) && Released(ps[d])
              && user == user0[before[d].pid := before[d].syscall.(sender := before[c].pid, content := call.content,
                                                                   status := Done)]
            else
              phase == Open && user == user0 && ps[c].status == PendingSyscall
              && ps[c].syscall == call.(status := Pending)
  {
    var ps0 := Calling(before, c, call);
    CallingOk(before, user0, c, call);
    assert IsTarget(ps0, d, ps0[c].syscall.receiver);
    if Receives(before, d, before[c].pid) {
      assert Pair(ps0, c, d);
      assert phase.Matched?;
      var s', d' := phase.s, phase.d;
      AfterMatch(ps0, user0, c, t, s', d', ps, user, next);
      PairsCoincide(ps0, user0, c, true, c, d, s', d');
    } else {
      forall s', d'
        ensures !Pair(ps0, s', d')
      {
        assert Pair(ps0, s', d') ==> s' == c;
        OneReceiver(ps0, user0, c, d, d');
      }
      AfterNoMatch(ps0, user0, c, t, ps, user, next);
      NextWasFree(ps0, c, t, phase, ps, next);
    }
  }

  /** The dispatched process was schedulable or has just been released. */
  lemma NextWasFree(ps0: Table, c: int, t: Tick, phase: Phase, ps: Table, next: int)
    requires |ps0| == MAX_NPROCESS + 1 && 0 <= c < |ps0| && 0 <= next < MAX_NPROCESS && phase.Open?
    requires exists lowest :: Chosen(Accounted(ps0, c, t), SkipOf(phase, c), c, MAX_NPROCESS, lowest, next)
    ensures Schedulable(ps0[next])
  {
    var lowest :| Chosen(Accounted(ps0, c, t), SkipOf(phase, c), c, MAX_NPROCESS, lowest, next);
    var j :| ChosenAt(Accounted(ps0, c, t), SkipOf(phase, c), c, MAX_NPROCESS, lowest, next, j);
  }

  lemma FirstIsNearest(ps: Table, c: int, s: int, s': int, d: int)
    requires |ps| == MAX_NPROCESS + 1 && 0 < c < MAX_NPROCESS && 0 <= s < MAX_NPROCESS && 0 <= s' < MAX_NPROCESS
    requires FirstSender(ps, c, s) && Pair(ps, s', d)
    ensures Distance(c, s) <= Distance(c, s')
  {
    hide Pair, At, Distance;
    var j :| 1 <= j <= MAX_NPROCESS && At(c, j) == s && forall k, d :: 1 <= k < j ==> !Pair(ps, At(c, k), d);
    var k := AllPassed(c, s');
    assert !(k < j);
    DistanceAt(c, j);
    DistanceAt(c, k);
  }

  lemma DistanceAt(c: int, k: int)
    requires 0 < c < MAX_NPROCESS && 1 <= k <= MAX_NPROCESS
    ensures Distance(c, At(c, k)) == k
  {
  }

  /** A receive by c: it is completed with the message of the first pending sender, in the order of the table after c,
      that it is willing to take; if there is none, c stays blocked and no memory changes. */
  lemma ReceiveOutcome(before: Table, user0: UserCalls, c: int, call: Syscall, t: Tick, phase: Phase, ps: Table,
                       user: UserCalls, next: int)
    requires TableOk(before, user0) && Quiescent(before) && 0 < c < MAX_NPROCESS && before[c].status == Running
    requires call.kind == 1
    requires Yielded(Calling(before, c, call), user0, c, t, phase, ps, user, next)
    ensures phase.Open? || (phase.Matched? && phase.d == c)
    ensures phase.Matched? ==>
              var s := phase.s;
              && 0 <= s < MAX_NPROCESS && s != c && Sends(before, s, before[c].pid, call.sender)
              && (forall s' :: 0 <= s' < MAX_NPROCESS && s' != c && Sends(before, s', before[c].pid, call.sender) ==>
                    Distance(c, s) <= Distance(c, s'))
              && Released(ps[c]) && Released(ps[s])
              && user == user0[before[c].pid := call.(sender := before[s].pid, content := before[s].syscall.content,
                                                      status := Done)]
    ensures phase.Open? ==>
              && (forall s :: 0 <= s < MAX_NPROCESS && s != c ==> !Sends(before, s, before[c].pid, call.sender))
              && user == user0 && ps[c].status == PendingSyscall && ps[c].syscall == call.(status := Pending)
  {
    var ps0 := Calling(before, c, call);
    CallingOk(before, user0, c, call);
    assert ProcessOk(before[c], user0);
    if phase.Matched? {
      AfterMatch(ps0, user0, c, t, phase.s, phase.d, ps, user, next);
      forall s' | 0 <= s' < MAX_NPROCESS && s' != c && Sends(before, s', before[c].pid, call.sender)
        ensures Distance(c, phase.s) <= Distance(c, s')
      {
        assert Pair(ps0, s', c);
        FirstIsNearest(ps0, c, phase.s, s', c);
      }
    } else {
      forall s | 0 <= s < MAX_NPROCESS && s != c
        ensures !Sends(before, s, before[c].pid, call.sender)
      {
        assert !Pair(ps0, s, c);
      }
      AfterNoMatch(ps0, user0, c, t, ps, user, next);
      NextWasFree(ps0, c, t, phase, ps, next);
    }
  }

  /** Slot s is blocked sending to pid, and a receive from `from` would take its message. */
  predicate Sends(ps: Table, s: int, pid: int, from: int)
    requires 0 <= s < |ps|
  {
    && ps[s].status == PendingSyscall && ps[s].syscall.kind == 2 && ps[s].syscall.receiver == pid
    && (from == -1 || from == ps[s].pid)
  }

  // ---------------------------------------------------------------- halting

  /** Slot s is blocked sending to no live process. */
  predicate SendsToNobody(ps: Table, s: int)
    requires |ps| == MAX_NPROCESS + 1
  {
    && 0 <= s < 16 && ps[s].status == PendingSyscall && ps[s].syscall.kind == 2
    && forall d :: 0 <= d < 16 ==> ps[d].pid != ps[s].syscall.receiver || ps[d].status == Unused
  }

  /** Slot s is blocked sending to slot d, which is blocked in a receive that has not been completed and takes it. */
  predicate Meet(ps: Table, s: int, d: int)
    requires |ps| == MAX_NPROCESS + 1
  {
    && 0 <= s < 16 && 0 <= d < 16 && ps[s].status == PendingSyscall && ps[s].syscall.kind == 2
    && ps[d].pid == ps[s].syscall.receiver && Receives(ps, d, ps[s].pid) && ps[d].syscall.status == Pending
  }

  /** The kernel halts in a yield exactly if a sender has no receiver, or nothing can run and nobody can be released. */
  lemma HaltsExactly(ps: Table)
    requires |ps| == MAX_NPROCESS + 1
    ensures Halts(ps) <==>
            || (exists s :: SendsToNobody(ps, s))
            || ((forall i :: 0 <= i < 16 ==> ps[i].status != Ready && ps[i].status != Runnable)
                && forall s, d :: !Meet(ps, s, d))
  {
    forall s
      ensures Orphan(ps, s) <==> SendsToNobody(ps, s)
    {
      if 0 <= s < 16 {
        forall d | 0 <= d < 16
          ensures IsTarget(ps, d, ps[s].syscall.receiver)
                  <==> ps[d].pid == ps[s].syscall.receiver && ps[d].status != Unused
        {
        }
      }
    }
    forall s, d
      ensures Pair(ps, s, d) <==> Meet(ps, s, d)
    {
    }
  }

  // ---------------------------------------------------------------- waiting

  predicate WaitsAtTop(ps: Table, j: int)
    requires 0 <= j < |ps|
  {
    (ps[j].status == Ready || ps[j].status == Runnable) && ps[j].account.level == 0
  }

  /** An eligible process at level 0 is chosen, unless another at level 0 comes before it. */
  lemma ChosenBefore(ps: Table, skip: int, c: int, lowest: int, next: int, j: int)
    requires |ps| == MAX_NPROCESS + 1 && 0 < c < MAX_NPROCESS && 0 < j < MAX_NPROCESS && j != c
             && 0 <= next < MAX_NPROCESS
    requires Chosen(ps, skip, c, MAX_NPROCESS, lowest, next)
    requires Eligible(ps, skip, j) && ps[j].account.level == 0
    requires forall i :: 0 <= i < |ps| ==> ps[i].account.level >= 0
    ensures next == j || Distance(next, j) < Distance(c, j)
  {
    var k := AllPassed(c, j);
    var n :| 1 <= n <= MAX_NPROCESS && ChosenAt(ps, skip, c, MAX_NPROCESS, lowest, next, n);
    assert Eligible(ps, skip, At(c, k));
    assert n <= k;
  }

  lemma StillWaits(ps0: Table, user0: UserCalls, c: int, t: Tick, phase: Phase, j: int)
    requires TableOk(ps0, user0) && 0 < c < MAX_NPROCESS && 0 < j < MAX_NPROCESS && j != c && WaitsAtTop(ps0, j)
    requires !phase.Linked? && (phase.Matched? ==> Pair(Accounted(ps0, c, t), phase.s, phase.d))
    ensures phase.Matched? ==> 0 <= phase.s < |ps0| && 0 <= phase.d < |ps0|
    ensures Eligible(Settled(Accounted(ps0, c, t), phase), SkipOf(phase, c), j)
    ensures WaitsAtTop(Settled(Accounted(ps0, c, t), phase), j)
  {
    assert ProcessOk(ps0[j], user0);
    NewAccountLevel(ps0[j], j, c, t);
  }

  /** One yield either dispatches j or brings the scan closer to it. */
  lemma YieldCloser(ps0: Table, user0: UserCalls, c: int, t: Tick, phase: Phase, ps: Table, user: UserCalls, next: int,
                    j: int)
    requires 0 <= c < |ps0| && Yielded(ps0, user0, c, t, phase, ps, user, next) && TableOk(ps0, user0)
    requires 0 < c < MAX_NPROCESS && 0 < j < MAX_NPROCESS && j != c && WaitsAtTop(ps0, j)
    ensures next == j || (WaitsAtTop(ps, j) && Distance(next, j) < Distance(c, j))
  {
    StillWaits(ps0, user0, c, t, phase, j);
    LevelsStay(ps0, user0, c, t, phase, next);
    var ps2 := Settled(Accounted(ps0, c, t), phase);
    var lowest :| Chosen(ps2, SkipOf(phase, c), c, MAX_NPROCESS, lowest, next);
    ChosenBefore(ps2, SkipOf(phase, c), c, lowest, next, j);
    assert AlikeProcess(Dispatched(ps2, next, t.now)[j], ps[j]);
  }

  lemma LevelsStay(ps0: Table, user0: UserCalls, c: int, t: Tick, phase: Phase, next: int)
    requires TableOk(ps0, user0) && 0 <= c < |ps0| && 0 <= next < MAX_NPROCESS
    requires phase.Matched? ==> 0 <= phase.s < |ps0| && 0 <= phase.d < |ps0|
    ensures forall i :: 0 <= i < |ps0| ==> Settled(Accounted(ps0, c, t), phase)[i].account.level >= 0
  {
    AccountedOk(ps0, user0, c, t);
    forall i | 0 <= i < |ps0|
      ensures Settled(Accounted(ps0, c, t), phase)[i].account.level >= 0
    {
      assert ProcessOk(Accounted(ps0, c, t)[i], user0);
    }
  }
}
