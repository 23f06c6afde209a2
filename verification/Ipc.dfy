/** Rendezvous of send and receive (grass/kernel.c): who may be matched with whom, and what a match does. */
module Ipc {
  import opened Processes

  type Table = seq<Process>
  type UserCalls = map<int, Syscall>  // the system call page in the private memory of each process

  predicate Blocked(p: Process) {
    p.status == PendingSyscall
  }

  predicate Schedulable(p: Process) {
    p.status == Ready || p.status == Runnable
  }

  ghost predicate TableOk(ps: Table, user: UserCalls) {
    && |ps| == MAX_NPROCESS + 1
    && ps[0].status == Unused
    && ps[MAX_NPROCESS].status in {Unused, Loading}
    && (forall i, j :: 0 <= i < j < |ps| && ps[i].pid == ps[j].pid ==> ps[i].pid <= 0)
    && (forall i :: 0 <= i < |ps| ==> ProcessOk(ps[i], user))
  }

  predicate ProcessOk(p: Process, user: UserCalls) {
    && (p.status != Unused ==> p.pid > 0)
    && (p.status != Unused && p.status != Loading ==> p.pid in user)
    && (Blocked(p) ==> p.syscall.kind == SYS_RECV || p.syscall.kind == SYS_SEND)
    && 0 <= p.account.level < 5
  }

  /** Slot i is the live process with this pid, as proc_try_send looks it up. */
  predicate IsTarget(ps: Table, i: int, pid: int)
    requires |ps| == MAX_NPROCESS + 1
  {
    0 <= i < MAX_NPROCESS && ps[i].pid == pid && ps[i].status != Unused
  }

  /** The test that proc_try_send makes of the receiver. */
  predicate Accepts(dst: Process, pid: int) {
    dst.syscall.kind == SYS_RECV && dst.syscall.status == Pending
      && (dst.syscall.sender == GPID_ALL || dst.syscall.sender == pid)
  }

  /** A pending sender s and a pending receiver d that would take its message. */
  predicate Pair(ps: Table, s: int, d: int)
    requires |ps| == MAX_NPROCESS + 1
  {
    && 0 <= s < MAX_NPROCESS && Blocked(ps[s]) && ps[s].syscall.kind == SYS_SEND
    && IsTarget(ps, d, ps[s].syscall.receiver) && Blocked(ps[d]) && Accepts(ps[d], ps[s].pid)
  }

  ghost predicate ReceiversWait(ps: Table)
    requires |ps| == MAX_NPROCESS + 1
  {
    forall i :: 0 <= i < MAX_NPROCESS && Blocked(ps[i]) && ps[i].syscall.kind == SYS_RECV ==>
      ps[i].syscall.status == Pending
  }

  /** No rendezvous is possible and none is half done. */
  ghost predicate Quiescent(ps: Table)
    requires |ps| == MAX_NPROCESS + 1
  {
    ReceiversWait(ps) && forall s, d :: !Pair(ps, s, d)
  }

  function MarkedCall(ps: Table, s: int, d: int): Syscall
    requires 0 <= s < |ps| && 0 <= d < |ps|
  {
    ps[d].syscall.(status := Done, sender := ps[s].pid, content := ps[s].syscall.content)
  }

  /** The message of s has been copied into the kernel's record of d. */
  function Marked(ps: Table, s: int, d: int): Table
    requires 0 <= s < |ps| && 0 <= d < |ps|
  {
    ps[d := ps[d].(syscall := MarkedCall(ps, s, d))]
  }

  /** ... and both have been released. */
  function Delivered(ps: Table, s: int, d: int): Table
    requires 0 <= s < |ps| && 0 <= d < |ps|
  {
    var ps1 := Marked(ps, s, d);
    var ps2 := ps1[d := ps1[d].(status := Runnable)];
    ps2[s := ps2[s].(status := Runnable)]
  }

  /** The same, except for the old system call records of processes that are not blocked, which mean nothing. */
  ghost predicate Alike(ps: Table, ps': Table) {
    && |ps'| == |ps|
    && forall i :: 0 <= i < |ps| ==> AlikeProcess(ps[i], ps'[i])
  }

  predicate AlikeProcess(p: Process, p': Process) {
    p' == p || (!Blocked(p) && p' == p.(syscall := p'.syscall))
  }

  lemma AlikeTrans(ps: Table, ps': Table, ps'': Table)
    requires Alike(ps, ps') && Alike(ps', ps'')
    ensures Alike(ps, ps'')
  {
    forall i | 0 <= i < |ps|
      ensures AlikeProcess(ps[i], ps''[i])
    {
      assert AlikeProcess(ps[i], ps'[i]) && AlikeProcess(ps'[i], ps''[i]);
    }
  }

  lemma UniqueTarget(ps: Table, user: UserCalls, i: int, j: int, pid: int)
    requires TableOk(ps, user) && IsTarget(ps, i, pid) && IsTarget(ps, j, pid)
    ensures i == j
  {
    assert ProcessOk(ps[i], user);
  }

  // ---------------------------------------------------------------- the scan of proc_yield

  /** How far the scan has come with the one match that can happen in it. */
  datatype Phase = Open | Linked(s: int, d: int) | Matched(s: int, d: int)

  /** The table and the user memories during a scan that began with (ps0, user0). */
  ghost predicate InPhase(ps0: Table, user0: UserCalls, phase: Phase, ps: Table, user: UserCalls) {
    && TableOk(ps0, user0)
    && (match phase
        case Open => Alike(ps0, ps) && user == user0
        case Linked(s, d) => Pair(ps0, s, d) && Alike(Marked(ps0, s, d), ps) && user == user0
        case Matched(s, d) =>
          Pair(ps0, s, d) && Alike(Delivered(ps0, s, d), ps) && user == user0[ps0[d].pid := MarkedCall(ps0, s, d)])
  }

  /** Every possible match involves c: as the sender if `sending`, else as the receiver. */
  ghost predicate OnlyWith(ps: Table, c: int, sending: bool)
    requires |ps| == MAX_NPROCESS + 1
  {
    ReceiversWait(ps) && forall s, d :: Pair(ps, s, d) ==> if sending then s == c else d == c
  }

  lemma DeliveredOk(ps: Table, user: UserCalls, s: int, d: int)
    requires TableOk(ps, user) && Pair(ps, s, d)
    ensures s != d && TableOk(Delivered(ps, s, d), user[ps[d].pid := MarkedCall(ps, s, d)])
            && TableOk(Marked(ps, s, d), user)
  {
    assert ProcessOk(ps[s], user) && ProcessOk(ps[d], user);
    var ps', user' := Delivered(ps, s, d), user[ps[d].pid := MarkedCall(ps, s, d)];
    forall i | 0 <= i < |ps|
      ensures ProcessOk(ps'[i], user') && ProcessOk(Marked(ps, s, d)[i], user)
    {
      assert ProcessOk(ps[i], user);
    }
  }

  lemma AlikeOk(ps: Table, ps': Table, user: UserCalls)
    requires TableOk(ps, user) && Alike(ps, ps')
    ensures TableOk(ps', user)
  {
    forall i | 0 <= i < |ps|
      ensures ProcessOk(ps'[i], user) && ps'[i].pid == ps[i].pid && ps'[i].status == ps[i].status
    {
      assert AlikeProcess(ps[i], ps'[i]) && ProcessOk(ps[i], user);
    }
  }

  lemma PhaseOk(ps0: Table, user0: UserCalls, phase: Phase, ps: Table, user: UserCalls)
    requires InPhase(ps0, user0, phase, ps, user)
    ensures TableOk(ps, user)
  {
    match phase
    case Open => AlikeOk(ps0, ps, user);
    case Linked(s, d) =>
      DeliveredOk(ps0, user0, s, d);
      AlikeOk(Marked(ps0, s, d), ps, user);
    case Matched(s, d) =>
      DeliveredOk(ps0, user0, s, d);
      AlikeOk(Delivered(ps0, s, d), ps, user);
  }

  /** Visiting a blocked receiver: it is released if the match is linked and this is its receiver, and left alone
      otherwise. */
  lemma VisitReceiver(ps0: Table, user0: UserCalls, phase: Phase, ps: Table, user: UserCalls, r: int)
    requires InPhase(ps0, user0, phase, ps, user) && ReceiversWait(ps0)
    requires 0 <= r < MAX_NPROCESS && |ps| == MAX_NPROCESS + 1 && Blocked(ps[r]) && ps[r].syscall.kind == SYS_RECV
    ensures ps[r].syscall.status == Done <==> phase.Linked? && r == phase.d
    ensures phase.Linked? && r == phase.d ==> ps[r].syscall == MarkedCall(ps0, phase.s, r) && ps[r].pid == ps0[r].pid
  {
    var base :=
      match phase
      case Open => ps0
      case Linked(s, d) => Marked(ps0, s, d)
      case Matched(s, d) => Delivered(ps0, s, d);
    assert AlikeProcess(base[r], ps[r]);
    assert ps[r] == base[r];
  }

  /** Visiting a blocked sender s': the only receiver that takes its message is one that makes a match possible, or one
      whose system call record means nothing. */
  lemma VisitSender(ps0: Table, user0: UserCalls, phase: Phase, ps: Table, user: UserCalls, c: int, sending: bool,
                    s': int, d': int)
    requires InPhase(ps0, user0, phase, ps, user) && OnlyWith(ps0, c, sending)
    requires |ps| == MAX_NPROCESS + 1
    requires 0 <= s' < MAX_NPROCESS && Blocked(ps[s']) && ps[s'].syscall.kind == SYS_SEND
    requires IsTarget(ps, d', ps[s'].syscall.receiver)
    ensures !Accepts(ps[d'], ps[s'].pid) ==> !(phase.Open? && Pair(ps0, s', d'))
    ensures Accepts(ps[d'], ps[s'].pid) && !Blocked(ps[d']) ==> InPhase(ps0, user0, phase, Marked(ps, s', d'), user)
    ensures Accepts(ps[d'], ps[s'].pid) && Blocked(ps[d']) ==>
              phase == Open && InPhase(ps0, user0, Linked(s', d'), Marked(ps, s', d'), user)
  {
    var base :=
      match phase
      case Open => ps0
      case Linked(s, d) => Marked(ps0, s, d)
      case Matched(s, d) => Delivered(ps0, s, d);
    assert AlikeProcess(base[s'], ps[s']) && AlikeProcess(base[d'], ps[d']);
    assert ps[s'] == base[s'] == ps0[s'];
    if Accepts(ps[d'], ps[s'].pid) {
      var ps' := Marked(ps, s', d');
      if !Blocked(ps[d']) {
        assert Alike(ps, ps') by {
          forall i | 0 <= i < |ps|
            ensures AlikeProcess(ps[i], ps'[i])
          {
          }
        }
        AlikeTrans(base, ps, ps');
      } else {
        assert ps[d'] == base[d'];
        assert Pair(ps0, s', d');
        if !phase.Open? {
          assert Pair(ps0, phase.s, phase.d);
          PairsCoincide(ps0, user0, c, sending, phase.s, phase.d, s', d');
          assert false;
        }
        forall i | 0 <= i < |ps|
          ensures AlikeProcess(Marked(ps0, s', d')[i], ps'[i])
        {
          assert AlikeProcess(ps0[i], ps[i]);
        }
      }
    }
  }

  lemma PairsCoincide(ps: Table, user: UserCalls, c: int, sending: bool, s: int, d: int, s': int, d': int)
    requires TableOk(ps, user) && OnlyWith(ps, c, sending) && Pair(ps, s, d) && Pair(ps, s', d')
    ensures d == d'
  {
    assert s == s' ==> d == d' by {
      if s == s' {
        UniqueTarget(ps, user, d, d', ps[s].syscall.receiver);
      }
    }
  }
}
