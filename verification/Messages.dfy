/** Messages over whole runs of the kernel: none is lost, none is delivered twice, none is changed. */
module Messages {
  import opened Processes
  import opened Ipc
  import opened Scheduling
  import opened Kernel
  import opened KernelRuns
  import opened BoundedWaiting

  datatype Letter = Letter(from: int, to: int, content: Message)

  /** The letter that a process is blocked on. */
  function Outgoing(p: Process): seq<Letter> {
    if Blocked(p) && p.syscall.kind == SYS_SEND then [Letter(p.pid, p.syscall.receiver, p.syscall.content)] else []
  }

  /** The letter that slot i hands to the kernel in this entry. */
  function Posted(e: Entry, i: int): seq<Letter> {
    if e.c == i && e.cause.Call? && e.cause.call.kind == SYS_SEND && 0 <= i < |e.before|
    then [Letter(e.before[i].pid, e.cause.call.receiver, e.cause.call.content)] else []
  }

  /** The letter from slot i that this entry puts into the memory of its receiver, as the receiver finds it there. */
  function Arrived(e: Entry, i: int): seq<Letter> {
    if e.phase.Matched? && e.phase.s == i && 0 <= e.phase.d < |e.ps| && e.ps[e.phase.d].pid in e.user then
      var to := e.ps[e.phase.d].pid;
      [Letter(e.user[to].sender, to, e.user[to].content)]
    else []
  }

  /** How many receives slot i is blocked in, begins, and completes. */
  function Expecting(p: Process): int {
    if Blocked(p) && p.syscall.kind == SYS_RECV then 1 else 0
  }

  function Asked(e: Entry, i: int): int {
    if e.c == i && e.cause.Call? && e.cause.call.kind == SYS_RECV then 1 else 0
  }

  function Got(e: Entry, i: int): int {
    if e.phase.Matched? && e.phase.d == i then 1 else 0
  }

  // ---------------------------------------------------------------- one entry

  lemma Dispatchable(ps0: Table, c: int, t: Tick, phase: Phase, next: int)
    requires |ps0| == MAX_NPROCESS + 1 && 0 <= c < |ps0| && 0 <= next < MAX_NPROCESS && !phase.Linked?
    requires phase.Matched? ==> 0 <= phase.s < |ps0| && 0 <= phase.d < |ps0|
    requires exists lowest :: Chosen(Settled(Accounted(ps0, c, t), phase), SkipOf(phase, c), c, MAX_NPROCESS, lowest,
                                     next)
    ensures (phase.Matched? && (next == phase.s || next == phase.d)) || Schedulable(ps0[next])
  {
    var ps2 := Settled(Accounted(ps0, c, t), phase);
    var lowest :| Chosen(ps2, SkipOf(phase, c), c, MAX_NPROCESS, lowest, next);
    var j :| ChosenAt(ps2, SkipOf(phase, c), c, MAX_NPROCESS, lowest, next, j);
    assert Eligible(ps2, SkipOf(phase, c), next);
  }

  /** In an entry without a match, every slot but the dispatched one stays as it was, and that one was not blocked. */
  lemma QuietEntry(e: Entry, i: int)
    requires IsEntry(e) && e.phase.Open? && 0 <= i < MAX_NPROCESS
    ensures Outgoing(e.ps[i]) == Outgoing(AtYield(e)[i]) && Expecting(e.ps[i]) == Expecting(AtYield(e)[i])
  {
    AfterNoMatch(AtYield(e), e.user0, e.c, e.t, e.ps, e.user, e.next);
    Dispatchable(AtYield(e), e.c, e.t, e.phase, e.next);
    assert i != e.next ==> Undisturbed(AtYield(e), e.ps, i);
  }

  /** In an entry with a match, the sender's letter is in the memory of the receiver, and both go on. */
  lemma PartnersGoOn(e: Entry)
    requires IsEntry(e) && e.phase.Matched?
    ensures 0 <= e.phase.s < MAX_NPROCESS && 0 <= e.phase.d < MAX_NPROCESS && e.phase.s != e.phase.d
    ensures var ps0, s, d := AtYield(e), e.phase.s, e.phase.d;
            && Pair(ps0, s, d) && Released(e.ps[s]) && Released(e.ps[d]) && e.ps[d].pid == ps0[d].pid
            && e.user == e.user0[ps0[d].pid := MarkedCall(ps0, s, d)]
  {
    AtYieldOk(e);
    AfterMatch(AtYield(e), e.user0, e.c, e.t, e.phase.s, e.phase.d, e.ps, e.user, e.next);
    KeepsPids(e, e.phase.d);
  }

  lemma OthersKeep(e: Entry, i: int)
    requires IsEntry(e) && e.phase.Matched? && 0 <= i < MAX_NPROCESS && i != e.phase.s && i != e.phase.d
    ensures Outgoing(e.ps[i]) == Outgoing(AtYield(e)[i]) && Expecting(e.ps[i]) == Expecting(AtYield(e)[i])
  {
    AtYieldOk(e);
    AfterMatch(AtYield(e), e.user0, e.c, e.t, e.phase.s, e.phase.d, e.ps, e.user, e.next);
    Dispatchable(AtYield(e), e.c, e.t, e.phase, e.next);
    assert i != e.next ==> Undisturbed(AtYield(e), e.ps, i);
  }

  lemma MatchedEntry(e: Entry, i: int)
    requires IsEntry(e) && e.phase.Matched? && 0 <= i < MAX_NPROCESS
    ensures Outgoing(AtYield(e)[i]) == Arrived(e, i) + Outgoing(e.ps[i])
    ensures Expecting(AtYield(e)[i]) == Got(e, i) + Expecting(e.ps[i])
  {
    PartnersGoOn(e);
    if i != e.phase.s && i != e.phase.d {
      OthersKeep(e, i);
    }
  }

  lemma SamePid(ps0: Table, ps1: Table, phase: Phase, next: int, now: int, ps: Table, i: int)
    requires |ps0| == |ps1| == |ps| && 0 <= next < |ps| && 0 <= i < |ps| && ps1[i].pid == ps0[i].pid
    requires phase.Matched? ==> 0 <= phase.s < |ps| && 0 <= phase.d < |ps|
    requires Alike(Dispatched(Settled(ps1, phase), next, now), ps)
    ensures ps[i].pid == ps0[i].pid
  {
    assert AlikeProcess(Dispatched(Settled(ps1, phase), next, now)[i], ps[i]);
  }

  lemma KeepsPids(e: Entry, i: int)
    requires IsEntry(e) && 0 <= i < MAX_NPROCESS
    requires e.phase.Matched? ==> 0 <= e.phase.s < MAX_NPROCESS && 0 <= e.phase.d < MAX_NPROCESS
    ensures e.ps[i].pid == AtYield(e)[i].pid
  {
    SamePid(AtYield(e), Accounted(AtYield(e), e.c, e.t), e.phase, e.next, e.t.now, e.ps, i);
  }

  lemma OnEntry(e: Entry, i: int)
    requires 0 <= e.c < |e.before| && e.before[e.c].status == Running && 0 <= i < |e.before|
    ensures Outgoing(e.before[i]) + Posted(e, i) == Outgoing(AtYield(e)[i])
    ensures Expecting(e.before[i]) + Asked(e, i) == Expecting(AtYield(e)[i])
  {
  }

  /** What is outgoing or posted before an entry has arrived or is outgoing after it; and the same for receives. */
  lemma OneEntry(e: Entry, i: int)
    requires IsEntry(e) && 0 <= i < MAX_NPROCESS
    ensures |e.before| == |e.ps| == MAX_NPROCESS + 1
    ensures Outgoing(e.before[i]) + Posted(e, i) == Arrived(e, i) + Outgoing(e.ps[i])
    ensures Expecting(e.before[i]) + Asked(e, i) == Got(e, i) + Expecting(e.ps[i])
  {
    OnEntry(e, i);
    if e.phase.Matched? {
      MatchedEntry(e, i);
    } else {
      QuietEntry(e, i);
    }
  }

  // ---------------------------------------------------------------- steps

  /** The letter that slot i hands to the kernel in this step, and the receive that it begins. */
  function PostedBy(step: Step, i: int): seq<Letter> {
    if step.Entered? then Posted(step.e, i) else []
  }

  function AskedBy(step: Step, i: int): int {
    if step.Entered? then Asked(step.e, i) else 0
  }

  /** What has become of letters and receives of slot i in this step: arrived or completed, or gone with the process. */
  ghost function GoneBy(step: Step, i: int): seq<Letter> {
    match step
    case Entered(_, e) => Arrived(e, i)
    case Managed(from, _, _) => if FreesSlot(step, i) then Outgoing(from.ps[i]) else []
  }

  ghost function EndedBy(step: Step, i: int): int {
    match step
    case Entered(_, e) => Got(e, i)
    case Managed(from, _, _) => if FreesSlot(step, i) then Expecting(from.ps[i]) else 0
  }

  lemma OpKeepsLetters(s: State, op: Op, s': State, i: int)
    requires StateOk(s) && Allowed(s, op) && OpDone(s, op, s') && 0 <= i < MAX_NPROCESS
    ensures |s'.ps| == MAX_NPROCESS + 1
    ensures Outgoing(s'.ps[i]) == if Frees(s, op, i) then [] else Outgoing(s.ps[i])
    ensures Expecting(s'.ps[i]) == if Frees(s, op, i) then 0 else Expecting(s.ps[i])
  {
    OpKeepsOk(s, op, s');
    if Blocked(s.ps[i]) && !Frees(s, op, i) {
      OpKeepsSlot(s, op, s', i);
    } else if !Blocked(s.ps[i]) {
      NotBlockedByOp(s, op, s', i);
    }
  }

  lemma NotBlockedByOp(s: State, op: Op, s': State, i: int)
    requires StateOk(s) && Allowed(s, op) && OpDone(s, op, s') && 0 <= i < MAX_NPROCESS && !Blocked(s.ps[i])
    ensures |s'.ps| == MAX_NPROCESS + 1 && !Blocked(s'.ps[i])
  {
    match op
    case Allocate(now) =>
      var k :| Allocated(s, k, now, s');
    case MakeReady(pid, call) =>
    case Release(pid) =>
    case ReleaseAll =>
  }

  /** In every step, what is outgoing or posted before it has arrived, is gone with its sender, or is outgoing after it;
      and the same for receives. */
  lemma OneStep(step: Step, i: int)
    requires IsStep(step) && 0 <= i < MAX_NPROCESS
    ensures |step.from.ps| == |After(step).ps| == MAX_NPROCESS + 1
    ensures Outgoing(step.from.ps[i]) + PostedBy(step, i) == GoneBy(step, i) + Outgoing(After(step).ps[i])
    ensures Expecting(step.from.ps[i]) + AskedBy(step, i) == EndedBy(step, i) + Expecting(After(step).ps[i])
  {
    match step
    case Entered(from, e) => OneEntry(e, i);
    case Managed(from, op, to) => OpKeepsLetters(from, op, to, i);
  }

  // ---------------------------------------------------------------- runs

  /** The letters posted, and gone, in the first n steps, and the receives begun and ended in them. */
  function AllPosted(run: seq<Step>, i: int, n: nat): seq<Letter>
    requires n <= |run|
  {
    if n == 0 then [] else AllPosted(run, i, n - 1) + PostedBy(run[n - 1], i)
  }

  ghost function AllGone(run: seq<Step>, i: int, n: nat): seq<Letter>
    requires n <= |run|
  {
    if n == 0 then [] else AllGone(run, i, n - 1) + GoneBy(run[n - 1], i)
  }

  function AllAsked(run: seq<Step>, i: int, n: nat): int
    requires n <= |run|
  {
    if n == 0 then 0 else AllAsked(run, i, n - 1) + AskedBy(run[n - 1], i)
  }

  ghost function AllEnded(run: seq<Step>, i: int, n: nat): int
    requires n <= |run|
  {
    if n == 0 then 0 else AllEnded(run, i, n - 1) + EndedBy(run[n - 1], i)
  }

  lemma StepOfRun(run: seq<Step>, i: int, k: int)
    requires IsKernelRun(run) && 0 <= i < MAX_NPROCESS && 0 <= k < |run|
    ensures |run[k].from.ps| == |After(run[k]).ps| == MAX_NPROCESS + 1
    ensures Outgoing(run[k].from.ps[i]) + PostedBy(run[k], i) == GoneBy(run[k], i) + Outgoing(After(run[k]).ps[i])
    ensures Expecting(run[k].from.ps[i]) + AskedBy(run[k], i) == EndedBy(run[k], i) + Expecting(After(run[k]).ps[i])
  {
    assert IsStep(run[k]);
    OneStep(run[k], i);
  }

  lemma FromBefore(run: seq<Step>, k: nat)
    requires IsKernelRun(run) && 0 < k < |run|
    ensures run[k].from == After(run[k - 1])
  {
    assert NextStep(run[k - 1], run[k]);
  }

  /** Over every run of the kernel, whatever processes come and go, the letters that the processes in slot i posted (and
      the one outgoing at the start) are, in order, exactly those that arrived in the memory of their receivers, or went
      with their sender when it was freed, and the one outgoing at the end.  And the receives are those completed, those
      that went with their process, and the one that slot i is blocked in. */
  lemma {:induction false} NothingLostOrRepeated(run: seq<Step>, i: int, n: nat)
    requires 0 < n <= |run| && IsKernelRun(run) && 0 <= i < MAX_NPROCESS
    ensures |run[0].from.ps| == |After(run[n - 1]).ps| == MAX_NPROCESS + 1
    ensures Outgoing(run[0].from.ps[i]) + AllPosted(run, i, n) == AllGone(run, i, n) + Outgoing(After(run[n - 1]).ps[i])
    ensures Expecting(run[0].from.ps[i]) + AllAsked(run, i, n)
            == AllEnded(run, i, n) + Expecting(After(run[n - 1]).ps[i])
  {
    hide IsKernelRun, After, Outgoing, Expecting, PostedBy, AskedBy, GoneBy, EndedBy;
    StepOfRun(run, i, 0);
    StepOfRun(run, i, n - 1);
    var start, end := Outgoing(run[0].from.ps[i]), Outgoing(After(run[n - 1]).ps[i]);
    if n == 1 {
      assert AllPosted(run, i, n - 1) == AllGone(run, i, n - 1) == [];
      Joined(start, [], PostedBy(run[0], i), [], start, GoneBy(run[0], i), end);
    } else {
      NothingLostOrRepeated(run, i, n - 1);
      FromBefore(run, n - 1);
      Joined(start, AllPosted(run, i, n - 1), PostedBy(run[n - 1], i), AllGone(run, i, n - 1),
             Outgoing(run[n - 1].from.ps[i]), GoneBy(run[n - 1], i), end);
    }
  }

  lemma Joined(start: seq<Letter>, posted: seq<Letter>, post: seq<Letter>, gone: seq<Letter>, middle: seq<Letter>,
               go: seq<Letter>, end: seq<Letter>)
    requires start + posted == gone + middle && middle + post == go + end
    ensures start + (posted + post) == (gone + go) + end
  {
    assert start + (posted + post) == (start + posted) + post;
    assert (gone + middle) + post == gone + (middle + post);
    assert gone + (go + end) == (gone + go) + end;
  }

  /** The letters that arrived in the first n steps. */
  function AllArrived(run: seq<Step>, i: int, n: nat): seq<Letter>
    requires n <= |run|
  {
    if n == 0 then [] else AllArrived(run, i, n - 1) + if run[n - 1].Entered? then Arrived(run[n - 1].e, i) else []
  }

  lemma {:induction false} OnlyArrived(run: seq<Step>, i: int, n: nat)
    requires n <= |run| && forall k :: 0 <= k < n ==> !FreesSlot(run[k], i)
    ensures AllGone(run, i, n) == AllArrived(run, i, n)
  {
    if n > 0 {
      OnlyArrived(run, i, n - 1);
    }
  }

  /** So as long as the process in slot i is not freed, no letter of it is lost, delivered twice or changed. */
  lemma LettersOfKernelRun(run: seq<Step>, i: int)
    requires IsKernelRun(run) && run != [] && 0 <= i < MAX_NPROCESS
    requires forall k :: 0 <= k < |run| ==> !FreesSlot(run[k], i)
    ensures |run[0].from.ps| == |After(run[|run| - 1]).ps| == MAX_NPROCESS + 1
    ensures Outgoing(run[0].from.ps[i]) + AllPosted(run, i, |run|)
            == AllArrived(run, i, |run|) + Outgoing(After(run[|run| - 1]).ps[i])
  {
    NothingLostOrRepeated(run, i, |run|);
    OnlyArrived(run, i, |run|);
  }
}
