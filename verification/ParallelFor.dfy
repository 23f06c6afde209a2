/** parallel_for (group-16-5/simple-multithreader.h): threads that run chunks of an index range in any interleaving. */
module ParallelFor {

  // ---------------------------------------------------------------- loops and interleavings

  /** Running the body for each item in turn. */
  function RunAll<I, S>(body: (I, S) -> S, s: S, items: seq<I>): S {
    if items == [] then s else body(items[|items| - 1], RunAll(body, s, items[..|items| - 1]))
  }

  function Concat<I>(jobs: seq<seq<I>>): seq<I> {
    if jobs == [] then [] else Concat(jobs[..|jobs| - 1]) + jobs[|jobs| - 1]
  }

  /** Thread t can run its next item. */
  predicate Enabled<I>(jobs: seq<seq<I>>, t: int) {
    0 <= t < |jobs| && jobs[t] != []
  }

  /** A schedule names the thread that runs next, at every step, until all threads have finished. */
  ghost predicate IsSchedule<I>(jobs: seq<seq<I>>, schedule: seq<int>)
    decreases |schedule|
  {
    if schedule == [] then forall t :: 0 <= t < |jobs| ==> jobs[t] == []
    else Enabled(jobs, schedule[0]) && IsSchedule(jobs[schedule[0] := jobs[schedule[0]][1..]], schedule[1..])
  }

  /** The items in the order in which a schedule runs them. */
  ghost function Trace<I>(jobs: seq<seq<I>>, schedule: seq<int>): seq<I>
    requires IsSchedule(jobs, schedule)
    decreases |schedule|
  {
    if schedule == [] then []
    else [jobs[schedule[0]][0]] + Trace(jobs[schedule[0] := jobs[schedule[0]][1..]], schedule[1..])
  }

  lemma {:induction false} ConcatPop<I>(jobs: seq<seq<I>>, t: int)
    requires Enabled(jobs, t)
    ensures multiset(Concat(jobs)) == multiset{jobs[t][0]} + multiset(Concat(jobs[t := jobs[t][1..]]))
  {
    var n := |jobs| - 1;
    var rest := jobs[t := jobs[t][1..]];
    if t == n {
      assert rest[..n] == jobs[..n];
      assert jobs[n] == [jobs[n][0]] + jobs[n][1..];
    } else {
      ConcatPop(jobs[..n], t);
      assert rest[..n] == jobs[..n][t := jobs[t][1..]];
    }
  }

  lemma {:induction false} ConcatOfNothing<I>(jobs: seq<seq<I>>)
    requires forall t :: 0 <= t < |jobs| ==> jobs[t] == []
    ensures Concat(jobs) == []
  {
    if jobs != [] {
      ConcatOfNothing(jobs[..|jobs| - 1]);
    }
  }

  /** The first item of all is the next one of the first thread that has any. */
  lemma {:induction false} ConcatFirst<I>(jobs: seq<seq<I>>, t: int)
    requires Enabled(jobs, t) && forall u :: 0 <= u < t ==> jobs[u] == []
    ensures Concat(jobs) == [jobs[t][0]] + Concat(jobs[t := jobs[t][1..]])
  {
    var n := |jobs| - 1;
    var rest := jobs[t := jobs[t][1..]];
    if t == n {
      ConcatOfNothing(jobs[..n]);
      assert rest[..n] == jobs[..n];
    } else {
      ConcatFirst(jobs[..n], t);
      assert rest[..n] == jobs[..n][t := jobs[t][1..]];
    }
  }

  /** The threads one after the other are one of the schedules, whatever the jobs. */
  lemma {:induction false} Sequentially<I>(jobs: seq<seq<I>>) returns (schedule: seq<int>)
    ensures IsSchedule(jobs, schedule) && Trace(jobs, schedule) == Concat(jobs)
    decreases |Concat(jobs)|
  {
    var t := 0;
    while t < |jobs| && jobs[t] == []
      invariant 0 <= t <= |jobs| && forall u :: 0 <= u < t ==> jobs[u] == []
    {
      t := t + 1;
    }
    if t == |jobs| {
      ConcatOfNothing(jobs);
      schedule := [];
    } else {
      ConcatFirst(jobs, t);
      var rest := Sequentially(jobs[t := jobs[t][1..]]);
      schedule := [t] + rest;
      assert schedule[1..] == rest;
    }
  }

  /** No choice is a dead end: whichever thread runs its next item first, the rest can be scheduled. */
  lemma AnyThreadFirst<I>(jobs: seq<seq<I>>, t: int) returns (schedule: seq<int>)
    requires Enabled(jobs, t)
    ensures IsSchedule(jobs, schedule) && schedule[0] == t
  {
    var rest := Sequentially(jobs[t := jobs[t][1..]]);
    schedule := [t] + rest;
    assert schedule[1..] == rest;
  }

  /** Whatever the schedule, every item is run exactly as often as it occurs in the job lists. */
  lemma {:induction false} EachJobOnce<I>(jobs: seq<seq<I>>, schedule: seq<int>)
    requires IsSchedule(jobs, schedule)
    ensures multiset(Trace(jobs, schedule)) == multiset(Concat(jobs))
    decreases |schedule|
  {
    if schedule == [] {
      ConcatOfNothing(jobs);
    } else {
      var t := schedule[0];
      EachJobOnce(jobs[t := jobs[t][1..]], schedule[1..]);
      ConcatPop(jobs, t);
    }
  }

  ghost predicate Commutes<I(!new), S(!new)>(body: (I, S) -> S) {
    forall i, j, s :: body(i, body(j, s)) == body(j, body(i, s))
  }

  /** One item can be run last instead of in its place. */
  lemma {:induction false} RunLast<I(!new), S(!new)>(body: (I, S) -> S, s: S, items: seq<I>, k: nat)
    requires Commutes(body) && k < |items|
    ensures RunAll(body, s, items) == body(items[k], RunAll(body, s, items[..k] + items[k + 1..]))
  {
    var n := |items| - 1;
    if k == n {
      assert items[..k] + items[k + 1..] == items[..n];
    } else {
      var without := items[..k] + items[k + 1..];
      RunLast(body, s, items[..n], k);
      assert without[..n - 1] == items[..n][..k] + items[..n][k + 1..];
      assert without[n - 1] == items[n];
    }
  }

  lemma WithoutOne<I>(a: seq<I>, k: nat)
    requires k < |a|
    ensures multiset(a) == multiset(a[..k] + a[k + 1..]) + multiset{a[k]}
  {
    assert a == a[..k] + [a[k]] + a[k + 1..];
  }

  lemma WithoutSame<I>(a: seq<I>, b: seq<I>, k: nat)
    requires multiset(a) == multiset(b) && b != [] && k < |a| && a[k] == b[|b| - 1]
    ensures multiset(a[..k] + a[k + 1..]) == multiset(b[..|b| - 1])
  {
    var n := |b| - 1;
    WithoutOne(a, k);
    WithoutOne(b, n);
    assert b[..n] + b[n + 1..] == b[..n];
    assert multiset(a[..k] + a[k + 1..]) == multiset(a) - multiset{a[k]};
    assert multiset(b[..n]) == multiset(b) - multiset{b[n]};
  }

  /** If the bodies commute, the order does not matter. */
  lemma {:induction false} OrderIrrelevant<I(!new), S(!new)>(body: (I, S) -> S, s: S, a: seq<I>, b: seq<I>)
    requires Commutes(body) && multiset(a) == multiset(b)
    ensures RunAll(body, s, a) == RunAll(body, s, b)
  {
    if b == [] {
      assert |multiset(a)| == |multiset(b)| == 0;
      assert a == [];
    } else {
      var n := |b| - 1;
      assert b[n] in multiset(b);
      var k :| 0 <= k < |a| && a[k] == b[n];
      RunLast(body, s, a, k);
      WithoutSame(a, b, k);
      OrderIrrelevant(body, s, a[..k] + a[k + 1..], b[..n]);
    }
  }

  // ---------------------------------------------------------------- bodies made of steps

  ghost predicate CommuteAt<M, S(!new)>(step: (M, S) -> S, x: M, y: M) {
    forall s {:trigger step(x, step(y, s))} {:trigger step(y, step(x, s))} :: step(x, step(y, s)) == step(y, step(x, s))
  }

  /** Steps of different threads commute; steps of one thread need not. */
  ghost predicate ThreadsCommute<M, S(!new)>(step: (M, S) -> S, jobs: seq<seq<M>>) {
    forall t, u, i, j :: 0 <= t < |jobs| && 0 <= u < |jobs| && t != u && 0 <= i < |jobs[t]| && 0 <= j < |jobs[u]| ==>
      CommuteAt(step, jobs[t][i], jobs[u][j])
  }

  lemma {:induction false} RunAllAppend<M, S>(step: (M, S) -> S, s: S, a: seq<M>, b: seq<M>)
    ensures RunAll(step, s, a + b) == RunAll(step, RunAll(step, s, a), b)
  {
    if b == [] {
      assert a + b == a;
    } else {
      var n := |b| - 1;
      RunAllAppend(step, s, a, b[..n]);
      assert (a + b)[..|a + b| - 1] == a + b[..n];
    }
  }

  /** A step that commutes with all items can be run before instead of after them. */
  lemma {:induction false} MoveFront<M, S(!new)>(step: (M, S) -> S, s: S, items: seq<M>, x: M)
    requires forall k :: 0 <= k < |items| ==> CommuteAt(step, x, items[k])
    ensures step(x, RunAll(step, s, items)) == RunAll(step, step(x, s), items)
  {
    if items != [] {
      var n := |items| - 1;
      MoveFront(step, s, items[..n], x);
      assert CommuteAt(step, x, items[n]);
    }
  }

  lemma {:induction false} CommutesWithConcat<M, S(!new)>(step: (M, S) -> S, jobs: seq<seq<M>>, x: M)
    requires forall u, j :: 0 <= u < |jobs| && 0 <= j < |jobs[u]| ==> CommuteAt(step, x, jobs[u][j])
    ensures forall k :: 0 <= k < |Concat(jobs)| ==> CommuteAt(step, x, Concat(jobs)[k])
  {
    if jobs != [] {
      var n := |jobs| - 1;
      CommutesWithConcat(step, jobs[..n], x);
    }
  }

  lemma PopOfLast<M, S(!new)>(step: (M, S) -> S, s: S, first: seq<M>, x: M, tail: seq<M>)
    requires forall k :: 0 <= k < |first| ==> CommuteAt(step, x, first[k])
    ensures RunAll(step, s, first + ([x] + tail)) == RunAll(step, step(x, s), first + tail)
  {
    RunAllAppend(step, s, first, [x] + tail);
    RunAllAppend(step, RunAll(step, s, first), [x], tail);
    assert [x][..0] == [];
    MoveFront(step, s, first, x);
    RunAllAppend(step, step(x, s), first, tail);
  }

  /** The first step of any thread can be run before all others. */
  lemma {:induction false} PopFirst<M, S(!new)>(step: (M, S) -> S, s: S, jobs: seq<seq<M>>, t: int)
    requires ThreadsCommute(step, jobs) && Enabled(jobs, t)
    ensures RunAll(step, s, Concat(jobs)) == RunAll(step, step(jobs[t][0], s), Concat(jobs[t := jobs[t][1..]]))
  {
    var n := |jobs| - 1;
    var rest, x := jobs[t := jobs[t][1..]], jobs[t][0];
    if t == n {
      assert rest[..n] == jobs[..n] && jobs[n] == [x] + rest[n];
      CommutesWithConcat(step, jobs[..n], x);
      PopOfLast(step, s, Concat(jobs[..n]), x, rest[n]);
    } else {
      assert rest[..n] == jobs[..n][t := jobs[t][1..]];
      PopFirst(step, s, jobs[..n], t);
      RunAllAppend(step, s, Concat(jobs[..n]), jobs[n]);
      RunAllAppend(step, step(x, s), Concat(rest[..n]), rest[n]);
    }
  }

  lemma RestCommutes<M, S(!new)>(step: (M, S) -> S, jobs: seq<seq<M>>, t: int)
    requires ThreadsCommute(step, jobs) && Enabled(jobs, t)
    ensures ThreadsCommute(step, jobs[t := jobs[t][1..]])
  {
    var rest := jobs[t := jobs[t][1..]];
    forall a, b, i, j | 0 <= a < |rest| && 0 <= b < |rest| && a != b && 0 <= i < |rest[a]| && 0 <= j < |rest[b]|
      ensures CommuteAt(step, rest[a][i], rest[b][j])
    {
      assert CommuteAt(step, jobs[a][if a == t then i + 1 else i], jobs[b][if b == t then j + 1 else j]);
    }
  }

  /** If steps of different threads commute, every interleaving ends as running the threads one after the other does. */
  lemma {:induction false} Interleaved<M(!new), S(!new)>(step: (M, S) -> S, s: S, jobs: seq<seq<M>>, schedule: seq<int>)
    requires ThreadsCommute(step, jobs) && IsSchedule(jobs, schedule)
    ensures RunAll(step, s, Trace(jobs, schedule)) == RunAll(step, s, Concat(jobs))
    decreases |schedule|
  {
    if schedule == [] {
      ConcatOfNothing(jobs);
    } else {
      var t := schedule[0];
      var rest, x := jobs[t := jobs[t][1..]], jobs[t][0];
      RestCommutes(step, jobs, t);
      Interleaved(step, step(x, s), rest, schedule[1..]);
      PopFirst(step, s, jobs, t);
      RunAllAppend(step, s, [x], Trace(rest, schedule[1..]));
      assert [x][..0] == [];
    }
  }

  /** The steps of some bodies, run one after the other. */
  function Flat<I, M>(steps: I -> seq<M>, items: seq<I>): seq<M> {
    if items == [] then [] else Flat(steps, items[..|items| - 1]) + steps(items[|items| - 1])
  }

  /** What each thread runs, step by step. */
  function Expanded<I, M>(steps: I -> seq<M>, jobs: seq<seq<I>>): seq<seq<M>> {
    seq(|jobs|, t requires 0 <= t < |jobs| => Flat(steps, jobs[t]))
  }

  /** All steps of one body. */
  function Body<I, M, S>(steps: I -> seq<M>, step: (M, S) -> S): (I, S) -> S {
    (i, s) => RunAll(step, s, steps(i))
  }

  /** No item is given to two threads. */
  predicate Apart<I(==)>(jobs: seq<seq<I>>) {
    forall t, u, i :: 0 <= t < u < |jobs| && i in jobs[t] ==> i !in jobs[u]
  }

  /** Steps of the bodies of different items commute; steps of the same body need not. */
  ghost predicate Independent<I(!new), M(!new), S(!new)>(steps: I -> seq<M>, step: (M, S) -> S) {
    forall i, j, x, y :: i != j && x in steps(i) && y in steps(j) ==> CommuteAt(step, x, y)
  }

  lemma {:induction false} FlatAppend<I, M>(steps: I -> seq<M>, a: seq<I>, b: seq<I>)
    ensures Flat(steps, a + b) == Flat(steps, a) + Flat(steps, b)
  {
    if b == [] {
      assert a + b == a;
    } else {
      var n := |b| - 1;
      FlatAppend(steps, a, b[..n]);
      assert (a + b)[..|a + b| - 1] == a + b[..n];
    }
  }

  lemma {:induction false} FlatConcat<I, M>(steps: I -> seq<M>, jobs: seq<seq<I>>)
    ensures Concat(Expanded(steps, jobs)) == Flat(steps, Concat(jobs))
  {
    if jobs != [] {
      var n := |jobs| - 1;
      FlatConcat(steps, jobs[..n]);
      assert Expanded(steps, jobs)[..n] == Expanded(steps, jobs[..n]);
      FlatAppend(steps, Concat(jobs[..n]), jobs[n]);
    }
  }

  lemma {:induction false} RunFlat<I, M, S>(steps: I -> seq<M>, step: (M, S) -> S, s: S, items: seq<I>)
    ensures RunAll(step, s, Flat(steps, items)) == RunAll(Body(steps, step), s, items)
  {
    if items != [] {
      var n := |items| - 1;
      RunFlat(steps, step, s, items[..n]);
      RunAllAppend(step, s, Flat(steps, items[..n]), steps(items[n]));
    }
  }

  lemma {:induction false} StepOfItem<I, M>(steps: I -> seq<M>, items: seq<I>, k: nat) returns (i: I)
    requires k < |Flat(steps, items)|
    ensures i in items && Flat(steps, items)[k] in steps(i)
  {
    var n := |items| - 1;
    if k < |Flat(steps, items[..n])| {
      i := StepOfItem(steps, items[..n], k);
    } else {
      i := items[n];
    }
  }

  lemma ExpandedCommute<I(!new), M(!new), S(!new)>(steps: I -> seq<M>, step: (M, S) -> S, jobs: seq<seq<I>>)
    requires Independent(steps, step) && Apart(jobs)
    ensures ThreadsCommute(step, Expanded(steps, jobs))
  {
    var flat := Expanded(steps, jobs);
    forall t, u, i, j | 0 <= t < |flat| && 0 <= u < |flat| && t != u && 0 <= i < |flat[t]| && 0 <= j < |flat[u]|
      ensures CommuteAt(step, flat[t][i], flat[u][j])
    {
      var a := StepOfItem(steps, jobs[t], i);
      var b := StepOfItem(steps, jobs[u], j);
      assert t < u ==> a !in jobs[u];
      assert u < t ==> b !in jobs[t];
    }
  }

  lemma InterleavedBodies<I(!new), M(!new), S(!new)>(steps: I -> seq<M>, step: (M, S) -> S, s: S, jobs: seq<seq<I>>,
                                                     schedule: seq<int>)
    requires Independent(steps, step) && Apart(jobs) && IsSchedule(Expanded(steps, jobs), schedule)
    ensures RunAll(step, s, Trace(Expanded(steps, jobs), schedule)) == RunAll(Body(steps, step), s, Concat(jobs))
  {
    ExpandedCommute(steps, step, jobs);
    Interleaved(step, s, Expanded(steps, jobs), schedule);
    FlatConcat(steps, jobs);
    RunFlat(steps, step, s, Concat(jobs));
  }

  // ---------------------------------------------------------------- chunks

  function Range(low: int, high: int): seq<int>
    decreases high - low
  {
    if low >= high then [] else Range(low, high - 1) + [high - 1]
  }

  lemma {:induction false} RangeConcat(low: int, mid: int, high: int)
    requires low <= mid <= high
    ensures Range(low, high) == Range(low, mid) + Range(mid, high)
    decreases high - mid
  {
    if mid < high {
      RangeConcat(low, mid, high - 1);
    }
  }

  datatype Chunk = Chunk(low: int, high: int)

  /** Chunks follow one another without gap from low to high. */
  ghost predicate Tiles(chunks: seq<Chunk>, low: int, high: int) {
    if chunks == [] then low == high
    else
      var last := chunks[|chunks| - 1];
      last.low <= last.high == high && Tiles(chunks[..|chunks| - 1], low, last.low)
  }

  /** What each thread of a 1D loop runs (runTask1). */
  function Jobs(chunks: seq<Chunk>): seq<seq<int>> {
    seq(|chunks|, t requires 0 <= t < |chunks| => Range(chunks[t].low, chunks[t].high))
  }

  /** Tiles in order, run one after the other, are the sequential loop. */
  lemma {:induction false} TilesAreRange(chunks: seq<Chunk>, low: int, high: int)
    requires Tiles(chunks, low, high)
    ensures low <= high && Concat(Jobs(chunks)) == Range(low, high)
  {
    if chunks != [] {
      var n := |chunks| - 1;
      TilesAreRange(chunks[..n], low, chunks[n].low);
      assert Jobs(chunks)[..n] == Jobs(chunks[..n]);
      RangeConcat(low, chunks[n].low, high);
    }
  }

  /** The while loop of parallel_for: the chunk of each thread. */
  method FillChunks(low: int, numThreads: int, base: int, extra: int) returns (chunks: seq<Chunk>)
    requires 0 <= base && 0 <= extra < numThreads
    ensures |chunks| == numThreads
    ensures Tiles(chunks, low, low + numThreads * base + extra)
    ensures forall t :: 0 <= t < numThreads ==> chunks[t].high - chunks[t].low == base + (if t < extra then 1 else 0)
  {
    var data := new Chunk[numThreads](i => Chunk(0, 0));
    var current := low;
    var count := 0;
    ghost var done := 0;
    while count < numThreads
      invariant 0 <= count <= numThreads
      invariant done == count * base && current == low + done + (if count < extra then count else extra)
      invariant Tiles(data[..count], low, current)
      invariant forall t :: 0 <= t < count ==> data[t].high - data[t].low == base + (if t < extra then 1 else 0)
    {
      var begin, len := current, base;
      if count < extra {
        len := len + 1;
      }
      var x := begin + len;
      current := x;
      data[count] := Chunk(begin, x);
      assert data[..count + 1][..count] == data[..count];
      MulStep(count, base);
      done := done + base;
      count := count + 1;
    }
    chunks := data[..];
    assert chunks == data[..count];
  }

  lemma DivMod(total: int, n: int)
    requires total >= 0 && n > 0
    ensures 0 <= total / n && 0 <= total % n < n && n * (total / n) + total % n == total
  {
  }

  /** The chunks of parallel_for: they tile [low, high) in order, with sizes that differ by at most 1.  An empty range
      has none. */
  method MakeChunks(low: int, high: int, threads: int) returns (chunks: seq<Chunk>)
    ensures |chunks| == if low >= high then 0 else if threads <= 0 then 1 else threads
    ensures low < high ==> Tiles(chunks, low, high)
    ensures forall t, u :: 0 <= t < u < |chunks| ==>
              0 <= (chunks[t].high - chunks[t].low) - (chunks[u].high - chunks[u].low) <= 1
  {
    var numThreads := threads;
    if numThreads <= 0 {
      numThreads := 1;
    }
    if low >= high {
      return [];
    }
    var total := high - low;
    DivMod(total, numThreads);
    chunks := FillChunks(low, numThreads, total / numThreads, total % numThreads);
  }

  lemma MulStep(count: int, base: int)
    ensures (count + 1) * base == count * base + base
  {
  }

  // ---------------------------------------------------------------- the theorems

  /** 1D: whatever the interleaving, each index of [low, high) is run exactly once. */
  lemma EachIndexOnce(chunks: seq<Chunk>, low: int, high: int, schedule: seq<int>)
    requires Tiles(chunks, low, high) && IsSchedule(Jobs(chunks), schedule)
    ensures multiset(Trace(Jobs(chunks), schedule)) == multiset(Range(low, high))
  {
    EachJobOnce(Jobs(chunks), schedule);
    TilesAreRange(chunks, low, high);
  }

  lemma TileBounds(chunks: seq<Chunk>, low: int, high: int, t: int, u: int)
    requires Tiles(chunks, low, high) && 0 <= t < u < |chunks|
    ensures chunks[t].high <= chunks[u].low
  {
    TileEnds(chunks[..u], low, chunks, high);
    TileEndsAt(chunks[..u], low, chunks[u].low, t);
  }

  /** A prefix of tiles ends where the next tile begins. */
  lemma {:induction false} TileEnds(prefix: seq<Chunk>, low: int, chunks: seq<Chunk>, high: int)
    requires Tiles(chunks, low, high) && |prefix| < |chunks| && prefix == chunks[..|prefix|]
    ensures Tiles(prefix, low, chunks[|prefix|].low)
  {
    var n := |chunks| - 1;
    if |prefix| < n {
      TileEnds(prefix, low, chunks[..n], chunks[n].low);
    }
  }

  lemma {:induction false} TileEndsAt(chunks: seq<Chunk>, low: int, high: int, t: int)
    requires Tiles(chunks, low, high) && 0 <= t < |chunks|
    ensures low <= chunks[t].low <= chunks[t].high <= high
  {
    var n := |chunks| - 1;
    TilesAreRange(chunks[..n], low, chunks[n].low);
    if t < n {
      TileEndsAt(chunks[..n], low, chunks[n].low, t);
    }
  }

  lemma {:induction false} RangeHas(low: int, high: int, i: int)
    requires i in Range(low, high)
    ensures low <= i < high
    decreases high - low
  {
    if i in Range(low, high - 1) {
      RangeHas(low, high - 1, i);
    }
  }

  lemma JobsApart(chunks: seq<Chunk>, low: int, high: int)
    requires Tiles(chunks, low, high)
    ensures Apart(Jobs(chunks))
  {
    forall t, u, i | 0 <= t < u < |chunks| && i in Jobs(chunks)[t]
      ensures i !in Jobs(chunks)[u]
    {
      TileBounds(chunks, low, high, t, u);
      RangeHas(chunks[t].low, chunks[t].high, i);
      if i in Jobs(chunks)[u] {
        RangeHas(chunks[u].low, chunks[u].high, i);
      }
    }
  }

  /** 1D: if bodies of different indices do not disturb each other, every interleaving of their steps ends as the
      sequential loop over the bodies does. */
  lemma ParallelIsSequential<M(!new), S(!new)>(steps: int -> seq<M>, step: (M, S) -> S, s: S, chunks: seq<Chunk>,
                                               low: int, high: int, schedule: seq<int>)
    requires Independent(steps, step) && Tiles(chunks, low, high) && IsSchedule(Expanded(steps, Jobs(chunks)), schedule)
    ensures RunAll(step, s, Trace(Expanded(steps, Jobs(chunks)), schedule))
            == RunAll(Body(steps, step), s, Range(low, high))
  {
    JobsApart(chunks, low, high);
    InterleavedBodies(steps, step, s, Jobs(chunks), schedule);
    TilesAreRange(chunks, low, high);
  }

  // ---------------------------------------------------------------- 2D loops

  type Cell = (int, int)

  function Row(i: int, low: int, high: int): seq<Cell>
    decreases high - low
  {
    if low >= high then [] else Row(i, low, high - 1) + [(i, high - 1)]
  }

  /** The nested loops over rows [low1, high1) and columns [low2, high2). */
  function Grid(low1: int, high1: int, low2: int, high2: int): seq<Cell>
    decreases high1 - low1
  {
    if low1 >= high1 then [] else Grid(low1, high1 - 1, low2, high2) + Row(high1 - 1, low2, high2)
  }

  /** What each thread of a 2D loop runs (runTask2): its chunk of rows, all columns. */
  function Jobs2(chunks: seq<Chunk>, low2: int, high2: int): seq<seq<Cell>> {
    seq(|chunks|, t requires 0 <= t < |chunks| => Grid(chunks[t].low, chunks[t].high, low2, high2))
  }

  lemma {:induction false} GridConcat(low: int, mid: int, high: int, low2: int, high2: int)
    requires low <= mid <= high
    ensures Grid(low, high, low2, high2) == Grid(low, mid, low2, high2) + Grid(mid, high, low2, high2)
    decreases high - mid
  {
    if mid < high {
      GridConcat(low, mid, high - 1, low2, high2);
    }
  }

  lemma {:induction false} TilesAreGrid(chunks: seq<Chunk>, low: int, high: int, low2: int, high2: int)
    requires Tiles(chunks, low, high)
    ensures low <= high && Concat(Jobs2(chunks, low2, high2)) == Grid(low, high, low2, high2)
  {
    if chunks != [] {
      var n := |chunks| - 1;
      TilesAreGrid(chunks[..n], low, chunks[n].low, low2, high2);
      assert Jobs2(chunks, low2, high2)[..n] == Jobs2(chunks[..n], low2, high2);
      GridConcat(low, chunks[n].low, high, low2, high2);
    }
  }

  lemma {:induction false} RowHas(i: int, low: int, high: int, cell: Cell)
    requires cell in Row(i, low, high)
    ensures cell.0 == i && low <= cell.1 < high
    decreases high - low
  {
    if cell in Row(i, low, high - 1) {
      RowHas(i, low, high - 1, cell);
    }
  }

  lemma {:induction false} GridHas(low1: int, high1: int, low2: int, high2: int, cell: Cell)
    requires cell in Grid(low1, high1, low2, high2)
    ensures low1 <= cell.0 < high1
    decreases high1 - low1
  {
    if cell in Grid(low1, high1 - 1, low2, high2) {
      GridHas(low1, high1 - 1, low2, high2, cell);
    } else {
      RowHas(high1 - 1, low2, high2, cell);
    }
  }

  lemma JobsApart2(chunks: seq<Chunk>, low: int, high: int, low2: int, high2: int)
    requires Tiles(chunks, low, high)
    ensures Apart(Jobs2(chunks, low2, high2))
  {
    forall t, u, i | 0 <= t < u < |chunks| && i in Jobs2(chunks, low2, high2)[t]
      ensures i !in Jobs2(chunks, low2, high2)[u]
    {
      TileBounds(chunks, low, high, t, u);
      GridHas(chunks[t].low, chunks[t].high, low2, high2, i);
      if i in Jobs2(chunks, low2, high2)[u] {
        GridHas(chunks[u].low, chunks[u].high, low2, high2, i);
      }
    }
  }

  /** 2D: each index pair is given to one thread once. */
  lemma EachCellOnce(chunks: seq<Chunk>, low: int, high: int, low2: int, high2: int, schedule: seq<int>)
    requires Tiles(chunks, low, high) && IsSchedule(Jobs2(chunks, low2, high2), schedule)
    ensures multiset(Trace(Jobs2(chunks, low2, high2), schedule)) == multiset(Grid(low, high, low2, high2))
  {
    EachJobOnce(Jobs2(chunks, low2, high2), schedule);
    TilesAreGrid(chunks, low, high, low2, high2);
  }

  /** 2D: if bodies of different index pairs do not disturb each other, every interleaving of their steps ends as the
      nested sequential loops over the bodies do. */
  lemma ParallelIsSequential2<M(!new), S(!new)>(steps: Cell -> seq<M>, step: (M, S) -> S, s: S, chunks: seq<Chunk>,
                                                low: int, high: int, low2: int, high2: int, schedule: seq<int>)
    requires Independent(steps, step) && Tiles(chunks, low, high)
    requires IsSchedule(Expanded(steps, Jobs2(chunks, low2, high2)), schedule)
    ensures RunAll(step, s, Trace(Expanded(steps, Jobs2(chunks, low2, high2)), schedule))
            == RunAll(Body(steps, step), s, Grid(low, high, low2, high2))
  {
    JobsApart2(chunks, low, high, low2, high2);
    InterleavedBodies(steps, step, s, Jobs2(chunks, low2, high2), schedule);
    TilesAreGrid(chunks, low, high, low2, high2);
  }
}
