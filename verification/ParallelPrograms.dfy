/** The two example programs of parallel_for (group-16-5/vector.cpp, matrix.cpp), whose bodies may be interrupted
    between a read and the write that follows it. */
module ParallelPrograms {
  import opened ParallelFor

  // ---------------------------------------------------------------- vector addition

  /** C[i] = A[i] + B[i]: the sum is fetched into a register of the body, then put into C. */
  datatype AddStep = Fetch(i: int) | Put(i: int)

  datatype AddState = AddState(c: seq<int>, register: map<int, int>)

  function RunAdd(a: seq<int>, b: seq<int>, x: AddStep, s: AddState): AddState {
    match x
    case Fetch(i) => if 0 <= i < |a| == |b| then s.(register := s.register[i := a[i] + b[i]]) else s
    case Put(i) => if 0 <= i < |s.c| && i in s.register then s.(c := s.c[i := s.register[i]]) else s
  }

  function AddStepOf(a: seq<int>, b: seq<int>): (AddStep, AddState) -> AddState {
    (x, s) => RunAdd(a, b, x, s)
  }

  function AddSteps(): int -> seq<AddStep> {
    i => [Fetch(i), Put(i)]
  }

  lemma AddsIndependent(a: seq<int>, b: seq<int>)
    ensures Independent(AddSteps(), AddStepOf(a, b))
  {
    forall i, j, x, y | i != j && x in AddSteps()(i) && y in AddSteps()(j)
      ensures CommuteAt(AddStepOf(a, b), x, y)
    {
      assert x.i == i && y.i == j;
    }
  }

  lemma RunTwo<M, S>(step: (M, S) -> S, s: S, x: M, y: M)
    ensures RunAll(step, s, [x, y]) == step(y, step(x, s))
  {
    assert [x, y][..1] == [x] && [x][..0] == [];
    assert RunAll(step, s, [x]) == step(x, s);
  }

  lemma {:induction false} RangeLength(low: int, high: int)
    requires low <= high
    ensures |Range(low, high)| == high - low
    decreases high - low
  {
    if low < high {
      RangeLength(low, high - 1);
    }
  }

  lemma AddBody(a: seq<int>, b: seq<int>, s: AddState, i: int)
    requires 0 <= i < |s.c| == |a| == |b|
    ensures Body(AddSteps(), AddStepOf(a, b))(i, s).c == s.c[i := a[i] + b[i]]
  {
    RunTwo(AddStepOf(a, b), s, Fetch(i), Put(i));
  }

  lemma {:induction false} AddedUpTo(a: seq<int>, b: seq<int>, s: AddState, n: int, k: int)
    requires 0 <= n <= |s.c| == |a| == |b|
    ensures var r := RunAll(Body(AddSteps(), AddStepOf(a, b)), s, Range(0, n)).c;
            |r| == |s.c| && (0 <= k < |r| ==> r[k] == if k < n then a[k] + b[k] else s.c[k])
  {
    if n > 0 {
      AddedUpTo(a, b, s, n - 1, k);
      var body, s' := Body(AddSteps(), AddStepOf(a, b)), RunAll(Body(AddSteps(), AddStepOf(a, b)), s, Range(0, n - 1));
      AddBody(a, b, s', n - 1);
      RunAllAppend(body, s, Range(0, n - 1), [n - 1]);
      RunOne(body, s', n - 1);
    }
  }

  lemma RunOne<M, S>(step: (M, S) -> S, s: S, x: M)
    ensures RunAll(step, s, [x]) == step(x, s)
  {
    assert [x][..0] == [];
  }

  /** Vector addition with any number of threads and any interleaving of their reads and writes. */
  lemma VectorAdd(a: seq<int>, b: seq<int>, s: AddState, chunks: seq<Chunk>, schedule: seq<int>)
    requires |a| == |b| == |s.c| && Tiles(chunks, 0, |s.c|) && IsSchedule(Expanded(AddSteps(), Jobs(chunks)), schedule)
    ensures var r := RunAll(AddStepOf(a, b), s, Trace(Expanded(AddSteps(), Jobs(chunks)), schedule)).c;
            |r| == |s.c| && forall k :: 0 <= k < |r| ==> r[k] == a[k] + b[k]
  {
    AddsIndependent(a, b);
    ParallelIsSequential(AddSteps(), AddStepOf(a, b), s, chunks, 0, |s.c|, schedule);
    AddedUpTo(a, b, s, |s.c|, 0);
    forall k | 0 <= k < |s.c| {
      AddedUpTo(a, b, s, |s.c|, k);
    }
  }

  // ---------------------------------------------------------------- matrix multiplication

  type Matrix = map<Cell, int>

  function Product(a: Matrix, b: Matrix, i: int, j: int, k: int): int {
    if (i, k) in a && (k, j) in b then a[(i, k)] * b[(k, j)] else 0
  }

  /** The sum over k < n of A[i][k] * B[k][j]. */
  function Dot(a: Matrix, b: Matrix, i: int, j: int, n: nat): int {
    if n == 0 then 0
    else Dot(a, b, i, j, n - 1)
         + if (i, n - 1) in a && (n - 1, j) in b then a[(i, n - 1)] * b[(n - 1, j)] else 0
  }

  /** C[i][j] += A[i][k] * B[k][j]: the cell is read into a register of the body, then written back with the product
      added. */
  datatype CellStep = Read(cell: Cell) | Write(cell: Cell, k: int)

  datatype CellState = CellState(c: Matrix, register: Matrix)

  function RunCell(a: Matrix, b: Matrix, x: CellStep, s: CellState): CellState {
    if x.cell !in s.c then s
    else
      match x
      case Read(cell) => s.(register := s.register[cell := s.c[cell]])
      case Write(cell, k) =>
        if cell in s.register then s.(c := s.c[cell := s.register[cell] + Product(a, b, cell.0, cell.1, k)]) else s
  }

  function CellStepOf(a: Matrix, b: Matrix): (CellStep, CellState) -> CellState {
    (x, s) => RunCell(a, b, x, s)
  }

  /** The loop over k < n in the body. */
  function LoopSteps(cell: Cell, n: nat): seq<CellStep> {
    if n == 0 then [] else LoopSteps(cell, n - 1) + [Read(cell), Write(cell, n - 1)]
  }

  function CellSteps(n: nat): Cell -> seq<CellStep> {
    cell => LoopSteps(cell, n)
  }

  lemma {:induction false} LoopStepCell(cell: Cell, n: nat, x: CellStep)
    requires x in LoopSteps(cell, n)
    ensures x.cell == cell
  {
    if x in LoopSteps(cell, n - 1) {
      LoopStepCell(cell, n - 1, x);
    }
  }

  /** What a step does to C and to the registers, seen at one cell: only its own cell changes. */
  lemma StepAt(a: Matrix, b: Matrix, x: CellStep, s: CellState)
    ensures var r := RunCell(a, b, x, s);
            && r.c.Keys == s.c.Keys && (forall o :: o in s.c && o != x.cell ==> r.c[o] == s.c[o])
            && (forall o :: o != x.cell ==> (o in r.register <==> o in s.register))
            && (forall o :: o != x.cell && o in s.register ==> r.register[o] == s.register[o])
  {
  }

  /** The outcome at the cell of a step depends on the state at that cell only. */
  lemma StepLocal(a: Matrix, b: Matrix, x: CellStep, s: CellState, s': CellState)
    requires s.c.Keys == s'.c.Keys && (x.cell in s.c ==> s.c[x.cell] == s'.c[x.cell])
    requires x.cell in s.register <==> x.cell in s'.register
    requires x.cell in s.register ==> s.register[x.cell] == s'.register[x.cell]
    ensures var r, r' := RunCell(a, b, x, s), RunCell(a, b, x, s');
            && (x.cell in s.c ==> r.c[x.cell] == r'.c[x.cell])
            && (x.cell in r.register <==> x.cell in r'.register)
            && (x.cell in r.register ==> r.register[x.cell] == r'.register[x.cell])
  {
  }

  lemma CellStepsCommute(a: Matrix, b: Matrix, x: CellStep, y: CellStep)
    requires x.cell != y.cell
    ensures CommuteAt(CellStepOf(a, b), x, y)
  {
    forall s: CellState
      ensures RunCell(a, b, x, RunCell(a, b, y, s)) == RunCell(a, b, y, RunCell(a, b, x, s))
    {
      var sx, sy := RunCell(a, b, x, s), RunCell(a, b, y, s);
      StepAt(a, b, x, s);
      StepAt(a, b, y, s);
      StepAt(a, b, x, sy);
      StepAt(a, b, y, sx);
      StepLocal(a, b, x, s, sy);
      StepLocal(a, b, y, s, sx);
      assert RunCell(a, b, x, sy).c == RunCell(a, b, y, sx).c;
      assert RunCell(a, b, x, sy).register == RunCell(a, b, y, sx).register;
    }
  }

  lemma CellsIndependent(a: Matrix, b: Matrix, n: nat)
    ensures Independent(CellSteps(n), CellStepOf(a, b))
  {
    forall i, j, x, y | i != j && x in CellSteps(n)(i) && y in CellSteps(n)(j)
      ensures CommuteAt(CellStepOf(a, b), x, y)
    {
      LoopStepCell(i, n, x);
      LoopStepCell(j, n, y);
      CellStepsCommute(a, b, x, y);
    }
  }

  lemma OneProduct(a: Matrix, b: Matrix, s: CellState, cell: Cell, k: int, other: Cell)
    requires other in s.c
    ensures var r := RunCell(a, b, Write(cell, k), RunCell(a, b, Read(cell), s));
            other in r.c && r.c[other] == s.c[other] + if other == cell then Product(a, b, cell.0, cell.1, k) else 0
  {
  }

  /** The whole body adds the product of a row and a column to its cell, and leaves the others alone. */
  lemma {:induction false} LoopRuns(a: Matrix, b: Matrix, s: CellState, cell: Cell, n: nat, other: Cell)
    requires other in s.c
    ensures var r := RunAll(CellStepOf(a, b), s, LoopSteps(cell, n));
            other in r.c && r.c[other] == s.c[other] + if other == cell then Dot(a, b, cell.0, cell.1, n) else 0
  {
    if n > 0 {
      LoopRuns(a, b, s, cell, n - 1, other);
      RunAllAppend(CellStepOf(a, b), s, LoopSteps(cell, n - 1), [Read(cell), Write(cell, n - 1)]);
      var s' := RunAll(CellStepOf(a, b), s, LoopSteps(cell, n - 1));
      RunTwo(CellStepOf(a, b), s', Read(cell), Write(cell, n - 1));
      OneProduct(a, b, s', cell, n - 1, other);
    }
  }

  function Occurrences(items: seq<Cell>, cell: Cell): nat {
    multiset(items)[cell]
  }

  lemma OccurrencesStep(items: seq<Cell>, cell: Cell)
    requires items != []
    ensures Occurrences(items, cell)
            == Occurrences(items[..|items| - 1], cell) + (if items[|items| - 1] == cell then 1 else 0)
  {
    assert items == items[..|items| - 1] + [items[|items| - 1]];
  }

  lemma {:induction false} MultipliedBy(a: Matrix, b: Matrix, n: nat, s: CellState, items: seq<Cell>, cell: Cell,
                                        product: int)
    requires cell in s.c && product == Dot(a, b, cell.0, cell.1, n)
    ensures var r := RunAll(Body(CellSteps(n), CellStepOf(a, b)), s, items);
            cell in r.c && r.c[cell] == s.c[cell] + Occurrences(items, cell) * product
  {
    if items != [] {
      var m := |items| - 1;
      MultipliedBy(a, b, n, s, items[..m], cell, product);
      LoopRuns(a, b, RunAll(Body(CellSteps(n), CellStepOf(a, b)), s, items[..m]), items[m], n, cell);
      OccurrencesStep(items, cell);
      MulStep(Occurrences(items[..m], cell), product);
    }
  }

  lemma OccurrencesAppend(items: seq<Cell>, x: Cell, cell: Cell)
    ensures Occurrences(items + [x], cell) == Occurrences(items, cell) + if x == cell then 1 else 0
  {
  }

  lemma {:induction false} RowOccurrences(i: int, low: int, high: int, cell: Cell)
    requires low <= high
    ensures Occurrences(Row(i, low, high), cell) == if cell.0 == i && low <= cell.1 < high then 1 else 0
    decreases high - low
  {
    if low < high {
      RowOccurrences(i, low, high - 1, cell);
      OccurrencesAppend(Row(i, low, high - 1), (i, high - 1), cell);
    }
  }

  lemma {:induction false} GridOccurrences(low1: int, high1: int, low2: int, high2: int, cell: Cell)
    requires low1 <= high1 && low2 <= high2
    ensures Occurrences(Grid(low1, high1, low2, high2), cell)
            == if low1 <= cell.0 < high1 && low2 <= cell.1 < high2 then 1 else 0
    decreases high1 - low1
  {
    if low1 < high1 {
      GridOccurrences(low1, high1 - 1, low2, high2, cell);
      RowOccurrences(high1 - 1, low2, high2, cell);
      var above, row := Grid(low1, high1 - 1, low2, high2), Row(high1 - 1, low2, high2);
      assert multiset(above + row) == multiset(above) + multiset(row);
    }
  }

  /** Matrix multiplication into any matrix C, with any number of threads and any interleaving of their reads and
      writes: every cell of the square gets its product once. */
  lemma MatrixMultiply(a: Matrix, b: Matrix, n: nat, s: CellState, chunks: seq<Chunk>, schedule: seq<int>, cell: Cell)
    requires Tiles(chunks, 0, n) && IsSchedule(Expanded(CellSteps(n), Jobs2(chunks, 0, n)), schedule) && cell in s.c
    ensures var r := RunAll(CellStepOf(a, b), s, Trace(Expanded(CellSteps(n), Jobs2(chunks, 0, n)), schedule));
            && cell in r.c
            && r.c[cell] == s.c[cell] + if 0 <= cell.0 < n && 0 <= cell.1 < n then Dot(a, b, cell.0, cell.1, n) else 0
  {
    CellsIndependent(a, b, n);
    ParallelIsSequential2(CellSteps(n), CellStepOf(a, b), s, chunks, 0, n, 0, n, schedule);
    MultipliedBy(a, b, n, s, Grid(0, n, 0, n), cell, Dot(a, b, cell.0, cell.1, n));
    GridOccurrences(0, n, 0, n, cell);
  }

  predicate FilledWith(m: Matrix, n: nat, x: int) {
    forall i, j :: 0 <= i < n && 0 <= j < n ==> (i, j) in m && m[(i, j)] == x
  }

  lemma {:induction false} DotOfOnes(a: Matrix, b: Matrix, i: int, j: int, n: nat, k: nat)
    requires FilledWith(a, n, 1) && FilledWith(b, n, 1) && 0 <= i < n && 0 <= j < n && k <= n
    ensures Dot(a, b, i, j, k) == k
    decreases k
  {
    if k > 0 {
      DotOfOnes(a, b, i, j, n, k - 1);
    }
  }

  /** The test at the end of the program: the product of two matrices of ones has the size in every cell. */
  lemma ProductOfOnes(a: Matrix, b: Matrix, n: nat, s: CellState, chunks: seq<Chunk>, schedule: seq<int>)
    requires Tiles(chunks, 0, n) && IsSchedule(Expanded(CellSteps(n), Jobs2(chunks, 0, n)), schedule)
    requires FilledWith(a, n, 1) && FilledWith(b, n, 1) && FilledWith(s.c, n, 0)
    ensures var r := RunAll(CellStepOf(a, b), s, Trace(Expanded(CellSteps(n), Jobs2(chunks, 0, n)), schedule)).c;
            FilledWith(r, n, n)
  {
    var r := RunAll(CellStepOf(a, b), s, Trace(Expanded(CellSteps(n), Jobs2(chunks, 0, n)), schedule)).c;
    forall i, j | 0 <= i < n && 0 <= j < n
      ensures (i, j) in r && r[(i, j)] == n
    {
      MatrixMultiply(a, b, n, s, chunks, schedule, (i, j));
      DotOfOnes(a, b, i, j, n, n);
    }
  }
}
