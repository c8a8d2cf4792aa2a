/**
 * The four-thread Game of Life of HW3/GameOfLife.h with the threads and the
 * barrier taken out.  The rows are split into four consecutive slices, each
 * thread updates only the rows of its slice, and a generation ends when all
 * four slices are done; here the four slice updates of a generation run one
 * after another.  The rule itself is the one of the sequential version.
 */
module ParallelGameOfLife {

  import opened GameOfLife

  /** The number of threads the board is split between. */
  const NumThreads: nat := 4

  function Min(a: int, b: int): int {
    if a <= b then a else b
  }

  /**
   * The first row of thread t's slice: the first n % 4 slices get one row
   * more than n / 4.  StartRow(n, 4) is n, the end of the last slice.
   */
  function StartRow(n: nat, t: nat): int {
    (n / NumThreads) * t + Min(t, n % NumThreads)
  }

  /** The table of first rows: entry t is StartRow(n, t), for t = 0 .. 4. */
  predicate SliceStarts(threadStartRow: seq<int>, n: nat) {
    |threadStartRow| == NumThreads + 1 &&
    forall t :: 0 <= t <= NumThreads ==> threadStartRow[t] == StartRow(n, t)
  }

  /**
   * thread_start_row: fill in (n / 4) * t for the four threads, add one to
   * every later entry once per leftover row, then append n.
   */
  method ThreadStartRows(boardSize: nat) returns (threadStartRow: seq<int>)
    ensures SliceStarts(threadStartRow, boardSize)
  {
    var rows := new int[NumThreads];
    var q := boardSize / NumThreads;
    var i := 0;
    while i < NumThreads
      invariant 0 <= i <= NumThreads
      invariant forall t :: 0 <= t < i ==> rows[t] == q * t
    {
      rows[i] := q * i;
      i := i + 1;
    }
    var remainder := boardSize % NumThreads;
    i := 0;
    while i < remainder
      invariant 0 <= i <= remainder
      invariant forall t :: 0 <= t < NumThreads ==> rows[t] == q * t + Min(t, i)
    {
      var j := i + 1;
      while j < NumThreads
        invariant i + 1 <= j <= NumThreads
        invariant forall t :: 0 <= t < NumThreads ==>
                    rows[t] == q * t + Min(t, i) + (if i + 1 <= t < j then 1 else 0)
      {
        rows[j] := rows[j] + 1;
        j := j + 1;
      }
      i := i + 1;
    }
    threadStartRow := rows[..] + [boardSize];
    assert boardSize == q * NumThreads + remainder;
  }

  /** The example of the source's comment: 10 rows split as {0, 3, 6, 8, 10}. */
  lemma TenRowsExample()
    ensures [StartRow(10, 0), StartRow(10, 1), StartRow(10, 2), StartRow(10, 3), StartRow(10, 4)]
            == [0, 3, 6, 8, 10]
  {
  }

  /**
   * The slices are consecutive, start at 0 and end at n; slice t has n / 4
   * rows, plus one exactly when t < n % 4.
   */
  lemma SliceSizes(n: nat, t: nat)
    requires t < NumThreads
    ensures StartRow(n, 0) == 0 && StartRow(n, NumThreads) == n
    ensures StartRow(n, t + 1) - StartRow(n, t) == n / NumThreads + (if t < n % NumThreads then 1 else 0)
    ensures StartRow(n, t) <= StartRow(n, t + 1)
  {
  }

  /** Later slices start no earlier. */
  lemma StartRowMonotone(n: nat, t: nat, u: nat)
    requires t <= u
    ensures StartRow(n, t) <= StartRow(n, u)
  {
    var q := n / NumThreads;
    assert q * t <= q * u;
  }

  /** Every row 0 .. n - 1 lies in some slice (and, by SliceUnique, in only one). */
  lemma SliceOfRow(n: nat, r: int)
    requires 0 <= r < n
    ensures exists t :: 0 <= t < NumThreads && StartRow(n, t) <= r < StartRow(n, t + 1)
  {
    var q, m := n / NumThreads, n % NumThreads;
    assert StartRow(n, 0) == 0;
    assert StartRow(n, 1) == q + Min(1, m);
    assert StartRow(n, 2) == 2 * q + Min(2, m);
    assert StartRow(n, 3) == 3 * q + Min(3, m);
    assert StartRow(n, 4) == n;
    if r < StartRow(n, 1) {
      assert StartRow(n, 0) <= r < StartRow(n, 1);
    } else if r < StartRow(n, 2) {
      assert StartRow(n, 1) <= r < StartRow(n, 2);
    } else if r < StartRow(n, 3) {
      assert StartRow(n, 2) <= r < StartRow(n, 3);
    } else {
      assert StartRow(n, 3) <= r < StartRow(n, 4);
    }
  }

  /** No row lies in two slices: two slices that both hold row r are the same. */
  lemma SliceUnique(n: nat, r: int, t: nat, u: nat)
    requires StartRow(n, t) <= r < StartRow(n, t + 1) && StartRow(n, u) <= r < StartRow(n, u + 1)
    ensures t == u
  {
    if t < u {
      StartRowMonotone(n, t + 1, u);
    } else if u < t {
      StartRowMonotone(n, u + 1, t);
    }
  }

  /**
   * One generation of one thread (the body of ParallelSimulateLife's
   * generation loop): update the rows of its own slice of dst from src.
   */
  method UpdateSlice(threadId: nat, threadStartRow: seq<int>, src: array2<int>, dst: array2<int>)
    requires threadId < NumThreads && SliceStarts(threadStartRow, src.Length0)
    requires src != dst
    requires src.Length0 == src.Length1 == dst.Length0 == dst.Length1
    modifies dst
    ensures forall r, c :: 0 <= r < dst.Length0 && 0 <= c < dst.Length1 ==>
              dst[r, c] == if threadStartRow[threadId] <= r < threadStartRow[threadId + 1] && old(dst[r, c]) != 2
                           then NextCell(src[r, c], Neighbors(Cells(src), r, c))
                           else old(dst[r, c])
  {
    SliceSizes(src.Length0, threadId);
    StartRowMonotone(src.Length0, 0, threadId);
    StartRowMonotone(src.Length0, threadId + 1, NumThreads);
    SliceSizes(src.Length0, 0);
    StepRows(src, dst, threadStartRow[threadId], threadStartRow[threadId + 1]);
  }

  /**
   * One generation as the four threads perform it between two barriers:
   * each updates its slice of dst from src.  Together they rewrite every
   * row exactly as one whole-board update does.
   */
  method Generation(threadStartRow: seq<int>, src: array2<int>, dst: array2<int>)
    requires SliceStarts(threadStartRow, src.Length0)
    requires src != dst
    requires src.Length0 == src.Length1 == dst.Length0 == dst.Length1
    modifies dst
    ensures forall r, c :: 0 <= r < dst.Length0 && 0 <= c < dst.Length1 ==>
              dst[r, c] == if old(dst[r, c]) != 2
                           then NextCell(src[r, c], Neighbors(Cells(src), r, c))
                           else old(dst[r, c])
  {
    var n := src.Length0;
    SliceSizes(n, 0);
    var threadId := 0;
    while threadId < NumThreads
      invariant 0 <= threadId <= NumThreads
      invariant forall r, c :: 0 <= r < n && 0 <= c < n ==>
                  dst[r, c] == if r < threadStartRow[threadId] && old(dst[r, c]) != 2
                               then NextCell(src[r, c], Neighbors(Cells(src), r, c))
                               else old(dst[r, c])
    {
      SliceSizes(n, threadId);
      UpdateSlice(threadId, threadStartRow, src, dst);
      threadId := threadId + 1;
    }
  }

  /**
   * Generation g of the four-thread loop: the threads read the buffer of g's
   * parity and write their slices of the other one.
   */
  method ParallelAdvance(threadStartRow: seq<int>, boardEvens: array2<int>, boardOdds: array2<int>,
                         ghost board: Board, g: nat)
    requires SliceStarts(threadStartRow, |board|)
    requires boardEvens != boardOdds && BuffersAt(boardEvens, boardOdds, board, g)
    modifies boardEvens, boardOdds
    ensures BuffersAt(boardEvens, boardOdds, board, g + 1)
  {
    ghost var next := Iterate(board, g + 1);
    assert next == Step(Iterate(board, g));
    if g % 2 == 0 {
      ghost var before := Cells(boardOdds);
      Generation(threadStartRow, boardEvens, boardOdds);
      FullStepIsStep(boardEvens, boardOdds, board, before);
      assert Cells(boardOdds) == next && (g + 1) % 2 == 1;
    } else {
      ghost var before := Cells(boardEvens);
      Generation(threadStartRow, boardOdds, boardEvens);
      FullStepIsStep(boardOdds, boardEvens, board, before);
      assert Cells(boardEvens) == next && (g + 1) % 2 == 0;
    }
  }

  /**
   * SimulateLife of the four-thread version: the same result as the
   * sequential version, k generations of the one-step rule, with the board
   * returned chosen by the parity of the number of generations.
   */
  method SimulateLife(board: Board, lifeCycles: int) returns (result: Board)
    requires Square(board)
    ensures result == Iterate(board, lifeCycles)
  {
    var boardEvens := CopyBoard(board);
    var boardOdds := CopyBoard(board);
    var threadStartRow := ThreadStartRows(|board|);
    var generation := 0;
    while generation < lifeCycles
      invariant 0 <= generation && (generation <= lifeCycles || generation == 0)
      invariant BuffersAt(boardEvens, boardOdds, board, generation)
    {
      ParallelAdvance(threadStartRow, boardEvens, boardOdds, board, generation);
      generation := generation + 1;
    }
    FinalBuffer(boardEvens, boardOdds, board, lifeCycles, generation);
    if lifeCycles % 2 == 0 {
      result := Cells(boardEvens);
    } else {
      result := Cells(boardOdds);
    }
  }
}
