/**
 * The sequential Game of Life of HW3-1/GameOfLife.h: an n x n board on a
 * torus, cells 0 (dead), 1 (alive) and 2 (immortal: never rewritten, and
 * counted as a live neighbour).  Two buffers alternate: generation g reads
 * one and writes the other, and the buffer returned is chosen by the parity
 * of the number of generations.
 *
 * The specification is the pure one-step function `Step` and its iterate;
 * `SimulateLife` is proved to compute `Iterate(board, lifeCycles)`.
 */
module GameOfLife {

  type Board = seq<seq<int>>

  /** Every row has as many cells as there are rows. */
  ghost predicate Square(b: Board) {
    forall r :: 0 <= r < |b| ==> |b[r]| == |b|
  }

  /** The row or column index reached from i by offset d on a torus of size n. */
  function Wrap(n: int, i: int, d: int): int
    requires n > 0
  {
    (n + i + d) % n
  }

  /** 1 when the cell counts as a live neighbour (it holds 1 or 2). */
  function Occupied(b: Board, r: int, c: int): int
    requires Square(b) && 0 <= r < |b| && 0 <= c < |b|
  {
    if b[r][c] == 1 || b[r][c] == 2 then 1 else 0
  }

  /** The live cells among the eight wrapped neighbours of (i, j). */
  function Neighbors(b: Board, i: int, j: int): (count: int)
    requires Square(b) && 0 <= i < |b| && 0 <= j < |b|
    ensures 0 <= count <= 8
  {
    var n := |b|;
    Occupied(b, Wrap(n, i, -1), Wrap(n, j, -1)) + Occupied(b, Wrap(n, i, -1), Wrap(n, j, 0)) +
    Occupied(b, Wrap(n, i, -1), Wrap(n, j, 1)) + Occupied(b, Wrap(n, i, 0), Wrap(n, j, -1)) +
    Occupied(b, Wrap(n, i, 0), Wrap(n, j, 1)) + Occupied(b, Wrap(n, i, 1), Wrap(n, j, -1)) +
    Occupied(b, Wrap(n, i, 1), Wrap(n, j, 0)) + Occupied(b, Wrap(n, i, 1), Wrap(n, j, 1))
  }

  /**
   * The survive/birth rule for a cell that is not immortal: alive with 2 or 3
   * neighbours survives, dead with exactly 3 is born, everything else is dead.
   */
  function NextCell(cell: int, neighbors: int): int {
    if (cell == 1 && (neighbors == 2 || neighbors == 3)) || (cell == 0 && neighbors == 3) then 1 else 0
  }

  /** The value of cell (i, j) one generation later. */
  function StepCell(b: Board, i: int, j: int): int
    requires Square(b) && 0 <= i < |b| && 0 <= j < |b|
  {
    if b[i][j] == 2 then 2 else NextCell(b[i][j], Neighbors(b, i, j))
  }

  /** One generation of the whole board. */
  function Step(b: Board): (r: Board)
    requires Square(b)
    ensures |r| == |b| && Square(r)
    ensures forall i, j :: 0 <= i < |b| && 0 <= j < |b| ==> r[i][j] == StepCell(b, i, j)
  {
    seq(|b|, i requires 0 <= i < |b| => seq(|b|, j requires 0 <= j < |b| => StepCell(b, i, j)))
  }

  /** k generations; no generation at all when k <= 0. */
  function Iterate(b: Board, k: int): (r: Board)
    requires Square(b)
    ensures |r| == |b| && Square(r)
    decreases k
  {
    if k <= 0 then b else Step(Iterate(b, k - 1))
  }

  /** A step keeps exactly the immortal cells at 2 and writes 0 or 1 elsewhere. */
  lemma StepCellValues(b: Board, i: int, j: int)
    requires Square(b) && 0 <= i < |b| && 0 <= j < |b|
    ensures StepCell(b, i, j) == 2 <==> b[i][j] == 2
    ensures b[i][j] != 2 ==> StepCell(b, i, j) == 0 || StepCell(b, i, j) == 1
  {
  }

  /** Cells holding 2 are still 2 after any number of generations, and no other cell becomes 2. */
  lemma {:induction false} IterateKeepsImmortals(b: Board, k: int, i: int, j: int)
    requires Square(b) && 0 <= i < |b| && 0 <= j < |b|
    ensures Iterate(b, k)[i][j] == 2 <==> b[i][j] == 2
    decreases k
  {
    if k > 0 {
      IterateKeepsImmortals(b, k - 1, i, j);
      StepCellValues(Iterate(b, k - 1), i, j);
    }
  }

  /** After at least one generation every cell holds 0, 1 or 2. */
  lemma IterateValues(b: Board, k: int, i: int, j: int)
    requires Square(b) && 0 <= i < |b| && 0 <= j < |b| && k >= 1
    ensures Iterate(b, k)[i][j] in {0, 1, 2}
  {
    StepCellValues(Iterate(b, k - 1), i, j);
  }

  /** The board held by a two-dimensional buffer. */
  function Cells(a: array2<int>): (b: Board)
    reads a
    ensures |b| == a.Length0
    ensures forall i :: 0 <= i < a.Length0 ==> |b[i]| == a.Length1
    ensures forall i, j :: 0 <= i < a.Length0 && 0 <= j < a.Length1 ==> b[i][j] == a[i, j]
  {
    seq(a.Length0, i requires 0 <= i < a.Length0 reads a =>
      seq(a.Length1, j requires 0 <= j < a.Length1 reads a => a[i, j]))
  }

  /** Two boards with the same shape and the same cells are equal. */
  lemma BoardsEqual(a: Board, b: Board)
    requires |a| == |b| && Square(b)
    requires forall i :: 0 <= i < |a| ==> |a[i]| == |a|
    requires forall i, j :: 0 <= i < |b| && 0 <= j < |b| ==> a[i][j] == b[i][j]
    ensures a == b
  {
    forall i | 0 <= i < |a|
      ensures a[i] == b[i]
    {
    }
  }

  /** The part of the neighbour count over offsets (dx, -1) .. (dx, y - 1), skipping (0, 0). */
  ghost function RowPart(b: Board, i: int, j: int, dx: int, y: int): int
    requires Square(b) && 0 <= i < |b| && 0 <= j < |b| && -1 <= y <= 2
    decreases y
  {
    if y == -1 then 0
    else RowPart(b, i, j, dx, y - 1) +
         (if dx == 0 && y - 1 == 0 then 0 else Occupied(b, Wrap(|b|, i, dx), Wrap(|b|, j, y - 1)))
  }

  /** The part of the neighbour count over the offset rows -1 .. x - 1. */
  ghost function BlockPart(b: Board, i: int, j: int, x: int): int
    requires Square(b) && 0 <= i < |b| && 0 <= j < |b| && -1 <= x <= 2
    decreases x
  {
    if x == -1 then 0 else BlockPart(b, i, j, x - 1) + RowPart(b, i, j, x - 1, 2)
  }

  /**
   * The neighbour count of the source: reset a counter, visit the 3 x 3
   * block of wrapped offsets except the cell itself, count the 1s and 2s.
   */
  method CountNeighbors(src: array2<int>, i: int, j: int) returns (neighbors: int)
    requires src.Length0 == src.Length1 && 0 <= i < src.Length0 && 0 <= j < src.Length0
    ensures neighbors == Neighbors(Cells(src), i, j)
  {
    var n := src.Length0;
    ghost var b := Cells(src);
    neighbors := 0;
    var x := -1;
    while x < 2
      invariant -1 <= x <= 2
      invariant neighbors == BlockPart(b, i, j, x)
    {
      var y := -1;
      while y < 2
        invariant -1 <= y <= 2
        invariant neighbors == BlockPart(b, i, j, x) + RowPart(b, i, j, x, y)
      {
        if !(x == 0 && y == 0) {
          var cell := src[(n + i + x) % n, (n + j + y) % n];
          if cell == 1 || cell == 2 {
            neighbors := neighbors + 1;
          }
        }
        y := y + 1;
      }
      x := x + 1;
    }
  }

  /**
   * The generation update of rows lo .. hi - 1: every cell of dst in those
   * rows that does not hold 2 is rewritten from src by the rule; dst holds
   * no other changes and src is only read.
   */
  method StepRows(src: array2<int>, dst: array2<int>, lo: int, hi: int)
    requires src != dst
    requires src.Length0 == src.Length1 == dst.Length0 == dst.Length1
    requires 0 <= lo <= hi <= src.Length0
    modifies dst
    ensures forall r, c :: 0 <= r < dst.Length0 && 0 <= c < dst.Length1 ==>
              dst[r, c] == if lo <= r < hi && old(dst[r, c]) != 2
                           then NextCell(src[r, c], Neighbors(Cells(src), r, c))
                           else old(dst[r, c])
  {
    var n := src.Length0;
    var i := lo;
    while i < hi
      invariant lo <= i <= hi
      invariant forall r, c :: 0 <= r < n && 0 <= c < n ==>
                  dst[r, c] == if lo <= r < i && old(dst[r, c]) != 2
                               then NextCell(src[r, c], Neighbors(Cells(src), r, c))
                               else old(dst[r, c])
    {
      var j := 0;
      while j < n
        invariant 0 <= j <= n
        invariant forall r, c :: 0 <= r < n && 0 <= c < n ==>
                    dst[r, c] == if (lo <= r < i || (r == i && c < j)) && old(dst[r, c]) != 2
                                 then NextCell(src[r, c], Neighbors(Cells(src), r, c))
                                 else old(dst[r, c])
      {
        if dst[i, j] != 2 {
          var neighbors := CountNeighbors(src, i, j);
          if (src[i, j] == 1 && (neighbors == 2 || neighbors == 3)) || (src[i, j] == 0 && neighbors == 3) {
            dst[i, j] := 1;
          } else {
            dst[i, j] := 0;
          }
        }
        j := j + 1;
      }
      i := i + 1;
    }
  }

  /** The buffer holds 2 exactly where the initial board does. */
  ghost predicate SameImmortals(a: array2<int>, board: Board)
    reads a
    requires Square(board) && a.Length0 == a.Length1 == |board|
  {
    forall r, c :: 0 <= r < |board| && 0 <= c < |board| ==> (a[r, c] == 2 <==> board[r][c] == 2)
  }

  /**
   * One whole-board generation from src into dst, when dst has its 2s where
   * src has them, leaves dst holding Step of src's board.
   */
  lemma FullStepIsStep(src: array2<int>, dst: array2<int>, board: Board, before: Board)
    requires Square(board) && src.Length0 == src.Length1 == dst.Length0 == dst.Length1 == |board|
    requires |before| == |board| && Square(before)
    requires SameImmortals(src, board)
    requires forall r, c :: 0 <= r < |board| && 0 <= c < |board| ==> (before[r][c] == 2 <==> board[r][c] == 2)
    requires forall r, c :: 0 <= r < |board| && 0 <= c < |board| ==>
               dst[r, c] == if before[r][c] != 2 then NextCell(src[r, c], Neighbors(Cells(src), r, c)) else before[r][c]
    ensures Cells(dst) == Step(Cells(src))
    ensures SameImmortals(dst, board)
  {
    var b := Cells(src);
    forall r, c | 0 <= r < |board| && 0 <= c < |board|
      ensures Cells(dst)[r][c] == Step(b)[r][c]
      ensures dst[r, c] == 2 <==> board[r][c] == 2
    {
      StepCellValues(b, r, c);
    }
    BoardsEqual(Cells(dst), Step(b));
  }

  /**
   * One generation of SimulateLife's loop body: every row of dst rewritten
   * from src, so dst holds the next generation of src's board.
   */
  method StepBoard(src: array2<int>, dst: array2<int>, ghost board: Board)
    requires Square(board) && src != dst
    requires src.Length0 == src.Length1 == dst.Length0 == dst.Length1 == |board|
    requires SameImmortals(src, board) && SameImmortals(dst, board)
    modifies dst
    ensures Cells(dst) == Step(Cells(src))
    ensures SameImmortals(dst, board)
  {
    ghost var before := Cells(dst);
    StepRows(src, dst, 0, src.Length0);
    FullStepIsStep(src, dst, board, before);
  }

  /** A fresh size x size buffer holding the board. */
  method CopyBoard(board: Board) returns (a: array2<int>)
    requires Square(board)
    ensures fresh(a) && a.Length0 == a.Length1 == |board|
    ensures Cells(a) == board && SameImmortals(a, board)
  {
    var boardSize := |board|;
    a := new int[boardSize, boardSize]((i, j) => if 0 <= i < |board| && 0 <= j < |board[i]| then board[i][j] else 0);
    BoardsEqual(Cells(a), board);
  }

  /**
   * The two buffers after g generations: both keep the initial board's 2s,
   * and the buffer of g's parity holds generation g.
   */
  ghost predicate BuffersAt(boardEvens: array2<int>, boardOdds: array2<int>, board: Board, g: int)
    reads boardEvens, boardOdds
  {
    Square(board) &&
    boardEvens.Length0 == boardEvens.Length1 == boardOdds.Length0 == boardOdds.Length1 == |board| &&
    SameImmortals(boardEvens, board) && SameImmortals(boardOdds, board) &&
    (g % 2 == 0 ==> Cells(boardEvens) == Iterate(board, g)) &&
    (g % 2 == 1 ==> Cells(boardOdds) == Iterate(board, g)) &&
    (g == 0 ==> Cells(boardOdds) == board)
  }

  /**
   * After the loop has run max(k, 0) generations, the buffer of k's parity
   * holds generation k; for k <= 0 both buffers still hold the board.
   */
  lemma FinalBuffer(boardEvens: array2<int>, boardOdds: array2<int>, board: Board, k: int, g: int)
    requires BuffersAt(boardEvens, boardOdds, board, g)
    requires g == if k <= 0 then 0 else k
    ensures k % 2 == 0 ==> Cells(boardEvens) == Iterate(board, k)
    ensures k % 2 != 0 ==> Cells(boardOdds) == Iterate(board, k)
  {
  }

  /**
   * Generation g of SimulateLife's loop: the buffer of g's parity is read and
   * the other one written.
   */
  method Advance(boardEvens: array2<int>, boardOdds: array2<int>, ghost board: Board, g: nat)
    requires boardEvens != boardOdds && BuffersAt(boardEvens, boardOdds, board, g)
    modifies boardEvens, boardOdds
    ensures BuffersAt(boardEvens, boardOdds, board, g + 1)
  {
    ghost var next := Iterate(board, g + 1);
    assert next == Step(Iterate(board, g));
    if g % 2 == 0 {
      StepBoard(boardEvens, boardOdds, board);
      assert Cells(boardOdds) == next && (g + 1) % 2 == 1;
    } else {
      StepBoard(boardOdds, boardEvens, board);
      assert Cells(boardEvens) == next && (g + 1) % 2 == 0;
    }
  }

  /**
   * SimulateLife: copy the board into both buffers, then for each generation
   * read the buffer of its parity and write the other; return board_evens
   * when the number of generations is even, board_odds otherwise.
   */
  method SimulateLife(board: Board, lifeCycles: int) returns (result: Board)
    requires Square(board)
    ensures result == Iterate(board, lifeCycles)
  {
    var boardEvens := CopyBoard(board);
    var boardOdds := CopyBoard(board);
    var generation := 0;
    while generation < lifeCycles
      invariant 0 <= generation && (generation <= lifeCycles || generation == 0)
      invariant BuffersAt(boardEvens, boardOdds, board, generation)
    {
      Advance(boardEvens, boardOdds, board, generation);
      generation := generation + 1;
    }
    FinalBuffer(boardEvens, boardOdds, board, lifeCycles, generation);
    if lifeCycles % 2 == 0 {
      result := Cells(boardEvens);
    } else {
      result := Cells(boardOdds);
    }
  }
}
