/**
 * The longest-common-subsequence engine of HW4/phylogeny_tree_parallel.cc:
 * the greedy subsequence check `Is_subsequence`, `max3`, the dynamic
 * programming table of `compute_LCS`, and its backtracking reconstruction
 * `rec_string`.  A subsequence is defined independently by an embedding (a
 * strictly increasing choice of positions), and the LCS length by the
 * textbook recurrence; `ComputeLcs` is proved to return a common
 * subsequence of that length, which no common subsequence exceeds.
 */
module Lcs {

  /**
   * idx embeds z into y: positions of y, strictly increasing, holding the
   * letters of z in order.
   */
  ghost predicate Embeds(idx: seq<int>, z: string, y: string) {
    |idx| == |z| &&
    (forall k :: 0 <= k < |z| ==> 0 <= idx[k] < |y| && y[idx[k]] == z[k]) &&
    (forall k, l :: 0 <= k < l < |z| ==> idx[k] < idx[l])
  }

  /** z is a subsequence of y. */
  ghost predicate Subsequence(z: string, y: string) {
    exists idx :: Embeds(idx, z, y)
  }

  /** Every position moved by d. */
  function Shift(idx: seq<int>, d: int): (r: seq<int>)
    ensures |r| == |idx| && forall k :: 0 <= k < |idx| ==> r[k] == idx[k] + d
  {
    seq(|idx|, k requires 0 <= k < |idx| => idx[k] + d)
  }

  /** An embedding into y is one into c + y once moved one place right. */
  lemma EmbedsUnderPrefix(idx: seq<int>, z: string, y: string, c: char)
    requires Embeds(idx, z, y)
    ensures Embeds(Shift(idx, 1), z, [c] + y)
  {
  }

  /** An embedding into c + y that avoids position 0 is one into y once moved left. */
  lemma EmbedsWithoutPrefix(idx: seq<int>, z: string, y: string, c: char)
    requires Embeds(idx, z, [c] + y)
    requires forall k :: 0 <= k < |idx| ==> idx[k] >= 1
    ensures Embeds(Shift(idx, -1), z, y)
  {
  }

  /** Matching heads: c + z embeds into c + y when z embeds into y. */
  lemma EmbedsHead(idx: seq<int>, z: string, y: string, c: char)
    requires Embeds(idx, z, y)
    ensures Embeds([0] + Shift(idx, 1), [c] + z, [c] + y)
  {
  }

  /** A subsequence of y is one of y + c. */
  lemma EmbedsUnderSuffix(idx: seq<int>, z: string, y: string, c: char)
    requires Embeds(idx, z, y)
    ensures Embeds(idx, z, y + [c])
  {
  }

  /** Matching tails: z + c embeds into y + c when z embeds into y. */
  lemma EmbedsTail(idx: seq<int>, z: string, y: string, c: char)
    requires Embeds(idx, z, y)
    ensures Embeds(idx + [|y|], z + [c], y + [c])
  {
  }

  /** A subsequence of a subsequence of c is a subsequence of c. */
  lemma SubsequenceTransitive(a: string, b: string, c: string)
    requires Subsequence(a, b) && Subsequence(b, c)
    ensures Subsequence(a, c)
  {
    var ia :| Embeds(ia, a, b);
    var ib :| Embeds(ib, b, c);
    var idx := seq(|a|, k requires 0 <= k < |a| => ib[ia[k]]);
    assert Embeds(idx, a, c);
  }

  /**
   * Is_subsequence(i, j, x, y): whether x[i..] is a subsequence of y[j..],
   * matching each letter of x greedily at its first occurrence in y.
   */
  function IsSubsequence(i: nat, j: nat, x: string, y: string): bool
    decreases |y| - j
  {
    if i >= |x| then true
    else if j >= |y| then false
    else if x[i] == y[j] then IsSubsequence(i + 1, j + 1, x, y)
    else IsSubsequence(i, j + 1, x, y)
  }

  /** The greedy check decides the subsequence relation. */
  lemma {:induction false} IsSubsequenceCorrect(i: nat, j: nat, x: string, y: string)
    requires i <= |x| && j <= |y|
    ensures IsSubsequence(i, j, x, y) <==> Subsequence(x[i..], y[j..])
    decreases |y| - j
  {
    if i == |x| {
      assert Embeds([], x[i..], y[j..]);
    } else if j == |y| {
      forall idx | |idx| == |x[i..]|
        ensures !Embeds(idx, x[i..], y[j..])
      {
        assert !(0 <= idx[0] < |y[j..]|);
      }
    } else {
      var c := y[j];
      assert y[j..] == [c] + y[j + 1..];
      if x[i] == y[j] {
        IsSubsequenceCorrect(i + 1, j + 1, x, y);
        assert x[i..] == [c] + x[i + 1..];
        if Subsequence(x[i + 1..], y[j + 1..]) {
          var idx :| Embeds(idx, x[i + 1..], y[j + 1..]);
          EmbedsHead(idx, x[i + 1..], y[j + 1..], c);
        }
        if Subsequence(x[i..], y[j..]) {
          var idx :| Embeds(idx, x[i..], y[j..]);
          var rest := idx[1..];
          assert Embeds(rest, x[i + 1..], [c] + y[j + 1..]);
          EmbedsWithoutPrefix(rest, x[i + 1..], y[j + 1..], c);
        }
      } else {
        IsSubsequenceCorrect(i, j + 1, x, y);
        if Subsequence(x[i..], y[j + 1..]) {
          var idx :| Embeds(idx, x[i..], y[j + 1..]);
          EmbedsUnderPrefix(idx, x[i..], y[j + 1..], c);
        }
        if Subsequence(x[i..], y[j..]) {
          var idx :| Embeds(idx, x[i..], y[j..]);
          assert idx[0] != 0;
          EmbedsWithoutPrefix(idx, x[i..], y[j + 1..], c);
        }
      }
    }
  }

  function Max(a: int, b: int): int {
    if a >= b then a else b
  }

  /** max3: the largest of three values. */
  function Max3(x: int, y: int, z: int): (r: int)
    ensures r >= x && r >= y && r >= z
    ensures r == x || r == y || r == z
  {
    Max(Max(x, y), z)
  }

  /**
   * The LCS length of the prefixes x[..i] and y[..j] by the textbook
   * recurrence; it never exceeds either prefix length.
   */
  ghost function LcsLen(x: string, y: string, i: nat, j: nat): (r: nat)
    requires i <= |x| && j <= |y|
    ensures r <= i && r <= j
    decreases i + j
  {
    if i == 0 || j == 0 then 0
    else if x[i - 1] == y[j - 1] then LcsLen(x, y, i - 1, j - 1) + 1
    else Max(LcsLen(x, y, i - 1, j), LcsLen(x, y, i, j - 1))
  }

  /**
   * The table grows by at most one per row and per column, and never
   * shrinks: it is nondecreasing in i and in j.
   */
  lemma {:induction false} LcsLenSteps(x: string, y: string, i: nat, j: nat)
    requires i <= |x| && j <= |y|
    ensures i >= 1 ==> LcsLen(x, y, i - 1, j) <= LcsLen(x, y, i, j) <= LcsLen(x, y, i - 1, j) + 1
    ensures j >= 1 ==> LcsLen(x, y, i, j - 1) <= LcsLen(x, y, i, j) <= LcsLen(x, y, i, j - 1) + 1
    decreases i + j
  {
    if i >= 1 && j >= 1 {
      LcsLenSteps(x, y, i - 1, j);
      LcsLenSteps(x, y, i, j - 1);
      if i >= 2 {
        LcsLenSteps(x, y, i - 1, j - 1);
      }
    }
  }

  /** On a match the diagonal move is always at least as good as the others. */
  lemma DiagonalWins(x: string, y: string, i: nat, j: nat)
    requires 1 <= i <= |x| && 1 <= j <= |y| && x[i - 1] == y[j - 1]
    ensures LcsLen(x, y, i - 1, j - 1) + 1 >= LcsLen(x, y, i - 1, j)
    ensures LcsLen(x, y, i - 1, j - 1) + 1 >= LcsLen(x, y, i, j - 1)
  {
    LcsLenSteps(x, y, i - 1, j);
    LcsLenSteps(x, y, i, j - 1);
  }

  /** The table holds LcsLen in every cell. */
  ghost predicate ValidTable(x: string, y: string, table: array2<int>)
    reads table
  {
    table.Length0 == |x| + 1 && table.Length1 == |y| + 1 &&
    forall i, j :: 0 <= i <= |x| && 0 <= j <= |y| ==> table[i, j] == LcsLen(x, y, i, j)
  }

  /**
   * rec_string: walk back from cell (m, n).  On a match take the diagonal
   * and emit the letter when it is at least as good as moving up or left;
   * otherwise move up when the upper cell is at least the left one, else
   * move left.
   */
  function RecString(x1: string, y1: string, table: array2<int>, m: nat, n: nat): string
    reads table
    requires m <= |x1| && n <= |y1| && m < table.Length0 && n < table.Length1
    decreases m + n
  {
    if n == 0 then ""
    else if m == 0 then ""
    else
      var a := table[m - 1, n - 1];
      var b := table[m - 1, n];
      var c := table[m, n - 1];
      if x1[m - 1] == y1[n - 1] then
        if a + 1 >= b && a + 1 >= c then RecString(x1, y1, table, m - 1, n - 1) + [x1[m - 1]]
        else if b >= c then RecString(x1, y1, table, m - 1, n)
        else RecString(x1, y1, table, m, n - 1)
      else if b >= c then RecString(x1, y1, table, m - 1, n)
      else RecString(x1, y1, table, m, n - 1)
  }

  /**
   * The traceback of rec_string read off LcsLen instead of a table: on a
   * match emit the letter and move diagonally, otherwise move up when the
   * upper value is at least the left one, else move left.
   */
  ghost function LcsTrace(x: string, y: string, m: nat, n: nat): string
    requires m <= |x| && n <= |y|
    decreases m + n
  {
    if n == 0 || m == 0 then ""
    else if x[m - 1] == y[n - 1] then LcsTrace(x, y, m - 1, n - 1) + [x[m - 1]]
    else if LcsLen(x, y, m - 1, n) >= LcsLen(x, y, m, n - 1) then LcsTrace(x, y, m - 1, n)
    else LcsTrace(x, y, m, n - 1)
  }

  /** The longest common subsequence compute_LCS returns for x and y. */
  ghost function LcsString(x: string, y: string): string {
    LcsTrace(x, y, |x|, |y|)
  }

  /**
   * On a table holding LcsLen, rec_string is the traceback: there the guard
   * of its match case always holds, so it always takes the diagonal.
   */
  lemma {:induction false} RecStringFollowsTable(x1: string, y1: string, table: array2<int>, m: nat, n: nat)
    requires ValidTable(x1, y1, table) && m <= |x1| && n <= |y1|
    ensures RecString(x1, y1, table, m, n) == LcsTrace(x1, y1, m, n)
    decreases m + n
  {
    if n > 0 && m > 0 {
      if x1[m - 1] == y1[n - 1] {
        DiagonalWins(x1, y1, m, n);
        RecStringFollowsTable(x1, y1, table, m - 1, n - 1);
      } else if table[m - 1, n] >= table[m, n - 1] {
        RecStringFollowsTable(x1, y1, table, m - 1, n);
      } else {
        RecStringFollowsTable(x1, y1, table, m, n - 1);
      }
    }
  }

  /**
   * The traceback is a common subsequence of x[..m] and y[..n]: it only
   * emits a letter where the two agree.
   */
  lemma {:induction false} LcsTraceIsCommon(x: string, y: string, m: nat, n: nat)
    requires m <= |x| && n <= |y|
    ensures Subsequence(LcsTrace(x, y, m, n), x[..m])
    ensures Subsequence(LcsTrace(x, y, m, n), y[..n])
    decreases m + n
  {
    var z := LcsTrace(x, y, m, n);
    if n == 0 || m == 0 {
      assert Embeds([], z, x[..m]);
      assert Embeds([], z, y[..n]);
    } else {
      assert x[..m] == x[..m - 1] + [x[m - 1]];
      assert y[..n] == y[..n - 1] + [y[n - 1]];
      if x[m - 1] == y[n - 1] {
        var z' := LcsTrace(x, y, m - 1, n - 1);
        LcsTraceIsCommon(x, y, m - 1, n - 1);
        var ix :| Embeds(ix, z', x[..m - 1]);
        var iy :| Embeds(iy, z', y[..n - 1]);
        EmbedsTail(ix, z', x[..m - 1], x[m - 1]);
        EmbedsTail(iy, z', y[..n - 1], y[n - 1]);
      } else if LcsLen(x, y, m - 1, n) >= LcsLen(x, y, m, n - 1) {
        LcsTraceIsCommon(x, y, m - 1, n);
        var ix :| Embeds(ix, z, x[..m - 1]);
        EmbedsUnderSuffix(ix, z, x[..m - 1], x[m - 1]);
      } else {
        LcsTraceIsCommon(x, y, m, n - 1);
        var iy :| Embeds(iy, z, y[..n - 1]);
        EmbedsUnderSuffix(iy, z, y[..n - 1], y[n - 1]);
      }
    }
  }

  /** The traceback is as long as the recurrence says. */
  lemma {:induction false} LcsTraceLength(x: string, y: string, m: nat, n: nat)
    requires m <= |x| && n <= |y|
    ensures |LcsTrace(x, y, m, n)| == LcsLen(x, y, m, n)
    decreases m + n
  {
    if n > 0 && m > 0 {
      if x[m - 1] == y[n - 1] {
        LcsTraceLength(x, y, m - 1, n - 1);
      } else if LcsLen(x, y, m - 1, n) >= LcsLen(x, y, m, n - 1) {
        LcsTraceLength(x, y, m - 1, n);
      } else {
        LcsTraceLength(x, y, m, n - 1);
      }
    }
  }
  /** No common subsequence of x[..i] and y[..j] is longer than LcsLen(x, y, i, j). */
  lemma {:induction false} LcsLenIsUpperBound(x: string, y: string, i: nat, j: nat, w: string)
    requires i <= |x| && j <= |y|
    requires Subsequence(w, x[..i]) && Subsequence(w, y[..j])
    ensures |w| <= LcsLen(x, y, i, j)
    decreases i + j
  {
    if |w| > 0 {
      var ix :| Embeds(ix, w, x[..i]);
      var iy :| Embeds(iy, w, y[..j]);
      var last := |w| - 1;
      var p, q := ix[last], iy[last];
      assert i >= 1 && j >= 1;
      if p < i - 1 {
        assert Subsequence(w, x[..i - 1]) by {
          assert x[..i - 1] == x[..i][..i - 1];
          assert Embeds(ix, w, x[..i - 1]);
        }
        LcsLenIsUpperBound(x, y, i - 1, j, w);
        LcsLenSteps(x, y, i, j);
      } else if q < j - 1 {
        assert Subsequence(w, y[..j - 1]) by {
          assert y[..j - 1] == y[..j][..j - 1];
          assert Embeds(iy, w, y[..j - 1]);
        }
        LcsLenIsUpperBound(x, y, i, j - 1, w);
        LcsLenSteps(x, y, i, j);
      } else {
        var w' := w[..last];
        assert x[i - 1] == y[j - 1] by {
          assert x[..i][p] == w[last] == y[..j][q];
        }
        assert Subsequence(w', x[..i - 1]) by {
          assert x[..i - 1] == x[..i][..i - 1];
          assert Embeds(ix[..last], w', x[..i - 1]);
        }
        assert Subsequence(w', y[..j - 1]) by {
          assert y[..j - 1] == y[..j][..j - 1];
          assert Embeds(iy[..last], w', y[..j - 1]);
        }
        LcsLenIsUpperBound(x, y, i - 1, j - 1, w');
      }
    }
  }

  /**
   * The value compute_LCS writes into cell (i, j), from the diagonal, upper
   * and left cells, is LcsLen(x, y, i, j).
   */
  lemma CellValue(x: string, y: string, i: nat, j: nat, diag: int, up: int, left: int)
    requires 1 <= i <= |x| && 1 <= j <= |y|
    requires diag == LcsLen(x, y, i - 1, j - 1) && up == LcsLen(x, y, i - 1, j) && left == LcsLen(x, y, i, j - 1)
    ensures x[i - 1] == y[j - 1] ==> Max3(diag + 1, up, left) == LcsLen(x, y, i, j)
    ensures x[i - 1] != y[j - 1] ==> Max(up, left) == LcsLen(x, y, i, j)
  {
    if x[i - 1] == y[j - 1] {
      DiagonalWins(x, y, i, j);
    }
  }

  /**
   * One pass of compute_LCS's inner loop: fill row i from column 1 on,
   * taking the best of the diagonal plus one (on a match), the cell above
   * and the cell to the left.  Given the rows above, row i ends up holding
   * LcsLen; no other row changes.
   */
  method FillRow(x1: string, y1: string, table: array2<int>, i: nat)
    requires table.Length0 == |x1| + 1 && table.Length1 == |y1| + 1
    requires 1 <= i <= |x1| && table[i, 0] == 0
    requires forall r, c :: 0 <= r < i && 0 <= c <= |y1| ==> table[r, c] == LcsLen(x1, y1, r, c)
    modifies table
    ensures forall c :: 0 <= c <= |y1| ==> table[i, c] == LcsLen(x1, y1, i, c)
    ensures forall r, c :: 0 <= r <= |x1| && 0 <= c <= |y1| && r != i ==> table[r, c] == old(table[r, c])
  {
    var n := |y1|;
    var j := 1;
    while j <= n
      invariant 1 <= j <= n + 1
      invariant forall c {:trigger table[i, c]} :: 0 <= c < j ==> table[i, c] == LcsLen(x1, y1, i, c)
      invariant forall r, c :: 0 <= r <= |x1| && 0 <= c <= n && r != i ==> table[r, c] == old(table[r, c])
    {
      CellValue(x1, y1, i, j, table[i - 1, j - 1], table[i - 1, j], table[i, j - 1]);
      ghost var cell := LcsLen(x1, y1, i, j);
      if x1[i - 1] == y1[j - 1] {
        table[i, j] := Max3(table[i - 1, j - 1] + 1, table[i - 1, j], table[i, j - 1]);
      } else {
        table[i, j] := Max(table[i - 1, j], table[i, j - 1]);
      }
      assert table[i, j] == cell;
      j := j + 1;
    }
  }

  /**
   * compute_LCS: fill the (|x1|+1) x (|y1|+1) table row by row, then
   * reconstruct.  The result has the length in the last cell, is a
   * subsequence of both inputs (the two asserts of the source), and no
   * common subsequence is longer.
   */
  method ComputeLcs(x1: string, y1: string) returns (z: string)
    ensures z == LcsString(x1, y1)
    ensures |z| == LcsLen(x1, y1, |x1|, |y1|)
    ensures IsSubsequence(0, 0, z, x1) && IsSubsequence(0, 0, z, y1)
    ensures Subsequence(z, x1) && Subsequence(z, y1)
    ensures forall w :: Subsequence(w, x1) && Subsequence(w, y1) ==> |w| <= |z|
  {
    var m, n := |x1|, |y1|;
    var table := new int[m + 1, n + 1]((i, j) => 0);
    table[0, 0] := 0;
    for i := 0 to m + 1
      invariant forall r, c :: 0 <= r <= m && 0 <= c <= n ==> table[r, c] == 0
    {
      table[i, 0] := 0;
    }
    for j := 0 to n + 1
      invariant forall r, c :: 0 <= r <= m && 0 <= c <= n ==> table[r, c] == 0
    {
      table[0, j] := 0;
    }
    var i := 1;
    while i <= m
      invariant 1 <= i <= m + 1
      invariant forall r, c :: 0 <= r < i && 0 <= c <= n ==> table[r, c] == LcsLen(x1, y1, r, c)
      invariant forall r :: i <= r <= m ==> table[r, 0] == 0
    {
      FillRow(x1, y1, table, i);
      i := i + 1;
    }
    z := RecString(x1, y1, table, m, n);
    RecStringFollowsTable(x1, y1, table, m, n);
    LcsTraceLength(x1, y1, m, n);
    LcsTraceIsCommon(x1, y1, m, n);
    assert x1[..m] == x1 && y1[..n] == y1;
    IsSubsequenceCorrect(0, 0, z, x1);
    IsSubsequenceCorrect(0, 0, z, y1);
    forall w | Subsequence(w, x1) && Subsequence(w, y1)
      ensures |w| <= |z|
    {
      LcsLenIsUpperBound(x1, y1, m, n, w);
    }
  }
}
