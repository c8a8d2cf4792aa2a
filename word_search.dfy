/**
 * The word-search locator of HW2/CircleTheWordSolver.h, run sequentially:
 * for every word, the start cell of a match along one of the eight straight
 * directions, or (-1, -1) when the word is not in the puzzle.  Scanning the
 * cells in row-major order, the first start found is kept.
 */
module CircleTheWordSolver {

  type Location = (int, int)

  /** The value every entry starts with: "not found". */
  const NotFound: Location := (-1, -1)

  /** The puzzle is non-empty and every row has the width of the first. */
  ghost predicate Rectangular(puzzle: seq<seq<char>>) {
    |puzzle| >= 1 && forall r :: 0 <= r < |puzzle| ==> |puzzle[r]| == |puzzle[0]|
  }

  predicate InBounds(puzzle: seq<seq<char>>, r: int, c: int) {
    0 <= r < |puzzle| && 0 <= c < |puzzle[r]|
  }

  /** The coordinate reached after x steps from i in direction d (-1, 0 or 1). */
  function Offset(i: int, d: int, x: int): int {
    if d > 0 then i + x else if d < 0 then i - x else i
  }

  /** Letter x of w lies, in bounds, x steps from (i, j) along (dr, dc). */
  ghost predicate LetterAt(puzzle: seq<seq<char>>, w: string, i: int, j: int, dr: int, dc: int, x: int)
    requires 0 <= x < |w|
  {
    InBounds(puzzle, Offset(i, dr, x), Offset(j, dc, x)) &&
    puzzle[Offset(i, dr, x)][Offset(j, dc, x)] == w[x]
  }

  /** Every letter after the first lies along (dr, dc) from (i, j). */
  ghost predicate MatchesAlong(puzzle: seq<seq<char>>, w: string, i: int, j: int, dr: int, dc: int) {
    forall x :: 1 <= x < |w| ==> LetterAt(puzzle, w, i, j, dr, dc, x)
  }

  /**
   * (i, j) starts an occurrence of w: it holds the first letter, and either w
   * has one letter or the rest of w lies along one of the eight directions.
   */
  ghost predicate IsStart(puzzle: seq<seq<char>>, w: string, i: int, j: int)
    requires |w| >= 1
  {
    InBounds(puzzle, i, j) && puzzle[i][j] == w[0] &&
    (|w| == 1 ||
     MatchesAlong(puzzle, w, i, j, -1, 0) || MatchesAlong(puzzle, w, i, j, -1, 1) ||
     MatchesAlong(puzzle, w, i, j, 0, 1) || MatchesAlong(puzzle, w, i, j, 1, 1) ||
     MatchesAlong(puzzle, w, i, j, 1, 0) || MatchesAlong(puzzle, w, i, j, 1, -1) ||
     MatchesAlong(puzzle, w, i, j, 0, -1) || MatchesAlong(puzzle, w, i, j, -1, -1))
  }

  /** (r, c) comes before (i, j) in row-major order. */
  predicate Before(r: int, c: int, i: int, j: int) {
    r < i || (r == i && c < j)
  }

  /**
   * loc is the first start of w among the cells before (i, j) in row-major
   * order, or NotFound when there is none.
   */
  ghost predicate FirstStartBefore(puzzle: seq<seq<char>>, w: string, loc: Location, i: int, j: int)
    requires |w| >= 1
  {
    if loc == NotFound then
      forall r, c :: InBounds(puzzle, r, c) && Before(r, c, i, j) ==> !IsStart(puzzle, w, r, c)
    else
      Before(loc.0, loc.1, i, j) && IsStart(puzzle, w, loc.0, loc.1) &&
      forall r, c :: InBounds(puzzle, r, c) && Before(r, c, loc.0, loc.1) ==> !IsStart(puzzle, w, r, c)
  }

  /** Character x of a C++ string, with the terminating '\0' at index |w|. */
  function CharAt(w: string, x: nat): char {
    if x < |w| then w[x] else '\0'
  }

  /**
   * One direction block of the source: if the neighbour holds the second
   * letter, count matching letters further along until a mismatch or the
   * edge, and report whether the whole word matched.
   */
  method CheckDirection(puzzle: seq<seq<char>>, w: string, i: int, j: int, dr: int, dc: int)
    returns (matched: bool)
    requires Rectangular(puzzle) && InBounds(puzzle, i, j) && |w| >= 1
    ensures matched <==> |w| >= 2 && MatchesAlong(puzzle, w, i, j, dr, dc)
  {
    matched := false;
    if InBounds(puzzle, Offset(i, dr, 1), Offset(j, dc, 1)) &&
       puzzle[Offset(i, dr, 1)][Offset(j, dc, 1)] == CharAt(w, 1)
    {
      var numMatchingChar := 2;
      var x := 2;
      while x < |w|
        invariant 2 <= x <= if |w| < 2 then 2 else |w|
        invariant numMatchingChar == x
        invariant forall y :: 1 <= y < x && y < |w| ==> LetterAt(puzzle, w, i, j, dr, dc, y)
      {
        if InBounds(puzzle, Offset(i, dr, x), Offset(j, dc, x)) &&
           puzzle[Offset(i, dr, x)][Offset(j, dc, x)] == w[x]
        {
          numMatchingChar := numMatchingChar + 1;
        } else {
          assert !LetterAt(puzzle, w, i, j, dr, dc, x);
          break;
        }
        x := x + 1;
      }
      matched := numMatchingChar == |w|;
    } else if |w| >= 2 {
      assert !LetterAt(puzzle, w, i, j, dr, dc, 1);
    }
  }

  /**
   * The work for one word at one cell: if the cell holds the word's first
   * letter and the word is not yet located in this or an earlier row, record
   * the cell when the word has one letter or matches in some direction.
   */
  method CheckCell(puzzle: seq<seq<char>>, w: string, i: int, j: int, loc: Location)
    returns (newLoc: Location)
    requires Rectangular(puzzle) && InBounds(puzzle, i, j) && |w| >= 1
    ensures newLoc == if (loc == NotFound || i < loc.0) && IsStart(puzzle, w, i, j) then (i, j) else loc
  {
    newLoc := loc;
    if puzzle[i][j] == w[0] && (loc == NotFound || i < loc.0) {
      var wordSize := |w|;
      if wordSize == 1 {
        newLoc := (i, j);
      }
      var up := CheckDirection(puzzle, w, i, j, -1, 0);
      if up { newLoc := (i, j); }
      var upRight := CheckDirection(puzzle, w, i, j, -1, 1);
      if upRight { newLoc := (i, j); }
      var right := CheckDirection(puzzle, w, i, j, 0, 1);
      if right { newLoc := (i, j); }
      var downRight := CheckDirection(puzzle, w, i, j, 1, 1);
      if downRight { newLoc := (i, j); }
      var down := CheckDirection(puzzle, w, i, j, 1, 0);
      if down { newLoc := (i, j); }
      var downLeft := CheckDirection(puzzle, w, i, j, 1, -1);
      if downLeft { newLoc := (i, j); }
      var left := CheckDirection(puzzle, w, i, j, 0, -1);
      if left { newLoc := (i, j); }
      var upLeft := CheckDirection(puzzle, w, i, j, -1, -1);
      if upLeft { newLoc := (i, j); }
    }
  }

  /** Scanning cell (i, j) extends "first start before (i, j)" by one cell. */
  lemma CellStep(puzzle: seq<seq<char>>, w: string, loc: Location, i: int, j: int, newLoc: Location)
    requires Rectangular(puzzle) && InBounds(puzzle, i, j) && |w| >= 1
    requires FirstStartBefore(puzzle, w, loc, i, j)
    requires newLoc == if (loc == NotFound || i < loc.0) && IsStart(puzzle, w, i, j) then (i, j) else loc
    ensures FirstStartBefore(puzzle, w, newLoc, i, j + 1)
  {
    if loc != NotFound {
      assert newLoc == loc;
    } else if IsStart(puzzle, w, i, j) {
      assert newLoc == (i, j);
    } else {
      assert newLoc == NotFound;
    }
  }

  /** The cells before (i, width) are exactly those before (i + 1, 0). */
  lemma RowStep(puzzle: seq<seq<char>>, w: string, loc: Location, i: int)
    requires Rectangular(puzzle) && 0 <= i < |puzzle| && |w| >= 1
    requires FirstStartBefore(puzzle, w, loc, i, |puzzle[0]|)
    ensures FirstStartBefore(puzzle, w, loc, i + 1, 0)
  {
    if loc != NotFound {
      assert loc.0 <= i;
    }
  }

  /**
   * word_locations: one entry per word; entry k is the first cell in
   * row-major order that starts an occurrence of word k, or (-1, -1).
   */
  method WordLocations(puzzle: seq<seq<char>>, wordlist: seq<string>)
    returns (locations: seq<Location>)
    requires Rectangular(puzzle)
    requires forall k :: 0 <= k < |wordlist| ==> |wordlist[k]| >= 1
    ensures |locations| == |wordlist|
    ensures forall k :: 0 <= k < |wordlist| ==>
              FirstStartBefore(puzzle, wordlist[k], locations[k], |puzzle|, 0)
  {
    var puzzleRows := |puzzle|;
    var puzzleColumns := |puzzle[0]|;
    var numWords := |wordlist|;
    locations := seq(numWords, _ => NotFound);
    var i := 0;
    while i < puzzleRows
      invariant 0 <= i <= puzzleRows
      invariant |locations| == numWords
      invariant forall k :: 0 <= k < numWords ==> FirstStartBefore(puzzle, wordlist[k], locations[k], i, 0)
    {
      var j := 0;
      while j < puzzleColumns
        invariant 0 <= j <= puzzleColumns
        invariant |locations| == numWords
        invariant forall k :: 0 <= k < numWords ==> FirstStartBefore(puzzle, wordlist[k], locations[k], i, j)
      {
        var k := 0;
        while k < numWords
          invariant 0 <= k <= numWords
          invariant |locations| == numWords
          invariant forall k' :: 0 <= k' < k ==> FirstStartBefore(puzzle, wordlist[k'], locations[k'], i, j + 1)
          invariant forall k' :: k <= k' < numWords ==> FirstStartBefore(puzzle, wordlist[k'], locations[k'], i, j)
        {
          var newLoc := CheckCell(puzzle, wordlist[k], i, j, locations[k]);
          CellStep(puzzle, wordlist[k], locations[k], i, j, newLoc);
          locations := locations[k := newLoc];
          k := k + 1;
        }
        j := j + 1;
      }
      forall k | 0 <= k < numWords
        ensures FirstStartBefore(puzzle, wordlist[k], locations[k], i + 1, 0)
      {
        RowStep(puzzle, wordlist[k], locations[k], i);
      }
      i := i + 1;
    }
  }

  /**
   * What an entry of the result means: (-1, -1) exactly when no cell starts
   * the word; otherwise an in-bounds cell holding the word's first letter.
   */
  lemma LocationMeaning(puzzle: seq<seq<char>>, w: string, loc: Location)
    requires |w| >= 1 && FirstStartBefore(puzzle, w, loc, |puzzle|, 0)
    ensures loc == NotFound <==> forall r, c :: InBounds(puzzle, r, c) ==> !IsStart(puzzle, w, r, c)
    ensures loc != NotFound ==> InBounds(puzzle, loc.0, loc.1) && puzzle[loc.0][loc.1] == w[0]
  {
  }

  /** The whole-puzzle answer for a word is unique: the row-major first start. */
  lemma FirstStartUnique(puzzle: seq<seq<char>>, w: string, a: Location, b: Location)
    requires |w| >= 1
    requires FirstStartBefore(puzzle, w, a, |puzzle|, 0) && FirstStartBefore(puzzle, w, b, |puzzle|, 0)
    ensures a == b
  {
  }
}
