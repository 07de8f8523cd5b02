/** Deadlock detection: `hasValidMoves` (src/lib/gameLogic.ts:241-261). */
module Moves {
  import opened GameTypes
  import opened Grid
  import opened Matching
  import opened Swap

  /** Swapping the cell at (r, c) with its right or its lower neighbour makes a match. */
  predicate ValidMoveAt(b: Board, r: int, c: int)
    requires WellFormed(b) && InBounds(Position(r, c))
  {
    (c < BoardSize - 1 && HasMatch(Swapped(b, Position(r, c), Position(r, c + 1)))) ||
    (r < BoardSize - 1 && HasMatch(Swapped(b, Position(r, c), Position(r + 1, c))))
  }

  /** Some cell has a right- or down-swap that makes a match. */
  predicate AnyValidMove(b: Board)
    requires WellFormed(b)
  {
    exists r, c :: 0 <= r < BoardSize && 0 <= c < BoardSize && ValidMoveAt(b, r, c)
  }

  /** A move the player could make: two adjacent cells whose swap makes a match. */
  predicate IsValidSwap(b: Board, p: Position, q: Position)
    requires WellFormed(b)
  {
    InBounds(p) && InBounds(q) && AreAdjacent(p, q) && HasMatch(Swapped(b, p, q))
  }

  /** `hasValidMoves(board)`: scan the cells in row-major order, trying the
      swap with the right neighbour and then the one with the lower neighbour,
      and stop at the first that makes a match. */
  method HasValidMoves(b: Board) returns (ok: bool)
    requires WellFormed(b)
    ensures ok <==> AnyValidMove(b)
  {
    for row := 0 to BoardSize
      invariant forall r, c :: 0 <= r < row && 0 <= c < BoardSize ==> !ValidMoveAt(b, r, c)
    {
      for col := 0 to BoardSize
        invariant forall r, c :: 0 <= r < BoardSize && 0 <= c < BoardSize && (r < row || (r == row && c < col)) ==>
          !ValidMoveAt(b, r, c)
      {
        if col < BoardSize - 1 {
          var testBoard := SwapCandies(b, Position(row, col), Position(row, col + 1));
          var matches := FindMatches(testBoard);
          FoundMatchesAreMatchSet(testBoard, matches);
          if |matches| > 0 {
            assert ValidMoveAt(b, row, col);
            return true;
          }
        }
        if row < BoardSize - 1 {
          var testBoard := SwapCandies(b, Position(row, col), Position(row + 1, col));
          var matches := FindMatches(testBoard);
          FoundMatchesAreMatchSet(testBoard, matches);
          if |matches| > 0 {
            assert ValidMoveAt(b, row, col);
            return true;
          }
        }
      }
    }
    return false;
  }

  /** Trying only right and down swaps loses nothing: some adjacent swap makes
      a match iff one of the scanned swaps does. */
  lemma ScanCoversAllSwaps(b: Board)
    requires WellFormed(b)
    ensures AnyValidMove(b) <==> exists p, q :: IsValidSwap(b, p, q)
  {
    if AnyValidMove(b) {
      var r, c :| 0 <= r < BoardSize && 0 <= c < BoardSize && ValidMoveAt(b, r, c);
      ScannedSwapIsValid(b, r, c);
    }
    if exists p, q :: IsValidSwap(b, p, q) {
      var p, q :| IsValidSwap(b, p, q);
      ValidSwapIsScanned(b, p, q);
    }
  }

  /** A scanned swap that makes a match is a valid move. */
  lemma ScannedSwapIsValid(b: Board, r: int, c: int)
    requires WellFormed(b) && InBounds(Position(r, c)) && ValidMoveAt(b, r, c)
    ensures exists p, q :: IsValidSwap(b, p, q)
  {
    if c < BoardSize - 1 && HasMatch(Swapped(b, Position(r, c), Position(r, c + 1))) {
      assert IsValidSwap(b, Position(r, c), Position(r, c + 1));
    } else {
      assert IsValidSwap(b, Position(r, c), Position(r + 1, c));
    }
  }

  /** Every valid move is found by the scan from the upper or left cell of the pair. */
  lemma ValidSwapIsScanned(b: Board, p: Position, q: Position)
    requires WellFormed(b) && IsValidSwap(b, p, q)
    ensures AnyValidMove(b)
  {
    SwapSymmetric(b, p, q);
    if (q.row == p.row && q.col == p.col + 1) || (q.row == p.row + 1 && q.col == p.col) {
      assert ValidMoveAt(b, p.row, p.col);
    } else {
      assert (p.row == q.row && p.col == q.col + 1) || (p.row == q.row + 1 && p.col == q.col);
      assert ValidMoveAt(b, q.row, q.col);
    }
  }
}
