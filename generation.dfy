/** Initial board generation: `initializeBoard` with its rejection test
    `wouldCreateMatch` (src/lib/gameLogic.ts:10-54). */
module Generation {
  import opened GameTypes
  import opened Grid
  import opened Matching

  /** `wouldCreateMatch(board, row, col, type)`: placing colour t at (row, col)
      would complete a run with the two cells to its left or the two above it. */
  predicate WouldCreateMatch(b: Board, row: int, col: int, t: CandyType)
    requires WellFormed(b) && InBounds(Position(row, col))
  {
    (col >= 2 && SameKind(b[row][col - 1], t) && SameKind(b[row][col - 2], t)) ||
    (row >= 2 && SameKind(b[row - 1][col], t) && SameKind(b[row - 2][col], t))
  }

  /** What the test means: putting a tile of colour `c.kind` at (row, col)
      completes a same-colour window of three that ends at that cell, in its
      row or in its column. */
  lemma PlacingCompletesTriple(b: Board, row: int, col: int, c: Candy)
    requires WellFormed(b) && InBounds(Position(row, col))
    ensures var nb := SetCell(b, Position(row, col), Some(c));
      WouldCreateMatch(b, row, col, c.kind) <==> Triple(nb[row], col - 2) || Triple(Column(nb, col), row - 2)
  {
    var nb := SetCell(b, Position(row, col), Some(c));
    if col >= 2 {
      assert nb[row][col - 2] == b[row][col - 2] && nb[row][col - 1] == b[row][col - 1];
    }
    if row >= 2 {
      assert Column(nb, col)[row - 2] == b[row - 2][col] && Column(nb, col)[row - 1] == b[row - 1][col];
    }
  }

  /** At most two colours are excluded at a cell, so one of the five is always
      admissible and the redraw loop has something to stop on. */
  lemma AdmissibleColourExists(b: Board, row: int, col: int)
    requires WellFormed(b) && InBounds(Position(row, col))
    ensures exists t :: t in Palette && !WouldCreateMatch(b, row, col, t)
  {
    if WouldCreateMatch(b, row, col, Red) && WouldCreateMatch(b, row, col, Blue) {
      assert !WouldCreateMatch(b, row, col, Green);
      assert Green in Palette;
    } else if !WouldCreateMatch(b, row, col, Red) {
      assert Red in Palette;
    } else {
      assert Blue in Palette;
    }
  }

  /** Cell (r, c) holds a freshly created plain candy with its own coordinates,
      drawn in [start, next), that completes no run with its left or upper neighbours. */
  predicate Placed(b: Board, r: int, c: int, draw: nat -> CandyType, start: nat, next: nat)
    requires WellFormed(b) && InBounds(Position(r, c))
  {
    b[r][c].Some? &&
    var t := b[r][c].value;
    t.special == None && t.row == r && t.col == c &&
    start <= t.id < next && t.kind == draw(t.id) &&
    !WouldCreateMatch(b, r, c, t.kind)
  }

  /** A board as `initializeBoard` leaves it. */
  predicate Generated(b: Board, draw: nat -> CandyType, start: nat, next: nat)
  {
    WellFormed(b) && start <= next &&
    forall r, c :: 0 <= r < BoardSize && 0 <= c < BoardSize ==> Placed(b, r, c, draw, start, next)
  }

  /** (r, c) comes before (row, col) in row-major order. */
  predicate Before(r: int, c: int, row: int, col: int) {
    r < row || (r == row && c < col)
  }

  /** Writing a later cell does not change what the rejection test sees at an earlier one. */
  lemma PlacedFrame(b: Board, row: int, col: int, x: Cell, draw: nat -> CandyType, start: nat, next: nat, next': nat)
    requires WellFormed(b) && InBounds(Position(row, col)) && next <= next'
    requires forall r, c :: 0 <= r < BoardSize && 0 <= c < BoardSize && Before(r, c, row, col) ==> Placed(b, r, c, draw, start, next)
    ensures var b' := SetCell(b, Position(row, col), x);
      forall r, c :: 0 <= r < BoardSize && 0 <= c < BoardSize && Before(r, c, row, col) ==> Placed(b', r, c, draw, start, next')
  {
    var b' := SetCell(b, Position(row, col), x);
    forall r, c | 0 <= r < BoardSize && 0 <= c < BoardSize && Before(r, c, row, col)
      ensures Placed(b', r, c, draw, start, next')
    {
      assert Placed(b, r, c, draw, start, next);
      var t := b[r][c].value.kind;
      assert WouldCreateMatch(b', r, c, t) == WouldCreateMatch(b, r, c, t);
    }
  }

  /** `initializeBoard()`: fill the board row by row; at each cell draw
      candies until one completes no run with the cells already placed. */
  method InitializeBoard(draw: nat -> CandyType, start: nat) returns (b: Board, next: nat)
    requires Fair(draw)
    ensures Generated(b, draw, start, next)
    ensures Full(b) && CoordinatesAgree(b) && IdsBelow(b, next)
    ensures !HasMatch(b)
  {
    b := EmptyBoard();
    next := start;
    for row := 0 to BoardSize
      invariant WellFormed(b) && start <= next
      invariant forall r, c :: 0 <= r < BoardSize && 0 <= c < BoardSize && r < row ==> Placed(b, r, c, draw, start, next)
      invariant forall r, c :: 0 <= r < BoardSize && 0 <= c < BoardSize && r >= row ==> b[r][c] == None
    {
      for col := 0 to BoardSize
        invariant WellFormed(b) && start <= next
        invariant forall r, c :: 0 <= r < BoardSize && 0 <= c < BoardSize && Before(r, c, row, col) ==> Placed(b, r, c, draw, start, next)
        invariant forall r, c :: 0 <= r < BoardSize && 0 <= c < BoardSize && !Before(r, c, row, col) ==> b[r][c] == None
      {
        var candy;
        candy, next := DrawAdmissibleCandy(b, row, col, draw, next);
        PlacedFrame(b, row, col, Some(candy), draw, start, next - 1, next);
        b := SetCell(b, Position(row, col), Some(candy));
        assert Placed(b, row, col, draw, start, next);
      }
    }
    FreshBoardHasNoMatch(b, draw, start, next);
    forall r, c | 0 <= r < BoardSize && 0 <= c < BoardSize
      ensures b[r][c].Some? && b[r][c].value.row == r && b[r][c].value.col == c && b[r][c].value.id < next
    {
      assert Placed(b, r, c, draw, start, next);
    }
  }

  /** The body of `initializeBoard`'s inner loop: create a candy for (row, col)
      and redraw while it would complete a run. The candy kept is the one
      created from draw index `next' - 1`, the first index from `next` on
      whose colour is admissible; every draw before it was rejected. */
  method DrawAdmissibleCandy(b: Board, row: int, col: int, draw: nat -> CandyType, next: nat) returns (candy: Candy, next': nat)
    requires WellFormed(b) && InBounds(Position(row, col)) && Fair(draw)
    ensures next < next' && candy == CreateCandy(row, col, draw, next' - 1)
    ensures !WouldCreateMatch(b, row, col, candy.kind)
    ensures forall k :: next <= k < next' - 1 ==> WouldCreateMatch(b, row, col, draw(k))
  {
    candy := CreateCandy(row, col, draw, next);
    next' := next + 1;
    // the index of a future draw that the loop can stop on
    ghost var target: nat;
    AdmissibleColourExists(b, row, col);
    ghost var ok :| ok in Palette && !WouldCreateMatch(b, row, col, ok);
    assert Recurs(draw, next, ok);
    target :| target >= next && draw(target) == ok;
    while WouldCreateMatch(b, row, col, candy.kind)
      invariant next < next' && next' - 1 <= target
      invariant candy == CreateCandy(row, col, draw, next' - 1)
      invariant forall k :: next <= k < next' - 1 ==> WouldCreateMatch(b, row, col, draw(k))
      decreases target - (next' - 1)
    {
      candy := CreateCandy(row, col, draw, next');
      next' := next' + 1;
    }
  }

  /** No window of three on a generated board holds one colour: its last cell
      would have had two equal left (or upper) neighbours. */
  lemma FreshBoardHasNoMatch(b: Board, draw: nat -> CandyType, start: nat, next: nat)
    requires Generated(b, draw, start, next)
    ensures !HasMatch(b)
    ensures MatchSet(b) == {}
  {
    forall p: Position
      ensures !Matched(b, p)
    {
      if InBounds(p) {
        var row, col := p.row, p.col;
        forall s | 0 <= s && s + 2 < BoardSize
          ensures !Triple(b[row], s) && !Triple(Column(b, col), s)
        {
          assert Placed(b, row, s + 2, draw, start, next);
          assert Placed(b, s + 2, col, draw, start, next);
        }
      }
    }
    forall p | p in MatchSet(b)
      ensures false
    {
      MatchSetMembership(b, p);
    }
  }
}
