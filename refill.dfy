/** Refilling empty cells: `fillEmptySpaces` (src/lib/gameLogic.ts:197-209).

    Cells are visited column by column, top to bottom, and every empty one
    receives a fresh candy. With colours taken from the injected source
    `draw`, the n-th empty cell in that order receives the candy created from
    draw index `start + n`. */
module Refill {
  import opened GameTypes
  import opened Grid

  /** The number of empty cells among the first r cells of a column. */
  function NullsAbove(s: seq<Cell>, r: int): (n: nat)
    requires 0 <= r <= |s|
    ensures n <= r
  {
    if r == 0 then 0 else NullsAbove(s, r - 1) + (if s[r - 1].None? then 1 else 0)
  }

  /** The number of empty cells in the columns left of c. */
  function NullsInCols(b: Board, c: int): nat
    requires WellFormed(b) && 0 <= c <= BoardSize
  {
    if c == 0 then 0 else NullsInCols(b, c - 1) + NullsAbove(Column(b, c - 1), BoardSize)
  }

  /** The draw index given to the empty cell (r, c): how many empty cells the
      column-major scan has met before it. */
  function DrawIndex(b: Board, start: nat, r: int, c: int): nat
    requires WellFormed(b) && InBounds(Position(r, c))
  {
    start + NullsInCols(b, c) + NullsAbove(Column(b, c), r)
  }

  /** The board after refilling. No cell is empty; occupied cells are
      untouched; each new tile is plain, knows its cell, and has the colour of
      its draw index. */
  function Refilled(b: Board, draw: nat -> CandyType, start: nat): (nb: Board)
    requires WellFormed(b)
    ensures WellFormed(nb)
    ensures forall r, c :: 0 <= r < BoardSize && 0 <= c < BoardSize ==>
      && nb[r][c].Some?
      && (b[r][c].Some? ==> nb[r][c] == b[r][c])
      && (b[r][c].None? ==> var t := nb[r][c].value;
            t.special == None && t.row == r && t.col == c && t.kind == draw(t.id))
  {
    seq(BoardSize, r requires 0 <= r < BoardSize =>
      seq(BoardSize, c requires 0 <= c < BoardSize =>
        if b[r][c].None? then Some(CreateCandy(r, c, draw, DrawIndex(b, start, r, c))) else b[r][c]))
  }

  /** `fillEmptySpaces(board)`: create a candy in each empty cell, column by
      column; `next` is the first draw index left unused. */
  method FillEmptySpaces(b: Board, draw: nat -> CandyType, start: nat) returns (nb: Board, next: nat)
    requires WellFormed(b)
    ensures nb == Refilled(b, draw, start)
    ensures next == start + NullsInCols(b, BoardSize)
  {
    nb := b;
    next := start;
    for col := 0 to BoardSize
      invariant WellFormed(nb) && next == start + NullsInCols(b, col)
      invariant forall r, c :: 0 <= r < BoardSize && 0 <= c < BoardSize ==>
        nb[r][c] == if c < col then Refilled(b, draw, start)[r][c] else b[r][c]
    {
      for row := 0 to BoardSize
        invariant WellFormed(nb) && next == start + NullsInCols(b, col) + NullsAbove(Column(b, col), row)
        invariant forall r, c :: 0 <= r < BoardSize && 0 <= c < BoardSize ==>
          nb[r][c] == if c < col || (c == col && r < row) then Refilled(b, draw, start)[r][c] else b[r][c]
      {
        if nb[row][col] == None {
          nb := SetCell(nb, Position(row, col), Some(CreateCandy(row, col, draw, next)));
          next := next + 1;
        }
      }
    }
    BoardExt(nb, Refilled(b, draw, start));
  }

  // ---------------------------------------------------------------------------
  // What refilling guarantees

  /** A column's empty-cell count grows by one exactly at an empty cell. */
  lemma {:induction false} NullsAboveGrows(s: seq<Cell>, r1: int, r2: int)
    requires 0 <= r1 <= r2 <= |s|
    ensures NullsAbove(s, r1) <= NullsAbove(s, r2)
    ensures r1 < r2 && s[r1].None? ==> NullsAbove(s, r1) < NullsAbove(s, r2)
    decreases r2 - r1
  {
    if r1 < r2 {
      NullsAboveGrows(s, r1, r2 - 1);
    }
  }

  /** Whole columns to the left count no more than the columns up to a later one. */
  lemma {:induction false} NullsInColsGrows(b: Board, c1: int, c2: int)
    requires WellFormed(b) && 0 <= c1 < c2 <= BoardSize
    ensures NullsInCols(b, c1) + NullsAbove(Column(b, c1), BoardSize) <= NullsInCols(b, c2)
    decreases c2 - c1
  {
    if c1 + 1 < c2 {
      NullsInColsGrows(b, c1, c2 - 1);
    }
  }

  /** An empty cell's draw index lies in [start, next), and it comes before the
      index of any empty cell later in column-major order. */
  lemma DrawIndexOrder(b: Board, start: nat, r1: int, c1: int, r2: int, c2: int)
    requires WellFormed(b) && InBounds(Position(r1, c1)) && InBounds(Position(r2, c2))
    requires b[r1][c1].None?
    requires c1 < c2 || (c1 == c2 && r1 < r2)
    ensures start <= DrawIndex(b, start, r1, c1) < DrawIndex(b, start, r2, c2)
  {
    if c1 == c2 {
      NullsAboveGrows(Column(b, c1), r1, r2);
    } else {
      NullsAboveGrows(Column(b, c1), r1, BoardSize);
      NullsInColsGrows(b, c1, c2);
    }
  }

  /** The candies created by one refill have distinct ids, all in [start, next):
      ids are never reused within a refill and never collide with the ids of
      the next one. */
  lemma RefillIdsFresh(b: Board, draw: nat -> CandyType, start: nat)
    requires WellFormed(b)
    ensures var nb := Refilled(b, draw, start);
      && (forall r, c :: 0 <= r < BoardSize && 0 <= c < BoardSize && b[r][c].None? ==>
            start <= nb[r][c].value.id < start + NullsInCols(b, BoardSize))
      && (forall r1, c1, r2, c2 ::
            0 <= r1 < BoardSize && 0 <= c1 < BoardSize && 0 <= r2 < BoardSize && 0 <= c2 < BoardSize &&
            b[r1][c1].None? && b[r2][c2].None? && (r1, c1) != (r2, c2) ==>
            nb[r1][c1].value.id != nb[r2][c2].value.id)
  {
    var nb: Board := Refilled(b, draw, start);
    forall r: int, c: int | 0 <= r < BoardSize && 0 <= c < BoardSize && b[r][c].None?
      ensures start <= nb[r][c].value.id < start + NullsInCols(b, BoardSize)
    {
      NullsAboveGrows(Column(b, c), r, BoardSize);
      if c + 1 < BoardSize {
        NullsInColsGrows(b, c, BoardSize);
      }
    }
    forall r1: int, c1: int, r2: int, c2: int |
      0 <= r1 < BoardSize && 0 <= c1 < BoardSize && 0 <= r2 < BoardSize && 0 <= c2 < BoardSize &&
      b[r1][c1].None? && b[r2][c2].None? && (r1, c1) != (r2, c2)
      ensures nb[r1][c1].value.id != nb[r2][c2].value.id
    {
      if c1 < c2 || (c1 == c2 && r1 < r2) {
        DrawIndexOrder(b, start, r1, c1, r2, c2);
      } else {
        DrawIndexOrder(b, start, r2, c2, r1, c1);
      }
    }
  }

  /** A board whose tiles know their cells still does after refilling. */
  lemma RefillKeepsCoordinatesAgreeing(b: Board, draw: nat -> CandyType, start: nat)
    requires WellFormed(b) && CoordinatesAgree(b)
    ensures CoordinatesAgree(Refilled(b, draw, start))
  {
  }

  /** After a refill from index `start`, every id lies below the first unused
      index: kept tiles were below `start`, new ones lie in [start, next). */
  lemma RefillIdsBelow(b: Board, draw: nat -> CandyType, start: nat)
    requires WellFormed(b) && IdsBelow(b, start)
    ensures IdsBelow(Refilled(b, draw, start), start + NullsInCols(b, BoardSize))
  {
    RefillIdsFresh(b, draw, start);
  }
}
