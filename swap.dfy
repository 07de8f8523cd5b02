/** Adjacency and swapping (src/lib/gameLogic.ts:56-83). */
module Swap {
  import opened GameTypes
  import opened Grid

  function Abs(x: int): nat {
    if x < 0 then -x else x
  }

  /** `areAdjacent`: the two positions are orthogonal neighbours. */
  function AreAdjacent(p: Position, q: Position): (r: bool)
    ensures r <==> Abs(p.row - q.row) + Abs(p.col - q.col) == 1
  {
    var rowDiff := Abs(p.row - q.row);
    var colDiff := Abs(p.col - q.col);
    (rowDiff == 1 && colDiff == 0) || (rowDiff == 0 && colDiff == 1)
  }

  /** Adjacency is symmetric, never holds of a position and itself, and never
      holds of diagonal neighbours. */
  lemma AdjacencyShape(p: Position, q: Position)
    ensures AreAdjacent(p, q) == AreAdjacent(q, p)
    ensures !AreAdjacent(p, p)
    ensures Abs(p.row - q.row) == 1 && Abs(p.col - q.col) == 1 ==> !AreAdjacent(p, q)
    ensures AreAdjacent(p, q) ==> p.row == q.row || p.col == q.col
  {
  }

  /** The cell's tile, if any, with its coordinates set to `p`. */
  function Relocate(x: Cell, p: Position): (y: Cell)
    ensures y.Some? <==> x.Some?
    ensures y.Some? ==> y.value == x.value.(row := p.row, col := p.col)
  {
    if x.Some? then Some(x.value.(row := p.row, col := p.col)) else None
  }

  function CellAt(b: Board, p: Position): Cell
    requires WellFormed(b) && InBounds(p)
  {
    b[p.row][p.col]
  }

  /** The board after exchanging the contents of `p` and `q` and updating the
      moved tiles' coordinates. */
  function Swapped(b: Board, p: Position, q: Position): (nb: Board)
    requires WellFormed(b) && InBounds(p) && InBounds(q)
    ensures WellFormed(nb)
  {
    SetCell(SetCell(b, p, Relocate(CellAt(b, q), p)), q, Relocate(CellAt(b, p), q))
  }

  /** `swapCandies(board, pos1, pos2)`, written as the source writes it: copy,
      exchange the two cells, then fix the coordinates of whatever now sits in
      each of them. */
  method SwapCandies(b: Board, p: Position, q: Position) returns (nb: Board)
    requires WellFormed(b) && InBounds(p) && InBounds(q)
    ensures WellFormed(nb) && nb == Swapped(b, p, q)
    ensures nb[p.row][p.col] == Relocate(b[q.row][q.col], p)
    ensures nb[q.row][q.col] == Relocate(b[p.row][p.col], q)
    ensures forall r, c :: 0 <= r < BoardSize && 0 <= c < BoardSize && Position(r, c) != p && Position(r, c) != q ==>
      nb[r][c] == b[r][c]
  {
    nb := b;
    var temp := nb[p.row][p.col];
    nb := SetCell(nb, p, nb[q.row][q.col]);
    nb := SetCell(nb, q, temp);
    if nb[p.row][p.col].Some? {
      nb := SetCell(nb, p, Some(nb[p.row][p.col].value.(row := p.row, col := p.col)));
    }
    if nb[q.row][q.col].Some? {
      nb := SetCell(nb, q, Some(nb[q.row][q.col].value.(row := q.row, col := q.col)));
    }
    BoardExt(nb, Swapped(b, p, q));
  }

  /** Swapping p with q gives the same board as swapping q with p. */
  lemma SwapSymmetric(b: Board, p: Position, q: Position)
    requires WellFormed(b) && InBounds(p) && InBounds(q)
    ensures Swapped(b, p, q) == Swapped(b, q, p)
  {
    BoardExt(Swapped(b, p, q), Swapped(b, q, p));
  }

  /** A swap keeps every tile's coordinates equal to its cell. */
  lemma SwapKeepsCoordinatesAgreeing(b: Board, p: Position, q: Position)
    requires WellFormed(b) && InBounds(p) && InBounds(q) && CoordinatesAgree(b)
    ensures CoordinatesAgree(Swapped(b, p, q))
  {
  }

  /** Swapping the same pair twice restores the board when its tiles' coordinates
      agree with their cells; in general it restores each cell's tile up to coordinates. */
  lemma SwapTwiceRestores(b: Board, p: Position, q: Position)
    requires WellFormed(b) && InBounds(p) && InBounds(q)
    ensures var b2 := Swapped(Swapped(b, p, q), p, q);
      && b2[p.row][p.col] == Relocate(b[p.row][p.col], p)
      && b2[q.row][q.col] == Relocate(b[q.row][q.col], q)
      && forall r, c :: 0 <= r < BoardSize && 0 <= c < BoardSize && Position(r, c) != p && Position(r, c) != q ==> b2[r][c] == b[r][c]
    ensures CoordinatesAgree(b) ==> Swapped(Swapped(b, p, q), p, q) == b
  {
    var b2 := Swapped(Swapped(b, p, q), p, q);
    if CoordinatesAgree(b) {
      forall r, c | 0 <= r < BoardSize && 0 <= c < BoardSize
        ensures b2[r][c] == b[r][c]
      {
        if b[r][c].Some? {
          assert Relocate(b[r][c], Position(r, c)) == b[r][c];
        }
      }
      BoardExt(b2, b);
    }
  }

  /** A swap moves tiles but creates none, so every id stays below the counter. */
  lemma SwapKeepsIdsBelow(b: Board, p: Position, q: Position, n: int)
    requires WellFormed(b) && InBounds(p) && InBounds(q) && IdsBelow(b, n)
    ensures IdsBelow(Swapped(b, p, q), n)
  {
  }
}
