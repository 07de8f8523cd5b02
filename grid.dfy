/** The 8x8 grid of `Candy | null` cells shared by every board operation
    (src/lib/gameLogic.ts), and the injected colour source that replaces
    `Math.random` in `createCandy`. */
module Grid {
  import opened GameTypes

  const BoardSize: int := 8

  /** The palette, in the order of `CANDY_TYPES`. */
  const Palette: seq<CandyType> := [Red, Blue, Green, Yellow, Purple]

  type Cell = Option<Candy>
  type Board = seq<seq<Cell>>

  predicate WellFormed(b: Board) {
    |b| == BoardSize && forall r :: 0 <= r < |b| ==> |b[r]| == BoardSize
  }

  predicate InBounds(p: Position) {
    0 <= p.row < BoardSize && 0 <= p.col < BoardSize
  }

  /** Column `c` read top to bottom. */
  function Column(b: Board, c: int): (s: seq<Cell>)
    requires WellFormed(b) && 0 <= c < BoardSize
    ensures |s| == BoardSize && forall r :: 0 <= r < BoardSize ==> s[r] == b[r][c]
  {
    seq(BoardSize, r requires 0 <= r < BoardSize => b[r][c])
  }

  /** The board with one cell overwritten. */
  function SetCell(b: Board, p: Position, x: Cell): (nb: Board)
    requires WellFormed(b) && InBounds(p)
    ensures WellFormed(nb)
    ensures nb[p.row][p.col] == x
    ensures forall r, c :: 0 <= r < BoardSize && 0 <= c < BoardSize && (r != p.row || c != p.col) ==> nb[r][c] == b[r][c]
  {
    b[p.row := b[p.row][p.col := x]]
  }

  function EmptyBoard(): (b: Board)
    ensures WellFormed(b)
    ensures forall r, c :: 0 <= r < BoardSize && 0 <= c < BoardSize ==> b[r][c] == None
  {
    seq(BoardSize, _ => seq(BoardSize, _ => None))
  }

  /** Two well-formed boards that agree cell by cell are the same board. */
  lemma BoardExt(a: Board, b: Board)
    requires WellFormed(a) && WellFormed(b)
    requires forall r, c :: 0 <= r < BoardSize && 0 <= c < BoardSize ==> a[r][c] == b[r][c]
    ensures a == b
  {
    forall r | 0 <= r < BoardSize
      ensures a[r] == b[r]
    {
      assert forall c :: 0 <= c < BoardSize ==> a[r][c] == b[r][c];
    }
  }

  /** Overwriting one cell updates one entry of its column and no other column. */
  lemma SetCellColumns(b: Board, p: Position, x: Cell)
    requires WellFormed(b) && InBounds(p)
    ensures Column(SetCell(b, p, x), p.col) == Column(b, p.col)[p.row := x]
    ensures forall c :: 0 <= c < BoardSize && c != p.col ==> Column(SetCell(b, p, x), c) == Column(b, c)
  {
    var nb := SetCell(b, p, x);
    assert Column(nb, p.col) == Column(b, p.col)[p.row := x];
    forall c | 0 <= c < BoardSize && c != p.col
      ensures Column(nb, c) == Column(b, c)
    {
      assert forall r :: 0 <= r < BoardSize ==> Column(nb, c)[r] == Column(b, c)[r];
    }
  }

  /** Two well-formed boards with the same columns are the same board. */
  lemma ColumnsExt(a: Board, b: Board)
    requires WellFormed(a) && WellFormed(b)
    requires forall c :: 0 <= c < BoardSize ==> Column(a, c) == Column(b, c)
    ensures a == b
  {
    forall r, c | 0 <= r < BoardSize && 0 <= c < BoardSize
      ensures a[r][c] == b[r][c]
    {
      assert Column(a, c)[r] == Column(b, c)[r];
    }
    BoardExt(a, b);
  }

  /** Every tile's stored coordinates are those of the cell holding it. */
  predicate CoordinatesAgree(b: Board)
    requires WellFormed(b)
  {
    forall r, c :: 0 <= r < BoardSize && 0 <= c < BoardSize && b[r][c].Some? ==>
      b[r][c].value.row == r && b[r][c].value.col == c
  }

  /** Every cell holds a tile: the board between two handlers. */
  predicate Full(b: Board)
    requires WellFormed(b)
  {
    forall r, c :: 0 <= r < BoardSize && 0 <= c < BoardSize ==> b[r][c].Some?
  }

  /** Every tile's id lies below n. Ids are handed out by the draw counter,
      so no tile carries an id the counter has not yet given out. */
  predicate IdsBelow(b: Board, n: int)
    requires WellFormed(b)
  {
    forall r, c :: 0 <= r < BoardSize && 0 <= c < BoardSize && b[r][c].Some? ==> b[r][c].value.id < n
  }

  /** `?.type === t` in the source: the cell holds a candy of colour `t`. */
  predicate SameKind(x: Cell, t: CandyType) {
    x.Some? && x.value.kind == t
  }

  /** A colour source: `draw(k)` is the colour of the k-th candy ever created,
      and `k` is also that candy's id. A source is fair when every colour keeps
      coming back, which is what a uniform random draw does almost surely. */
  ghost predicate Recurs(draw: nat -> CandyType, from: nat, t: CandyType) {
    exists k: nat :: k >= from && draw(k) == t
  }

  ghost predicate Fair(draw: nat -> CandyType) {
    forall from: nat, t: CandyType :: Recurs(draw, from, t)
  }

  /** `createCandy(row, col)`: a plain candy of the next drawn colour. */
  function CreateCandy(row: int, col: int, draw: nat -> CandyType, k: nat): (c: Candy)
    ensures c.row == row && c.col == col && c.special == None
    ensures c.id == k && c.kind == draw(k)
  {
    Candy(k, draw(k), None, row, col)
  }
}
