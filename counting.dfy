/** How many draw indices one cascade wave consumes: exactly one per matched
    cell. Refilling draws one index per empty cell, gravity moves tiles
    without changing how many cells of a column are empty, and clearing a
    full board empties exactly the cleared cells. */
module Counting {
  import opened GameTypes
  import opened Grid
  import opened Matching
  import opened Clearing
  import opened Gravity
  import opened Refill

  /** Counted from row k down, every cell is either empty or listed as occupied. */
  lemma {:induction false} NullsAndTiles(s: seq<Cell>, k: int)
    requires 0 <= k <= |s|
    ensures NullsAbove(s, k) + (|s| - k) == NullsAbove(s, |s|) + |OccFrom(s, k)|
    decreases |s| - k
  {
    if k < |s| {
      NullsAndTiles(s, k + 1);
    }
  }

  /** Gravity keeps the number of empty cells of a column. */
  lemma FallColNulls(s: seq<Cell>)
    ensures NullsAbove(FallCol(s), |s|) == NullsAbove(s, |s|)
  {
    FallColShape(s);
    NullsAndTiles(s, 0);
    NullsAndTiles(FallCol(s), 0);
  }

  /** Gravity keeps the number of empty cells in the first c columns. */
  lemma {:induction false} FallenNulls(b: Board, c: int)
    requires WellFormed(b) && 0 <= c <= BoardSize
    ensures NullsInCols(Fallen(b), c) == NullsInCols(b, c)
    decreases c
  {
    if c > 0 {
      FallenNulls(b, c - 1);
      FallenColumn(b, c - 1);
      FallColNulls(Column(b, c - 1));
    }
  }

  /** The positions of S in column c above row r. */
  function InColumnAbove(S: set<Position>, c: int, r: int): set<Position> {
    set p | p in S && p.col == c && p.row < r
  }

  /** The positions of S left of column c. */
  function LeftOf(S: set<Position>, c: int): set<Position> {
    set p | p in S && p.col < c
  }

  /** Clearing S on a full board empties, in column c above row r, exactly
      the positions of S there. */
  lemma {:induction false} ClearedColumnNulls(b: Board, S: set<Position>, c: int, r: int)
    requires WellFormed(b) && Full(b) && 0 <= c < BoardSize && 0 <= r <= BoardSize
    requires forall p :: p in S ==> InBounds(p)
    ensures NullsAbove(Column(Cleared(b, S), c), r) == |InColumnAbove(S, c, r)|
    decreases r
  {
    if r == 0 {
      assert InColumnAbove(S, c, r) == {};
    } else {
      ClearedColumnNulls(b, S, c, r - 1);
      var p := Position(r - 1, c);
      var above := InColumnAbove(S, c, r - 1);
      assert Column(Cleared(b, S), c)[r - 1] == Cleared(b, S)[r - 1][c];
      if p in S {
        assert InColumnAbove(S, c, r) == above + {p};
      } else {
        assert InColumnAbove(S, c, r) == above;
      }
    }
  }

  /** Clearing S on a full board empties, in the first c columns, exactly the
      positions of S there. */
  lemma {:induction false} ClearedNulls(b: Board, S: set<Position>, c: int)
    requires WellFormed(b) && Full(b) && 0 <= c <= BoardSize
    requires forall p :: p in S ==> InBounds(p)
    ensures NullsInCols(Cleared(b, S), c) == |LeftOf(S, c)|
    decreases c
  {
    if c == 0 {
      assert LeftOf(S, c) == {};
    } else {
      ClearedNulls(b, S, c - 1);
      ClearedColumnNulls(b, S, c - 1, BoardSize);
      var left, column := LeftOf(S, c - 1), InColumnAbove(S, c - 1, BoardSize);
      assert LeftOf(S, c) == left + column;
      assert left * column == {};
    }
  }

  /** A wave on a full board draws exactly one index per matched cell: the
      cells gravity leaves empty are as many as the clear emptied. */
  lemma WaveDrawsPerMatch(b: Board)
    requires WellFormed(b) && Full(b)
    ensures NullsInCols(Fallen(Cleared(b, MatchSet(b))), BoardSize) == |MatchSet(b)|
  {
    var S := MatchSet(b);
    forall p | p in S
      ensures InBounds(p)
    {
      MatchSetMembership(b, p);
    }
    FallenNulls(Cleared(b, S), BoardSize);
    ClearedNulls(b, S, BoardSize);
    assert LeftOf(S, BoardSize) == S;
  }
}
