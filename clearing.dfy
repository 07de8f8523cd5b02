/** Clearing matched cells: `removeMatches` (src/lib/gameLogic.ts:164-172). */
module Clearing {
  import opened GameTypes
  import opened Grid
  import opened Matching

  /** The board with every cell of `S` emptied. */
  function Cleared(b: Board, S: set<Position>): (nb: Board)
    requires WellFormed(b)
    ensures WellFormed(nb)
  {
    seq(BoardSize, r requires 0 <= r < BoardSize =>
      seq(BoardSize, c requires 0 <= c < BoardSize => if Position(r, c) in S then None else b[r][c]))
  }

  /** `removeMatches(board, matches)`: null out each listed cell of a copy. */
  method RemoveMatches(b: Board, ms: seq<Position>) returns (nb: Board)
    requires WellFormed(b)
    requires forall p :: p in ms ==> InBounds(p)
    ensures WellFormed(nb)
    ensures forall r, c :: 0 <= r < BoardSize && 0 <= c < BoardSize ==>
      nb[r][c] == if Position(r, c) in ms then None else b[r][c]
    ensures nb == Cleared(b, set p | p in ms)
  {
    nb := b;
    for i := 0 to |ms|
      invariant WellFormed(nb)
      invariant forall r, c :: 0 <= r < BoardSize && 0 <= c < BoardSize ==>
        nb[r][c] == if Position(r, c) in ms[..i] then None else b[r][c]
    {
      nb := SetCell(nb, ms[i], None);
      assert ms[..i + 1] == ms[..i] + [ms[i]];
    }
    assert ms[..|ms|] == ms;
    BoardExt(nb, Cleared(b, set p | p in ms));
  }

  /** Emptying cells keeps every remaining tile's coordinates equal to its cell. */
  lemma ClearingKeepsCoordinatesAgreeing(b: Board, S: set<Position>)
    requires WellFormed(b) && CoordinatesAgree(b)
    ensures CoordinatesAgree(Cleared(b, S))
  {
  }

  /** Emptying cells creates no tile, so every id stays below the counter. */
  lemma ClearingKeepsIdsBelow(b: Board, S: set<Position>, n: int)
    requires WellFormed(b) && IdsBelow(b, n)
    ensures IdsBelow(Cleared(b, S), n)
  {
  }

  /** Clearing every matched cell leaves no match behind: a same-colour window
      of three that survived would have been matched, hence cleared. */
  lemma {:induction false} ClearingMatchesLeavesNone(b: Board)
    requires WellFormed(b)
    ensures !HasMatch(Cleared(b, MatchSet(b)))
  {
    var S := MatchSet(b);
    var nb := Cleared(b, S);
    forall p: Position
      ensures !Matched(nb, p)
    {
      if InBounds(p) {
        forall s | 0 <= s && s + 2 < BoardSize
          ensures !Triple(nb[p.row], s) && !Triple(Column(nb, p.col), s)
        {
          MatchSetMembership(b, Position(p.row, s));
          MatchSetMembership(b, Position(s, p.col));
          var rowLine, colLine := b[p.row], Column(b, p.col);
          assert Triple(nb[p.row], s) ==> Triple(rowLine, s) && InTriple(rowLine, s);
          assert Triple(Column(nb, p.col), s) ==> Triple(colLine, s) && InTriple(colLine, s);
        }
      }
    }
    forall p | p in MatchSet(nb)
      ensures false
    {
      MatchSetMembership(nb, p);
    }
  }
}
