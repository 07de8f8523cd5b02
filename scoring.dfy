/** Scoring and special-candy classification: `calculateScore` and
    `determineSpecialCandy` (src/lib/gameLogic.ts:211-239). */
module Scoring {
  import opened GameTypes

  /** The points a clear of `matchCount` cells is worth before the combo
      multiplier: nothing below three. */
  function BaseScore(matchCount: int): (p: int)
    ensures p == 0 || p == 100 || p == 200 || p == 500
    ensures p == 0 <==> matchCount < 3
  {
    if matchCount == 3 then 100
    else if matchCount == 4 then 200
    else if matchCount >= 5 then 500
    else 0
  }

  /** `calculateScore(matchCount, comboMultiplier)`: 100, 200 and 500 points
      per multiplier step for three, four, and five or more cells, and
      nothing for fewer than three. */
  function CalculateScore(matchCount: int, comboMultiplier: int): (points: int)
    ensures matchCount < 3 ==> points == 0
    ensures matchCount == 3 ==> points == 100 * comboMultiplier
    ensures matchCount == 4 ==> points == 200 * comboMultiplier
    ensures matchCount >= 5 ==> points == 500 * comboMultiplier
  {
    BaseScore(matchCount) * comboMultiplier
  }

  /** With a positive multiplier, clearing more cells never scores less, and a
      later wave (larger multiplier) never scores less for the same clear. */
  lemma ScoreMonotone(n1: int, n2: int, m1: int, m2: int)
    requires n1 <= n2 && 0 <= m1 <= m2
    ensures CalculateScore(n1, m1) <= CalculateScore(n2, m2)
  {
    assert BaseScore(n1) <= BaseScore(n2);
    assert BaseScore(n1) * m1 <= BaseScore(n2) * m1;
  }

  /** The distinct values of `f` over `ms`, as the source's `new Set(matches.map(f))`. */
  function Spread(ms: seq<Position>, f: Position -> int): set<int>
  {
    set m | m in ms :: f(m)
  }

  /** A set of values has more than one element iff two of the positions differ. */
  lemma {:induction false} SpreadAboveOne(ms: seq<Position>, f: Position -> int)
    ensures |Spread(ms, f)| > 1 <==> exists i, j :: 0 <= i < |ms| && 0 <= j < |ms| && f(ms[i]) != f(ms[j])
  {
    var S := Spread(ms, f);
    if exists i, j :: 0 <= i < |ms| && 0 <= j < |ms| && f(ms[i]) != f(ms[j]) {
      var i, j :| 0 <= i < |ms| && 0 <= j < |ms| && f(ms[i]) != f(ms[j]);
      assert {f(ms[i]), f(ms[j])} <= S;
      assert |{f(ms[i]), f(ms[j])}| == 2;
      SubsetCard({f(ms[i]), f(ms[j])}, S);
    } else if |ms| == 0 {
      assert S == {};
    } else {
      assert S == {f(ms[0])} by {
        forall x | x in S
          ensures x == f(ms[0])
        {
          var m :| m in ms && f(m) == x;
          var k :| 0 <= k < |ms| && ms[k] == m;
          assert f(ms[k]) == f(ms[0]);
        }
      }
    }
  }

  lemma {:induction false} SubsetCard(A: set<int>, B: set<int>)
    requires A <= B
    ensures |A| <= |B|
  {
    assert B == A + (B - A);
  }

  function Rows(ms: seq<Position>): set<int> {
    Spread(ms, (m: Position) => m.row)
  }

  function Cols(ms: seq<Position>): set<int> {
    Spread(ms, (m: Position) => m.col)
  }

  /** `determineSpecialCandy(matches)`: four cells make a striped candy; five
      make a wrapped candy when they span more than one row and more than one
      column (an L or T) and a colour bomb when they lie on one line; any
      other count makes none. */
  function DetermineSpecialCandy(ms: seq<Position>): (r: Option<SpecialCandyType>)
    ensures |ms| == 4 <==> r == Some(Striped)
    ensures r == Some(Wrapped) <==>
      |ms| == 5 &&
      (exists i, j :: 0 <= i < |ms| && 0 <= j < |ms| && ms[i].row != ms[j].row) &&
      (exists i, j :: 0 <= i < |ms| && 0 <= j < |ms| && ms[i].col != ms[j].col)
    ensures r == Some(ColorBomb) <==>
      |ms| == 5 &&
      ((forall i, j :: 0 <= i < |ms| && 0 <= j < |ms| ==> ms[i].row == ms[j].row) ||
       (forall i, j :: 0 <= i < |ms| && 0 <= j < |ms| ==> ms[i].col == ms[j].col))
    ensures r == None <==> |ms| != 4 && |ms| != 5
  {
    SpreadAboveOne(ms, (m: Position) => m.row);
    SpreadAboveOne(ms, (m: Position) => m.col);
    if |ms| == 4 then Some(Striped)
    else if |ms| == 5 then
      (if |Rows(ms)| > 1 && |Cols(ms)| > 1 then Some(Wrapped) else Some(ColorBomb))
    else None
  }
}
