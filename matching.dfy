/** Match detection: `findMatches` with its run helpers `findHorizontalMatches`
    and `findVerticalMatches` (src/lib/gameLogic.ts:85-162).

    A "line" is one row or one column of the board, read in increasing index
    order. The reference meaning of a match is `Matched`: a position lies in a
    window of three consecutive cells of one line that hold candies of one
    colour. The source instead grows the maximal same-colour run around a cell
    and keeps it when it has at least three cells; `RunOfThreeIffInTriple`
    shows the two agree. */
module Matching {
  import opened GameTypes
  import opened Grid

  /** Cells s, s+1, s+2 of the line hold candies of one colour. */
  predicate Triple(line: seq<Cell>, s: int) {
    0 <= s && s + 2 < |line| &&
    line[s].Some? && SameKind(line[s + 1], line[s].value.kind) && SameKind(line[s + 2], line[s].value.kind)
  }

  /** Index i of the line lies in some same-colour window of three. */
  predicate InTriple(line: seq<Cell>, i: int) {
    Triple(line, i - 2) || Triple(line, i - 1) || Triple(line, i)
  }

  /** Position p is part of a horizontal or vertical run of at least three. */
  predicate Matched(b: Board, p: Position)
    requires WellFormed(b)
  {
    InBounds(p) && (InTriple(b[p.row], p.col) || InTriple(Column(b, p.col), p.row))
  }

  /** All matched positions of the board. */
  function MatchSet(b: Board): set<Position>
    requires WellFormed(b)
  {
    set r, c | 0 <= r < BoardSize && 0 <= c < BoardSize && Matched(b, Position(r, c)) :: Position(r, c)
  }

  lemma MatchSetMembership(b: Board, p: Position)
    requires WellFormed(b)
    ensures p in MatchSet(b) <==> Matched(b, p)
  {
    if Matched(b, p) {
      assert p == Position(p.row, p.col);
    }
  }

  predicate HasMatch(b: Board)
    requires WellFormed(b)
  {
    MatchSet(b) != {}
  }

  /** A matched position is a cell of the board that holds a candy. */
  lemma MatchedIsOccupied(b: Board, p: Position)
    requires WellFormed(b) && Matched(b, p)
    ensures InBounds(p) && b[p.row][p.col].Some?
  {
    var rowLine, colLine := b[p.row], Column(b, p.col);
    assert InTriple(rowLine, p.col) || InTriple(colLine, p.row);
  }

  predicate Distinct<T(==)>(s: seq<T>) {
    forall i, j :: 0 <= i < j < |s| ==> s[i] != s[j]
  }

  /** The number of distinct elements of a duplicate-free sequence is its length. */
  lemma {:induction false} DistinctCard<T>(s: seq<T>)
    requires Distinct(s)
    ensures |set x | x in s| == |s|
  {
    if s != [] {
      DistinctCard(s[1..]);
      var rest := set x | x in s[1..];
      assert (set x | x in s) == rest + {s[0]};
      assert forall j :: 0 <= j < |s| - 1 ==> s[1..][j] == s[j + 1];
      assert s[0] !in rest;
    }
  }

  // ---------------------------------------------------------------------------
  // Maximal runs on a line

  /** The last index of the maximal run of colour t that starts at or covers i,
      scanning towards the end of the line. */
  function RunEnd(line: seq<Cell>, i: int, t: CandyType): (hi: int)
    requires 0 <= i < |line| && SameKind(line[i], t)
    ensures i <= hi < |line|
    ensures forall k :: i <= k <= hi ==> SameKind(line[k], t)
    ensures hi + 1 == |line| || !SameKind(line[hi + 1], t)
    decreases |line| - i
  {
    if i + 1 < |line| && SameKind(line[i + 1], t) then RunEnd(line, i + 1, t) else i
  }

  /** The first index of the maximal run of colour t that covers i, scanning
      towards the start of the line. */
  function RunStart(line: seq<Cell>, i: int, t: CandyType): (lo: int)
    requires 0 <= i < |line| && SameKind(line[i], t)
    ensures 0 <= lo <= i
    ensures forall k :: lo <= k <= i ==> SameKind(line[k], t)
    ensures lo == 0 || !SameKind(line[lo - 1], t)
    decreases i
  {
    if i > 0 && SameKind(line[i - 1], t) then RunStart(line, i - 1, t) else i
  }

  /** Every index of a same-colour segment of length at least three lies in a window of three. */
  lemma SegmentInTriple(line: seq<Cell>, lo: int, hi: int, t: CandyType, k: int)
    requires 0 <= lo && hi < |line| && hi - lo >= 2 && lo <= k <= hi
    requires forall j :: lo <= j <= hi ==> SameKind(line[j], t)
    ensures InTriple(line, k)
  {
    var s := if k + 2 <= hi then k else hi - 2;
    assert SameKind(line[s], t) && SameKind(line[s + 1], t) && SameKind(line[s + 2], t);
    assert Triple(line, s);
  }

  /** A same-colour window of three around i lies inside the maximal run around i. */
  lemma TripleInsideRun(line: seq<Cell>, i: int, s: int)
    requires 0 <= i < |line| && line[i].Some?
    requires Triple(line, s) && s <= i <= s + 2
    ensures var t := line[i].value.kind;
      RunStart(line, i, t) <= s && s + 2 <= RunEnd(line, i, t)
  {
    var t := line[i].value.kind;
    assert SameKind(line[s], t) && SameKind(line[s + 1], t) && SameKind(line[s + 2], t) by {
      assert line[s].value.kind == t by {
        if i == s + 1 { assert SameKind(line[s + 1], line[s].value.kind); }
        if i == s + 2 { assert SameKind(line[s + 2], line[s].value.kind); }
      }
    }
    assert forall k :: s <= k <= s + 2 ==> SameKind(line[k], t);
  }

  /** The maximal run around an occupied cell has at least three cells exactly
      when the cell lies in a same-colour window of three: the source's run
      test and the reference definition of a match agree. */
  lemma RunOfThreeIffInTriple(line: seq<Cell>, i: int)
    requires 0 <= i < |line| && line[i].Some?
    ensures var t := line[i].value.kind;
      RunEnd(line, i, t) - RunStart(line, i, t) >= 2 <==> InTriple(line, i)
  {
    var t := line[i].value.kind;
    var lo, hi := RunStart(line, i, t), RunEnd(line, i, t);
    if hi - lo >= 2 {
      SegmentInTriple(line, lo, hi, t, i);
    }
    if InTriple(line, i) {
      var s :| (i - 2 <= s && s <= i) && Triple(line, s);
      TripleInsideRun(line, i, s);
    }
  }

  // ---------------------------------------------------------------------------
  // The source's run helpers

  /** What the two cursor loops of `findHorizontalMatches` leave behind: the
      cells right of `col` first, then those left of it, together exactly the
      maximal run, which lies in windows of three when it has three cells. */
  lemma HorizontalRunReported(line: seq<Cell>, row: int, col: int, t: CandyType, ms: seq<Position>, right: int)
    requires 0 <= col < |line| && SameKind(line[col], t)
    requires right == RunEnd(line, col, t) - col + 1
    requires |ms| == RunEnd(line, col, t) - RunStart(line, col, t) + 1
    requires forall j :: 0 <= j < right ==> ms[j] == Position(row, col + j)
    requires forall j :: right <= j < |ms| ==> ms[j] == Position(row, col - 1 - (j - right))
    ensures Distinct(ms)
    ensures forall p :: p in ms <==> p.row == row && RunStart(line, col, t) <= p.col <= RunEnd(line, col, t)
    ensures |ms| >= 3 <==> InTriple(line, col)
    ensures |ms| >= 3 ==> forall p :: p in ms ==> InTriple(line, p.col)
  {
    var lo, hi := RunStart(line, col, t), RunEnd(line, col, t);
    forall p: Position | p.row == row && lo <= p.col <= hi
      ensures p in ms
    {
      if p.col >= col { assert ms[p.col - col] == p; }
      else { assert ms[right + (col - 1 - p.col)] == p; }
    }
    RunOfThreeIffInTriple(line, col);
    if |ms| >= 3 {
      forall p | p in ms
        ensures InTriple(line, p.col)
      {
        SegmentInTriple(line, lo, hi, t, p.col);
      }
    }
  }

  /** The same for the two cursor loops of `findVerticalMatches`. */
  lemma VerticalRunReported(line: seq<Cell>, row: int, col: int, t: CandyType, ms: seq<Position>, below: int)
    requires 0 <= row < |line| && SameKind(line[row], t)
    requires below == RunEnd(line, row, t) - row + 1
    requires |ms| == RunEnd(line, row, t) - RunStart(line, row, t) + 1
    requires forall j :: 0 <= j < below ==> ms[j] == Position(row + j, col)
    requires forall j :: below <= j < |ms| ==> ms[j] == Position(row - 1 - (j - below), col)
    ensures Distinct(ms)
    ensures forall p :: p in ms <==> p.col == col && RunStart(line, row, t) <= p.row <= RunEnd(line, row, t)
    ensures |ms| >= 3 <==> InTriple(line, row)
    ensures |ms| >= 3 ==> forall p :: p in ms ==> InTriple(line, p.row)
  {
    var lo, hi := RunStart(line, row, t), RunEnd(line, row, t);
    forall p: Position | p.col == col && lo <= p.row <= hi
      ensures p in ms
    {
      if p.row >= row { assert ms[p.row - row] == p; }
      else { assert ms[below + (row - 1 - p.row)] == p; }
    }
    RunOfThreeIffInTriple(line, row);
    if |ms| >= 3 {
      forall p | p in ms
        ensures InTriple(line, p.row)
      {
        SegmentInTriple(line, lo, hi, t, p.row);
      }
    }
  }

  /** `findHorizontalMatches(board, row, col)`: the maximal horizontal run of
      the colour at (row, col), cells to the right first and then to the left,
      or nothing when the cell is empty or the run is shorter than three. */
  method FindHorizontalMatches(b: Board, row: int, col: int) returns (ms: seq<Position>)
    requires WellFormed(b) && InBounds(Position(row, col))
    ensures Distinct(ms)
    ensures ms != [] ==> |ms| >= 3
    ensures ms != [] <==> InTriple(b[row], col)
    ensures forall p :: p in ms ==> p.row == row && 0 <= p.col < BoardSize && InTriple(b[row], p.col)
    ensures b[row][col].Some? ==>
      var t := b[row][col].value.kind;
      forall p :: p in ms <==> ms != [] && p.row == row && RunStart(b[row], col, t) <= p.col <= RunEnd(b[row], col, t)
  {
    var candy := b[row][col];
    if candy.None? {
      return [];
    }
    var t := candy.value.kind;
    ghost var line := b[row];
    ghost var lo, hi := RunStart(line, col, t), RunEnd(line, col, t);
    ms := [Position(row, col)];
    var cur := col + 1;
    while cur < BoardSize && SameKind(b[row][cur], t)
      invariant col + 1 <= cur <= hi + 1
      invariant |ms| == cur - col
      invariant forall j :: 0 <= j < |ms| ==> ms[j] == Position(row, col + j)
    {
      ms := ms + [Position(row, cur)];
      cur := cur + 1;
    }
    var right := |ms|;
    cur := col - 1;
    while cur >= 0 && SameKind(b[row][cur], t)
      invariant lo - 1 <= cur <= col - 1
      invariant |ms| == right + (col - 1 - cur)
      invariant forall j :: 0 <= j < right ==> ms[j] == Position(row, col + j)
      invariant forall j :: right <= j < |ms| ==> ms[j] == Position(row, col - 1 - (j - right))
    {
      ms := ms + [Position(row, cur)];
      cur := cur - 1;
    }
    assert cur == lo - 1;
    HorizontalRunReported(line, row, col, t, ms, right);
    if |ms| < 3 {
      ms := [];
    }
  }

  /** `findVerticalMatches(board, row, col)`: the same on the column, cells
      below first and then above. */
  method FindVerticalMatches(b: Board, row: int, col: int) returns (ms: seq<Position>)
    requires WellFormed(b) && InBounds(Position(row, col))
    ensures Distinct(ms)
    ensures ms != [] ==> |ms| >= 3
    ensures ms != [] <==> InTriple(Column(b, col), row)
    ensures forall p :: p in ms ==> p.col == col && 0 <= p.row < BoardSize && InTriple(Column(b, col), p.row)
    ensures Column(b, col)[row].Some? ==>
      var t := Column(b, col)[row].value.kind;
      forall p :: p in ms <==> ms != [] && p.col == col && RunStart(Column(b, col), row, t) <= p.row <= RunEnd(Column(b, col), row, t)
  {
    ms := ScanColumn(Column(b, col), row, col);
  }

  /** The scan of `findVerticalMatches` over the cells of column `col`. */
  method ScanColumn(line: seq<Cell>, row: int, col: int) returns (ms: seq<Position>)
    requires |line| == BoardSize && 0 <= row < BoardSize
    ensures Distinct(ms)
    ensures ms != [] ==> |ms| >= 3
    ensures ms != [] <==> InTriple(line, row)
    ensures forall p :: p in ms ==> p.col == col && 0 <= p.row < BoardSize && InTriple(line, p.row)
    ensures line[row].Some? ==>
      var t := line[row].value.kind;
      forall p :: p in ms <==> ms != [] && p.col == col && RunStart(line, row, t) <= p.row <= RunEnd(line, row, t)
  {
    var candy := line[row];
    if candy.None? {
      return [];
    }
    var t := candy.value.kind;
    ghost var lo, hi := RunStart(line, row, t), RunEnd(line, row, t);
    ms := [Position(row, col)];
    var cur := row + 1;
    while cur < BoardSize && SameKind(line[cur], t)
      invariant row + 1 <= cur <= hi + 1
      invariant |ms| == cur - row
      invariant forall j :: 0 <= j < |ms| ==> ms[j] == Position(row + j, col)
    {
      ms := ms + [Position(cur, col)];
      cur := cur + 1;
    }
    var below := |ms|;
    cur := row - 1;
    while cur >= 0 && SameKind(line[cur], t)
      invariant lo - 1 <= cur <= row - 1
      invariant |ms| == below + (row - 1 - cur)
      invariant forall j :: 0 <= j < below ==> ms[j] == Position(row + j, col)
      invariant forall j :: below <= j < |ms| ==> ms[j] == Position(row - 1 - (j - below), col)
    {
      ms := ms + [Position(cur, col)];
      cur := cur - 1;
    }
    assert cur == lo - 1;
    VerticalRunReported(line, row, col, t, ms, below);
    if |ms| < 3 {
      ms := [];
    }
  }

  /** The `forEach` that appends the positions of a run not yet in `matchedSet`. */
  method AddNew(ms: seq<Position>, seen: set<Position>, run: seq<Position>) returns (ms': seq<Position>, seen': set<Position>)
    requires Distinct(ms) && forall p :: p in seen <==> p in ms
    ensures Distinct(ms') && forall p :: p in seen' <==> p in ms'
    ensures forall p :: p in ms' <==> p in ms || p in run
    ensures |ms| <= |ms'| && ms'[..|ms|] == ms
  {
    ms', seen' := ms, seen;
    for i := 0 to |run|
      invariant Distinct(ms') && forall p :: p in seen' <==> p in ms'
      invariant forall p :: p in ms' <==> p in ms || p in run[..i]
      invariant |ms| <= |ms'| && ms'[..|ms|] == ms
    {
      var pos := run[i];
      if pos !in seen' {
        seen' := seen' + {pos};
        ms' := ms' + [pos];
      }
      assert run[..i + 1] == run[..i] + [run[i]];
    }
    assert run[..|run|] == run;
  }

  /** `findMatches(board)`: every matched position, each once. */
  method FindMatches(b: Board) returns (ms: seq<Position>)
    requires WellFormed(b)
    ensures Distinct(ms)
    ensures forall p :: p in ms <==> Matched(b, p)
  {
    ms := [];
    var seen: set<Position> := {};
    for row := 0 to BoardSize
      invariant Distinct(ms) && forall p :: p in seen <==> p in ms
      invariant forall p :: p in ms ==> Matched(b, p)
      invariant forall p :: Matched(b, p) && p.row < row ==> p in ms
    {
      for col := 0 to BoardSize
        invariant Distinct(ms) && forall p :: p in seen <==> p in ms
        invariant forall p :: p in ms ==> Matched(b, p)
        invariant forall p :: Matched(b, p) && (p.row < row || (p.row == row && p.col < col)) ==> p in ms
      {
        if b[row][col].Some? {
          var horizontal := FindHorizontalMatches(b, row, col);
          var vertical := FindVerticalMatches(b, row, col);
          if |horizontal| >= 3 {
            ms, seen := AddNew(ms, seen, horizontal);
          }
          if |vertical| >= 3 {
            ms, seen := AddNew(ms, seen, vertical);
          }
          assert Matched(b, Position(row, col)) ==> Position(row, col) in ms by {
            if InTriple(b[row], col) {
              assert horizontal != [];
            }
            if InTriple(Column(b, col), row) {
              assert vertical != [];
            }
          }
        } else {
          assert !InTriple(b[row], col) && !InTriple(Column(b, col), row);
        }
      }
    }
  }

  /** The match list found on a board holds exactly `MatchSet` and has its size. */
  lemma FoundMatchesAreMatchSet(b: Board, ms: seq<Position>)
    requires WellFormed(b)
    requires Distinct(ms) && forall p :: p in ms <==> Matched(b, p)
    ensures (set p | p in ms) == MatchSet(b)
    ensures |ms| == |MatchSet(b)|
    ensures ms != [] <==> HasMatch(b)
  {
    forall p
      ensures p in ms <==> p in MatchSet(b)
    {
      MatchSetMembership(b, p);
    }
    assert (set p | p in ms) == MatchSet(b);
    DistinctCard(ms);
    if ms == [] {
      assert (set p | p in ms) == {};
    } else {
      assert ms[0] in (set p | p in ms);
    }
  }
}
