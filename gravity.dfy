/** Column-wise gravity: `applyGravity` (src/lib/gameLogic.ts:174-195).

    Each column is compacted independently: its tiles keep their top-to-bottom
    order and end up contiguous at the bottom, empty cells above them. The
    source updates a tile's `row` only when the tile actually moves, so a tile
    already in place keeps whatever `row` it had; the model does the same. */
module Gravity {
  import opened GameTypes
  import opened Grid

  /** The indices at or after k of the occupied cells of a column, top to bottom. */
  function OccFrom(s: seq<Cell>, k: int): (I: seq<int>)
    requires 0 <= k <= |s|
    ensures |I| <= |s| - k
    ensures forall i :: 0 <= i < |I| ==> k <= I[i] < |s| && s[I[i]].Some?
    decreases |s| - k
  {
    if k == |s| then [] else (if s[k].Some? then [k] else []) + OccFrom(s, k + 1)
  }

  /** The occupied indices are listed in strictly increasing order. */
  lemma {:induction false} OccFromIncreasing(s: seq<Cell>, k: int)
    requires 0 <= k <= |s|
    ensures forall i, j :: 0 <= i < j < |OccFrom(s, k)| ==> OccFrom(s, k)[i] < OccFrom(s, k)[j]
    decreases |s| - k
  {
    if k < |s| {
      OccFromIncreasing(s, k + 1);
      var rest := OccFrom(s, k + 1);
      var I := OccFrom(s, k);
      if s[k].Some? {
        assert I == [k] + rest;
        forall i, j | 0 <= i < j < |I|
          ensures I[i] < I[j]
        {
          assert I[j] == rest[j - 1];
          if i > 0 {
            assert I[i] == rest[i - 1];
            assert rest[i - 1] < rest[j - 1];
          } else {
            assert I[i] == k;
            assert k + 1 <= rest[j - 1];
          }
        }
      } else {
        assert I == rest;
      }
    }
  }

  /** The tile from index k placed at row r; its `row` is rewritten only if it moved. */
  function MoveTo(s: seq<Cell>, k: int, r: int): Cell
    requires 0 <= k < |s| && s[k].Some?
  {
    Some(if k == r then s[k].value else s[k].value.(row := r))
  }

  /** A column after gravity: empty cells on top, then the tiles in their old order. */
  function FallCol(s: seq<Cell>): (f: seq<Cell>)
    ensures |f| == |s|
  {
    var I := OccFrom(s, 0);
    var base := |s| - |I|;
    seq(|s|, r requires 0 <= r < |s| => if r < base then None else MoveTo(s, I[r - base], r))
  }

  /** Cell r of a fallen column, spelled out. */
  lemma FallColAt(s: seq<Cell>, r: int)
    requires 0 <= r < |s|
    ensures var I := OccFrom(s, 0); var base := |s| - |I|;
      FallCol(s)[r] == if r < base then None else MoveTo(s, I[r - base], r)
  {
  }

  /** The board after gravity, column by column. */
  function Fallen(b: Board): (nb: Board)
    requires WellFormed(b)
    ensures WellFormed(nb)
  {
    seq(BoardSize, r requires 0 <= r < BoardSize =>
      seq(BoardSize, c requires 0 <= c < BoardSize => FallCol(Column(b, c))[r]))
  }

  /** The cursor of the scan once rows k.. have been visited: the lowest row
      not yet holding a settled tile. */
  function Cursor(s: seq<Cell>, k: int): (e: int)
    requires 0 <= k <= |s|
    ensures k - 1 <= e <= |s| - 1
  {
    |s| - 1 - |OccFrom(s, k)|
  }

  /** A column part-way through the scan: rows above `k` not yet visited,
      rows from `k` to the cursor emptied, and below the cursor the tiles met
      so far, packed at the bottom. */
  ghost function Pending(s: seq<Cell>, k: int): (p: seq<Cell>)
    requires 0 <= k <= |s|
    ensures |p| == |s|
  {
    var I := OccFrom(s, k);
    var e := Cursor(s, k);
    seq(|s|, r requires 0 <= r < |s| => if r < k then s[r] else if r <= e then None else MoveTo(s, I[r - e - 1], r))
  }

  /** Visiting row k - 1 of the scan: an empty cell changes nothing; a tile
      already at the cursor stays; any other tile moves down to the cursor,
      takes the cursor's row, and leaves its cell empty. Each tile moves the
      cursor up by one. */
  lemma {:induction false} PendingStep(s: seq<Cell>, k: int)
    requires 0 < k <= |s|
    ensures Cursor(s, k - 1) == Cursor(s, k) - (if s[k - 1].Some? then 1 else 0)
    ensures s[k - 1].None? || k - 1 == Cursor(s, k) ==> Pending(s, k - 1) == Pending(s, k)
    ensures s[k - 1].Some? && k - 1 != Cursor(s, k) ==>
      var e := Cursor(s, k);
      Pending(s, k - 1) == Pending(s, k)[e := Some(s[k - 1].value.(row := e))][k - 1 := None]
  {
    var e := Cursor(s, k);
    var I := OccFrom(s, k);
    var I' := OccFrom(s, k - 1);
    assert I' == (if s[k - 1].Some? then [k - 1] else []) + I;
    var p := Pending(s, k);
    if s[k - 1].Some? {
      var q := Pending(s, k - 1);
      assert Cursor(s, k - 1) == e - 1;
      forall r | 0 <= r < |s|
        ensures q[r] == (if r == k - 1 && k - 1 != e then None else if r == e then MoveTo(s, k - 1, e) else p[r])
      {
        if r > e {
          assert I'[r - (e - 1) - 1] == I[r - e - 1];
        }
      }
      if k - 1 != e {
        assert q == p[e := Some(s[k - 1].value.(row := e))][k - 1 := None];
      } else {
        assert q == p;
      }
    } else {
      assert Pending(s, k - 1) == p;
    }
  }

  /** The scan's end state is the fallen column. */
  lemma PendingDone(s: seq<Cell>)
    ensures Pending(s, 0) == FallCol(s)
  {
  }

  /** Column c of the fallen board is column c fallen. */
  lemma FallenColumn(b: Board, c: int)
    requires WellFormed(b) && 0 <= c < BoardSize
    ensures Column(Fallen(b), c) == FallCol(Column(b, c))
  {
  }

  /** `applyGravity(board)`: settle the columns one by one. */
  method ApplyGravity(b: Board) returns (nb: Board)
    requires WellFormed(b)
    ensures nb == Fallen(b)
  {
    nb := b;
    for col := 0 to BoardSize
      invariant WellFormed(nb)
      invariant forall c :: 0 <= c < col ==> Column(nb, c) == FallCol(Column(b, c))
      invariant forall c :: col <= c < BoardSize ==> Column(nb, c) == Column(b, c)
    {
      nb := SettleColumn(nb, col);
    }
    forall c | 0 <= c < BoardSize
      ensures Column(nb, c) == Column(Fallen(b), c)
    {
      FallenColumn(b, c);
    }
    ColumnsExt(nb, Fallen(b));
  }

  /** The body of `applyGravity`'s column loop: scan column `col` upwards with
      a cursor `emptyRow` at the lowest free cell, moving each tile found down
      to it and setting its `row`. */
  method SettleColumn(b: Board, col: int) returns (nb: Board)
    requires WellFormed(b) && 0 <= col < BoardSize
    ensures WellFormed(nb)
    ensures Column(nb, col) == FallCol(Column(b, col))
    ensures forall c :: 0 <= c < BoardSize && c != col ==> Column(nb, c) == Column(b, c)
  {
    nb := b;
    ghost var s := Column(b, col);
    var emptyRow := BoardSize - 1;
    assert Pending(s, BoardSize) == s;
    for row := BoardSize downto 0
      invariant WellFormed(nb)
      invariant forall c :: 0 <= c < BoardSize && c != col ==> Column(nb, c) == Column(b, c)
      invariant emptyRow == Cursor(s, row)
      invariant Column(nb, col) == Pending(s, row)
    {
      PendingStep(s, row + 1);
      assert nb[row][col] == Column(nb, col)[row] == s[row];
      if nb[row][col] != None {
        if row != emptyRow {
          nb := DropTile(nb, col, row, emptyRow);
        }
        emptyRow := emptyRow - 1;
      }
    }
    PendingDone(s);
  }

  /** One step of the scan: the tile at `row` moves down to the cursor
      `emptyRow`, learns its new row, and leaves its own cell empty. */
  method DropTile(b: Board, col: int, row: int, emptyRow: int) returns (nb: Board)
    requires WellFormed(b) && 0 <= col < BoardSize
    requires 0 <= row < emptyRow < BoardSize && b[row][col].Some?
    ensures WellFormed(nb)
    ensures Column(nb, col) == Column(b, col)[emptyRow := Some(b[row][col].value.(row := emptyRow))][row := None]
    ensures forall c :: 0 <= c < BoardSize && c != col ==> Column(nb, c) == Column(b, c)
  {
    ghost var before := Column(b, col);
    ghost var landed := Some(b[row][col].value.(row := emptyRow));
    SetCellColumns(b, Position(emptyRow, col), b[row][col]);
    nb := SetCell(b, Position(emptyRow, col), b[row][col]);
    if nb[emptyRow][col].Some? {
      SetCellColumns(nb, Position(emptyRow, col), Some(nb[emptyRow][col].value.(row := emptyRow)));
      nb := SetCell(nb, Position(emptyRow, col), Some(nb[emptyRow][col].value.(row := emptyRow)));
    }
    assert Column(nb, col) == before[emptyRow := landed];
    SetCellColumns(nb, Position(row, col), None);
    nb := SetCell(nb, Position(row, col), None);
  }

  // ---------------------------------------------------------------------------
  // What gravity guarantees

  /** No empty cell lies below a tile. */
  predicate Settled(s: seq<Cell>) {
    forall r1, r2 :: 0 <= r1 < r2 < |s| && s[r1].Some? ==> s[r2].Some?
  }

  /** The tiles of a column, top to bottom. */
  function Tiles(s: seq<Cell>): (ts: seq<Candy>)
    ensures |ts| == |OccFrom(s, 0)|
  {
    var I := OccFrom(s, 0);
    seq(|I|, i requires 0 <= i < |I| => s[I[i]].value)
  }

  /** Everything about a tile except the row it believes it is in. */
  function Identity(c: Candy): (int, CandyType, Option<SpecialCandyType>, int) {
    (c.id, c.kind, c.special, c.col)
  }

  /** In a column whose cells below `base` are empty and from `base` on are
      occupied, the occupied indices at or after k are the run from max(k, base). */
  lemma {:induction false} OccOfSettled(t: seq<Cell>, base: int, k: int)
    requires 0 <= base <= |t| && 0 <= k <= |t|
    requires forall r :: 0 <= r < |t| ==> (t[r].Some? <==> r >= base)
    ensures var m := if k < base then base else k;
      |OccFrom(t, k)| == |t| - m && forall i :: 0 <= i < |t| - m ==> OccFrom(t, k)[i] == m + i
    decreases |t| - k
  {
    if k < |t| {
      OccOfSettled(t, base, k + 1);
      var rest := OccFrom(t, k + 1);
      var I := OccFrom(t, k);
      if k < base {
        assert t[k].None?;
        assert I == rest;
      } else {
        assert t[k].Some?;
        assert I == [k] + rest;
        assert |rest| == |t| - (k + 1);
        forall i | 0 <= i < |t| - k
          ensures I[i] == k + i
        {
          if i > 0 {
            assert I[i] == rest[i - 1];
          }
        }
      }
    }
  }

  /** Gravity's result is settled, keeps the number of tiles, and lists the
      same tiles in the same order (their rows aside). */
  lemma FallColShape(s: seq<Cell>)
    ensures var f := FallCol(s);
      && Settled(f)
      && |OccFrom(f, 0)| == |OccFrom(s, 0)|
      && |Tiles(f)| == |Tiles(s)|
      && forall i :: 0 <= i < |Tiles(s)| ==> Identity(Tiles(f)[i]) == Identity(Tiles(s)[i])
  {
    var f := FallCol(s);
    var I := OccFrom(s, 0);
    var base := |s| - |I|;
    forall r | 0 <= r < |f|
      ensures f[r].Some? <==> r >= base
    {
      FallColAt(s, r);
    }
    OccOfSettled(f, base, 0);
    var J := OccFrom(f, 0);
    forall i | 0 <= i < |Tiles(s)|
      ensures Identity(Tiles(f)[i]) == Identity(Tiles(s)[i])
    {
      FallColAt(s, base + i);
      assert J[i] == base + i;
      assert Tiles(f)[i] == f[base + i].value;
    }
  }

  /** The i-th tile of a column lands at row base + i, and its `row` field
      says so unless it was already there and did not move. */
  lemma FallColRow(s: seq<Cell>, i: int)
    requires 0 <= i < |OccFrom(s, 0)|
    ensures var I := OccFrom(s, 0); var r := |s| - |I| + i; var f := FallCol(s);
      f[r].Some? && Identity(f[r].value) == Identity(s[I[i]].value) &&
      (I[i] == r || f[r].value.row == r)
  {
    FallColAt(s, |s| - |OccFrom(s, 0)| + i);
  }

  /** Gravity never moves a tile up: each tile lands at or below where it was. */
  lemma {:induction false} FallColMovesDown(s: seq<Cell>)
    ensures var I := OccFrom(s, 0); var base := |s| - |I|;
      forall i :: 0 <= i < |I| ==> I[i] <= base + i
  {
    var I := OccFrom(s, 0);
    var base := |s| - |I|;
    OccFromIncreasing(s, 0);
    forall i | 0 <= i < |I|
      ensures I[i] <= base + i
    {
      IncreasingTail(I, i, |s|);
    }
  }

  /** In a strictly increasing sequence of indices below n, the i-th is at most n - (|I| - i). */
  lemma {:induction false} IncreasingTail(I: seq<int>, i: int, n: int)
    requires 0 <= i < |I|
    requires forall a, b :: 0 <= a < b < |I| ==> I[a] < I[b]
    requires forall a :: 0 <= a < |I| ==> I[a] < n
    ensures I[i] <= n - (|I| - i)
    decreases |I| - i
  {
    if i + 1 < |I| {
      IncreasingTail(I, i + 1, n);
    }
  }

  /** Gravity on a settled column changes nothing but stale rows; applied
      twice it is the same as applied once. */
  lemma FallColIdempotent(s: seq<Cell>)
    ensures FallCol(FallCol(s)) == FallCol(s)
  {
    var f := FallCol(s);
    var I := OccFrom(s, 0);
    var base := |s| - |I|;
    forall r | 0 <= r < |f|
      ensures f[r].Some? <==> r >= base
    {
      FallColAt(s, r);
    }
    OccOfSettled(f, base, 0);
    var ff := FallCol(f);
    forall r | 0 <= r < |s|
      ensures ff[r] == f[r]
    {
      FallColAt(f, r);
    }
  }

  /** A column whose tiles know their rows keeps that property under gravity. */
  lemma FallColKeepsRows(s: seq<Cell>)
    requires forall r :: 0 <= r < |s| && s[r].Some? ==> s[r].value.row == r
    ensures var f := FallCol(s); forall r :: 0 <= r < |f| && f[r].Some? ==> f[r].value.row == r
  {
    forall r | 0 <= r < |s|
      ensures FallCol(s)[r].Some? ==> FallCol(s)[r].value.row == r
    {
      FallColAt(s, r);
    }
  }

  /** Board-level consequences: every column of the result is settled and
      holds as many tiles as before, in the same order. */
  lemma FallenShape(b: Board)
    requires WellFormed(b)
    ensures forall c :: 0 <= c < BoardSize ==> Settled(Column(Fallen(b), c))
    ensures forall c :: 0 <= c < BoardSize ==> |Tiles(Column(Fallen(b), c))| == |Tiles(Column(b, c))|
    ensures forall c, i :: 0 <= c < BoardSize && 0 <= i < |Tiles(Column(b, c))| ==>
      Identity(Tiles(Column(Fallen(b), c))[i]) == Identity(Tiles(Column(b, c))[i])
  {
    forall c | 0 <= c < BoardSize
      ensures Settled(Column(Fallen(b), c)) && |Tiles(Column(Fallen(b), c))| == |Tiles(Column(b, c))|
      ensures forall i :: 0 <= i < |Tiles(Column(b, c))| ==>
        Identity(Tiles(Column(Fallen(b), c))[i]) == Identity(Tiles(Column(b, c))[i])
    {
      FallenColumn(b, c);
      FallColShape(Column(b, c));
    }
  }

  /** A board whose tiles know their cells still does after gravity. */
  lemma FallenKeepsCoordinatesAgreeing(b: Board)
    requires WellFormed(b) && CoordinatesAgree(b)
    ensures CoordinatesAgree(Fallen(b))
  {
    var nb: Board := Fallen(b);
    forall r: int, c: int | 0 <= r < BoardSize && 0 <= c < BoardSize && nb[r][c].Some?
      ensures nb[r][c].value.row == r && nb[r][c].value.col == c
    {
      var s := Column(b, c);
      FallColKeepsRows(s);
      FallColAt(s, r);
      var I := OccFrom(s, 0);
      assert nb[r][c] == FallCol(s)[r] == MoveTo(s, I[r - (|s| - |I|)], r);
    }
  }

  /** Gravity moves tiles but creates none, so every id stays below the counter. */
  lemma FallenKeepsIdsBelow(b: Board, n: int)
    requires WellFormed(b) && IdsBelow(b, n)
    ensures IdsBelow(Fallen(b), n)
  {
    var nb: Board := Fallen(b);
    forall r: int, c: int | 0 <= r < BoardSize && 0 <= c < BoardSize && nb[r][c].Some?
      ensures nb[r][c].value.id < n
    {
      var s := Column(b, c);
      FallColAt(s, r);
      var I := OccFrom(s, 0);
      var k := I[r - (|s| - |I|)];
      assert nb[r][c] == FallCol(s)[r] == MoveTo(s, k, r);
      assert s[k] == b[k][c];
    }
  }
}
