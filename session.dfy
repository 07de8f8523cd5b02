/** The game session of src/pages/Game.tsx, stripped of React: one record of
    state (`GameState`, src/types/game.ts:20-31) updated field by field by the
    click handler, the cascade, the status effect, pause, restart and next level.

    Each `await`ed delay of the source is dropped and every wave of the cascade
    runs as one sequential step; the feedback toast of a click is returned as
    a `ClickOutcome`, and the reshuffle and end-of-game toasts are dropped. */
module Session {
  import opened GameTypes
  import opened Grid
  import opened Matching
  import opened Swap
  import opened Generation
  import opened Clearing
  import opened Gravity
  import opened Refill
  import opened Scoring
  import opened Moves
  import opened Levels
  import opened Counting

  /** What a click did: nothing (input locked), a selection change, or a swap
      attempt that was rejected ("Invalid move") or accepted. */
  datatype ClickOutcome = Ignored | Selected | Deselected | Reselected | Rejected | Accepted

  /** The status `useEffect`: only a playing game changes status; reaching the
      target wins (even mid-cascade), otherwise running out of moves with no
      cascade in flight loses. */
  function StatusEffect(status: GameStatus, score: int, targetScore: int, moves: int, isProcessing: bool): (r: GameStatus)
    ensures status != Playing ==> r == status
    ensures status == Playing ==> (r == Won <==> score >= targetScore)
    ensures status == Playing ==> (r == Lost <==> score < targetScore && moves <= 0 && !isProcessing)
    ensures r == Paused <==> status == Paused
  {
    if status != Playing then status
    else if score >= targetScore then Won
    else if moves <= 0 && !isProcessing then Lost
    else Playing
  }

  /** Re-running the effect after its own update changes nothing more. */
  lemma StatusEffectSettles(status: GameStatus, score: int, targetScore: int, moves: int, isProcessing: bool)
    ensures var s := StatusEffect(status, score, targetScore, moves, isProcessing);
      StatusEffect(s, score, targetScore, moves, isProcessing) == s
  {
  }

  /** `handlePause`: paused resumes to playing; every other status, won and
      lost included, becomes paused. */
  function TogglePaused(status: GameStatus): (r: GameStatus)
    ensures r == Playing <==> status == Paused
    ensures r == Paused <==> status != Paused
  {
    if status == Paused then Playing else Paused
  }

  /** The handler alone, applied twice, restores a playing or paused game and
      turns a finished one into playing; the status effect that runs after
      each change restores the finished status (`PauseResumeRestores`). */
  lemma PauseTwice(status: GameStatus)
    ensures TogglePaused(TogglePaused(status)) == if status == Paused then Paused else Playing
  {
  }

  /** Pause then resume, each followed by the status effect, gives back any
      status the effect has settled from play: a game still being played,
      and a won or lost game, which the effect decides again on resuming. */
  lemma PauseResumeRestores(status: GameStatus, score: int, targetScore: int, moves: int, isProcessing: bool)
    requires status == StatusEffect(Playing, score, targetScore, moves, isProcessing)
    ensures var paused := StatusEffect(TogglePaused(status), score, targetScore, moves, isProcessing);
      && paused == Paused
      && StatusEffect(TogglePaused(paused), score, targetScore, moves, isProcessing) == status
  {
  }

  /** The board after one cascade wave: matched cells cleared, gravity
      applied, empty cells refilled from draw index `start` on. */
  ghost function WaveBoard(b: Board, draw: nat -> CandyType, start: nat): (nb: Board)
    requires WellFormed(b)
    ensures WellFormed(nb)
  {
    Refilled(Fallen(Cleared(b, MatchSet(b))), draw, start)
  }

  /** The first draw index left unused after one wave from board b: one
      index per matched cell (`WaveDrawsPerMatch` shows that this is what
      refilling a full board after the clear and gravity draws). */
  function WaveNext(b: Board, start: nat): nat
    requires WellFormed(b)
  {
    start + |MatchSet(b)|
  }

  /** A wave creates tiles only from the indices it draws, so ids stay below
      the counter. */
  lemma WaveKeepsIdsBelow(b: Board, draw: nat -> CandyType, start: nat)
    requires WellFormed(b) && Full(b) && IdsBelow(b, start)
    ensures IdsBelow(WaveBoard(b, draw, start), WaveNext(b, start))
  {
    WaveDrawsPerMatch(b);
    var cleared := Cleared(b, MatchSet(b));
    ClearingKeepsIdsBelow(b, MatchSet(b), start);
    FallenKeepsIdsBelow(cleared, start);
    RefillIdsBelow(Fallen(cleared), draw, start);
  }

  /** The calls left to a cascade after one more: `fuel - 1`. */
  function Spend(fuel: nat): (left: nat)
    requires fuel > 0
    ensures left < fuel
  {
    fuel - 1
  }

  /** The cascade `processMatches(b, k)` and its self-recursion, cut off after
      `fuel` calls: the points it earns, each wave scored at one more than the
      wave before. From a non-negative multiplier it never costs points and
      earns at least its first wave's points. */
  ghost function CascadeGain(b: Board, draw: nat -> CandyType, start: nat, k: int, fuel: nat): (gain: int)
    requires WellFormed(b)
    ensures k >= 0 ==> gain >= 0
    ensures k >= 0 && fuel > 0 && HasMatch(b) ==> gain >= CalculateScore(|MatchSet(b)|, k)
    decreases fuel
  {
    if fuel == 0 || !HasMatch(b) then 0
    else CalculateScore(|MatchSet(b)|, k) + CascadeGain(WaveBoard(b, draw, start), draw, WaveNext(b, start), k + 1, Spend(fuel))
  }

  /** The board the cascade stops at: the first one without a match, or the
      board left when the fuel runs out. */
  ghost function CascadeBoard(b: Board, draw: nat -> CandyType, start: nat, fuel: nat): (last: Board)
    requires WellFormed(b)
    ensures WellFormed(last)
    decreases fuel
  {
    if fuel == 0 || !HasMatch(b) then b
    else CascadeBoard(WaveBoard(b, draw, start), draw, WaveNext(b, start), Spend(fuel))
  }

  /** The first draw index left unused when the cascade stops. */
  ghost function CascadeNext(b: Board, draw: nat -> CandyType, start: nat, fuel: nat): (next: nat)
    requires WellFormed(b)
    ensures next >= start
    decreases fuel
  {
    if fuel == 0 || !HasMatch(b) then start
    else CascadeNext(WaveBoard(b, draw, start), draw, WaveNext(b, start), Spend(fuel))
  }

  /** The cascade reaches a board without a match within `fuel` calls. */
  ghost predicate CascadeSettles(b: Board, draw: nat -> CandyType, start: nat, fuel: nat)
    requires WellFormed(b)
    decreases fuel
  {
    fuel > 0 && (!HasMatch(b) || CascadeSettles(WaveBoard(b, draw, start), draw, WaveNext(b, start), Spend(fuel)))
  }

  /**
   * The rest of a cascade from `b`: it earns `gain`, settles or not as
   * `settles` says, and stops at board `last` with next draw index `lastNext`.
   */
  ghost predicate CascadeFrom(b: Board, draw: nat -> CandyType, start: nat, k: int, fuel: nat,
                              gain: int, settles: bool, last: Board, lastNext: nat)
    requires WellFormed(b)
  {
    && gain == CascadeGain(b, draw, start, k, fuel)
    && settles == CascadeSettles(b, draw, start, fuel)
    && last == CascadeBoard(b, draw, start, fuel)
    && lastNext == CascadeNext(b, draw, start, fuel)
  }

  /** The whole of a cascade, as `CascadeFrom` describes it. */
  lemma CascadeBegin(b: Board, draw: nat -> CandyType, start: nat, k: int, fuel: nat)
    returns (gain: int, settles: bool, last: Board, lastNext: nat)
    requires WellFormed(b)
    ensures CascadeFrom(b, draw, start, k, fuel, gain, settles, last, lastNext)
    ensures gain == CascadeGain(b, draw, start, k, fuel) && settles == CascadeSettles(b, draw, start, fuel)
    ensures last == CascadeBoard(b, draw, start, fuel) && lastNext == CascadeNext(b, draw, start, fuel)
  {
    gain, settles := CascadeGain(b, draw, start, k, fuel), CascadeSettles(b, draw, start, fuel);
    last, lastNext := CascadeBoard(b, draw, start, fuel), CascadeNext(b, draw, start, fuel);
  }

  /** A cascade with fuel left from a board with a match plays one wave and
      goes on from the board and draw index that wave leaves. */
  lemma CascadeUnfold(b: Board, draw: nat -> CandyType, start: nat, k: int, fuel: nat)
    requires WellFormed(b) && fuel > 0 && HasMatch(b)
    ensures var nb, next := WaveBoard(b, draw, start), WaveNext(b, start);
      && CascadeGain(b, draw, start, k, fuel) == CalculateScore(|MatchSet(b)|, k) + CascadeGain(nb, draw, next, k + 1, Spend(fuel))
      && CascadeSettles(b, draw, start, fuel) == CascadeSettles(nb, draw, next, Spend(fuel))
      && CascadeBoard(b, draw, start, fuel) == CascadeBoard(nb, draw, next, Spend(fuel))
      && CascadeNext(b, draw, start, fuel) == CascadeNext(nb, draw, next, Spend(fuel))
  {
  }

  /** One wave of a cascade: its points are earned, the rest continues from the next board. */
  lemma CascadeStep(b: Board, draw: nat -> CandyType, start: nat, k: int, fuel: nat,
                    gain: int, settles: bool, last: Board, lastNext: nat)
    returns (gain': int)
    requires WellFormed(b) && fuel > 0 && HasMatch(b)
    requires CascadeFrom(b, draw, start, k, fuel, gain, settles, last, lastNext)
    ensures gain == CalculateScore(|MatchSet(b)|, k) + gain'
    ensures CascadeFrom(WaveBoard(b, draw, start), draw, WaveNext(b, start), k + 1, Spend(fuel), gain', settles, last, lastNext)
  {
    CascadeUnfold(b, draw, start, k, fuel);
    gain' := CascadeGain(WaveBoard(b, draw, start), draw, WaveNext(b, start), k + 1, Spend(fuel));
  }

  /** Where a cascade stops: no more points, and the board and index it stops at. */
  lemma CascadeStop(b: Board, draw: nat -> CandyType, start: nat, k: int, fuel: nat,
                    gain: int, settles: bool, last: Board, lastNext: nat)
    requires WellFormed(b) && (fuel == 0 || !HasMatch(b))
    requires CascadeFrom(b, draw, start, k, fuel, gain, settles, last, lastNext)
    ensures gain == 0 && settles == (fuel > 0) && last == b && lastNext == start
  {
  }

  /** A cascade that settles stops at a board without a match. */
  lemma {:induction false} SettledCascadeHasNoMatch(b: Board, draw: nat -> CandyType, start: nat, fuel: nat)
    requires WellFormed(b) && CascadeSettles(b, draw, start, fuel)
    ensures !HasMatch(CascadeBoard(b, draw, start, fuel))
    decreases fuel
  {
    if HasMatch(b) {
      SettledCascadeHasNoMatch(WaveBoard(b, draw, start), draw, WaveNext(b, start), Spend(fuel));
    }
  }

  /** A wave keeps every tile's coordinates equal to its cell. */
  lemma WaveKeepsCoordinatesAgreeing(b: Board, draw: nat -> CandyType, start: nat)
    requires WellFormed(b) && CoordinatesAgree(b)
    ensures CoordinatesAgree(WaveBoard(b, draw, start))
  {
    var cleared := Cleared(b, MatchSet(b));
    ClearingKeepsCoordinatesAgreeing(b, MatchSet(b));
    FallenKeepsCoordinatesAgreeing(cleared);
    RefillKeepsCoordinatesAgreeing(Fallen(cleared), draw, start);
  }

  /** A wave on a full board whose tiles know their cells and carry ids below
      `start` leaves a board with the same three properties, ids now below
      `WaveNext(b, start)`, and that index is where refilling stops. */
  lemma WaveKeepsBoardInvariant(b: Board, draw: nat -> CandyType, start: nat)
    requires WellFormed(b) && Full(b) && CoordinatesAgree(b) && IdsBelow(b, start)
    ensures var nb := WaveBoard(b, draw, start);
      Full(nb) && CoordinatesAgree(nb) && IdsBelow(nb, WaveNext(b, start))
    ensures start + NullsInCols(Fallen(Cleared(b, MatchSet(b))), BoardSize) == WaveNext(b, start)
  {
    WaveKeepsCoordinatesAgreeing(b, draw, start);
    WaveKeepsIdsBelow(b, draw, start);
    WaveDrawsPerMatch(b);
  }

  /** The board work of one wave: clear the matched cells, let the tiles
      fall, refill from draw index `start`; `next` is the first index left. */
  method RunWave(b: Board, matches: seq<Position>, draw: nat -> CandyType, start: nat) returns (nb: Board, next: nat)
    requires WellFormed(b) && Full(b) && CoordinatesAgree(b) && IdsBelow(b, start)
    requires Distinct(matches) && forall p :: p in matches <==> Matched(b, p)
    ensures nb == WaveBoard(b, draw, start) && Full(nb) && CoordinatesAgree(nb)
    ensures next == WaveNext(b, start) && IdsBelow(nb, next)
  {
    FoundMatchesAreMatchSet(b, matches);
    var clearedBoard := RemoveMatches(b, matches);
    var fallenBoard := ApplyGravity(clearedBoard);
    nb, next := FillEmptySpaces(fallenBoard, draw, start);
    WaveKeepsBoardInvariant(b, draw, start);
  }

  /** The `GameState` record with its handlers. `draw` is the colour source
      every created candy takes its colour from, and `nextDraw` the index of
      the next candy to be created (also its id). */
  class Game {
    var board: Board
    var score: int
    var moves: int
    var level: int
    var targetScore: int
    var maxMoves: int
    var selected: Option<Position>
    var isProcessing: bool
    var status: GameStatus
    var comboMultiplier: int
    const draw: nat -> CandyType
    var nextDraw: nat

    /** The board is 8x8 with a tile in every cell, its tiles know their
        cells and carry ids already handed out; level, target and move budget come from the level table;
        the move count never exceeds the budget; a selection is a cell of the
        board. */
    ghost predicate Valid()
      reads this
    {
      && WellFormed(board) && Full(board) && CoordinatesAgree(board) && IdsBelow(board, nextDraw) && Fair(draw)
      && level >= 1
      && GetLevelConfig(level).Some?
      && targetScore == GetLevelConfig(level).value.targetScore
      && maxMoves == GetLevelConfig(level).value.maxMoves
      && moves <= maxMoves
      && (selected.Some? ==> InBounds(selected.value))
    }

    /** The record as `initializeGame(level)` builds it, with a board
        generated from draw index `start` on: match-free, score 0, the level's
        target and full move budget, no selection, nothing in flight,
        playing, multiplier 1. */
    ghost predicate FreshGame(level: int, start: nat)
      reads this
    {
      && Valid()
      && this.level == level
      && Generated(board, draw, start, nextDraw) && !HasMatch(board)
      && score == 0
      && targetScore == GetLevelConfig(level).value.targetScore
      && moves == maxMoves == GetLevelConfig(level).value.maxMoves
      && selected == None && !isProcessing && status == Playing && comboMultiplier == 1
    }

    /** A session opened at `level` (the source starts at level 1, or at the
        level its saved progress names); its first candy has id 0. */
    constructor (level: int, draw: nat -> CandyType)
      requires level >= 1 && Fair(draw)
      ensures FreshGame(level, 0) && this.draw == draw
    {
      this.draw := draw;
      nextDraw := 0;
      new;
      StartLevel(level);
    }

    /** `setGameState(initializeGame(level))`: a fresh generated board, score
        0, the level's move budget and target, no selection, nothing in
        flight, playing, multiplier 1. */
    method StartLevel(level: int)
      requires level >= 1 && Fair(draw)
      modifies this
      ensures FreshGame(level, old(nextDraw))
    {
      var config := GetLevelConfig(level).value;
      var newBoard, next := InitializeBoard(draw, nextDraw);
      board, nextDraw, score, moves, this.level := newBoard, next, 0, config.maxMoves, level;
      targetScore, maxMoves := config.targetScore, config.maxMoves;
      selected, isProcessing, status, comboMultiplier := None, false, Playing, 1;
    }

    /** `handleRestart`: start the current level again. */
    method Restart()
      requires Valid()
      modifies this
      ensures FreshGame(old(level), old(nextDraw))
    {
      StartLevel(level);
    }

    /** `handleNextLevel`: start the level after the current one. */
    method NextLevel()
      requires Valid()
      modifies this
      ensures FreshGame(old(level) + 1, old(nextDraw))
    {
      StartLevel(level + 1);
    }

    /** `handlePause`, then the status effect, which lists the status among
        its dependencies and so runs again after every pause or resume. */
    method TogglePause()
      requires Valid()
      modifies this
      ensures Valid() && status == StatusEffect(TogglePaused(old(status)), score, targetScore, moves, isProcessing)
      ensures board == old(board) && score == old(score) && moves == old(moves) && level == old(level)
      ensures targetScore == old(targetScore) && maxMoves == old(maxMoves)
      ensures selected == old(selected) && isProcessing == old(isProcessing)
      ensures comboMultiplier == old(comboMultiplier) && nextDraw == old(nextDraw)
    {
      status := TogglePaused(status);
      SettleStatus();
    }

    /** The status `useEffect`, run after a state change. */
    method SettleStatus()
      requires Valid()
      modifies this
      ensures Valid() && status == StatusEffect(old(status), score, targetScore, moves, isProcessing)
      ensures board == old(board) && score == old(score) && moves == old(moves) && level == old(level)
      ensures targetScore == old(targetScore) && maxMoves == old(maxMoves)
      ensures selected == old(selected) && isProcessing == old(isProcessing)
      ensures comboMultiplier == old(comboMultiplier) && nextDraw == old(nextDraw)
    {
      if status != Playing {
        return;
      }
      if score >= targetScore {
        status := Won;
      } else if moves <= 0 && !isProcessing {
        status := Lost;
      }
    }

    /** `handleCandyClick(row, col)` up to the point where the source, after
        its 400 ms delay, starts the cascade `processMatches(swappedBoard, 1)`;
        the caller runs `ProcessMatches` next. */
    method HandleCandyClick(row: int, col: int) returns (outcome: ClickOutcome)
      requires Valid() && InBounds(Position(row, col))
      modifies this
      ensures Valid()
      ensures score == old(score) && status == old(status) && level == old(level)
      ensures comboMultiplier == old(comboMultiplier) && nextDraw == old(nextDraw)
      // input is locked while a cascade runs or the game is not being played
      ensures outcome == Ignored <==> old(isProcessing) || old(status) != Playing
      ensures outcome == Ignored ==> selected == old(selected) && isProcessing == old(isProcessing)
      // the selection protocol leaves board and moves alone
      ensures outcome in {Ignored, Selected, Deselected, Reselected, Rejected} ==>
        board == old(board) && moves == old(moves)
      ensures outcome == Selected <==> outcome != Ignored && old(selected).None?
      ensures outcome == Deselected <==> outcome != Ignored && old(selected) == Some(Position(row, col))
      ensures outcome == Reselected <==>
        outcome != Ignored && old(selected).Some? && old(selected) != Some(Position(row, col)) &&
        !AreAdjacent(old(selected).value, Position(row, col))
      ensures outcome in {Selected, Reselected} ==> selected == Some(Position(row, col)) && !isProcessing
      ensures outcome == Deselected ==> selected == None && !isProcessing
      // a swap attempt: rejected without a match, committed with one
      ensures outcome in {Rejected, Accepted} ==>
        old(selected).Some? && AreAdjacent(old(selected).value, Position(row, col)) && selected == None
      ensures outcome == Rejected ==>
        !HasMatch(Swapped(old(board), old(selected).value, Position(row, col))) && !isProcessing
      ensures outcome == Accepted ==>
        && board == Swapped(old(board), old(selected).value, Position(row, col))
        && HasMatch(board)
        && moves == old(moves) - 1
        && isProcessing
    {
      if isProcessing || status != Playing {
        return Ignored;
      }
      var clickedPosition := Position(row, col);
      if selected.None? {
        selected := Some(clickedPosition);
        return Selected;
      }
      if selected.value.row == row && selected.value.col == col {
        selected := None;
        return Deselected;
      }
      if !AreAdjacent(selected.value, clickedPosition) {
        selected := Some(clickedPosition);
        return Reselected;
      }
      outcome := AttemptSwap(clickedPosition);
    }

    /** The swap attempt of `handleCandyClick`, once a second, adjacent cell is
        clicked: lock input, swap, and look for matches. Without one the
        swapped board is dropped and input unlocked; with one the swap is
        committed, a move spent, and input stays locked for the cascade. */
    method AttemptSwap(target: Position) returns (outcome: ClickOutcome)
      requires Valid() && InBounds(target) && selected.Some? && AreAdjacent(selected.value, target)
      modifies this
      ensures Valid()
      ensures score == old(score) && status == old(status) && level == old(level)
      ensures comboMultiplier == old(comboMultiplier) && nextDraw == old(nextDraw)
      ensures outcome == Rejected || outcome == Accepted
      ensures selected == None
      ensures outcome == Rejected <==> !HasMatch(Swapped(old(board), old(selected).value, target))
      ensures outcome == Rejected ==> board == old(board) && moves == old(moves) && !isProcessing
      ensures outcome == Accepted ==>
        && board == Swapped(old(board), old(selected).value, target)
        && moves == old(moves) - 1
        && isProcessing
    {
      var swappedBoard := SwapCandies(board, selected.value, target);
      var matches := FindMatches(swappedBoard);
      FoundMatchesAreMatchSet(swappedBoard, matches);
      if |matches| == 0 {
        selected, isProcessing := None, false;
        return Rejected;
      }
      SwapKeepsCoordinatesAgreeing(board, selected.value, target);
      SwapKeepsIdsBelow(board, selected.value, target, nextDraw);
      board, moves, selected, isProcessing := swappedBoard, moves - 1, None, true;
      return Accepted;
    }

    /** One call of `processMatches(board, multiplier)` before it recurses.
        With no match the cascade ends: input is unlocked, the multiplier
        resets to 1, and a board without a valid move is regenerated. With
        matches, they are cleared and scored at `multiplier`, gravity runs and
        the gaps are refilled; `done` is false and the caller recurses with
        `multiplier + 1`. */
    method ProcessWave(multiplier: int) returns (done: bool)
      requires Valid()
      modifies this
      ensures Valid()
      ensures moves == old(moves) && level == old(level) && selected == old(selected) && status == old(status)
      ensures done <==> !HasMatch(old(board))
      ensures done ==> !isProcessing && comboMultiplier == 1 && score == old(score) && !HasMatch(board)
      ensures done && AnyValidMove(old(board)) ==> board == old(board) && nextDraw == old(nextDraw)
      ensures done && !AnyValidMove(old(board)) ==> Generated(board, draw, old(nextDraw), nextDraw)
      ensures !done ==>
        && board == WaveBoard(old(board), draw, old(nextDraw))
        && score == old(score) + CalculateScore(|MatchSet(old(board))|, multiplier)
        && comboMultiplier == multiplier
        && isProcessing == old(isProcessing)
        && nextDraw == WaveNext(old(board), old(nextDraw))
    {
      var matches := FindMatches(board);
      FoundMatchesAreMatchSet(board, matches);
      if |matches| == 0 {
        EndCascade();
        return true;
      }
      ClearWave(matches, multiplier);
      return false;
    }

    /** The no-match branch of `processMatches` (src/pages/Game.tsx:76-93). */
    method EndCascade()
      requires Valid() && !HasMatch(board)
      modifies this
      ensures Valid()
      ensures moves == old(moves) && level == old(level) && selected == old(selected) && status == old(status)
      ensures !isProcessing && comboMultiplier == 1 && score == old(score) && !HasMatch(board)
      ensures AnyValidMove(old(board)) ==> board == old(board) && nextDraw == old(nextDraw)
      ensures !AnyValidMove(old(board)) ==> Generated(board, draw, old(nextDraw), nextDraw)
    {
      isProcessing := false;
      comboMultiplier := 1;
      var anyMove := HasValidMoves(board);
      if !anyMove {
        board, nextDraw := InitializeBoard(draw, nextDraw);
      }
    }

    /** The matching branch of `processMatches` up to its recursive call
        (src/pages/Game.tsx:96-129): clear, score, fall, refill. */
    method ClearWave(matches: seq<Position>, multiplier: int)
      requires Valid()
      requires Distinct(matches) && forall p :: p in matches <==> Matched(board, p)
      modifies this
      ensures Valid()
      ensures moves == old(moves) && level == old(level) && selected == old(selected) && status == old(status)
      ensures board == WaveBoard(old(board), draw, old(nextDraw))
      ensures score == old(score) + CalculateScore(|MatchSet(old(board))|, multiplier)
      ensures comboMultiplier == multiplier && isProcessing == old(isProcessing)
      ensures nextDraw == WaveNext(old(board), old(nextDraw))
    {
      FoundMatchesAreMatchSet(board, matches);
      var points := CalculateScore(|matches|, multiplier);
      score := score + points;
      comboMultiplier := multiplier;
      board, nextDraw := RunWave(board, matches, draw, nextDraw);
    }

    /** One call of `processMatches` inside a cascade whose remainder from the
        current board is described by `CascadeFrom`: either the cascade ends
        here, or one wave is played and the remainder continues from the new
        board, less the points just earned. */
    method CascadeWave(multiplier: int, ghost left: nat, ghost rest: int, ghost settles: bool,
                       ghost last: Board, ghost lastNext: nat)
      returns (done: bool, ghost left': nat, ghost rest': int)
      requires Valid() && left > 0
      requires CascadeFrom(board, draw, nextDraw, multiplier, left, rest, settles, last, lastNext)
      modifies this
      ensures Valid()
      ensures moves == old(moves) && level == old(level) && selected == old(selected) && status == old(status)
      ensures done ==> settles && rest == 0 && score == old(score)
      ensures done ==> !isProcessing && comboMultiplier == 1 && !HasMatch(board)
      ensures done && AnyValidMove(last) ==> board == last && nextDraw == lastNext
      ensures done && !AnyValidMove(last) ==> Generated(board, draw, lastNext, nextDraw)
      ensures !done ==> isProcessing == old(isProcessing) && comboMultiplier == multiplier
      ensures !done ==> left' == Spend(left) && score + rest' == old(score) + rest
      ensures !done ==> CascadeFrom(board, draw, nextDraw, multiplier + 1, left', rest', settles, last, lastNext)
    {
      ghost var b, n := board, nextDraw;
      left', rest' := Spend(left), rest;
      if HasMatch(b) {
        rest' := CascadeStep(b, draw, n, multiplier, left, rest, settles, last, lastNext);
      } else {
        CascadeStop(b, draw, n, multiplier, left, rest, settles, last, lastNext);
      }
      done := ProcessWave(multiplier);
    }

    /** `processMatches(board, 1)` and its self-recursion, for at most `fuel`
        calls: the waves are scored at multipliers 1, 2, 3, …, so the score
        grows by exactly `CascadeGain` and never falls. The cascade settles
        iff `CascadeSettles`; then input is unlocked, the multiplier is back
        at 1, the board holds no match, and it is the cascade's last board
        unless that board had no valid move and was regenerated. Out of fuel,
        the board is the one the last wave left, input stays as it was and
        the multiplier is that of the last wave. */
    method ProcessMatches(fuel: nat) returns (settled: bool)
      requires Valid()
      modifies this
      ensures Valid()
      ensures moves == old(moves) && level == old(level) && selected == old(selected) && status == old(status)
      ensures score == old(score) + CascadeGain(old(board), draw, old(nextDraw), 1, fuel) >= old(score)
      ensures settled <==> CascadeSettles(old(board), draw, old(nextDraw), fuel)
      ensures settled ==> !isProcessing && comboMultiplier == 1 && !HasMatch(board)
      ensures settled && AnyValidMove(CascadeBoard(old(board), draw, old(nextDraw), fuel)) ==>
        board == CascadeBoard(old(board), draw, old(nextDraw), fuel) &&
        nextDraw == CascadeNext(old(board), draw, old(nextDraw), fuel)
      ensures settled && !AnyValidMove(CascadeBoard(old(board), draw, old(nextDraw), fuel)) ==>
        Generated(board, draw, CascadeNext(old(board), draw, old(nextDraw), fuel), nextDraw)
      ensures !settled ==>
        board == CascadeBoard(old(board), draw, old(nextDraw), fuel) &&
        nextDraw == CascadeNext(old(board), draw, old(nextDraw), fuel)
      ensures !settled ==> isProcessing == old(isProcessing) && (fuel > 0 ==> comboMultiplier == fuel)
    {
      // what the whole cascade earns, whether it settles, and where it stops
      ghost var gain, settles, last, lastNext := CascadeBegin(board, draw, nextDraw, 1, fuel);
      ghost var rest, left := gain, fuel;
      var multiplier := 1;
      var waves := 0;
      while waves < fuel
        invariant Valid() && waves <= fuel && multiplier == waves + 1 && left == fuel - waves
        invariant moves == old(moves) && level == old(level) && selected == old(selected) && status == old(status)
        invariant isProcessing == old(isProcessing) && (waves > 0 ==> comboMultiplier == waves)
        invariant score + rest == old(score) + gain
        invariant CascadeFrom(board, draw, nextDraw, multiplier, left, rest, settles, last, lastNext)
      {
        var done;
        done, left, rest := CascadeWave(multiplier, left, rest, settles, last, lastNext);
        if done {
          return true;
        }
        multiplier, waves := multiplier + 1, waves + 1;
      }
      CascadeStop(board, draw, nextDraw, multiplier, left, rest, settles, last, lastNext);
      return false;
    }

    /** A whole move as the player experiences it: the click, the cascade it
        starts when the swap is accepted (at most `fuel` waves), and the status
        effect that follows. An accepted move costs exactly one move and earns
        exactly the cascade's points from the swapped board; when it settles
        it leaves a match-free board with input unlocked. */
    method Play(row: int, col: int, fuel: nat) returns (outcome: ClickOutcome, settled: bool)
      requires Valid() && InBounds(Position(row, col))
      modifies this
      ensures Valid() && score >= old(score) && level == old(level)
      // the click protocol of `handleCandyClick`
      ensures outcome == Ignored <==> old(isProcessing) || old(status) != Playing
      ensures outcome == Ignored ==> selected == old(selected)
      ensures outcome == Selected <==> outcome != Ignored && old(selected).None?
      ensures outcome == Deselected <==> outcome != Ignored && old(selected) == Some(Position(row, col))
      ensures outcome == Reselected <==>
        outcome != Ignored && old(selected).Some? && old(selected) != Some(Position(row, col)) &&
        !AreAdjacent(old(selected).value, Position(row, col))
      ensures outcome in {Selected, Reselected} ==> selected == Some(Position(row, col))
      ensures outcome in {Rejected, Accepted} ==>
        old(selected).Some? && AreAdjacent(old(selected).value, Position(row, col)) && selected == None
      ensures outcome in {Deselected, Rejected} ==> selected == None
      ensures outcome == Rejected ==> !HasMatch(Swapped(old(board), old(selected).value, Position(row, col)))
      // only an accepted swap spends a move and scores
      ensures outcome != Accepted ==> board == old(board) && moves == old(moves) && score == old(score)
      ensures outcome == Accepted ==> moves == old(moves) - 1
      ensures outcome == Accepted ==>
        var swapped := Swapped(old(board), old(selected).value, Position(row, col));
        && score == old(score) + CascadeGain(swapped, draw, old(nextDraw), 1, fuel)
        && (settled <==> CascadeSettles(swapped, draw, old(nextDraw), fuel))
      ensures outcome == Accepted && settled ==> !isProcessing && !HasMatch(board)
      // the board the cascade from the swapped board leaves, regenerated when it has no valid move
      ensures outcome != Accepted ==> nextDraw == old(nextDraw)
      ensures outcome == Accepted ==>
        var swapped := Swapped(old(board), old(selected).value, Position(row, col));
        var last, lastNext := CascadeBoard(swapped, draw, old(nextDraw), fuel), CascadeNext(swapped, draw, old(nextDraw), fuel);
        && (!settled || AnyValidMove(last) ==> board == last && nextDraw == lastNext)
        && (settled && !AnyValidMove(last) ==> Generated(board, draw, lastNext, nextDraw))
      ensures status == StatusEffect(old(status), score, targetScore, moves, isProcessing)
    {
      settled := false;
      outcome := HandleCandyClick(row, col);
      if outcome == Accepted {
        settled := ProcessMatches(fuel);
      }
      SettleStatus();
    }
  }
}
