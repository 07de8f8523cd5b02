# Match-3 engine and game session, modelled in Dafny

This project models the core of a browser match-3 game ("Candy Crush" style).

The **board engine** (`src/lib/gameLogic.ts`) works on an 8×8 grid of cells. Each cell is empty or holds a candy. A candy has one of five colours, an optional special kind, and the row and column it believes it occupies. The engine's operations are:

- generating a starting board with no run of three;
- testing adjacency and swapping two cells;
- finding every horizontal and vertical run of three or more;
- clearing matched cells, applying gravity and refilling empty cells;
- scoring a clear and classifying special candies;
- detecting a board with no valid move;
- looking up the level table.

The **session** (`src/pages/Game.tsx`) is a small state machine over one game record. It covers:

- the click and selection protocol;
- the cascade, one wave at a time with a growing combo multiplier;
- the won and lost transitions;
- pause, restart and next level.

Modules, one file each:

- `GameTypes` (types.dfy): the records of `src/types/game.ts`.
- `Grid` (grid.dfy): the board as a value `seq<seq<Option<Candy>>>` and single-cell update.
- `Grid` also holds the injected colour source `draw: nat -> CandyType`. It stands for `Math.random`: the k-th candy ever created has colour `draw(k)` and id `k`.
- `Generation`, `Swap`, `Matching`, `Clearing`, `Gravity`, `Refill`, `Scoring`, `Levels` and `Moves` model one group of engine functions each.
- `Counting` (counting.dfy) proves how many draws one cascade wave uses: exactly one per matched cell.
- The engine's loops are Dafny methods with loop invariants. Each is proved against a specification function or predicate:
  - `Swapped`, `Cleared`, `Fallen` and `Refilled` for the board transformations;
  - `Matched`, the reference meaning of a match: a cell lies in a window of three consecutive same-colour cells of its row or its column;
  - `AnyValidMove` for deadlock detection.
- `Session` (session.dfy) holds the class `Game`, whose fields are the `GameState` record. The handlers are methods that update these fields. `Valid()` is the invariant every handler keeps:
  - 8×8 board with a tile in every cell;
  - every tile's coordinates equal its cell;
  - every tile's id is below the draw counter, so no tile carries an id not yet handed out;
  - target and move budget taken from the level table;
  - moves never above the budget;
  - any selection is on the board.

Where the model follows the code exactly:

- Pausing turns *every* status other than `paused` into `paused`, including `won` and `lost`. Resuming yields `playing`, and the status effect, which depends on the status, then runs again: a game that had been won is won again, and one that had been lost is lost again (`Session.PauseResumeRestores`). The handler alone would leave it playing (`Session.PauseTwice`).
- `getLevelConfig(level)` for a level below 1 indexes before the table and yields `undefined`; the model returns `None`. `initializeGame` dereferences that entry, so the model requires `level >= 1` there.
- Gravity rewrites a tile's `row` only when the tile moves. A tile already at its landing cell keeps whatever `row` it had (`Gravity.FallColRow`).

## Model

| member | source | states |
|---|---|---|
| Grid.CreateCandy | src/lib/gameLogic.ts:10-18 | a created candy is plain (no special), sits at the given row and column, and takes id k and colour `draw(k)` from the colour source |
| Generation.AdmissibleColourExists | src/lib/gameLogic.ts:26-30 | at most two colours are excluded at a cell, so some palette colour never completes a run with the two cells to its left or above; the redraw loop always has a colour to stop on |
| Generation.DrawAdmissibleCandy | src/lib/gameLogic.ts:26-30 | the redraw loop stops, on a fair colour source, at a candy that completes no run with the cells to its left or above; the candy kept is the one created from the last index drawn, every index used is new, and every earlier draw of the loop was a colour that would have completed a run |
| Generation.InitializeBoard | src/lib/gameLogic.ts:20-37 | for a fair colour source: every cell holds a plain candy whose coordinates are its cell; its colour is the draw at its id, and its id lies in the range of indices used; no cell has two equal left or upper neighbours of its colour; the board holds no match |
| Generation.PlacingCompletesTriple | src/lib/gameLogic.ts:39-54 | `wouldCreateMatch(board, row, col, t)` holds iff putting a tile of colour t at the cell completes a same-colour window of three ending there: the two cells to its left, or the two above it, already hold colour t |
| Generation.FreshBoardHasNoMatch | src/lib/gameLogic.ts:39-54 | on a board where no cell completes a run with its two left or two upper neighbours, there is no match at all |
| Swap.AreAdjacent | src/lib/gameLogic.ts:56-61 | two positions are adjacent iff \|Δrow\| + \|Δcol\| = 1 |
| Swap.AdjacencyShape | src/lib/gameLogic.ts:56-61 | adjacency is symmetric, never holds for a position and itself or for diagonal neighbours, and adjacent positions share a row or a column |
| Swap.SwapCandies | src/lib/gameLogic.ts:63-83 | the result puts the old tile of q at p and the old tile of p at q, each with its coordinates set to its new cell; every other cell is unchanged |
| Swap.SwapSymmetric | src/lib/gameLogic.ts:63-83 | swapping p with q gives the same board as swapping q with p |
| Swap.SwapKeepsCoordinatesAgreeing | src/lib/gameLogic.ts:73-80 | if every tile's coordinates equal its cell before a swap, they still do after it |
| Swap.SwapKeepsIdsBelow | src/lib/gameLogic.ts:63-83 | a swap creates no tile, so every id stays below the draw counter |
| Swap.SwapTwiceRestores | src/lib/gameLogic.ts:63-83 | swapping the same pair twice restores every cell's tile (up to the rewritten coordinates of the two moved tiles), and restores the board exactly when coordinates agreed with cells |
| Matching.MatchedIsOccupied | src/lib/gameLogic.ts:85-96 | every matched position is on the board and holds a candy |
| Matching.RunEnd | src/lib/gameLogic.ts:126-132 | the rightward (downward) cursor stops at the last cell of the maximal same-colour run |
| Matching.RunStart | src/lib/gameLogic.ts:134-138 | the leftward (upward) cursor stops at the first cell of the maximal same-colour run |
| Matching.RunOfThreeIffInTriple | src/lib/gameLogic.ts:140 | the maximal run around an occupied cell has at least three cells iff the cell lies in a same-colour window of three: the source's run-length test and the reference match definition agree |
| Matching.HorizontalRunReported | src/lib/gameLogic.ts:122-141 | the positions collected by the two horizontal cursor loops are duplicate-free and are exactly the maximal run; there are at least three of them iff the cell is in a window of three |
| Matching.VerticalRunReported | src/lib/gameLogic.ts:143-162 | the same for the two vertical cursor loops |
| Matching.FindHorizontalMatches | src/lib/gameLogic.ts:122-141 | the result is empty or has at least three positions; it is non-empty iff the cell is in a horizontal window of three; when non-empty it is exactly the maximal horizontal run, without duplicates |
| Matching.FindVerticalMatches | src/lib/gameLogic.ts:143-162 | the same for columns |
| Matching.ScanColumn | src/lib/gameLogic.ts:143-162 | the vertical cursor loops over the cells of one column: duplicate-free, empty or at least three positions, non-empty iff the cell is in a vertical window of three, and then exactly the maximal vertical run |
| Matching.AddNew | src/lib/gameLogic.ts:98-104 | appending the not-yet-seen positions of a run keeps the list duplicate-free and in step with the seen-set, keeps the old list as a prefix, and adds exactly the run's positions |
| Matching.FindMatches | src/lib/gameLogic.ts:85-120 | the result has no duplicates, and a position is in it iff it lies in a horizontal or vertical same-colour run of three or more (a cell in both runs appears once) |
| Matching.FoundMatchesAreMatchSet | src/lib/gameLogic.ts:85-120 | the found list holds exactly the board's matched positions, its length is their number, and it is non-empty iff the board has a match |
| Clearing.RemoveMatches | src/lib/gameLogic.ts:164-172 | exactly the listed cells become empty and every other cell is unchanged |
| Clearing.ClearingKeepsCoordinatesAgreeing | src/lib/gameLogic.ts:164-172 | emptying cells keeps every remaining tile's coordinates equal to its cell |
| Clearing.ClearingKeepsIdsBelow | src/lib/gameLogic.ts:164-172 | emptying cells creates no tile, so every id stays below the draw counter |
| Clearing.ClearingMatchesLeavesNone | src/lib/gameLogic.ts:164-172 | clearing every matched cell leaves a board with no match |
| Gravity.OccFromIncreasing | src/lib/gameLogic.ts:180-189 | the occupied rows met by the scan are listed in strictly increasing order |
| Gravity.PendingStep | src/lib/gameLogic.ts:180-189 | one step of the upward scan: each tile moves the cursor up by one; an empty cell or a tile already at the cursor changes nothing; any other tile moves down to the cursor, takes the cursor's row, and leaves its cell empty |
| Gravity.DropTile | src/lib/gameLogic.ts:182-187 | the tile moves to the cursor cell with its row rewritten, its old cell becomes empty, and nothing else in the board changes |
| Gravity.SettleColumn | src/lib/gameLogic.ts:177-191 | the scan of one column leaves that column fallen and every other column unchanged |
| Gravity.FallenColumn | src/lib/gameLogic.ts:174-195 | each column of the fallen board is that column fallen on its own |
| Gravity.ApplyGravity | src/lib/gameLogic.ts:174-195 | the result is `Fallen(b)`: each column independently gets its empty cells on top and its tiles, in their old order, packed at the bottom |
| Gravity.FallColShape | src/lib/gameLogic.ts:177-192 | a fallen column is settled (no empty cell below a tile), keeps its number of tiles, and lists the same tiles in the same top-to-bottom order, apart from their `row` field |
| Gravity.FallColRow | src/lib/gameLogic.ts:182-186 | the i-th tile of a column lands at row (empty count + i); its `row` field says so unless it was already there and did not move |
| Gravity.FallColMovesDown | src/lib/gameLogic.ts:178-192 | no tile moves up: each lands at or below its old row |
| Gravity.FallColIdempotent | src/lib/gameLogic.ts:174-195 | gravity applied to a fallen column changes nothing |
| Gravity.FallColKeepsRows | src/lib/gameLogic.ts:182-186 | a column whose tiles know their rows still does after gravity |
| Gravity.FallenShape | src/lib/gameLogic.ts:174-195 | for every column of the fallen board: settled, same tile count, same tiles in the same order |
| Gravity.FallenKeepsCoordinatesAgreeing | src/lib/gameLogic.ts:174-195 | a board whose tiles know their cells still does after gravity |
| Gravity.FallenKeepsIdsBelow | src/lib/gameLogic.ts:174-195 | gravity moves tiles but creates none, so every id stays below the draw counter |
| Refill.Refilled | src/lib/gameLogic.ts:197-209 | no cell is empty after a refill; occupied cells are untouched; each new tile is plain, knows its cell, and has the colour of its draw index |
| Refill.FillEmptySpaces | src/lib/gameLogic.ts:197-209 | the column-by-column, top-to-bottom fill gives `Refilled(b)`, and uses one draw per empty cell |
| Refill.DrawIndexOrder | src/lib/gameLogic.ts:199-205 | an empty cell's draw index is at least `start` and smaller than that of every empty cell after it in column-major order |
| Refill.RefillIdsFresh | src/lib/gameLogic.ts:197-209 | the candies of one refill have pairwise distinct ids, all in [start, next) |
| Refill.RefillKeepsCoordinatesAgreeing | src/lib/gameLogic.ts:197-209 | a board whose tiles know their cells still does after refilling |
| Refill.RefillIdsBelow | src/lib/gameLogic.ts:197-209 | after a refill from index `start`, every id, old or new, is below `start` plus the number of cells that were empty |
| Counting.NullsAndTiles | src/lib/gameLogic.ts:177-190 | in a column, the empty cells counted from the top and the occupied cells listed from row k on account for every cell |
| Counting.FallColNulls | src/lib/gameLogic.ts:174-195 | gravity keeps the number of empty cells of a column |
| Counting.FallenNulls | src/lib/gameLogic.ts:174-195 | gravity keeps the number of empty cells in every prefix of columns |
| Counting.ClearedColumnNulls | src/lib/gameLogic.ts:164-172 | clearing a set of positions on a full board empties, in each column above each row, exactly the positions of the set there |
| Counting.ClearedNulls | src/lib/gameLogic.ts:164-172 | clearing a set of positions on a full board empties, in the first c columns, exactly the positions of the set there |
| Counting.WaveDrawsPerMatch | src/lib/gameLogic.ts:164-209 | clearing the matched cells of a full board, applying gravity and refilling creates exactly as many candies as there were matched cells |
| Scoring.BaseScore | src/lib/gameLogic.ts:212-220 | the base is one of 0, 100, 200, 500, and it is 0 iff fewer than three cells were cleared |
| Scoring.CalculateScore | src/lib/gameLogic.ts:211-223 | points are 100, 200 and 500 times the multiplier for 3, 4 and at least 5 cells, and 0 below 3 |
| Scoring.ScoreMonotone | src/lib/gameLogic.ts:211-223 | for non-negative multipliers, more cells or a larger multiplier never score less |
| Scoring.SpreadAboveOne | src/lib/gameLogic.ts:229-230 | `new Set(values).size > 1` iff two of the positions differ in that coordinate |
| Scoring.DetermineSpecialCandy | src/lib/gameLogic.ts:225-239 | striped iff four positions; wrapped iff five positions spanning more than one row and more than one column; colour bomb iff five positions on one row or one column; none iff the count is neither four nor five |
| Levels.GetLevelConfig | src/lib/gameLogic.ts:263-273 | levels 1 to 5 get their own entry; later levels reuse level 5's entry; levels below 1 get none |
| Levels.LevelsGetHarder | src/lib/gameLogic.ts:263-269 | later levels have targets at least as high and move budgets no larger, and every budget is positive |
| Moves.HasValidMoves | src/lib/gameLogic.ts:241-261 | true iff some cell's swap with its right or lower neighbour gives a board with a match |
| Moves.ScanCoversAllSwaps | src/lib/gameLogic.ts:241-261 | trying only right and down swaps loses nothing: the scan finds a move iff some swap of two adjacent cells makes a match |
| Moves.ScannedSwapIsValid | src/lib/gameLogic.ts:244-255 | a right or down swap found by the scan is a valid move between adjacent cells |
| Moves.ValidSwapIsScanned | src/lib/gameLogic.ts:244-255 | every valid swap of two adjacent cells is found by the scan from the upper or left cell of the pair |
| Session.StatusEffect | src/pages/Game.tsx:197-215 | only a playing game changes status; it becomes won iff the score reached the target, whether or not a cascade is running; it becomes lost iff the target is not reached, moves are used up and no cascade is running |
| Session.StatusEffectSettles | src/pages/Game.tsx:197-215 | re-running the effect after its own update changes nothing |
| Session.TogglePaused | src/pages/Game.tsx:225-230 | paused becomes playing; every other status becomes paused |
| Session.PauseTwice | src/pages/Game.tsx:225-230 | the pause handler alone, applied twice, restores a playing or paused game and turns a won or lost game into playing |
| Session.PauseResumeRestores | src/pages/Game.tsx:197-230 | pause and then resume, each followed by the status effect, pause the game and then give back any status the effect settles on from play: still playing, won (target reached) or lost (moves spent while idle) |
| Session.WaveKeepsCoordinatesAgreeing | src/pages/Game.tsx:109-126 | clear, gravity and refill together keep every tile's coordinates equal to its cell |
| Session.WaveKeepsIdsBelow | src/pages/Game.tsx:109-126 | a wave on a full board leaves every id below the wave's next draw index: start plus the number of matched cells |
| Session.WaveKeepsBoardInvariant | src/pages/Game.tsx:109-126 | a wave on a full board whose tiles know their cells and carry ids below the counter leaves a board with the same three properties, and its refill stops at draw index start plus the number of matched cells |
| Session.CascadeGain | src/pages/Game.tsx:73-131 | the points of the cascade from multiplier k on, wave i scored at k + i: never negative from a non-negative multiplier, and at least the first wave's points when the board has a match |
| Session.CascadeNext | src/pages/Game.tsx:73-131 | the draw index the cascade stops at never lies before the one it started from |
| Session.CascadeUnfold | src/pages/Game.tsx:73-131 | a cascade with calls left from a board with a match earns that wave's points at multiplier k and then exactly what the cascade from the wave's board earns at k + 1; it settles, stops and leaves its draw index exactly as that remaining cascade does |
| Session.CascadeStep | src/pages/Game.tsx:96-131 | one wave of a described cascade: what remains to be earned drops by that wave's points, and the cascade from the wave's board, with one call fewer and the next multiplier, settles, stops and leaves the draw index as the whole cascade does |
| Session.CascadeStop | src/pages/Game.tsx:73-93 | a cascade from a board without a match (or without calls left) earns nothing, stops at that board and draw index, and settles iff it had a call left |
| Session.SettledCascadeHasNoMatch | src/pages/Game.tsx:73-93 | a cascade that settles within its fuel stops at a board with no match |
| Session.RunWave | src/pages/Game.tsx:109-126 | the board work of one wave gives the wave board (matched cells cleared, tiles fallen, gaps refilled), full, with tile coordinates equal to their cells; the next draw index is the old one plus the number of matched cells, and every id is below it |
| Session.Game.constructor | src/pages/Game.tsx:30-46 | a new session is the fresh game `initializeGame(level)` builds: valid, at the requested level, with a generated match-free board drawn from index 0, score 0, the level's target and full move budget, no selection, not processing, playing, multiplier 1 |
| Session.Game.StartLevel | src/pages/Game.tsx:30-44 | the record is reset: a freshly generated match-free board, score 0, moves equal to the level's budget, the level's target, no selection, not processing, playing, multiplier 1 |
| Session.Game.Restart | src/pages/Game.tsx:217-219 | a fresh game at the same level (generated match-free board, score 0, full budget, no selection, not processing, playing, multiplier 1) |
| Session.Game.NextLevel | src/pages/Game.tsx:221-223 | a fresh game at the next level (generated match-free board, score 0, that level's target and full budget, no selection, not processing, playing, multiplier 1) |
| Session.Game.TogglePause | src/pages/Game.tsx:197-230 | only the status changes: it is `TogglePaused` of the old status, settled by the status effect that re-runs after the change; board, score, moves, level, target, budget, selection, processing flag, multiplier and draw counter are kept |
| Session.Game.SettleStatus | src/pages/Game.tsx:197-215 | only the status changes, as `StatusEffect` says; every other field is kept |
| Session.Game.HandleCandyClick | src/pages/Game.tsx:134-192 | a click while processing or not playing changes nothing. With no selection it selects the clicked cell. Clicking the selected cell deselects. A non-adjacent cell becomes the new selection. None of these touch board, moves or score. An adjacent swap without a match is rejected: board, moves and score unchanged, selection cleared, not processing. One with a match commits the swapped board, spends exactly one move, clears the selection and keeps processing on |
| Session.Game.AttemptSwap | src/pages/Game.tsx:157-188 | a swap attempt clears the selection; it is rejected iff the swapped board has no match, and then board and moves are unchanged and input is unlocked; otherwise the swapped board is committed, exactly one move is spent and input stays locked |
| Session.Game.ProcessWave | src/pages/Game.tsx:73-131 | one wave: it ends the cascade iff the board has no match, keeping the board and the draw counter when it has a valid move. Otherwise the board becomes cleared, fallen and refilled, the score grows by `CalculateScore(number of matched cells, multiplier)`, the combo multiplier is set to the wave's multiplier and the draw counter advances by the number of matched cells |
| Session.Game.EndCascade | src/pages/Game.tsx:76-93 | the cascade ends unlocked with multiplier 1; the board is kept when it has a valid move and regenerated otherwise, and is match-free either way |
| Session.Game.ClearWave | src/pages/Game.tsx:96-129 | the board becomes the wave board of the old one, the score grows by the wave's points, the combo multiplier is the wave's and the draw counter advances by the number of matched cells |
| Session.Game.CascadeWave | src/pages/Game.tsx:73-131 | one call of `processMatches` in a running cascade: it either ends the cascade, which then must settle, owes no more points and leaves the cascade's last board (or a regenerated one) with input unlocked and multiplier 1; or it plays one wave at the given multiplier, keeping input locked, and what remains is the cascade from the new board with one call fewer, less exactly the points just scored |
| Session.Game.ProcessMatches | src/pages/Game.tsx:73-131 | waves run with multipliers 1, 2, 3, …: the score grows by exactly `CascadeGain` from multiplier 1, hence never decreases; it settles iff `CascadeSettles`, and then input is unlocked, the multiplier is 1, the board has no match and is the cascade's last board (or a regenerated one drawn from the cascade's last index when that board has no valid move); out of fuel, board and draw counter are those the last wave left, input stays locked as it was and the multiplier is the last wave's, `fuel` |
| Session.Game.Play | src/pages/Game.tsx:134-215 | a whole move (click, cascade, status effect): the level never changes; the click follows the protocol of `handleCandyClick` (ignored iff processing or not playing, then select, deselect, reselect, rejected or accepted swap, with the resulting selection); only an accepted swap changes board, moves or score; it costs exactly one move and adds exactly the cascade's points from the swapped board, settling iff that cascade settles, and when settled leaves a match-free board and unlocked input; the board and draw counter are the cascade's last ones, or a board regenerated from the cascade's last draw index when the cascade settled on a board with no valid move; any other click keeps the draw counter; the status is what the effect computes |

## Left out

- Timers, `await` delays, toasts and React plumbing (`useState`, `useEffect`, `useCallback`). Each cascade wave is one sequential step. The click feedback toasts correspond to the `ClickOutcome` a click returns. The "No valid moves!" reshuffle toast (src/pages/Game.tsx:84-87) and the "Level Complete!" and "Game Over" toasts (src/pages/Game.tsx:203-205, 209-212) are dropped, including their repetition when a finished game is resumed.
- The progress load and `saveProgress` (src/pages/Game.tsx:48-71, 202) and all of `src/db/api.ts`. They are network calls to an external service.
- The `isAnimating` marking before a clear (src/pages/Game.tsx:96-103), the `isMatched` flag and the sound toggle. They are presentation only and affect no other field.
- `generateUniqueId` and `Math.random`: ids are the draw counter and colours come from the parameter `draw`. Generation's termination assumes every colour keeps recurring in `draw` (`Fair`).
- Generation.InitializeBoard: the contract is relational. It fixes each tile's colour as the draw at its id and its ids as lying in the used range, but not the exact order in which indices are consumed.
- Session.Game.ProcessMatches: the cascade runs for at most `fuel` waves, because random refills can chain indefinitely. A run that exhausts the fuel reports `settled = false`; its score, board and draw counter are then those of the first `fuel` waves (`CascadeGain`, `CascadeBoard`, `CascadeNext`), not those of the source's unbounded recursion.
- Restart, next level or pause while a cascade is still running: the source's pending continuation would later write a stale board over the new game. The model runs a cascade to completion inside one call.
- Shared `Candy` objects: `swapCandies` and `applyGravity` copy rows shallowly and then mutate the shared tiles' `row`/`col`. `hasValidMoves`'s trial swaps therefore rewrite coordinates on the live board. The model works on values, so its coordinate invariant (`Grid.CoordinatesAgree` in `Session.Game.Valid`) holds of the model only; the source loses it after a deadlock scan. A rejected swap does the same: `handleCandyClick` (src/pages/Game.tsx:160-164) calls `swapCandies`, whose coordinate fix-up (src/lib/gameLogic.ts:73-80) rewrites `row`/`col` on the two live tiles before the swapped board is dropped, so after an "Invalid move" those two tiles on the kept board carry each other's coordinates. The model keeps the old board unchanged.
- `findMatches`'s `matchedSet` of `"row-col"` strings is modelled as a set of positions. The key is injective on board positions, so membership is the same.
- Grid.CreateCandy: `createCandy`'s optional `type` argument (src/lib/gameLogic.ts:10, 13) is not modelled; every call in the core omits it, so the colour always comes from the random draw.
- Id uniqueness across waves: the model proves that the ids of one refill are pairwise distinct and that every id on the board is below the draw counter, but not that all ids on the board are pairwise distinct.
- JavaScript's double-precision numbers: scores, moves and levels are unbounded integers. They stay far below 2^53 in play.
- Presentational files (pages other than `Game.tsx`, the game and auth components, routing). `RequireAuth.tsx`'s path whitelist is router glue.
