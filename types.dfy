/** The records of the game: candies, positions, specials, level entries and
    the session status (src/types/game.ts). */
module GameTypes {

  datatype Option<+T> = None | Some(value: T)

  /** The five candy colours. */
  datatype CandyType = Red | Blue | Green | Yellow | Purple

  /** A special candy kind; "no special" is `None` of `Option<SpecialCandyType>`. */
  datatype SpecialCandyType = Striped | Wrapped | ColorBomb

  /** A tile. `id` is an opaque counter standing for the source's random string id;
      `kind` is the source's `type` field; `row`/`col` are the coordinates the tile
      believes it has. The presentation flags `isMatched`/`isAnimating` are not kept. */
  datatype Candy = Candy(id: nat, kind: CandyType, special: Option<SpecialCandyType>, row: int, col: int)

  datatype Position = Position(row: int, col: int)

  datatype GameStatus = Playing | Won | Lost | Paused

  datatype LevelConfig = LevelConfig(level: int, targetScore: int, maxMoves: int)
}
