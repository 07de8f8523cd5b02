/** The level table: `LEVEL_CONFIGS` and `getLevelConfig`
    (src/lib/gameLogic.ts:263-273). */
module Levels {
  import opened GameTypes

  /** `LEVEL_CONFIGS`: target score and move budget of levels 1 to 5. */
  const LevelConfigs: seq<LevelConfig> := [
    LevelConfig(1, 1000, 20),
    LevelConfig(2, 2000, 18),
    LevelConfig(3, 3500, 16),
    LevelConfig(4, 5000, 15),
    LevelConfig(5, 7000, 14)
  ]

  function Min(a: int, b: int): int {
    if a <= b then a else b
  }

  /** `getLevelConfig(level)`: the entry at `min(level - 1, 4)`. Levels past
      the table reuse the last entry; a level below 1 indexes before the
      table, which yields no configuration. */
  function GetLevelConfig(level: int): (cfg: Option<LevelConfig>)
    ensures cfg.None? <==> level < 1
    ensures 1 <= level <= |LevelConfigs| ==> cfg == Some(LevelConfigs[level - 1]) && cfg.value.level == level
    ensures level > |LevelConfigs| ==> cfg == Some(LevelConfigs[|LevelConfigs| - 1])
  {
    var i := Min(level - 1, |LevelConfigs| - 1);
    if 0 <= i then Some(LevelConfigs[i]) else None
  }

  /** Later levels ask for at least as many points with no more moves. */
  lemma {:induction false} LevelsGetHarder(l1: int, l2: int)
    requires 1 <= l1 <= l2
    ensures GetLevelConfig(l1).Some? && GetLevelConfig(l2).Some?
    ensures GetLevelConfig(l1).value.targetScore <= GetLevelConfig(l2).value.targetScore
    ensures GetLevelConfig(l1).value.maxMoves >= GetLevelConfig(l2).value.maxMoves
    ensures GetLevelConfig(l1).value.maxMoves > 0
  {
    var i1, i2 := Min(l1 - 1, 4), Min(l2 - 1, 4);
    assert GetLevelConfig(l1) == Some(LevelConfigs[i1]);
    assert GetLevelConfig(l2) == Some(LevelConfigs[i2]);
    assert forall i, j :: 0 <= i <= j < |LevelConfigs| ==>
      LevelConfigs[i].targetScore <= LevelConfigs[j].targetScore &&
      LevelConfigs[i].maxMoves >= LevelConfigs[j].maxMoves > 0;
  }
}
