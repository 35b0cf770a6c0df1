/** Scoring and speed rules: the level and the gravity interval are both
    functions of the cumulative number of cleared lines. */
module Rules {

  const PointsPerLine := 100
  const HardDropPointsPerRow := 2
  const SoftDropPoints := 1
  const LockDelayMs := 500
  const LateralRepeatMs := 80
  const ActionRepeatMs := 100

  /** One level per ten cleared lines, starting at level 1. */
  function LevelFor(lines: nat): (level: int)
    ensures level >= 1
    ensures lines < 10 ==> level == 1
  {
    1 + lines / 10
  }

  function Max(a: int, b: int): (m: int)
    ensures m >= a && m >= b && (m == a || m == b)
  {
    if a >= b then a else b
  }

  /** Gravity interval in milliseconds: 40 ms faster per level, never below 100. */
  function DropSpeedFor(level: int): (ms: int)
    ensures ms >= 100
    ensures level >= 1 ==> ms <= 500
  {
    Max(100, 500 - (level - 1) * 40)
  }

  /** More cleared lines never lower the level nor slow the game down. */
  lemma MoreLinesFaster(a: nat, b: nat)
    requires a <= b
    ensures LevelFor(a) <= LevelFor(b)
    ensures DropSpeedFor(LevelFor(b)) <= DropSpeedFor(LevelFor(a))
  {
    assert a / 10 <= b / 10;
  }

  /** The speed schedule: 500 ms on level 1, 460 ms on level 2, 140 ms on
      level 10, and the 100 ms floor from level 11 on. */
  lemma SpeedSchedule(lines: nat)
    ensures lines < 10 ==> DropSpeedFor(LevelFor(lines)) == 500
    ensures 10 <= lines < 20 ==> DropSpeedFor(LevelFor(lines)) == 460
    ensures 90 <= lines < 100 ==> DropSpeedFor(LevelFor(lines)) == 140
    ensures lines >= 100 ==> DropSpeedFor(LevelFor(lines)) == 100
  {
  }
}
