# Tetris game core in Dafny

This project models the game-state machine of a small Tetris game written in
C++ for a handheld with a touch screen: the `TetrisGame` object with its
18 x 12 playfield, the falling piece, the next and held pieces, the
score/lines/level counters and the gravity, lock-delay and input timers.
The model follows `tetris.cpp` and `tetris.h` member by member.

- `shapes.dfy` (module `Shapes`): the piece table. It has seven tetromino
  types in the order O, I, T, S, Z, J, L. Each type has four rotation states,
  and each state gives the row and column offsets of the piece's four cells.
- `board.dfy` (module `Board`): the playfield as a value (`seq<seq<u8>>`),
  with reference definitions for the in-place operations:
  - `Collides` is the collision test.
  - `Placed` is the field with a piece written into it.
  - `Cleared` is the field after full rows are removed.
  - `Fall` is how far a piece can drop.
- `rules.dfy` (module `Rules`): the level and gravity-interval formulas and
  the scoring constants.
- `game.dfy` (module `Game`): class `TetrisGame`. The field is a
  `const field: array2<u8>` that is updated in place. Every other member
  variable is a mutable field.
  - Each source method is a `method` with a field-granular `modifies` clause.
  - Each method is proved against the `Board` functions through the ghost
    view `Snap()` of the array.
  - Each effect is written as a two-state predicate (`Shifted`,
    `HardDropped`, `SoftDropped`, `Rotated`, `Held`, `Locked`, `Dropped`).
  - `Valid()` is the object invariant that every operation keeps:
    - cells hold 0..7;
    - `score >= 0`;
    - `level` and `dropSpeed` follow `linesCleared`;
    - the active and next pieces are piece types;
    - the anchor lies in the field.

The environment is passed in as parameters:
- The clock (`millis()`) is the parameter `now: nat`, and `ClockAfter(now)`
  requires it not to be earlier than any stored time stamp.
- Each value `random(0, 7)` would return is a parameter in 0..6. The first
  draw of `init` is the parameter `first` of `Init`, and every later draw
  comes in a `Draws` value.
- One sample of the input layer is a `Buttons` value.
- The three `static` locals of `handleInput` (`lastMove`, `lastLeftRight`,
  `buttonHeld`) are fields of the class that `Init` does not reset, as in
  the source.

Behaviour as the code has it:
- A hard drop does not lock the piece, even though a comment next to it says
  "force immediate lock". It moves the piece, clears the lock delay and sets
  `lastDropTime` to 0. The next gravity tick is therefore due, finds the
  piece landed, and *starts* the lock delay. `LockExpired` shows that a delay
  starting on the current tick has not expired, so a hard-dropped piece locks
  no earlier than 500 ms later. The model follows the code here.
- A lateral move restarts a running lock delay only when the move succeeds.
  A rotation does the same.
- A hold swap puts the held piece at the spawn position without a collision
  test. Game over is only checked when a piece spawns after a lock.
- The source moves the piece and moves it back when the new position
  collides. The model tests the new position first. `test` reads only its
  arguments and the field, so the two are equivalent.

## Model

| member | source | states |
|---|---|---|
| Shapes.ShapeOf | tetris.cpp:17-31 | the shape table entry for each type and rotation; every offset lies in -1..2 |
| Shapes.RowOff | tetris.cpp:229-230 | row offset of cell i (`pieces[p][r][0][i]`), within -1..2 |
| Shapes.ColOff | tetris.cpp:229-230 | column offset of cell i (`pieces[p][r][1][i]`), within -1..2 |
| Shapes.AnchorCell | tetris.cpp:17-31 | every rotation state has a cell at offset (0, 0): the anchor is one of the piece's blocks |
| Shapes.CellsDistinct | tetris.cpp:17-31 | the four cells of every rotation state are pairwise distinct |
| Game.TetrisGame.Test | tetris.cpp:227-236 | the early-exit loop returns true exactly when some cell is outside the walls, below the floor, or on an occupied in-field cell (`Board.Collides`); cells above the top are only checked against the walls |
| Board.FreeAnchorInField | tetris.cpp:227-236 | a piece that does not collide has its anchor column in 0..W-1 and its anchor row below H |
| Board.CollidesBelowFloor | tetris.cpp:232 | every piece anchored at row H or lower collides |
| Game.TetrisGame.PlacePiece | tetris.cpp:238-246 | the new field is `Placed(old field)`: each in-field cell of the piece holds type + 1, every other cell is unchanged, and all cells stay in 0..7 |
| Board.PlacedInRange | tetris.cpp:243 | placing a piece keeps every cell value in 0..7 |
| Board.PlacedOverwritesNothing | tetris.cpp:238-246 | placing a piece at a position where it does not collide overwrites only empty cells |
| Game.TetrisGame.RowIsFull | tetris.cpp:252-258 | the scan of one row answers true exactly when no cell of the row is 0 |
| Game.TetrisGame.CopyRowDown | tetris.cpp:264-266 | row yy becomes a copy of row yy - 1; all other rows are unchanged |
| Game.TetrisGame.EmptyTopRow | tetris.cpp:268-270 | row 0 becomes empty; all other rows are unchanged |
| Game.TetrisGame.RemoveRow | tetris.cpp:263-270 | the field becomes `WithoutRow(old, y)`: rows above y move down one and row 0 becomes empty |
| Game.TetrisGame.RemoveIfFull | tetris.cpp:252-272 | reports whether row y of the field was full and, if it was, removes it (`WithoutRow`); otherwise the field is unchanged |
| Game.TetrisGame.RemoveFullRows | tetris.cpp:249-273 | the bottom-up scan, which examines the same row again after a removal, leaves `Cleared(old field)`, returns the number of full rows and adds 100 points per row |
| Game.TetrisGame.RecordLines | tetris.cpp:276-286 | adds the rows to `linesCleared`; the level and speed follow the new total, and the level never drops |
| Game.TetrisGame.ClearLines | tetris.cpp:248-287 | field = `Cleared(old)`; score and lines grow by 100 x and 1 x `FullCount(old)`; keeps `Valid()` |
| Board.ScanStep | tetris.cpp:251-273 | one iteration of the clear loop: a full row at the scan position is an unscanned row and removing it advances the scan; a partial row is kept in place; a row in the emptied top is never full |
| Board.ScanDone | tetris.cpp:251-273 | when the scan is finished, the field equals `Cleared` of the original field |
| Board.KeptSplit | tetris.cpp:249-273 | the kept rows are non-full rows of the field, and the kept rows plus the full rows account for every row |
| Board.ClearedWellFormed | tetris.cpp:248-273 | clearing keeps the 18 x 12 shape and the 0..7 cell range |
| Board.ClearedRows | tetris.cpp:248-273 | after a clear no row is full, the top `FullCount` rows are empty, and below them the non-full rows keep their original order |
| Board.ClearedIdempotent | tetris.cpp:248-273 | a second clear with no new placement removes nothing and leaves the field unchanged |
| Rules.LevelFor | tetris.cpp:280 | the level is at least 1, and it is 1 below ten lines |
| Rules.DropSpeedFor | tetris.cpp:284 | the gravity interval is at least 100 ms, and at most 500 ms from level 1 on |
| Rules.MoreLinesFaster | tetris.cpp:276-286 | more cleared lines never lower the level or slow the gravity |
| Rules.SpeedSchedule | tetris.cpp:280-284 | 500 ms below 10 lines, 460 ms at 10-19 lines, 140 ms at 90-99 lines, and 100 ms from 100 lines on |
| Game.TetrisGame.NewPiece | tetris.cpp:289-308 | the next piece becomes active (if there is no next piece, a fresh draw is used) and a new next piece is drawn; rotation 0 at column 5, row 0; lock delay off; `setPiece` re-enables holding |
| Game.TetrisGame.HoldPiece | tetris.cpp:310-327 | `Held`: no change when holding is used up; otherwise the first hold banks the piece and spawns the next one, and later holds swap with the held piece at the spawn position; holding is then used up |
| Game.LateralStep | tetris.cpp:167-174 | left wins over right, and a step is taken only more than 80 ms after the previous one |
| Game.TetrisGame.MoveLateral | tetris.cpp:166-179 | `Shifted`: the piece moves one column only when it fits there; a move that succeeds while the lock delay is running restarts it; the lateral timer is set to now |
| Game.TetrisGame.Sideways | tetris.cpp:166-179 | with no lateral step nothing changes; otherwise `Shifted` for the chosen direction |
| Game.ActionFor | tetris.cpp:181-224 | within 100 ms of the last action nothing happens; otherwise hard drop, soft drop, rotate and hold are tried in that order of priority (all but soft drop need the latch open), each chosen exactly when it is requested and no earlier one is, else the latch is released |
| Game.TetrisGame.DropTarget | tetris.cpp:185-188 | the hard-drop loop stops at `posY + Fall(field, posY)` |
| Board.FallLands | tetris.cpp:185-188 | `Fall` is the unique distance n with rows posY+1..posY+n free and row posY+n+1 blocked |
| Board.FallIsLanding | tetris.cpp:329-339 | `Fall` always lands: the piece is free on every row it passes and blocked one row further |
| Board.LandingIsFall | tetris.cpp:329-339 | any landing distance equals `Fall` |
| Board.FallRests | tetris.cpp:185-188 | a piece that fits still fits after the drop and cannot move one row further |
| Board.Fall | tetris.cpp:185-188 | a piece anchored in the field stays in the field after falling |
| Game.TetrisGame.HardDrop | tetris.cpp:184-193 | `HardDropped`: the piece falls `Fall` rows, 2 points per row, the lock delay is cleared, `lastDropTime` = 0, the latch is set; nothing is locked |
| Game.TetrisGame.SoftDrop | tetris.cpp:195-205 | `SoftDropped`: one row down with 1 point and the lock delay cancelled only when the piece fits there; the timer and latch are set either way |
| Game.TetrisGame.Rotate | tetris.cpp:207-215 | `Rotated`: the rotation advances by a quarter turn (mod 4) only when the rotated piece fits in place; a kept rotation restarts a running lock delay |
| Game.TetrisGame.HoldAndLatch | tetris.cpp:217-221 | `Held`, then the action timer is set to now and the latch is set |
| Game.TetrisGame.Act | tetris.cpp:181-224 | while the 100 ms gate is closed nothing changes; otherwise `Performed` for the action `ActionFor` chooses |
| Game.TetrisGame.Perform | tetris.cpp:183-224 | each action has the effect of its predicate and leaves every other piece and score field unchanged; release clears only the latch |
| Game.TetrisGame.HandleInput | tetris.cpp:161-225 | the lateral timer moves exactly when a step is due; the action timer and latch follow `ActionFor`; score never drops; `Valid()` is kept |
| Game.TetrisGame.CalculateDropDistance | tetris.cpp:329-339 | the ghost-piece distance is `Fall(field, posY)` |
| Game.TetrisGame.LockExpired | tetris.cpp:75 | the lock delay has run out only if it was already running and started at least 500 ms ago; a delay that starts on this tick has not run out |
| Game.TetrisGame.Settle | tetris.cpp:76-77 | field = `Cleared(Placed(old))`, with score and lines counted on the placed field |
| Game.TetrisGame.Respawn | tetris.cpp:78-81 | the next piece spawns with holding allowed again, and `gameOver` becomes true when it collides at the spawn position |
| Game.TetrisGame.LockPiece | tetris.cpp:76-81 | `Locked`: place, clear and score, spawn, then the game-over test on the new field |
| Game.TetrisGame.Landing | tetris.cpp:69-82 | a landed piece starts the lock delay if it is not running; before the delay runs out nothing else changes, and once it has run out the piece locks |
| Game.TetrisGame.Descend | tetris.cpp:65-85 | a piece that fits one row lower moves there and the lock delay is cancelled |
| Game.TetrisGame.GravityStep | tetris.cpp:64-86 | `Dropped`: move down, or wait with the lock delay, or lock, depending on whether the piece has landed and the delay has run out |
| Game.TetrisGame.Gravity | tetris.cpp:63-87 | nothing changes until more than `dropSpeed` ms have passed since the last step; then `Dropped`, and `lastDropTime` = now |
| Game.TetrisGame.Update | tetris.cpp:61-88 | one tick keeps `Valid()`; score, lines and level never decrease; game over persists; a new game over means the active piece overlaps the field |
| Game.TetrisGame.constructor | tetris.cpp:6 | the global object starts zeroed: a freshly allocated, empty field, every counter, time stamp and piece field 0, every flag false, and the `handleInput` statics at 0/false |
| Game.TetrisGame.ClearField | tetris.cpp:10-14 | every cell becomes 0 |
| Game.TetrisGame.ResetScore | tetris.cpp:44-47 | score 0, lines 0, level 1, interval 500 ms, consistent with `LevelFor` and `DropSpeedFor` |
| Game.TetrisGame.Restart | tetris.cpp:44-58 | all counters and flags reset, no held piece, holding allowed, and the first drawn piece spawned |
| Game.TetrisGame.Init | tetris.cpp:8-59 | empty field, counters reset, no held piece, the initial next piece becomes active, a new next piece is drawn, and `Valid()` holds |
| Game.TetrisGame.IsGameOver | tetris.h:56 | returns the game-over flag |
| Game.TetrisGame.GetScore | tetris.h:57 | returns the score, which is never negative |

## Left out

- Rendering: `draw`, `drawGhostPiece`, `drawHoldPiece`, `drawNextPiece`, `drawHoldButton`, `drawControlBoxes`, `drawMiniPiece`, `getName` and `pieceColors`. These are display output only.
- `display.cpp`, `input.cpp`, `main.cpp` and `config.h` are not part of this model. The button sample is a `Buttons` parameter and the loop cadence is left to the caller.
- The `needsRedraw` flag: only `Init` sets it here. It is cleared by `draw`, which is not modelled.
- `millis()`: modelled as one monotonic value `now` per call. The source reads the clock several times within one `update`. The model does not include the 32-bit wrap-around of `unsigned long` time stamps.
- `random(0, 7)`: the drawn values are parameters in 0..6. The model does not include the random source or its distribution.
- The piece table is a constant function (`Shapes.ShapeOf`). In the source it is a member array that `init` fills with `memcpy`; it is never written afterwards.
- Integer widths: `score`, `linesCleared` and `level` are unbounded integers. A 32-bit `int` overflow of the score is not modelled. It would take several million cleared lines, counting the drop points as well as the 100 points per line.
- Game.TetrisGame.HandleInput: the contract summarises the timers, the latch and the score. The full effect of each branch is stated by `Sideways` and `Act`, which it calls in order.
- Game.TetrisGame.Update: the contract states only the invariant, monotonicity and the game-over rules over one tick. The full effect of a tick is stated by the contracts of `Sideways` and `Act` (the two parts of `HandleInput`, whose own contract is a summary) followed by `Gravity`.
- Helper methods (`Sideways`, `Act`, `Perform`, `HoldAndLatch`, `DropTarget`, `Settle`, `Respawn`, `Landing`, `Descend`, `GravityStep`, `ClearField`, `ResetScore`, `Restart`, `RowIsFull`, `RemoveIfFull`, `CopyRowDown`, `EmptyTopRow`, `RemoveRow`, `RemoveFullRows`, `RecordLines`) split single source functions into named parts. They run the source's statements in the source's order, with these differences, none of which changes the final state:
  - `RemoveFullRows` adds a removed row's 100 points after the row is removed rather than before.
  - `DropTarget` advances a local row `y` while the row below is free. `HardDrop` then sets `posY` to it and adds `2 * (y - posY)` once. The source increments `posY` and adds 2 points on each pass of the loop.
  - `MoveLateral`, `SoftDrop` and `GravityStep` test the new position before moving. The source moves, tests and moves back (`posY++` / `test` / `posY--`, and the same for `posX`). `GravityStep` then calls `Landing` when the test found a collision and `Descend` (which moves the piece down) when it did not.
