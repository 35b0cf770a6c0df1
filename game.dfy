/** The game session: one TetrisGame object owns the playfield, the falling
    piece, the next and held pieces, the score and the timers, and is advanced
    once per tick. The clock (millis) is the parameter `now`; each value that
    random(0, 7) would return is a parameter in 0..6. */
module Game {
  import opened Shapes
  import opened Board
  import opened Rules

  /** One sample of the input layer. Only left, right, down, upPressed,
      joyBtnPressed and btnAPressed are read by the game. */
  datatype Buttons = Buttons(
    up: bool, down: bool, left: bool, right: bool, btnA: bool, btnB: bool, joyBtn: bool,
    upPressed: bool, downPressed: bool, leftPressed: bool, rightPressed: bool,
    btnAPressed: bool, btnBPressed: bool, joyBtnPressed: bool)

  /** The next two values random(0, 7) returns. */
  datatype Draws = Draws(first: int, second: int) {
    predicate Valid() { ValidType(first) && ValidType(second) }
  }

  const SpawnX := W / 2 - 1
  const SpawnY := 0
  const NoPiece := -1

  /** What the touch part of handleInput does on one tick: nothing while the
      100 ms repeat gate is closed, else the first requested action, else it
      releases the held-button latch. */
  datatype Action = Wait | HardDropAction | SoftDropAction | RotateAction | HoldAction | Release

  /** The action chosen after `since` milliseconds since the last action,
      with the latch `held` set by the previous action. */
  function ActionFor(since: int, b: Buttons, held: bool): (a: Action)
    ensures a == Wait <==> since < ActionRepeatMs
    ensures a == HardDropAction <==> since >= ActionRepeatMs && b.upPressed && !held
    ensures a == SoftDropAction <==> since >= ActionRepeatMs && !(b.upPressed && !held) && b.down
    ensures a == RotateAction <==> since >= ActionRepeatMs && !(b.upPressed && !held) && !b.down &&
                                   b.joyBtnPressed && !held
    ensures a == HoldAction <==> since >= ActionRepeatMs && !(b.upPressed && !held) && !b.down &&
                                 !(b.joyBtnPressed && !held) && b.btnAPressed && !held
    ensures a == Release <==> since >= ActionRepeatMs && !b.down &&
                               (held || (!b.upPressed && !b.joyBtnPressed && !b.btnAPressed))
  {
    if since < ActionRepeatMs then Wait
    else if b.upPressed && !held then HardDropAction
    else if b.down then SoftDropAction
    else if b.joyBtnPressed && !held then RotateAction
    else if b.btnAPressed && !held then HoldAction
    else Release
  }

  /** The column step of the lateral part of handleInput: left wins over
      right, and neither moves before 80 ms have passed since the last one. */
  function LateralStep(since: int, b: Buttons): (dx: int)
    ensures dx == -1 <==> b.left && since > LateralRepeatMs
    ensures dx == 1 <==> !b.left && b.right && since > LateralRepeatMs
    ensures dx == 0 <==> since <= LateralRepeatMs || (!b.left && !b.right)
  {
    if b.left && since > LateralRepeatMs then -1
    else if b.right && since > LateralRepeatMs then 1
    else 0
  }

  class TetrisGame {
    const field: array2<u8>
    var currentPiece: int
    var currentRot: int
    var posX: int
    var posY: int
    var score: int
    var level: int
    var lastDropTime: nat
    var lockDelayStart: nat
    var lockDelayActive: bool
    var dropSpeed: int
    var gameOver: bool
    var needsRedraw: bool
    var heldPiece: int
    var nextPiece: int
    var canHold: bool
    var linesCleared: int
    // The static locals of handleInput: they live as long as the program and
    // are not reset by Init.
    var lastMove: nat
    var lastLeftRight: nat
    var buttonHeld: bool

    ghost predicate Allocated()
    {
      field.Length0 == H && field.Length1 == W
    }

    /** The field as a value. */
    ghost function Snap(): (g: Grid)
      reads field
      requires Allocated()
      ensures Shaped(g)
      ensures forall r, c :: 0 <= r < H && 0 <= c < W ==> g[r][c] == field[r, c]
    {
      var a := field;
      seq(H, r requires 0 <= r < H reads a => seq(W, c requires 0 <= c < W reads a => a[r, c]))
    }

    /** Every cell of the field is empty or a piece identifier 1..7. */
    ghost predicate FieldOk()
      reads field
    {
      Allocated() && CellsInRange(Snap())
    }

    /** Level and drop speed follow the number of cleared lines. */
    ghost predicate ScoreOk()
      reads this`score, this`linesCleared, this`level, this`dropSpeed
    {
      score >= 0 && linesCleared >= 0 &&
      level == LevelFor(linesCleared) && dropSpeed == DropSpeedFor(level)
    }

    /** The active, next and held pieces are piece types (held may be none) and
        the anchor of the active piece lies in the field. */
    ghost predicate PieceOk()
      reads this`currentPiece, this`currentRot, this`nextPiece, this`heldPiece, this`posY, this`posX
    {
      ValidType(currentPiece) && ValidRot(currentRot) && ValidType(nextPiece) &&
      (heldPiece == NoPiece || ValidType(heldPiece)) &&
      0 <= posY < H && 0 <= posX < W
    }

    ghost predicate Valid()
      reads this, field
    {
      FieldOk() && ScoreOk() && PieceOk()
    }

    /** `now` is not earlier than any time stamp the game has stored. */
    ghost predicate ClockAfter(now: nat)
      reads this`lastDropTime, this`lockDelayStart, this`lastMove, this`lastLeftRight
    {
      lastDropTime <= now && lockDelayStart <= now && lastMove <= now && lastLeftRight <= now
    }

    // ------------------------------------------------------------ collision

    /** Whether the piece of the given type and rotation, anchored at (y, x),
        would collide with a wall, the floor or a locked block; stops at the
        first blocked cell. */
    method Test(y: int, x: int, piece: int, rot: int) returns (hit: bool)
      requires Allocated() && ValidType(piece) && ValidRot(rot)
      ensures hit == Collides(Snap(), y, x, piece, rot)
    {
      var i := 0;
      while i < CellsPerPiece
        invariant 0 <= i <= CellsPerPiece
        invariant forall k :: 0 <= k < i ==>
                    !Blocked(Snap(), y + RowOff(piece, rot, k), x + ColOff(piece, rot, k))
      {
        var px := x + ColOff(piece, rot, i);
        var py := y + RowOff(piece, rot, i);
        if px < 0 || px >= W || py >= H {
          return true;
        }
        if py >= 0 && field[py, px] > 0 {
          return true;
        }
        i := i + 1;
      }
      return false;
    }

    // ------------------------------------------------------------ placement

    /** Writes the active piece into the field. */
    method PlacePiece()
      requires Valid()
      modifies field
      ensures Valid()
      ensures Snap() == Placed(old(Snap()), posY, posX, currentPiece, currentRot)
    {
      var i := 0;
      while i < CellsPerPiece
        invariant 0 <= i <= CellsPerPiece
        invariant FieldOk()
        invariant forall r, c :: 0 <= r < H && 0 <= c < W ==>
                    field[r, c] == if CoversFirst(i, posY, posX, currentPiece, currentRot, r, c)
                                   then (currentPiece + 1) as u8 else old(field[r, c])
      {
        var x := posX + ColOff(currentPiece, currentRot, i);
        var y := posY + RowOff(currentPiece, currentRot, i);
        if y >= 0 && y < H && x >= 0 && x < W {
          field[y, x] := (currentPiece + 1) as u8;
        }
        i := i + 1;
      }
      SameCells(Snap(), Placed(old(Snap()), posY, posX, currentPiece, currentRot));
    }

    // ------------------------------------------------------------ line clear

    /** Copies row yy - 1 onto row yy. */
    method CopyRowDown(yy: int)
      requires Allocated() && 0 < yy < H
      modifies field
      ensures forall r, c :: 0 <= r < H && 0 <= c < W ==>
                field[r, c] == if r == yy then old(field[r - 1, c]) else old(field[r, c])
    {
      var x := 0;
      while x < W
        invariant 0 <= x <= W
        invariant Allocated()
        invariant forall r, c :: 0 <= r < H && 0 <= c < W ==>
                    field[r, c] == if r == yy && c < x then old(field[r - 1, c]) else old(field[r, c])
      {
        field[yy, x] := field[yy - 1, x];
        x := x + 1;
      }
    }

    /** Empties row 0. */
    method EmptyTopRow()
      requires Allocated()
      modifies field
      ensures forall r, c :: 0 <= r < H && 0 <= c < W ==>
                field[r, c] == if r == 0 then 0 else old(field[r, c])
    {
      var x := 0;
      while x < W
        invariant 0 <= x <= W
        invariant forall r, c :: 0 <= r < H && 0 <= c < W ==>
                    field[r, c] == if r == 0 && c < x then 0 else old(field[r, c])
      {
        field[0, x] := 0;
        x := x + 1;
      }
    }

    /** Removes row y: every row above it moves down one, row 0 becomes empty. */
    method RemoveRow(y: int)
      requires Allocated() && 0 <= y < H
      modifies field
      ensures Snap() == WithoutRow(old(Snap()), y)
    {
      var yy := y;
      while yy > 0
        invariant 0 <= yy <= y
        invariant Allocated()
        invariant forall r, c :: 0 <= r < H && 0 <= c < W ==>
                    field[r, c] == if yy < r <= y then old(field[r - 1, c]) else old(field[r, c])
      {
        CopyRowDown(yy);
        yy := yy - 1;
      }
      EmptyTopRow();
      SameCells(Snap(), WithoutRow(old(Snap()), y));
    }
  
    /** Whether row y of the field is full; stops at the first empty cell. */
    method RowIsFull(y: int) returns (fullLine: bool)
      requires Allocated() && 0 <= y < H
      ensures fullLine <==> Full(Snap()[y])
    {
      fullLine := true;
      var x := 0;
      while x < W
        invariant 0 <= x <= W
        invariant forall c :: 0 <= c < x ==> field[y, c] != 0
      {
        if field[y, x] == 0 {
          fullLine := false;
          break;
        }
        x := x + 1;
      }
    }

    /** Adds the rows removed by one clear to the line count and raises the
        level, and with it the drop speed, when a new level is reached. */
    method RecordLines(linesThisClear: int)
      requires ScoreOk() && linesThisClear >= 0
      modifies this`linesCleared, this`level, this`dropSpeed
      ensures ScoreOk()
      ensures linesCleared == old(linesCleared) + linesThisClear
      ensures level >= old(level)
    {
      if linesThisClear > 0 {
        MoreLinesFaster(linesCleared, linesCleared + linesThisClear);
        linesCleared := linesCleared + linesThisClear;
        var newLevel := LevelFor(linesCleared);
        if newLevel > level {
          level := newLevel;
          dropSpeed := DropSpeedFor(level);
        }
      }
    }

    /** One row of the scan of clearLines: a full row is removed. */
    method RemoveIfFull(y: int) returns (fullLine: bool)
      requires Allocated() && 0 <= y < H
      modifies field
      ensures fullLine == Full(old(Snap())[y])
      ensures Snap() == if fullLine then WithoutRow(old(Snap()), y) else old(Snap())
    {
      fullLine := RowIsFull(y);
      if fullLine {
        RemoveRow(y);
      }
    }

    /** The scan of clearLines: from the bottom row up, every full row is
        removed and the same row index is examined again; each removed row is
        worth 100 points. */
    method RemoveFullRows() returns (linesThisClear: int)
      requires Allocated()
      modifies field, this`score
      ensures Snap() == Cleared(old(Snap()))
      ensures linesThisClear == FullCount(old(Snap()))
      ensures score == old(score) + PointsPerLine * linesThisClear
    {
      ghost var g0 := Snap();
      linesThisClear := 0;
      // Rows u.. of g0 have been scanned; rows ..u of g0 sit, unscanned, just
      // under the linesThisClear empty rows at the top.
      ghost var u := H;
      assert g0[..H] == g0 && g0[H..] == [];
      var y := H - 1;
      while y >= 0
        invariant -1 <= y < H && 0 <= u <= H && 0 <= linesThisClear
        invariant u == if y + 1 >= linesThisClear then y + 1 - linesThisClear else 0
        invariant Allocated()
        invariant Snap() == Scanning(g0, linesThisClear, u)
        invariant linesThisClear == FullCount(g0[u..])
        invariant score == old(score) + PointsPerLine * linesThisClear
        decreases y + 1 + H - linesThisClear
      {
        var fullLine := RemoveIfFull(y);
        ScanStep(g0, linesThisClear, u, y);
        if fullLine {
          linesThisClear := linesThisClear + 1;
          score := score + PointsPerLine;
          u := u - 1;
          y := y + 1;
        } else if y >= linesThisClear {
          u := u - 1;
        }
        y := y - 1;
      }
      ScanDone(g0);
      assert u == 0 && g0[u..] == g0;
    }

    /** Removes every full row, adds 100 points per removed row and updates
        the line count, level and drop speed. */
    method ClearLines()
      requires Valid()
      modifies field, this`score, this`linesCleared, this`level, this`dropSpeed
      ensures Valid()
      ensures Snap() == Cleared(old(Snap()))
      ensures score == old(score) + PointsPerLine * FullCount(old(Snap()))
      ensures linesCleared == old(linesCleared) + FullCount(old(Snap()))
      ensures level >= old(level)
    {
      ClearedWellFormed(Snap());
      var linesThisClear := RemoveFullRows();
      RecordLines(linesThisClear);
    }

    // ------------------------------------------------------------ pieces

    /** Makes the next piece the active one at the spawn position and draws a
        new next piece; a negative next piece (none yet) is drawn first. */
    method NewPiece(setPiece: bool, draws: Draws)
      requires nextPiece < Types && draws.Valid()
      modifies this`canHold, this`currentPiece, this`nextPiece, this`currentRot, this`posX,
               this`posY, this`lockDelayActive
      ensures ValidType(currentPiece) && ValidType(nextPiece)
      ensures currentPiece == if old(nextPiece) >= 0 then old(nextPiece) else draws.first
      ensures nextPiece == if old(nextPiece) >= 0 then draws.first else draws.second
      ensures currentRot == 0 && posY == SpawnY && posX == SpawnX && !lockDelayActive
      ensures canHold == (setPiece || old(canHold))
    {
      if setPiece {
        canHold := true;
      }
      if nextPiece >= 0 {
        currentPiece := nextPiece;
        nextPiece := draws.first;
      } else {
        currentPiece := draws.first;
        nextPiece := draws.second;
      }
      currentRot := 0;
      posX := SpawnX;
      posY := SpawnY;
      lockDelayActive := false;
    }

    /** The effect of a hold: nothing when holding is used up for this piece;
        otherwise the active piece is banked and the held piece (or, with
        none held, the next piece) becomes active at the spawn position,
        without a collision test. Either way holding is then used up. */
    twostate predicate Held(draws: Draws)
      reads this`canHold, this`heldPiece, this`currentPiece, this`nextPiece, this`currentRot,
              this`posX, this`posY, this`lockDelayActive
    {
      !canHold &&
      (!old(canHold) ==>
         heldPiece == old(heldPiece) && currentPiece == old(currentPiece) &&
         nextPiece == old(nextPiece) && currentRot == old(currentRot) &&
         posX == old(posX) && posY == old(posY) && lockDelayActive == old(lockDelayActive)) &&
      (old(canHold) ==>
         heldPiece == old(currentPiece) && !lockDelayActive &&
         currentRot == 0 && posY == SpawnY && posX == SpawnX &&
         if old(heldPiece) == NoPiece then currentPiece == old(nextPiece) && nextPiece == draws.first
         else currentPiece == old(heldPiece) && nextPiece == old(nextPiece))
    }

    method HoldPiece(draws: Draws)
      requires Valid() && draws.Valid()
      modifies this`heldPiece, this`canHold, this`currentPiece, this`nextPiece, this`currentRot,
               this`posX, this`posY, this`lockDelayActive
      ensures Valid()
      ensures Held(draws)
    {
      if !canHold {
        return;
      }
      if heldPiece == NoPiece {
        heldPiece := currentPiece;
        NewPiece(false, draws);
      } else {
        var temp := currentPiece;
        currentPiece := heldPiece;
        heldPiece := temp;
        currentRot := 0;
        posX := SpawnX;
        posY := SpawnY;
      }
      canHold := false;
      lockDelayActive := false;
    }

    // ------------------------------------------------------------ input

    /** The effect of a lateral step by dx: taken only when the piece fits
        there, and a taken step during the lock delay restarts it. */
    twostate predicate Shifted(now: nat, dx: int)
      requires old(Valid())
      reads field, this`posY, this`posX, this`currentPiece, this`currentRot,
              this`lockDelayActive, this`lockDelayStart, this`lastLeftRight
    {
      var moved := !old(Collides(Snap(), posY, posX + dx, currentPiece, currentRot));
      posX == (if moved then old(posX) + dx else old(posX)) &&
      lockDelayStart == (if moved && old(lockDelayActive) then now else old(lockDelayStart)) &&
      lastLeftRight == now
    }

    /** One column left (dx = -1) or right (dx = 1). */
    method MoveLateral(now: nat, dx: int)
      requires Valid() && ClockAfter(now) && (dx == -1 || dx == 1)
      modifies this`posX, this`lockDelayStart, this`lastLeftRight
      ensures Valid() && ClockAfter(now)
      ensures Shifted(now, dx)
    {
      // The source moves first and moves back when the new position collides.
      var blocked := Test(posY, posX + dx, currentPiece, currentRot);
      if !blocked {
        FreeAnchorInField(Snap(), posY, posX + dx, currentPiece, currentRot);
        posX := posX + dx;
        if lockDelayActive {
          lockDelayStart := now;
        }
      }
      lastLeftRight := now;
    }

    /** The loop of the hard drop: the row at which the active piece stops
        when it keeps moving down while the row below is free. */
    method DropTarget() returns (y: int)
      requires Valid()
      ensures y == posY + Fall(Snap(), posY, posX, currentPiece, currentRot)
    {
      ghost var g := Snap();
      y := posY;
      var blocked := Test(y + 1, posX, currentPiece, currentRot);
      while !blocked
        invariant posY <= y < H
        invariant blocked == Collides(g, y + 1, posX, currentPiece, currentRot)
        invariant forall r :: posY < r <= y ==> !Collides(g, r, posX, currentPiece, currentRot)
        decreases H - y
      {
        FreeAnchorInField(g, y + 1, posX, currentPiece, currentRot);
        y := y + 1;
        blocked := Test(y + 1, posX, currentPiece, currentRot);
      }
      FallLands(g, posY, posX, currentPiece, currentRot, y - posY);
    }

    /** The effect of a hard drop: the piece falls as far as it can, 2 points
        per row. It is not locked: the lock delay is cleared and the gravity
        timer is zeroed so that the next tick finds the piece landed. */
    twostate predicate HardDropped(now: nat)
      requires old(Valid())
      reads field, this`posY, this`posX, this`currentPiece, this`currentRot, this`score,
              this`lockDelayActive, this`lastDropTime, this`lastMove, this`buttonHeld
    {
      posY == old(posY + Fall(Snap(), posY, posX, currentPiece, currentRot)) &&
      score == old(score) + HardDropPointsPerRow * (posY - old(posY)) &&
      !lockDelayActive && lastDropTime == 0 && lastMove == now && buttonHeld
    }

    method HardDrop(now: nat)
      requires Valid() && ClockAfter(now)
      modifies this`posY, this`score, this`lockDelayActive, this`lastDropTime, this`lastMove,
               this`buttonHeld
      ensures Valid() && ClockAfter(now)
      ensures HardDropped(now)
    {
      var y := DropTarget();
      score := score + HardDropPointsPerRow * (y - posY);
      posY := y;
      lockDelayActive := false;
      lastDropTime := 0;
      lastMove := now;
      buttonHeld := true;
    }

    /** The effect of a soft drop: one row down when the piece fits there,
        worth 1 point and cancelling the lock delay; otherwise only the
        timers move. */
    twostate predicate SoftDropped(now: nat)
      requires old(Valid())
      reads field, this`posY, this`posX, this`currentPiece, this`currentRot, this`score,
              this`lockDelayActive, this`lastMove, this`buttonHeld
    {
      var fell := !old(Collides(Snap(), posY + 1, posX, currentPiece, currentRot));
      posY == (if fell then old(posY) + 1 else old(posY)) &&
      score == (if fell then old(score) + SoftDropPoints else old(score)) &&
      lockDelayActive == (old(lockDelayActive) && !fell) &&
      lastMove == now && buttonHeld
    }

    method SoftDrop(now: nat)
      requires Valid() && ClockAfter(now)
      modifies this`posY, this`score, this`lockDelayActive, this`lastMove, this`buttonHeld
      ensures Valid() && ClockAfter(now)
      ensures SoftDropped(now)
    {
      var blocked := Test(posY + 1, posX, currentPiece, currentRot);
      if !blocked {
        FreeAnchorInField(Snap(), posY + 1, posX, currentPiece, currentRot);
        posY := posY + 1;
        score := score + 1;
        lockDelayActive := false;
      }
      lastMove := now;
      buttonHeld := true;
    }

    /** The effect of a rotation by a quarter turn: kept only when the
        rotated piece fits in place; a kept rotation during the lock delay
        restarts it. */
    twostate predicate Rotated(now: nat)
      requires old(Valid())
      reads field, this`posY, this`posX, this`currentPiece, this`currentRot,
              this`lockDelayActive, this`lockDelayStart, this`lastMove, this`buttonHeld
    {
      var turned := !old(Collides(Snap(), posY, posX, currentPiece, (currentRot + 1) % Rotations));
      currentRot == (if turned then (old(currentRot) + 1) % Rotations else old(currentRot)) &&
      lockDelayStart == (if turned && old(lockDelayActive) then now else old(lockDelayStart)) &&
      lastMove == now && buttonHeld
    }

    method Rotate(now: nat)
      requires Valid() && ClockAfter(now)
      modifies this`currentRot, this`lockDelayStart, this`lastMove, this`buttonHeld
      ensures Valid() && ClockAfter(now)
      ensures Rotated(now)
    {
      var newRot := (currentRot + 1) % Rotations;
      var blocked := Test(posY, posX, currentPiece, newRot);
      if !blocked {
        currentRot := newRot;
        if lockDelayActive {
          lockDelayStart := now;
        }
      }
      lastMove := now;
      buttonHeld := true;
    }

    /** The distance the ghost piece is drawn below the active piece. */
    method CalculateDropDistance() returns (dropDist: int)
      requires Valid()
      ensures dropDist == Fall(Snap(), posY, posX, currentPiece, currentRot)
    {
      ghost var g := Snap();
      dropDist := 0;
      var testY := posY + 1;
      while testY < H
        invariant posY + 1 <= testY <= H
        invariant dropDist == testY - 1 - posY
        invariant forall r :: posY < r < testY ==> !Collides(g, r, posX, currentPiece, currentRot)
      {
        var blocked := Test(testY, posX, currentPiece, currentRot);
        if !blocked {
          dropDist := testY - posY;
        } else {
          break;
        }
        testY := testY + 1;
      }
      if testY == H {
        CollidesBelowFloor(g, H, posX, currentPiece, currentRot);
      }
      FallLands(g, posY, posX, currentPiece, currentRot, dropDist);
    }

    /** The lateral part of handleInput: left, else right, at most one
        column every 80 ms. */
    method Sideways(now: nat, b: Buttons)
      requires Valid() && ClockAfter(now)
      modifies this`posX, this`lockDelayStart, this`lastLeftRight
      ensures Valid() && ClockAfter(now)
      ensures var dx := LateralStep(now - old(lastLeftRight), b);
              (dx == 0 ==> unchanged(this)) && (dx != 0 ==> Shifted(now, dx))
    {
      if b.left && now - lastLeftRight > LateralRepeatMs {
        MoveLateral(now, -1);
      } else if b.right && now - lastLeftRight > LateralRepeatMs {
        MoveLateral(now, 1);
      }
    }

    /** The touch part of handleInput: once 100 ms have passed since the last
        action, at most one of hard drop, soft drop, rotation and hold, in
        that order of priority; with nothing to do it releases the latch. */
    method Act(now: nat, b: Buttons, draws: Draws)
      requires Valid() && ClockAfter(now) && draws.Valid()
      modifies this`posY, this`currentRot, this`currentPiece, this`nextPiece, this`heldPiece,
               this`canHold, this`score, this`lockDelayActive, this`lockDelayStart,
               this`lastDropTime, this`lastMove, this`buttonHeld, this`posX
      ensures Valid() && ClockAfter(now)
      ensures score >= old(score)
      ensures var act := ActionFor(now - old(lastMove), b, old(buttonHeld));
              (act == Wait ==> unchanged(this)) && (act != Wait ==> Performed(now, act, draws))
    {
      var act := ActionFor(now - lastMove, b, buttonHeld);
      if act != Wait {
        Perform(now, act, draws);
      }
    }

    /** The effect of one touch action other than waiting. */
    twostate predicate Performed(now: nat, act: Action, draws: Draws)
      requires old(Valid()) && act != Wait
      reads field, this`posY, this`currentRot, this`currentPiece, this`nextPiece,
            this`heldPiece, this`canHold, this`score, this`lockDelayActive, this`lockDelayStart,
            this`lastDropTime, this`lastMove, this`buttonHeld, this`posX
    {
      match act
      case Release =>
        !buttonHeld &&
        unchanged(this`posX, this`posY, this`currentRot, this`currentPiece, this`nextPiece,
                  this`heldPiece, this`canHold, this`score, this`lockDelayActive,
                  this`lockDelayStart, this`lastDropTime, this`lastMove)
      case HardDropAction =>
        HardDropped(now) &&
        unchanged(this`posX, this`currentRot, this`currentPiece, this`nextPiece,
                  this`heldPiece, this`canHold, this`lockDelayStart)
      case SoftDropAction =>
        SoftDropped(now) &&
        unchanged(this`posX, this`currentRot, this`currentPiece, this`nextPiece,
                  this`heldPiece, this`canHold, this`lockDelayStart, this`lastDropTime)
      case RotateAction =>
        Rotated(now) &&
        unchanged(this`posX, this`posY, this`currentPiece, this`nextPiece, this`heldPiece,
                  this`canHold, this`score, this`lockDelayActive, this`lastDropTime)
      case HoldAction =>
        Held(draws) && lastMove == now && buttonHeld &&
        unchanged(this`score, this`lockDelayStart, this`lastDropTime)
    }

    /** The hold action of handleInput: the hold itself, then the action
        timer and the latch. */
    method HoldAndLatch(now: nat, draws: Draws)
      requires Valid() && ClockAfter(now) && draws.Valid()
      modifies this`heldPiece, this`canHold, this`currentPiece, this`nextPiece, this`currentRot,
               this`posX, this`posY, this`lockDelayActive, this`lastMove, this`buttonHeld
      ensures Valid() && ClockAfter(now)
      ensures Held(draws) && lastMove == now && buttonHeld
    {
      HoldPiece(draws);
      lastMove := now;
      buttonHeld := true;
    }

    /** Carries out the chosen touch action. */
    method Perform(now: nat, act: Action, draws: Draws)
      requires Valid() && ClockAfter(now) && draws.Valid() && act != Wait
      modifies this`posY, this`currentRot, this`currentPiece, this`nextPiece, this`heldPiece,
               this`canHold, this`score, this`lockDelayActive, this`lockDelayStart,
               this`lastDropTime, this`lastMove, this`buttonHeld, this`posX
      ensures Valid() && ClockAfter(now)
      ensures score >= old(score)
      ensures Performed(now, act, draws)
    {
      match act {
        case HardDropAction => HardDrop(now);
        case SoftDropAction => SoftDrop(now);
        case RotateAction => Rotate(now);
        case HoldAction => HoldAndLatch(now, draws);
        case Release => buttonHeld := false;
      }
    }

    /** One sample of the buttons: the lateral move, then the touch action.
        The field is never written here, so no piece locks during input. */
    method HandleInput(now: nat, b: Buttons, draws: Draws)
      requires Valid() && ClockAfter(now) && draws.Valid()
      modifies this`posX, this`posY, this`currentRot, this`currentPiece, this`nextPiece,
               this`heldPiece, this`canHold, this`score, this`lockDelayActive, this`lockDelayStart,
               this`lastDropTime, this`lastMove, this`lastLeftRight, this`buttonHeld
      ensures Valid() && ClockAfter(now)
      ensures score >= old(score)
      ensures lastLeftRight == if LateralStep(now - old(lastLeftRight), b) == 0 then old(lastLeftRight) else now
      ensures var act := ActionFor(now - old(lastMove), b, old(buttonHeld));
              (act == Wait ==> lastMove == old(lastMove) && buttonHeld == old(buttonHeld) &&
                               posY == old(posY) && score == old(score) && currentRot == old(currentRot)) &&
              (act == Release ==> lastMove == old(lastMove) && !buttonHeld) &&
              (act != Wait && act != Release ==> lastMove == now && buttonHeld)
    {
      Sideways(now, b);
      Act(now, b, draws);
    }

    // ------------------------------------------------------------ gravity

    /** The gravity interval has passed since the last gravity step. */
    ghost predicate Due(now: nat)
      reads this`lastDropTime, this`dropSpeed
    {
      now - lastDropTime > dropSpeed
    }

    /** The active piece cannot move one row down. */
    ghost predicate Landed()
      reads field, this`posY, this`posX, this`currentPiece, this`currentRot
      requires Allocated() && ValidType(currentPiece) && ValidRot(currentRot)
    {
      Collides(Snap(), posY + 1, posX, currentPiece, currentRot)
    }

    /** When the lock delay counts from: its start if it is running, else
        this tick, which starts it. */
    ghost function LockStart(now: nat): nat
      reads this`lockDelayActive, this`lockDelayStart
    {
      if lockDelayActive then lockDelayStart else now
    }

    /** The lock delay has run out. A delay that starts on this tick has not,
        so a piece never locks on the tick it lands. */
    ghost predicate LockExpired(now: nat)
      reads this`lockDelayActive, this`lockDelayStart
      ensures LockExpired(now) ==> lockDelayActive && now >= lockDelayStart + LockDelayMs
    {
      now - LockStart(now) >= LockDelayMs
    }

    /** The effect of locking the active piece: it is written into the
        field, full rows are cleared and scored, the next piece spawns with
        holding allowed again, and the game is over when it spawns onto a
        block. */
    twostate predicate Locked(draws: Draws)
      requires old(Valid()) && Allocated()
      reads field, this`score, this`linesCleared, this`currentPiece, this`nextPiece,
            this`currentRot, this`posX, this`posY, this`canHold, this`lockDelayActive, this`gameOver
    {
      var placed := old(Placed(Snap(), posY, posX, currentPiece, currentRot));
      Snap() == Cleared(placed) &&
      score == old(score) + PointsPerLine * FullCount(placed) &&
      linesCleared == old(linesCleared) + FullCount(placed) &&
      currentPiece == old(nextPiece) && nextPiece == draws.first &&
      currentRot == 0 && posY == SpawnY && posX == SpawnX && canHold && !lockDelayActive &&
      gameOver == (old(gameOver) || Collides(Snap(), SpawnY, SpawnX, currentPiece, 0))
    }

    /** The first half of a lock: the active piece is written into the field
        and full rows are cleared and scored. */
    method Settle()
      requires Valid()
      modifies field, this`score, this`linesCleared, this`level, this`dropSpeed
      ensures Valid()
      ensures Snap() == Cleared(old(Placed(Snap(), posY, posX, currentPiece, currentRot)))
      ensures score == old(score) + PointsPerLine * FullCount(old(Placed(Snap(), posY, posX, currentPiece, currentRot)))
      ensures linesCleared == old(linesCleared) + FullCount(old(Placed(Snap(), posY, posX, currentPiece, currentRot)))
      ensures level >= old(level)
    {
      PlacePiece();
      ClearLines();
    }

    /** The second half of a lock: the next piece spawns with holding allowed
        again, and the game is over when it spawns onto a block. */
    method Respawn(draws: Draws)
      requires Valid() && draws.Valid()
      modifies this`canHold, this`currentPiece, this`nextPiece, this`currentRot, this`posX,
               this`posY, this`lockDelayActive, this`gameOver
      ensures Valid()
      ensures currentPiece == old(nextPiece) && nextPiece == draws.first
      ensures currentRot == 0 && posY == SpawnY && posX == SpawnX && canHold && !lockDelayActive
      ensures gameOver == (old(gameOver) || Collides(Snap(), SpawnY, SpawnX, currentPiece, 0))
    {
      NewPiece(true, draws);
      var blocked := Test(posY, posX, currentPiece, currentRot);
      if blocked {
        gameOver := true;
      }
    }

    /** Locks the active piece: place, clear, spawn, game-over test. */
    method LockPiece(draws: Draws)
      requires Valid() && draws.Valid()
      modifies field, this`score, this`linesCleared, this`level, this`dropSpeed, this`canHold,
               this`currentPiece, this`nextPiece, this`currentRot, this`posX, this`posY,
               this`lockDelayActive, this`gameOver
      ensures Valid()
      ensures Locked(draws)
      ensures level >= old(level)
    {
      Settle();
      Respawn(draws);
    }

    /** The landed branch of the gravity step: the lock delay starts if it is
        not running, and the piece locks once the delay has run for 500 ms. */
    method Landing(now: nat, draws: Draws)
      requires Valid() && ClockAfter(now) && draws.Valid()
      modifies field, this`lockDelayActive, this`lockDelayStart,
               this`score, this`linesCleared, this`level, this`dropSpeed, this`canHold,
               this`currentPiece, this`nextPiece, this`currentRot, this`posX, this`posY, this`gameOver
      ensures Valid() && ClockAfter(now)
      ensures level >= old(level)
      ensures !old(LockExpired(now)) ==>
                lockDelayActive && lockDelayStart == old(LockStart(now)) &&
                unchanged(field) &&
                unchanged(this`posY, this`posX, this`currentPiece, this`currentRot, this`nextPiece,
                          this`score, this`linesCleared, this`canHold, this`gameOver)
      ensures old(LockExpired(now)) ==> Locked(draws) && lockDelayStart == old(lockDelayStart)
    {
      if !lockDelayActive {
        lockDelayActive := true;
        lockDelayStart := now;
      }
      if now - lockDelayStart >= LockDelayMs {
        LockPiece(draws);
      }
    }

    /** The free branch of the gravity step: one row down, and the lock
        delay is cancelled. */
    method Descend()
      requires Valid() && !Landed()
      modifies this`posY, this`lockDelayActive
      ensures Valid()
      ensures posY == old(posY) + 1 && !lockDelayActive
    {
      FreeAnchorInField(Snap(), posY + 1, posX, currentPiece, currentRot);
      posY := posY + 1;
      lockDelayActive := false;
    }

    /** The effect of a gravity step that is due: a piece that fits one row
        lower moves there and the lock delay is cancelled; a landed piece
        stays and the lock delay runs (started now if it was not running);
        once the delay has run out the piece locks. */
    twostate predicate Dropped(now: nat, draws: Draws)
      requires old(Valid()) && Allocated()
      reads field, this`posY, this`lockDelayActive, this`lockDelayStart, this`score,
            this`linesCleared, this`canHold, this`currentPiece, this`nextPiece, this`currentRot,
            this`posX, this`gameOver
    {
      (!old(Landed()) ==>
         posY == old(posY) + 1 && !lockDelayActive && unchanged(field) &&
         unchanged(this`posX, this`currentPiece, this`currentRot, this`nextPiece, this`score,
                   this`linesCleared, this`canHold, this`lockDelayStart, this`gameOver)) &&
      (old(Landed()) && !old(LockExpired(now)) ==>
         lockDelayActive && lockDelayStart == old(LockStart(now)) && unchanged(field) &&
         unchanged(this`posY, this`posX, this`currentPiece, this`currentRot, this`nextPiece,
                   this`score, this`linesCleared, this`canHold, this`gameOver)) &&
      (old(Landed()) && old(LockExpired(now)) ==>
         Locked(draws) && lockDelayStart == old(lockDelayStart))
    }

    /** The body of a due gravity step: the piece moves down one row if it
        fits, and lands otherwise. */
    method GravityStep(now: nat, draws: Draws)
      requires Valid() && ClockAfter(now) && draws.Valid()
      modifies field, this`posY, this`lockDelayActive, this`lockDelayStart,
               this`score, this`linesCleared, this`level, this`dropSpeed, this`canHold,
               this`currentPiece, this`nextPiece, this`currentRot, this`posX, this`gameOver
      ensures Valid() && ClockAfter(now)
      ensures level >= old(level)
      ensures Dropped(now, draws)
    {
      // The source moves down first and moves back when the piece collides.
      var blocked := Test(posY + 1, posX, currentPiece, currentRot);
      if blocked {
        Landing(now, draws);
      } else {
        Descend();
      }
    }

    /** The gravity step of update: nothing until the interval has passed
        since the last step; then a step as described by Dropped, and the
        interval restarts now. */
    method Gravity(now: nat, draws: Draws)
      requires Valid() && ClockAfter(now) && draws.Valid()
      modifies field, this`posY, this`lockDelayActive, this`lockDelayStart, this`lastDropTime,
               this`score, this`linesCleared, this`level, this`dropSpeed, this`canHold,
               this`currentPiece, this`nextPiece, this`currentRot, this`posX, this`gameOver
      ensures Valid() && ClockAfter(now)
      ensures level >= old(level)
      ensures !old(Due(now)) ==> unchanged(this, field)
      ensures old(Due(now)) ==> lastDropTime == now && Dropped(now, draws)
    {
      if now - lastDropTime > dropSpeed {
        GravityStep(now, draws);
        lastDropTime := now;
      }
    }

    /** One game tick: input, then gravity. Score, lines and level never
        decrease, and the game, once over, stays over. */
    method Update(now: nat, b: Buttons, holdDraws: Draws, lockDraws: Draws)
      requires Valid() && ClockAfter(now) && holdDraws.Valid() && lockDraws.Valid()
      modifies field, this`posX, this`posY, this`currentRot, this`currentPiece, this`nextPiece,
               this`heldPiece, this`canHold, this`score, this`lockDelayActive, this`lockDelayStart,
               this`lastDropTime, this`lastMove, this`lastLeftRight, this`buttonHeld,
               this`linesCleared, this`level, this`dropSpeed, this`gameOver
      ensures Valid() && ClockAfter(now)
      ensures score >= old(score) && linesCleared >= old(linesCleared) && level >= old(level)
      ensures old(gameOver) ==> gameOver
      ensures gameOver && !old(gameOver) ==> Collides(Snap(), posY, posX, currentPiece, currentRot)
    {
      HandleInput(now, b, holdDraws);
      Gravity(now, lockDraws);
    }

    // ------------------------------------------------------------ setup

    /** A game object before init: an empty field and zeroed state, as for a
        statically allocated object. */
    constructor ()
      ensures fresh(field) && Allocated() && Snap() == EmptyGrid()
      ensures currentPiece == 0 && currentRot == 0 && posX == 0 && posY == 0
      ensures score == 0 && level == 0 && dropSpeed == 0 && linesCleared == 0
      ensures lastDropTime == 0 && lockDelayStart == 0
      ensures !lockDelayActive && !gameOver && !needsRedraw
      ensures heldPiece == 0 && nextPiece == 0 && !canHold
      ensures lastMove == 0 && lastLeftRight == 0 && !buttonHeld
    {
      field := new u8[H, W]((r, c) => 0);
      currentPiece, currentRot, posX, posY := 0, 0, 0, 0;
      score, level, dropSpeed, linesCleared := 0, 0, 0, 0;
      lastDropTime, lockDelayStart := 0, 0;
      lockDelayActive, gameOver, needsRedraw := false, false, false;
      heldPiece, nextPiece, canHold := 0, 0, false;
      lastMove, lastLeftRight, buttonHeld := 0, 0, false;
      new;
      SameCells(Snap(), EmptyGrid());
    }

    /** The loops of init that empty every cell of the field. */
    method ClearField()
      requires Allocated()
      modifies field
      ensures Snap() == EmptyGrid()
    {
      var y := 0;
      while y < H
        invariant 0 <= y <= H
        invariant forall r, c :: 0 <= r < y && 0 <= c < W ==> field[r, c] == 0
      {
        var x := 0;
        while x < W
          invariant 0 <= x <= W
          invariant forall r, c :: 0 <= r < H && 0 <= c < W && (r < y || (r == y && c < x)) ==>
                      field[r, c] == 0
        {
          field[y, x] := 0;
          x := x + 1;
        }
        y := y + 1;
      }
      SameCells(Snap(), EmptyGrid());
    }

    /** The score part of init: no points, no lines, level 1 at the slowest
        speed. */
    method ResetScore()
      modifies this`score, this`level, this`linesCleared, this`dropSpeed
      ensures ScoreOk()
      ensures score == 0 && linesCleared == 0 && level == 1 && dropSpeed == 500
    {
      score := 0;
      level := 1;
      linesCleared := 0;
      dropSpeed := 500;
    }

    /** The scalar resets of init: score, level, speed, flags and the hold
        slot, then the first spawn. */
    method Restart(first: int, draws: Draws)
      requires ValidType(first) && draws.Valid()
      modifies this`score, this`level, this`linesCleared, this`dropSpeed, this`gameOver,
               this`needsRedraw, this`lastDropTime, this`lockDelayActive, this`heldPiece,
               this`nextPiece, this`canHold, this`currentPiece, this`currentRot, this`posX, this`posY
      ensures ScoreOk() && PieceOk()
      ensures score == 0 && linesCleared == 0 && level == 1 && dropSpeed == 500
      ensures !gameOver && needsRedraw && lastDropTime == 0 && !lockDelayActive
      ensures heldPiece == NoPiece && canHold
      ensures currentPiece == first && nextPiece == draws.first
      ensures currentRot == 0 && posY == SpawnY && posX == SpawnX
    {
      ResetScore();
      gameOver := false;
      needsRedraw := true;
      lastDropTime := 0;
      lockDelayActive := false;
      heldPiece := NoPiece;
      nextPiece := first;
      canHold := true;
      NewPiece(false, draws);
    }

    /** Starts a game: clears the field, resets score, level, speed and the
        hold slot, draws the first next piece and spawns. The lock-delay
        start and the input timers keep their values. */
    method Init(first: int, draws: Draws)
      requires Allocated() && ValidType(first) && draws.Valid()
      modifies field, this`score, this`level, this`linesCleared, this`dropSpeed, this`gameOver,
               this`needsRedraw, this`lastDropTime, this`lockDelayActive, this`heldPiece,
               this`nextPiece, this`canHold, this`currentPiece, this`currentRot, this`posX, this`posY
      ensures Valid()
      ensures Snap() == EmptyGrid()
      ensures score == 0 && linesCleared == 0 && level == 1 && dropSpeed == 500
      ensures !gameOver && needsRedraw && lastDropTime == 0 && !lockDelayActive
      ensures heldPiece == NoPiece && canHold
      ensures currentPiece == first && nextPiece == draws.first
      ensures currentRot == 0 && posY == SpawnY && posX == SpawnX
    {
      ClearField();
      Restart(first, draws);
    }

    // ------------------------------------------------------------ queries

    method IsGameOver() returns (over: bool)
      ensures over == gameOver
    {
      over := gameOver;
    }

    method GetScore() returns (points: int)
      requires Valid()
      ensures points == score && points >= 0
    {
      points := score;
    }
  }
}
