/** The playfield as a value: FIELD_HEIGHT rows of FIELD_WIDTH cells, row 0 at
    the top. A cell is 0 when empty and 1..7 (piece type + 1) when a block is
    locked there. This module is the reference against which the in-place
    operations of the game class are proved. */
module Board {
  import opened Shapes

  const H := 18   // FIELD_HEIGHT
  const W := 12   // FIELD_WIDTH

  /** The cell type of the field, uint8_t. */
  newtype u8 = x: int | 0 <= x < 256

  type Row = seq<u8>
  type Grid = seq<Row>

  /** g has the field's dimensions. */
  predicate Shaped(g: Grid) {
    |g| == H && forall r :: 0 <= r < |g| ==> |g[r]| == W
  }

  /** Every cell is empty or holds a piece identifier 1..7. */
  predicate CellsInRange(g: Grid) {
    forall r, c :: 0 <= r < |g| && 0 <= c < |g[r]| ==> g[r][c] <= 7
  }

  predicate WellFormed(g: Grid) { Shaped(g) && CellsInRange(g) }

  /** A row is full when every column is occupied. */
  predicate Full(row: Row) {
    forall c :: 0 <= c < |row| ==> row[c] != 0
  }

  function EmptyRow(): (row: Row)
    ensures |row| == W && forall c :: 0 <= c < W ==> row[c] == 0
  {
    seq(W, _ => 0)
  }

  function EmptyRows(k: nat): (rows: Grid)
    ensures |rows| == k && forall r :: 0 <= r < k ==> rows[r] == EmptyRow()
  {
    seq(k, _ => EmptyRow())
  }

  function EmptyGrid(): (g: Grid)
    ensures WellFormed(g)
    ensures forall r, c :: 0 <= r < H && 0 <= c < W ==> g[r][c] == 0
  {
    EmptyRows(H)
  }

  /** Two fields with the same cells are the same field. */
  lemma SameCells(a: Grid, b: Grid)
    requires Shaped(a) && Shaped(b)
    requires forall r, c :: 0 <= r < H && 0 <= c < W ==> a[r][c] == b[r][c]
    ensures a == b
  {
    forall r | 0 <= r < H ensures a[r] == b[r] {
      assert forall c :: 0 <= c < W ==> a[r][c] == b[r][c];
    }
  }

  // ---------------------------------------------------------------- collision

  /** The absolute cell (py, px) is unavailable to a falling piece: it is left
      or right of the walls, below the floor, or an occupied cell of the
      field. Cells above the field (py < 0) are only checked against the
      walls. */
  predicate Blocked(g: Grid, py: int, px: int)
    requires Shaped(g)
  {
    px < 0 || px >= W || py >= H || (0 <= py && g[py][px] != 0)
  }

  /** The piece of the given type and rotation, anchored at (y, x), would
      collide. */
  predicate Collides(g: Grid, y: int, x: int, piece: int, rot: int)
    requires Shaped(g) && ValidType(piece) && ValidRot(rot)
  {
    exists i :: 0 <= i < CellsPerPiece && Blocked(g, y + RowOff(piece, rot, i), x + ColOff(piece, rot, i))
  }

  /** A piece that does not collide has its anchor inside the field (the
      anchor is one of its cells) and so lies above the floor. */
  lemma FreeAnchorInField(g: Grid, y: int, x: int, piece: int, rot: int)
    requires Shaped(g) && ValidType(piece) && ValidRot(rot)
    requires !Collides(g, y, x, piece, rot)
    ensures y < H && 0 <= x < W
  {
    var i := AnchorCell(piece, rot);
    assert !Blocked(g, y + RowOff(piece, rot, i), x + ColOff(piece, rot, i));
  }

  /** Any piece anchored on or below the floor row H collides. */
  lemma CollidesBelowFloor(g: Grid, y: int, x: int, piece: int, rot: int)
    requires Shaped(g) && ValidType(piece) && ValidRot(rot)
    requires y >= H
    ensures Collides(g, y, x, piece, rot)
  {
    var i := AnchorCell(piece, rot);
    assert Blocked(g, y + RowOff(piece, rot, i), x + ColOff(piece, rot, i));
  }

  // ---------------------------------------------------------------- placement

  /** (r, c) is one of the first n cells of the piece anchored at (y, x). */
  predicate CoversFirst(n: int, y: int, x: int, piece: int, rot: int, r: int, c: int)
    requires ValidType(piece) && ValidRot(rot) && n <= CellsPerPiece
  {
    exists i :: 0 <= i < n && y + RowOff(piece, rot, i) == r && x + ColOff(piece, rot, i) == c
  }

  /** (r, c) is one of the cells of the piece anchored at (y, x). */
  predicate Covers(y: int, x: int, piece: int, rot: int, r: int, c: int)
    requires ValidType(piece) && ValidRot(rot)
  {
    CoversFirst(CellsPerPiece, y, x, piece, rot, r, c)
  }

  /** The field with the piece written into it: each of the piece's cells that
      lies inside the field holds piece + 1, every other cell is as before. */
  function Placed(g: Grid, y: int, x: int, piece: int, rot: int): (g': Grid)
    requires Shaped(g) && ValidType(piece) && ValidRot(rot)
    ensures Shaped(g')
    ensures forall r, c :: 0 <= r < H && 0 <= c < W ==>
              g'[r][c] == if Covers(y, x, piece, rot, r, c) then (piece + 1) as u8 else g[r][c]
  {
    seq(H, r requires 0 <= r < H =>
      seq(W, c requires 0 <= c < W =>
        if Covers(y, x, piece, rot, r, c) then (piece + 1) as u8 else g[r][c]))
  }

  /** Placing keeps every cell value in 0..7. */
  lemma PlacedInRange(g: Grid, y: int, x: int, piece: int, rot: int)
    requires WellFormed(g) && ValidType(piece) && ValidRot(rot)
    ensures WellFormed(Placed(g, y, x, piece, rot))
  {
    var g' := Placed(g, y, x, piece, rot);
    forall r, c | 0 <= r < |g'| && 0 <= c < |g'[r]| ensures g'[r][c] <= 7 {
    }
  }

  /** A piece placed where it does not collide overwrites no locked block:
      every in-field cell it covers was empty. */
  lemma PlacedOverwritesNothing(g: Grid, y: int, x: int, piece: int, rot: int, r: int, c: int)
    requires Shaped(g) && ValidType(piece) && ValidRot(rot)
    requires !Collides(g, y, x, piece, rot)
    requires 0 <= r < H && 0 <= c < W && Covers(y, x, piece, rot, r, c)
    ensures g[r][c] == 0
  {
    var i :| 0 <= i < CellsPerPiece && y + RowOff(piece, rot, i) == r && x + ColOff(piece, rot, i) == c;
    assert !Blocked(g, y + RowOff(piece, rot, i), x + ColOff(piece, rot, i));
  }

  // ---------------------------------------------------------------- line clear

  /** The rows of g that are not full, in their original order. */
  function Kept(g: Grid): Grid {
    if g == [] then []
    else (if Full(g[0]) then [] else [g[0]]) + Kept(g[1..])
  }

  /** The number of full rows of g. */
  function FullCount(g: Grid): nat {
    if g == [] then 0
    else (if Full(g[0]) then 1 else 0) + FullCount(g[1..])
  }

  /** The field after every full row is removed: the surviving rows, packed at
      the bottom in their order, under one empty row per removed row. */
  function Cleared(g: Grid): Grid {
    EmptyRows(FullCount(g)) + Kept(g)
  }

  /** Kept and FullCount of a suffix of g, one row at a time. */
  lemma KeptFrom(g: Grid, i: int)
    requires 0 <= i < |g|
    ensures Kept(g[i..]) == (if Full(g[i]) then [] else [g[i]]) + Kept(g[i + 1..])
    ensures FullCount(g[i..]) == (if Full(g[i]) then 1 else 0) + FullCount(g[i + 1..])
  {
    assert g[i..][0] == g[i];
    assert g[i..][1..] == g[i + 1..];
  }

  /** Kept and FullCount split g: every kept row is a non-full row of g, and
      the kept rows and the full rows together account for all of g. */
  lemma {:induction false} KeptSplit(g: Grid)
    ensures |Kept(g)| + FullCount(g) == |g|
    ensures forall k :: 0 <= k < |Kept(g)| ==> Kept(g)[k] in g && !Full(Kept(g)[k])
  {
    if g != [] {
      KeptSplit(g[1..]);
      var head := if Full(g[0]) then [] else [g[0]];
      assert Kept(g) == head + Kept(g[1..]);
      forall k | 0 <= k < |Kept(g)| ensures Kept(g)[k] in g && !Full(Kept(g)[k]) {
        if k >= |head| {
          assert Kept(g)[k] == Kept(g[1..])[k - |head|];
          assert Kept(g[1..])[k - |head|] in g[1..];
        }
      }
    }
  }

  /** Rows that are all of one length keep that length in Kept. */
  lemma {:induction false} KeptRowLengths(g: Grid, n: nat)
    requires forall r :: 0 <= r < |g| ==> |g[r]| == n
    ensures forall k :: 0 <= k < |Kept(g)| ==> |Kept(g)[k]| == n
  {
    KeptSplit(g);
    forall k | 0 <= k < |Kept(g)| ensures |Kept(g)[k]| == n {
      var row := Kept(g)[k];
      assert row in g;
      var r :| 0 <= r < |g| && g[r] == row;
    }
  }

  /** g with row y removed: the rows above it move down one and an empty row
      enters at the top. */
  function WithoutRow(g: Grid, y: int): Grid
    requires 0 <= y < |g|
  {
    [EmptyRow()] + g[..y] + g[y + 1..]
  }

  /** The field part-way through a bottom-up clear of g: c rows removed so far
      (c empty rows on top), rows ..u of g not yet scanned, and the kept rows of
      the scanned part g[u..] at the bottom. */
  function Scanning(g: Grid, c: nat, u: nat): Grid
    requires u <= |g|
  {
    EmptyRows(c) + g[..u] + Kept(g[u..])
  }

  /** The scan position c + u - 1 holds row u - 1 of g; the rows above the
      unscanned part are empty. */
  lemma ScanRowAt(g: Grid, c: nat, u: nat, y: int)
    requires u <= |g| && 0 <= y < c + u
    ensures y < c ==> Scanning(g, c, u)[y] == EmptyRow()
    ensures y == c + u - 1 && 1 <= u ==> Scanning(g, c, u)[y] == g[u - 1]
  {
  }

  /** A full row u - 1 of g is
      removed by moving the rows above it down one: the scan has then covered
      one more row of g and removed one more row. */
  lemma ScanRemovesFull(g: Grid, c: nat, u: nat)
    requires 1 <= u <= |g| && Full(g[u - 1])
    ensures WithoutRow(Scanning(g, c, u), c + u - 1) == Scanning(g, c + 1, u - 1)
    ensures FullCount(g[u - 1..]) == FullCount(g[u..]) + 1
  {
    KeptFrom(g, u - 1);
    var s := Scanning(g, c, u);
    assert s[..c + u - 1] == EmptyRows(c) + g[..u - 1];
    assert s[c + u..] == Kept(g[u..]);
    assert [EmptyRow()] + EmptyRows(c) == EmptyRows(c + 1);
  }

  /** A non-full row u - 1 of g stays where it is: the scan has covered one
      more row of g and the field is unchanged. */
  lemma ScanKeepsPartial(g: Grid, c: nat, u: nat)
    requires 1 <= u <= |g| && !Full(g[u - 1])
    ensures Scanning(g, c, u) == Scanning(g, c, u - 1)
    ensures FullCount(g[u - 1..]) == FullCount(g[u..])
  {
    KeptFrom(g, u - 1);
    assert g[..u] == g[..u - 1] + [g[u - 1]];
  }

  /** One step of the bottom-up clear, at field row y: a full row there is an
      unscanned row of g, and removing it scans that row and counts one more
      removal; a non-full row at or below the empty top is scanned and kept in
      place; a row within the empty top is never full. */
  lemma ScanStep(g: Grid, c: nat, u: nat, y: int)
    requires u <= |g| && 0 <= y && u == (if y + 1 >= c then y + 1 - c else 0)
    ensures y < |Scanning(g, c, u)|
    ensures Full(Scanning(g, c, u)[y]) ==>
              y >= c && 1 <= u &&
              WithoutRow(Scanning(g, c, u), y) == Scanning(g, c + 1, u - 1) &&
              FullCount(g[u - 1..]) == FullCount(g[u..]) + 1
    ensures !Full(Scanning(g, c, u)[y]) && y >= c ==>
              1 <= u && Scanning(g, c, u) == Scanning(g, c, u - 1) &&
              FullCount(g[u - 1..]) == FullCount(g[u..])
  {
    if y < c {
      assert Scanning(g, c, u)[y] == EmptyRow();
      assert EmptyRow()[0] == 0;
    } else {
      ScanRowAt(g, c, u, y);
      if Full(g[u - 1]) {
        ScanRemovesFull(g, c, u);
      } else {
        ScanKeepsPartial(g, c, u);
      }
    }
  }

  /** Once every row of g is scanned, the field is the cleared field. */
  lemma ScanDone(g: Grid)
    ensures Scanning(g, FullCount(g), 0) == Cleared(g)
  {
    assert g[..0] == [] && g[0..] == g;
  }

  /** Clearing keeps the field's dimensions and its cell range. */
  lemma ClearedWellFormed(g: Grid)
    requires WellFormed(g)
    ensures WellFormed(Cleared(g))
  {
    KeptSplit(g);
    KeptRowLengths(g, W);
    var e := EmptyRows(FullCount(g));
    var cg := Cleared(g);
    forall r, c | 0 <= r < |cg| && 0 <= c < |cg[r]| ensures cg[r][c] <= 7 {
      if r >= |e| {
        var row := Kept(g)[r - |e|];
        assert cg[r] == row;
        var i :| 0 <= i < |g| && g[i] == row;
        assert g[i][c] <= 7;
      }
    }
  }

  /** After clearing no row is full, the first FullCount(g) rows are empty,
      and below them come the non-full rows of g in their original order. */
  lemma ClearedRows(g: Grid)
    requires Shaped(g)
    ensures |Cleared(g)| == H
    ensures forall r :: 0 <= r < H ==> !Full(Cleared(g)[r])
    ensures forall r :: 0 <= r < FullCount(g) ==> Cleared(g)[r] == EmptyRow()
    ensures Cleared(g)[FullCount(g)..] == Kept(g)
  {
    KeptSplit(g);
    var k := FullCount(g);
    forall r | 0 <= r < H ensures !Full(Cleared(g)[r]) {
      if r < k {
        assert Cleared(g)[r][0] == 0;
      } else {
        assert Cleared(g)[r] == Kept(g)[r - k];
      }
    }
    assert Cleared(g)[k..] == Kept(g);
  }

  /** A field with no full row is its own set of kept rows. */
  lemma {:induction false} NoFullRowsKept(g: Grid)
    requires forall r :: 0 <= r < |g| ==> !Full(g[r])
    ensures Kept(g) == g && FullCount(g) == 0
  {
    if g != [] {
      NoFullRowsKept(g[1..]);
      assert g == [g[0]] + g[1..];
    }
  }

  /** Clearing is idempotent: a second clear finds no full row and changes
      nothing. */
  lemma ClearedIdempotent(g: Grid)
    requires Shaped(g)
    ensures FullCount(Cleared(g)) == 0
    ensures Cleared(Cleared(g)) == Cleared(g)
  {
    ClearedRows(g);
    NoFullRowsKept(Cleared(g));
    assert EmptyRows(0) == [];
  }

  // ---------------------------------------------------------------- dropping

  /** How many rows the piece anchored at (y, x) can fall before it would
      collide: the distance of a hard drop and of the ghost piece. */
  function Fall(g: Grid, y: int, x: int, piece: int, rot: int): (n: nat)
    requires Shaped(g) && ValidType(piece) && ValidRot(rot)
    ensures y < H ==> y + n < H
    decreases H - y
  {
    if y + 1 >= H || Collides(g, y + 1, x, piece, rot) then 0
    else 1 + Fall(g, y + 1, x, piece, rot)
  }

  /** The rows y+1 .. y+n are free for the piece and row y+n+1 is not:
      a piece anchored at row y comes to rest n rows lower. */
  predicate Lands(g: Grid, y: int, n: int, x: int, piece: int, rot: int)
    requires Shaped(g) && ValidType(piece) && ValidRot(rot)
  {
    0 <= n && Collides(g, y + n + 1, x, piece, rot) &&
    forall r :: y < r <= y + n ==> !Collides(g, r, x, piece, rot)
  }

  lemma {:induction false} FallIsLanding(g: Grid, y: int, x: int, piece: int, rot: int)
    requires Shaped(g) && ValidType(piece) && ValidRot(rot)
    ensures Lands(g, y, Fall(g, y, x, piece, rot), x, piece, rot)
    decreases H - y
  {
    if y + 1 >= H {
      CollidesBelowFloor(g, y + 1, x, piece, rot);
    } else if !Collides(g, y + 1, x, piece, rot) {
      var m := Fall(g, y + 1, x, piece, rot);
      FallIsLanding(g, y + 1, x, piece, rot);
      assert y + (m + 1) + 1 == (y + 1) + m + 1;
    }
  }

  lemma {:induction false} LandingIsFall(g: Grid, y: int, n: int, x: int, piece: int, rot: int)
    requires Shaped(g) && ValidType(piece) && ValidRot(rot)
    requires Lands(g, y, n, x, piece, rot)
    ensures n == Fall(g, y, x, piece, rot)
    decreases H - y
  {
    if n > 0 {
      assert !Collides(g, y + 1, x, piece, rot);
      FreeAnchorInField(g, y + 1, x, piece, rot);
      assert (y + 1) + (n - 1) + 1 == y + n + 1;
      LandingIsFall(g, y + 1, n - 1, x, piece, rot);
    }
  }

  /** Fall(y) is the one n such that the piece anchored at row y lands n
      rows lower. */
  lemma FallLands(g: Grid, y: int, x: int, piece: int, rot: int, n: int)
    requires Shaped(g) && ValidType(piece) && ValidRot(rot)
    ensures n == Fall(g, y, x, piece, rot) <==> Lands(g, y, n, x, piece, rot)
  {
    FallIsLanding(g, y, x, piece, rot);
    if Lands(g, y, n, x, piece, rot) {
      LandingIsFall(g, y, n, x, piece, rot);
    }
  }

  /** A piece that fits where it is still fits after falling Fall rows, and
      there it cannot move one row further: after a hard drop the piece rests
      on the floor or on a block. */
  lemma FallRests(g: Grid, y: int, x: int, piece: int, rot: int)
    requires Shaped(g) && ValidType(piece) && ValidRot(rot)
    requires !Collides(g, y, x, piece, rot)
    ensures !Collides(g, y + Fall(g, y, x, piece, rot), x, piece, rot)
    ensures Collides(g, y + Fall(g, y, x, piece, rot) + 1, x, piece, rot)
  {
    FallIsLanding(g, y, x, piece, rot);
    var n := Fall(g, y, x, piece, rot);
    if n > 0 {
      assert y < y + n <= y + n;
    }
  }
}
