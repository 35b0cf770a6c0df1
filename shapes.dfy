/** The piece catalog: seven tetromino types, each with four pre-baked rotation
    states. A rotation state lists the row offsets and the column offsets of
    the piece's four cells relative to its anchor (entries [0] and [1] of the
    game's 7 x 4 x 2 x 4 table). */
module Shapes {

  const Types := 7
  const Rotations := 4
  const CellsPerPiece := 4

  /** Piece types in table order. */
  const O := 0
  const I := 1
  const T := 2
  const S := 3
  const Z := 4
  const J := 5
  const L := 6

  predicate ValidType(piece: int) { 0 <= piece < Types }
  predicate ValidRot(rot: int) { 0 <= rot < Rotations }

  /** One offset per cell of a piece. */
  datatype Quad = Quad(o0: int, o1: int, o2: int, o3: int) {
    function At(i: int): int
      requires 0 <= i < CellsPerPiece
    {
      if i == 0 then o0 else if i == 1 then o1 else if i == 2 then o2 else o3
    }

    predicate InSpan() {
      -1 <= o0 <= 2 && -1 <= o1 <= 2 && -1 <= o2 <= 2 && -1 <= o3 <= 2
    }
  }

  /** One rotation state: the row offsets and the column offsets. */
  datatype Shape = Shape(rows: Quad, cols: Quad)

  /** The shape table, entry [piece][rot]; every offset lies in -1..2. */
  function ShapeOf(piece: int, rot: int): (s: Shape)
    requires ValidType(piece) && ValidRot(rot)
    ensures s.rows.InSpan() && s.cols.InSpan()
  {
    if piece == O then
      Shape(Quad(0, 1, 0, 1), Quad(0, 0, 1, 1))
    else if piece == I then
      if rot % 2 == 0 then Shape(Quad(0, 0, 0, 0), Quad(-1, 0, 1, 2))
      else Shape(Quad(-1, 0, 1, 2), Quad(0, 0, 0, 0))
    else if piece == T then
      if rot == 0 then Shape(Quad(0, 0, 0, 1), Quad(-1, 0, 1, 0))
      else if rot == 1 then Shape(Quad(1, 0, -1, 0), Quad(0, 0, 0, -1))
      else if rot == 2 then Shape(Quad(0, 0, 0, -1), Quad(-1, 0, 1, 0))
      else Shape(Quad(1, 0, -1, 0), Quad(0, 0, 0, 1))
    else if piece == S then
      if rot % 2 == 0 then Shape(Quad(0, -1, 0, 1), Quad(0, 0, 1, 1))
      else Shape(Quad(0, 1, 1, 0), Quad(0, 0, -1, 1))
    else if piece == Z then
      if rot % 2 == 0 then Shape(Quad(0, -1, 0, 1), Quad(0, 0, -1, -1))
      else Shape(Quad(0, 0, 1, 1), Quad(0, -1, 0, 1))
    else if piece == J then
      if rot == 0 then Shape(Quad(1, 0, -1, 1), Quad(0, 0, 0, -1))
      else if rot == 1 then Shape(Quad(0, -1, 0, 0), Quad(0, 0, 1, 2))
      else if rot == 2 then Shape(Quad(0, 1, 2, 0), Quad(0, 0, 0, 1))
      else Shape(Quad(1, 0, 0, 0), Quad(1, 1, 0, -1))
    else
      if rot == 0 then Shape(Quad(0, 0, 1, 2), Quad(-1, 0, 0, 0))
      else if rot == 1 then Shape(Quad(-1, 0, 0, 0), Quad(1, 1, 0, -1))
      else if rot == 2 then Shape(Quad(1, 1, 0, -1), Quad(1, 0, 0, 0))
      else Shape(Quad(1, 0, 0, 0), Quad(-1, -1, 0, 1))
  }

  /** Row offset of cell i of the piece in the given rotation. */
  function RowOff(piece: int, rot: int, i: int): (d: int)
    requires ValidType(piece) && ValidRot(rot) && 0 <= i < CellsPerPiece
    ensures -1 <= d <= 2
  {
    ShapeOf(piece, rot).rows.At(i)
  }

  /** Column offset of cell i of the piece in the given rotation. */
  function ColOff(piece: int, rot: int, i: int): (d: int)
    requires ValidType(piece) && ValidRot(rot) && 0 <= i < CellsPerPiece
    ensures -1 <= d <= 2
  {
    ShapeOf(piece, rot).cols.At(i)
  }

  /** The index of a cell of the piece that lies on the anchor: the anchor is
      one of the piece's own blocks. */
  function AnchorCell(piece: int, rot: int): (i: int)
    requires ValidType(piece) && ValidRot(rot)
    ensures 0 <= i < CellsPerPiece
    ensures RowOff(piece, rot, i) == 0 && ColOff(piece, rot, i) == 0
  {
    if RowOff(piece, rot, 0) == 0 && ColOff(piece, rot, 0) == 0 then 0
    else if RowOff(piece, rot, 1) == 0 && ColOff(piece, rot, 1) == 0 then 1
    else 2
  }

  /** The four cells of every rotation state are distinct, so a placed piece
      occupies four different cells. */
  lemma CellsDistinct(piece: int, rot: int, i: int, j: int)
    requires ValidType(piece) && ValidRot(rot)
    requires 0 <= i < CellsPerPiece && 0 <= j < CellsPerPiece && i != j
    ensures RowOff(piece, rot, i) != RowOff(piece, rot, j) || ColOff(piece, rot, i) != ColOff(piece, rot, j)
  {
  }
}
