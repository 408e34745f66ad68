/**
 * The piece catalogue, spawning position and the placement test `canMove`.
 */
module Pieces {
  import opened Grid
  import opened Shapes

  /** A catalogue entry: a shape (true = occupied) and its colour. */
  datatype Tetromino = Tetromino(shape: seq<seq<bool>>, color: int)

  /** The falling piece: shape, colour and the anchor (top-left of the shape's bounding box). */
  datatype Piece = Piece(shape: seq<seq<bool>>, color: int, x: int, y: int)

  /** The five catalogue entries I, O, T, Z, S. Z shares the sentinel colour. */
  const TETROMINOES: seq<Tetromino> := [
    Tetromino([[true, true, true, true]], 0x00FFFF),
    Tetromino([[true, true], [true, true]], 0xFFFF00),
    Tetromino([[false, true, false], [true, true, true]], 0xFFFFFF),
    Tetromino([[true, true, false], [false, true, true]], 0xFF0000),
    Tetromino([[false, true, true], [true, true, false]], 0x00FF00)
  ]

  /** Every catalogue shape is a shape of at most 4 x 4 cells, with a 24-bit colour. */
  lemma CatalogueShapes(k: nat)
    requires k < |TETROMINOES|
    ensures IsShape(TETROMINOES[k].shape)
    ensures |TETROMINOES[k].shape| <= 4 && |TETROMINOES[k].shape[0]| <= 4
    ensures 0 <= TETROMINOES[k].color < 0x1000000
  {
  }

  /**
   * The piece `generateNewPiece` builds from catalogue entry `k` (the source
   * picks `k` at random): centred horizontally, at the top of the playable band.
   */
  function Spawned(k: nat): (p: Piece)
    requires k < |TETROMINOES|
    ensures p.shape == TETROMINOES[k].shape && p.color == TETROMINOES[k].color
    ensures p.y == GAME_AREA_START
    ensures IsShape(p.shape)
    ensures 0 <= p.x && p.x + |p.shape[0]| <= COLS
    ensures 0 <= p.x - (COLS - (p.x + |p.shape[0]|)) <= 1
  {
    CatalogueShapes(k);
    var t := TETROMINOES[k];
    Piece(t.shape, t.color, COLS / 2 - |t.shape[0]| / 2, GAME_AREA_START)
  }

  // ---- canMove ----

  /** A target cell a piece cell may land on. */
  predicate Free(b: Board, x: int, y: int)
    requires WellFormed(b) && y >= 0
  {
    0 <= x < COLS && y < ROWS && IsPassable(b[y][x])
  }

  /** The callback of the inner `every`: an empty cell always passes. */
  predicate CellFits(b: Board, cell: bool, x: int, y: int)
    requires WellFormed(b) && y >= 0
  {
    !cell || Free(b, x, y)
  }

  /** `row.every(...)` for a row whose first cell lands at (x, y). */
  predicate RowFits(b: Board, row: seq<bool>, x: int, y: int)
    requires WellFormed(b) && y >= 0
    decreases |row|
  {
    row == [] || (CellFits(b, row[0], x, y) && RowFits(b, row[1..], x + 1, y))
  }

  /** `shape.every(...)` for a shape whose top-left cell lands at (x, y). */
  predicate ShapeFits(b: Board, shape: seq<seq<bool>>, x: int, y: int)
    requires WellFormed(b) && y >= 0
    decreases |shape|
  {
    shape == [] || (RowFits(b, shape[0], x, y) && ShapeFits(b, shape[1..], x, y + 1))
  }

  /**
   * `canMove(piece, dx, dy)`. The source has no lower bound on the target row
   * and would index `board[-1]`; callers never move a piece above row 0.
   */
  predicate CanMove(b: Board, p: Piece, dx: int, dy: int)
    requires WellFormed(b) && p.y + dy >= 0
    ensures CanMove(b, p, dx, dy) <==> AllLandFree(b, p, dx, dy)
  {
    ShapeFitsIff(b, p.shape, p.x + dx, p.y + dy);
    ShapeFits(b, p.shape, p.x + dx, p.y + dy)
  }

  /** Every occupied cell of `p`, shifted by (dx, dy), lands on a free cell. */
  ghost predicate AllLandFree(b: Board, p: Piece, dx: int, dy: int)
    requires WellFormed(b) && p.y + dy >= 0
  {
    forall r, c :: 0 <= r < |p.shape| && 0 <= c < |p.shape[r]| && p.shape[r][c] ==>
      Free(b, p.x + c + dx, p.y + r + dy)
  }

  lemma {:induction false} RowFitsIff(b: Board, row: seq<bool>, x: int, y: int)
    requires WellFormed(b) && y >= 0
    ensures RowFits(b, row, x, y) <==> forall c :: 0 <= c < |row| && row[c] ==> Free(b, x + c, y)
    decreases |row|
  {
    if row != [] {
      RowFitsIff(b, row[1..], x + 1, y);
      assert forall c :: 1 <= c < |row| ==> row[c] == row[1..][c - 1];
    }
  }

  lemma {:induction false} ShapeFitsIff(b: Board, shape: seq<seq<bool>>, x: int, y: int)
    requires WellFormed(b) && y >= 0
    ensures ShapeFits(b, shape, x, y) <==>
      forall r, c :: 0 <= r < |shape| && 0 <= c < |shape[r]| && shape[r][c] ==> Free(b, x + c, y + r)
    decreases |shape|
  {
    if shape != [] {
      ShapeFitsIff(b, shape[1..], x, y + 1);
      RowFitsIff(b, shape[0], x, y);
      assert forall r :: 1 <= r < |shape| ==> shape[r] == shape[1..][r - 1];
    }
  }

  /**
   * `canMove` fails exactly when some occupied cell would land left of column 0,
   * right of the last column, below the last row, or on a cell that is neither
   * empty nor the sentinel colour.
   */
  lemma CanMoveIff(b: Board, p: Piece, dx: int, dy: int)
    requires WellFormed(b) && p.y + dy >= 0
    ensures CanMove(b, p, dx, dy) <==> AllLandFree(b, p, dx, dy)
    ensures !CanMove(b, p, dx, dy) <==>
      exists r, c :: 0 <= r < |p.shape| && 0 <= c < |p.shape[r]| && p.shape[r][c] &&
        var x, y := p.x + c + dx, p.y + r + dy;
        x < 0 || x >= COLS || y >= ROWS || (b[y][x] != 0 && b[y][x] != BASE_COLOR)
  {
    ShapeFitsIff(b, p.shape, p.x + dx, p.y + dy);
  }

  /** Testing a move by (dx, dy) is testing the moved piece where it stands. */
  lemma CanMoveShifted(b: Board, p: Piece, dx: int, dy: int)
    requires WellFormed(b) && p.y + dy >= 0
    ensures CanMove(b, p, dx, dy) <==> CanMove(b, p.(x := p.x + dx, y := p.y + dy), 0, 0)
  {
    var q := p.(x := p.x + dx, y := p.y + dy);
    assert AllLandFree(b, p, dx, dy) <==> AllLandFree(b, q, 0, 0);
  }

  /** Placement in the playable band depends on the playable band only. */
  lemma CanMoveSameBand(a: Board, b: Board, p: Piece)
    requires WellFormed(a) && WellFormed(b) && p.y >= GAME_AREA_START
    requires a[GAME_AREA_START..] == b[GAME_AREA_START..]
    ensures CanMove(a, p, 0, 0) <==> CanMove(b, p, 0, 0)
  {
    forall y, x | GAME_AREA_START <= y < ROWS && 0 <= x < COLS
      ensures a[y][x] == b[y][x]
    {
      assert a[y] == a[GAME_AREA_START..][y - GAME_AREA_START];
    }
    assert AllLandFree(a, p, 0, 0) <==> AllLandFree(b, p, 0, 0);
  }

  /** Every occupied cell of the piece lies on the board. */
  ghost predicate InBounds(p: Piece) {
    forall r, c :: 0 <= r < |p.shape| && 0 <= c < |p.shape[r]| && p.shape[r][c] ==>
      0 <= p.x + c < COLS && 0 <= p.y + r < ROWS
  }

  /** A move that `canMove` allows keeps every cell of the piece on the board. */
  lemma CanMoveInBounds(b: Board, p: Piece, dx: int, dy: int)
    requires WellFormed(b) && p.y + dy >= 0
    requires CanMove(b, p, dx, dy)
    ensures InBounds(p.(x := p.x + dx, y := p.y + dy))
  {
    CanMoveIff(b, p, dx, dy);
  }

  /**
   * Painting any cell with the sentinel colour never stops a fitting piece
   * from fitting; this is why locked Z cells never block.
   */
  lemma SentinelNeverBlocks(b: Board, p: Piece, dx: int, dy: int, x: int, y: int)
    requires WellFormed(b) && p.y + dy >= 0
    requires 0 <= y < ROWS && 0 <= x < COLS
    requires CanMove(b, p, dx, dy)
    ensures WellFormed(b[y := b[y][x := BASE_COLOR]])
    ensures CanMove(b[y := b[y][x := BASE_COLOR]], p, dx, dy)
  {
    var b' := b[y := b[y][x := BASE_COLOR]];
    CanMoveIff(b, p, dx, dy);
    CanMoveIff(b', p, dx, dy);
  }

  /** On a board whose playable band is empty, every catalogue piece can spawn. */
  lemma SpawnOnClearField(b: Board, k: nat)
    requires WellFormed(b) && k < |TETROMINOES|
    requires forall y, x :: GAME_AREA_START <= y < ROWS && 0 <= x < COLS ==> b[y][x] == 0
    ensures CanMove(b, Spawned(k), 0, 0)
  {
    var p := Spawned(k);
    CatalogueShapes(k);
    CanMoveIff(b, p, 0, 0);
  }

  // ---- lockPiece ----

  /** The piece's occupied cell (x - p.x, y - p.y) covers board cell (x, y). */
  predicate Covers(p: Piece, x: int, y: int) {
    0 <= y - p.y < |p.shape| && 0 <= x - p.x < |p.shape[y - p.y]| && p.shape[y - p.y][x - p.x]
  }

  /** The board after `lockPiece` has written the piece's colour into every cell it covers. */
  function Locked(b: Board, p: Piece): (r: Board)
    requires WellFormed(b)
    ensures WellFormed(r)
    ensures forall y, x :: 0 <= y < ROWS && 0 <= x < COLS ==> r[y][x] == if Covers(p, x, y) then p.color else b[y][x]
  {
    var r := seq(ROWS, y requires 0 <= y < ROWS =>
      seq(COLS, x requires 0 <= x < COLS => if Covers(p, x, y) then p.color else b[y][x]));
    assert forall y :: 0 <= y < ROWS ==>
      r[y] == seq(COLS, x requires 0 <= x < COLS => if Covers(p, x, y) then p.color else b[y][x]);
    r
  }

  /** Some occupied cell of the piece lies above the playable band (the game-over test of `lockPiece`). */
  predicate AboveBand(p: Piece)
    ensures AboveBand(p) ==> p.y < GAME_AREA_START
  {
    exists r | 0 <= r < |p.shape| :: exists c | 0 <= c < |p.shape[r]| :: p.shape[r][c] && p.y + r < GAME_AREA_START
  }

  /**
   * Locking paints exactly the cells some occupied shape cell lands on, in the
   * piece's colour; every other cell keeps its value.
   */
  lemma LockedCells(b: Board, p: Piece)
    requires WellFormed(b)
    ensures forall y, x :: 0 <= y < ROWS && 0 <= x < COLS ==>
      Locked(b, p)[y][x] ==
        if exists r, c :: 0 <= r < |p.shape| && 0 <= c < |p.shape[r]| && p.shape[r][c] && p.x + c == x && p.y + r == y
        then p.color else b[y][x]
  {
    forall y, x | 0 <= y < ROWS && 0 <= x < COLS && Covers(p, x, y)
      ensures exists r, c :: 0 <= r < |p.shape| && 0 <= c < |p.shape[r]| && p.shape[r][c] && p.x + c == x && p.y + r == y
    {
      var r, c := y - p.y, x - p.x;
      assert 0 <= r < |p.shape| && 0 <= c < |p.shape[r]| && p.shape[r][c] && p.x + c == x && p.y + r == y;
    }
  }

  /** A piece anchored in the playable band has no cell above it: the game-over branch of `lockPiece` is dead. */
  lemma InPlayNotAboveBand(p: Piece)
    requires p.y >= GAME_AREA_START
    ensures !AboveBand(p)
  {
  }

  /** Locking a piece anchored in the playable band leaves the status band as it was. */
  lemma LockedKeepsStatusBand(b: Board, p: Piece)
    requires WellFormed(b) && p.y >= GAME_AREA_START
    ensures Locked(b, p)[..GAME_AREA_START] == b[..GAME_AREA_START]
  {
    var r := Locked(b, p);
    forall y | 0 <= y < GAME_AREA_START
      ensures r[y] == b[y]
    {
    }
  }

  /**
   * A locked piece in the sentinel colour (the Z piece) changes nothing for
   * later placement tests: wherever it fitted, its cells stay passable.
   */
  lemma LockedSentinelNeverBlocks(b: Board, z: Piece, q: Piece, dx: int, dy: int)
    requires WellFormed(b) && z.y >= 0 && z.color == BASE_COLOR
    requires CanMove(b, z, 0, 0)
    requires q.y + dy >= 0
    ensures CanMove(Locked(b, z), q, dx, dy) <==> CanMove(b, q, dx, dy)
  {
    var l := Locked(b, z);
    CanMoveIff(b, z, 0, 0);
    forall y, x | 0 <= y < ROWS && 0 <= x < COLS
      ensures IsPassable(l[y][x]) <==> IsPassable(b[y][x])
    {
      if Covers(z, x, y) {
        assert Free(b, z.x + (x - z.x) + 0, z.y + (y - z.y) + 0);
      }
    }
    CanMoveIff(l, q, dx, dy);
    CanMoveIff(b, q, dx, dy);
  }
}
