/**
 * The board of the game: ROWS rows of COLS integer colours, with the status
 * band (rows 0 .. GAME_AREA_START - 1) above the playable band.
 */
module Grid {
  const COLS := 16
  const ROWS := 48
  const GAME_AREA_START := 15
  const BASE_FALL_INTERVAL := 20
  const WIN_SCORE := 1000
  const LINE_SCORE := 100

  /** The red sentinel colour: passable for movement, yet filled for line clearing. */
  const BASE_COLOR := 0xFF0000

  /** The row that `initGame` paints with the sentinel colour. */
  const SENTINEL_ROW := 9

  type Row = seq<int>
  type Board = seq<Row>

  /** The grid keeps its ROWS x COLS shape for the lifetime of the game. */
  predicate WellFormed(b: Board) {
    |b| == ROWS && forall y :: 0 <= y < |b| ==> |b[y]| == COLS
  }

  /** A piece may move onto a cell that is empty or holds the sentinel colour. */
  predicate IsPassable(c: int) {
    c == 0 || c == BASE_COLOR
  }

  /** For line clearing every non-zero cell counts, the sentinel colour included. */
  predicate IsFilled(c: int) {
    c != 0
  }

  /** `row.every(cell => cell !== 0)`. */
  predicate RowFull(row: Row) {
    forall x :: 0 <= x < |row| ==> IsFilled(row[x])
  }

  /** A row is full exactly when it holds no empty cell. */
  lemma RowFullNoEmpty(row: Row)
    ensures RowFull(row) <==> 0 !in row
  {
  }

  /** A row of COLS cells that all hold `c`. */
  function ConstRow(c: int): (r: Row)
    ensures |r| == COLS && forall x :: 0 <= x < |r| ==> r[x] == c
  {
    seq(COLS, _ => c)
  }

  /** The row `removeFullLines` inserts: all empty, hence never full. */
  function EmptyRow(): (r: Row)
    ensures |r| == COLS && !RowFull(r)
    ensures forall x :: 0 <= x < |r| ==> r[x] == 0
  {
    var r := ConstRow(0);
    assert !IsFilled(r[0]);
    r
  }

  /** The board built by `initGame`: the sentinel row is red, every other row empty. */
  function InitialBoard(): (b: Board)
    ensures WellFormed(b)
    ensures forall y, x :: 0 <= y < ROWS && 0 <= x < COLS ==>
      (b[y][x] == BASE_COLOR <==> y == SENTINEL_ROW) && (b[y][x] == 0 <==> y != SENTINEL_ROW)
  {
    var b := seq(ROWS, y => if y == SENTINEL_ROW then ConstRow(BASE_COLOR) else ConstRow(0));
    assert forall y :: 0 <= y < ROWS ==> b[y] == if y == SENTINEL_ROW then ConstRow(BASE_COLOR) else ConstRow(0);
    b
  }

  /** No row of the playable band is full. */
  ghost predicate NoFullRows(b: Board)
    requires WellFormed(b)
  {
    forall y :: GAME_AREA_START <= y < ROWS ==> !RowFull(b[y])
  }

  /** The sentinel row lies in the status band, so a fresh board has nothing to clear. */
  lemma InitialBoardHasNoFullRows()
    ensures NoFullRows(InitialBoard())
  {
    var b := InitialBoard();
    forall y | GAME_AREA_START <= y < ROWS
      ensures !RowFull(b[y])
    {
      assert b[y][0] == 0;
    }
  }

  /** A 24-bit RGB colour, the only kind of value the game means to store in a cell. */
  predicate IsRgb(c: int) {
    0 <= c < 0x1000000
  }

  /** Every cell holds a 24-bit colour (0 for empty). */
  ghost predicate Palette(b: Board)
    requires WellFormed(b)
  {
    forall y, x :: 0 <= y < ROWS && 0 <= x < COLS ==> IsRgb(b[y][x])
  }

  lemma InitialBoardPalette()
    ensures Palette(InitialBoard())
  {
    var b := InitialBoard();
    forall y, x | 0 <= y < ROWS && 0 <= x < COLS
      ensures IsRgb(b[y][x])
    {
      assert b[y][x] == BASE_COLOR || b[y][x] == 0;
    }
  }
}

