/**
 * The game as the script runs it: the module-level variables of tetriz.js
 * become the fields of `Tetriz`, and each of its functions a method that
 * updates them in place. Every method is proved to perform the transition
 * `Engine` defines for it, so the lemmas there hold of the running game.
 */
module Game {
  import opened Wrappers
  import opened Grid
  import opened Shapes
  import opened Pieces
  import opened LineClear
  import opened Text
  import opened Overlay
  import opened Engine

  /** One entry of the LED payload `ledData`: a pixel index, or the colour text after it. */
  datatype LedValue = Index(i: int) | Hex(s: string)

  /** One LED per cell: ROWS * COLS. */
  const LED_COUNT := 768

  /** The cell of LED `j`, counted row by row from the top left. */
  function LedCell(b: Board, j: int): (c: int)
    requires WellFormed(b) && 0 <= j < LED_COUNT
    ensures forall y, x :: 0 <= y < ROWS && 0 <= x < COLS && y * COLS + x == j ==> c == b[y][x]
  {
    b[j / COLS][j % COLS]
  }

  /** Cell (x, y) holds the shape cell (y - p.y, x - p.x), and `lockPiece` has reached it before (dy, dx). */
  ghost predicate CoveredBefore(p: Piece, x: int, y: int, dy: int, dx: int) {
    Covers(p, x, y) && (y - p.y < dy || (y - p.y == dy && x - p.x < dx))
  }

  /** Some occupied shape cell before (dy, dx) lies above the playable band. */
  ghost predicate AboveBandBefore(p: Piece, dy: int, dx: int) {
    exists r, c :: 0 <= r < |p.shape| && 0 <= c < |p.shape[r]| && p.shape[r][c] &&
      p.y + r < GAME_AREA_START && (r < dy || (r == dy && c < dx))
  }

  /** `drawPixelNumber` writes cell (x, y), and has reached its glyph pixel before (row, col). */
  ghost predicate HitBefore(g: Glyph, xOffset: int, yOffset: int, x: int, y: int, row: int, col: int) {
    GlyphHit(g, xOffset, yOffset, x, y) &&
    (y - yOffset < row || (y - yOffset == row && x - xOffset < col))
  }

  class Tetriz {
    var board: Board
    var gameRunning: bool
    var score: nat
    var fallCounter: nat
    var currentFallInterval: int
    var currentPiece: Option<Piece>

    /** The fields as one value of `Engine.State`. */
    function Snapshot(): State
      reads this
    {
      State(board, gameRunning, score, fallCounter, currentFallInterval, currentPiece)
    }

    /** Loading the script: the variable initialisers, then `initGame()` and `drawBoard()`. */
    constructor ()
      ensures Snapshot() == Initial()
      ensures Inv(Snapshot())
    {
      board := seq(ROWS, _ => seq(COLS, _ => 0));
      gameRunning := false;
      score := 0;
      fallCounter := 0;
      currentFallInterval := BASE_FALL_INTERVAL;
      currentPiece := None;
      new;
      InitGame();
      DrawBoard();
      InitialInv();
    }

    /** `initGame`: a fresh board with the sentinel row (the canvas size is not modelled). */
    method InitGame()
      modifies this`board
      ensures board == InitialBoard()
    {
      board := seq(ROWS, y => if y == SENTINEL_ROW then seq(COLS, _ => BASE_COLOR) else seq(COLS, _ => 0));
      assert forall y :: 0 <= y < ROWS ==>
        board[y] == if y == SENTINEL_ROW then ConstRow(BASE_COLOR) else ConstRow(0);
    }

    /** `gameOver`: play stops (the alert is not modelled). */
    method GameOver()
      modifies this`gameRunning
      ensures !gameRunning
    {
      gameRunning := false;
    }

    /**
     * `generateNewPiece` with catalogue entry `k` in place of the random pick:
     * the piece centred at the top of the playable band, or nothing, after
     * `gameOver`, when it does not fit there.
     */
    method GenerateNewPiece(k: nat) returns (piece: Option<Piece>)
      requires WellFormed(board) && k < |TETROMINOES|
      modifies this`gameRunning
      ensures Snapshot().(piece := piece) == Spawn(old(Snapshot()), k)
    {
      var t := TETROMINOES[k];
      var p := Piece(t.shape, t.color, COLS / 2 - |t.shape[0]| / 2, GAME_AREA_START);
      if !CanMove(board, p, 0, 0) {
        GameOver();
        return None;
      }
      return Some(p);
    }

    /** `drawBoard`: the canvas painting is not modelled; what changes the state is `updateScoreDisplay`. */
    method DrawBoard()
      requires WellFormed(board)
      modifies this`board
      ensures Snapshot() == Draw(old(Snapshot()))
    {
      UpdateScoreDisplay();
    }

    /**
     * `updateScoreDisplay`: the score, padded to three digits, stamped digit
     * by digit at x = 5 i, y = 2, in red, green, blue and then `undefined`.
     */
    method UpdateScoreDisplay()
      requires WellFormed(board)
      modifies this`board
      ensures board == ScoreOverlay(old(board), score)
    {
      var scoreStr := ScoreString(score);
      var colors := DIGIT_COLORS;
      for i := 0 to |scoreStr|
        invariant WellFormed(board)
        invariant StampDigits(board, scoreStr, i) == StampDigits(old(board), scoreStr, 0)
      {
        var color := if i < |colors| then colors[i] else UNDEFINED;
        DrawPixelNumber(scoreStr[i], i * DIGIT_PITCH, DIGIT_ROW, color);
      }
    }

    /**
     * `drawPixelNumber`: every lit pixel of the digit's glyph that lands in the
     * status band takes `color`; a character without a glyph draws nothing.
     */
    method DrawPixelNumber(num: char, xOffset: nat, yOffset: nat, color: int)
      requires WellFormed(board)
      modifies this`board
      ensures GlyphOf(num).None? ==> board == old(board)
      ensures GlyphOf(num).Some? ==> board == Stamped(old(board), GlyphOf(num).value, xOffset, yOffset, color)
    {
      var pixels := GlyphOf(num);
      if pixels.None? {
        return;
      }
      var g := pixels.value;
      for rowIndex := 0 to |g|
        invariant WellFormed(board)
        invariant forall y, x :: 0 <= y < ROWS && 0 <= x < COLS ==>
          board[y][x] == if HitBefore(g, xOffset, yOffset, x, y, rowIndex, 0) then color else old(board)[y][x]
      {
        var row := g[rowIndex];
        for colIndex := 0 to |row|
          invariant WellFormed(board)
          invariant forall y, x :: 0 <= y < ROWS && 0 <= x < COLS ==>
            board[y][x] == if HitBefore(g, xOffset, yOffset, x, y, rowIndex, colIndex) then color else old(board)[y][x]
        {
          if row[colIndex] != 0 {
            var x := xOffset + colIndex;
            var y := yOffset + rowIndex;
            if x < COLS && y < GAME_AREA_START {
              board := board[y := board[y][x := color]];
            }
          }
        }
      }
      ghost var r := Stamped(old(board), g, xOffset, yOffset, color);
      forall y | 0 <= y < ROWS
        ensures board[y] == r[y]
      {
      }
    }

    /**
     * `lockPiece` with `next` for the spawn that follows: the piece's colour is
     * written cell by cell; a cell above the playable band ends the game right
     * after, otherwise full rows are removed and the next piece spawns.
     */
    method LockPiece(next: nat)
      requires Sound(Snapshot()) && currentPiece.Some? && next < |TETROMINOES|
      modifies this
      ensures Snapshot() == Lock(old(Snapshot()), next)
    {
      var gameOverDetected := PaintPiece(currentPiece.value);
      if gameOverDetected {
        GameOver();
        return;
      }
      RemoveFullLines();
      currentPiece := GenerateNewPiece(next);
    }

    /**
     * The nested `forEach` of `lockPiece`: writes the colour of `p` into every
     * cell it covers and reports whether one of them lies above the playable band.
     */
    method PaintPiece(p: Piece) returns (gameOverDetected: bool)
      requires WellFormed(board) && OnBoard(p)
      modifies this`board
      ensures board == Locked(old(board), p)
      ensures gameOverDetected == AboveBand(p)
    {
      gameOverDetected := false;
      for dy := 0 to |p.shape|
        invariant WellFormed(board)
        invariant forall y, x :: 0 <= y < ROWS && 0 <= x < COLS ==>
          board[y][x] == if CoveredBefore(p, x, y, dy, 0) then p.color else old(board)[y][x]
        invariant gameOverDetected <==> AboveBandBefore(p, dy, 0)
      {
        var row := p.shape[dy];
        for dx := 0 to |row|
          invariant WellFormed(board)
          invariant forall y, x :: 0 <= y < ROWS && 0 <= x < COLS ==>
            board[y][x] == if CoveredBefore(p, x, y, dy, dx) then p.color else old(board)[y][x]
          invariant gameOverDetected <==> AboveBandBefore(p, dy, dx)
        {
          if row[dx] {
            var y := p.y + dy;
            var x := p.x + dx;
            if y < GAME_AREA_START {
              gameOverDetected := true;
            }
            board := board[y := board[y][x := p.color]];
          }
        }
      }
      ghost var locked := Locked(old(board), p);
      forall y | 0 <= y < ROWS
        ensures board[y] == locked[y]
      {
      }
    }

    /**
     * `removeFullLines`: the full rows of the playable band are removed, then
     * the score, the win check and the fall interval.
     */
    method RemoveFullLines()
      requires WellFormed(board)
      modifies this`board, this`score, this`gameRunning, this`currentFallInterval
      ensures WellFormed(board)
      ensures Snapshot() == ClearLines(old(Snapshot()))
    {
      var linesCleared := SpliceFullRows();
      if linesCleared > 0 {
        score := score + linesCleared * LINE_SCORE;
        if score >= WIN_SCORE {
          gameRunning := false;
          return;
        }
        currentFallInterval := Max(10, BASE_FALL_INTERVAL - linesCleared * 2);
      }
    }

    /**
     * The loop of `removeFullLines`: scanning from the bottom row up to the top
     * of the playable band, each full row is spliced out and an empty row
     * spliced in at the top of the band, and the same index is examined again.
     */
    method SpliceFullRows() returns (linesCleared: nat)
      requires WellFormed(board)
      modifies this`board
      ensures WellFormed(board)
      ensures board == ClearedBoard(old(board)) && linesCleared == LinesCleared(old(board))
    {
      linesCleared := 0;
      ghost var rows := Playable(old(board));
      var y := ROWS - 1;
      ScanStarts(board);
      while y >= GAME_AREA_START
        invariant Scanning(board, y, linesCleared, rows)
        invariant board[..GAME_AREA_START] == old(board)[..GAME_AREA_START]
        decreases FullCount(board[GAME_AREA_START..y + 1]), y
      {
        if RowFull(board[y]) {
          ScanFullRow(board, y, linesCleared, rows);
          board := board[..y] + board[y + 1..];
          board := board[..GAME_AREA_START] + [EmptyRow()] + board[GAME_AREA_START..];
          linesCleared := linesCleared + 1;
          y := y + 1;
        } else {
          ScanKeptRow(board, y, linesCleared, rows);
        }
        y := y - 1;
      }
      ScanFinished(old(board), board, linesCleared);
    }

    /** `moveDown`: one row down when the piece fits there, otherwise `lockPiece`. */
    method MoveDown(next: nat)
      requires Sound(Snapshot()) && currentPiece.Some? && next < |TETROMINOES|
      modifies this
      ensures Snapshot() == Engine.MoveDown(old(Snapshot()), next)
    {
      var p := currentPiece.value;
      if CanMove(board, p, 0, 1) {
        currentPiece := Some(p.(y := p.y + 1));
      } else {
        LockPiece(next);
      }
    }

    /**
     * `gameLoop`, one animation frame; `next` is the catalogue entry a spawn in
     * this frame uses.
     */
    method GameLoop(next: nat)
      requires Sound(Snapshot()) && next < |TETROMINOES|
      modifies this
      ensures Snapshot() == Tick(old(Snapshot()), next)
      ensures Inv(old(Snapshot())) ==> Inv(Snapshot())
    {
      if !gameRunning {
        return;
      }
      ghost var s := Snapshot();
      fallCounter := fallCounter + 1;
      ghost var s1 := Snapshot();
      if fallCounter >= currentFallInterval {
        MoveDown(next);
        fallCounter := 0;
      }
      assert Snapshot() == Fall(s1, next);
      DrawBoard();
      assert Snapshot() == Tick(s, next);
      if Inv(s) {
        TickInv(s, next);
      }
    }

    /** `startGame` with `k` for its piece and `next` for its first frame; ignored while running. */
    method StartGame(k: nat, next: nat)
      requires Sound(Snapshot()) && k < |TETROMINOES| && next < |TETROMINOES|
      modifies this
      ensures Snapshot() == Start(old(Snapshot()), k, next)
    {
      if gameRunning {
        return;
      }
      gameRunning := true;
      score := 0;
      currentFallInterval := BASE_FALL_INTERVAL;
      InitGame();
      currentPiece := GenerateNewPiece(k);
      GameLoop(next);
    }

    /**
     * The start button: starts an idle game; stops a running one. The restart
     * the source schedules 100 ms later is a later call of `StartGame`, which
     * does nothing if the game is running again by then. Keeps the invariant.
     */
    method PressStartButton(k: nat, next: nat)
      requires Sound(Snapshot()) && k < |TETROMINOES| && next < |TETROMINOES|
      modifies this
      ensures Snapshot() == PressStart(old(Snapshot()), k, next)
      ensures Inv(old(Snapshot())) ==> Inv(Snapshot())
    {
      ghost var s := Snapshot();
      if Inv(s) {
        PressStartInv(s, k, next);
      }
      if !gameRunning {
        StartGame(k, next);
      } else {
        gameRunning := false;
      }
    }

    /** `rotatePiece`: the turned shape replaces the old one only if it fits; then `drawBoard`. */
    method RotatePiece()
      requires Sound(Snapshot())
      modifies this
      ensures Snapshot() == Rotate(old(Snapshot()))
    {
      if currentPiece.None? {
        return;
      }
      var p := currentPiece.value;
      var rotatedShape := RotateMatrix(p.shape);
      var testPiece := p.(shape := rotatedShape);
      if CanMove(board, testPiece, 0, 0) {
        currentPiece := Some(testPiece);
      }
      DrawBoard();
    }

    /** The keydown listener: "a", "d", "s" and "w" in either case, then `drawBoard`. */
    method HandleKeyDown(key: string)
      requires Sound(Snapshot())
      modifies this
      ensures Snapshot() == KeyDown(old(Snapshot()), key)
      ensures Inv(old(Snapshot())) ==> Inv(Snapshot())
    {
      ghost var s := Snapshot();
      if Inv(s) {
        KeyDownInv(s, key);
      }
      if !gameRunning || currentPiece.None? {
        return;
      }
      Perform(KeyCommand(key));
      DrawBoard();
    }

    /** The `switch` of the keydown listener. */
    method Perform(c: Command)
      requires Sound(Snapshot()) && currentPiece.Some?
      modifies this
      ensures Snapshot() == Engine.Perform(old(Snapshot()), c)
    {
      var p := currentPiece.value;
      match c {
        case MoveLeft =>
          if CanMove(board, p, -1, 0) {
            currentPiece := Some(p.(x := p.x - 1));
          }
        case MoveRight =>
          if CanMove(board, p, 1, 0) {
            currentPiece := Some(p.(x := p.x + 1));
          }
        case SoftDrop =>
          currentFallInterval := SOFT_DROP_INTERVAL;
        case RotateShape =>
          RotatePiece();
        case Ignored =>
      }
    }

    /** The keyup listener: releasing "s" restores the base fall interval. Keeps the invariant. */
    method HandleKeyUp(key: string)
      modifies this`currentFallInterval
      ensures Snapshot() == KeyUp(old(Snapshot()), key)
      ensures Inv(old(Snapshot())) ==> Inv(Snapshot())
    {
      if ToLower(key) == "s" {
        currentFallInterval := BASE_FALL_INTERVAL;
      }
    }

    /** The inner loop of `sendBoardToWLED`: the LEDs of row `y`, left to right. */
    method PushRow(ghost texts: seq<string>, led: seq<LedValue>, y: nat) returns (ledData: seq<LedValue>)
      requires WellFormed(board) && texts == ColorTexts(board) && y < ROWS
      requires y * COLS <= LED_COUNT && led == LedPayload(texts, y * COLS)
      ensures (y + 1) * COLS <= LED_COUNT && ledData == LedPayload(texts, (y + 1) * COLS)
    {
      RowIndex(y);
      RowIndex(y + 1);
      var start := y * COLS;
      ledData := led;
      for x := 0 to COLS
        invariant start + x <= LED_COUNT && ledData == LedPayload(texts, start + x)
      {
        var idx := start + x;
        var color := board[y][x];
        var hexColor := HexColor(color);
        LedStep(board, texts, ledData, y, x);
        ledData := ledData + [Index(idx), Hex(hexColor)];
      }
    }

    /**
     * The payload `sendBoardToWLED` builds: for every cell, row by row, its
     * index and its colour as six upper-case hexadecimal digits. A cell holding
     * `undefined` would make `toString` throw, so there must be none.
     */
    method SendBoardToWLED() returns (ledData: seq<LedValue>)
      requires WellFormed(board)
      requires forall y, x :: 0 <= y < ROWS && 0 <= x < COLS ==> board[y][x] != UNDEFINED
      ensures ledData == LedPayload(ColorTexts(board), LED_COUNT)
      ensures |ledData| == 2 * LED_COUNT
      ensures forall j :: 0 <= j < LED_COUNT ==>
        ledData[2 * j] == Index(j) && ledData[2 * j + 1] == Hex(HexColor(LedCell(board, j)))
    {
      ghost var texts := ColorTexts(board);
      ledData := [];
      for y := 0 to ROWS
        invariant y * COLS <= LED_COUNT && ledData == LedPayload(texts, y * COLS)
      {
        RowIndex(y + 1);
        ledData := PushRow(texts, ledData, y);
      }
      RowIndex(ROWS);
      BoardPayload(board);
    }
  }

  /** The colour text of every LED of `b`, in LED order. */
  function ColorTexts(b: Board): (t: seq<string>)
    requires WellFormed(b)
    ensures |t| == LED_COUNT
  {
    seq(LED_COUNT, j requires 0 <= j < LED_COUNT => HexColor(LedCell(b, j)))
  }

  /** The payload entries for the first `n` LEDs, in the order `sendBoardToWLED` pushes them. */
  function LedPayload(texts: seq<string>, n: nat): (led: seq<LedValue>)
    requires n <= |texts|
    ensures |led| == 2 * n
  {
    if n == 0 then [] else LedPayload(texts, n - 1) + [Index(n - 1), Hex(texts[n - 1])]
  }

  /**
   * The whole payload of a board sends LED j as j followed by the colour text
   * of its cell; on a board of 24-bit colours every such text is six
   * upper-case hexadecimal digits that denote the cell's colour.
   */
  lemma BoardPayload(b: Board)
    requires WellFormed(b)
    ensures forall j :: 0 <= j < LED_COUNT ==>
      LedPayload(ColorTexts(b), LED_COUNT)[2 * j] == Index(j) &&
      LedPayload(ColorTexts(b), LED_COUNT)[2 * j + 1] == Hex(HexColor(LedCell(b, j)))
    ensures Palette(b) ==> forall j :: 0 <= j < LED_COUNT ==>
      |HexColor(LedCell(b, j))| == 6 &&
      (forall k :: 0 <= k < 6 ==> IsUpperHexDigit(HexColor(LedCell(b, j))[k])) &&
      HexValue(HexColor(LedCell(b, j))) == LedCell(b, j)
  {
    var texts := ColorTexts(b);
    LedPayloadEntries(texts, LED_COUNT);
    forall j | 0 <= j < LED_COUNT
      ensures LedPayload(texts, LED_COUNT)[2 * j + 1] == Hex(HexColor(LedCell(b, j)))
    {
      assert texts[j] == HexColor(LedCell(b, j));
    }
    if Palette(b) {
      forall j | 0 <= j < LED_COUNT
        ensures |HexColor(LedCell(b, j))| == 6 &&
          (forall k :: 0 <= k < 6 ==> IsUpperHexDigit(HexColor(LedCell(b, j))[k])) &&
          HexValue(HexColor(LedCell(b, j))) == LedCell(b, j)
      {
        HexColorSixDigits(LedCell(b, j));
      }
    }
  }

  /** Pushing the index and colour text of cell (x, y) extends the payload by that cell's LED. */
  lemma LedStep(b: Board, texts: seq<string>, led: seq<LedValue>, y: int, x: int)
    requires WellFormed(b) && texts == ColorTexts(b)
    requires 0 <= y < ROWS && 0 <= x < COLS
    requires y * COLS + x <= LED_COUNT && led == LedPayload(texts, y * COLS + x)
    ensures y * COLS + x + 1 <= LED_COUNT
    ensures led + [Index(y * COLS + x), Hex(HexColor(b[y][x]))] == LedPayload(texts, y * COLS + x + 1)
  {
    var j := y * COLS + x;
    CellIndex(y, x);
    assert LedCell(b, j) == b[y][x];
    assert texts[j] == HexColor(b[y][x]);
  }

  /** LED `j` is sent as its index followed by its colour text. */
  lemma {:induction false} LedPayloadEntries(texts: seq<string>, n: nat)
    requires n <= |texts|
    ensures forall j :: 0 <= j < n ==>
      LedPayload(texts, n)[2 * j] == Index(j) && LedPayload(texts, n)[2 * j + 1] == Hex(texts[j])
  {
    if n > 0 {
      LedPayloadEntries(texts, n - 1);
      var led := LedPayload(texts, n);
      forall j | 0 <= j < n
        ensures led[2 * j] == Index(j) && led[2 * j + 1] == Hex(texts[j])
      {
        if j < n - 1 {
          assert led[2 * j] == LedPayload(texts, n - 1)[2 * j];
          assert led[2 * j + 1] == LedPayload(texts, n - 1)[2 * j + 1];
        }
      }
    }
  }

  /** Cell (x, y) is LED y * COLS + x. */
  lemma CellIndex(y: int, x: int)
    requires 0 <= y < ROWS && 0 <= x < COLS
    ensures 0 <= y * COLS + x < LED_COUNT
    ensures (y * COLS + x) / COLS == y && (y * COLS + x) % COLS == x
  {
    assert y * COLS == y * 16;
  }

  /** Row `y` starts at LED y * COLS, right after the last LED of row y - 1. */
  lemma RowIndex(y: int)
    requires 0 <= y <= ROWS
    ensures 0 <= y * COLS <= LED_COUNT && (y + 1) * COLS == y * COLS + COLS
  {
    assert y * COLS == y * 16 && (y + 1) * COLS == (y + 1) * 16;
  }
}
