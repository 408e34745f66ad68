/**
 * The game engine as a function of its state: one function per entry point of
 * the game (start button, animation frame, key down, key up) and per step
 * they are built from. The class `Game.Tetriz` is proved to perform exactly
 * these transitions; the lemmas here state what the transitions keep.
 */
module Engine {
  import opened Wrappers
  import opened Grid
  import opened Shapes
  import opened Pieces
  import opened LineClear
  import opened Text
  import opened Overlay

  /** The module-level state of the game. */
  datatype State = State(
    board: Board,
    gameRunning: bool,
    score: nat,
    fallCounter: nat,
    fallInterval: int,
    piece: Option<Piece>)

  /** The interval while the soft-drop key is held: max(2, 20 / 4). */
  const SOFT_DROP_INTERVAL := Max(2, BASE_FALL_INTERVAL / 4)

  /** The current piece has a proper shape and lies on the board, below row 0. */
  ghost predicate OnBoard(p: Piece) {
    IsShape(p.shape) && p.y >= 0 && InBounds(p)
  }

  /** What every transition needs to be defined: a well-formed grid, a placed piece, a piece while running. */
  ghost predicate Sound(s: State) {
    WellFormed(s.board) &&
    (s.piece.Some? ==> OnBoard(s.piece.value)) &&
    (s.gameRunning ==> s.piece.Some?)
  }

  /** A piece of the catalogue or a turn of one, anchored in the playable band. */
  ghost predicate InPlay(p: Piece) {
    IsShape(p.shape) && |p.shape| <= 4 && |p.shape[0]| <= 4 &&
    IsRgb(p.color) && p.y >= GAME_AREA_START
  }

  /**
   * The invariant of the game: on top of `Sound`, the piece is in play and
   * sits on free cells only, the playable band holds no full row, the score is a whole number of lines,
   * stays below the winning score while the game runs and never passes 1300;
   * and until the score reaches 1000 every cell holds a 24-bit colour.
   */
  ghost predicate Inv(s: State) {
    Sound(s) &&
    (s.piece.Some? ==> InPlay(s.piece.value) && CanMove(s.board, s.piece.value, 0, 0)) &&
    NoFullRows(s.board) &&
    s.score % LINE_SCORE == 0 && s.score <= WIN_SCORE + 3 * LINE_SCORE &&
    (s.gameRunning ==> s.score < WIN_SCORE) &&
    (s.score < WIN_SCORE ==> Palette(s.board))
  }

  /** The state once the script has loaded: `initGame()` and one `drawBoard()`. */
  function Initial(): (r: State)
    ensures WellFormed(r.board)
    ensures forall y, x :: GAME_AREA_START <= y < ROWS && 0 <= x < COLS ==> r.board[y][x] == 0
    ensures !r.gameRunning && r.piece.None?
    ensures r.score == 0 && r.fallCounter == 0 && r.fallInterval == BASE_FALL_INTERVAL
  {
    OverlayKeepsPlayfield(InitialBoard(), 0);
    var b := ScoreOverlay(InitialBoard(), 0);
    assert forall y :: GAME_AREA_START <= y < ROWS ==> b[y] == b[GAME_AREA_START..][y - GAME_AREA_START];
    State(b, false, 0, 0, BASE_FALL_INTERVAL, None)
  }

  /** `currentPiece = generateNewPiece()` with catalogue entry `k`; a blocked spawn ends the game. */
  function Spawn(s: State, k: nat): (r: State)
    requires WellFormed(s.board) && k < |TETROMINOES|
    ensures Sound(r)
  {
    var p := Spawned(k);
    if CanMove(s.board, p, 0, 0) then
      CanMoveInBounds(s.board, p, 0, 0);
      assert p.(x := p.x + 0, y := p.y + 0) == p;
      s.(piece := Some(p))
    else
      s.(piece := None, gameRunning := false)
  }

  /** `removeFullLines`: the cleared board, then the scoring step. */
  function ClearLines(s: State): (r: State)
    requires WellFormed(s.board)
    ensures WellFormed(r.board) && NoFullRows(r.board)
    ensures r.board == ClearedBoard(s.board)
    ensures r.board[..GAME_AREA_START] == s.board[..GAME_AREA_START]
    ensures r.score == s.score + LINE_SCORE * LinesCleared(s.board)
    ensures r.gameRunning ==> s.gameRunning
    ensures r.piece == s.piece && r.fallCounter == s.fallCounter
  {
    ClearedBoardShape(s.board);
    var pr := Scored(Progress(s.score, s.fallInterval, s.gameRunning), LinesCleared(s.board));
    s.(board := ClearedBoard(s.board), score := pr.score, fallInterval := pr.interval, gameRunning := pr.running)
  }

  /** `lockPiece`: write the piece, stop if it reaches above the band, else clear lines and spawn `next`. */
  function Lock(s: State, next: nat): (r: State)
    requires Sound(s) && s.piece.Some? && next < |TETROMINOES|
    ensures Sound(r)
  {
    var p := s.piece.value;
    var locked := s.(board := Locked(s.board, p));
    if AboveBand(p) then locked.(gameRunning := false)
    else
      ClearedBoardShape(locked.board);
      Spawn(ClearLines(locked), next)
  }

  /** `moveDown`: one row down if the piece fits there, otherwise lock it. */
  function MoveDown(s: State, next: nat): (r: State)
    requires Sound(s) && s.piece.Some? && next < |TETROMINOES|
    ensures Sound(r)
  {
    var p := s.piece.value;
    if CanMove(s.board, p, 0, 1) then
      CanMoveInBounds(s.board, p, 0, 1);
      assert p.(x := p.x + 0, y := p.y + 1) == p.(y := p.y + 1);
      s.(piece := Some(p.(y := p.y + 1)))
    else
      Lock(s, next)
  }

  /** The state effect of `drawBoard`: `updateScoreDisplay` stamps the score into the board. */
  function Draw(s: State): (r: State)
    requires WellFormed(s.board)
    ensures WellFormed(r.board)
  {
    s.(board := ScoreOverlay(s.board, s.score))
  }

  /** The frame counter has reached the fall interval: move down and restart the count. */
  function Fall(s: State, next: nat): (r: State)
    requires Sound(s) && s.piece.Some? && next < |TETROMINOES|
    ensures Sound(r)
  {
    if s.fallCounter >= s.fallInterval then MoveDown(s, next).(fallCounter := 0) else s
  }

  /** One call of `gameLoop`; `next` is the catalogue entry a spawn in this frame would use. */
  function Tick(s: State, next: nat): (r: State)
    requires Sound(s) && next < |TETROMINOES|
    ensures Sound(r)
  {
    if !s.gameRunning then s
    else Draw(Fall(s.(fallCounter := s.fallCounter + 1), next))
  }

  /** `startGame` with spawn entry `k` and `next` for its first frame; ignored while running. */
  function Start(s: State, k: nat, next: nat): (r: State)
    requires Sound(s) && k < |TETROMINOES| && next < |TETROMINOES|
    ensures Sound(r)
  {
    if s.gameRunning then s
    else
      var s1 := s.(gameRunning := true, score := 0, fallInterval := BASE_FALL_INTERVAL, board := InitialBoard());
      Tick(Spawn(s1, k), next)
  }

  /**
   * The start button: start when idle; when running, stop. The restart 100 ms
   * later is a later call of `Start`, which does nothing if the game is
   * running again by then.
   */
  function PressStart(s: State, k: nat, next: nat): (r: State)
    requires Sound(s) && k < |TETROMINOES| && next < |TETROMINOES|
    ensures Sound(r)
  {
    if !s.gameRunning then Start(s, k, next) else s.(gameRunning := false)
  }

  /** The piece with its shape turned a quarter clockwise. */
  function RotatedPiece(p: Piece): (q: Piece)
    requires IsMatrix(p.shape)
    ensures q.(shape := p.shape) == p
    ensures q.shape == RotateMatrix(p.shape)
    ensures Count(q.shape) == Count(p.shape)
  {
    RotatePreservesCount(p.shape);
    p.(shape := RotateMatrix(p.shape))
  }

  /** `rotatePiece`: commit the rotated shape only if it fits at the same anchor. */
  function Rotate(s: State): (r: State)
    requires Sound(s)
    ensures Sound(r)
  {
    if s.piece.None? then s
    else
      var p := s.piece.value;
      var q := RotatedPiece(p);
      var s1 := if CanMove(s.board, q, 0, 0) then
          RotateIsShape(p.shape);
          CanMoveInBounds(s.board, q, 0, 0);
          assert q.(x := q.x + 0, y := q.y + 0) == q;
          s.(piece := Some(q))
        else s;
      Draw(s1)
  }

  /** The key commands of the game. */
  datatype Command = MoveLeft | MoveRight | SoftDrop | RotateShape | Ignored

  /** `e.key.toLowerCase()` matched against "a", "d", "s" and "w". */
  function KeyCommand(key: string): (c: Command)
    ensures c == MoveLeft <==> key == "a" || key == "A"
    ensures c == MoveRight <==> key == "d" || key == "D"
    ensures c == SoftDrop <==> key == "s" || key == "S"
    ensures c == RotateShape <==> key == "w" || key == "W"
  {
    var k := ToLower(key);
    LowerSingle(key, 'a');
    LowerSingle(key, 'd');
    LowerSingle(key, 's');
    LowerSingle(key, 'w');
    if k == "a" then MoveLeft
    else if k == "d" then MoveRight
    else if k == "s" then SoftDrop
    else if k == "w" then RotateShape
    else Ignored
  }

  /** A key lower-cases to a single letter exactly when it is that letter in either case. */
  lemma LowerSingle(key: string, ch: char)
    requires 'a' <= ch <= 'z'
    ensures ToLower(key) == [ch] <==> key == [ch] || key == [(ch as int - 32) as char]
  {
    if ToLower(key) == [ch] {
      assert |key| == 1 && ToLower(key)[0] == ch;
    }
  }

  /** Moves "a" and "d": one column sideways if the piece fits there. */
  function Shift(s: State, dx: int): (r: State)
    requires Sound(s) && s.piece.Some?
    ensures Sound(r)
  {
    var p := s.piece.value;
    if CanMove(s.board, p, dx, 0) then
      CanMoveInBounds(s.board, p, dx, 0);
      assert p.(x := p.x + dx, y := p.y + 0) == p.(x := p.x + dx);
      s.(piece := Some(p.(x := p.x + dx)))
    else s
  }

  /** The body of the `switch` in the keydown handler. */
  function Perform(s: State, c: Command): (r: State)
    requires Sound(s) && s.piece.Some?
    ensures Sound(r)
  {
    match c
    case MoveLeft => Shift(s, -1)
    case MoveRight => Shift(s, 1)
    case SoftDrop => s.(fallInterval := SOFT_DROP_INTERVAL)
    case RotateShape => Rotate(s)
    case Ignored => s
  }

  /** The keydown handler; ignored unless the game runs with a piece, and followed by `drawBoard()`. */
  function KeyDown(s: State, key: string): (r: State)
    requires Sound(s)
    ensures Sound(r)
  {
    if !s.gameRunning || s.piece.None? then s
    else Draw(Perform(s, KeyCommand(key)))
  }

  /** The keyup handler: releasing "s" restores the base interval, whatever the clears had earned. */
  function KeyUp(s: State, key: string): (r: State)
    ensures r.(fallInterval := s.fallInterval) == s
    ensures key == "s" || key == "S" ==> r.fallInterval == BASE_FALL_INTERVAL
    ensures key != "s" && key != "S" ==> r == s
  {
    LowerSingle(key, 's');
    if ToLower(key) == "s" then s.(fallInterval := BASE_FALL_INTERVAL) else s
  }

  // ---- the invariant ----

  /** Rows of the playable band that are equal keep `NoFullRows`. */
  lemma NoFullRowsSameBand(a: Board, b: Board)
    requires WellFormed(a) && WellFormed(b) && NoFullRows(a)
    requires a[GAME_AREA_START..] == b[GAME_AREA_START..]
    ensures NoFullRows(b)
  {
    forall y | GAME_AREA_START <= y < ROWS
      ensures !RowFull(b[y])
    {
      assert b[y] == b[GAME_AREA_START..][y - GAME_AREA_START];
    }
  }

  /** The game as loaded, before the first start, satisfies the invariant. */
  lemma InitialInv()
    ensures Inv(Initial())
  {
    InitialBoardHasNoFullRows();
    InitialBoardPalette();
    OverlayKeepsPlayfield(InitialBoard(), 0);
    OverlayPalette(InitialBoard(), 0);
    NoFullRowsSameBand(InitialBoard(), Initial().board);
  }

  /** Drawing keeps the invariant: the overlay writes the status band only, in digit colours below 1000. */
  lemma DrawInv(s: State)
    requires Inv(s)
    ensures Inv(Draw(s))
  {
    OverlayKeepsPlayfield(s.board, s.score);
    NoFullRowsSameBand(s.board, Draw(s).board);
    if s.piece.Some? {
      CanMoveSameBand(s.board, Draw(s).board, s.piece.value);
    }
    if s.score < WIN_SCORE {
      OverlayPalette(s.board, s.score);
    }
  }

  /** A spawn on a board without full rows gives a state satisfying the invariant. */
  lemma {:induction false} SpawnInv(s: State, k: nat)
    requires WellFormed(s.board) && NoFullRows(s.board) && k < |TETROMINOES|
    requires s.score % LINE_SCORE == 0 && s.score <= WIN_SCORE + 3 * LINE_SCORE
    requires (s.gameRunning ==> s.score < WIN_SCORE) && (s.score < WIN_SCORE ==> Palette(s.board))
    ensures Inv(Spawn(s, k))
  {
    CatalogueShapes(k);
  }

  /**
   * Rows a piece does not reach keep their contents when it locks, so a
   * lock on a board without full rows fills at most as many rows as the
   * piece is high: at most four.
   */
  lemma {:induction false} LockFillsAtMostFourRows(s: State)
    requires Inv(s) && s.piece.Some?
    ensures LinesCleared(Locked(s.board, s.piece.value)) <= |s.piece.value.shape| <= 4
  {
    var p := s.piece.value;
    var l := Locked(s.board, p);
    var rows := Playable(l);
    forall i | 0 <= i < |rows| && !(p.y - GAME_AREA_START <= i < p.y - GAME_AREA_START + |p.shape|)
      ensures !RowFull(rows[i])
    {
      var y := GAME_AREA_START + i;
      assert rows[i] == l[y];
      forall x | 0 <= x < COLS
        ensures l[y][x] == s.board[y][x]
      {
        assert !Covers(p, x, y);
      }
      assert l[y] == s.board[y];
    }
    FullCountWindow(rows, p.y - GAME_AREA_START, |p.shape|);
  }

  /**
   * Locking a piece of a running game, clearing and respawning gives a
   * consistent state, whose board holds 24-bit colours only, whatever the
   * new score: the board `lockPiece` sends to the LEDs.
   */
  lemma {:induction false} LockInv(s: State, next: nat)
    requires Inv(s) && s.gameRunning && s.piece.Some? && next < |TETROMINOES|
    ensures Inv(Lock(s, next))
    ensures Palette(Lock(s, next).board)
    ensures s.score <= Lock(s, next).score <= s.score + 4 * LINE_SCORE
  {
    var p := s.piece.value;
    InPlayNotAboveBand(p);
    var locked := s.(board := Locked(s.board, p));
    LockFillsAtMostFourRows(s);
    ClearedBoardShape(locked.board);
    ClearedBoardPalette(locked.board);
    var c := ClearLines(locked);
    ScoredRules(Progress(s.score, s.fallInterval, s.gameRunning), LinesCleared(locked.board));
    SpawnInv(c, next);
  }

  /** A step down, or a lock when the piece cannot go further, keeps the invariant. */
  lemma {:induction false} MoveDownInv(s: State, next: nat)
    requires Inv(s) && s.gameRunning && s.piece.Some? && next < |TETROMINOES|
    ensures Inv(MoveDown(s, next))
    ensures s.score <= MoveDown(s, next).score <= s.score + 4 * LINE_SCORE
  {
    var p := s.piece.value;
    if CanMove(s.board, p, 0, 1) {
      CanMoveShifted(s.board, p, 0, 1);
      assert p.(x := p.x + 0, y := p.y + 1) == p.(y := p.y + 1);
    } else {
      LockInv(s, next);
    }
  }

  /** The invariant does not depend on the frame counter. */
  lemma CounterInv(s: State, n: nat)
    requires Inv(s)
    ensures Inv(s.(fallCounter := n))
  {
    var r := s.(fallCounter := n);
    assert r.board == s.board && r.piece == s.piece;
  }

  /** The gravity step of a frame keeps the invariant, and raises the score by at most four lines. */
  lemma {:induction false} FallInv(s: State, next: nat)
    requires Inv(s) && s.gameRunning && next < |TETROMINOES|
    ensures Inv(Fall(s, next))
    ensures s.score <= Fall(s, next).score <= s.score + 4 * LINE_SCORE
  {
    if s.fallCounter >= s.fallInterval {
      MoveDownInv(s, next);
      CounterInv(MoveDown(s, next), 0);
    }
  }

  /** Every frame keeps the invariant, and raises the score by at most four lines. */
  lemma {:induction false} TickInv(s: State, next: nat)
    requires Inv(s) && next < |TETROMINOES|
    ensures Inv(Tick(s, next))
    ensures s.score <= Tick(s, next).score <= s.score + 4 * LINE_SCORE
  {
    if s.gameRunning {
      var s1 := s.(fallCounter := s.fallCounter + 1);
      CounterInv(s, s.fallCounter + 1);
      FallInv(s1, next);
      DrawInv(Fall(s1, next));
      assert Tick(s, next) == Draw(Fall(s1, next));
    }
  }

  /**
   * Starting keeps the invariant; the game it starts has a score of 0 after
   * its first frame, so the board `startGame` sends to the LEDs holds 24-bit
   * colours only.
   */
  lemma {:induction false} StartInv(s: State, k: nat, next: nat)
    requires Inv(s) && !s.gameRunning && k < |TETROMINOES| && next < |TETROMINOES|
    ensures Inv(Start(s, k, next))
    ensures Start(s, k, next).score == 0
    ensures Palette(Start(s, k, next).board)
  {
    var s1 := s.(gameRunning := true, score := 0, fallInterval := BASE_FALL_INTERVAL, board := InitialBoard());
    InitialBoardHasNoFullRows();
    InitialBoardPalette();
    SpawnInv(s1, k);
    TickInv(Spawn(s1, k), next);
    StartOutcome(s, k, next);
  }

  /** Starting (or stopping) through the button keeps the invariant. */
  lemma {:induction false} PressStartInv(s: State, k: nat, next: nat)
    requires Inv(s) && k < |TETROMINOES| && next < |TETROMINOES|
    ensures Inv(PressStart(s, k, next))
  {
    if !s.gameRunning {
      StartInv(s, k, next);
    }
  }

  /** Turning the piece keeps the invariant: the turned shape is still at most 4 x 4 and in the band. */
  lemma {:induction false} RotateInv(s: State)
    requires Inv(s)
    ensures Inv(Rotate(s))
  {
    if s.piece.Some? {
      var q := RotatedPiece(s.piece.value);
      if CanMove(s.board, q, 0, 0) {
        RotateIsShape(s.piece.value.shape);
        CanMoveInBounds(s.board, q, 0, 0);
        assert q.(x := q.x + 0, y := q.y + 0) == q;
        var s1 := s.(piece := Some(q));
        assert InPlay(q);
        assert Rotate(s) == Draw(s1);
        DrawInv(s1);
      } else {
        DrawInv(s);
      }
    }
  }

  /** Every key press keeps the invariant. */
  lemma {:induction false} KeyDownInv(s: State, key: string)
    requires Inv(s)
    ensures Inv(KeyDown(s, key))
  {
    if s.gameRunning && s.piece.Some? {
      var c := KeyCommand(key);
      var p := s.piece.value;
      if c == RotateShape {
        RotateInv(s);
        DrawInv(Rotate(s));
      } else if c == MoveLeft || c == MoveRight {
        var dx := if c == MoveLeft then -1 else 1;
        assert Perform(s, c) == Shift(s, dx);
        if CanMove(s.board, p, dx, 0) {
          CanMoveShifted(s.board, p, dx, 0);
          assert p.(x := p.x + dx, y := p.y + 0) == p.(x := p.x + dx);
        }
        DrawInv(Perform(s, c));
      } else {
        DrawInv(Perform(s, c));
      }
    }
  }

  /** Releasing a key keeps the invariant: only the fall interval may change. */
  lemma KeyUpInv(s: State, key: string)
    requires Inv(s)
    ensures Inv(KeyUp(s, key))
  {
  }

  // ---- properties of the transitions ----

  /**
   * Under the invariant, locking never takes the game-over branch, and lock
   * plus line clearing leave the status band exactly as it was.
   */
  lemma {:induction false} LockKeepsStatusBand(s: State, next: nat)
    requires Inv(s) && s.piece.Some? && next < |TETROMINOES|
    ensures !AboveBand(s.piece.value)
    ensures Lock(s, next).board[..GAME_AREA_START] == s.board[..GAME_AREA_START]
  {
    var p := s.piece.value;
    InPlayNotAboveBand(p);
    LockedKeepsStatusBand(s.board, p);
    ClearedBoardShape(Locked(s.board, p));
  }

  /**
   * In one frame the piece stays where it is, drops exactly one row, or is
   * locked and replaced by a fresh piece at the spawn row (or by none, when
   * the spawn is blocked). The anchor of a piece never rises.
   */
  lemma {:induction false} TickMovesPieceDown(s: State, next: nat)
    requires Sound(s) && next < |TETROMINOES|
    requires s.piece.Some? ==> s.piece.value.y >= GAME_AREA_START
    ensures var r := Tick(s, next);
      r.piece == s.piece ||
      (s.piece.Some? && r.piece == Some(s.piece.value.(y := s.piece.value.y + 1))) ||
      r.piece == None || r.piece == Some(Spawned(next))
    ensures Tick(s, next).piece.Some? ==> Tick(s, next).piece.value.y >= GAME_AREA_START
  {
    if s.gameRunning {
      var s1 := s.(fallCounter := s.fallCounter + 1);
      var p := s.piece.value;
      if s1.fallCounter < s1.fallInterval {
        assert Tick(s, next).piece == s.piece;
      } else if CanMove(s.board, p, 0, 1) {
        assert Tick(s, next).piece == Some(p.(y := p.y + 1));
      } else {
        InPlayNotAboveBand(p);
        var locked := s1.(board := Locked(s1.board, p));
        ClearedBoardShape(locked.board);
        assert Tick(s, next).piece == Spawn(ClearLines(locked), next).piece;
      }
    }
  }

  /**
   * Gravity: in a frame where the counter reaches the interval, the piece
   * moves one row down when it fits there, and otherwise it is locked (with
   * line clearing and the next spawn); either way the counter restarts and
   * the frame ends with `drawBoard`.
   */
  lemma TickGravity(s: State, next: nat)
    requires Sound(s) && s.gameRunning && next < |TETROMINOES|
    requires s.fallCounter + 1 >= s.fallInterval
    ensures var p := s.piece.value;
      CanMove(s.board, p, 0, 1) ==>
        Tick(s, next) == Draw(s.(piece := Some(p.(y := p.y + 1)), fallCounter := 0))
    ensures var p := s.piece.value;
      !CanMove(s.board, p, 0, 1) ==>
        Tick(s, next) == Draw(Lock(s.(fallCounter := s.fallCounter + 1), next).(fallCounter := 0))
  {
  }

  /**
   * "a" and "d" move the piece one column left or right exactly when it fits
   * there, and leave it where it is otherwise; the rest of the state changes
   * only by the score overlay of `drawBoard`.
   */
  lemma KeyDownShifts(s: State, key: string)
    requires Sound(s) && s.gameRunning
    ensures var p, r := s.piece.value, KeyDown(s, key);
      (key == "a" || key == "A") ==>
        (r.piece == Some(p.(x := p.x - 1)) <==> CanMove(s.board, p, -1, 0)) &&
        (!CanMove(s.board, p, -1, 0) ==> r.piece == s.piece) &&
        r == Draw(s).(piece := r.piece)
    ensures var p, r := s.piece.value, KeyDown(s, key);
      (key == "d" || key == "D") ==>
        (r.piece == Some(p.(x := p.x + 1)) <==> CanMove(s.board, p, 1, 0)) &&
        (!CanMove(s.board, p, 1, 0) ==> r.piece == s.piece) &&
        r == Draw(s).(piece := r.piece)
  {
    if key == "a" || key == "A" {
      assert KeyDown(s, key) == Draw(Shift(s, -1));
      ShiftOutcome(s, -1);
    } else if key == "d" || key == "D" {
      assert KeyDown(s, key) == Draw(Shift(s, 1));
      ShiftOutcome(s, 1);
    }
  }

  /** A sideways move by a non-zero `dx`, drawn, happens exactly when the piece fits there. */
  lemma ShiftOutcome(s: State, dx: int)
    requires Sound(s) && s.piece.Some? && dx != 0
    ensures var p, r := s.piece.value, Draw(Shift(s, dx));
      (r.piece == Some(p.(x := p.x + dx)) <==> CanMove(s.board, p, dx, 0)) &&
      (!CanMove(s.board, p, dx, 0) ==> r.piece == s.piece) &&
      r == Draw(s).(piece := r.piece)
  {
    var p := s.piece.value;
    if !CanMove(s.board, p, dx, 0) {
      assert p.(x := p.x + dx).x != p.x;
    }
  }

  /**
   * A key press never changes the piece's row or colour: "a" and "d" move it
   * one column when it fits, "w" only turns its shape.
   */
  lemma {:induction false} KeyDownKeepsRow(s: State, key: string)
    requires Inv(s)
    ensures var r := KeyDown(s, key);
      (r.piece.Some? <==> s.piece.Some?) &&
      (r.piece.Some? ==> r.piece.value.y == s.piece.value.y && r.piece.value.color == s.piece.value.color)
    ensures var r := KeyDown(s, key);
      r.piece.Some? && KeyCommand(key) != RotateShape ==>
        r.piece.value.shape == s.piece.value.shape && r.piece.value.x - s.piece.value.x in {-1, 0, 1}
  {
  }

  /**
   * `rotatePiece` changes the piece's shape and nothing else about it: the
   * anchor, the colour and the number of cells stay; the turned shape is
   * committed when it fits at the same anchor, otherwise the piece is kept.
   * The rest of the state changes only by the score overlay of `drawBoard`.
   */
  lemma {:induction false} RotateOnlyShape(s: State)
    requires Inv(s) && s.piece.Some?
    ensures var p, r := s.piece.value, Rotate(s);
      r.piece.Some? && r.piece.value.x == p.x && r.piece.value.y == p.y &&
      r.piece.value.color == p.color && Count(r.piece.value.shape) == Count(p.shape)
    ensures var p, r := s.piece.value, Rotate(s);
      CanMove(s.board, RotatedPiece(p), 0, 0) ==> r.piece.value.shape == RotateMatrix(p.shape)
    ensures !CanMove(s.board, RotatedPiece(s.piece.value), 0, 0) ==> Rotate(s).piece == s.piece
    ensures var r := Rotate(s);
      r.board == ScoreOverlay(s.board, s.score) &&
      r.(board := s.board, piece := s.piece) == s
  {
    RotatePreservesCount(s.piece.value.shape);
  }

  /**
   * Holding "s" while playing sets the interval to 5 whatever it was; releasing
   * it sets 20, discarding any speed-up earned by clearing lines.
   */
  lemma SoftDropInterval(s: State, key: string)
    requires Sound(s)
    requires key == "s" || key == "S"
    ensures s.gameRunning ==> KeyDown(s, key).fallInterval == 5
    ensures KeyUp(s, key).fallInterval == BASE_FALL_INTERVAL
    ensures KeyUp(s, key) == s.(fallInterval := BASE_FALL_INTERVAL)
  {
    LowerSingle(key, 's');
  }

  /**
   * `generateNewPiece` yields the catalogue piece at the spawn position exactly
   * when it fits there; otherwise there is no piece and play stops. Nothing
   * else in the state changes.
   */
  lemma SpawnOutcome(s: State, k: nat)
    requires WellFormed(s.board) && k < |TETROMINOES|
    ensures Spawn(s, k).piece == Some(Spawned(k)) <==> CanMove(s.board, Spawned(k), 0, 0)
    ensures Spawn(s, k).piece.None? <==> !CanMove(s.board, Spawned(k), 0, 0)
    ensures Spawn(s, k).gameRunning == (s.gameRunning && CanMove(s.board, Spawned(k), 0, 0))
    ensures Spawn(s, k).(piece := s.piece, gameRunning := s.gameRunning) == s
  {
  }

  /**
   * `lockPiece` on a piece that reaches above row 15 paints it and stops play:
   * no line is cleared, no piece is spawned, and nothing else changes.
   * Otherwise the painted board is cleared, the lock scores 100 per full row,
   * and the next piece is spawned if it fits on the cleared board.
   */
  lemma LockOutcome(s: State, next: nat)
    requires Sound(s) && s.piece.Some? && next < |TETROMINOES|
    ensures AboveBand(s.piece.value) ==>
      Lock(s, next) == s.(board := Locked(s.board, s.piece.value), gameRunning := false)
    ensures !AboveBand(s.piece.value) ==>
      Lock(s, next).board == ClearedBoard(Locked(s.board, s.piece.value)) &&
      Lock(s, next).score == s.score + LINE_SCORE * LinesCleared(Locked(s.board, s.piece.value)) &&
      Lock(s, next).piece ==
        (if CanMove(ClearedBoard(Locked(s.board, s.piece.value)), Spawned(next), 0, 0)
         then Some(Spawned(next)) else None)
  {
  }

  /**
   * `startGame` returns at once while the game runs. From an idle game it
   * starts play with score 0 and the base interval, on `initGame`'s board
   * with the score drawn, and with catalogue piece `k` at its spawn position.
   * The frame counter is not reset, so the first frame counts on from where
   * the last game left it, and the piece has fallen one row if that frame
   * reaches the interval.
   */
  lemma StartOutcome(s: State, k: nat, next: nat)
    requires Sound(s) && k < |TETROMINOES| && next < |TETROMINOES|
    ensures s.gameRunning ==> Start(s, k, next) == s
    ensures !s.gameRunning ==>
      Start(s, k, next).gameRunning && Start(s, k, next).score == 0 &&
      Start(s, k, next).fallInterval == BASE_FALL_INTERVAL &&
      Start(s, k, next).fallCounter ==
        (if s.fallCounter + 1 >= BASE_FALL_INTERVAL then 0 else s.fallCounter + 1)
    ensures !s.gameRunning ==> Start(s, k, next).board == Initial().board
    ensures !s.gameRunning ==>
      Start(s, k, next).piece ==
        Some(if s.fallCounter + 1 >= BASE_FALL_INTERVAL then Spawned(k).(y := Spawned(k).y + 1) else Spawned(k))
  {
    if !s.gameRunning {
      SpawnOnClearField(InitialBoard(), k);
      CatalogueShapes(k);
      CanMoveIff(InitialBoard(), Spawned(k), 0, 1);
      assert CanMove(InitialBoard(), Spawned(k), 0, 1);
    }
  }

  /** The start button stops a running game and changes nothing else; on an idle game it is `startGame`. */
  lemma PressStartOutcome(s: State, k: nat, next: nat)
    requires Sound(s) && k < |TETROMINOES| && next < |TETROMINOES|
    ensures s.gameRunning ==> PressStart(s, k, next) == s.(gameRunning := false)
    ensures !s.gameRunning ==> PressStart(s, k, next) == Start(s, k, next)
  {
  }

  /** A key press is ignored unless the game runs with a piece in play. */
  lemma KeyDownIgnored(s: State, key: string)
    requires Sound(s)
    ensures !s.gameRunning || s.piece.None? ==> KeyDown(s, key) == s
  {
  }

  /**
   * A frame of an idle game changes nothing. A frame of a running game counts
   * up; below the fall interval the piece, the score and the playable band stay
   * as they were, and on reaching it the count restarts at 0.
   */
  lemma TickCounter(s: State, next: nat)
    requires Sound(s) && next < |TETROMINOES|
    ensures !s.gameRunning ==> Tick(s, next) == s
    ensures s.gameRunning && s.fallCounter + 1 < s.fallInterval ==>
      Tick(s, next).fallCounter == s.fallCounter + 1 && Tick(s, next).piece == s.piece &&
      Tick(s, next).score == s.score && Tick(s, next).gameRunning &&
      Tick(s, next).board[GAME_AREA_START..] == s.board[GAME_AREA_START..]
    ensures s.gameRunning && s.fallCounter + 1 >= s.fallInterval ==> Tick(s, next).fallCounter == 0
  {
    if s.gameRunning {
      OverlayKeepsPlayfield(s.board, s.score);
    }
  }
}
