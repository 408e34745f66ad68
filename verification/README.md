# tetriz.js in Dafny

A model of the game engine of `tetriz.js`, a falling-block puzzle played on a
16 x 48 grid of integer colours that mirrors an LED matrix driven by WLED. Rows
0-14 form the status band, which shows the score in a 4 x 4 pixel font. Rows
15-47 form the playable band. Row 9 is painted with the red "sentinel" colour
`0xFF0000`. That colour is passable for a moving piece, yet it counts as filled
when full rows are cleared. The Z piece has the same colour, so a locked Z
never blocks anything.

The project follows the source's own split between pure and imperative code:

- `grid.dfy` (`Grid`): the constants, the board shape, `initGame`'s board, and
  the "no full row" and "24-bit colours only" predicates.
- `shapes.dfy` (`Shapes`): `rotateMatrix` and what it preserves.
- `pieces.dfy` (`Pieces`):
  - the catalogue `TETROMINOES` and the spawn position;
  - `canMove`, written as the nested `every` it is;
  - the cells `lockPiece` writes.
- `line_clear.dfy` (`LineClear`):
  - what `removeFullLines` does to the board, as a reference function
    (`ClearedBoard`);
  - the scan invariant of its bottom-up loop;
  - the scoring step.
- `text.dfy` (`Text`): `toString` in base 10 and 16, `padStart`, and ASCII
  `toUpperCase` / `toLowerCase`.
- `overlay.dfy` (`Overlay`): `pixelNumbers` and the board that
  `updateScoreDisplay` / `drawPixelNumber` leave behind.
- `engine.dfy` (`Engine`):
  - the module-level variables as one value, `State`;
  - every entry point of the game as a function on it: the start button, an
    animation frame, key down, key up;
  - the game's invariant, and the lemmas that every entry point keeps it.
- `game.dfy` (`Game`):
  - the class `Tetriz`, whose fields are the script's variables;
  - one method per function of the script, updating the fields in place
    (nested loops for `lockPiece`, `drawPixelNumber` and `sendBoardToWLED`;
    the `splice` loop with its `y++` for `removeFullLines`);
  - each method's postcondition is that it performs the `Engine` transition,
    or the reference function in `Grid`, `Pieces`, `LineClear`, `Overlay` or
    `Game`, for its function, so the lemmas about those hold of the running
    game.

`Math.random` becomes a catalogue index parameter. It is `k` for the piece
`startGame` spawns and `next` for a spawn inside a frame.

The invariant `Engine.Inv` says:

- the grid keeps its shape;
- the piece lies on the board, in the playable band, on free cells only (it
  passes `canMove` with no offset), and is at most 4 x 4;
- a running game has a piece;
- the playable band has no full row;
- the score is a multiple of 100, at most 1300, and below 1000 while the game
  runs;
- while the score is below 1000, every cell holds a 24-bit colour.

The last point matters because of the score overlay. For a score of 1000 or
more, the padded score has four digits, but `colors` has only three entries.
The fourth digit is therefore drawn in `undefined`, which this model writes as
the value `UNDEFINED` (-1). `Overlay.WinOverlayWritesUndefined` shows that the
winning board then holds `undefined` at cell (15, 2).

`sendBoardToWLED` would throw on such a cell, because `undefined.toString(16)`
fails. The model therefore requires that no cell holds `UNDEFINED`. Two lemmas
show that the boards the source actually sends always meet that requirement:

- `Engine.StartInv` covers the board `startGame` sends.
- `Engine.LockInv` covers the board `lockPiece` sends, including after a winning
  clear. That board has not yet been drawn with the new score.

`startGame` does not reset the frame counter. The model keeps that, as the code
has it.

## Model

| member | source | states |
|---|---|---|
| Grid.InitialBoard | tetriz.js:60-67 | the board is 48 rows of 16; a cell holds the sentinel colour exactly in row 9, and 0 exactly elsewhere |
| Grid.InitialBoardHasNoFullRows | tetriz.js:64-66 | a fresh board has no full row in the playable band (the sentinel row lies in the status band) |
| Grid.InitialBoardPalette | tetriz.js:64-66 | every cell of a fresh board is a 24-bit colour |
| Grid.RowFull | tetriz.js:131 | `row.every(cell => cell !== 0)`: every cell of the row is non-zero |
| Grid.RowFullNoEmpty | tetriz.js:131 | a row is full exactly when it holds no empty (0) cell |
| Shapes.Reverse | tetriz.js:249 | `reverse`: same length, element k is element n-1-k of the input |
| Shapes.Column | tetriz.js:249 | `matrix.map(row => row[index])`: one entry per row of the matrix |
| Shapes.RotateMatrix | tetriz.js:247-251 | an R x C matrix becomes C x R with result[i][j] = m[R-1-j][i] |
| Shapes.RotateIsShape | tetriz.js:247-251 | rotating a non-empty shape gives a non-empty shape, with rows and columns swapped |
| Shapes.RotateTwice | tetriz.js:247-251 | two rotations are a half turn: result[i][j] = m[R-1-i][C-1-j] |
| Shapes.RotateFourTimes | tetriz.js:247-251 | four rotations give back the original matrix |
| Shapes.RotatePreservesCount | tetriz.js:247-251 | rotation keeps the number of occupied cells |
| Shapes.CountByColumns | tetriz.js:247-251 | counting the cells of a matrix by rows or by columns gives the same number |
| Shapes.RotatedPrefixCount | tetriz.js:247-251 | the first n rows of the rotated matrix hold as many cells as the first n columns of the original |
| Pieces.CatalogueShapes | tetriz.js:37-43 | every catalogue shape is a non-empty rectangle of at most 4 x 4, with a 24-bit colour |
| Pieces.Spawned | tetriz.js:87-92 | the spawned piece has its catalogue shape and colour, sits at y = 15, and is horizontally centred within the 16 columns (left margin equal to the right margin, or one more) |
| Pieces.RowFitsIff | tetriz.js:72-82 | the inner `every` holds exactly when every occupied cell of the row lands on a free cell |
| Pieces.ShapeFitsIff | tetriz.js:71-83 | the outer `every` holds exactly when every occupied cell of the shape lands on a free cell |
| Pieces.CanMove | tetriz.js:70-84 | `canMove` holds exactly when every occupied cell of the moved piece lands inside the 16 columns, above row 48, on a cell holding 0 or `0xFF0000` |
| Pieces.CanMoveShifted | tetriz.js:70-84 | testing a move by (dx, dy) gives the same answer as testing the moved piece with no offset |
| Pieces.CanMoveSameBand | tetriz.js:70-84 | for a piece anchored in the playable band, the answer depends on rows 15-47 only |
| Pieces.CanMoveIff | tetriz.js:70-84 | `canMove` fails exactly when some occupied cell lands at x < 0, x >= 16, y >= 48, or on a cell that is neither 0 nor `0xFF0000` (both directions) |
| Pieces.CanMoveInBounds | tetriz.js:70-84 | a move `canMove` allows keeps every occupied cell on the board |
| Pieces.SentinelNeverBlocks | tetriz.js:80 | painting any cell with the sentinel colour never makes a fitting piece stop fitting |
| Pieces.LockedSentinelNeverBlocks | tetriz.js:41 | a locked Z piece (sentinel colour) changes no later `canMove` answer, in either direction |
| Pieces.SpawnOnClearField | tetriz.js:87-98 | on an empty playable band every catalogue piece fits at its spawn position |
| Pieces.Locked | tetriz.js:105-114 | after locking, a cell holds the piece colour if the piece covers it, and its old value otherwise |
| Pieces.LockedCells | tetriz.js:105-114 | locking writes exactly the cells some occupied shape cell lands on; every other cell is unchanged |
| Pieces.AboveBand | tetriz.js:110 | the game-over test of `lockPiece` can only fire for a piece anchored above row 15 |
| Pieces.InPlayNotAboveBand | tetriz.js:110 | a piece anchored at y >= 15 never triggers the game-over test of `lockPiece` |
| Pieces.LockedKeepsStatusBand | tetriz.js:105-114 | locking a piece anchored in the playable band leaves rows 0-14 unchanged |
| LineClear.EmptyRows | tetriz.js:133 | n inserted empty rows |
| LineClear.ClearedBoard | tetriz.js:127-137 | the reference result of the clearing loop keeps 48 rows |
| LineClear.KeepUnfullLength | tetriz.js:130-137 | every playable row is either kept or counted as removed |
| LineClear.KeepUnfullRows | tetriz.js:130-137 | the kept rows are rows of the input, and none of them is full |
| LineClear.KeepUnfullNoFull | tetriz.js:130-137 | when no row is full, all rows are kept and none is counted |
| LineClear.FullCountWindow | tetriz.js:130-137 | if all full rows lie in a window of n rows, at most n rows are full |
| LineClear.ScanStep | tetriz.js:130-136 | one scan step counts and drops a full row, or keeps any other row in front of the survivors |
| LineClear.ScanEmptyPrefix | tetriz.js:133 | inserted empty rows are kept and never counted |
| LineClear.Spliced | tetriz.js:132-133 | the two `splice` calls: the row at y removed, an empty row inserted at index 15, status band unchanged |
| LineClear.ScanFullRow | tetriz.js:131-135 | at a full row the splice keeps the scan invariant, with one more row removed, and lowers the count of full rows still to scan (the termination measure) |
| LineClear.ScanKeptRow | tetriz.js:130-131 | at a row that is not full, the scan moves one row up with the invariant kept |
| LineClear.ScanStarts | tetriz.js:128-130 | the scan invariant holds at the bottom row with nothing removed |
| LineClear.ScanFinished | tetriz.js:130-137 | once past row 15, the board is the reference cleared board and the counter is the number of removed rows |
| LineClear.ClearedBoardShape | tetriz.js:127-137 | clearing keeps 48 rows of 16, leaves rows 0-14 unchanged, and leaves no full row in rows 15-47 |
| LineClear.ClearedBoardNoFull | tetriz.js:127-137 | a board without full rows is left unchanged, with 0 lines cleared |
| LineClear.ClearedBoardIdempotent | tetriz.js:127-137 | clearing twice is clearing once |
| LineClear.ClearedBoardRemoves | tetriz.js:127-137 | the number removed is at most 33; the band becomes that many empty rows followed by the surviving rows in their original order |
| LineClear.ClearedBoardPalette | tetriz.js:127-137 | clearing a board of 24-bit colours gives a board of 24-bit colours |
| LineClear.Scored | tetriz.js:139-150 | the score rises by exactly 100 per cleared line; the step never restarts play; with lines cleared, a score of 1000 or more stops play; the interval is either kept or set within [10, 20) |
| LineClear.ScoredRules | tetriz.js:139-150 | N > 0 cleared lines add exactly 100 N; at 1000 or more play stops and the interval is kept; otherwise the interval becomes max(10, 20 - 2N), in [10, 20); N = 0 changes nothing |
| Text.PadStart | tetriz.js:219 | `padStart`: the result is max(n, len) long |
| Text.PadStartShape | tetriz.js:219 | `padStart`: the length is max(n, len); the input is the suffix; the prefix is all pad characters |
| Text.Zeros | tetriz.js:219 | a run of z zero characters |
| Text.DecimalDigit | tetriz.js:219 | a digit value below 10 becomes a decimal digit character |
| Text.DecimalString | tetriz.js:219 | `toString()`: non-empty, decimal digits only, no leading zero |
| Text.DecimalRoundTrip | tetriz.js:219 | the value of `n.toString()` is n |
| Text.DecimalValueLeadingZeros | tetriz.js:219 | leading zeros do not change the value of a digit string |
| Text.DecimalLength | tetriz.js:219 | scores below 1000 have at most three digits; scores from 1000 have four or more |
| Text.HexDigit | tetriz.js:273 | a digit value below 16 becomes a lower-case hex digit, which is '0' exactly for 0 |
| Text.HexString | tetriz.js:273 | `toString(16)` of a non-negative number is non-empty, holds lower-case hex digits only, and starts with '0' exactly for 0 (no leading zero) |
| Text.ToHex | tetriz.js:273 | `toString(16)` of any integer is non-empty, starts with '-' exactly for a negative number, and is lower-case hex digits after that |
| Text.HexColor | tetriz.js:273 | the colour text is max(6, len) long, where len is the length of `toString(16)`; the added prefix is all '0'; no lower-case letter is left |
| Text.HexStringLength | tetriz.js:273 | `toString(16)` of a number below 16^k has at most k digits |
| Text.HexStringUpper | tetriz.js:273 | upper-casing `toString(16)` gives upper-case hex digits that denote the number |
| Text.HexColorSixDigits | tetriz.js:273 | every 24-bit colour becomes exactly six upper-case hex digits denoting that colour |
| Text.ToUpper | tetriz.js:273 | `toUpperCase` keeps the length |
| Text.ToLower | tetriz.js:294 | `toLowerCase` keeps the length |
| Text.ToUpperAppend | tetriz.js:273 | upper-casing distributes over concatenation |
| Overlay.GlyphOf | tetriz.js:230-231 | `pixelNumbers[num]` exists exactly for decimal digits, and is 4 x 4 |
| Overlay.DigitColor | tetriz.js:220-224 | `colors[i]` is a 24-bit colour exactly for i < 3, and `undefined` from i = 3 on |
| Overlay.ScoreString | tetriz.js:219 | the padded score consists of decimal digits only |
| Overlay.Stamped | tetriz.js:232-243 | a cell takes the colour exactly where a lit glyph pixel lands with x < 16 and y < 15; every other cell is unchanged |
| Overlay.StampOne | tetriz.js:224 | one stamp keeps the grid shape |
| Overlay.StampDigits | tetriz.js:223-225 | the digit stamps keep the grid shape |
| Overlay.ScoreOverlay | tetriz.js:218-226 | the overlay keeps the grid shape |
| Overlay.StampDigitsKeepsPlayfield | tetriz.js:223-225 | the stamps leave rows 15-47 unchanged |
| Overlay.OverlayKeepsPlayfield | tetriz.js:218-226 | the score overlay never writes the playable band |
| Overlay.ScoreDigit | tetriz.js:219 | each digit of a score below 1000 is below 10 |
| Overlay.DecimalStringDigits | tetriz.js:219 | `toString()` of n < 1000 is its one, two or three digits |
| Overlay.ScorePadding | tetriz.js:219 | the padded score of a score below 1000 is its leading zeros followed by its own digits |
| Overlay.ScoreStringSeq | tetriz.js:219 | the padded score is hundreds, tens and units digit |
| Overlay.ScoreStringDigits | tetriz.js:219 | a score below 1000 pads to exactly three digits, which denote the score |
| Overlay.StampDigitsCell | tetriz.js:223-225 | after the stamps from position i on, a cell holds the digit colour exactly where a lit pixel of one of those digits lands |
| Overlay.OverlayCells | tetriz.js:218-226 | for a score below 1000, the overlay sets exactly the lit pixels of the three digits, each in its position's colour, and erases nothing |
| Overlay.OverlayPalette | tetriz.js:218-226 | below 1000, a board of 24-bit colours stays one |
| Overlay.StampDigitsFourth | tetriz.js:223-224 | a four-digit score writes `undefined` at the fourth digit's first lit pixel |
| Overlay.WinOverlayWritesUndefined | tetriz.js:219-224 | a four-digit multiple of ten (any winning score) pads to four digits and writes `undefined` into cell (15, 2), so the board is no longer all 24-bit colours |
| Engine.Initial | tetriz.js:29-34 | the state once the script has loaded (the variables, then `initGame(); drawBoard();` at lines 331-332): a 48 x 16 grid whose playable band is all 0, not running, no piece, score 0, counter 0, interval 20 |
| Engine.ClearLines | tetriz.js:127-150 | `removeFullLines` leaves the reference cleared board `LineClear.ClearedBoard` (whose survivors and order `ClearedBoardRemoves` states), so it keeps the grid shape and rows 0-14, leaves no full row, raises the score by exactly 100 per full row, never restarts play, and keeps the piece and counter |
| Engine.Spawn | tetriz.js:87-99 | the state after `generateNewPiece` is consistent: grid kept, piece on the board, a piece if running |
| Engine.SpawnOutcome | tetriz.js:87-99 | the piece is the spawned catalogue piece exactly when it fits; otherwise there is no piece and play stops; nothing else changes |
| Engine.Lock | tetriz.js:102-124 | the state after `lockPiece` is consistent; what it does is stated by `Engine.LockOutcome` |
| Engine.MoveDown | tetriz.js:154-160 | the state after `moveDown` is consistent |
| Engine.Fall | tetriz.js:167-170 | the gravity step of a frame gives a consistent state |
| Engine.Tick | tetriz.js:163-174 | the state after a frame is consistent |
| Engine.Start | tetriz.js:46-57 | the state after `startGame` is consistent; what it does is stated by `Engine.StartOutcome` |
| Engine.PressStart | tetriz.js:316-328 | the state after a button press is consistent; what it does is stated by `Engine.PressStartOutcome` |
| Engine.RotatedPiece | tetriz.js:256-257 | `{ ...currentPiece, shape: rotatedShape }`: only the shape changes, to the quarter turn, with the same number of filled cells |
| Engine.Rotate | tetriz.js:254-263 | the state after `rotatePiece` is consistent |
| Engine.Shift | tetriz.js:295-300 | the state after a sideways move is consistent |
| Engine.Perform | tetriz.js:294-307 | the state after the `switch` is consistent |
| Engine.KeyDown | tetriz.js:291-309 | the state after the keydown handler is consistent; what it does is stated by `Engine.KeyDownIgnored` and `Engine.KeyDownShifts` |
| Engine.Draw | tetriz.js:183-215 | drawing keeps the grid shape |
| Engine.KeyUp | tetriz.js:311-313 | the keyup handler changes at most the fall interval: releasing "s" or "S" sets it to 20, any other key changes nothing |
| Engine.KeyCommand | tetriz.js:294-306 | the command is left, right, soft drop or rotate exactly for "a"/"A", "d"/"D", "s"/"S", "w"/"W" |
| Engine.LowerSingle | tetriz.js:294 | a key lower-cases to one letter exactly when it is that letter in either case |
| Engine.NoFullRowsSameBand | tetriz.js:218-244 | boards with equal playable bands agree on having no full row |
| Engine.InitialInv | tetriz.js:29-34 | the game as loaded (fresh board, drawn once) satisfies the invariant |
| Engine.DrawInv | tetriz.js:183-215 | drawing keeps the invariant |
| Engine.SpawnInv | tetriz.js:87-99 | a spawn on a board without full rows satisfies the invariant |
| Engine.LockFillsAtMostFourRows | tetriz.js:102-137 | one lock fills at most as many rows as the piece is high, so at most four |
| Engine.LockInv | tetriz.js:102-124 | a lock keeps the invariant, raises the score by at most 400, and leaves only 24-bit colours, so the board `lockPiece` sends is valid |
| Engine.MoveDownInv | tetriz.js:154-160 | `moveDown` keeps the invariant and raises the score by at most 400 |
| Engine.CounterInv | tetriz.js:163-174 | the invariant does not depend on the frame counter |
| Engine.FallInv | tetriz.js:167-170 | the gravity step keeps the invariant and raises the score by at most 400 |
| Engine.TickInv | tetriz.js:163-174 | every frame keeps the invariant and raises the score by at most 400 |
| Engine.TickCounter | tetriz.js:163-174 | an idle frame changes nothing; a running frame counts up; below the interval the piece, score and playable band are kept; on reaching it the counter restarts at 0 |
| Engine.LockOutcome | tetriz.js:102-124 | a piece that reaches above row 15 is painted and play stops, with no clearing, no spawn and nothing else changed; otherwise the board becomes the painted board with its full rows cleared, the score rises by 100 per full row, and the piece is the next catalogue piece if it fits on the cleared board, else there is none |
| Engine.StartOutcome | tetriz.js:46-57 | `startGame` while running changes nothing; from idle it starts play with score 0 and interval 20 on `initGame`'s board with the score drawn, and with catalogue piece k at its spawn position; the frame counter is not reset (it counts on from its old value in the first frame), and if that frame reaches the interval the piece has fallen one row |
| Engine.PressStartOutcome | tetriz.js:316-328 | a press on a running game only stops it; on an idle game it is `startGame` |
| Engine.KeyDownIgnored | tetriz.js:291-292 | a key press is ignored unless the game runs with a piece |
| Engine.TickMovesPieceDown | tetriz.js:154-174 | in a frame the piece stays, drops exactly one row, or is replaced by a fresh spawn or none; the piece never rises above row 15 |
| Engine.TickGravity | tetriz.js:154-174 | in a running frame whose counter reaches the interval, the piece drops exactly one row when it fits there and is locked otherwise; either way the counter restarts and the frame ends with `drawBoard` |
| Engine.KeyDownShifts | tetriz.js:291-309 | "a"/"A" moves the piece to x - 1, and "d"/"D" to x + 1, exactly when it fits there; otherwise the piece stays; the rest of the state changes only by the score overlay |
| Engine.ShiftOutcome | tetriz.js:295-300 | a sideways move by a non-zero offset happens exactly when the piece fits there, and otherwise leaves the piece in place |
| Engine.StartInv | tetriz.js:46-57 | starting keeps the invariant; the score after the first frame is 0, and the board `startGame` sends holds 24-bit colours only |
| Engine.PressStartInv | tetriz.js:316-328 | the start button keeps the invariant |
| Engine.RotateInv | tetriz.js:254-263 | rotating keeps the invariant |
| Engine.KeyDownInv | tetriz.js:291-309 | every key press keeps the invariant |
| Engine.KeyUpInv | tetriz.js:311-313 | releasing a key keeps the invariant |
| Engine.LockKeepsStatusBand | tetriz.js:102-137 | under the invariant the game-over branch of `lockPiece` is dead, and lock plus clearing leave rows 0-14 unchanged |
| Engine.KeyDownKeepsRow | tetriz.js:291-309 | a key press keeps the piece's row and colour; apart from "w", it keeps the shape and moves x by at most one |
| Engine.RotateOnlyShape | tetriz.js:254-263 | rotation keeps anchor, colour and cell count; the turned shape is committed exactly as `rotateMatrix` gives it when it fits, else the piece is unchanged; the rest of the state changes only by the overlay |
| Engine.SoftDropInterval | tetriz.js:301-312 | pressing "s" while running sets the interval to 5; releasing it sets 20, whatever clears had earned, and changes nothing else |
| Game.Tetriz.constructor | tetriz.js:29-34 | the loaded game is the initial state and satisfies the invariant |
| Game.Tetriz.InitGame | tetriz.js:60-67 | the board becomes the fresh board |
| Game.Tetriz.GameOver | tetriz.js:177-180 | play stops |
| Game.Tetriz.GenerateNewPiece | tetriz.js:87-99 | returns the piece and running flag of `Engine.Spawn` |
| Game.Tetriz.DrawBoard | tetriz.js:183-215 | the new state is `Engine.Draw` of the old |
| Game.Tetriz.UpdateScoreDisplay | tetriz.js:218-226 | the loop over the digits leaves the score overlay of the old board |
| Game.Tetriz.DrawPixelNumber | tetriz.js:229-244 | no glyph: unchanged; otherwise the nested loops leave the stamped board |
| Game.Tetriz.LockPiece | tetriz.js:102-124 | the new state is `Engine.Lock` of the old |
| Game.Tetriz.PaintPiece | tetriz.js:105-114 | the nested loops leave the locked board and report exactly whether a cell lies above row 15 |
| Game.Tetriz.RemoveFullLines | tetriz.js:127-151 | the new state is `Engine.ClearLines` of the old |
| Game.Tetriz.SpliceFullRows | tetriz.js:128-137 | the splice loop leaves the reference cleared board and counts exactly its removed rows |
| Game.Tetriz.MoveDown | tetriz.js:154-160 | the new state is `Engine.MoveDown` of the old |
| Game.Tetriz.GameLoop | tetriz.js:163-174 | the new state is `Engine.Tick` of the old, and the invariant is kept |
| Game.Tetriz.StartGame | tetriz.js:46-57 | the new state is `Engine.Start` of the old |
| Game.Tetriz.PressStartButton | tetriz.js:316-328 | the new state is `Engine.PressStart` of the old, and the invariant is kept |
| Game.Tetriz.RotatePiece | tetriz.js:254-263 | the new state is `Engine.Rotate` of the old |
| Game.Tetriz.HandleKeyDown | tetriz.js:291-309 | the new state is `Engine.KeyDown` of the old, and the invariant is kept |
| Game.Tetriz.Perform | tetriz.js:294-307 | the new state is `Engine.Perform` of the old |
| Game.Tetriz.HandleKeyUp | tetriz.js:311-313 | the new state is `Engine.KeyUp` of the old, and the invariant is kept |
| Game.Tetriz.PushRow | tetriz.js:270-275 | the inner loop appends the LEDs of one row, in order |
| Game.Tetriz.SendBoardToWLED | tetriz.js:266-276 | the payload has 1536 entries; entry 2j is the index j, and entry 2j+1 is the colour text of the cell of LED j |
| Game.ColorTexts | tetriz.js:273 | one colour text per LED |
| Game.LedPayload | tetriz.js:267-275 | the payload of n LEDs has 2n entries |
| Game.LedPayloadEntries | tetriz.js:267-275 | in the payload, LED j is its index followed by its colour text |
| Game.BoardPayload | tetriz.js:266-276 | entry 2j is j and entry 2j+1 is the text of cell (j mod 16, j / 16); on a 24-bit board each text is six upper-case hex digits denoting the cell's colour |
| Game.LedStep | tetriz.js:271-274 | pushing the index and text of cell (x, y) extends the payload by LED y * 16 + x |
| Game.CellIndex | tetriz.js:271 | cell (x, y) is LED y * 16 + x, and that LED maps back to (x, y) |
| Game.LedCell | tetriz.js:271-272 | LED j shows `board[y][x]` for the cell (x, y) with j = y * 16 + x |
| Game.RowIndex | tetriz.js:269-271 | row y starts at LED y * 16 |

## Left out

- Canvas drawing, left out because the canvas is a rendering sink. This covers
  the canvas size in `initGame`, `clearRect` / `fillRect` / `fillStyle` in
  `drawBoard`, and `canvas.focus`. Only the board writes of
  `updateScoreDisplay` are kept.
- Network I/O in `sendBoardToWLED`: `requestData`, `JSON.stringify`, the
  `fetch` POST and its logging. `SendBoardToWLED` returns the `ledData` list
  instead.
- `StartGame` and `LockPiece` do not call `SendBoardToWLED`, because the send
  has no effect on the game state. `Engine.StartInv` and `Engine.LockInv` prove
  that the boards sent at those points meet its requirement.
- `SendBoardToWLED`: requires that no cell holds `undefined`, where the source
  would throw a `TypeError` instead.
- `alert`, `scoreElement.textContent` and `console`: UI notices. Only the state
  changes beside them are modelled.
- Host scheduling. Each `requestAnimationFrame` frame is one call of
  `GameLoop`, and each DOM event is one call of its handler method. The
  button's `setTimeout` restart 100 ms later is modelled as a later call of
  `StartGame` (`Engine.Start`), which does nothing if the game is running
  again.
- `Math.random`: replaced by the catalogue index parameters `k` and `next`.
- `Pieces.CanMove`: requires that the target row is not above row 0. The source
  has no such check and would index `board[-1]`. Every caller meets the
  requirement, because `Engine.Inv` keeps the piece at row 15 or below.
- `Text.ToLower`, `Text.ToUpper`: ASCII letters only. Other Unicode case
  mappings are not modelled; the keys and hex digits the game uses are ASCII.
- `BASE_FALL_INTERVAL / 4` is floating-point division in the source, but the
  result is exactly 5, so integer division gives the same value.
