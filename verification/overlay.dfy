/**
 * The score overlay: `updateScoreDisplay` writes the score, padded to three
 * digits, into the status band with a 4 x 4 pixel font.
 */
module Overlay {
  import opened Wrappers
  import opened Grid
  import opened Text

  type Glyph = seq<seq<int>>

  /** The pixel font `pixelNumbers`: a 4 x 4 bitmap per decimal digit (1 = lit). */
  const PIXEL_NUMBERS: map<char, Glyph> := map[
    '0' := [[1,1,1,1], [1,0,0,1], [1,0,0,1], [1,1,1,1]],
    '1' := [[0,1,1,0], [0,1,1,0], [0,1,1,0], [0,1,1,0]],
    '2' := [[1,1,1,1], [0,0,1,1], [1,1,0,0], [1,1,1,1]],
    '3' := [[1,1,1,1], [0,0,1,1], [0,0,1,1], [1,1,1,1]],
    '4' := [[1,0,0,1], [1,0,0,1], [1,1,1,1], [0,0,0,1]],
    '5' := [[1,1,1,1], [1,0,0,0], [1,1,1,1], [0,0,0,1]],
    '6' := [[1,1,1,1], [1,0,0,0], [1,1,1,1], [1,0,0,1]],
    '7' := [[1,1,1,1], [0,0,1,0], [0,0,1,0], [0,0,1,0]],
    '8' := [[1,1,1,1], [1,0,0,1], [1,1,1,1], [1,0,0,1]],
    '9' := [[1,1,1,1], [1,0,0,1], [1,1,1,1], [0,0,0,1]]
  ]

  /** The red, green and blue of the three digit positions (`colors`). */
  const DIGIT_COLORS: seq<int> := [0xFF0000, 0x00FF00, 0x0000FF]

  /** Row of the status band where the digits start. */
  const DIGIT_ROW := 2

  /** Horizontal distance between two digits. */
  const DIGIT_PITCH := 5

  /** `pixelNumbers[num]`: a glyph for each decimal digit, nothing for any other character. */
  function GlyphOf(ch: char): (g: Option<Glyph>)
    ensures g.Some? <==> IsDecimalDigit(ch)
    ensures g.Some? ==> |g.value| == 4 && forall r :: 0 <= r < 4 ==> |g.value[r]| == 4
  {
    if ch in PIXEL_NUMBERS then Some(PIXEL_NUMBERS[ch]) else None
  }

  /**
   * The value JavaScript's `undefined` takes in this model: `colors[i]` past
   * the third position. It is no 24-bit colour, and it is filled for line
   * clearing and blocking for movement, as `undefined` is in the source.
   */
  const UNDEFINED := -1

  /** `colors[i]`: the three digit colours, then `undefined`. */
  function DigitColor(i: nat): (c: int)
    ensures IsRgb(c) <==> i < 3
    ensures i >= 3 ==> c == UNDEFINED
  {
    if i < |DIGIT_COLORS| then DIGIT_COLORS[i] else UNDEFINED
  }

  /** `score.toString().padStart(3, "0")`. */
  function ScoreString(score: nat): (s: string)
    ensures forall i :: 0 <= i < |s| ==> IsDecimalDigit(s[i])
  {
    var d := DecimalString(score);
    var s := PadStart(d, 3, '0');
    PadStartShape(d, 3, '0');
    assert forall i :: 0 <= i < |s| - |d| ==> s[i] == '0';
    assert forall i :: |s| - |d| <= i < |s| ==> s[i] == d[i - (|s| - |d|)];
    s
  }

  /** `drawPixelNumber` writes cell (x, y): a lit glyph pixel inside the status band. */
  predicate GlyphHit(g: Glyph, xOffset: int, yOffset: int, x: int, y: int) {
    x < COLS && y < GAME_AREA_START &&
    0 <= y - yOffset < |g| && 0 <= x - xOffset < |g[y - yOffset]| &&
    g[y - yOffset][x - xOffset] != 0
  }

  /** The board after `drawPixelNumber` stamps glyph `g` at the offsets in `color`. */
  function Stamped(b: Board, g: Glyph, xOffset: int, yOffset: int, color: int): (r: Board)
    requires WellFormed(b)
    ensures WellFormed(r)
    ensures forall y, x :: 0 <= y < ROWS && 0 <= x < COLS ==>
      r[y][x] == if GlyphHit(g, xOffset, yOffset, x, y) then color else b[y][x]
  {
    var r := seq(ROWS, y requires 0 <= y < ROWS =>
      seq(COLS, x requires 0 <= x < COLS => if GlyphHit(g, xOffset, yOffset, x, y) then color else b[y][x]));
    assert forall y :: 0 <= y < ROWS ==>
      r[y] == seq(COLS, x requires 0 <= x < COLS => if GlyphHit(g, xOffset, yOffset, x, y) then color else b[y][x]);
    r
  }

  /** `drawPixelNumber(s[i], i * 5, 2, colors[i])`: nothing for a character without a glyph. */
  function StampOne(b: Board, s: string, i: nat): (r: Board)
    requires WellFormed(b) && i < |s|
    ensures WellFormed(r)
  {
    match GlyphOf(s[i])
    case Some(g) => Stamped(b, g, i * DIGIT_PITCH, DIGIT_ROW, DigitColor(i))
    case None => b
  }

  /** The stamps of digit positions i, i+1, ... of `s`, in that order. */
  function StampDigits(b: Board, s: string, i: nat): (r: Board)
    requires WellFormed(b) && i <= |s|
    ensures WellFormed(r)
    decreases |s| - i
  {
    if i == |s| then b else StampDigits(StampOne(b, s, i), s, i + 1)
  }

  /** The board after `updateScoreDisplay`. */
  function ScoreOverlay(b: Board, score: nat): (r: Board)
    requires WellFormed(b)
    ensures WellFormed(r)
  {
    StampDigits(b, ScoreString(score), 0)
  }

  // ---- properties ----

  lemma {:induction false} StampDigitsKeepsPlayfield(b: Board, s: string, i: nat)
    requires WellFormed(b) && i <= |s|
    ensures StampDigits(b, s, i)[GAME_AREA_START..] == b[GAME_AREA_START..]
    decreases |s| - i
  {
    if i < |s| {
      var b' := StampOne(b, s, i);
      assert b'[GAME_AREA_START..] == b[GAME_AREA_START..] by {
        forall y | GAME_AREA_START <= y < ROWS
          ensures b'[y] == b[y]
        {
        }
      }
      StampDigitsKeepsPlayfield(b', s, i + 1);
    }
  }

  /** The overlay writes only into the status band: the playable band is left as it was. */
  lemma OverlayKeepsPlayfield(b: Board, score: nat)
    requires WellFormed(b)
    ensures ScoreOverlay(b, score)[GAME_AREA_START..] == b[GAME_AREA_START..]
  {
    StampDigitsKeepsPlayfield(b, ScoreString(score), 0);
  }

  /** Digit `i` (0 = hundreds, 1 = tens, 2 = units) of a score below 1000. */
  function ScoreDigit(score: nat, i: nat): (d: nat)
    requires score < 1000 && i < 3
    ensures d < 10
  {
    if i == 0 then score / 100 else if i == 1 then score / 10 % 10 else score % 10
  }

  lemma DecimalStringDigits(n: nat)
    requires n < 1000
    ensures n < 10 ==> DecimalString(n) == [DecimalDigit(n)]
    ensures 10 <= n < 100 ==> DecimalString(n) == [DecimalDigit(n / 10), DecimalDigit(n % 10)]
    ensures 100 <= n ==>
      DecimalString(n) == [DecimalDigit(n / 100), DecimalDigit(n / 10 % 10), DecimalDigit(n % 10)]
  {
    if n >= 100 {
      assert DecimalString(n / 10) == [DecimalDigit(n / 100), DecimalDigit(n / 10 % 10)];
    }
  }

  /** The padded score text of a score below 1000 is its leading zeros and its own digits. */
  lemma ScorePadding(score: nat)
    requires score < 1000
    ensures |DecimalString(score)| <= 3
    ensures ScoreString(score) == Zeros(3 - |DecimalString(score)|) + DecimalString(score)
  {
    DecimalLength(score);
    PadStartShape(DecimalString(score), 3, '0');
  }

  /** The three characters of the padded score text. */
  lemma ScoreStringSeq(score: nat)
    requires score < 1000
    ensures ScoreString(score) ==
      [DecimalDigit(ScoreDigit(score, 0)), DecimalDigit(ScoreDigit(score, 1)), DecimalDigit(ScoreDigit(score, 2))]
  {
    ScorePadding(score);
    DecimalLength(score);
    DecimalStringDigits(score);
    if score < 10 {
      assert score / 100 == 0 && score / 10 % 10 == 0 && score % 10 == score;
    } else if score < 100 {
      assert score / 100 == 0 && score / 10 % 10 == score / 10;
    }
  }

  /** A score below 1000 is written as exactly its three decimal digits. */
  lemma ScoreStringDigits(score: nat)
    requires score < 1000
    ensures |ScoreString(score)| == 3
    ensures forall i :: 0 <= i < 3 ==> ScoreString(score)[i] == DecimalDigit(ScoreDigit(score, i))
    ensures DecimalValue(ScoreString(score)) == score
  {
    ScoreStringSeq(score);
    ScorePadding(score);
    var d := DecimalString(score);
    DecimalRoundTrip(score);
    DecimalValueLeadingZeros(3 - |d|, d);
  }

  /** The cell (x, y) shows a lit pixel of digit x / 5 of the score. */
  predicate DigitPixel(score: nat, x: int, y: int)
    requires score < 1000
  {
    DIGIT_ROW <= y < DIGIT_ROW + 4 && 0 <= x < 3 * DIGIT_PITCH && x % DIGIT_PITCH < 4 &&
    GlyphOf(DecimalDigit(ScoreDigit(score, x / DIGIT_PITCH))).value[y - DIGIT_ROW][x % DIGIT_PITCH] != 0
  }

  lemma {:induction false} StampDigitsCell(b: Board, s: string, i: nat, y: int, x: int)
    requires WellFormed(b) && |s| == 3 && i <= 3
    requires forall j :: 0 <= j < 3 ==> IsDecimalDigit(s[j])
    requires 0 <= y < ROWS && 0 <= x < COLS
    ensures StampDigits(b, s, i)[y][x] ==
      if i <= x / DIGIT_PITCH < 3 && DIGIT_ROW <= y < DIGIT_ROW + 4 && x % DIGIT_PITCH < 4 &&
         GlyphOf(s[x / DIGIT_PITCH]).value[y - DIGIT_ROW][x % DIGIT_PITCH] != 0
      then DIGIT_COLORS[x / DIGIT_PITCH] else b[y][x]
    decreases 3 - i
  {
    if i < 3 {
      var g := GlyphOf(s[i]).value;
      var b' := StampOne(b, s, i);
      assert b' == Stamped(b, g, i * DIGIT_PITCH, DIGIT_ROW, DIGIT_COLORS[i]);
      StampDigitsCell(b', s, i + 1, y, x);
      if x / DIGIT_PITCH == i {
        assert x - i * DIGIT_PITCH == x % DIGIT_PITCH;
      } else {
        assert !(0 <= x - i * DIGIT_PITCH < 4);
      }
    }
  }

  /**
   * For a score below 1000 the overlay sets exactly the lit pixels of the three
   * digits, each in the colour of its position, and erases nothing: every
   * other cell keeps its value.
   */
  lemma OverlayCells(b: Board, score: nat, y: int, x: int)
    requires WellFormed(b) && score < 1000
    requires 0 <= y < ROWS && 0 <= x < COLS
    ensures ScoreOverlay(b, score)[y][x] ==
      if DigitPixel(score, x, y) then DIGIT_COLORS[x / DIGIT_PITCH] else b[y][x]
  {
    ScoreStringDigits(score);
    StampDigitsCell(b, ScoreString(score), 0, y, x);
  }

  /** Below 1000 the overlay writes only digit colours, so a board of 24-bit colours stays one. */
  lemma OverlayPalette(b: Board, score: nat)
    requires WellFormed(b) && Palette(b) && score < 1000
    ensures Palette(ScoreOverlay(b, score))
  {
    forall y, x | 0 <= y < ROWS && 0 <= x < COLS
      ensures IsRgb(ScoreOverlay(b, score)[y][x])
    {
      OverlayCells(b, score, y, x);
    }
  }

  /** The last stamp of a four-digit string writes the fourth digit's first lit pixel in `undefined`. */
  lemma {:induction false} StampDigitsFourth(b: Board, s: string, i: nat)
    requires WellFormed(b) && |s| == 4 && i <= 3
    requires GlyphOf(s[3]).Some? && GlyphOf(s[3]).value[0][0] != 0
    ensures StampDigits(b, s, i)[DIGIT_ROW][3 * DIGIT_PITCH] == UNDEFINED
    decreases 3 - i
  {
    if i < 3 {
      StampDigitsFourth(StampOne(b, s, i), s, i + 1);
    } else {
      assert StampDigits(b, s, i) == StampOne(b, s, 3);
    }
  }

  /**
   * A score of 1000 or more has a fourth digit, whose colour is `undefined`;
   * for a four-digit multiple of ten (every winning score) the overlay writes
   * `undefined` into cell (15, 2), the top-left pixel of that "0".
   */
  lemma WinOverlayWritesUndefined(b: Board, score: nat)
    requires WellFormed(b) && 1000 <= score < 10000 && score % 10 == 0
    ensures |ScoreString(score)| == 4 && DigitColor(3) == UNDEFINED
    ensures ScoreOverlay(b, score)[DIGIT_ROW][COLS - 1] == UNDEFINED
    ensures !Palette(ScoreOverlay(b, score))
  {
    DecimalLength(score);
    DecimalLength(score / 10);
    var s := ScoreString(score);
    assert s == DecimalString(score);
    assert s[3] == '0';
    StampDigitsFourth(b, s, 0);
  }
}

