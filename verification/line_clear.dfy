/**
 * What `removeFullLines` does to the board, and the scoring rules that follow it.
 */
module LineClear {
  import opened Grid

  /** Number of full rows in `rows`. */
  function FullCount(rows: seq<Row>): nat {
    if rows == [] then 0 else (if RowFull(rows[0]) then 1 else 0) + FullCount(rows[1..])
  }

  /** The rows of `rows` that are not full, in their original order. */
  function KeepUnfull(rows: seq<Row>): seq<Row> {
    if rows == [] then []
    else if RowFull(rows[0]) then KeepUnfull(rows[1..])
    else [rows[0]] + KeepUnfull(rows[1..])
  }

  /** `n` empty rows. */
  function EmptyRows(n: nat): (e: seq<Row>)
    ensures |e| == n
  {
    seq(n, _ => EmptyRow())
  }

  /** The playable rows of a board. */
  function Playable(b: Board): seq<Row>
    requires |b| == ROWS
  {
    b[GAME_AREA_START..]
  }

  /** Number of rows `removeFullLines` removes from `b` (its `linesCleared`). */
  function LinesCleared(b: Board): nat
    requires |b| == ROWS
  {
    FullCount(Playable(b))
  }

  /**
   * The board after `removeFullLines`: the status band as before, then one
   * empty row per removed row, then the surviving playable rows in order.
   */
  function ClearedBoard(b: Board): (c: Board)
    requires |b| == ROWS
    ensures |c| == ROWS
  {
    KeepUnfullLength(Playable(b));
    b[..GAME_AREA_START] + EmptyRows(LinesCleared(b)) + KeepUnfull(Playable(b))
  }

  // ---- facts about the helpers ----

  lemma {:induction false} FullCountAppend(a: seq<Row>, b: seq<Row>)
    ensures FullCount(a + b) == FullCount(a) + FullCount(b)
    decreases |a|
  {
    if a == [] {
      assert a + b == b;
    } else {
      assert (a + b)[1..] == a[1..] + b;
      FullCountAppend(a[1..], b);
    }
  }

  lemma {:induction false} KeepUnfullAppend(a: seq<Row>, b: seq<Row>)
    ensures KeepUnfull(a + b) == KeepUnfull(a) + KeepUnfull(b)
    decreases |a|
  {
    if a == [] {
      assert a + b == b;
    } else {
      assert (a + b)[1..] == a[1..] + b;
      KeepUnfullAppend(a[1..], b);
    }
  }

  lemma {:induction false} EmptyRowsFacts(n: nat)
    ensures FullCount(EmptyRows(n)) == 0
    ensures KeepUnfull(EmptyRows(n)) == EmptyRows(n)
  {
    if n > 0 {
      EmptyRowsFacts(n - 1);
      assert EmptyRows(n) == [EmptyRow()] + EmptyRows(n - 1);
    }
  }

  /** Every row is either kept or counted as removed. */
  lemma {:induction false} KeepUnfullLength(rows: seq<Row>)
    ensures |KeepUnfull(rows)| + FullCount(rows) == |rows|
  {
    if rows != [] {
      KeepUnfullLength(rows[1..]);
    }
  }

  /** The kept rows are rows of the input, and none of them is full. */
  lemma {:induction false} KeepUnfullRows(rows: seq<Row>)
    ensures forall i :: 0 <= i < |KeepUnfull(rows)| ==>
      KeepUnfull(rows)[i] in rows && !RowFull(KeepUnfull(rows)[i])
  {
    if rows != [] {
      KeepUnfullRows(rows[1..]);
    }
  }

  /** Rows without a full one are all kept. */
  lemma {:induction false} KeepUnfullNoFull(rows: seq<Row>)
    requires forall i :: 0 <= i < |rows| ==> !RowFull(rows[i])
    ensures KeepUnfull(rows) == rows && FullCount(rows) == 0
  {
    if rows != [] {
      KeepUnfullNoFull(rows[1..]);
    }
  }

  /**
   * When every full row of `rows` lies in the window of `n` positions starting
   * at `lo`, there are at most `n` full rows.
   */
  lemma {:induction false} FullCountWindow(rows: seq<Row>, lo: int, n: nat)
    requires forall i :: 0 <= i < |rows| && RowFull(rows[i]) ==> lo <= i < lo + n
    ensures FullCount(rows) <= n
  {
    if rows != [] {
      var t := rows[1..];
      if RowFull(rows[0]) {
        forall i | 0 <= i < |t| && RowFull(t[i])
          ensures lo <= i < lo + n - 1
        {
          assert t[i] == rows[i + 1];
        }
        FullCountWindow(t, lo, n - 1);
      } else {
        forall i | 0 <= i < |t| && RowFull(t[i])
          ensures lo - 1 <= i < lo - 1 + n
        {
          assert t[i] == rows[i + 1];
        }
        FullCountWindow(t, lo - 1, n);
      }
    }
  }

  /**
   * One step of the bottom-up scan of `removeFullLines` over `w`, whose rows
   * from `m` on are done: a full row `w[m - 1]` is counted and dropped, any
   * other row is kept in front of the survivors.
   */
  lemma ScanStep(w: seq<Row>, m: nat)
    requires 1 <= m <= |w|
    ensures RowFull(w[m - 1]) ==>
      KeepUnfull(w[m - 1..]) == KeepUnfull(w[m..]) && FullCount(w[m - 1..]) == FullCount(w[m..]) + 1
    ensures !RowFull(w[m - 1]) ==>
      KeepUnfull(w[m - 1..]) == [w[m - 1]] + KeepUnfull(w[m..]) && FullCount(w[m - 1..]) == FullCount(w[m..])
  {
    assert w[m - 1..][1..] == w[m..];
  }

  /** Empty rows in front of the rows do not change what the scan keeps or counts. */
  lemma ScanEmptyPrefix(n: nat, rows: seq<Row>)
    ensures KeepUnfull(EmptyRows(n) + rows) == EmptyRows(n) + KeepUnfull(rows)
    ensures FullCount(EmptyRows(n) + rows) == FullCount(rows)
  {
    EmptyRowsFacts(n);
    KeepUnfullAppend(EmptyRows(n), rows);
    FullCountAppend(EmptyRows(n), rows);
  }

  /**
   * The state of the bottom-up scan of `removeFullLines` over a board whose
   * playable rows were `rows`, with `k` rows removed so far and index `y`
   * next: with `w` the k inserted empty rows followed by `rows`, the band
   * holds the unscanned prefix of `w`, then the survivors of the scanned part.
   */
  ghost predicate Scanning(b: Board, y: int, k: nat, rows: seq<Row>) {
    WellFormed(b) && GAME_AREA_START - 1 <= y < ROWS && y + 1 - GAME_AREA_START <= k + |rows| &&
    var w, m := EmptyRows(k) + rows, y + 1 - GAME_AREA_START;
    b[GAME_AREA_START..] == w[..m] + KeepUnfull(w[m..]) && k == FullCount(w[m..])
  }

  /** `board.splice(y, 1)` then `board.splice(GAME_AREA_START, 0, <empty row>)`. */
  function Spliced(b: Board, y: int): (r: Board)
    requires WellFormed(b) && GAME_AREA_START <= y < ROWS
    ensures WellFormed(r) && r[..GAME_AREA_START] == b[..GAME_AREA_START]
    ensures r[GAME_AREA_START..] == [EmptyRow()] + b[GAME_AREA_START..y] + b[y + 1..]
  {
    var b1 := b[..y] + b[y + 1..];
    var r := b1[..GAME_AREA_START] + [EmptyRow()] + b1[GAME_AREA_START..];
    assert r[GAME_AREA_START..] == [EmptyRow()] + b[GAME_AREA_START..y] + b[y + 1..];
    r
  }

  /** The scan at a full row: splicing keeps the scan state and removes one full row from the unscanned part. */
  lemma {:induction false} ScanFullRow(b: Board, y: int, k: nat, rows: seq<Row>)
    requires Scanning(b, y, k, rows) && y >= GAME_AREA_START && RowFull(b[y])
    ensures Scanning(Spliced(b, y), y, k + 1, rows)
    ensures FullCount(Spliced(b, y)[GAME_AREA_START..y + 1]) < FullCount(b[GAME_AREA_START..y + 1])
  {
    var w, m := EmptyRows(k) + rows, y + 1 - GAME_AREA_START;
    var r := Spliced(b, y);
    assert b[y] == b[GAME_AREA_START..][m - 1] == w[m - 1];
    ScanStep(w, m);
    var w' := EmptyRows(k + 1) + rows;
    assert w' == [EmptyRow()] + w;
    assert w'[..m] == [EmptyRow()] + w[..m - 1];
    assert w'[m..] == w[m - 1..];
    assert b[GAME_AREA_START..y] == b[GAME_AREA_START..][..m - 1] == w[..m - 1];
    assert b[y + 1..] == b[GAME_AREA_START..][m..] == KeepUnfull(w[m..]);
    assert r[GAME_AREA_START..] == w'[..m] + KeepUnfull(w'[m..]);
    assert r[GAME_AREA_START..y + 1] == r[GAME_AREA_START..][..m] == [EmptyRow()] + b[GAME_AREA_START..y];
    assert b[GAME_AREA_START..y + 1] == b[GAME_AREA_START..y] + [b[y]];
    FullCountAppend([EmptyRow()], b[GAME_AREA_START..y]);
    FullCountAppend(b[GAME_AREA_START..y], [b[y]]);
  }

  /** The scan at a row that is not full: it moves one row up, with nothing to count. */
  lemma {:induction false} ScanKeptRow(b: Board, y: int, k: nat, rows: seq<Row>)
    requires Scanning(b, y, k, rows) && y >= GAME_AREA_START && !RowFull(b[y])
    ensures Scanning(b, y - 1, k, rows)
    ensures FullCount(b[GAME_AREA_START..y]) == FullCount(b[GAME_AREA_START..y + 1])
  {
    var w, m := EmptyRows(k) + rows, y + 1 - GAME_AREA_START;
    assert b[y] == b[GAME_AREA_START..][m - 1] == w[m - 1];
    ScanStep(w, m);
    assert w[..m] == w[..m - 1] + [w[m - 1]];
    assert b[GAME_AREA_START..y + 1] == b[GAME_AREA_START..y] + [b[y]];
    FullCountAppend(b[GAME_AREA_START..y], [b[y]]);
  }

  /** The scan starts at the bottom row with nothing removed. */
  lemma ScanStarts(b: Board)
    requires WellFormed(b)
    ensures Scanning(b, ROWS - 1, 0, Playable(b))
  {
    var w := EmptyRows(0) + Playable(b);
    assert w == Playable(b);
    assert w[..|w|] == w;
    assert w[|w|..] == [];
  }

  /** Once past the top of the band, the scan has built the cleared board and counted its removed rows. */
  lemma ScanFinished(b: Board, c: Board, k: nat)
    requires WellFormed(b) && Scanning(c, GAME_AREA_START - 1, k, Playable(b))
    requires c[..GAME_AREA_START] == b[..GAME_AREA_START]
    ensures c == ClearedBoard(b) && k == LinesCleared(b)
  {
    var w := EmptyRows(k) + Playable(b);
    assert w[..0] == [] && w[0..] == w;
    ScanEmptyPrefix(k, Playable(b));
    assert c == c[..GAME_AREA_START] + c[GAME_AREA_START..];
  }

  // ---- properties of removeFullLines ----

  /**
   * Clearing keeps the board at ROWS rows of COLS cells, leaves the status band
   * as it was, and leaves no full row in the playable band.
   */
  lemma {:induction false} ClearedBoardShape(b: Board)
    requires WellFormed(b)
    ensures WellFormed(ClearedBoard(b))
    ensures ClearedBoard(b)[..GAME_AREA_START] == b[..GAME_AREA_START]
    ensures NoFullRows(ClearedBoard(b))
  {
    var p := Playable(b);
    var n := LinesCleared(b);
    var c := ClearedBoard(b);
    KeepUnfullLength(p);
    KeepUnfullRows(p);
    assert |c| == ROWS;
    forall y | 0 <= y < ROWS
      ensures |c[y]| == COLS && (y >= GAME_AREA_START ==> !RowFull(c[y]))
    {
      if y < GAME_AREA_START {
        assert c[y] == b[y];
      } else if y < GAME_AREA_START + n {
        assert c[y] == EmptyRows(n)[y - GAME_AREA_START];
      } else {
        var k := KeepUnfull(p);
        assert c[y] == k[y - GAME_AREA_START - n];
        assert k[y - GAME_AREA_START - n] in p;
      }
    }
  }

  /** A board with no full row is left exactly as it is. */
  lemma ClearedBoardNoFull(b: Board)
    requires WellFormed(b) && NoFullRows(b)
    ensures LinesCleared(b) == 0
    ensures ClearedBoard(b) == b
  {
    var p := Playable(b);
    forall i | 0 <= i < |p|
      ensures !RowFull(p[i])
    {
      assert p[i] == b[GAME_AREA_START + i];
    }
    KeepUnfullNoFull(p);
    assert b == b[..GAME_AREA_START] + p;
  }

  /** Clearing twice is clearing once. */
  lemma ClearedBoardIdempotent(b: Board)
    requires WellFormed(b)
    ensures ClearedBoard(ClearedBoard(b)) == ClearedBoard(b)
  {
    ClearedBoardShape(b);
    ClearedBoardNoFull(ClearedBoard(b));
  }

  /**
   * The number of removed rows is the number of full playable rows, and the
   * playable band ends with the surviving rows in their original order.
   */
  lemma ClearedBoardRemoves(b: Board)
    requires WellFormed(b)
    ensures LinesCleared(b) <= ROWS - GAME_AREA_START
    ensures ClearedBoard(b)[GAME_AREA_START..GAME_AREA_START + LinesCleared(b)] == EmptyRows(LinesCleared(b))
    ensures ClearedBoard(b)[GAME_AREA_START + LinesCleared(b)..] == KeepUnfull(Playable(b))
  {
    KeepUnfullLength(Playable(b));
  }

  /** Clearing only moves rows and adds empty ones, so a board of 24-bit colours stays one. */
  lemma ClearedBoardPalette(b: Board)
    requires WellFormed(b) && Palette(b)
    ensures WellFormed(ClearedBoard(b)) && Palette(ClearedBoard(b))
  {
    var p := Playable(b);
    var n := LinesCleared(b);
    var c := ClearedBoard(b);
    ClearedBoardShape(b);
    KeepUnfullLength(p);
    KeepUnfullRows(p);
    forall y, x | 0 <= y < ROWS && 0 <= x < COLS
      ensures IsRgb(c[y][x])
    {
      if y < GAME_AREA_START {
        assert c[y] == b[y];
      } else if y < GAME_AREA_START + n {
        assert c[y] == EmptyRows(n)[y - GAME_AREA_START];
      } else {
        var k := KeepUnfull(p);
        assert c[y] == k[y - GAME_AREA_START - n];
        var j :| 0 <= j < |p| && p[j] == c[y];
        assert p[j] == b[GAME_AREA_START + j];
      }
    }
  }

  // ---- scoring ----

  /** The part of the game state the scoring step reads and writes. */
  datatype Progress = Progress(score: nat, interval: int, running: bool)

  function Max(a: int, b: int): int {
    if a < b then b else a
  }

  /**
   * The scoring step at the end of `removeFullLines`, after `n` rows were
   * removed: score, then the win check, then the new fall interval.
   */
  function Scored(pr: Progress, n: nat): (r: Progress)
    ensures r.score == pr.score + n * LINE_SCORE
    ensures r.running ==> pr.running
    ensures n > 0 && r.score >= WIN_SCORE ==> !r.running
    ensures r.interval == pr.interval || 10 <= r.interval < BASE_FALL_INTERVAL
  {
    if n == 0 then pr
    else
      var score := pr.score + n * LINE_SCORE;
      if score >= WIN_SCORE then Progress(score, pr.interval, false)
      else Progress(score, Max(10, BASE_FALL_INTERVAL - n * 2), pr.running)
  }

  /**
   * Clearing n > 0 rows raises the score by exactly 100 n; a score of 1000 or
   * more stops play and keeps the interval; otherwise the interval becomes
   * max(10, 20 - 2 n), which is faster than the base interval but never below 10.
   * Clearing nothing changes nothing.
   */
  lemma ScoredRules(pr: Progress, n: nat)
    ensures n == 0 ==> Scored(pr, n) == pr
    ensures n > 0 ==> Scored(pr, n).score == pr.score + 100 * n
    ensures n > 0 && pr.score + 100 * n >= WIN_SCORE ==>
      !Scored(pr, n).running && Scored(pr, n).interval == pr.interval
    ensures n > 0 && pr.score + 100 * n < WIN_SCORE ==>
      Scored(pr, n).running == pr.running &&
      10 <= Scored(pr, n).interval < BASE_FALL_INTERVAL &&
      Scored(pr, n).interval == Max(10, 20 - 2 * n)
  {
  }
}
