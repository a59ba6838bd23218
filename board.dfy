/**
 * The board engine of the four-in-a-row server: a 6 x 7 grid of cells holding
 * 0 (empty), 1 or 2, the drop-row scan, win detection along the four axes
 * through a placed cell, the full-board test and the piece count.
 *
 * Row 0 is the top row and row 5 the bottom one; pieces fall towards row 5.
 */
module Board {
  import opened Common

  const Rows: int := 6
  const Cols: int := 7

  /** A board as the server keeps it: rows of cells. */
  type Grid = seq<seq<int>>

  predicate InBounds(r: int, c: int) {
    0 <= r < Rows && 0 <= c < Cols
  }

  /** Six rows of seven cells each. */
  predicate WellFormed(b: Grid) {
    |b| == Rows && forall r :: 0 <= r < Rows ==> |b[r]| == Cols
  }

  /** Every cell is empty or holds the piece of player 1 or 2. */
  predicate CellsOk(b: Grid)
    requires WellFormed(b)
  {
    forall r, c :: 0 <= r < Rows && 0 <= c < Cols ==> 0 <= b[r][c] <= 2
  }

  /** Gravity: a cell above an empty cell of the same column is never occupied. */
  predicate Gravity(b: Grid)
    requires WellFormed(b)
  {
    forall r1, r2, c :: 0 <= r1 < r2 < Rows && 0 <= c < Cols && b[r1][c] != 0 ==> b[r2][c] != 0
  }

  /** The invariant every board of a room keeps: shape, cell values, gravity. */
  predicate ValidBoard(b: Grid) {
    WellFormed(b) && CellsOk(b) && Gravity(b)
  }

  /** `Array(6).fill(null).map(() => Array(7).fill(0))`. */
  function EmptyBoard(): (b: Grid)
    ensures ValidBoard(b)
    ensures forall r, c :: 0 <= r < Rows && 0 <= c < Cols ==> b[r][c] == 0
  {
    seq(Rows, _ => seq(Cols, _ => 0))
  }

  /** `board[row][column] = v`, on a value. */
  function SetCell(b: Grid, row: int, column: int, v: int): (b': Grid)
    requires WellFormed(b) && InBounds(row, column)
    ensures WellFormed(b')
    ensures b'[row][column] == v
    ensures forall r, c :: 0 <= r < Rows && 0 <= c < Cols && (r != row || c != column) ==> b'[r][c] == b[r][c]
  {
    b[row := b[row][column := v]]
  }

  // ---------------------------------------------------------------------------
  // Drop row

  /** `row` is the largest row whose cell in `column` is empty: all cells below it are occupied. */
  predicate IsDropRow(b: Grid, column: int, row: int)
    requires WellFormed(b)
  {
    InBounds(row, column) && b[row][column] == 0 &&
    forall r :: row < r < Rows ==> b[r][column] != 0
  }

  /** Every cell of `column` is occupied. */
  predicate ColumnFull(b: Grid, column: int)
    requires WellFormed(b) && 0 <= column < Cols
  {
    forall r :: 0 <= r < Rows ==> b[r][column] != 0
  }

  /** The scan `for (row = from; row >= 0; row--) if (board[row][column] === 0) ...`. */
  function ScanUp(b: Grid, column: int, from: int): (res: Option<int>)
    requires WellFormed(b) && 0 <= column < Cols && -1 <= from < Rows
    ensures res.Some? ==> 0 <= res.value <= from && b[res.value][column] == 0 &&
                          forall r :: res.value < r <= from ==> b[r][column] != 0
    ensures res.None? ==> forall r :: 0 <= r <= from ==> b[r][column] != 0
    decreases from + 1
  {
    if from < 0 then None
    else if b[from][column] == 0 then Some(from)
    else ScanUp(b, column, from - 1)
  }

  /**
   * The row a piece dropped into `column` lands on, or None when the column is
   * full or does not exist (in the source, `board[row][7]` is `undefined`,
   * which is never `=== 0`).
   */
  function FreeRow(b: Grid, column: int): (res: Option<int>)
    requires WellFormed(b)
    ensures res.Some? ==> IsDropRow(b, column, res.value)
    ensures res.None? <==> !(0 <= column < Cols) || ColumnFull(b, column)
  {
    if 0 <= column < Cols then ScanUp(b, column, Rows - 1) else None
  }

  /** The drop-row loop of the `preview-move` and `practice-move` handlers. */
  method DropRow(b: Grid, column: int) returns (row: Option<int>)
    requires WellFormed(b)
    ensures row == FreeRow(b, column)
  {
    var r := Rows - 1;
    while r >= 0
      invariant -1 <= r < Rows
      invariant 0 <= column < Cols ==> FreeRow(b, column) == ScanUp(b, column, r)
    {
      if 0 <= column < Cols && b[r][column] == 0 {
        return Some(r);
      }
      r := r - 1;
    }
    return None;
  }

  /** Under gravity the drop row is the lowest empty cell: every cell above it is empty too. */
  lemma DropRowIsLowestEmpty(b: Grid, column: int, row: int)
    requires WellFormed(b) && Gravity(b) && IsDropRow(b, column, row)
    ensures forall r :: 0 <= r <= row ==> b[r][column] == 0
    ensures forall r :: row < r < Rows ==> b[r][column] != 0
  {
  }

  /** Under gravity a column is full exactly when its top cell is occupied. */
  lemma ColumnFullIffTopOccupied(b: Grid, column: int)
    requires WellFormed(b) && Gravity(b) && 0 <= column < Cols
    ensures ColumnFull(b, column) <==> b[0][column] != 0
  {
    if b[0][column] != 0 {
      forall r | 0 <= r < Rows
        ensures b[r][column] != 0
      {
        if r > 0 {
          assert b[0][column] != 0;
        }
      }
    }
  }

  /** Dropping a piece on the drop row keeps the gravity invariant and the cell values. */
  lemma DropKeepsValid(b: Grid, column: int, row: int, player: int)
    requires ValidBoard(b) && IsDropRow(b, column, row) && (player == 1 || player == 2)
    ensures ValidBoard(SetCell(b, row, column, player))
  {
  }

  // ---------------------------------------------------------------------------
  // Full board

  /**
   * `board[0].every(cell => cell !== 0)`: under gravity, a full top row means no
   * column accepts another piece.
   */
  predicate IsFull(b: Grid): (full: bool)
    requires WellFormed(b)
    ensures Gravity(b) ==> (full <==> forall c :: 0 <= c < Cols ==> ColumnFull(b, c))
  {
    TopRowDecidesColumns(b);
    forall c :: 0 <= c < Cols ==> b[0][c] != 0
  }

  /** Under gravity, each column is full exactly when its top cell is occupied. */
  lemma TopRowDecidesColumns(b: Grid)
    requires WellFormed(b)
    ensures Gravity(b) ==> forall c :: 0 <= c < Cols ==> (ColumnFull(b, c) <==> b[0][c] != 0)
  {
    if Gravity(b) {
      forall c | 0 <= c < Cols
        ensures ColumnFull(b, c) <==> b[0][c] != 0
      {
        ColumnFullIffTopOccupied(b, c);
      }
    }
  }

  /** On a valid board, the full test holds exactly when no column has a drop row any more. */
  lemma FullIffNoFreeRow(b: Grid)
    requires ValidBoard(b)
    ensures IsFull(b) <==> forall c :: 0 <= c < Cols ==> FreeRow(b, c).None?
  {
    assert IsFull(b) <==> forall c :: 0 <= c < Cols ==> ColumnFull(b, c);
    forall c | 0 <= c < Cols
      ensures FreeRow(b, c).None? <==> ColumnFull(b, c)
    {
    }
  }

  // ---------------------------------------------------------------------------
  // Piece count

  /** Number of non-empty cells of one row. */
  function CountRow(row: seq<int>): (n: nat)
    ensures n <= |row|
  {
    if row == [] then 0
    else CountRow(row[..|row| - 1]) + (if row[|row| - 1] != 0 then 1 else 0)
  }

  /** Number of non-empty cells of a list of rows. */
  function CountBoard(rows: Grid): nat
  {
    if rows == [] then 0
    else CountBoard(rows[..|rows| - 1]) + CountRow(rows[|rows| - 1])
  }

  /** `calculateMoves`: counts the non-empty cells row by row. */
  method CalculateMoves(b: Grid) returns (moves: nat)
    ensures moves == CountBoard(b)
  {
    moves := 0;
    for i := 0 to |b|
      invariant moves == CountBoard(b[..i])
    {
      var row := b[i];
      ghost var before := moves;
      for j := 0 to |row|
        invariant moves == before + CountRow(row[..j])
      {
        if row[j] != 0 {
          moves := moves + 1;
        }
        assert row[..j + 1][..j] == row[..j];
      }
      assert row[..|row|] == row;
      assert b[..i + 1][..i] == b[..i];
    }
    assert b[..|b|] == b;
  }

  /** A row's count equals its length exactly when none of its cells is empty. */
  lemma {:induction false} CountRowAll(row: seq<int>)
    ensures CountRow(row) == |row| <==> forall i :: 0 <= i < |row| ==> row[i] != 0
  {
    if row != [] {
      var init := row[..|row| - 1];
      CountRowAll(init);
      assert forall i :: 0 <= i < |init| ==> init[i] == row[i];
    }
  }

  /** Rows of seven cells hold at most seven pieces each, and exactly that many when no cell is empty. */
  lemma {:induction false} CountBoardAll(rows: Grid)
    requires forall r :: 0 <= r < |rows| ==> |rows[r]| == Cols
    ensures CountBoard(rows) <= Cols * |rows|
    ensures CountBoard(rows) == Cols * |rows| <==>
            forall r, c :: 0 <= r < |rows| && 0 <= c < Cols ==> rows[r][c] != 0
  {
    if rows != [] {
      var init := rows[..|rows| - 1];
      var last := rows[|rows| - 1];
      CountBoardAll(init);
      CountRowAll(last);
      assert forall r :: 0 <= r < |init| ==> init[r] == rows[r];
    }
  }

  /** `calculateMoves` of a 6 x 7 board lies in 0..42. */
  lemma MovesAtMost42(b: Grid)
    requires WellFormed(b)
    ensures 0 <= CountBoard(b) <= Rows * Cols
  {
    CountBoardAll(b);
  }

  /** Under gravity, `isBoardFull` (full top row) holds exactly when 42 pieces are on the board. */
  lemma FullIffFortyTwo(b: Grid)
    requires WellFormed(b) && Gravity(b)
    ensures IsFull(b) <==> CountBoard(b) == Rows * Cols
  {
    CountBoardAll(b);
    if IsFull(b) {
      forall r, c | 0 <= r < Rows && 0 <= c < Cols
        ensures b[r][c] != 0
      {
        if r > 0 {
          assert b[0][c] != 0;
        }
      }
    }
  }

  /** Writing one row of a list of rows changes the count by the two rows' difference. */
  lemma {:induction false} CountBoardUpdate(rows: Grid, i: int, x: seq<int>)
    requires 0 <= i < |rows|
    ensures CountBoard(rows[i := x]) + CountRow(rows[i]) == CountBoard(rows) + CountRow(x)
  {
    var n := |rows|;
    if i == n - 1 {
      assert rows[i := x][..n - 1] == rows[..n - 1];
    } else {
      assert rows[i := x][..n - 1] == rows[..n - 1][i := x];
      CountBoardUpdate(rows[..n - 1], i, x);
    }
  }

  /** Writing one cell of a row changes its count by the two cells' difference. */
  lemma {:induction false} CountRowUpdate(row: seq<int>, j: int, v: int)
    requires 0 <= j < |row|
    ensures CountRow(row[j := v]) + (if row[j] != 0 then 1 else 0) ==
            CountRow(row) + (if v != 0 then 1 else 0)
  {
    var n := |row|;
    if j == n - 1 {
      assert row[j := v][..n - 1] == row[..n - 1];
    } else {
      assert row[j := v][..n - 1] == row[..n - 1][j := v];
      CountRowUpdate(row[..n - 1], j, v);
    }
  }

  /** Filling an empty cell with a piece raises `calculateMoves` by exactly one. */
  lemma CountAfterFill(b: Grid, row: int, column: int, v: int)
    requires WellFormed(b) && InBounds(row, column) && b[row][column] == 0 && v != 0
    ensures CountBoard(SetCell(b, row, column, v)) == CountBoard(b) + 1
  {
    CountRowUpdate(b[row], column, v);
    CountBoardUpdate(b, row, b[row][column := v]);
  }

  // ---------------------------------------------------------------------------
  // Win detection

  /** One of the eight unit steps of the `directions` table. */
  predicate IsStep(dr: int, dc: int) {
    -1 <= dr <= 1 && -1 <= dc <= 1 && (dr != 0 || dc != 0)
  }

  /** How far `q` lies ahead of (r, c) along the step (dr, dc), measured on the coordinate that moves. */
  function Offset(q: (int, int), r: int, c: int, dr: int, dc: int): int {
    if dr == 1 then q.0 - r
    else if dr == -1 then r - q.0
    else if dc == 1 then q.1 - c
    else c - q.1
  }

  /** Steps left before a walk from (r, c) along (dr, dc) leaves the grid. */
  function Remaining(r: int, c: int, dr: int, dc: int): int {
    if dr == 1 then Rows - r
    else if dr == -1 then r + 1
    else if dc == 1 then Cols - c
    else c + 1
  }

  /**
   * Length of the contiguous run of `p` that starts at (r, c) and goes along
   * (dr, dc): the `while (r >= 0 && r < 6 && c >= 0 && c < 7 && board[r][c] === player)` walk.
   */
  function Run(b: Grid, r: int, c: int, dr: int, dc: int, p: int): nat
    requires WellFormed(b) && IsStep(dr, dc)
    decreases Remaining(r, c, dr, dc)
  {
    if InBounds(r, c) && b[r][c] == p then 1 + Run(b, r + dr, c + dc, dr, dc, p) else 0
  }

  /** The `directions` table: axis 0 horizontal, 1 vertical, 2 and 3 the diagonals; side 1 is side 0 reversed. */
  function Step(axis: int, side: int): (d: (int, int))
    requires 0 <= axis < 4 && 0 <= side < 2
    ensures IsStep(d.0, d.1)
    ensures side == 1 ==> d == (-Step(axis, 0).0, -Step(axis, 0).1)
  {
    var d0 := if axis == 0 then (0, 1) else if axis == 1 then (1, 0) else if axis == 2 then (1, 1) else (1, -1);
    if side == 0 then d0 else (-d0.0, -d0.1)
  }

  /** The run of `p` next to (row, col) on one side of one axis. */
  function HalfRun(b: Grid, row: int, col: int, axis: int, side: int, p: int): nat
    requires WellFormed(b) && 0 <= axis < 4 && 0 <= side < 2
  {
    var d := Step(axis, side);
    Run(b, row + d.0, col + d.1, d.0, d.1, p)
  }

  /** The placed cell plus the runs on both sides of one axis: `count` in the source. */
  function AxisCount(b: Grid, row: int, col: int, axis: int, p: int): nat
    requires WellFormed(b) && 0 <= axis < 4
  {
    1 + HalfRun(b, row, col, axis, 0, p) + HalfRun(b, row, col, axis, 1, p)
  }

  /** Four in a row through (row, col) for `p`, counting (row, col) itself whatever it holds. */
  predicate Wins(b: Grid, row: int, col: int, p: int)
    requires WellFormed(b)
  {
    exists axis :: 0 <= axis < 4 && AxisCount(b, row, col, axis, p) >= 4
  }

  /** `checkWinner(board, row, col, player)`. */
  method CheckWinner(b: Grid, row: int, col: int, player: int) returns (won: bool)
    requires WellFormed(b)
    ensures won == Wins(b, row, col, player)
  {
    for axis := 0 to 4
      invariant forall a :: 0 <= a < axis ==> AxisCount(b, row, col, a, player) < 4
    {
      var count := 1;
      for side := 0 to 2
        invariant count == 1 + (if side >= 1 then HalfRun(b, row, col, axis, 0, player) else 0)
                             + (if side >= 2 then HalfRun(b, row, col, axis, 1, player) else 0)
      {
        var d := Step(axis, side);
        var dr, dc := d.0, d.1;
        var r, c := row + dr, col + dc;
        ghost var before := count;
        while InBounds(r, c) && b[r][c] == player
          invariant count - before + Run(b, r, c, dr, dc, player) == HalfRun(b, row, col, axis, side, player)
          decreases Remaining(r, c, dr, dc)
        {
          count := count + 1;
          r, c := r + dr, c + dc;
        }
      }
      if count >= 4 {
        assert AxisCount(b, row, col, axis, player) >= 4;
        return true;
      }
    }
    return false;
  }

  /** A run from a start cell that lies strictly ahead of (r0, c0) never reads (r0, c0). */
  lemma {:induction false} RunIgnoresCellBehind(b: Grid, r0: int, c0: int, x: int, r: int, c: int, dr: int, dc: int, p: int)
    requires WellFormed(b) && InBounds(r0, c0) && IsStep(dr, dc)
    requires Offset((r0, c0), r, c, dr, dc) < 0
    ensures Run(SetCell(b, r0, c0, x), r, c, dr, dc, p) == Run(b, r, c, dr, dc, p)
    decreases Remaining(r, c, dr, dc)
  {
    if InBounds(r, c) {
      assert (r, c) != (r0, c0);
      RunIgnoresCellBehind(b, r0, c0, x, r + dr, c + dc, dr, dc, p);
    }
  }

  /** The placed cell always counts: what (row, col) itself holds never changes the verdict. */
  lemma PlacedCellIgnored(b: Grid, row: int, col: int, x: int, p: int)
    requires WellFormed(b) && InBounds(row, col)
    ensures Wins(SetCell(b, row, col, x), row, col, p) == Wins(b, row, col, p)
  {
    var b' := SetCell(b, row, col, x);
    forall axis, side | 0 <= axis < 4 && 0 <= side < 2
      ensures HalfRun(b', row, col, axis, side, p) == HalfRun(b, row, col, axis, side, p)
    {
      var d := Step(axis, side);
      RunIgnoresCellBehind(b, row, col, x, row + d.0, col + d.1, d.0, d.1, p);
    }
    assert forall axis :: 0 <= axis < 4 ==> AxisCount(b', row, col, axis, p) == AxisCount(b, row, col, axis, p);
  }

  // ---------------------------------------------------------------------------
  // A win needs four pieces

  /** The cells of `b` that hold `p`. */
  function Pieces(b: Grid, p: int): set<(int, int)>
    requires WellFormed(b)
  {
    set r, c | 0 <= r < Rows && 0 <= c < Cols && b[r][c] == p :: (r, c)
  }

  /** Membership in `Pieces`, cell by cell. */
  lemma PiecesMember(b: Grid, p: int, q: (int, int))
    requires WellFormed(b)
    ensures q in Pieces(b, p) <==> InBounds(q.0, q.1) && b[q.0][q.1] == p
  {
    if InBounds(q.0, q.1) && b[q.0][q.1] == p {
      var (r, c) := q;
      assert (r, c) in Pieces(b, p);
    }
  }

  /** The cells the walk of `Run` passes over. */
  function RunCells(b: Grid, r: int, c: int, dr: int, dc: int, p: int): set<(int, int)>
    requires WellFormed(b) && IsStep(dr, dc)
    decreases Remaining(r, c, dr, dc)
  {
    if InBounds(r, c) && b[r][c] == p then {(r, c)} + RunCells(b, r + dr, c + dc, dr, dc, p) else {}
  }

  /** One step along (dr, dc) brings every cell one step closer. */
  lemma OffsetStep(q: (int, int), r: int, c: int, dr: int, dc: int)
    requires IsStep(dr, dc)
    ensures Offset(q, r + dr, c + dc, dr, dc) == Offset(q, r, c, dr, dc) - 1
    ensures Offset(q, r, c, -dr, -dc) == -Offset(q, r, c, dr, dc)
  {
  }

  /** Every cell the walk visits holds `p` and lies at or ahead of its start. */
  lemma {:induction false} RunCellsAhead(b: Grid, r: int, c: int, dr: int, dc: int, p: int)
    requires WellFormed(b) && IsStep(dr, dc)
    ensures forall q :: q in RunCells(b, r, c, dr, dc, p) ==>
              InBounds(q.0, q.1) && b[q.0][q.1] == p && Offset(q, r, c, dr, dc) >= 0
    decreases Remaining(r, c, dr, dc)
  {
    if InBounds(r, c) && b[r][c] == p {
      var rest := RunCells(b, r + dr, c + dc, dr, dc, p);
      assert RunCells(b, r, c, dr, dc, p) == {(r, c)} + rest;
      RunCellsAhead(b, r + dr, c + dc, dr, dc, p);
      forall q | q in rest
        ensures Offset(q, r, c, dr, dc) >= 1
      {
        OffsetStep(q, r, c, dr, dc);
      }
      assert Offset((r, c), r, c, dr, dc) == 0;
    }
  }

  /** The walk visits exactly `Run` distinct cells. */
  lemma {:induction false} RunCellsCount(b: Grid, r: int, c: int, dr: int, dc: int, p: int)
    requires WellFormed(b) && IsStep(dr, dc)
    ensures |RunCells(b, r, c, dr, dc, p)| == Run(b, r, c, dr, dc, p)
    decreases Remaining(r, c, dr, dc)
  {
    if InBounds(r, c) && b[r][c] == p {
      RunCellsCount(b, r + dr, c + dc, dr, dc, p);
      RunCellsGrow(b, r, c, dr, dc, p);
    } else {
      RunCellsStop(b, r, c, dr, dc, p);
    }
  }

  /** A walk that continues from (r, c) visits one cell more than the walk from the next cell. */
  lemma RunCellsGrow(b: Grid, r: int, c: int, dr: int, dc: int, p: int)
    requires WellFormed(b) && IsStep(dr, dc) && InBounds(r, c) && b[r][c] == p
    requires |RunCells(b, r + dr, c + dc, dr, dc, p)| == Run(b, r + dr, c + dc, dr, dc, p)
    ensures |RunCells(b, r, c, dr, dc, p)| == Run(b, r, c, dr, dc, p)
  {
    var rest := RunCells(b, r + dr, c + dc, dr, dc, p);
    assert RunCells(b, r, c, dr, dc, p) == {(r, c)} + rest;
    StartNotInRest(b, r, c, dr, dc, p);
    AddFreshCard((r, c), rest);
  }

  /** A walk that stops at once visits nothing. */
  lemma RunCellsStop(b: Grid, r: int, c: int, dr: int, dc: int, p: int)
    requires WellFormed(b) && IsStep(dr, dc) && !(InBounds(r, c) && b[r][c] == p)
    ensures |RunCells(b, r, c, dr, dc, p)| == Run(b, r, c, dr, dc, p) == 0
  {
  }

  /** Adding an element that is not yet present grows a set by one. */
  lemma AddFreshCard<T>(x: T, s: set<T>)
    requires x !in s
    ensures |{x} + s| == |s| + 1
  {
  }

  /** The walk never comes back to the cell it started from. */
  lemma StartNotInRest(b: Grid, r: int, c: int, dr: int, dc: int, p: int)
    requires WellFormed(b) && IsStep(dr, dc)
    ensures (r, c) !in RunCells(b, r + dr, c + dc, dr, dc, p)
  {
    RunCellsAhead(b, r + dr, c + dc, dr, dc, p);
    OffsetStep((r, c), r, c, dr, dc);
  }

  /**
   * A win needs the placed cell and at least three other pieces of `p`, so three
   * pieces in a row with no fourth never report a win.
   */
  lemma WinNeedsFourPieces(b: Grid, row: int, col: int, p: int)
    requires WellFormed(b) && Wins(b, row, col, p)
    ensures |Pieces(b, p) - {(row, col)}| >= 3
  {
    var axis :| 0 <= axis < 4 && AxisCount(b, row, col, axis, p) >= 4;
    AxisCountAtMostPieces(b, row, col, axis, p);
  }

  /** Every axis counts at most the placed cell plus the other pieces of `p`. */
  lemma AxisCountAtMostPieces(b: Grid, row: int, col: int, axis: int, p: int)
    requires WellFormed(b) && 0 <= axis < 4
    ensures AxisCount(b, row, col, axis, p) <= 1 + |Pieces(b, p) - {(row, col)}|
  {
    var others := Pieces(b, p) - {(row, col)};
    var d0, d1 := Step(axis, 0), Step(axis, 1);
    AxisOtherPieces(b, row, col, d0.0, d0.1, d1.0, d1.1, p);
  }

  /** An axis with steps (dr, dc) and (er, ec) counts at most the placed cell plus the other pieces of `p`. */
  lemma AxisOtherPieces(b: Grid, row: int, col: int, dr: int, dc: int, er: int, ec: int, p: int)
    requires WellFormed(b) && IsStep(dr, dc) && er == -dr && ec == -dc
    ensures Run(b, row + dr, col + dc, dr, dc, p) + Run(b, row + er, col + ec, er, ec, p)
            <= |Pieces(b, p) - {(row, col)}|
  {
    var s0 := RunCells(b, row + dr, col + dc, dr, dc, p);
    var s1 := RunCells(b, row + er, col + ec, er, ec, p);
    var others := Pieces(b, p) - {(row, col)};
    RunCellsCount(b, row + dr, col + dc, dr, dc, p);
    RunCellsCount(b, row + er, col + ec, er, ec, p);
    assert |s0| == Run(b, row + dr, col + dc, dr, dc, p);
    assert |s1| == Run(b, row + er, col + ec, er, ec, p);
    AxisCellsAreOtherPieces(b, row, col, dr, dc, er, ec, p, s0, s1);
    DisjointWithin(s0, s1, others);
  }

  /** Two disjoint parts of a set together are no larger than the set. */
  lemma DisjointWithin<T>(s0: set<T>, s1: set<T>, t: set<T>)
    requires s0 + s1 <= t && |s0 + s1| == |s0| + |s1|
    ensures |s0| + |s1| <= |t|
  {
    SubsetCard(s0 + s1, t);
  }

  /** The cells of both runs of an axis are distinct pieces of `p` other than (row, col). */
  lemma AxisCellsAreOtherPieces(b: Grid, row: int, col: int, dr: int, dc: int, er: int, ec: int, p: int,
                                s0: set<(int, int)>, s1: set<(int, int)>)
    requires WellFormed(b) && IsStep(dr, dc) && er == -dr && ec == -dc
    requires s0 == RunCells(b, row + dr, col + dc, dr, dc, p)
    requires s1 == RunCells(b, row + er, col + ec, er, ec, p)
    ensures s0 + s1 <= Pieces(b, p) - {(row, col)} && |s0 + s1| == |s0| + |s1|
  {
    RunAhead(b, row, col, dr, dc, p);
    RunBehind(b, row, col, dr, dc, er, ec, p);
    DisjointByOffset(s0, s1, row, col, dr, dc);
    PiecesContain(b, p, s0);
    PiecesContain(b, p, s1);
  }

  /** A set of cells that all hold `p` is part of `Pieces(b, p)`. */
  lemma PiecesContain(b: Grid, p: int, s: set<(int, int)>)
    requires WellFormed(b)
    requires forall q :: q in s ==> InBounds(q.0, q.1) && b[q.0][q.1] == p
    ensures s <= Pieces(b, p)
  {
    forall q | q in s
      ensures q in Pieces(b, p)
    {
      PiecesMember(b, p, q);
    }
  }

  /** The run on side 0 lies strictly ahead of (row, col) and holds pieces of `p`. */
  lemma RunAhead(b: Grid, row: int, col: int, dr: int, dc: int, p: int)
    requires WellFormed(b) && IsStep(dr, dc)
    ensures forall q :: q in RunCells(b, row + dr, col + dc, dr, dc, p) ==>
              InBounds(q.0, q.1) && b[q.0][q.1] == p && Offset(q, row, col, dr, dc) >= 1
  {
    RunCellsAhead(b, row + dr, col + dc, dr, dc, p);
    forall q | q in RunCells(b, row + dr, col + dc, dr, dc, p)
      ensures Offset(q, row, col, dr, dc) >= 1
    {
      OffsetStep(q, row, col, dr, dc);
    }
  }

  /** The run on side 1, which walks the reversed step, lies strictly behind (row, col). */
  lemma RunBehind(b: Grid, row: int, col: int, dr: int, dc: int, er: int, ec: int, p: int)
    requires WellFormed(b) && IsStep(dr, dc) && er == -dr && ec == -dc
    ensures forall q :: q in RunCells(b, row + er, col + ec, er, ec, p) ==>
              InBounds(q.0, q.1) && b[q.0][q.1] == p && Offset(q, row, col, dr, dc) <= -1
  {
    RunCellsAhead(b, row + er, col + ec, er, ec, p);
    forall q | q in RunCells(b, row + er, col + ec, er, ec, p)
      ensures Offset(q, row, col, dr, dc) <= -1
    {
      OffsetStep(q, row, col, er, ec);
      OffsetStep(q, row, col, dr, dc);
    }
  }

  /** Cells strictly ahead of (row, col) and cells strictly behind it form disjoint sets without (row, col). */
  lemma DisjointByOffset(s0: set<(int, int)>, s1: set<(int, int)>, row: int, col: int, dr: int, dc: int)
    requires forall q :: q in s0 ==> Offset(q, row, col, dr, dc) >= 1
    requires forall q :: q in s1 ==> Offset(q, row, col, dr, dc) <= -1
    ensures s0 !! s1 && (row, col) !in s0 + s1 && |s0 + s1| == |s0| + |s1|
  {
    assert Offset((row, col), row, col, dr, dc) == 0;
  }

  lemma SubsetCard<T>(a: set<T>, b: set<T>)
    requires a <= b
    ensures |a| <= |b|
  {
    assert b == a + (b - a);
  }

  // ---------------------------------------------------------------------------
  // Scenario: player 1 drops into columns 0, 1, 2 and 3 of an empty board

  /** The board after player 1 has dropped into columns 0 .. n-1 of an empty board. */
  function AcrossBoard(n: nat): (b: Grid)
    requires n <= 4
    ensures WellFormed(b)
  {
    if n == 0 then EmptyBoard() else SetCell(AcrossBoard(n - 1), 5, n - 1, 1)
  }

  /** Each of the four pieces lands on the bottom row. */
  lemma AcrossLandsOnBottom(n: nat)
    requires n < 4
    ensures FreeRow(AcrossBoard(n), n) == Some(5)
  {
    var b := AcrossBoard(n);
    assert b[5][n] == 0 by {
      if n > 0 {
        AcrossCells(n);
      }
    }
  }

  /** The cells of the bottom row hold 1 exactly in the first n columns; every other row is empty. */
  lemma {:induction false} AcrossCells(n: nat)
    requires n <= 4
    ensures forall r, c :: 0 <= r < Rows && 0 <= c < Cols ==>
              AcrossBoard(n)[r][c] == (if r == 5 && c < n then 1 else 0)
  {
    if n > 0 {
      AcrossCells(n - 1);
    }
  }

  /** Three across do not win at the third piece. */
  lemma ThreeAcrossNoWin()
    ensures !Wins(AcrossBoard(3), 5, 2, 1)
  {
    var b := AcrossBoard(3);
    AcrossCells(3);
    assert b[5][0] == 1 && b[5][1] == 1 && b[5][3] == 0;
    assert b[4][1] == 0 && b[4][2] == 0 && b[4][3] == 0;
    PairLeftNoWin(b);
  }

  /**
   * A piece at (5, 2) with exactly two pieces of player 1 to its left and
   * nothing of player 1 to its right or above counts three at most on every axis.
   */
  lemma PairLeftNoWin(b: Grid)
    requires WellFormed(b)
    requires b[5][0] == 1 && b[5][1] == 1 && b[5][3] != 1
    requires b[4][1] != 1 && b[4][2] != 1 && b[4][3] != 1
    ensures !Wins(b, 5, 2, 1)
  {
    forall axis | 0 <= axis < 4
      ensures AxisCount(b, 5, 2, axis, 1) < 4
    {
      if axis == 0 {
        assert HalfRun(b, 5, 2, 0, 0, 1) == Run(b, 5, 3, 0, 1, 1) == 0;
        assert Run(b, 5, -1, 0, -1, 1) == 0;
        assert HalfRun(b, 5, 2, 0, 1, 1) == Run(b, 5, 1, 0, -1, 1) == 2;
      } else if axis == 1 {
        assert HalfRun(b, 5, 2, 1, 0, 1) == Run(b, 6, 2, 1, 0, 1) == 0;
        assert HalfRun(b, 5, 2, 1, 1, 1) == Run(b, 4, 2, -1, 0, 1) == 0;
      } else if axis == 2 {
        assert HalfRun(b, 5, 2, 2, 0, 1) == Run(b, 6, 3, 1, 1, 1) == 0;
        assert HalfRun(b, 5, 2, 2, 1, 1) == Run(b, 4, 1, -1, -1, 1) == 0;
      } else {
        assert HalfRun(b, 5, 2, 3, 0, 1) == Run(b, 6, 1, 1, -1, 1) == 0;
        assert HalfRun(b, 5, 2, 3, 1, 1) == Run(b, 4, 3, -1, 1, 1) == 0;
      }
    }
  }

  /** The fourth piece, at (5, 3), wins along the horizontal axis. */
  lemma FourAcrossWins()
    ensures Wins(AcrossBoard(4), 5, 3, 1)
  {
    var b := AcrossBoard(4);
    AcrossCells(4);
    assert Run(b, 5, 2, 0, -1, 1) == 3;
    assert AxisCount(b, 5, 3, 0, 1) == 4;
  }
}
