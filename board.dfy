/**
 * The Connect Four board: a rows x cols grid of tokens (0 empty, 1 and 2 the
 * players) where row 0 is the top row, so a dropped token lands at the
 * largest empty row index of its column.
 *
 * `BoardState` is the board as a value: what a deep copy of the board holds,
 * and what both search engines explore.  The class `Board` is the mutable
 * board of the game, with its grid in an array; its methods keep the
 * source's loops and are proved to agree with the functions on `BoardState`.
 */
module Boards {
  import opened Wrappers

  const EMPTY: int := 0

  datatype Pos = Pos(row: int, col: int)

  /** The four axes scanned by the win check, as a unit step (row, column). */
  datatype Dir = Horizontal | Vertical | Rising | Falling {
    function DRow(): int {
      match this
      case Horizontal => 0
      case Vertical => 1
      case Rising => -1   // "/" goes up (towards row 0) while going right
      case Falling => 1   // "\" goes down while going right
    }

    function DCol(): int {
      match this
      case Horizontal => 1
      case Vertical => 0
      case Rising => 1
      case Falling => 1
    }
  }

  /** `k` steps along an axis component `d` in {-1, 0, 1}. */
  function Steps(k: int, d: int): int {
    if d == 0 then 0 else if d > 0 then k else -k
  }

  function Max(a: int, b: int): int { if a < b then b else a }

  function Min(a: int, b: int): int { if a < b then a else b }

  /** Number of empty cells in one row. */
  function RowEmpties(row: seq<int>): nat {
    if row == [] then 0 else (if row[0] == EMPTY then 1 else 0) + RowEmpties(row[1..])
  }

  /** Number of empty cells in a grid. */
  function GridEmpties(g: seq<seq<int>>): nat {
    if g == [] then 0 else RowEmpties(g[0]) + GridEmpties(g[1..])
  }

  datatype BoardState = BoardState(rows: nat, cols: nat, grid: seq<seq<int>>, lastMove: Option<Pos>)
  {
    /** The grid has the board's dimensions. */
    predicate Shaped() {
      rows >= 1 && cols >= 1 && |grid| == rows && forall r :: 0 <= r < rows ==> |grid[r]| == cols
    }

    predicate InBounds(r: int, c: int) {
      0 <= r < rows && 0 <= c < cols
    }

    /** Every column's empty cells lie above its occupied cells. */
    ghost predicate Settled()
      requires Shaped()
    {
      forall above, below, c ::
        0 <= above <= below < rows && 0 <= c < cols && grid[below][c] == EMPTY ==> grid[above][c] == EMPTY
    }

    /**
     * A reachable board: cells hold tokens, gravity holds, and the last move
     * names an occupied cell.
     */
    ghost predicate Valid() {
      && Shaped()
      && (forall r, c :: 0 <= r < rows && 0 <= c < cols ==> 0 <= grid[r][c] <= 2)
      && Settled()
      && (lastMove.Some? ==>
            InBounds(lastMove.value.row, lastMove.value.col)
            && grid[lastMove.value.row][lastMove.value.col] != EMPTY)
    }

    /** `get_cell`: the token at (r, c), or no value off the board. */
    function GetCell(r: int, c: int): (v: Option<int>)
      requires Shaped()
      ensures v.None? <==> !InBounds(r, c)
      ensures Valid() && v.Some? ==> 0 <= v.value <= 2
    {
      if InBounds(r, c) then Some(grid[r][c]) else None
    }

    /** `is_valid_move`: the column exists and its top cell is empty. */
    predicate IsValidMove(col: int)
      requires Shaped()
    {
      if col < 0 || col >= cols then false else grid[0][col] == EMPTY
    }

    /** The valid columns from `c` on, in ascending order. */
    function ValidFrom(c: nat): (moves: seq<int>)
      requires Shaped()
      decreases cols - c
      ensures forall x :: x in moves <==> c <= x < cols && IsValidMove(x)
    {
      if c >= cols then []
      else
        var rest := ValidFrom(c + 1);
        assert forall j :: 0 <= j < |rest| ==> rest[j] in rest;
        if IsValidMove(c) then [c] + rest else rest
    }

    /** `get_valid_moves` */
    function GetValidMoves(): seq<int>
      requires Shaped()
    {
      ValidFrom(0)
    }

    /** `is_full` */
    predicate IsFull()
      requires Shaped()
    {
      |GetValidMoves()| == 0
    }

    /** The number of empty cells. */
    function EmptyCount(): nat
      requires Shaped()
    {
      GridEmpties(grid)
    }

    /** The scan of `drop_piece`: the first empty row met going up from row `r`, or -1. */
    function Landing(col: int, r: int): (landing: int)
      requires Shaped() && 0 <= col < cols && -1 <= r < rows
      decreases r + 1
      ensures -1 <= landing <= r
      ensures landing >= 0 ==> grid[landing][col] == EMPTY
      ensures forall k :: landing < k <= r ==> grid[k][col] != EMPTY
    {
      if r < 0 then -1
      else if grid[r][col] == EMPTY then r
      else Landing(col, r - 1)
    }

    /** `drop_piece` on a copy; `DropFillsLowest` states what it does. */
    function Drop(col: int, player: int): (after: BoardState)
      requires Shaped()
      ensures after.Shaped() && after.rows == rows && after.cols == cols
    {
      if !IsValidMove(col) then this
      else
        var row := Landing(col, rows - 1);
        this.(grid := grid[row := grid[row][col := player]], lastMove := Some(Pos(row, col)))
    }

    /** Whether (r, c) is on the board and holds `player`. */
    predicate Matches(r: int, c: int, player: int)
      requires Shaped()
    {
      InBounds(r, c) && grid[r][c] == player
    }

    /** The cell `i` steps from (row, col) along `d` holds `player`. */
    predicate MatchesAt(row: int, col: int, d: Dir, i: int, player: int)
      requires Shaped()
    {
      Matches(row + Steps(i, d.DRow()), col + Steps(i, d.DCol()), player)
    }

    /** The `n` cells k, k+1, ... steps along `d` all hold `player`. */
    predicate RunFrom(row: int, col: int, d: Dir, k: int, n: nat, player: int)
      requires Shaped()
      decreases n
    {
      n == 0 || (MatchesAt(row, col, d, k, player) && RunFrom(row, col, d, k + 1, n - 1, player))
    }

    /** Cells k, k+1, k+2, k+3 steps along `d` all hold `player`. */
    predicate FourFrom(row: int, col: int, d: Dir, k: int, player: int)
      requires Shaped()
    {
      RunFrom(row, col, d, k, 4, player)
    }

    /** Four in a row along `d` within three steps either side of (row, col). */
    predicate LineWin(row: int, col: int, d: Dir, player: int)
      requires Shaped()
    {
      || FourFrom(row, col, d, -3, player)
      || FourFrom(row, col, d, -2, player)
      || FourFrom(row, col, d, -1, player)
      || FourFrom(row, col, d, 0, player)
    }

    /** `check_win` as a geometric statement: four in a row through (row, col) on some axis. */
    predicate WinAt(row: int, col: int, player: int)
      requires Shaped()
    {
      || LineWin(row, col, Horizontal, player)
      || LineWin(row, col, Vertical, player)
      || LineWin(row, col, Rising, player)
      || LineWin(row, col, Falling, player)
    }

    /**
     * The state of an axis scan before offset `i`: the last `count` cells
     * (fewer than four) hold `player`, the cell before them does not, and no
     * four-in-a-row ends before `i`.
     */
    ghost predicate Scanned(row: int, col: int, d: Dir, player: int, i: int, count: int)
      requires Shaped()
    {
      && 0 <= count <= 3 && i - count >= -3
      && (forall j :: i - count <= j < i ==> MatchesAt(row, col, d, j, player))
      && (i - count - 1 >= -3 ==> !MatchesAt(row, col, d, i - count - 1, player))
      && (forall k :: -3 <= k && k + 4 <= i ==> !FourFrom(row, col, d, k, player))
    }

    /** `is_winner`: false before any move, else the win check at the last move. */
    predicate IsWinner(player: int)
      requires Shaped()
    {
      lastMove.Some? && WinAt(lastMove.value.row, lastMove.value.col, player)
    }
  }

  /** `get_valid_moves` lists each valid column once, in ascending order. */
  lemma {:induction false} ValidFromAscending(b: BoardState, c: nat)
    requires b.Shaped()
    decreases b.cols - c
    ensures forall i, j :: 0 <= i < j < |b.ValidFrom(c)| ==> b.ValidFrom(c)[i] < b.ValidFrom(c)[j]
  {
    if c < b.cols {
      ValidFromAscending(b, c + 1);
      var rest := b.ValidFrom(c + 1);
      assert forall j :: 0 <= j < |rest| ==> rest[j] in rest;
    }
  }

  /** `FourFrom` spelled out cell by cell. */
  lemma FourFromCells(b: BoardState, row: int, col: int, d: Dir, k: int, player: int)
    requires b.Shaped()
    ensures b.FourFrom(row, col, d, k, player) <==>
      && b.MatchesAt(row, col, d, k, player)
      && b.MatchesAt(row, col, d, k + 1, player)
      && b.MatchesAt(row, col, d, k + 2, player)
      && b.MatchesAt(row, col, d, k + 3, player)
  {
    assert b.RunFrom(row, col, d, k + 3, 1, player) <==> b.MatchesAt(row, col, d, k + 3, player);
    assert b.RunFrom(row, col, d, k + 2, 2, player) <==>
      b.MatchesAt(row, col, d, k + 2, player) && b.RunFrom(row, col, d, k + 3, 1, player);
  }

  /** `LineWin` spelled out as its four candidate starts, cell by cell. */
  lemma LineWinCells(b: BoardState, row: int, col: int, d: Dir, player: int)
    requires b.Shaped()
    ensures b.FourFrom(row, col, d, -3, player) <==> b.MatchesAt(row, col, d, -3, player) && b.MatchesAt(row, col, d, -2, player) && b.MatchesAt(row, col, d, -1, player) && b.MatchesAt(row, col, d, 0, player)
    ensures b.FourFrom(row, col, d, -2, player) <==> b.MatchesAt(row, col, d, -2, player) && b.MatchesAt(row, col, d, -1, player) && b.MatchesAt(row, col, d, 0, player) && b.MatchesAt(row, col, d, 1, player)
    ensures b.FourFrom(row, col, d, -1, player) <==> b.MatchesAt(row, col, d, -1, player) && b.MatchesAt(row, col, d, 0, player) && b.MatchesAt(row, col, d, 1, player) && b.MatchesAt(row, col, d, 2, player)
    ensures b.FourFrom(row, col, d, 0, player) <==> b.MatchesAt(row, col, d, 0, player) && b.MatchesAt(row, col, d, 1, player) && b.MatchesAt(row, col, d, 2, player) && b.MatchesAt(row, col, d, 3, player)
  {
    FourFromCells(b, row, col, d, -3, player);
    FourFromCells(b, row, col, d, -2, player);
    FourFromCells(b, row, col, d, -1, player);
    FourFromCells(b, row, col, d, 0, player);
  }

  /**
   * A matching cell extends the run: the fourth in a row completes a line,
   * otherwise the scan state moves on with the count one higher.
   */
  lemma ScanHit(b: BoardState, row: int, col: int, d: Dir, player: int, i: int, count: int)
    requires b.Shaped() && b.Scanned(row, col, d, player, i, count)
    requires i < 4 && b.MatchesAt(row, col, d, i, player)
    ensures count == 3 ==> b.FourFrom(row, col, d, i - 3, player) && b.LineWin(row, col, d, player)
    ensures count < 3 ==> b.Scanned(row, col, d, player, i + 1, count + 1)
  {
    FourFromCells(b, row, col, d, i - 3, player);
    if count < 3 && i - 3 >= -3 {
      // the cell just before the run lies among the four ending at i
      var gap := i - count - 1;
      assert i - 3 <= gap < i + 1 && !b.MatchesAt(row, col, d, gap, player);
      assert !b.FourFrom(row, col, d, i - 3, player);
    }
  }

  /** Before the first offset of a scan nothing is counted, the cells before it being unmatched. */
  lemma ScanStart(b: BoardState, row: int, col: int, d: Dir, player: int, lo: int)
    requires b.Shaped() && -3 <= lo
    requires forall i :: -3 <= i < lo ==> !b.MatchesAt(row, col, d, i, player)
    ensures b.Scanned(row, col, d, player, lo, 0)
  {
  }

  /** A cell that does not match breaks the run: the count starts again from zero. */
  lemma ScanMiss(b: BoardState, row: int, col: int, d: Dir, player: int, i: int, count: int)
    requires b.Shaped() && b.Scanned(row, col, d, player, i, count)
    requires !b.MatchesAt(row, col, d, i, player)
    ensures b.Scanned(row, col, d, player, i + 1, 0)
  {
    FourFromCells(b, row, col, d, i - 3, player);
  }

  /** A scan that ends without finding four, with the cells outside it unmatched, saw no line. */
  lemma ScanEnd(b: BoardState, row: int, col: int, d: Dir, player: int, hi: int, count: int)
    requires b.Shaped() && b.Scanned(row, col, d, player, hi, count) && hi <= 4
    requires forall i :: hi <= i < 4 ==> !b.MatchesAt(row, col, d, i, player)
    ensures !b.LineWin(row, col, d, player)
  {
    LineWinCells(b, row, col, d, player);
  }

  /** The board `Board()` creates: every cell empty, no last move. */
  function EmptyBoard(rows: nat, cols: nat): (b: BoardState)
    requires rows >= 1 && cols >= 1
    ensures b.Valid() && b.rows == rows && b.cols == cols
    ensures forall r, c :: 0 <= r < rows && 0 <= c < cols ==> b.GetCell(r, c) == Some(EMPTY)
    ensures forall c :: 0 <= c < cols ==> b.IsValidMove(c)
  {
    BoardState(rows, cols, seq(rows, _ => seq(cols, _ => EMPTY)), None)
  }

  /**
   * `drop_piece` on an invalid column changes nothing; otherwise `player`
   * fills the lowest empty cell of the column (the largest empty row index),
   * which becomes the last move, and no other cell changes.
   */
  lemma DropFillsLowest(b: BoardState, col: int, player: int)
    requires b.Shaped()
    ensures var after := b.Drop(col, player);
      && (!b.IsValidMove(col) ==> after == b)
      && (b.IsValidMove(col) ==>
        && after.lastMove.Some?
        && var m := after.lastMove.value;
        && m.col == col && 0 <= m.row < b.rows
        && b.grid[m.row][col] == EMPTY
        && (forall k :: m.row < k < b.rows ==> b.grid[k][col] != EMPTY)
        && after.grid[m.row][col] == player
        && (forall r, c :: b.InBounds(r, c) && (r != m.row || c != col) ==> after.grid[r][c] == b.grid[r][c]))
  {
  }

  /** A valid drop by a player keeps the board reachable: tokens, gravity, last move. */
  lemma DropPreservesValid(b: BoardState, col: int, player: int)
    requires b.Valid() && (player == 1 || player == 2)
    ensures b.Drop(col, player).Valid()
  {
    if b.IsValidMove(col) {
      var a := b.Drop(col, player);
      var m := a.lastMove.value;
      forall above, below, c | 0 <= above <= below < a.rows && 0 <= c < a.cols && a.grid[below][c] == EMPTY
        ensures a.grid[above][c] == EMPTY
      {
        if c == col {
          assert below < m.row;
        }
      }
    }
  }

  lemma {:induction false} RowEmptiesUpdate(row: seq<int>, c: int, player: int)
    requires 0 <= c < |row| && row[c] == EMPTY && player != EMPTY
    ensures RowEmpties(row[c := player]) + 1 == RowEmpties(row)
  {
    if c == 0 {
      assert row[c := player][1..] == row[1..];
    } else {
      assert row[c := player][1..] == row[1..][c - 1 := player];
      RowEmptiesUpdate(row[1..], c - 1, player);
    }
  }

  lemma {:induction false} GridEmptiesUpdate(g: seq<seq<int>>, r: int, newRow: seq<int>)
    requires 0 <= r < |g|
    ensures GridEmpties(g[r := newRow]) + RowEmpties(g[r]) == GridEmpties(g) + RowEmpties(newRow)
  {
    if r == 0 {
      assert g[r := newRow][1..] == g[1..];
    } else {
      assert g[r := newRow][1..] == g[1..][r - 1 := newRow];
      GridEmptiesUpdate(g[1..], r - 1, newRow);
    }
  }

  /** A successful drop fills exactly one empty cell: the occupied count grows by one. */
  lemma DropFillsOne(b: BoardState, col: int, player: int)
    requires b.Shaped() && b.IsValidMove(col) && player != EMPTY
    ensures b.Drop(col, player).EmptyCount() + 1 == b.EmptyCount()
  {
    var m := b.Drop(col, player).lastMove.value;
    RowEmptiesUpdate(b.grid[m.row], col, player);
    GridEmptiesUpdate(b.grid, m.row, b.grid[m.row][col := player]);
  }

  lemma {:induction false} NoRowEmpties(row: seq<int>)
    ensures RowEmpties(row) == 0 <==> forall i :: 0 <= i < |row| ==> row[i] != EMPTY
  {
    if row != [] {
      NoRowEmpties(row[1..]);
      assert forall i :: 1 <= i < |row| ==> row[i] == row[1..][i - 1];
    }
  }

  lemma {:induction false} NoGridEmpties(g: seq<seq<int>>)
    ensures GridEmpties(g) == 0 <==> forall r :: 0 <= r < |g| ==> RowEmpties(g[r]) == 0
  {
    if g != [] {
      NoGridEmpties(g[1..]);
      assert forall r :: 1 <= r < |g| ==> g[r] == g[1..][r - 1];
    }
  }

  /** `is_full` holds iff every top cell is occupied, iff no valid move is left. */
  lemma FullIffTopRowOccupied(b: BoardState)
    requires b.Shaped()
    ensures b.IsFull() <==> forall c :: 0 <= c < b.cols ==> b.grid[0][c] != EMPTY
    ensures b.IsFull() <==> forall c :: !b.IsValidMove(c)
  {
    if b.IsFull() {
      forall c | 0 <= c < b.cols ensures b.grid[0][c] != EMPTY {
        assert c !in b.GetValidMoves();
      }
    } else {
      assert b.IsValidMove(b.GetValidMoves()[0]);
    }
  }

  /** On a reachable board, `is_full` holds iff no cell at all is empty. */
  lemma FullIffNoEmptyCell(b: BoardState)
    requires b.Valid()
    ensures b.IsFull() <==> b.EmptyCount() == 0
  {
    FullIffTopRowOccupied(b);
    NoGridEmpties(b.grid);
    forall r | 0 <= r < b.rows
      ensures RowEmpties(b.grid[r]) == 0 <==> forall c :: 0 <= c < b.cols ==> b.grid[r][c] != EMPTY
    {
      NoRowEmpties(b.grid[r]);
    }
    if b.IsFull() {
      forall r, c | 0 <= r < b.rows && 0 <= c < b.cols ensures b.grid[r][c] != EMPTY {
      }
    }
  }

  /** Every line the win check accepts runs through the anchor cell itself. */
  lemma WinCoversAnchor(b: BoardState, row: int, col: int, player: int)
    requires b.Shaped() && b.WinAt(row, col, player)
    ensures b.Matches(row, col, player)
  {
    LineWinCells(b, row, col, Horizontal, player);
    LineWinCells(b, row, col, Vertical, player);
    LineWinCells(b, row, col, Rising, player);
    LineWinCells(b, row, col, Falling, player);
  }

  /**
   * Only the player who made the last move can be reported the winner, so
   * `is_winner(2)` and `is_winner(1)` never both hold.
   */
  lemma OnlyLastMoverWins(b: BoardState, p: int, q: int)
    requires b.Shaped() && b.IsWinner(p) && b.IsWinner(q)
    ensures p == q && b.grid[b.lastMove.value.row][b.lastMove.value.col] == p
  {
    WinCoversAnchor(b, b.lastMove.value.row, b.lastMove.value.col, p);
    WinCoversAnchor(b, b.lastMove.value.row, b.lastMove.value.col, q);
  }

  /**
   * The mutable board of the game: the grid array and the last move.  The
   * ghost field `grid` mirrors the array as a value, so that `State()` is the
   * deep copy of the board.
   */
  class Board {
    const rows: nat
    const cols: nat
    const cells: array2<int>
    var lastMove: Option<Pos>
    ghost var grid: seq<seq<int>>

    /** The array has the board's dimensions and `grid` holds exactly its cells. */
    ghost predicate Shaped()
      reads this, cells
    {
      && cells.Length0 == rows && cells.Length1 == cols
      && State().Shaped()
      && (forall r, c :: 0 <= r < rows && 0 <= c < cols ==> grid[r][c] == cells[r, c])
    }

    ghost predicate Valid()
      reads this, cells
    {
      Shaped() && State().Valid()
    }

    /** The board as a value: what `deepcopy` of it holds. */
    ghost function State(): BoardState
      reads this
    {
      BoardState(rows, cols, grid, lastMove)
    }

    /** `Board(rows, cols)`: an empty grid and no last move. */
    constructor (rows: nat, cols: nat)
      requires rows >= 1 && cols >= 1
      ensures Valid() && fresh(cells)
      ensures State() == EmptyBoard(rows, cols)
    {
      this.rows := rows;
      this.cols := cols;
      cells := new int[rows, cols]((r, c) => EMPTY);
      lastMove := None;
      grid := EmptyBoard(rows, cols).grid;
    }

    /** `get_cell` on the array. */
    function GetCell(r: int, c: int): (v: Option<int>)
      reads this, cells
      requires Shaped()
      ensures v == State().GetCell(r, c)
    {
      if 0 <= r < rows && 0 <= c < cols then Some(cells[r, c]) else None
    }

    /** `is_valid_move` on the array. */
    function IsValidMove(col: int): (ok: bool)
      reads this, cells
      requires Shaped()
      ensures ok == State().IsValidMove(col)
    {
      if col < 0 || col >= cols then false else cells[0, col] == EMPTY
    }

    /** `get_valid_moves`: the valid columns, in ascending order. */
    method GetValidMoves() returns (moves: seq<int>)
      requires Shaped()
      ensures moves == State().GetValidMoves()
    {
      ghost var s := State();
      moves := [];
      for c := 0 to cols
        invariant moves + s.ValidFrom(c) == s.ValidFrom(0)
      {
        ghost var rest := s.ValidFrom(c + 1);
        if IsValidMove(c) {
          assert s.ValidFrom(c) == [c] + rest;
          assert moves + ([c] + rest) == (moves + [c]) + rest;
          moves := moves + [c];
        } else {
          assert s.ValidFrom(c) == rest;
        }
      }
    }

    /** `is_full`: no valid move is left. */
    method IsFull() returns (full: bool)
      requires Shaped()
      ensures full == State().IsFull()
    {
      var moves := GetValidMoves();
      full := |moves| == 0;
    }

    /** `deepcopy` of the board: the grid and last move as a value. */
    method Snapshot() returns (s: BoardState)
      requires Shaped()
      ensures s == State()
    {
      var g: seq<seq<int>> := [];
      for r := 0 to rows
        invariant g == grid[..r]
      {
        var line: seq<int> := [];
        for c := 0 to cols
          invariant line == grid[r][..c]
        {
          line := line + [cells[r, c]];
        }
        assert line == grid[r];
        assert grid[..r + 1] == grid[..r] + [grid[r]];
        g := g + [line];
      }
      assert g == grid;
      s := BoardState(rows, cols, g, lastMove);
    }

    /**
     * `drop_piece`: fails and changes nothing on an invalid column; otherwise
     * scans up from the bottom row to the first empty cell, fills it and
     * records it as the last move.
     */
    method DropPiece(col: int, player: int) returns (ok: bool)
      requires Shaped()
      modifies this, cells
      ensures Shaped()
      ensures ok == old(State()).IsValidMove(col)
      ensures State() == old(State()).Drop(col, player)
      ensures old(State()).Valid() && (player == 1 || player == 2) ==> Valid()
    {
      if !IsValidMove(col) {
        return false;
      }
      var row := rows - 1;
      while cells[row, col] != EMPTY
        invariant 0 <= row < rows
        invariant forall k :: row < k < rows ==> cells[k, col] != EMPTY
        decreases row
      {
        row := row - 1;
      }
      ghost var before := State();
      cells[row, col] := player;
      lastMove := Some(Pos(row, col));
      grid := grid[row := grid[row][col := player]];
      ok := true;
      assert before.Landing(col, rows - 1) == row;
      if before.Valid() && (player == 1 || player == 2) {
        DropPreservesValid(before, col, player);
      }
    }

    /**
     * One axis of `check_win`: walk offsets lo .. hi-1 from (row, col) along
     * `d`, counting consecutive cells that hold `player`; any other cell
     * (or one off the board) resets the count, and a count of four is a win.
     */
    method ScanLine(row: int, col: int, d: Dir, lo: int, hi: int, player: int) returns (found: bool)
      requires Shaped()
      requires -3 <= lo <= hi <= 4
      requires forall i :: -3 <= i < lo || hi <= i < 4 ==> !State().MatchesAt(row, col, d, i, player)
      ensures found == State().LineWin(row, col, d, player)
    {
      ghost var s := State();
      var count := 0;
      ScanStart(s, row, col, d, player, lo);
      for i := lo to hi
        invariant s.Scanned(row, col, d, player, i, count)
      {
        var r := row + Steps(i, d.DRow());
        var c := col + Steps(i, d.DCol());
        if 0 <= r < rows && 0 <= c < cols && cells[r, c] == player {
          assert s.MatchesAt(row, col, d, i, player);
          ScanHit(s, row, col, d, player, i, count);
          count := count + 1;
          if count == 4 {
            return true;
          }
        } else {
          assert !s.MatchesAt(row, col, d, i, player);
          ScanMiss(s, row, col, d, player, i, count);
          count := 0;
        }
      }
      ScanEnd(s, row, col, d, player, hi, count);
      return false;
    }

    /**
     * `check_win`: the horizontal and vertical scans walk the columns / rows
     * within three of the anchor clipped to the board; the diagonal scans
     * walk offsets -3 .. 3 and treat off-board cells as breaks.
     */
    method CheckWin(row: int, col: int, player: int) returns (win: bool)
      requires Shaped() && 0 <= row < rows && 0 <= col < cols
      ensures win == State().WinAt(row, col, player)
    {
      win := ScanLine(row, col, Horizontal, Max(0, col - 3) - col, Min(col + 4, cols) - col, player);
      if win {
        return;
      }
      win := ScanLine(row, col, Vertical, Max(0, row - 3) - row, Min(row + 4, rows) - row, player);
      if win {
        return;
      }
      win := ScanLine(row, col, Rising, -3, 4, player);
      if win {
        return;
      }
      win := ScanLine(row, col, Falling, -3, 4, player);
    }

    /**
     * `is_winner`: false before any move, else `check_win` at the last move,
     * which `drop_piece` always records on the board.
     */
    method IsWinner(player: int) returns (win: bool)
      requires Shaped() && (lastMove.Some? ==> State().InBounds(lastMove.value.row, lastMove.value.col))
      ensures win == State().IsWinner(player)
    {
      if lastMove.None? {
        return false;
      }
      var m := lastMove.value;
      win := CheckWin(m.row, m.col, player);
    }
  }
}
