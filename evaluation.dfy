/**
 * The static evaluation used by the minimax engine at its leaves: three
 * points per token of `player` in the centre column, plus a score for every
 * window of four consecutive cells in the four line families.
 *
 * `PositionScore` is the evaluation as a sum, family by family, and
 * `EvaluatePosition` keeps the nested loops of the program and is proved to
 * compute it.
 */
module Evaluation {
  import opened Wrappers
  import opened Boards

  /** The other player: 1 when `player` is 2, else 2. */
  function Opponent(player: int): (o: int)
    ensures o == 1 || o == 2
    ensures player == 1 || player == 2 ==> o == 3 - player
  {
    if player == 2 then 1 else 2
  }

  /** `list.count(x)` */
  function Count(w: seq<Option<int>>, x: Option<int>): (n: nat)
    ensures n <= |w|
  {
    if w == [] then 0 else (if w[0] == x then 1 else 0) + Count(w[1..], x)
  }

  /** `_evaluate_window`: score of four cells for `player` against `opponent`. */
  function WindowScore(w: seq<Option<int>>, player: int, opponent: int): int {
    var mine := Count(w, Some(player));
    var theirs := Count(w, Some(opponent));
    var empty := Count(w, Some(EMPTY));
    if mine == 4 then 100
    else if mine == 3 && empty == 1 then 5
    else if mine == 2 && empty == 2 then 2
    else if theirs == 3 && empty == 1 then -4
    else 0
  }

  /** `max(0, n - 3)`: how many windows of four fit in a line of `n` cells. */
  function Span(n: int): nat {
    if n < 3 then 0 else n - 3
  }

  /**
   * The four families of windows, each walked as an outer and an inner
   * loop: horizontal (outer row, inner column), vertical (outer column, inner
   * row), the diagonal going down-right from (row, column) and the diagonal
   * going up-right from it.
   */
  datatype Family = HorizontalWindows | VerticalWindows | PositiveDiagonals | NegativeDiagonals
  {
    /** First value of the outer loop. */
    function OuterLo(): int {
      if this == NegativeDiagonals then 3 else 0
    }

    /** End (exclusive) of the outer loop. */
    function OuterHi(b: BoardState): int {
      match this
      case HorizontalWindows => b.rows
      case VerticalWindows => b.cols
      case PositiveDiagonals => Span(b.rows)
      case NegativeDiagonals => Max(3, b.rows)
    }

    /** End (exclusive) of the inner loop, which starts at 0. */
    function InnerHi(b: BoardState): nat {
      if this == VerticalWindows then Span(b.rows) else Span(b.cols)
    }
  }

  /** The four cells of one window, read with `get_cell`. */
  function WindowAt(b: BoardState, f: Family, outer: int, inner: int): (w: seq<Option<int>>)
    requires b.Shaped()
    ensures |w| == 4
  {
    match f
    case HorizontalWindows =>
      [b.GetCell(outer, inner), b.GetCell(outer, inner + 1), b.GetCell(outer, inner + 2), b.GetCell(outer, inner + 3)]
    case VerticalWindows =>
      [b.GetCell(inner, outer), b.GetCell(inner + 1, outer), b.GetCell(inner + 2, outer), b.GetCell(inner + 3, outer)]
    case PositiveDiagonals =>
      [b.GetCell(outer, inner), b.GetCell(outer + 1, inner + 1), b.GetCell(outer + 2, inner + 2), b.GetCell(outer + 3, inner + 3)]
    case NegativeDiagonals =>
      [b.GetCell(outer, inner), b.GetCell(outer - 1, inner + 1), b.GetCell(outer - 2, inner + 2), b.GetCell(outer - 3, inner + 3)]
  }

  /** The scores of the windows `outer`, 0 .. n-1 of a family. */
  function InnerSum(b: BoardState, player: int, opponent: int, f: Family, outer: int, n: int): int
    requires b.Shaped()
    decreases n
  {
    if n <= 0 then 0
    else InnerSum(b, player, opponent, f, outer, n - 1) + WindowScore(WindowAt(b, f, outer, n - 1), player, opponent)
  }

  /** The scores of all windows of a family whose outer index lies in lo .. hi-1. */
  function OuterSum(b: BoardState, player: int, opponent: int, f: Family, lo: int, hi: int): int
    requires b.Shaped()
    decreases hi - lo
  {
    if hi <= lo then 0
    else OuterSum(b, player, opponent, f, lo, hi - 1) + InnerSum(b, player, opponent, f, hi - 1, f.InnerHi(b))
  }

  /** The scores of all windows of a family. */
  function FamilySum(b: BoardState, player: int, opponent: int, f: Family): int
    requires b.Shaped()
  {
    OuterSum(b, player, opponent, f, f.OuterLo(), f.OuterHi(b))
  }

  /** The centre column, top to bottom. */
  function CenterColumn(b: BoardState): (column: seq<Option<int>>)
    requires b.Shaped()
    ensures |column| == b.rows
  {
    seq(b.rows, r => b.GetCell(r, b.cols / 2))
  }

  /** `evaluate_position` as a sum: the centre bonus plus every window's score. */
  function PositionScore(b: BoardState, player: int): int
    requires b.Shaped()
  {
    var opponent := Opponent(player);
    Count(CenterColumn(b), Some(player)) * 3
      + FamilySum(b, player, opponent, HorizontalWindows)
      + FamilySum(b, player, opponent, VerticalWindows)
      + FamilySum(b, player, opponent, PositiveDiagonals)
      + FamilySum(b, player, opponent, NegativeDiagonals)
  }

  /** `evaluate_position`: the centre column, then the loops of each family in turn. */
  method EvaluatePosition(b: BoardState, player: int) returns (score: int)
    requires b.Shaped()
    ensures score == PositionScore(b, player)
  {
    score := 0;
    var opponent := Opponent(player);
    var centerCount := Count(CenterColumn(b), Some(player));
    score := score + centerCount * 3;
    var horizontal := FamilyScore(b, player, opponent, HorizontalWindows);
    score := score + horizontal;
    var vertical := FamilyScore(b, player, opponent, VerticalWindows);
    score := score + vertical;
    var positive := FamilyScore(b, player, opponent, PositiveDiagonals);
    score := score + positive;
    var negative := FamilyScore(b, player, opponent, NegativeDiagonals);
    score := score + negative;
  }

  /**
   * The nested loops of one family in `evaluate_position`: every window of the
   * family, outer index by outer index, adds its score.
   */
  method FamilyScore(b: BoardState, player: int, opponent: int, f: Family) returns (sum: int)
    requires b.Shaped()
    ensures sum == FamilySum(b, player, opponent, f)
  {
    sum := 0;
    var lo, hi := f.OuterLo(), f.OuterHi(b);
    for outer := lo to hi
      invariant sum == OuterSum(b, player, opponent, f, lo, outer)
    {
      var line := LineScore(b, player, opponent, f, outer);
      OuterSumStep(b, player, opponent, f, lo, outer);
      sum := sum + line;
    }
  }

  /** Extending the outer range by one index adds that index's line of windows. */
  lemma OuterSumStep(b: BoardState, player: int, opponent: int, f: Family, lo: int, hi: int)
    requires b.Shaped() && lo <= hi
    ensures OuterSum(b, player, opponent, f, lo, hi + 1)
      == OuterSum(b, player, opponent, f, lo, hi) + InnerSum(b, player, opponent, f, hi, f.InnerHi(b))
  {
  }

  /** The inner loop of one family: the windows at one outer index, in order. */
  method LineScore(b: BoardState, player: int, opponent: int, f: Family, outer: int) returns (sum: int)
    requires b.Shaped()
    ensures sum == InnerSum(b, player, opponent, f, outer, f.InnerHi(b))
  {
    sum := 0;
    for inner := 0 to f.InnerHi(b)
      invariant sum == InnerSum(b, player, opponent, f, outer, inner)
    {
      var window := WindowAt(b, f, outer, inner);
      sum := sum + WindowScore(window, player, opponent);
    }
  }

  // ----- Window scores -----

  /** Cells equal to distinct values are counted apart: the three counts never exceed the window. */
  lemma {:induction false} CountsDisjoint(w: seq<Option<int>>, x: Option<int>, y: Option<int>, z: Option<int>)
    requires x != y && y != z && x != z
    ensures Count(w, x) + Count(w, y) + Count(w, z) <= |w|
  {
    if w != [] {
      CountsDisjoint(w[1..], x, y, z);
    }
  }

  /** A cell that holds a token or is empty. */
  predicate IsToken(x: Option<int>) {
    x == Some(EMPTY) || x == Some(1) || x == Some(2)
  }

  /**
   * When every cell holds 0, 1 or 2, the counts of the player, of the
   * opponent and of the empty cell split the window exactly.
   */
  lemma {:induction false} CountsPartition(w: seq<Option<int>>, player: int)
    requires player == 1 || player == 2
    requires forall k :: 0 <= k < |w| ==> IsToken(w[k])
    ensures Count(w, Some(player)) + Count(w, Some(Opponent(player))) + Count(w, Some(EMPTY)) == |w|
  {
    if w != [] {
      assert forall k :: 0 <= k < |w| - 1 ==> w[1..][k] == w[k + 1];
      CountsPartition(w[1..], player);
    }
  }

  /**
   * A window scores one of five values: a win (100), a three with a gap (5),
   * a two with two gaps (2), an opponent's three with a gap (-4), or nothing.
   */
  lemma WindowScoreValues(w: seq<Option<int>>, player: int, opponent: int)
    ensures WindowScore(w, player, opponent) in {100, 5, 2, -4, 0}
  {
  }

  /**
   * In a window of four, with the players and the empty cell distinct, a
   * positive score means the opponent holds none of it, and a negative one
   * that the player holds none of it.
   */
  lemma WindowScoreOwnership(w: seq<Option<int>>, player: int, opponent: int)
    requires |w| == 4 && player != opponent && player != EMPTY && opponent != EMPTY
    ensures WindowScore(w, player, opponent) > 0 ==> Count(w, Some(opponent)) == 0
    ensures WindowScore(w, player, opponent) < 0 ==> Count(w, Some(player)) == 0
    ensures Count(w, Some(player)) > 0 && Count(w, Some(opponent)) > 0 ==> WindowScore(w, player, opponent) == 0
  {
    CountsDisjoint(w, Some(player), Some(opponent), Some(EMPTY));
  }

  /** The opponent's three-with-a-gap that costs the player 4 is the threat worth 5 to the opponent. */
  lemma ThreatSymmetry(w: seq<Option<int>>, player: int, opponent: int)
    requires |w| == 4 && player != opponent && player != EMPTY && opponent != EMPTY
    ensures WindowScore(w, player, opponent) == -4 <==> WindowScore(w, opponent, player) == 5
  {
    CountsDisjoint(w, Some(player), Some(opponent), Some(EMPTY));
  }

  // ----- Windows on the board -----

  /** Every window the loops visit lies on the board: its four cells hold values. */
  lemma WindowOnBoard(b: BoardState, f: Family, outer: int, inner: int)
    requires b.Shaped()
    requires f.OuterLo() <= outer < f.OuterHi(b) && 0 <= inner < f.InnerHi(b)
    ensures forall k :: 0 <= k < 4 ==> WindowAt(b, f, outer, inner)[k].Some?
  {
  }

  /**
   * On a reachable board every window the loops visit is made of the
   * player's, the opponent's and empty cells: the three counts add up to 4.
   */
  lemma WindowCountsPartition(b: BoardState, f: Family, outer: int, inner: int, player: int)
    requires b.Valid() && (player == 1 || player == 2)
    requires f.OuterLo() <= outer < f.OuterHi(b) && 0 <= inner < f.InnerHi(b)
    ensures var w := WindowAt(b, f, outer, inner);
      Count(w, Some(player)) + Count(w, Some(Opponent(player))) + Count(w, Some(EMPTY)) == 4
  {
    var w := WindowAt(b, f, outer, inner);
    WindowOnBoard(b, f, outer, inner);
    forall k | 0 <= k < 4 ensures IsToken(w[k]) {
      assert w[k].Some? && 0 <= w[k].value <= 2;
    }
    CountsPartition(w, player);
  }

  /** A window of empty cells scores nothing. */
  lemma {:induction false} EmptyWindowCounts(w: seq<Option<int>>, x: Option<int>)
    requires forall k :: 0 <= k < |w| ==> w[k] == Some(EMPTY)
    requires x != Some(EMPTY)
    ensures Count(w, x) == 0 && Count(w, Some(EMPTY)) == |w|
  {
    if w != [] {
      EmptyWindowCounts(w[1..], x);
    }
  }

  /** Every window of the empty board scores 0. */
  lemma EmptyWindowScore(b: BoardState, player: int, f: Family, outer: int, inner: int)
    requires b.Shaped() && b == EmptyBoard(b.rows, b.cols) && player != EMPTY && Opponent(player) != EMPTY
    requires f.OuterLo() <= outer < f.OuterHi(b) && 0 <= inner < f.InnerHi(b)
    ensures WindowScore(WindowAt(b, f, outer, inner), player, Opponent(player)) == 0
  {
    var w := WindowAt(b, f, outer, inner);
    WindowOnBoard(b, f, outer, inner);
    EmptyWindowCounts(w, Some(player));
    EmptyWindowCounts(w, Some(Opponent(player)));
  }

  lemma {:induction false} EmptyInnerSum(b: BoardState, player: int, f: Family, outer: int, n: int)
    requires b.Shaped() && b == EmptyBoard(b.rows, b.cols) && player != EMPTY && Opponent(player) != EMPTY
    requires f.OuterLo() <= outer < f.OuterHi(b) && n <= f.InnerHi(b)
    decreases n
    ensures InnerSum(b, player, Opponent(player), f, outer, n) == 0
  {
    if n > 0 {
      EmptyInnerSum(b, player, f, outer, n - 1);
      EmptyWindowScore(b, player, f, outer, n - 1);
    }
  }

  lemma {:induction false} EmptyOuterSum(b: BoardState, player: int, f: Family, hi: int)
    requires b.Shaped() && b == EmptyBoard(b.rows, b.cols) && player != EMPTY && Opponent(player) != EMPTY
    requires hi <= f.OuterHi(b)
    decreases hi - f.OuterLo()
    ensures OuterSum(b, player, Opponent(player), f, f.OuterLo(), hi) == 0
  {
    if hi > f.OuterLo() {
      EmptyOuterSum(b, player, f, hi - 1);
      EmptyInnerSum(b, player, f, hi - 1, f.InnerHi(b));
    }
  }

  /** The empty board is even: it scores 0 for either player. */
  lemma EmptyBoardScoresZero(rows: nat, cols: nat, player: int)
    requires rows >= 1 && cols >= 1 && (player == 1 || player == 2)
    ensures PositionScore(EmptyBoard(rows, cols), player) == 0
  {
    var b := EmptyBoard(rows, cols);
    EmptyWindowCounts(CenterColumn(b), Some(player));
    EmptyOuterSum(b, player, HorizontalWindows, b.rows);
    EmptyOuterSum(b, player, VerticalWindows, b.cols);
    EmptyOuterSum(b, player, PositiveDiagonals, Span(b.rows));
    EmptyOuterSum(b, player, NegativeDiagonals, Max(3, b.rows));
  }

  // ----- Bounds -----

  lemma {:induction false} InnerSumBounds(b: BoardState, player: int, opponent: int, f: Family, outer: int, n: nat)
    requires b.Shaped()
    ensures -4 * n <= InnerSum(b, player, opponent, f, outer, n) <= 100 * n
  {
    if n > 0 {
      InnerSumBounds(b, player, opponent, f, outer, n - 1);
      WindowScoreValues(WindowAt(b, f, outer, n - 1), player, opponent);
    }
  }

  /** Adding a line of `m` windows to `k - 1` lines keeps the per-window bounds. */
  lemma BoundStep(before: int, line: int, k: int, m: int)
    requires -4 * ((k - 1) * m) <= before <= 100 * ((k - 1) * m)
    requires -4 * m <= line <= 100 * m
    ensures -4 * (k * m) <= before + line <= 100 * (k * m)
  {
    assert k * m == (k - 1) * m + m;
  }

  lemma {:induction false} OuterSumBounds(b: BoardState, player: int, opponent: int, f: Family, lo: int, k: nat)
    requires b.Shaped()
    ensures -4 * (k * f.InnerHi(b)) <= OuterSum(b, player, opponent, f, lo, lo + k) <= 100 * (k * f.InnerHi(b))
  {
    if k > 0 {
      var m := f.InnerHi(b);
      OuterSumBounds(b, player, opponent, f, lo, k - 1);
      InnerSumBounds(b, player, opponent, f, lo + k - 1, m);
      OuterSumStep(b, player, opponent, f, lo, lo + k - 1);
      BoundStep(OuterSum(b, player, opponent, f, lo, lo + k - 1), InnerSum(b, player, opponent, f, lo + k - 1, m), k, m);
    }
  }

  /** How many windows the four families hold together. */
  function WindowCount(b: BoardState): nat {
    b.rows * Span(b.cols) + b.cols * Span(b.rows) + Span(b.rows) * Span(b.cols) + Span(b.rows) * Span(b.cols)
  }

  /** The windows of one family: the outer loop's length times the inner loop's. */
  function FamilySize(b: BoardState, f: Family): int {
    (f.OuterHi(b) - f.OuterLo()) * f.InnerHi(b)
  }

  /**
   * `WindowCount` is the number of windows the four families visit:
   * rows * (cols - 3) + cols * (rows - 3) + 2 * (rows - 3) * (cols - 3) on a
   * board of at least four rows and columns, 69 on the standard 6 x 7 board.
   */
  lemma WindowCountOfFamilies(b: BoardState)
    ensures WindowCount(b) == FamilySize(b, HorizontalWindows) + FamilySize(b, VerticalWindows)
      + FamilySize(b, PositiveDiagonals) + FamilySize(b, NegativeDiagonals)
    ensures b.rows >= 3 && b.cols >= 3 ==>
      WindowCount(b) == b.rows * (b.cols - 3) + b.cols * (b.rows - 3) + 2 * (b.rows - 3) * (b.cols - 3)
    ensures b.rows == 6 && b.cols == 7 ==> WindowCount(b) == 69
  {
    var r, c := Span(b.rows), Span(b.cols);
    assert FamilySize(b, HorizontalWindows) == b.rows * c;
    assert FamilySize(b, VerticalWindows) == b.cols * r;
    assert FamilySize(b, PositiveDiagonals) == r * c;
    assert Max(3, b.rows) - 3 == r;
    assert FamilySize(b, NegativeDiagonals) == r * c;
  }

  /**
   * Each window adds between -4 and 100, and the centre bonus between 0 and
   * three points per row, so the evaluation stays far inside the +-1000000
   * that minimax gives to won positions on a standard board.
   */
  lemma ScoreBounds(b: BoardState, player: int)
    requires b.Shaped()
    ensures -4 * WindowCount(b) <= PositionScore(b, player) <= 3 * b.rows + 100 * WindowCount(b)
  {
    var o := Opponent(player);
    OuterSumBounds(b, player, o, HorizontalWindows, 0, b.rows);
    OuterSumBounds(b, player, o, VerticalWindows, 0, b.cols);
    OuterSumBounds(b, player, o, PositiveDiagonals, 0, Span(b.rows));
    OuterSumBounds(b, player, o, NegativeDiagonals, 3, Span(b.rows));
    assert Max(3, b.rows) == 3 + Span(b.rows);
  }
}
