/**
 * Alpha-beta minimax over board copies, with a history table that orders the
 * moves and is rewarded on every cutoff, and the iterative-deepening wrapper.
 *
 * `MinimaxValue` is the unpruned game-tree value, player 2 maximizing.  The
 * search methods keep the program's loops and are proved fail-soft against
 * it: a score inside the (alpha, beta) window is the exact value, one at or
 * below alpha is an upper bound and one at or above beta a lower bound.  With
 * the full window the search is therefore exact, whatever order the history
 * table puts the moves in.
 */
module Minimax {
  import opened Wrappers
  import opened Boards
  import opened Evaluation

  /** The score of a won position. */
  const WIN: int := 1000000

  /** The factor `decay_history_scores` applies. */
  const DECAY: real := 0.95

  // ----- Scores with infinities -----

  /** A score, or one of the infinities that open the search window. */
  datatype Ext = NegInf | Fin(n: int) | PosInf

  predicate Lt(x: Ext, y: Ext) {
    match (x, y)
    case (NegInf, NegInf) => false
    case (NegInf, _) => true
    case (Fin(a), Fin(b)) => a < b
    case (Fin(_), PosInf) => true
    case _ => false
  }

  predicate Le(x: Ext, y: Ext) {
    x == y || Lt(x, y)
  }

  function MaxE(x: Ext, y: Ext): (m: Ext)
    ensures Le(x, m) && Le(y, m) && (m == x || m == y)
  {
    if Lt(x, y) then y else x
  }

  function MinE(x: Ext, y: Ext): (m: Ext)
    ensures Le(m, x) && Le(m, y) && (m == x || m == y)
  {
    if Lt(y, x) then y else x
  }

  /**
   * The fail-soft contract of an alpha-beta search that returned `r` for a
   * position whose true value is `v`, searched with window (alpha, beta).
   */
  predicate FailSoft(r: Ext, v: int, alpha: Ext, beta: Ext) {
    && (Le(r, alpha) ==> Le(Fin(v), r))
    && (Lt(alpha, r) && Lt(r, beta) ==> r == Fin(v))
    && (Le(beta, r) ==> Le(r, Fin(v)))
  }

  /** Inside the full window a fail-soft score is the exact value. */
  lemma FullWindowIsExact(r: Ext, v: int)
    requires r.Fin? && FailSoft(r, v, NegInf, PosInf)
    ensures r == Fin(v)
  {
  }

  /** A score at or above beta that is at most the value is a fail-soft lower bound. */
  lemma FailSoftHigh(r: Ext, v: int, alpha: Ext, beta: Ext)
    requires Lt(alpha, beta) && Le(beta, r) && r.Fin? && r.n <= v
    ensures FailSoft(r, v, alpha, beta)
  {
  }

  /** A score at or below alpha that is at least the value is a fail-soft upper bound. */
  lemma FailSoftLow(r: Ext, v: int, alpha: Ext, beta: Ext)
    requires Lt(alpha, beta) && Le(r, alpha) && r.Fin? && v <= r.n
    ensures FailSoft(r, v, alpha, beta)
  {
  }

  /** A maximizing score below beta that bounds the value, and equals it above alpha, is fail-soft. */
  lemma FailSoftMaxExhausted(r: Ext, v: int, alpha: Ext, beta: Ext)
    requires r.Fin? && Lt(MaxE(alpha, r), beta) && v <= r.n && (Lt(alpha, r) ==> r.n <= v)
    ensures FailSoft(r, v, alpha, beta)
  {
  }

  /** A minimizing score above alpha that bounds the value, and equals it below beta, is fail-soft. */
  lemma FailSoftMinExhausted(r: Ext, v: int, alpha: Ext, beta: Ext)
    requires r.Fin? && Lt(alpha, MinE(beta, r)) && r.n <= v && (Lt(r, beta) ==> v <= r.n)
    ensures FailSoft(r, v, alpha, beta)
  {
  }

  // ----- The game tree -----

  /** The token the side to move drops: 2 (the engine) when maximizing, else 1. */
  function Mover(maximizing: bool): int {
    if maximizing then 2 else 1
  }

  /** The positions where the search stops at any depth: a win for either side, or a full board. */
  predicate Decided(b: BoardState)
    requires b.Shaped()
  {
    b.IsWinner(2) || b.IsWinner(1) || b.IsFull()
  }

  /**
   * The unpruned minimax value: wins score +-1000000 (player 2 checked
   * first), a full board or depth 0 scores the evaluation for player 2, and
   * otherwise the best child value for the side to move.  Each child has one
   * empty cell fewer, so a negative depth searches to the end of the game.
   */
  function MinimaxValue(b: BoardState, depth: int, maximizing: bool): int
    requires b.Shaped()
    decreases b.EmptyCount(), 2, 0
  {
    if b.IsWinner(2) then WIN
    else if b.IsWinner(1) then -WIN
    else if b.IsFull() || depth == 0 then PositionScore(b, 2)
    else
      FullIffTopRowOccupied(b);
      BestChild(b, depth, maximizing, b.GetValidMoves())
  }

  /**
   * The value of playing `col`.  It is `ValueAfter`, kept as a step of its
   * own so that reasoning about the order in which moves are tried does not
   * have to look at the board update.
   */
  function ChildValue(b: BoardState, col: int, depth: int, maximizing: bool): int
    requires b.Shaped() && b.IsValidMove(col)
    decreases b.EmptyCount(), 0, 1
  {
    ValueAfter(b, col, depth, maximizing)
  }

  /** The side to move drops its token into `col` and the other side replies, one level deeper. */
  function ValueAfter(b: BoardState, col: int, depth: int, maximizing: bool): int
    requires b.Shaped() && b.IsValidMove(col)
    decreases b.EmptyCount(), 0, 0
  {
    DropFillsOne(b, col, Mover(maximizing));
    MinimaxValue(b.Drop(col, Mover(maximizing)), depth - 1, !maximizing)
  }

  /** The largest (maximizing) or smallest child value over `moves`. */
  function BestChild(b: BoardState, depth: int, maximizing: bool, moves: seq<int>): int
    requires b.Shaped() && |moves| > 0 && forall m :: m in moves ==> b.IsValidMove(m)
    decreases b.EmptyCount(), 1, |moves|
  {
    var v := ChildValue(b, moves[0], depth, maximizing);
    if |moves| == 1 then v
    else
      var rest := BestChild(b, depth, maximizing, moves[1..]);
      if maximizing then Max(v, rest) else Min(v, rest)
  }

  /** `BestChild` is the value of one of the moves, and no move does better for the side to move. */
  lemma {:induction false} BestChildIsOptimal(b: BoardState, depth: int, maximizing: bool, moves: seq<int>)
    requires b.Shaped() && |moves| > 0 && forall m :: m in moves ==> b.IsValidMove(m)
    decreases |moves|
    ensures forall m :: m in moves ==>
      if maximizing then ChildValue(b, m, depth, maximizing) <= BestChild(b, depth, maximizing, moves)
      else BestChild(b, depth, maximizing, moves) <= ChildValue(b, m, depth, maximizing)
    ensures exists m :: m in moves && ChildValue(b, m, depth, maximizing) == BestChild(b, depth, maximizing, moves)
  {
    assert moves[0] in moves;
    if |moves| > 1 {
      BestChildIsOptimal(b, depth, maximizing, moves[1..]);
      var w :| w in moves[1..] && ChildValue(b, w, depth, maximizing) == BestChild(b, depth, maximizing, moves[1..]);
      assert w in moves;
      forall m | m in moves
        ensures m == moves[0] || m in moves[1..]
      {
        if m != moves[0] {
          var i :| 0 <= i < |moves| && moves[i] == m;
          assert moves[1..][i - 1] == m;
        }
      }
    }
  }

  /** Every position a game on these dimensions can reach shares the evaluation bound of `ScoreBounds`. */
  predicate EvaluationBelowWin(b: BoardState) {
    3 * b.rows + 100 * WindowCount(b) < WIN
  }

  /**
   * When the evaluation cannot reach the win score (as on the standard 6 x 7
   * board, whose 69 windows bound it by 6918), minimax values lie in
   * [-1000000, 1000000].
   */
  lemma {:induction false} ValueWithinWin(b: BoardState, depth: int, maximizing: bool)
    requires b.Shaped() && EvaluationBelowWin(b)
    decreases b.EmptyCount(), 2, 0
    ensures -WIN <= MinimaxValue(b, depth, maximizing) <= WIN
  {
    if b.IsWinner(2) || b.IsWinner(1) {
    } else if b.IsFull() || depth == 0 {
      ScoreBounds(b, 2);
    } else {
      FullIffTopRowOccupied(b);
      BestChildWithinWin(b, depth, maximizing, b.GetValidMoves());
    }
  }

  lemma {:induction false} BestChildWithinWin(b: BoardState, depth: int, maximizing: bool, moves: seq<int>)
    requires b.Shaped() && EvaluationBelowWin(b)
    requires |moves| > 0 && forall m :: m in moves ==> b.IsValidMove(m)
    decreases b.EmptyCount(), 1, |moves|
    ensures -WIN <= BestChild(b, depth, maximizing, moves) <= WIN
  {
    var p := Mover(maximizing);
    DropFillsOne(b, moves[0], p);
    ValueWithinWin(b.Drop(moves[0], p), depth - 1, !maximizing);
    assert ChildValue(b, moves[0], depth, maximizing) == MinimaxValue(b.Drop(moves[0], p), depth - 1, !maximizing);
    if |moves| > 1 {
      BestChildWithinWin(b, depth, maximizing, moves[1..]);
    }
  }

  // ----- The history table -----

  /** `history_scores.get(col, 0)` */
  function Weight(scores: map<int, real>, col: int): real {
    if col in scores then scores[col] else 0.0
  }

  /** `2 ** n`, which Python makes a fraction for negative n. */
  function Pow2(n: int): (p: real)
    decreases if n < 0 then -n else n
    ensures p > 0.0
  {
    if n == 0 then 1.0 else if n > 0 then 2.0 * Pow2(n - 1) else Pow2(n + 1) / 2.0
  }

  /** The process-wide column -> weight table of the history heuristic. */
  class HistoryTable {
    var scores: map<int, real>

    /** The table as loaded at start-up. */
    constructor (initial: map<int, real>)
      ensures scores == initial
    {
      scores := initial;
    }

    /** The cutoff reward: the column's weight (0 when absent) rises by 2^depth. */
    method Reward(col: int, depth: int)
      modifies this
      ensures scores == old(scores)[col := Weight(old(scores), col) + Pow2(depth)]
      ensures Weight(scores, col) > Weight(old(scores), col)
      ensures forall c :: c != col ==> Weight(scores, c) == Weight(old(scores), c)
      ensures NoWeightFell(old(scores), scores)
    {
      scores := scores[col := Weight(scores, col) + Pow2(depth)];
    }

    /** `decay_history_scores`: every entry is multiplied by 0.95; no key is added or removed. */
    method Decay()
      modifies this
      ensures scores.Keys == old(scores).Keys
      ensures forall c :: c in scores ==> scores[c] == old(scores)[c] * DECAY
      ensures forall c :: Weight(scores, c) == Weight(old(scores), c) * DECAY
    {
      var todo := scores.Keys;
      while todo != {}
        invariant todo <= scores.Keys && scores.Keys == old(scores).Keys
        invariant forall c :: c in todo ==> scores[c] == old(scores)[c]
        invariant forall c :: c in scores && c !in todo ==> scores[c] == old(scores)[c] * DECAY
        decreases todo
      {
        SomeKey(todo);
        var c :| c in todo;
        scores := scores[c := scores[c] * DECAY];
        todo := todo - {c};
      }
    }
  }

  /** No weight of the table fell between `before` and `after`. */
  ghost predicate NoWeightFell(before: map<int, real>, after: map<int, real>) {
    forall c :: Weight(before, c) <= Weight(after, c)
  }

  lemma NoWeightFellTrans(a: map<int, real>, b: map<int, real>, c: map<int, real>)
    requires NoWeightFell(a, b) && NoWeightFell(b, c)
    ensures NoWeightFell(a, c)
  {
  }

  /** A set that is not empty has an element. */
  lemma SomeKey(s: set<int>)
    ensures s == {} || exists c :: c in s
  {
    if forall c :: c !in s {
      assert s == {};
    }
  }

  // ----- Move ordering -----

  /** The order the sorted candidates must follow: higher weight first, ties by ascending column. */
  predicate Before(scores: map<int, real>, a: int, b: int) {
    Weight(scores, a) > Weight(scores, b) || (Weight(scores, a) == Weight(scores, b) && a < b)
  }

  predicate OrderedBy(scores: map<int, real>, s: seq<int>) {
    forall i, j :: 0 <= i < j < |s| ==> Before(scores, s[i], s[j])
  }

  predicate Ascending(s: seq<int>) {
    forall i, j :: 0 <= i < j < |s| ==> s[i] < s[j]
  }

  /** Inserts `x` after every element whose weight is at least its own. */
  function Insert(scores: map<int, real>, x: int, sorted: seq<int>): (r: seq<int>)
    ensures multiset(r) == multiset(sorted) + multiset{x}
  {
    if sorted == [] then [x]
    else if Weight(scores, sorted[0]) >= Weight(scores, x) then
      assert sorted == [sorted[0]] + sorted[1..];
      [sorted[0]] + Insert(scores, x, sorted[1..])
    else [x] + sorted
  }

  /**
   * `move_scores.sort(key=weight, reverse=True)`: a stable sort by
   * descending history weight, which keeps equal-weight moves in their
   * original order.
   */
  function SortByWeight(scores: map<int, real>, moves: seq<int>): (r: seq<int>)
    ensures multiset(r) == multiset(moves)
  {
    if moves == [] then []
    else
      assert moves == moves[..|moves| - 1] + [moves[|moves| - 1]];
      Insert(scores, moves[|moves| - 1], SortByWeight(scores, moves[..|moves| - 1]))
  }

  /** A head that comes before every element of an ordered tail keeps the sequence ordered. */
  lemma ConsOrdered(scores: map<int, real>, head: int, tail: seq<int>)
    requires OrderedBy(scores, tail) && forall y :: y in tail ==> Before(scores, head, y)
    ensures OrderedBy(scores, [head] + tail)
  {
    forall i, j | 0 <= i < j < |tail| + 1 ensures Before(scores, ([head] + tail)[i], ([head] + tail)[j]) {
      assert tail[j - 1] in tail;
    }
  }

  lemma {:induction false} InsertOrdered(scores: map<int, real>, x: int, sorted: seq<int>)
    requires OrderedBy(scores, sorted) && forall y :: y in sorted ==> y < x
    ensures OrderedBy(scores, Insert(scores, x, sorted))
  {
    if sorted == [] {
    } else if Weight(scores, sorted[0]) >= Weight(scores, x) {
      var rest := sorted[1..];
      assert forall y :: y in rest ==> y in sorted;
      InsertOrdered(scores, x, rest);
      var t := Insert(scores, x, rest);
      forall y | y in t ensures Before(scores, sorted[0], y) {
        assert y in multiset(t);
        assert sorted[0] in sorted;
        if y != x {
          var k :| 0 <= k < |rest| && rest[k] == y;
          assert sorted[k + 1] == y;
        }
      }
      ConsOrdered(scores, sorted[0], t);
    } else {
      forall y | y in sorted ensures Before(scores, x, y) {
        var k :| 0 <= k < |sorted| && sorted[k] == y;
        assert k == 0 || Before(scores, sorted[0], sorted[k]);
      }
      ConsOrdered(scores, x, sorted);
    }
  }

  /**
   * The valid moves come in ascending order, so the sort puts them in
   * descending weight with ties in ascending column order.
   */
  lemma {:induction false} SortOrdered(scores: map<int, real>, moves: seq<int>)
    requires Ascending(moves)
    ensures OrderedBy(scores, SortByWeight(scores, moves))
  {
    if moves != [] {
      var init := moves[..|moves| - 1];
      var last := moves[|moves| - 1];
      SortOrdered(scores, init);
      forall y | y in SortByWeight(scores, init) ensures y < last {
        assert y in multiset(init);
      }
      InsertOrdered(scores, last, SortByWeight(scores, init));
    }
  }

  lemma {:induction false} InsertRespectsComparisons(s1: map<int, real>, s2: map<int, real>, x: int, sorted: seq<int>)
    requires forall a, b :: Weight(s1, a) >= Weight(s1, b) <==> Weight(s2, a) >= Weight(s2, b)
    ensures Insert(s1, x, sorted) == Insert(s2, x, sorted)
  {
    if sorted != [] {
      InsertRespectsComparisons(s1, s2, x, sorted[1..]);
    }
  }

  /** The sort depends only on how weights compare, not on their size. */
  lemma {:induction false} SortRespectsComparisons(s1: map<int, real>, s2: map<int, real>, moves: seq<int>)
    requires forall a, b :: Weight(s1, a) >= Weight(s1, b) <==> Weight(s2, a) >= Weight(s2, b)
    ensures SortByWeight(s1, moves) == SortByWeight(s2, moves)
  {
    if moves != [] {
      SortRespectsComparisons(s1, s2, moves[..|moves| - 1]);
      InsertRespectsComparisons(s1, s2, moves[|moves| - 1], SortByWeight(s1, moves[..|moves| - 1]));
    }
  }

  /** Decaying the table scales every weight alike, so it never changes the move order. */
  lemma DecayKeepsOrder(before: map<int, real>, after: map<int, real>, moves: seq<int>)
    requires forall c :: Weight(after, c) == Weight(before, c) * DECAY
    ensures SortByWeight(after, moves) == SortByWeight(before, moves)
  {
    SortRespectsComparisons(before, after, moves);
  }

  // ----- The search -----

  /**
   * `minimax(board, depth, alpha, beta, maximizing_player)`: the terminal
   * checks, then the valid moves in history order, each searched on a copy
   * of the board.  The score is fail-soft with respect to `MinimaxValue`;
   * the column is absent exactly at the terminal checks and is otherwise a
   * valid move whose value is the score whenever the score lies inside the
   * window.
   */
  method Search(b: BoardState, depth: int, alpha: Ext, beta: Ext, maximizing: bool, h: HistoryTable)
    returns (value: Ext, column: Option<int>)
    requires b.Shaped()
    modifies h
    decreases b.EmptyCount(), 2
    ensures value.Fin?
    ensures Lt(alpha, beta) ==> FailSoft(value, MinimaxValue(b, depth, maximizing), alpha, beta)
    ensures column.None? <==> Decided(b) || depth == 0
    ensures column.Some? ==> b.IsValidMove(column.value)
    ensures column.Some? && Lt(alpha, value) && Lt(value, beta) ==>
      ChildValue(b, column.value, depth, maximizing) == value.n
    ensures NoWeightFell(old(h.scores), h.scores)
    ensures column.Some? && maximizing && Le(beta, MaxE(alpha, value)) ==>
      Weight(h.scores, column.value) >= Weight(old(h.scores), column.value) + Pow2(depth)
    ensures column.Some? && !maximizing && Le(MinE(beta, value), alpha) ==>
      Weight(h.scores, column.value) >= Weight(old(h.scores), column.value) + Pow2(depth)
  {
    if b.IsWinner(2) {
      return Fin(WIN), None;
    } else if b.IsWinner(1) {
      return Fin(-WIN), None;
    } else if b.IsFull() || depth == 0 {
      var score := EvaluatePosition(b, 2);
      return Fin(score), None;
    }
    var moves := b.GetValidMoves();
    FullIffTopRowOccupied(b);
    ValidFromAscending(b, 0);
    var order := SortByWeight(h.scores, moves);
    if maximizing {
      value, column := MaximizingPly(b, depth, alpha, beta, h, order);
    } else {
      value, column := MinimizingPly(b, depth, alpha, beta, h, order);
    }
  }

  /**
   * The maximizing branch: the best score so far rises, alpha follows it,
   * and once alpha reaches beta the chosen column is rewarded and the
   * remaining moves are skipped.
   */
  method MaximizingPly(b: BoardState, depth: int, alpha: Ext, beta: Ext, h: HistoryTable, order: seq<int>)
    returns (value: Ext, column: Option<int>)
    requires b.Shaped() && !b.IsFull()
    requires multiset(order) == multiset(b.GetValidMoves())
    modifies h
    decreases b.EmptyCount(), 1
    ensures value.Fin? && column.Some? && b.IsValidMove(column.value)
    ensures Lt(alpha, beta) ==> FailSoft(value, BestChild(b, depth, true, b.GetValidMoves()), alpha, beta)
    ensures Lt(alpha, value) && Lt(value, beta) ==> ChildValue(b, column.value, depth, true) == value.n
    ensures NoWeightFell(old(h.scores), h.scores)
    ensures Le(beta, MaxE(alpha, value)) ==>
      Weight(h.scores, column.value) >= Weight(old(h.scores), column.value) + Pow2(depth)
  {
    var moves := b.GetValidMoves();
    OrderIsValid(b, order);
    ghost var values := ChildValues(b, depth, true, order);
    value := NegInf;
    column := Some(order[0]);
    var a := alpha;
    for i := 0 to |order|
      invariant a == MaxE(alpha, value)
      invariant column.Some? && b.IsValidMove(column.value)
      invariant i == 0 ==> value == NegInf
      invariant i > 0 ==> value.Fin? && Lt(a, beta)
      invariant i > 0 ==> forall j :: 0 <= j < i ==> values[j] <= value.n
      invariant Lt(alpha, value) ==> ChildValue(b, column.value, depth, true) == value.n
      invariant NoWeightFell(old(h.scores), h.scores)
    {
      var col := order[i];
      ghost var before := h.scores;
      var score := SearchChild(b, col, depth, a, beta, true, h);
      NoWeightFellTrans(old(h.scores), before, h.scores);
      ChildValuesAt(b, depth, true, order, i);
      ghost var previous := value;
      if Lt(value, score) {
        value := score;
        column := Some(col);
      }
      MaxStep(alpha, beta, a, previous, score, value, values[i]);
      a := MaxE(a, value);
      if Le(beta, a) {
        ghost var before := h.scores;
        h.Reward(column.value, depth);
        NoWeightFellTrans(old(h.scores), before, h.scores);
        MaximizingCutoff(b, depth, col, moves);
        if Lt(alpha, beta) {
          FailSoftHigh(value, BestChild(b, depth, true, moves), alpha, beta);
        }
        return;
      }
      forall j | 0 <= j < i + 1 ensures values[j] <= value.n {
        if j < i {
          assert values[j] <= previous.n;
        }
      }
    }
    MaximizingExhausted(b, depth, order, value);
    MaximizingCutoff(b, depth, column.value, moves);
    FailSoftMaxExhausted(value, BestChild(b, depth, true, moves), alpha, beta);
  }

  /**
   * One step of the maximizing loop on scores alone: `v` is the value of the
   * move just searched, `score` its fail-soft result in the current window and
   * `next` the best score after it.
   */
  lemma MaxStep(alpha: Ext, beta: Ext, a: Ext, value: Ext, score: Ext, next: Ext, v: int)
    requires a == MaxE(alpha, value) && (value == NegInf || value.Fin?)
    requires score.Fin? && next == (if Lt(value, score) then score else value)
    requires Lt(a, beta) ==> FailSoft(score, v, a, beta)
    ensures next.Fin? && (value.Fin? ==> value.n <= next.n) && MaxE(a, next) == MaxE(alpha, next)
    ensures !Le(beta, MaxE(a, next)) ==>
      Lt(MaxE(a, next), beta) && v <= next.n && (Lt(value, score) && Lt(alpha, next) ==> v == next.n)
    ensures Le(beta, MaxE(a, next)) && Lt(a, beta) ==>
      next == score && Le(beta, score) && score.n <= v
  {
  }

  /**
   * One move of a ply: the side to move drops its token into `col` on a copy
   * of the board and the other side's reply is searched one level deeper.
   */
  method SearchChild(b: BoardState, col: int, depth: int, alpha: Ext, beta: Ext, maximizing: bool, h: HistoryTable)
    returns (score: Ext)
    requires b.Shaped() && b.IsValidMove(col)
    modifies h
    decreases b.EmptyCount(), 0
    ensures score.Fin?
    ensures Lt(alpha, beta) ==> FailSoft(score, ChildValue(b, col, depth, maximizing), alpha, beta)
    ensures NoWeightFell(old(h.scores), h.scores)
  {
    var child := b.Drop(col, Mover(maximizing));
    DropFillsOne(b, col, Mover(maximizing));
    var reply;
    score, reply := Search(child, depth - 1, alpha, beta, !maximizing, h);
  }

  /** Every move of a reordering of the valid moves is valid, and there is one unless the board is full. */
  lemma OrderIsValid(b: BoardState, order: seq<int>)
    requires b.Shaped() && !b.IsFull() && multiset(order) == multiset(b.GetValidMoves())
    ensures |order| > 0 && forall j :: 0 <= j < |order| ==> b.IsValidMove(order[j])
  {
    assert |order| == |multiset(order)|;
    forall j | 0 <= j < |order| ensures b.IsValidMove(order[j]) {
      assert order[j] in multiset(order);
      assert order[j] in b.GetValidMoves();
    }
  }

  /** The values of `moves`, in order. */
  function ChildValues(b: BoardState, depth: int, maximizing: bool, moves: seq<int>): (r: seq<int>)
    requires b.Shaped() && forall j :: 0 <= j < |moves| ==> b.IsValidMove(moves[j])
    ensures |r| == |moves|
  {
    if moves == [] then [] else [ChildValue(b, moves[0], depth, maximizing)] + ChildValues(b, depth, maximizing, moves[1..])
  }

  lemma {:induction false} ChildValuesAt(b: BoardState, depth: int, maximizing: bool, moves: seq<int>, j: int)
    requires b.Shaped() && forall k :: 0 <= k < |moves| ==> b.IsValidMove(moves[k])
    requires 0 <= j < |moves|
    decreases j
    ensures ChildValues(b, depth, maximizing, moves)[j] == ChildValue(b, moves[j], depth, maximizing)
  {
    if j > 0 {
      ChildValuesAt(b, depth, maximizing, moves[1..], j - 1);
    }
  }

  /** At a maximizing cutoff the score is at most the value of the move that caused it. */
  lemma MaximizingCutoff(b: BoardState, depth: int, col: int, moves: seq<int>)
    requires b.Shaped() && moves == b.GetValidMoves() && col in moves
    ensures ChildValue(b, col, depth, true) <= BestChild(b, depth, true, moves)
  {
    BestChildIsOptimal(b, depth, true, moves);
  }

  /** Once every move is searched, the best score bounds the value from above. */
  lemma MaximizingExhausted(b: BoardState, depth: int, order: seq<int>, value: Ext)
    requires b.Shaped() && !b.IsFull()
    requires multiset(order) == multiset(b.GetValidMoves())
    requires forall j :: 0 <= j < |order| ==> b.IsValidMove(order[j])
    requires value.Fin? && forall j :: 0 <= j < |order| ==> ChildValues(b, depth, true, order)[j] <= value.n
    ensures BestChild(b, depth, true, b.GetValidMoves()) <= value.n
  {
    var moves := b.GetValidMoves();
    BestChildIsOptimal(b, depth, true, moves);
    var m :| m in moves && ChildValue(b, m, depth, true) == BestChild(b, depth, true, moves);
    assert m in multiset(order);
    var j :| 0 <= j < |order| && order[j] == m;
    ChildValuesAt(b, depth, true, order, j);
  }

  /**
   * The minimizing branch: the best score so far falls, beta follows it,
   * and once alpha reaches beta the chosen column is rewarded and the
   * remaining moves are skipped.
   */
  method MinimizingPly(b: BoardState, depth: int, alpha: Ext, beta: Ext, h: HistoryTable, order: seq<int>)
    returns (value: Ext, column: Option<int>)
    requires b.Shaped() && !b.IsFull()
    requires multiset(order) == multiset(b.GetValidMoves())
    modifies h
    decreases b.EmptyCount(), 1
    ensures value.Fin? && column.Some? && b.IsValidMove(column.value)
    ensures Lt(alpha, beta) ==> FailSoft(value, BestChild(b, depth, false, b.GetValidMoves()), alpha, beta)
    ensures Lt(alpha, value) && Lt(value, beta) ==> ChildValue(b, column.value, depth, false) == value.n
    ensures NoWeightFell(old(h.scores), h.scores)
    ensures Le(MinE(beta, value), alpha) ==>
      Weight(h.scores, column.value) >= Weight(old(h.scores), column.value) + Pow2(depth)
  {
    var moves := b.GetValidMoves();
    OrderIsValid(b, order);
    ghost var values := ChildValues(b, depth, false, order);
    value := PosInf;
    column := Some(order[0]);
    var bt := beta;
    for i := 0 to |order|
      invariant bt == MinE(beta, value)
      invariant column.Some? && b.IsValidMove(column.value)
      invariant i == 0 ==> value == PosInf
      invariant i > 0 ==> value.Fin? && Lt(alpha, bt)
      invariant i > 0 ==> forall j :: 0 <= j < i ==> value.n <= values[j]
      invariant Lt(value, beta) ==> ChildValue(b, column.value, depth, false) == value.n
      invariant NoWeightFell(old(h.scores), h.scores)
    {
      var col := order[i];
      ghost var before := h.scores;
      var score := SearchChild(b, col, depth, alpha, bt, false, h);
      NoWeightFellTrans(old(h.scores), before, h.scores);
      ChildValuesAt(b, depth, false, order, i);
      ghost var previous := value;
      if Lt(score, value) {
        value := score;
        column := Some(col);
      }
      MinStep(alpha, beta, bt, previous, score, value, values[i]);
      bt := MinE(bt, value);
      if Le(bt, alpha) {
        ghost var before := h.scores;
        h.Reward(column.value, depth);
        NoWeightFellTrans(old(h.scores), before, h.scores);
        MinimizingCutoff(b, depth, col, moves);
        if Lt(alpha, beta) {
          FailSoftLow(value, BestChild(b, depth, false, moves), alpha, beta);
        }
        return;
      }
      forall j | 0 <= j < i + 1 ensures value.n <= values[j] {
        if j < i {
          assert previous.n <= values[j];
        }
      }
    }
    MinimizingExhausted(b, depth, order, value);
    MinimizingCutoff(b, depth, column.value, moves);
    FailSoftMinExhausted(value, BestChild(b, depth, false, moves), alpha, beta);
  }

  /** One step of the minimizing loop on scores alone, mirroring `MaxStep`. */
  lemma MinStep(alpha: Ext, beta: Ext, bt: Ext, value: Ext, score: Ext, next: Ext, v: int)
    requires bt == MinE(beta, value) && (value == PosInf || value.Fin?)
    requires score.Fin? && next == (if Lt(score, value) then score else value)
    requires Lt(alpha, bt) ==> FailSoft(score, v, alpha, bt)
    ensures next.Fin? && (value.Fin? ==> next.n <= value.n) && MinE(bt, next) == MinE(beta, next)
    ensures !Le(MinE(bt, next), alpha) ==>
      Lt(alpha, MinE(bt, next)) && next.n <= v && (Lt(score, value) && Lt(next, beta) ==> v == next.n)
    ensures Le(MinE(bt, next), alpha) && Lt(alpha, bt) ==>
      next == score && Le(score, alpha) && v <= score.n
  {
  }

  /** At a minimizing cutoff the score is at least the value of the move that caused it. */
  lemma MinimizingCutoff(b: BoardState, depth: int, col: int, moves: seq<int>)
    requires b.Shaped() && moves == b.GetValidMoves() && col in moves
    ensures BestChild(b, depth, false, moves) <= ChildValue(b, col, depth, false)
  {
    BestChildIsOptimal(b, depth, false, moves);
  }

  /** Once every move is searched, the best score bounds the value from below. */
  lemma MinimizingExhausted(b: BoardState, depth: int, order: seq<int>, value: Ext)
    requires b.Shaped() && !b.IsFull()
    requires multiset(order) == multiset(b.GetValidMoves())
    requires forall j :: 0 <= j < |order| ==> b.IsValidMove(order[j])
    requires value.Fin? && forall j :: 0 <= j < |order| ==> value.n <= ChildValues(b, depth, false, order)[j]
    ensures value.n <= BestChild(b, depth, false, b.GetValidMoves())
  {
    var moves := b.GetValidMoves();
    BestChildIsOptimal(b, depth, false, moves);
    var m :| m in moves && ChildValue(b, m, depth, false) == BestChild(b, depth, false, moves);
    assert m in multiset(order);
    var j :| 0 <= j < |order| && order[j] == m;
    ChildValuesAt(b, depth, false, order, j);
  }

  // ----- Iterative deepening -----

  /** The first depth in 1 .. n whose value is the largest (a later depth must do strictly better). */
  function FirstBestDepth(b: BoardState, n: int): (d: int)
    requires b.Shaped() && n >= 1
    ensures 1 <= d <= n
  {
    if n == 1 then 1
    else
      var d := FirstBestDepth(b, n - 1);
      if MinimaxValue(b, n, true) > MinimaxValue(b, d, true) then n else d
  }

  /** The value at `FirstBestDepth` is the maximum over depths 1 .. n, and earlier depths fall short of it. */
  lemma {:induction false} FirstBestDepthIsMax(b: BoardState, n: int)
    requires b.Shaped() && n >= 1
    ensures forall d :: 1 <= d <= n ==> MinimaxValue(b, d, true) <= MinimaxValue(b, FirstBestDepth(b, n), true)
    ensures forall d :: 1 <= d < FirstBestDepth(b, n) ==> MinimaxValue(b, d, true) < MinimaxValue(b, FirstBestDepth(b, n), true)
  {
    if n > 1 {
      FirstBestDepthIsMax(b, n - 1);
    }
  }

  /**
   * `iterative_deepening_minimax`: full-window searches at depths 1 ..
   * maxDepth, keeping a result only when its score beats the best so far.
   * The score is the best value over the depths, and the column is an
   * optimal move at the first depth that reached it.
   */
  method IterativeDeepening(b: BoardState, maxDepth: int, h: HistoryTable) returns (bestScore: Ext, bestCol: Option<int>)
    requires b.Shaped()
    modifies h
    ensures maxDepth < 1 ==> bestScore == NegInf && bestCol == None
    ensures maxDepth >= 1 ==> bestScore == Fin(MinimaxValue(b, FirstBestDepth(b, maxDepth), true))
    ensures maxDepth >= 1 ==> (bestCol.None? <==> Decided(b))
    ensures maxDepth >= 1 && bestCol.Some? ==>
      && b.IsValidMove(bestCol.value)
      && ChildValue(b, bestCol.value, FirstBestDepth(b, maxDepth), true) == bestScore.n
    ensures NoWeightFell(old(h.scores), h.scores)
  {
    bestScore := NegInf;
    bestCol := None;
    for depth := 1 to Max(1, maxDepth + 1)
      invariant depth == 1 ==> bestScore == NegInf && bestCol == None
      invariant depth > 1 ==> bestScore == Fin(MinimaxValue(b, FirstBestDepth(b, depth - 1), true))
      invariant depth > 1 ==> (bestCol.None? <==> Decided(b))
      invariant depth > 1 && bestCol.Some? ==>
        b.IsValidMove(bestCol.value) && ChildValue(b, bestCol.value, FirstBestDepth(b, depth - 1), true) == bestScore.n
      invariant NoWeightFell(old(h.scores), h.scores)
    {
      var score, col := Search(b, depth, NegInf, PosInf, true, h);
      FullWindowIsExact(score, MinimaxValue(b, depth, true));
      if Lt(bestScore, score) {
        bestScore := score;
        bestCol := col;
      }
    }
  }
}
