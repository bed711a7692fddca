/**
 * The game controller: whose turn it is, the recorded result, the move of a
 * player and the move of an engine.  The screen, the event loop, the
 * thinking timers and the window caption are not part of this model.
 */
module Game {
  import opened Wrappers
  import opened Boards
  import Minimax
  import Mcts

  const HUMAN_PLAYER: int := 1
  const AI_PLAYER: int := 2

  /** The default board size of `Board()`. */
  const ROWS: nat := 6
  const COLS: nat := 7

  /** The search depth of the minimax engine. */
  const MINIMAX_DEPTH: int := 5

  /** The iteration budgets of the tree search: the first player in battle mode, and otherwise. */
  const MCTS_FIRST_ITERATIONS: int := 15000
  const MCTS_ITERATIONS: int := 8000

  /**
   * The recorded result agrees with the board: no result while nobody has
   * four in a row and the board is not full; a player's number only when that
   * player has four in a row; 0 (a draw) only on a full board without a winner.
   */
  predicate Recorded(s: BoardState, winner: Option<int>)
    requires s.Shaped()
  {
    match winner
    case None => !s.IsWinner(1) && !s.IsWinner(2) && !s.IsFull()
    case Some(p) =>
      || ((p == 1 || p == 2) && s.IsWinner(p))
      || (p == 0 && s.IsFull() && !s.IsWinner(1) && !s.IsWinner(2))
  }

  /** A drop never makes the other player the winner: a winning line runs through the new token. */
  lemma OnlyMoverCanWin(s: BoardState, col: int, p: int)
    requires s.Shaped() && s.IsValidMove(col) && (p == 1 || p == 2)
    ensures !s.Drop(col, p).IsWinner(3 - p)
  {
    var after := s.Drop(col, p);
    DropFillsLowest(s, col, p);
    if after.IsWinner(3 - p) {
      WinCoversAnchor(after, after.lastMove.value.row, after.lastMove.value.col, 3 - p);
    }
  }

  /** The result `make_move` records after player `p` has moved: `p` on a win, else 0 on a full board, else none. */
  function Outcome(s: BoardState, p: int): Option<int>
    requires s.Shaped()
  {
    if s.IsWinner(p) then Some(p) else if s.IsFull() then Some(0) else None
  }

  /** The result recorded after a move agrees with the board. */
  lemma MoveRecorded(s: BoardState, col: int, p: int)
    requires s.Shaped() && s.IsValidMove(col) && (p == 1 || p == 2)
    ensures Recorded(s.Drop(col, p), Outcome(s.Drop(col, p), p))
  {
    OnlyMoverCanWin(s, col, p);
  }

  /** A new board records no result: nobody has moved and every column is open. */
  lemma EmptyBoardUndecided(rows: nat, cols: nat)
    requires rows >= 1 && cols >= 1
    ensures Recorded(EmptyBoard(rows, cols), None)
  {
    var s := EmptyBoard(rows, cols);
    assert 0 in s.GetValidMoves();
  }

  class Game {
    var board: Board
    var currentPlayer: int
    var winner: Option<int>
    var aiThinking: bool
    const aiType: string
    const battleMode: bool
    const firstAi: Option<string>
    const secondAi: Option<string>

    /**
     * A game in progress or over: a reachable 6-by-7 board, a player 1 or 2
     * to move, and a recorded result that agrees with the board.
     */
    ghost predicate Valid()
      reads this, board, board.cells
    {
      && board.Valid() && board.rows == ROWS && board.cols == COLS
      && (currentPlayer == 1 || currentPlayer == 2)
      && Recorded(board.State(), winner)
    }

    /**
     * `Game(ai_type, first_ai, second_ai, first_player)`: an empty board,
     * `firstPlayer` to move, no result; battle mode when the engine type is
     * "battle"; the engine starts thinking when it moves first outside battle
     * mode.
     */
    constructor (aiType: string, firstAi: Option<string>, secondAi: Option<string>, firstPlayer: int)
      ensures fresh(board) && fresh(board.cells) && board.State() == EmptyBoard(ROWS, COLS)
      ensures this.aiType == aiType && this.firstAi == firstAi && this.secondAi == secondAi
      ensures battleMode == (aiType == "battle")
      ensures currentPlayer == firstPlayer && winner == None
      ensures aiThinking == (firstPlayer == AI_PLAYER && aiType != "battle")
      ensures firstPlayer == 1 || firstPlayer == 2 ==> Valid()
    {
      board := new Board(ROWS, COLS);
      this.aiType := aiType;
      currentPlayer := firstPlayer;
      winner := None;
      aiThinking := false;
      battleMode := aiType == "battle";
      this.firstAi := firstAi;
      this.secondAi := secondAi;
      new;
      EmptyBoardUndecided(ROWS, COLS);
      if currentPlayer == AI_PLAYER && !battleMode {
        aiThinking := true;
      }
    }

    /** `reset`: a new empty board, player 1 to move, no result, no engine thinking. */
    method Reset()
      modifies this
      ensures fresh(board) && fresh(board.cells) && board.State() == EmptyBoard(ROWS, COLS)
      ensures currentPlayer == HUMAN_PLAYER && winner == None && !aiThinking
      ensures Valid()
    {
      board := new Board(ROWS, COLS);
      currentPlayer := HUMAN_PLAYER;
      winner := None;
      aiThinking := false;
      EmptyBoardUndecided(ROWS, COLS);
    }

    /**
     * `switch_player`: the other player moves next; the engine starts
     * thinking when that is player 2 or in battle mode.
     */
    method SwitchPlayer()
      requires currentPlayer == 1 || currentPlayer == 2
      modifies this
      ensures currentPlayer == 3 - old(currentPlayer) && (currentPlayer == 1 || currentPlayer == 2)
      ensures aiThinking == (old(aiThinking) || currentPlayer == AI_PLAYER || battleMode)
      ensures board == old(board) && winner == old(winner)
    {
      currentPlayer := 3 - currentPlayer;
      if currentPlayer == AI_PLAYER || battleMode {
        aiThinking := true;
      }
    }

    /**
     * `make_move`: refused, changing nothing, once the game has a result or
     * when the column is not a valid move.  Otherwise the current player's
     * token drops into the column; a win records that player, else a full
     * board records a draw, else the turn passes.
     */
    method MakeMove(col: int) returns (success: bool)
      requires Valid()
      modifies this, board, board.cells
      ensures Valid() && board == old(board)
      ensures success <==> old(winner).None? && old(board.State()).IsValidMove(col)
      ensures !success ==>
        && board.State() == old(board.State()) && currentPlayer == old(currentPlayer)
        && winner == old(winner) && aiThinking == old(aiThinking)
      ensures success ==> board.State() == old(board.State()).Drop(col, old(currentPlayer))
      ensures success ==> winner == Outcome(board.State(), old(currentPlayer))
      ensures success && winner.None? ==>
        currentPlayer == 3 - old(currentPlayer) && aiThinking == (old(aiThinking) || currentPlayer == AI_PLAYER || battleMode)
      ensures success && winner.Some? ==> currentPlayer == old(currentPlayer) && aiThinking == old(aiThinking)
    {
      if winner.Some? || !board.IsValidMove(col) {
        return false;
      }
      ghost var before := board.State();
      success := board.DropPiece(col, currentPlayer);
      MoveRecorded(before, col, currentPlayer);
      if success {
        var won := board.IsWinner(currentPlayer);
        if won {
          winner := Some(currentPlayer);
        } else {
          var full := board.IsFull();
          if full {
            winner := Some(0);
          } else {
            SwitchPlayer();
          }
        }
      }
    }

    /** The engine to ask: the game's type, or in battle mode the first or second engine by player. */
    function CurrentAi(): Option<string>
      reads this
    {
      if battleMode then (if currentPlayer == 1 then firstAi else secondAi) else Some(aiType)
    }

    /**
     * `ai_move`: nothing once the game has a result.  Otherwise the engine of
     * `CurrentAi` picks a column on a copy of the board (minimax to depth 5,
     * or the tree search with 15000 iterations for player 1 in battle mode
     * and 8000 otherwise) and `make_move` plays it.  An engine always finds a
     * move on an undecided board, so a move is made exactly when the game has
     * no result and the engine is one of the two; the minimax move is optimal
     * for player 2 at the depth its score came from.
     */
    method AiMove(h: Minimax.HistoryTable, uct: Mcts.UctScore, rand: Mcts.Random) returns (moved: bool)
      requires Valid()
      modifies this, board, board.cells, h
      ensures Valid() && board == old(board)
      ensures moved <==> old(winner).None? && (old(CurrentAi()) == Some("minimax") || old(CurrentAi()) == Some("mcts"))
      ensures !moved ==>
        && board.State() == old(board.State()) && currentPlayer == old(currentPlayer)
        && winner == old(winner) && aiThinking == old(aiThinking)
      ensures moved ==>
        && board.State().lastMove.Some?
        && var col := board.State().lastMove.value.col;
        && old(board.State()).IsValidMove(col)
        && board.State() == old(board.State()).Drop(col, old(currentPlayer))
        && (old(CurrentAi()) == Some("minimax") ==>
              var d := Minimax.FirstBestDepth(old(board.State()), MINIMAX_DEPTH);
              Minimax.ChildValue(old(board.State()), col, d, true) == Minimax.MinimaxValue(old(board.State()), d, true))
      ensures moved && winner.None? ==> currentPlayer == 3 - old(currentPlayer)
      ensures moved && winner.Some? ==> currentPlayer == old(currentPlayer)
    {
      if winner.Some? {
        return false;
      }
      var currentAi := CurrentAi();
      var s := board.Snapshot();
      var col: Option<int> := None;
      if currentAi == Some("minimax") {
        var score;
        score, col := Minimax.IterativeDeepening(s, MINIMAX_DEPTH, h);
      } else if currentAi == Some("mcts") {
        if battleMode && currentPlayer == 1 {
          col := Mcts.MctsSearch(s, MCTS_FIRST_ITERATIONS, uct, rand);
        } else {
          col := Mcts.MctsSearch(s, MCTS_ITERATIONS, uct, rand);
        }
      }
      if col.Some? {
        ghost var before := board.State();
        moved := MakeMove(col.value);
        DropFillsLowest(before, col.value, currentPlayer);
        return;
      }
      return false;
    }
  }
}
