# Connect Four: board, evaluation, minimax and Monte Carlo tree search

A Dafny model of the core of a Connect Four game with two engines:

- a board of 6 rows and 7 columns, where row 0 is the top row and a token
  falls to the lowest empty cell of its column;
- a heuristic evaluation that scores the centre column and every window of
  four cells;
- an alpha-beta minimax search with a history table for move ordering, run
  by iterative deepening;
- a Monte Carlo tree search: UCT selection, expansion, random playouts,
  backpropagation and a most-visited final choice;
- the game controller that records moves, results and turns and asks an
  engine for its move.

Modules follow the program's files:

| file | module | models |
|---|---|---|
| `wrappers.dfy` | `Wrappers` | `Option`, for Python's `None` |
| `board.dfy` | `Boards` | `src/models/board.py` |
| `evaluation.dfy` | `Evaluation` | `src/ai/evaluation.py` |
| `minimax.dfy` | `Minimax` | `src/ai/minimax.py` |
| `mcts.dfy` | `Mcts` | `src/ai/mcts.py` |
| `game.dfy` | `Game` | `make_move`, `switch_player`, `reset` and `ai_move` of `src/game.py` |

The board has two forms:

- `BoardState` is the board as a value. It is what `deepcopy` produces and
  what both engines explore.
- `Board` is the game's mutable board over an `array2`. Each of its methods
  is proved to agree with the corresponding function on `BoardState`.

The minimax search keeps the program's loops. It is proved fail-soft against
`MinimaxValue`, the unpruned game-tree value:

- a score strictly inside the (alpha, beta) window is exact;
- a score at or below alpha is an upper bound;
- a score at or above beta is a lower bound.

A full window therefore gives the exact value, whatever order the history
table chooses. `MinimaxValue` and `BestChild` call one another through
`ChildValue`/`ValueAfter`, which hides the drop of each child.

The tree search is a heap of `Node` objects. A node's children dictionary is
two sequences in insertion order: its keys and its values. Wins are stored
doubled (`wins2`), so a draw's half win is a whole number.

## Model

| member | source | states |
|---|---|---|
| Boards.BoardState.GetCell | src/models/board.py:13-17 | `None` exactly outside the grid; on a reachable board a cell holds 0, 1 or 2 |
| Boards.BoardState.ValidFrom | src/models/board.py:50-52 | a column from `c` on is listed exactly when it is on the board and its top cell is empty |
| Boards.BoardState.Landing | src/models/board.py:33-38 | the bottom-up scan stops at the lowest empty cell of the column: that cell is empty, and every cell below it is occupied |
| Boards.BoardState.Drop | src/models/board.py:19-40 | the board keeps its dimensions (what the drop does is stated by `DropFillsLowest`) |
| Boards.ValidFromAscending | src/models/board.py:50-52 | the valid moves come in strictly ascending column order |
| Boards.FourFromCells | src/models/board.py:65-107 | a run of four along an axis holds exactly when each of its four cells holds the player |
| Boards.LineWinCells | src/models/board.py:65-107 | each of the four runs through the anchor that a scan of seven cells can find is spelled out cell by cell |
| Boards.ScanHit | src/models/board.py:67-73 | a matching cell either completes four (a line win) or extends the run count by one |
| Boards.ScanMiss | src/models/board.py:72-73 | a cell that does not match resets the run count to 0 |
| Boards.ScanStart | src/models/board.py:66-67 | clipping the scan to the grid skips only cells that cannot match |
| Boards.ScanEnd | src/models/board.py:67-74 | a scan that ends without reaching four proves there is no four-in-a-row through the anchor on that axis |
| Boards.EmptyBoard | src/models/board.py:6-11 | a new board is reachable and every cell is empty, so every column is a valid move |
| Boards.DropFillsLowest | src/models/board.py:19-38 | an invalid drop changes nothing; a valid one fills the lowest empty cell of the column with the player, records it as the last move and leaves every other cell as it was |
| Boards.DropPreservesValid | src/models/board.py:19-38 | a drop by player 1 or 2 keeps the board reachable: tokens are 0, 1 or 2, they obey gravity, and the last move is an occupied cell |
| Boards.DropFillsOne | src/models/board.py:30-38 | a valid drop removes exactly one empty cell |
| Boards.FullIffTopRowOccupied | src/models/board.py:127-128 | the board is full exactly when every top cell is occupied, that is, exactly when no column is a valid move |
| Boards.FullIffNoEmptyCell | src/models/board.py:127-128 | on a reachable board, full means no empty cell anywhere |
| Boards.WinCoversAnchor | src/models/board.py:54-109 | a win found at (row, col) requires the anchor cell itself to hold the player |
| Boards.OnlyLastMoverWins | src/models/board.py:111-125 | at most one player is the winner, and it is the one whose token is at the last move |
| Boards.Board.constructor | src/models/board.py:6-11 | the new board is the empty board of the given size |
| Boards.Board.GetCell | src/models/board.py:13-17 | the array read agrees with the value board |
| Boards.Board.IsValidMove | src/models/board.py:42-48 | a column is valid exactly when it is in range and its top cell (row 0) is empty |
| Boards.Board.GetValidMoves | src/models/board.py:50-52 | the loop yields exactly the valid columns in ascending order |
| Boards.Board.IsFull | src/models/board.py:127-128 | full exactly when no column is a valid move |
| Boards.Board.Snapshot | src/ai/minimax.py:104 | the deep copy holds the same grid and last move as the board |
| Boards.Board.DropPiece | src/models/board.py:19-40 | succeeds exactly on a valid column; the array afterwards is the value board after `Drop`, and a reachable board stays reachable |
| Boards.Board.ScanLine | src/models/board.py:65-107 | the counting loop over one axis answers whether there are four in a row through the anchor on that axis |
| Boards.Board.CheckWin | src/models/board.py:54-109 | the four scans answer whether four of the player's tokens line up through (row, col) on some axis |
| Boards.Board.IsWinner | src/models/board.py:111-125 | false before any move, else the win check at the last move; needs only a shaped grid and a last move on the board |
| Evaluation.Opponent | src/ai/evaluation.py:13 | the opponent is always 1 or 2, and it is the other player when the player is 1 or 2 |
| Evaluation.Count | src/ai/evaluation.py:63-65 | a count never exceeds the window's length |
| Evaluation.CountsDisjoint | src/ai/evaluation.py:63-65 | counts of three different values together fit in the window |
| Evaluation.CountsPartition | src/ai/evaluation.py:63-65 | when every cell holds 0, 1 or 2, the player, opponent and empty counts add up exactly to the window length |
| Evaluation.WindowCountsPartition | src/ai/evaluation.py:22-43 | on a valid board every one of the four families' windows splits exactly into player, opponent and empty cells: the three counts sum to 4 |
| Evaluation.WindowAt | src/ai/evaluation.py:24-42 | every window has four cells |
| Evaluation.WindowOnBoard | src/ai/evaluation.py:22-43 | every window the loops visit lies on the board, so no cell reads `None` |
| Evaluation.CenterColumn | src/ai/evaluation.py:16 | the centre column has one cell per row |
| Evaluation.WindowScoreValues | src/ai/evaluation.py:68-79 | a window scores 100, 5, 2, -4 or 0 |
| Evaluation.WindowScoreOwnership | src/ai/evaluation.py:68-79 | a positive score means no opponent token in the window, a negative one no player token, and a window shared by both scores 0 |
| Evaluation.ThreatSymmetry | src/ai/evaluation.py:70-77 | a window scores -4 for a player exactly when it scores +5 for the opponent |
| Evaluation.EmptyWindowCounts | src/ai/evaluation.py:63-65 | an all-empty window counts no tokens and as many empties as cells |
| Evaluation.EmptyInnerSum | src/ai/evaluation.py:22-43 | on the empty board each inner loop adds 0 |
| Evaluation.EmptyOuterSum | src/ai/evaluation.py:22-43 | on the empty board each window family adds 0 |
| Evaluation.EmptyBoardScoresZero | src/ai/evaluation.py:1-45 | the empty board evaluates to 0 for either player |
| Evaluation.InnerSumBounds | src/ai/evaluation.py:22-43 | n windows add between -4n and 100n |
| Evaluation.OuterSumBounds | src/ai/evaluation.py:22-43 | a family of k rows of windows stays between -4 and 100 per window |
| Evaluation.WindowCountOfFamilies | src/ai/evaluation.py:22-43 | the number of scored windows is the sum of the four loop families' sizes, rows*(cols-3) + cols*(rows-3) + 2*(rows-3)*(cols-3) on a board at least 3 by 3, and 69 on the 6 by 7 board |
| Evaluation.ScoreBounds | src/ai/evaluation.py:1-45 | the score lies between -4 per window and 3 per row plus 100 per window |
| Evaluation.EvaluatePosition | src/ai/evaluation.py:1-45 | the five loops compute `PositionScore`, the centre count times 3 plus the sum of the window scores |
| Evaluation.FamilyScore | src/ai/evaluation.py:22-43 | one pair of nested loops (one direction) adds up exactly the window scores of that family |
| Evaluation.LineScore | src/ai/evaluation.py:23-25 | one inner loop adds up exactly the window scores at one outer index, in order |
| Minimax.MaxE | src/ai/minimax.py:113 | `max` with infinities: an upper bound of both, and one of them |
| Minimax.MinE | src/ai/minimax.py:137 | `min` with infinities: a lower bound of both, and one of them |
| Minimax.FullWindowIsExact | src/ai/minimax.py:49 | a fail-soft score in the window (-inf, +inf) is the exact value |
| Minimax.BestChildIsOptimal | src/ai/minimax.py:99-145 | the best child value bounds every move's value (from above when maximizing, from below when minimizing) and is attained by some move |
| Minimax.ValueWithinWin | src/ai/minimax.py:78-145 | when evaluations stay below the win score, every minimax value lies in [-1000000, 1000000] |
| Minimax.BestChildWithinWin | src/ai/minimax.py:99-145 | the same bound for the best value over any non-empty list of valid moves |
| Minimax.Pow2 | src/ai/minimax.py:118 | the reward `2 ** depth` is positive |
| Minimax.HistoryTable.constructor | src/ai/minimax.py:28-29 | the table starts as the loaded map |
| Minimax.HistoryTable.Reward | src/ai/minimax.py:117-118 | the column's weight (0 when absent) rises by 2^depth and every other weight is unchanged, so no weight falls |
| Minimax.HistoryTable.Decay | src/ai/minimax.py:147-153 | every entry is multiplied by 0.95; no key is added or removed |
| Minimax.Insert | src/ai/minimax.py:97 | inserting adds exactly one occurrence of the element |
| Minimax.SortByWeight | src/ai/minimax.py:89-97 | the sort is a permutation of the valid moves |
| Minimax.ConsOrdered | src/ai/minimax.py:97 | a head that comes before every element of an ordered tail gives an ordered sequence |
| Minimax.InsertOrdered | src/ai/minimax.py:97 | inserting a larger column into a sorted list keeps it sorted by descending weight, ties by ascending column |
| Minimax.SortOrdered | src/ai/minimax.py:89-97 | on the ascending valid moves, the stable sort yields descending weight with ties in ascending column order |
| Minimax.InsertRespectsComparisons | src/ai/minimax.py:97 | insertion depends only on how the weights compare |
| Minimax.SortRespectsComparisons | src/ai/minimax.py:97 | two tables whose weights compare alike give the same move order |
| Minimax.DecayKeepsOrder | src/ai/minimax.py:147-153 | decaying the table never changes the order the search tries moves in |
| Minimax.Search | src/ai/minimax.py:60-145 | the score is fail-soft with respect to `MinimaxValue`; no column exactly at a win, a full board or depth 0; otherwise a valid column whose value is the score whenever the score lies inside the window; no history weight falls, and a cutoff raises the returned column's weight by at least 2^depth |
| Minimax.MaximizingPly | src/ai/minimax.py:99-121 | the maximizing loop with its cutoff is fail-soft with respect to the best child value, and returns a valid column that attains an in-window score; no history weight falls, and on a beta cutoff the cut column's weight rose by at least 2^depth |
| Minimax.MaxStep | src/ai/minimax.py:109-119 | one maximizing iteration keeps the fail-soft invariant, whether it cuts off or goes on |
| Minimax.SearchChild | src/ai/minimax.py:104-107 | searching a copy after the move is fail-soft with respect to that child's value, and no history weight falls |
| Minimax.OrderIsValid | src/ai/minimax.py:87-103 | on a board that is not full, the ordered candidates are non-empty valid moves |
| Minimax.ChildValuesAt | src/ai/minimax.py:103-107 | the j-th searched value is the value of the j-th candidate |
| Minimax.MaximizingCutoff | src/ai/minimax.py:115-119 | any searched child's value is at most the best child value, so a cutoff score is a lower bound |
| Minimax.MaximizingExhausted | src/ai/minimax.py:103-121 | when every candidate's value is at most the score, so is the best child value |
| Minimax.MinimizingPly | src/ai/minimax.py:123-145 | the minimizing loop with its cutoff is fail-soft with respect to the best child value, and returns a valid column that attains an in-window score; no history weight falls, and on an alpha cutoff the cut column's weight rose by at least 2^depth |
| Minimax.MinStep | src/ai/minimax.py:133-143 | one minimizing iteration keeps the fail-soft invariant, whether it cuts off or goes on |
| Minimax.MinimizingCutoff | src/ai/minimax.py:139-143 | the best child value is at most any searched child's value, so a cutoff score is an upper bound |
| Minimax.MinimizingExhausted | src/ai/minimax.py:127-145 | when every candidate's value is at least the score, so is the best child value |
| Minimax.FirstBestDepth | src/ai/minimax.py:48-53 | the depth whose result is kept lies between 1 and the maximum depth |
| Minimax.FirstBestDepthIsMax | src/ai/minimax.py:48-53 | its value is the largest over depths 1..max, and strictly larger than at every shallower depth, so later ties do not replace it |
| Minimax.IterativeDeepening | src/ai/minimax.py:31-58 | the score is the best exact value over depths 1..max; there is no column exactly when the position is already decided; otherwise the column is valid and its value at the kept depth is the score; below depth 1: -inf and no column; no history weight falls |
| Mcts.Gain | src/ai/mcts.py:59-67 | the doubled credit is 2 for a win of the node's player, 1 for a draw and 0 for a loss |
| Mcts.RemoveFirst | src/ai/mcts.py:56 | `list.remove` removes exactly one occurrence |
| Mcts.AscendingOnce | src/ai/mcts.py:17 | an ascending list of moves holds each move at most once |
| Mcts.Node.constructor | src/ai/mcts.py:10-19 | no visits, no wins and no children; every valid move untried; player 2 at the root, else the other player of the parent |
| Mcts.Node.UctSelectChild | src/ai/mcts.py:21-50 | null exactly without children; otherwise the first unvisited child, or else the first child with the highest UCT score |
| Mcts.Node.AddChild | src/ai/mcts.py:52-57 | a fresh child for the move is appended to the dictionary, and the move leaves the untried list (it was not a key before) |
| Mcts.Node.Update | src/ai/mcts.py:59-67 | visits rise by one and the doubled wins by `Gain`; a consistent node stays consistent |
| Mcts.UntriedApartFromKeys | src/ai/mcts.py:17 | a move is never both untried and a child key |
| Mcts.MovesAreValid | src/ai/mcts.py:17 | untried moves and child keys are valid moves of the node's board |
| Mcts.ClosedMember | src/ai/mcts.py:10-19 | every node of a well-formed tree is consistent, correctly linked to its parent, played from its parent's board, and has its ancestors and children in the tree |
| Mcts.Descend | src/ai/mcts.py:129-130 | the descent stops at a tree node with untried moves or no children; every node above it has no untried moves; it stays at the root when the root has untried moves or no children |
| Mcts.Expand | src/ai/mcts.py:133-137 | one untried move becomes a fresh child whose board is the parent's after the parent's player drops there; the tree stays well formed |
| Mcts.SelectAndExpand | src/ai/mcts.py:126-139 | the tree stays well formed; the result is a leaf of the old tree (nothing changed) or a fresh child of it; an unexpanded root is expanded |
| Mcts.PlayoutHandsOver | src/ai/mcts.py:164-169 | after each random move the next mover did not make the last move |
| Mcts.PlayoutOfWonBoard | src/ai/mcts.py:150-153 | a playout from a won board reports that winner, whoever is to move |
| Mcts.PlayoutOfFullBoard | src/ai/mcts.py:154-155 | a playout from a full board is a draw exactly when nobody has won |
| Mcts.Playout | src/ai/mcts.py:142-169 | a playout ends in 0, 1 or 2 |
| Mcts.RunPlayout | src/ai/mcts.py:148-169 | the loop returns the result of `Playout` on the same random draws |
| Mcts.SimulateAsWritten | src/ai/mcts.py:142-169 | the playout as written, with the opponent of the node's player moving first |
| Mcts.AsWrittenRepeatsMover | src/ai/mcts.py:145 | for an expanded child, the first mover as written is the player who made the child's move |
| Mcts.Simulate | src/ai/mcts.py:142-169 | the corrected playout, with the node's player moving first |
| Mcts.SimulateTakesTurns | src/ai/mcts.py:145 | for an expanded child, the node's player did not make the last move, so the corrected playout alternates |
| Mcts.ChainStep | src/ai/mcts.py:174-176 | the nodes from a node up to the root are the node and the nodes from its parent up, and the node is not among the latter |
| Mcts.Backpropagate | src/ai/mcts.py:172-176 | every node from the given one up to the root gains one visit and its player's credit for the result; every other node and every child list is unchanged |
| Mcts.BackpropagateInTree | src/ai/mcts.py:172-176 | the same, and the tree stays well formed |
| Mcts.MostVisited | src/ai/mcts.py:113-123 | none exactly when the root has no children; otherwise the key of the first child with the most visits |
| Mcts.MctsSearch | src/ai/mcts.py:70-123 | a move is returned exactly when there is at least one iteration and the board is not full, and it is then a valid move |
| Game.OnlyMoverCanWin | src/game.py:83-84 | a drop never makes the other player the winner |
| Game.MoveRecorded | src/game.py:81-89 | the result recorded after a move agrees with the board: a winner only with four in a row, a draw only on a full board without one, none otherwise |
| Game.EmptyBoardUndecided | src/game.py:28-31 | a new board records no result |
| Game.Game.constructor | src/game.py:18-57 | an empty 6x7 board, the first player to move and no result; battle mode exactly for "battle"; the engine thinks at once when it moves first outside battle mode |
| Game.Game.Reset | src/game.py:59-64 | a new empty board, player 1 to move, no result and nothing thinking |
| Game.Game.SwitchPlayer | src/game.py:122-129 | the other player moves; the engine starts thinking when that is player 2 or in battle mode; board and result stay as they were |
| Game.Game.MakeMove | src/game.py:66-91 | succeeds exactly when there is no result and the column is valid; a refusal changes nothing; a success drops the token, records a win, else a draw on a full board, else passes the turn, and the recorded result agrees with the board |
| Game.Game.AiMove | src/game.py:93-120 | a move is made exactly when there is no result and the engine is "minimax" or "mcts"; it is a valid drop by the current player; a minimax move is optimal for player 2 at the depth the score came from; the turn passes exactly when no result is recorded |

## Left out

- The screen, the event loop, `run`, `handle_events`, the window caption, the thinking and battle timers (`ai_start_time`, `battle_delay`, `last_move_time`): these are user-interface code and clocks.
- Loading and saving the history table as JSON (`src/ai/minimax.py:12-26`, `:56`): file I/O. The table is a `HistoryTable` object passed to the search. It is keyed by the column number rather than by its decimal string, which gives the same order.
- The `max_time` limit of `mcts_search` (`src/ai/mcts.py:88-97`): it reads the clock. The search always runs its full number of iterations.
- The debug `print`s of `mcts_search`: output only.
- Mcts.Node.UctSelectChild: the UCT formula `win_ratio + 1.41 * sqrt(ln(visits) / child_visits)` is floating point. The score is a supplied function of the parent's visits, the child's doubled wins and visits, and whether the players differ. The contract states the selection rule over that score, not the formula.
- `random.choice`: randomness. It is a supplied `rand(i, k)`, the k-th draw of iteration i, taken modulo the number of choices.
- Mcts.SelectAndExpand: it does not state which child UCT picks at each level. That is stated once, by `Node.UctSelectChild`.
- Mcts.MctsSearch: it does not state that the returned move is the most visited child. That is stated by `MostVisited`, which it calls on the root.
- Mcts.MctsSearch: each round runs the corrected playout `Simulate`, in which the node's player to move moves first. The program (`src/ai/mcts.py:104`, `:145`) starts its playout with `3 - player`. The playout as written is `SimulateAsWritten`; see Findings.
- Minimax.DecayKeepsOrder, Minimax.HistoryTable.Decay: history weights are exact reals. The program keeps Python floats, and the rounding of `2 ** depth` sums and of `*= 0.95` (`src/ai/minimax.py:151-153`) is not modelled. Under rounding, two weights could become equal after decay, and the stable sort would then order those two columns by column number.
- Wins are kept as `wins2`, twice the program's float `wins`. A draw's 0.5 becomes 1.
- The `hasattr(board, 'current_player')` branch of `MCTSNode.__init__` (`src/ai/mcts.py:19`): the board class has no such attribute, so the root player is always 2. The model fixes it at 2.
- The `return False` after the drop loop (`src/models/board.py:40`) cannot be reached: a valid column has an empty cell. The model proves this rather than modelling the return.
- The `if not valid_moves` draw in `_simulate` (`src/ai/mcts.py:160-162`) cannot be reached: it follows the full-board check.
- Minimax always maximizes for player 2 and drops 2 on its own plies, even when player 1 uses it in battle mode. This is modelled as written.
- `first_player` values other than 1 and 2 are accepted by the constructor as in the program. The game invariant is only established for 1 and 2.

## Findings

| source | as written | input that shows it | evidently intended | confidence | as-written member | corrected member |
|---|---|---|---|---|---|---|
| src/ai/mcts.py:145 | `_simulate(board, node.player)` starts the playout with `3 - player`. `node.player` is already the side to move at that node, so the player who made the node's last move moves again | the root on the empty 6x7 board, expanded with column 3: the child's player is 1 and the token at (5, 3) is 2, yet the playout's first drop is another 2 | the playout starts with `node.player`, so the turns alternate | not executed | Mcts.SimulateAsWritten, Mcts.AsWrittenRepeatsMover | Mcts.Simulate, Mcts.SimulateTakesTurns |
