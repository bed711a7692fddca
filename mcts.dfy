/**
 * The bookkeeping of the Monte Carlo tree search: nodes with their untried
 * moves and children, visit and win counts, selection down the tree,
 * expansion by one child, random playouts, backpropagation up the parent
 * chain and the final most-visited choice.
 *
 * Wins are stored doubled (`wins2`) so that a draw's half win is a whole
 * number.  The UCT score is a supplied function of the parent's visits and
 * the child's doubled wins, visits and player; `random.choice` reads a
 * supplied source `rand(i, k)`, the k-th draw of iteration i, modulo the
 * number of choices.
 */
module Mcts {
  import opened Wrappers
  import opened Boards

  /** The UCT score of a child: (parent visits, child doubled wins, child visits, players differ). */
  type UctScore = (nat, nat, nat, bool) -> real

  /** The random source: `rand(i, k)` is the k-th draw of iteration i. */
  type Random = (int, int) -> nat

  /** `update`'s win credit, doubled: 2 for a win of the node's player, 1 for a draw, else 0. */
  function Gain(player: int, result: int): (g: nat)
    ensures g <= 2
    ensures (player == 1 || player == 2) ==>
      (g == 2 <==> result == player) && (g == 1 <==> result == 0)
  {
    if result == player then 2 else if result == 0 then 1 else 0
  }

  /** The index of the first occurrence of `x` in `s`. */
  function FirstIndex(s: seq<int>, x: int): (k: nat)
    requires x in s
    ensures k < |s| && s[k] == x && x !in s[..k]
  {
    if s[0] == x then 0 else 1 + FirstIndex(s[1..], x)
  }

  /**
   * `list.remove`: the first occurrence of `x` taken out of `s`, the other
   * elements kept in their order.
   */
  function RemoveFirst(s: seq<int>, x: int): (r: seq<int>)
    requires x in s
    ensures multiset(r) == multiset(s) - multiset{x}
    ensures |r| == |s| - 1
  {
    var k := FirstIndex(s, x);
    assert s == s[..k] + [x] + s[k + 1..];
    s[..k] + s[k + 1..]
  }

  /** A strictly ascending sequence holds each value at most once. */
  lemma {:induction false} AscendingOnce(s: seq<int>)
    requires forall i, j :: 0 <= i < j < |s| ==> s[i] < s[j]
    ensures forall x :: multiset(s)[x] <= 1
  {
    if s != [] {
      AscendingOnce(s[1..]);
      assert s == [s[0]] + s[1..];
      forall x ensures multiset(s)[x] <= 1 {
        if x == s[0] {
          assert x !in s[1..];
        }
      }
    }
  }

  /** A node of the search tree (`MCTSNode`). */
  class Node {
    const board: BoardState
    const parent: Node?
    const move: Option<int>
    const player: int
    ghost const depth: nat
    ghost const ancestors: set<Node>

    /** The children dictionary: its keys and its values, in insertion order. */
    var keys: seq<int>
    var children: seq<Node>
    var untried: seq<int>
    var visits: nat
    var wins2: nat

    /**
     * The node's own state is consistent: the children are keyed by the moves
     * that led to them, the untried moves and the keys together are the
     * board's valid moves, and the wins never exceed the visits.
     */
    ghost predicate Valid()
      reads this
    {
      && board.Shaped()
      && (player == 1 || player == 2)
      && |keys| == |children|
      && (forall i :: 0 <= i < |children| ==> children[i].parent == this && children[i].move == Some(keys[i]))
      && multiset(untried) + multiset(keys) == multiset(board.GetValidMoves())
      && wins2 <= 2 * visits
    }

    /**
     * The node's place in the tree, which never changes: the players alternate
     * from 2 at the root, and the chain of parents is finite.
     */
    ghost predicate Linked() {
      && (parent == null ==> move == None && player == 2 && depth == 0 && ancestors == {})
      && (parent != null ==>
          && move.Some?
          && player == (if parent.player == 2 then 1 else 2)
          && depth == parent.depth + 1
          && ancestors == {parent} + parent.ancestors)
      && (forall a :: a in ancestors ==> a.depth < depth)
    }

    /** A child's board is its parent's after the parent's player dropped into the child's move. */
    ghost predicate Played() {
      && board.Shaped()
      && (parent != null && move.Some? ==>
          && parent.board.Shaped() && parent.board.IsValidMove(move.value)
          && board == parent.board.Drop(move.value, parent.player))
    }

    /** `MCTSNode(board, parent, move)`: no visits, no wins, no children, every valid move untried. */
    constructor (board: BoardState, parent: Node?, move: Option<int>)
      requires board.Shaped()
      ensures this.board == board && this.parent == parent && this.move == move
      ensures player == (if parent != null && parent.player == 2 then 1 else 2)
      ensures depth == (if parent == null then 0 else parent.depth + 1)
      ensures ancestors == (if parent == null then {} else {parent} + parent.ancestors)
      ensures keys == [] && children == [] && untried == board.GetValidMoves()
      ensures visits == 0 && wins2 == 0
      ensures Valid()
    {
      this.board := board;
      this.parent := parent;
      this.move := move;
      player := if parent != null && parent.player == 2 then 1 else 2;
      depth := if parent == null then 0 else parent.depth + 1;
      ancestors := if parent == null then {} else {parent} + parent.ancestors;
      keys := [];
      children := [];
      untried := board.GetValidMoves();
      visits := 0;
      wins2 := 0;
    }

    /** The score this node gives child `c`. */
    function Score(c: Node, uct: UctScore): real
      reads this, c
    {
      uct(visits, c.wins2, c.visits, player != c.player)
    }

    /**
     * The choice rule of `uct_select_child` at index k: the first child with
     * no visits, or, when every child has been visited, the first child with
     * the highest score.
     */
    ghost predicate SelectedAt(k: int, uct: UctScore)
      reads this, set c | c in children
    {
      && 0 <= k < |children|
      && (forall j :: 0 <= j < k ==> children[j].visits != 0)
      && (children[k].visits != 0 ==>
          && (forall j :: 0 <= j < |children| ==> children[j].visits != 0)
          && (forall j :: 0 <= j < |children| ==> Score(children[j], uct) <= Score(children[k], uct))
          && (forall j :: 0 <= j < k ==> Score(children[j], uct) < Score(children[k], uct)))
    }

    /**
     * The choice rule of the final move selection at index k: a child with the
     * most visits, the first of them.
     */
    ghost predicate MostVisitedAt(k: int)
      reads this, set c | c in children
    {
      && 0 <= k < |children|
      && (forall j :: 0 <= j < |children| ==> children[j].visits <= children[k].visits)
      && (forall j :: 0 <= j < k ==> children[j].visits < children[k].visits)
    }

    /** `uct_select_child`: no child without children, else the child `SelectedAt` picks. */
    method UctSelectChild(uct: UctScore) returns (best: Node?)
      ensures best == null <==> children == []
      ensures best != null ==> exists k :: SelectedAt(k, uct) && best == children[k]
    {
      best := null;
      var bestScore := 0.0;
      ghost var k := 0;
      for i := 0 to |children|
        invariant forall j :: 0 <= j < i ==> children[j].visits != 0
        invariant best == null <==> i == 0
        invariant i > 0 ==> 0 <= k < i && best == children[k] && bestScore == Score(children[k], uct)
        invariant i > 0 ==> forall j :: 0 <= j < i ==> Score(children[j], uct) <= bestScore
        invariant i > 0 ==> forall j :: 0 <= j < k ==> Score(children[j], uct) < bestScore
      {
        var child := children[i];
        if child.visits == 0 {
          assert SelectedAt(i, uct);
          return child;
        }
        var s := uct(visits, child.wins2, child.visits, player != child.player);
        if best == null || s > bestScore {
          best := child;
          bestScore := s;
          k := i;
        }
      }
      if best != null {
        assert SelectedAt(k, uct);
      }
    }

    /**
     * `add_child`: a fresh node for `m`, keyed by `m` after the existing
     * children, and `m` taken out of the untried moves.  The key is new,
     * because the untried moves and the keys never share a move.
     */
    method AddChild(m: int, childBoard: BoardState) returns (child: Node)
      requires Valid() && m in untried && childBoard.Shaped()
      modifies this
      ensures fresh(child) && child.Valid()
      ensures child.board == childBoard && child.parent == this && child.move == Some(m)
      ensures child.player == (if player == 2 then 1 else 2)
      ensures child.depth == depth + 1 && child.ancestors == {this} + ancestors
      ensures child.keys == [] && child.children == [] && child.visits == 0 && child.wins2 == 0
      ensures m !in old(keys)
      ensures keys == old(keys) + [m] && children == old(children) + [child]
      ensures untried == RemoveFirst(old(untried), m)
      ensures visits == old(visits) && wins2 == old(wins2)
      ensures Valid()
    {
      UntriedApartFromKeys(this);
      child := new Node(childBoard, this, Some(m));
      keys := keys + [m];
      children := children + [child];
      untried := RemoveFirst(untried, m);
    }

    /** `update`: one more visit, and the win credit of `result` for this node's player. */
    method Update(result: int)
      modifies this
      ensures visits == old(visits) + 1 && wins2 == old(wins2) + Gain(player, result)
      ensures keys == old(keys) && children == old(children) && untried == old(untried)
      ensures old(Valid()) ==> Valid()
    {
      visits := visits + 1;
      if result == player {
        wins2 := wins2 + 2;
      } else if result == 0 {
        wins2 := wins2 + 1;
      }
    }
  }

  /** The untried moves and the children's keys never share a move. */
  lemma UntriedApartFromKeys(n: Node)
    requires n.Valid()
    ensures forall x :: x in n.untried ==> x !in n.keys
  {
    ValidFromAscending(n.board, 0);
    AscendingOnce(n.board.GetValidMoves());
    forall x | x in n.untried ensures x !in n.keys {
      assert multiset(n.untried)[x] >= 1;
      assert multiset(n.board.GetValidMoves())[x] <= 1;
    }
  }

  /** Every untried move and every child's key is a valid move of the node's board. */
  lemma MovesAreValid(n: Node)
    requires n.Valid()
    ensures forall x :: x in n.untried ==> n.board.IsValidMove(x)
    ensures forall x :: x in n.keys ==> n.board.IsValidMove(x)
  {
    forall x | x in n.untried || x in n.keys ensures n.board.IsValidMove(x) {
      assert x in multiset(n.board.GetValidMoves());
    }
  }

  /** Membership, named so that `Closed` is unfolded only for the nodes a proof asks about. */
  ghost predicate InTree(n: Node, nodes: set<Node>) {
    n in nodes
  }

  /**
   * A set of nodes closed under the tree's links: each is consistent and
   * linked, and holds its children and its ancestors.
   */
  ghost predicate Closed(nodes: set<Node>)
    reads nodes
  {
    forall n {:trigger InTree(n, nodes)} :: n in nodes && InTree(n, nodes) ==>
      && n.Valid() && n.Linked() && n.Played() && n.ancestors <= nodes
      && (forall i :: 0 <= i < |n.children| ==> n.children[i] in nodes)
  }

  /** What `Closed` says of one of its nodes. */
  lemma ClosedMember(nodes: set<Node>, n: Node)
    requires Closed(nodes) && n in nodes
    ensures n.Valid() && n.Linked() && n.Played() && n.ancestors <= nodes
    ensures forall i :: 0 <= i < |n.children| ==> n.children[i] in nodes
  {
    assert InTree(n, nodes);
  }

  /** The parent chains of a closed tree stay inside it. */
  lemma ClosedChains(nodes: set<Node>)
    requires Closed(nodes)
    ensures forall n :: n in nodes ==> n.Linked() && n.ancestors <= nodes
  {
    forall n | n in nodes ensures n.Linked() && n.ancestors <= nodes {
      assert InTree(n, nodes);
    }
  }

  /**
   * The descent of `_select_and_expand`: from the root, follow
   * `uct_select_child` while the node has no untried move and has children.
   * Every node passed on the way had no untried move.
   */
  method Descend(root: Node, ghost nodes: set<Node>, uct: UctScore) returns (node: Node)
    requires Closed(nodes) && root in nodes && root.parent == null
    ensures node in nodes && (node.untried != [] || node.children == [])
    ensures node == root || root in node.ancestors
    ensures forall a :: a in node.ancestors ==> a.untried == []
    ensures root.untried != [] || root.children == [] ==> node == root
  {
    node := root;
    ClosedMember(nodes, root);
    while node.untried == [] && node.children != []
      invariant node in nodes && node.board.Shaped()
      invariant node == root || root in node.ancestors
      invariant forall a :: a in node.ancestors ==> a.untried == []
      invariant root.untried != [] || root.children == [] ==> node == root
      decreases node.board.EmptyCount()
    {
      ClosedMember(nodes, node);
      var next := node.UctSelectChild(uct);
      ClosedMember(nodes, next);
      DropFillsOne(node.board, next.move.value, node.player);
      node := next;
    }
  }

  /**
   * The expansion of `_select_and_expand`: the node's player drops into the
   * `pick`-th untried move (modulo their number), and the node gets the child
   * for that move.
   */
  method Expand(node: Node, ghost nodes: set<Node>, pick: nat) returns (child: Node, ghost grown: set<Node>)
    requires Closed(nodes) && node in nodes && node.untried != []
    modifies node
    ensures fresh(child) && grown == nodes + {child} && Closed(grown)
    ensures child.parent == node && child.move.Some? && child.move.value in old(node.untried)
    ensures node.Valid() && child.board == node.board.Drop(child.move.value, node.player)
    ensures child.visits == 0 && child.wins2 == 0 && child.children == []
    ensures node.keys == old(node.keys) + [child.move.value] && node.children == old(node.children) + [child]
    ensures node.untried == RemoveFirst(old(node.untried), child.move.value)
    ensures node.visits == old(node.visits) && node.wins2 == old(node.wins2)
  {
    ClosedMember(nodes, node);
    var m := node.untried[pick % |node.untried|];
    MovesAreValid(node);
    var childBoard := node.board.Drop(m, node.player);
    child := node.AddChild(m, childBoard);
    grown := nodes + {child};
    forall n | n in grown
      ensures n.Valid() && n.Linked() && n.Played() && n.ancestors <= grown
      ensures forall i :: 0 <= i < |n.children| ==> n.children[i] in grown
    {
      if n != child {
        assert InTree(n, nodes);
      }
    }
    assert Closed(grown);
  }

  /**
   * `_select_and_expand`: descend, then expand the node reached if it has an
   * untried move; a node with neither untried moves nor children is returned
   * as it is.  The node expanded is the first on the path with an untried move.
   */
  method SelectAndExpand(root: Node, ghost nodes: set<Node>, uct: UctScore, pick: nat)
    returns (node: Node, ghost grown: set<Node>)
    requires Closed(nodes) && root in nodes && root.parent == null
    modifies nodes
    ensures Closed(grown) && node in grown
    ensures old(root.untried) == [] && old(root.children) == [] ==> node == root
    ensures old(root.untried) != [] ==> node !in nodes
    ensures node in nodes ==>
      && grown == nodes && unchanged(nodes) && node.untried == [] && node.children == []
    ensures node !in nodes ==>
      && fresh(node) && grown == nodes + {node} && node.parent in nodes
      && var p := node.parent;
      && node.move.Some? && node.move.value in old(p.untried)
      && p.children == old(p.children) + [node]
      && (old(root.untried) != [] ==> p == root)
      && (forall a :: a in p.ancestors ==> old(a.untried) == [])
      && (forall n :: n in nodes && n != p ==> unchanged(n))
  {
    node := Descend(root, nodes, uct);
    grown := nodes;
    if node.untried != [] {
      var p := node;
      node, grown := Expand(p, nodes, pick);
    }
  }

  /**
   * The turn order a playout relies on: the player to move is not the one who
   * made the board's last move.
   */
  predicate TakesTurns(b: BoardState, mover: int)
    requires b.Shaped()
  {
    b.lastMove.Some? && b.InBounds(b.lastMove.value.row, b.lastMove.value.col) ==>
      b.grid[b.lastMove.value.row][b.lastMove.value.col] == 3 - mover
  }

  /**
   * The random game `_simulate` plays: player 1 wins, else player 2 wins,
   * else a full board is a draw (0); otherwise `mover` drops into the valid
   * move chosen by the draw `rand(i, step)` and the other player moves next.
   */
  function Playout(b: BoardState, mover: int, i: int, step: nat, rand: Random): (r: int)
    requires b.Shaped() && (mover == 1 || mover == 2)
    decreases b.EmptyCount()
    ensures r == 0 || r == 1 || r == 2
  {
    if b.IsWinner(1) then 1
    else if b.IsWinner(2) then 2
    else if b.IsFull() then 0
    else
      var moves := b.GetValidMoves();
      var m := moves[rand(i, step) % |moves|];
      DropFillsOne(b, m, mover);
      Playout(b.Drop(m, mover), 3 - mover, i, step + 1, rand)
  }

  /** Each move of a playout hands the turn over: the next mover did not make the last move. */
  lemma PlayoutHandsOver(b: BoardState, col: int, mover: int)
    requires b.Shaped() && b.IsValidMove(col) && (mover == 1 || mover == 2)
    ensures TakesTurns(b.Drop(col, mover), 3 - mover)
  {
    DropFillsLowest(b, col, mover);
  }

  /** A playout from a board already won reports that win, whoever is to move. */
  lemma PlayoutOfWonBoard(b: BoardState, mover: int, i: int, step: nat, rand: Random, p: int)
    requires b.Shaped() && (mover == 1 || mover == 2) && (p == 1 || p == 2) && b.IsWinner(p)
    ensures Playout(b, mover, i, step, rand) == p
  {
    if b.IsWinner(1) {
      OnlyLastMoverWins(b, 1, p);
    } else if b.IsWinner(2) {
      OnlyLastMoverWins(b, 2, p);
    }
  }

  /** A playout from a full board without a winner is a draw. */
  lemma PlayoutOfFullBoard(b: BoardState, mover: int, i: int, step: nat, rand: Random)
    requires b.Shaped() && (mover == 1 || mover == 2) && b.IsFull()
    ensures Playout(b, mover, i, step, rand) == 0 <==> !b.IsWinner(1) && !b.IsWinner(2)
  {
  }

  /**
   * The loop of `_simulate` on the copied board, `mover` moving first; the
   * k-th random choice reads `rand(i, 1 + k)`.
   */
  method RunPlayout(board: BoardState, mover: int, i: int, rand: Random) returns (result: int)
    requires board.Shaped() && (mover == 1 || mover == 2)
    ensures result == Playout(board, mover, i, 1, rand)
  {
    var b := board;
    var current := mover;
    var step := 1;
    while true
      invariant b.Shaped() && (current == 1 || current == 2)
      invariant Playout(b, current, i, step, rand) == Playout(board, mover, i, 1, rand)
      decreases b.EmptyCount()
    {
      if b.IsWinner(1) {
        return 1;
      } else if b.IsWinner(2) {
        return 2;
      } else if b.IsFull() {
        return 0;
      }
      var moves := b.GetValidMoves();
      var m := moves[rand(i, step) % |moves|];
      DropFillsOne(b, m, current);
      b := b.Drop(m, current);
      current := 3 - current;
      step := step + 1;
    }
  }

  /**
   * `_simulate(board, player)` as written: the playout starts with
   * `3 - player`.  Called with a node's player, who is the side to move at the
   * node, this is the player who has just moved.
   */
  method SimulateAsWritten(board: BoardState, player: int, i: int, rand: Random) returns (result: int)
    requires board.Shaped() && (player == 1 || player == 2)
    ensures result == Playout(board, 3 - player, i, 1, rand)
  {
    result := RunPlayout(board, 3 - player, i, rand);
  }

  /** The simulation from a node, with the node's player, the side to move, moving first. */
  method Simulate(board: BoardState, player: int, i: int, rand: Random) returns (result: int)
    requires board.Shaped() && (player == 1 || player == 2)
    ensures result == Playout(board, player, i, 1, rand)
  {
    result := RunPlayout(board, player, i, rand);
  }

  /**
   * At every node below the root, the simulation as written starts with the
   * player whose token was just dropped: that player moves twice in a row.
   */
  lemma AsWrittenRepeatsMover(n: Node)
    requires n.Linked() && n.Played() && n.parent != null && n.parent.Linked()
    ensures n.board.lastMove.Some?
    ensures n.board.grid[n.board.lastMove.value.row][n.board.lastMove.value.col] == 3 - n.player
    ensures !TakesTurns(n.board, 3 - n.player)
  {
    DropFillsLowest(n.parent.board, n.move.value, n.parent.player);
  }

  /** With the node's own player moving first, every simulation below the root takes turns. */
  lemma SimulateTakesTurns(n: Node)
    requires n.Linked() && n.Played() && n.parent != null && n.parent.Linked()
    ensures TakesTurns(n.board, n.player)
  {
    DropFillsLowest(n.parent.board, n.move.value, n.parent.player);
  }

  /** A node and its ancestors: the nodes `_backpropagate` updates. */
  ghost function Chain(n: Node): set<Node> {
    {n} + n.ancestors
  }

  /** One step up the parent chain leaves the node behind. */
  lemma ChainStep(n: Node)
    requires n.Linked()
    ensures n.parent == null ==> Chain(n) == {n}
    ensures n.parent != null ==> Chain(n) == {n} + Chain(n.parent) && n !in Chain(n.parent)
  {
  }

  /** The nodes a climb up the parent chain has still to visit from `n`. */
  ghost function Pending(n: Node?): set<Node> {
    if n == null then {} else Chain(n)
  }

  /**
   * `_backpropagate`: every node from `node` up to the root gets one more
   * visit and the win credit of `result` for its own player; no other node
   * and no child list changes.
   */
  method Backpropagate(node: Node, result: int, ghost nodes: set<Node>)
    requires node in nodes && forall m :: m in nodes ==> m.Linked() && m.ancestors <= nodes
    modifies nodes
    ensures forall m :: m in nodes ==>
      && m.keys == old(m.keys) && m.children == old(m.children) && m.untried == old(m.untried)
      && m.visits == old(m.visits) + (if m in Chain(node) then 1 else 0)
      && m.wins2 == old(m.wins2) + (if m in Chain(node) then Gain(m.player, result) else 0)
  {
    var n: Node? := node;
    while n != null
      invariant forall m :: m in nodes ==> m.Linked() && m.ancestors <= nodes
      invariant n != null ==> n in nodes && Chain(n) <= Chain(node)
      invariant forall m :: m in nodes ==>
        && m.keys == old(m.keys) && m.children == old(m.children) && m.untried == old(m.untried)
        && m.visits == old(m.visits) + (if m in Chain(node) - Pending(n) then 1 else 0)
        && m.wins2 == old(m.wins2) + (if m in Chain(node) - Pending(n) then Gain(m.player, result) else 0)
      decreases if n == null then 0 else n.depth + 1
    {
      ChainStep(n);
      n.Update(result);
      n := n.parent;
    }
    assert Pending(n) == {};
  }

  /** `_backpropagate` on a closed tree, which it keeps closed. */
  method BackpropagateInTree(node: Node, result: int, ghost nodes: set<Node>)
    requires Closed(nodes) && node in nodes
    modifies nodes
    ensures Closed(nodes)
    ensures forall m :: m in nodes ==>
      && m.keys == old(m.keys) && m.children == old(m.children) && m.untried == old(m.untried)
      && m.visits == old(m.visits) + (if m in Chain(node) then 1 else 0)
      && m.wins2 == old(m.wins2) + (if m in Chain(node) then Gain(m.player, result) else 0)
  {
    ClosedChains(nodes);
    Backpropagate(node, result, nodes);
    forall n | n in nodes
      ensures n.Valid() && n.Linked() && n.Played() && n.ancestors <= nodes
      ensures forall i :: 0 <= i < |n.children| ==> n.children[i] in nodes
    {
      assert InTree(n, nodes);
    }
  }

  /**
   * The move `mcts_search` returns: none without children, else the key of
   * the first child with the most visits.
   */
  method MostVisited(root: Node) returns (best: Option<int>)
    requires root.Valid()
    ensures best.None? <==> root.children == []
    ensures best.Some? ==> exists k :: root.MostVisitedAt(k) && best.value == root.keys[k]
  {
    best := None;
    var bestVisits: int := -1;
    ghost var k := 0;
    for j := 0 to |root.children|
      invariant best.None? <==> j == 0
      invariant j == 0 ==> bestVisits == -1
      invariant j > 0 ==> 0 <= k < j && best == Some(root.keys[k]) && bestVisits == root.children[k].visits
      invariant forall x :: 0 <= x < j ==> root.children[x].visits <= bestVisits
      invariant j > 0 ==> forall x :: 0 <= x < k ==> root.children[x].visits < bestVisits
    {
      var child := root.children[j];
      if child.visits > bestVisits {
        bestVisits := child.visits;
        best := Some(root.keys[j]);
        k := j;
      }
    }
    if best.Some? {
      assert root.MostVisitedAt(k);
    }
  }

  /**
   * `mcts_search` without its time limit: a fresh root for the board, then
   * `iterations` rounds of selection and expansion, simulation and
   * backpropagation, then the most visited move.  Each round's playout is the
   * corrected `Simulate`, in which the player to move at the node moves
   * first (see `SimulateAsWritten` for the playout as written).  There is a move exactly
   * when there is at least one round and the board is not full, and it is a
   * valid move of the board.
   */
  method MctsSearch(board: BoardState, iterations: int, uct: UctScore, rand: Random) returns (best: Option<int>)
    requires board.Shaped()
    ensures best.None? <==> iterations <= 0 || board.IsFull()
    ensures best.Some? ==> board.IsValidMove(best.value)
  {
    var root := new Node(board, null, None);
    ghost var nodes: set<Node> := {root};
    forall n | n in nodes
      ensures n.Valid() && n.Linked() && n.Played() && n.ancestors <= nodes
      ensures forall i :: 0 <= i < |n.children| ==> n.children[i] in nodes
    {
    }
    assert Closed(nodes);
    for i := 0 to Max(0, iterations)
      invariant Closed(nodes) && root in nodes && root.parent == null && root.board == board
      invariant forall n :: n in nodes ==> fresh(n)
      invariant i == 0 ==> root.children == [] && root.untried == board.GetValidMoves()
      invariant i > 0 && !board.IsFull() ==> root.children != []
      invariant board.IsFull() ==> root.children == [] && root.untried == []
    {
      var node, grown := SelectAndExpand(root, nodes, uct, rand(i, 0));
      nodes := grown;
      ClosedMember(nodes, node);
      var result := Simulate(node.board, node.player, i, rand);
      BackpropagateInTree(node, result, nodes);
    }
    ClosedMember(nodes, root);
    best := MostVisited(root);
    if best.Some? {
      MovesAreValid(root);
    }
  }
}
