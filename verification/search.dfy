/**
 * Depth-bounded minimax with alpha-beta cutoffs. Scores are from the
 * agent's fixed point of view (`player`); `current` is the mark placed by
 * the side to move at this node. The infinities that bound the search are the
 * sentinels -INF and INF, which lie outside every score.
 */
module Search {
  import opened Grid
  import opened Evaluation

  const INF: int := 1000

  function Max(x: int, y: int): int { if x >= y then x else y }
  function Min(x: int, y: int): int { if x <= y then x else y }

  predicate IsScore(r: int) { r == -10 || r == 0 || r == 10 }

  /** The search stops at this node: someone has won, the depth budget is
      spent, or no cell is empty. */
  predicate Stops(b: Board, depth: nat, player: int) {
    Evaluate(b, player) != 0 || depth == 0 || Full(b)
  }

  /** Some cell at flat position k or later is empty. */
  predicate EmptyFrom(b: Board, k: nat) {
    exists j :: k <= j < 9 && b[j] == 0
  }

  // ---------------------------------------------------------------------------
  // The pruned search, as the loop performs it

  /** The score the pruned search returns at a node. */
  function SearchValue(b: Board, depth: nat, alpha: int, beta: int, isMax: bool, current: int, player: int): (r: int)
    ensures IsScore(r)
    decreases depth, 1, 0
  {
    if Stops(b, depth, player) then Evaluate(b, player)
    else if isMax then MaxFold(b, 0, depth, alpha, beta, -INF, current, player)
    else MinFold(b, 0, depth, alpha, beta, INF, current, player)
  }

  /** The maximizing loop from flat position k on, in the state (alpha, best):
      each empty cell, in row-major order, is tried as a minimizing child;
      best and alpha are raised to its score, and the loop stops once
      beta <= alpha. */
  function MaxFold(b: Board, k: nat, depth: nat, alpha: int, beta: int, best: int, current: int, player: int): (r: int)
    requires depth > 0 && k <= 9
    ensures r >= best
    ensures (best == -INF && EmptyFrom(b, k)) || IsScore(best) ==> IsScore(r)
    decreases depth, 0, 9 - k
  {
    if k == 9 then best
    else if b[k] != 0 then MaxFold(b, k + 1, depth, alpha, beta, best, current, player)
    else
      var score := SearchValue(b[k := current], depth - 1, alpha, beta, false, -current, player);
      var best' := Max(score, best);
      var alpha' := Max(alpha, best');
      if beta <= alpha' then best'
      else MaxFold(b, k + 1, depth, alpha', beta, best', current, player)
  }

  /** The minimizing loop, symmetric to MaxFold for beta and the minimum. */
  function MinFold(b: Board, k: nat, depth: nat, alpha: int, beta: int, best: int, current: int, player: int): (r: int)
    requires depth > 0 && k <= 9
    ensures r <= best
    ensures (best == INF && EmptyFrom(b, k)) || IsScore(best) ==> IsScore(r)
    decreases depth, 0, 9 - k
  {
    if k == 9 then best
    else if b[k] != 0 then MinFold(b, k + 1, depth, alpha, beta, best, current, player)
    else
      var score := SearchValue(b[k := current], depth - 1, alpha, beta, true, -current, player);
      var best' := Min(score, best);
      var beta' := Min(beta, best');
      if beta' <= alpha then best'
      else MinFold(b, k + 1, depth, alpha, beta', best', current, player)
  }

  // ---------------------------------------------------------------------------
  // Plain depth-bounded minimax, without cutoffs: the reference

  /** The depth-bounded minimax value of a node: the best child value for the
      side to move, every child being examined. */
  function MinimaxValue(b: Board, depth: nat, isMax: bool, current: int, player: int): (r: int)
    ensures IsScore(r)
    decreases depth, 1, 0
  {
    if Stops(b, depth, player) then Evaluate(b, player)
    else if isMax then MaxAll(b, 0, depth, current, player)
    else MinAll(b, 0, depth, current, player)
  }

  /** The largest minimax value among the children reached through the empty
      cells at flat position k or later (-INF when there is none). */
  function MaxAll(b: Board, k: nat, depth: nat, current: int, player: int): (r: int)
    requires depth > 0 && k <= 9
    ensures if EmptyFrom(b, k) then IsScore(r) else r == -INF
    decreases depth, 0, 9 - k
  {
    if k == 9 then -INF
    else if b[k] != 0 then MaxAll(b, k + 1, depth, current, player)
    else Max(MinimaxValue(b[k := current], depth - 1, false, -current, player),
             MaxAll(b, k + 1, depth, current, player))
  }

  /** The smallest minimax value among those children (INF when there is none). */
  function MinAll(b: Board, k: nat, depth: nat, current: int, player: int): (r: int)
    requires depth > 0 && k <= 9
    ensures if EmptyFrom(b, k) then IsScore(r) else r == INF
    decreases depth, 0, 9 - k
  {
    if k == 9 then INF
    else if b[k] != 0 then MinAll(b, k + 1, depth, current, player)
    else Min(MinimaxValue(b[k := current], depth - 1, true, -current, player),
             MinAll(b, k + 1, depth, current, player))
  }

  // ---------------------------------------------------------------------------
  // The search as the engine runs it

  /** Searches the node for the side placing `current`, trying each empty cell
      on a fresh copy of the board (the board value b itself is never
      changed), and returns the pruned minimax score. */
  method Minimax(b: Board, depth: nat, alpha: int, beta: int, isMax: bool, current: int, player: int)
    returns (score: int)
    ensures score == SearchValue(b, depth, alpha, beta, isMax, current, player)
    ensures IsScore(score)
    ensures Stops(b, depth, player) ==> score == Evaluate(b, player)
    ensures -INF <= alpha < beta <= INF ==>
      WithinWindow(score, MinimaxValue(b, depth, isMax, current, player), alpha, beta)
    ensures alpha == -INF && beta == INF ==> score == MinimaxValue(b, depth, isMax, current, player)
    decreases depth, 1
  {
    score := Evaluate(b, player);
    if score != 0 || depth == 0 || Full(b) {
      return;
    }
    // A second test for a full board at small depth, which the source makes
    // next, can never succeed here: the full board has just been handled.
    var moves := CollectMoves(b);
    EmptyCellsScan(b);
    if isMax {
      score := MaximizeOver(b, moves, depth, alpha, beta, current, player);
    } else {
      score := MinimizeOver(b, moves, depth, alpha, beta, current, player);
    }
    if -INF <= alpha < beta <= INF {
      AlphaBetaSound(b, depth, alpha, beta, isMax, current, player);
    }
  }

  /** The maximizing loop of Minimax over the candidate moves: each child is
      searched as a minimizing node, best and alpha are raised to its score,
      and the loop breaks once beta <= alpha. */
  method MaximizeOver(b: Board, moves: seq<Move>, depth: nat, alpha: int, beta: int, current: int, player: int)
    returns (best: int)
    requires ScanOrder(b, moves) && depth > 0
    ensures best == MaxFold(b, 0, depth, alpha, beta, -INF, current, player)
    decreases depth, 0
  {
    var a := alpha;
    best := -INF;
    ghost var target := MaxFold(b, 0, depth, alpha, beta, -INF, current, player);
    assert GapOccupied(b, moves, 0);
    SkipMax(b, 0, NextCell(moves, 0), depth, a, beta, best, current, player);
    var i := 0;
    while i < |moves|
      invariant 0 <= i <= |moves|
      invariant MaxFold(b, NextCell(moves, i), depth, a, beta, best, current, player) == target
    {
      var s := SearchChild(b, moves[i], depth - 1, a, beta, false, current, player);
      MaxStep(b, moves, i, depth, a, beta, best, current, player, s, target);
      best := Max(s, best);
      a := Max(a, best);
      if beta <= a {
        break;
      }
      i := i + 1;
    }
  }

  /** The minimizing loop of Minimax, symmetric to MaximizeOver for beta. */
  method MinimizeOver(b: Board, moves: seq<Move>, depth: nat, alpha: int, beta: int, current: int, player: int)
    returns (best: int)
    requires ScanOrder(b, moves) && depth > 0
    ensures best == MinFold(b, 0, depth, alpha, beta, INF, current, player)
    decreases depth, 0
  {
    var bt := beta;
    best := INF;
    ghost var target := MinFold(b, 0, depth, alpha, beta, INF, current, player);
    assert GapOccupied(b, moves, 0);
    SkipMin(b, 0, NextCell(moves, 0), depth, alpha, bt, best, current, player);
    var i := 0;
    while i < |moves|
      invariant 0 <= i <= |moves|
      invariant MinFold(b, NextCell(moves, i), depth, alpha, bt, best, current, player) == target
    {
      var s := SearchChild(b, moves[i], depth - 1, alpha, bt, true, current, player);
      MinStep(b, moves, i, depth, alpha, bt, best, current, player, s, target);
      best := Min(s, best);
      bt := Min(bt, best);
      if bt <= alpha {
        break;
      }
      i := i + 1;
    }
  }

  /** Searches the child reached by playing m on a copy of the board, for
      the other side. */
  method SearchChild(b: Board, m: Move, depth: nat, alpha: int, beta: int, isMax: bool, current: int, player: int)
    returns (score: int)
    requires OnBoard(m)
    ensures score == SearchValue(Place(b, m, current), depth, alpha, beta, isMax, -current, player)
    decreases depth, 2
  {
    var child := Place(b, m, current);
    score := Minimax(child, depth, alpha, beta, isMax, -current, player);
  }

  /** One pass of the maximizing loop over the i-th candidate, in the terms
      of MaxFold: either the cutoff fires and the loop's result is the new
      best, or the fold resumes at the next candidate. */
  lemma MaxStep(b: Board, moves: seq<Move>, i: nat, depth: nat, alpha: int, beta: int, best: int,
                current: int, player: int, s: int, target: int)
    requires ScanOrder(b, moves) && i < |moves| && depth > 0
    requires MaxFold(b, NextCell(moves, i), depth, alpha, beta, best, current, player) == target
    requires s == SearchValue(Place(b, moves[i], current), depth - 1, alpha, beta, false, -current, player)
    ensures beta <= Max(alpha, Max(s, best)) ==> Max(s, best) == target
    ensures Max(alpha, Max(s, best)) < beta ==>
      MaxFold(b, NextCell(moves, i + 1), depth, Max(alpha, Max(s, best)), beta, Max(s, best), current, player) == target
  {
    assert GapOccupied(b, moves, i + 1);
    SkipMax(b, Index(moves[i]) + 1, NextCell(moves, i + 1), depth, Max(alpha, Max(s, best)), beta, Max(s, best), current, player);
  }

  lemma MinStep(b: Board, moves: seq<Move>, i: nat, depth: nat, alpha: int, beta: int, best: int,
                current: int, player: int, s: int, target: int)
    requires ScanOrder(b, moves) && i < |moves| && depth > 0
    requires MinFold(b, NextCell(moves, i), depth, alpha, beta, best, current, player) == target
    requires s == SearchValue(Place(b, moves[i], current), depth - 1, alpha, beta, true, -current, player)
    ensures Min(beta, Min(s, best)) <= alpha ==> Min(s, best) == target
    ensures alpha < Min(beta, Min(s, best)) ==>
      MinFold(b, NextCell(moves, i + 1), depth, alpha, Min(beta, Min(s, best)), Min(s, best), current, player) == target
  {
    assert GapOccupied(b, moves, i + 1);
    SkipMin(b, Index(moves[i]) + 1, NextCell(moves, i + 1), depth, alpha, Min(beta, Min(s, best)), Min(s, best), current, player);
  }

  /** Occupied cells are passed over: across a stretch of them the
      maximizing loop keeps its state. */
  lemma {:induction false} SkipMax(b: Board, k: nat, k': nat, depth: nat, alpha: int, beta: int, best: int, current: int, player: int)
    requires depth > 0 && k <= k' <= 9
    requires forall j :: k <= j < k' ==> b[j] != 0
    ensures MaxFold(b, k, depth, alpha, beta, best, current, player) == MaxFold(b, k', depth, alpha, beta, best, current, player)
    decreases k' - k
  {
    if k < k' {
      SkipMax(b, k + 1, k', depth, alpha, beta, best, current, player);
    }
  }

  lemma {:induction false} SkipMin(b: Board, k: nat, k': nat, depth: nat, alpha: int, beta: int, best: int, current: int, player: int)
    requires depth > 0 && k <= k' <= 9
    requires forall j :: k <= j < k' ==> b[j] != 0
    ensures MinFold(b, k, depth, alpha, beta, best, current, player) == MinFold(b, k', depth, alpha, beta, best, current, player)
    decreases k' - k
  {
    if k < k' {
      SkipMin(b, k + 1, k', depth, alpha, beta, best, current, player);
    }
  }

  /** A node where someone has won, the depth budget is spent or the board is
      full is not expanded: whatever the window, its score is the static
      evaluation. */
  lemma TerminalNode(b: Board, depth: nat, alpha: int, beta: int, isMax: bool, current: int, player: int)
    requires Stops(b, depth, player)
    ensures SearchValue(b, depth, alpha, beta, isMax, current, player) == Evaluate(b, player)
    ensures MinimaxValue(b, depth, isMax, current, player) == Evaluate(b, player)
  {
  }

  // ---------------------------------------------------------------------------
  // Alpha-beta soundness

  /** The fail-soft window property: a score at or below alpha is an upper
      bound of the true value, one at or above beta a lower bound, and one
      strictly inside the window is the true value. */
  predicate WithinWindow(r: int, v: int, alpha: int, beta: int) {
    (r <= alpha ==> v <= r) && (beta <= r ==> r <= v) && (alpha < r < beta ==> v == r)
  }

  /** Pruning never misleads: against the plain minimax value, the pruned
      search satisfies the fail-soft window property for every window the
      search can be called with. */
  lemma {:induction false} AlphaBetaSound(b: Board, depth: nat, alpha: int, beta: int, isMax: bool, current: int, player: int)
    requires -INF <= alpha < beta <= INF
    ensures WithinWindow(SearchValue(b, depth, alpha, beta, isMax, current, player),
                         MinimaxValue(b, depth, isMax, current, player), alpha, beta)
    decreases depth, 1, 0
  {
    if !Stops(b, depth, player) {
      if isMax {
        MaxFoldSound(b, 0, depth, alpha, beta, -INF, current, player);
      } else {
        MinFoldSound(b, 0, depth, alpha, beta, INF, current, player);
      }
    }
  }

  lemma {:induction false} MaxFoldSound(b: Board, k: nat, depth: nat, alpha: int, beta: int, best: int, current: int, player: int)
    requires depth > 0 && k <= 9
    requires -INF <= alpha < beta <= INF && -INF <= best <= alpha
    ensures WithinWindow(MaxFold(b, k, depth, alpha, beta, best, current, player),
                         Max(best, MaxAll(b, k, depth, current, player)), alpha, beta)
    decreases depth, 0, 9 - k
  {
    if k < 9 {
      if b[k] != 0 {
        MaxFoldSound(b, k + 1, depth, alpha, beta, best, current, player);
      } else {
        var child := b[k := current];
        AlphaBetaSound(child, depth - 1, alpha, beta, false, -current, player);
        var score := SearchValue(child, depth - 1, alpha, beta, false, -current, player);
        var best' := Max(score, best);
        var alpha' := Max(alpha, best');
        if alpha' < beta {
          MaxFoldSound(b, k + 1, depth, alpha', beta, best', current, player);
        }
      }
    }
  }

  lemma {:induction false} MinFoldSound(b: Board, k: nat, depth: nat, alpha: int, beta: int, best: int, current: int, player: int)
    requires depth > 0 && k <= 9
    requires -INF <= alpha < beta <= INF && beta <= best <= INF
    ensures WithinWindow(MinFold(b, k, depth, alpha, beta, best, current, player),
                         Min(best, MinAll(b, k, depth, current, player)), alpha, beta)
    decreases depth, 0, 9 - k
  {
    if k < 9 {
      if b[k] != 0 {
        MinFoldSound(b, k + 1, depth, alpha, beta, best, current, player);
      } else {
        var child := b[k := current];
        AlphaBetaSound(child, depth - 1, alpha, beta, true, -current, player);
        var score := SearchValue(child, depth - 1, alpha, beta, true, -current, player);
        var best' := Min(score, best);
        var beta' := Min(beta, best');
        if alpha < beta' {
          MinFoldSound(b, k + 1, depth, alpha, beta', best', current, player);
        }
      }
    }
  }

  /** Called with the full window, as the move selector calls it, the pruned
      search returns exactly the plain minimax value. */
  lemma FullWindowExact(b: Board, depth: nat, isMax: bool, current: int, player: int)
    ensures SearchValue(b, depth, -INF, INF, isMax, current, player) == MinimaxValue(b, depth, isMax, current, player)
  {
    AlphaBetaSound(b, depth, -INF, INF, isMax, current, player);
  }
}
