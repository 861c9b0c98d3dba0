/**
 * The minimax agent: its strength profile, the table of agents by difficulty
 * key, and the move selector with its random-error branch, its opening
 * shortcuts and its search over the candidate moves.
 *
 * The random number generator is not modelled: the value random.random()
 * would return is the parameter `roll` (a real in [0, 1)), and every
 * random.choice(s) picks s[pick % |s|] for the parameter `pick`. A call of
 * the selector draws at most one choice, so one `pick` suffices.
 */
module Agent {
  import opened Grid
  import opened Evaluation
  import opened Search

  /** An agent never changes after construction, so it is a value. */
  datatype MinimaxAgent = MinimaxAgent(player: int, difficulty: int, maxDepth: int, errorRate: int)

  /** The agent for a difficulty level: the search depth grows by two plies
      per level up to the whole game (nine plies), and the chance of a random
      move, in percent, drops by five per level down to none. */
  function NewAgent(player: int, difficulty: int): (a: MinimaxAgent)
    ensures a.player == player && a.difficulty == difficulty
    ensures a.maxDepth <= 9 && 0 <= a.errorRate
    ensures difficulty >= 1 ==> a.maxDepth >= 1
    ensures difficulty >= 4 ==> a.errorRate == 0
    ensures difficulty >= 5 ==> a.maxDepth == 9
    ensures difficulty <= 4 ==> a.maxDepth == 2 * difficulty - 1
    ensures difficulty <= 3 ==> a.errorRate == 20 - 5 * difficulty
  {
    MinimaxAgent(player, difficulty, Min(9, difficulty * 2 - 1), Max(0, 20 - difficulty * 5))
  }

  /** A harder level searches at least as deep and errs at most as often. */
  lemma StrengthMonotone(d1: int, d2: int)
    requires d1 <= d2
    ensures NewAgent(-1, d1).maxDepth <= NewAgent(-1, d2).maxDepth
    ensures NewAgent(-1, d1).errorRate >= NewAgent(-1, d2).errorRate
  {
  }

  /** The five agents, keyed by the difficulty as a string; each plays O. */
  const Agents: map<string, MinimaxAgent> := map[
    "1" := NewAgent(-1, 1),
    "2" := NewAgent(-1, 2),
    "3" := NewAgent(-1, 3),
    "4" := NewAgent(-1, 4),
    "5" := NewAgent(-1, 5)
  ]

  /** The agent for a difficulty key; any key outside the table selects the
      level-3 agent. */
  function AgentFor(key: string): (a: MinimaxAgent)
    ensures a.player == -1 && 1 <= a.difficulty <= 5 && 1 <= a.maxDepth <= 9
    ensures key in Agents ==> a == Agents[key]
    ensures key !in Agents ==> a == NewAgent(-1, 3)
  {
    if key in Agents then Agents[key] else Agents["3"]
  }

  /** The strength profile of the table, level by level: depths 1, 3, 5, 7, 9
      and error rates 15, 10, 5, 0, 0 percent. */
  lemma AgentTable()
    ensures AgentFor("1").maxDepth == 1 && AgentFor("1").errorRate == 15
    ensures AgentFor("2").maxDepth == 3 && AgentFor("2").errorRate == 10
    ensures AgentFor("3").maxDepth == 5 && AgentFor("3").errorRate == 5
    ensures AgentFor("4").maxDepth == 7 && AgentFor("4").errorRate == 0
    ensures AgentFor("5").maxDepth == 9 && AgentFor("5").errorRate == 0
  {
  }

  // ---------------------------------------------------------------------------
  // Random choices and the opening book

  /** random.choice(s), for the drawn value pick. */
  function Choose(s: seq<Move>, pick: nat): (m: Move)
    requires |s| > 0
    ensures m in s
  {
    s[pick % |s|]
  }

  const Corners: seq<Move> := [Move(0, 0), Move(0, 2), Move(2, 0), Move(2, 2)]

  /** The moves the agent opens with on an empty board: a corner or the centre. */
  const FirstMoves: seq<Move> := [Move(0, 0), Move(0, 2), Move(2, 0), Move(2, 2), Move(1, 1)]

  /** One of the four corners is taken. */
  predicate CornerTaken(b: Board) {
    b[0] != 0 || b[2] != 0 || b[6] != 0 || b[8] != 0
  }

  /** The free corners, in the order of Corners. */
  function AvailableCorners(b: Board): (r: seq<Move>)
    ensures forall m :: m in r <==> m in Corners && IsEmptyCell(b, m)
  {
    var r := (if b[0] == 0 then [Move(0, 0)] else [])
      + (if b[2] == 0 then [Move(0, 2)] else [])
      + (if b[6] == 0 then [Move(2, 0)] else [])
      + (if b[8] == 0 then [Move(2, 2)] else []);
    assert forall m :: m in r <==>
      ((b[0] == 0 && m == Move(0, 0)) || (b[2] == 0 && m == Move(0, 2))
       || (b[6] == 0 && m == Move(2, 0)) || (b[8] == 0 && m == Move(2, 2)));
    r
  }

  // ---------------------------------------------------------------------------
  // The search branch

  /** How deep each candidate is searched: the agent's depth, but never more
      than one ply beyond the number of candidates. */
  function SearchDepth(agent: MinimaxAgent, candidates: nat): (d: nat)
    requires agent.maxDepth >= 0
    ensures d <= agent.maxDepth && d <= candidates + 1
    ensures d == agent.maxDepth || d == candidates + 1
  {
    Min(agent.maxDepth, candidates + 1)
  }

  /** The score the selector gives to playing m: a full-window minimizing
      search, for the other side, of the board after the move. */
  function MoveScore(b: Board, m: Move, depth: nat, current: int, player: int): int
    requires OnBoard(m)
  {
    SearchValue(Place(b, m, current), depth, -INF, INF, false, -current, player)
  }

  /** The scores of the candidates ms, in their order. */
  function Scores(b: Board, ms: seq<Move>, depth: nat, current: int, player: int): (r: seq<int>)
    requires forall j :: 0 <= j < |ms| ==> OnBoard(ms[j])
    ensures |r| == |ms|
    ensures forall j :: 0 <= j < |ms| ==> r[j] == MoveScore(b, ms[j], depth, current, player)
  {
    seq(|ms|, j requires 0 <= j < |ms| => MoveScore(b, ms[j], depth, current, player))
  }

  /** The selector's loop from candidate i on, in the state (bestScore,
      bestMove), over the candidates' scores: a candidate replaces the best
      move only when it scores strictly higher. */
  function BestFrom(ms: seq<Move>, scores: seq<int>, i: nat, bestScore: int, bestMove: Move): Move
    requires |scores| == |ms| && i <= |ms|
    decreases |ms| - i
  {
    if i == |ms| then bestMove
    else if scores[i] > bestScore then BestFrom(ms, scores, i + 1, scores[i], ms[i])
    else BestFrom(ms, scores, i + 1, bestScore, bestMove)
  }

  /** The move the search branch returns on a board with an empty cell. */
  function SearchBest(agent: MinimaxAgent, b: Board, current: int): Move
    requires agent.maxDepth >= 0 && !Full(b)
  {
    var ms := EmptyCells(b);
    EmptyCellsSpec(b);
    EmptyCellsScan(b);
    BestFrom(ms, Scores(b, ms, SearchDepth(agent, |ms|), current, agent.player), 0, -INF, ms[0])
  }

  /** The loop of the search branch over the candidates: each is searched for
      the other side to the adaptive depth, and the first with the strictly
      highest score is kept. */
  method SearchMove(agent: MinimaxAgent, b: Board, moves: seq<Move>, current: int) returns (best: Move)
    requires agent.maxDepth >= 0 && |moves| > 0
    requires forall j :: 0 <= j < |moves| ==> OnBoard(moves[j])
    ensures best in moves
    ensures best == BestFrom(moves, Scores(b, moves, SearchDepth(agent, |moves|), current, agent.player), 0, -INF, moves[0])
  {
    ghost var scores := Scores(b, moves, SearchDepth(agent, |moves|), current, agent.player);
    ghost var target := BestFrom(moves, scores, 0, -INF, moves[0]);
    var bestScore := -INF;
    best := moves[0];
    var i := 0;
    while i < |moves|
      invariant 0 <= i <= |moves|
      invariant best in moves
      invariant BestFrom(moves, scores, i, bestScore, best) == target
    {
      var m := moves[i];
      var score := ScoreMove(b, m, SearchDepth(agent, |moves|), current, agent.player);
      BestStep(moves, scores, i, bestScore, best, score);
      if score > bestScore {
        bestScore := score;
        best := m;
      }
      i := i + 1;
    }
  }

  /** Scores one candidate: the move is played on a copy of the board, which
      is searched with the full window for the other side. */
  method ScoreMove(b: Board, m: Move, depth: nat, current: int, player: int) returns (score: int)
    requires OnBoard(m)
    ensures score == MoveScore(b, m, depth, current, player)
  {
    var child := Place(b, m, current);
    score := Minimax(child, depth, -INF, INF, false, -current, player);
  }

  /** One pass of the selector's loop, in the terms of BestFrom. */
  lemma BestStep(ms: seq<Move>, scores: seq<int>, i: nat, bestScore: int, bestMove: Move, score: int)
    requires |scores| == |ms| && i < |ms| && score == scores[i]
    ensures BestFrom(ms, scores, i, bestScore, bestMove)
      == if score > bestScore then BestFrom(ms, scores, i + 1, score, ms[i])
         else BestFrom(ms, scores, i + 1, bestScore, bestMove)
  {
  }

  /** Position k holds the highest score, and every position before it a
      strictly lower one. */
  predicate IsFirstArgmax(scores: seq<int>, k: nat)
    requires k < |scores|
  {
    (forall j :: 0 <= j < |scores| ==> scores[j] <= scores[k])
    && (forall j :: 0 <= j < k ==> scores[j] < scores[k])
  }

  /** The selector's loop, resumed at candidate i with the first best of the
      candidates before i in hand, ends with the first best of all of them. */
  lemma {:induction false} BestFromArgmax(ms: seq<Move>, scores: seq<int>, i: nat, k: nat) returns (k': nat)
    requires |scores| == |ms| && k < i <= |ms|
    requires forall j :: 0 <= j < i ==> scores[j] <= scores[k]
    requires forall j :: 0 <= j < k ==> scores[j] < scores[k]
    ensures k <= k' < |ms| && IsFirstArgmax(scores, k')
    ensures BestFrom(ms, scores, i, scores[k], ms[k]) == ms[k']
    decreases |ms| - i
  {
    if i == |ms| {
      k' := k;
    } else if scores[i] > scores[k] {
      k' := BestFromArgmax(ms, scores, i + 1, i);
    } else {
      k' := BestFromArgmax(ms, scores, i + 1, k);
    }
  }

  /** The search branch returns the candidate with the highest score that
      comes first in row-major order. */
  lemma SearchBestArgmax(agent: MinimaxAgent, b: Board, current: int) returns (k: nat)
    requires agent.maxDepth >= 0 && !Full(b)
    ensures k < |EmptyCells(b)| && SearchBest(agent, b, current) == EmptyCells(b)[k]
    ensures forall j :: 0 <= j < |EmptyCells(b)| ==> OnBoard(EmptyCells(b)[j])
    ensures IsFirstArgmax(Scores(b, EmptyCells(b), SearchDepth(agent, |EmptyCells(b)|), current, agent.player), k)
  {
    var ms := EmptyCells(b);
    EmptyCellsSpec(b);
    EmptyCellsScan(b);
    var scores := Scores(b, ms, SearchDepth(agent, |ms|), current, agent.player);
    k := BestFromArgmax(ms, scores, 1, 0);
  }

  /** Scores of the full-window search are the plain minimax values, so the
      first best candidate by score is the first best by value. */
  lemma ArgmaxByValue(b: Board, ms: seq<Move>, depth: nat, current: int, player: int, k: nat, j: nat)
    requires k < |ms| && j < |ms| && forall i :: 0 <= i < |ms| ==> OnBoard(ms[i])
    requires IsFirstArgmax(Scores(b, ms, depth, current, player), k)
    ensures MoveValue(b, ms[j], depth, current, player) <= MoveValue(b, ms[k], depth, current, player)
    ensures j < k ==> MoveValue(b, ms[j], depth, current, player) < MoveValue(b, ms[k], depth, current, player)
  {
    var scores := Scores(b, ms, depth, current, player);
    assert scores[j] <= scores[k];
    assert j < k ==> scores[j] < scores[k];
    ScoreIsValue(b, ms[k], depth, current, player);
    ScoreIsValue(b, ms[j], depth, current, player);
  }

  /** The selector's full-window score of a move is its plain minimax value. */
  lemma ScoreIsValue(b: Board, m: Move, depth: nat, current: int, player: int)
    requires OnBoard(m)
    ensures MoveScore(b, m, depth, current, player) == MoveValue(b, m, depth, current, player)
  {
    FullWindowExact(Place(b, m, current), depth, false, -current, player);
  }

  /** The search branch returns an empty cell with the highest plain
      minimax value, and the first such cell in row-major order: pruning
      changes no decision. */
  lemma SearchBestIsFirstArgmax(agent: MinimaxAgent, b: Board, current: int)
    requires agent.maxDepth >= 0 && !Full(b)
    ensures IsEmptyCell(b, SearchBest(agent, b, current))
    ensures forall m :: IsEmptyCell(b, m) ==>
      MoveValue(b, m, SearchDepth(agent, |EmptyCells(b)|), current, agent.player)
      <= MoveValue(b, SearchBest(agent, b, current), SearchDepth(agent, |EmptyCells(b)|), current, agent.player)
    ensures forall m :: IsEmptyCell(b, m) && Index(m) < Index(SearchBest(agent, b, current)) ==>
      MoveValue(b, m, SearchDepth(agent, |EmptyCells(b)|), current, agent.player)
      < MoveValue(b, SearchBest(agent, b, current), SearchDepth(agent, |EmptyCells(b)|), current, agent.player)
  {
    var ms := EmptyCells(b);
    var k := SearchBestArgmax(agent, b, current);
    var depth := SearchDepth(agent, |ms|);
    var best := ms[k];
    CandidatesOnBoard(b, k);
    EmptyCellsMembers(b);
    forall m | IsEmptyCell(b, m)
      ensures MoveValue(b, m, depth, current, agent.player) <= MoveValue(b, best, depth, current, agent.player)
      ensures Index(m) < Index(best) ==> MoveValue(b, m, depth, current, agent.player) < MoveValue(b, best, depth, current, agent.player)
    {
      assert m in ms;
      var j :| 0 <= j < |ms| && ms[j] == m;
      ArgmaxByValue(b, ms, depth, current, agent.player, k, j);
      if Index(m) < Index(best) {
        EmptyCellsOrdered(b, j, k);
      }
    }
  }

  /** The plain minimax value of playing m: the unpruned value of the board
      after the move, with the other side to move. */
  function MoveValue(b: Board, m: Move, depth: nat, current: int, player: int): int
    requires OnBoard(m)
  {
    MinimaxValue(Place(b, m, current), depth, false, -current, player)
  }

  // ---------------------------------------------------------------------------
  // The selector

  /** The side to move: the given one, or the agent's own when none is given. */
  function Mover(agent: MinimaxAgent, mover: Option<int>): int {
    if mover.Some? then mover.value else agent.player
  }

  /** The random-error branch fires. */
  predicate Errs(agent: MinimaxAgent, roll: real) {
    roll < agent.errorRate as real / 100.0
  }

  /** The move the selector returns, branch by branch in the order it tries
      them: a random empty cell when it errs; none on a full board; the only
      empty cell; a corner or the centre on an empty board when the agent
      moves; the centre against a corner, or a free corner against the
      centre, on the agent's first reply; otherwise the search. */
  function ChooseMove(agent: MinimaxAgent, b: Board, current: int, roll: real, pick: nat): Option<Move>
    requires agent.maxDepth >= 0
  {
    var moves := EmptyCells(b);
    if Errs(agent, roll) && moves != [] then Some(Choose(moves, pick))
    else if moves == [] then None
    else if |moves| == 1 then Some(moves[0])
    else if AbsSum(b) == 0 && current == agent.player then Some(Choose(FirstMoves, pick))
    else if AbsSum(b) == 1 && current == agent.player && CornerTaken(b) && b[4] == 0 then Some(Move(1, 1))
    else if AbsSum(b) == 1 && current == agent.player && b[4] != 0 && AvailableCorners(b) != [] then
      Some(Choose(AvailableCorners(b), pick))
    else
      EmptyCellsSpec(b);
      Some(SearchBest(agent, b, current))
  }

  /** A board whose absolute values sum to 0 is empty. */
  lemma AbsSumZero(b: Board)
    requires AbsSum(b) == 0
    ensures forall k :: 0 <= k < 9 ==> b[k] == 0
  {
  }

  /** Every branch is legal: the selector returns nothing exactly when the
      board is full, and otherwise an empty cell on the board. */
  lemma ChooseMoveLegal(agent: MinimaxAgent, b: Board, current: int, roll: real, pick: nat)
    requires agent.maxDepth >= 0
    ensures ChooseMove(agent, b, current, roll, pick).None? <==> Full(b)
    ensures ChooseMove(agent, b, current, roll, pick).Some? ==> IsEmptyCell(b, ChooseMove(agent, b, current, roll, pick).value)
  {
    EmptyCellsSpec(b);
    var moves := EmptyCells(b);
    if Errs(agent, roll) && moves != [] {
    } else if moves == [] {
    } else if |moves| == 1 {
      assert moves[0] in moves;
    } else if AbsSum(b) == 0 && current == agent.player {
      AbsSumZero(b);
    } else if AbsSum(b) == 1 && current == agent.player && CornerTaken(b) && b[4] == 0 {
    } else if AbsSum(b) == 1 && current == agent.player && b[4] != 0 && AvailableCorners(b) != [] {
    } else {
      SearchBestIsFirstArgmax(agent, b, current);
    }
  }

  /** Two empty cells make at least two candidates. */
  lemma TwoEmptyCells(b: Board, k0: nat, k1: nat)
    requires k0 < k1 < 9 && b[k0] == 0 && b[k1] == 0
    ensures |EmptyCells(b)| >= 2
  {
    EmptyCellsSpec(b);
    var ms := EmptyCells(b);
    assert MoveAt(k0) in ms && MoveAt(k1) in ms;
    var i0 :| 0 <= i0 < |ms| && ms[i0] == MoveAt(k0);
    var i1 :| 0 <= i1 < |ms| && ms[i1] == MoveAt(k1);
    assert i0 != i1;
  }

  /** With a single empty cell the selector always plays it, whatever the
      random values. */
  lemma ChooseMoveSingle(agent: MinimaxAgent, b: Board, current: int, roll: real, pick: nat, m: Move)
    requires agent.maxDepth >= 0
    requires IsEmptyCell(b, m) && forall m' :: IsEmptyCell(b, m') ==> m' == m
    ensures ChooseMove(agent, b, current, roll, pick) == Some(m)
  {
    SingleEmptyCell(b, m);
  }

  /** The agents of levels 4 and 5 never err: the roll does not matter. */
  lemma NoErrorsRollIgnored(agent: MinimaxAgent, b: Board, current: int, roll: real, roll': real, pick: nat)
    requires agent.maxDepth >= 0 && agent.errorRate <= 0 && roll >= 0.0 && roll' >= 0.0
    ensures ChooseMove(agent, b, current, roll, pick) == ChooseMove(agent, b, current, roll', pick)
  {
  }

  /** On an empty board, unless it errs, the agent opens in a corner or the
      centre. */
  lemma OpeningMove(agent: MinimaxAgent, b: Board, roll: real, pick: nat)
    requires agent.maxDepth >= 0 && !Errs(agent, roll)
    requires forall k :: 0 <= k < 9 ==> b[k] == 0
    ensures ChooseMove(agent, b, agent.player, roll, pick).Some?
    ensures ChooseMove(agent, b, agent.player, roll, pick).value in FirstMoves
  {
    TwoEmptyCells(b, 0, 1);
  }

  /** A board with a single mark has at least two empty cells. */
  lemma OneMarkTwoEmpty(b: Board)
    requires ValidBoard(b) && AbsSum(b) == 1
    ensures |EmptyCells(b)| >= 2
  {
    if b[1] == 0 && b[3] == 0 {
      TwoEmptyCells(b, 1, 3);
    } else {
      TwoEmptyCells(b, 5, 7);
    }
  }

  /** On the agent's first reply, unless it errs, a mark in a corner is
      answered in the centre. */
  lemma FirstReplyToCorner(agent: MinimaxAgent, b: Board, roll: real, pick: nat)
    requires agent.maxDepth >= 0 && !Errs(agent, roll) && ValidBoard(b) && AbsSum(b) == 1
    requires CornerTaken(b)
    ensures ChooseMove(agent, b, agent.player, roll, pick) == Some(Move(1, 1))
  {
    OneMarkTwoEmpty(b);
    assert b[4] == 0;
  }

  /** On the agent's first reply, unless it errs, a mark in the centre is
      answered in a corner. */
  lemma FirstReplyToCentre(agent: MinimaxAgent, b: Board, roll: real, pick: nat)
    requires agent.maxDepth >= 0 && !Errs(agent, roll) && ValidBoard(b) && AbsSum(b) == 1
    requires b[4] != 0
    ensures ChooseMove(agent, b, agent.player, roll, pick).Some?
    ensures ChooseMove(agent, b, agent.player, roll, pick).value in Corners
  {
    OneMarkTwoEmpty(b);
    CentreLeavesCorners(b);
    assert ChooseMove(agent, b, agent.player, roll, pick) == Some(Choose(AvailableCorners(b), pick));
  }

  /** With only the centre taken, no corner is taken and all four are free. */
  lemma CentreLeavesCorners(b: Board)
    requires ValidBoard(b) && AbsSum(b) == 1 && b[4] != 0
    ensures !CornerTaken(b) && |AvailableCorners(b)| == 4
  {
    assert b[4] == -1 || b[4] == 1;
  }

  /** Past the opening, unless it errs, the selector plays the first move in
      row-major order with the highest plain minimax value, searched to
      SearchDepth plies. */
  lemma LaterMovesSearch(agent: MinimaxAgent, b: Board, current: int, roll: real, pick: nat)
    requires agent.maxDepth >= 0 && !Errs(agent, roll)
    requires exists k0, k1 :: 0 <= k0 < k1 < 9 && b[k0] == 0 && b[k1] == 0
    requires AbsSum(b) >= 2 || current != agent.player || (AbsSum(b) == 1 && !CornerTaken(b) && b[4] == 0)
    ensures ChooseMove(agent, b, current, roll, pick) == Some(SearchBest(agent, b, current))
  {
    var k0, k1 :| 0 <= k0 < k1 < 9 && b[k0] == 0 && b[k1] == 0;
    TwoEmptyCells(b, k0, k1);
  }

  /** When the side to move is the agent and it can complete a line, the
      search branch picks a move worth 10: a win the search can force. */
  lemma SearchFindsWin(agent: MinimaxAgent, b: Board, m: Move, k: nat)
    requires agent.maxDepth >= 0 && (agent.player == -1 || agent.player == 1)
    requires ValidBoard(b) && Evaluate(b, agent.player) == 0
    requires IsEmptyCell(b, m) && k < 8 && LineWon(Place(b, m, agent.player), k)
    ensures !Full(b) && IsEmptyCell(b, SearchBest(agent, b, agent.player))
    ensures MoveValue(b, SearchBest(agent, b, agent.player), SearchDepth(agent, |EmptyCells(b)|), agent.player, agent.player) == 10
  {
    CompletingLineWins(b, m, agent.player, k);
    EmptyCellsSpec(b);
    assert m in EmptyCells(b);
    var depth := SearchDepth(agent, |EmptyCells(b)|);
    TerminalNode(Place(b, m, agent.player), depth, -INF, INF, false, -agent.player, agent.player);
    SearchBestIsFirstArgmax(agent, b, agent.player);
  }

  // ---------------------------------------------------------------------------
  // The selector as the engine runs it

  /** get_best_move: returns the move the agent plays, or None on a full
      board. */
  method GetBestMove(agent: MinimaxAgent, b: Board, mover: Option<int>, roll: real, pick: nat)
    returns (move: Option<Move>)
    requires agent.maxDepth >= 0
    ensures move == ChooseMove(agent, b, Mover(agent, mover), roll, pick)
    ensures move.None? <==> Full(b)
    ensures move.Some? ==> IsEmptyCell(b, move.value)
  {
    var current := if mover.Some? then mover.value else agent.player;
    ChooseMoveLegal(agent, b, current, roll, pick);
    if roll < agent.errorRate as real / 100.0 {
      var valid := CollectMoves(b);
      if valid != [] {
        return Some(Choose(valid, pick));
      }
    }
    var moves := CollectMoves(b);
    if moves == [] {
      return None;
    }
    if |moves| == 1 {
      return Some(moves[0]);
    }
    if AbsSum(b) == 0 && current == agent.player {
      return Some(Choose(FirstMoves, pick));
    }
    if AbsSum(b) == 1 && current == agent.player {
      if b[0] != 0 || b[2] != 0 || b[6] != 0 || b[8] != 0 {
        if b[4] == 0 {
          return Some(Move(1, 1));
        }
      }
      if b[4] != 0 {
        var corners := AvailableCorners(b);
        if corners != [] {
          return Some(Choose(corners, pick));
        }
      }
    }
    EmptyCellsScan(b);
    var best := SearchMove(agent, b, moves, current);
    move := Some(best);
  }
}
