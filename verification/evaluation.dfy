/**
 * Static evaluation of a board from a reference player's point of view:
 * 10 when a line is won by the reference player, -10 when it is won by the
 * other side, 0 otherwise (a draw or an unfinished game).
 */
module Evaluation {
  import opened Grid

  type Cell = k: int | 0 <= k < 9

  /** The eight lines in the order the evaluator scans them: the three rows,
      the three columns, the main diagonal, the anti-diagonal. The first cell
      of each triple is the one whose mark decides the sign of the score. */
  const Lines: seq<(Cell, Cell, Cell)> := [
    (0, 1, 2), (3, 4, 5), (6, 7, 8),
    (0, 3, 6), (1, 4, 7), (2, 5, 8),
    (0, 4, 8),
    (2, 4, 6)
  ]

  function LineSum(b: Board, k: nat): int
    requires k < 8
  {
    b[Lines[k].0] + b[Lines[k].1] + b[Lines[k].2]
  }

  /** The line holds three equal marks that are not empty. */
  predicate LineWon(b: Board, k: nat)
    requires k < 8
  {
    b[Lines[k].0] != 0 && b[Lines[k].0] == b[Lines[k].1] == b[Lines[k].2]
  }

  /** Line k is won and no line scanned before it is. */
  predicate FirstWon(b: Board, k: nat)
    requires k < 8
  {
    LineWon(b, k) && forall j :: 0 <= j < k ==> !LineWon(b, j)
  }

  /** The scan over the eight lines from line k on, as a reference: the first
      line whose sum has absolute value 3 decides the score by the mark in its
      first cell. */
  function EvaluateFrom(b: Board, player: int, k: nat): (r: int)
    requires k <= 8
    ensures r == -10 || r == 0 || r == 10
    decreases 8 - k
  {
    if k == 8 then 0
    else if Abs(LineSum(b, k)) == 3 then (if b[Lines[k].0] == player then 10 else -10)
    else EvaluateFrom(b, player, k + 1)
  }

  /** The evaluator: rows first, then columns, then the main diagonal and the
      anti-diagonal; the first line whose three cells sum to 3 or -3 decides
      the score by the mark in its first cell, and a board with no such line
      scores 0. */
  function Evaluate(b: Board, player: int): (r: int)
    ensures r == -10 || r == 0 || r == 10
  {
    if Abs(b[0] + b[1] + b[2]) == 3 then (if b[0] == player then 10 else -10)
    else if Abs(b[3] + b[4] + b[5]) == 3 then (if b[3] == player then 10 else -10)
    else if Abs(b[6] + b[7] + b[8]) == 3 then (if b[6] == player then 10 else -10)
    else if Abs(b[0] + b[3] + b[6]) == 3 then (if b[0] == player then 10 else -10)
    else if Abs(b[1] + b[4] + b[7]) == 3 then (if b[1] == player then 10 else -10)
    else if Abs(b[2] + b[5] + b[8]) == 3 then (if b[2] == player then 10 else -10)
    else if Abs(b[0] + b[4] + b[8]) == 3 then (if b[0] == player then 10 else -10)
    else if Abs(b[2] + b[4] + b[6]) == 3 then (if b[2] == player then 10 else -10)
    else 0
  }

  /** The unrolled checks are exactly the scan over the line table. */
  lemma EvaluateScans(b: Board, player: int)
    ensures Evaluate(b, player) == EvaluateFrom(b, player, 0)
  {
  }

  /** On a board of X, O and empty cells, a line sums to 3 or -3 exactly when
      it holds three equal marks. */
  lemma LineSumWon(b: Board, k: nat)
    requires ValidBoard(b) && k < 8
    ensures Abs(LineSum(b, k)) == 3 <==> LineWon(b, k)
  {
    var t := Lines[k];
    assert b[t.0] == -1 || b[t.0] == 0 || b[t.0] == 1;
    assert b[t.1] == -1 || b[t.1] == 0 || b[t.1] == 1;
    assert b[t.2] == -1 || b[t.2] == 0 || b[t.2] == 1;
  }

  lemma {:induction false} EvaluateFromSpec(b: Board, player: int, k: nat)
    requires ValidBoard(b) && k <= 8
    ensures EvaluateFrom(b, player, k) == 0 <==> forall j :: k <= j < 8 ==> !LineWon(b, j)
    ensures EvaluateFrom(b, player, k) != 0 ==>
      exists j :: k <= j < 8 && LineWon(b, j) && (forall i :: k <= i < j ==> !LineWon(b, i))
               && (EvaluateFrom(b, player, k) == 10 <==> b[Lines[j].0] == player)
    decreases 8 - k
  {
    if k < 8 {
      LineSumWon(b, k);
      if !LineWon(b, k) {
        EvaluateFromSpec(b, player, k + 1);
        if EvaluateFrom(b, player, k) != 0 {
          var j :| k + 1 <= j < 8 && LineWon(b, j) && (forall i :: k + 1 <= i < j ==> !LineWon(b, i))
                   && (EvaluateFrom(b, player, k + 1) == 10 <==> b[Lines[j].0] == player);
          assert forall i :: k <= i < j ==> !LineWon(b, i);
        }
      }
    }
  }

  /** The evaluator's meaning, independent of how it sums the cells: the score
      is 0 exactly when no line is won; otherwise the first won line in scan
      order decides, and the score is 10 exactly when its mark is the
      reference player's. */
  lemma EvaluateSpec(b: Board, player: int)
    requires ValidBoard(b)
    ensures Evaluate(b, player) == 0 <==> forall k :: 0 <= k < 8 ==> !LineWon(b, k)
    ensures Evaluate(b, player) != 0 ==>
      exists k :: 0 <= k < 8 && FirstWon(b, k) && (Evaluate(b, player) == 10 <==> b[Lines[k].0] == player)
  {
    EvaluateScans(b, player);
    EvaluateFromSpec(b, player, 0);
  }

  lemma {:induction false} EvaluateFromOpponent(b: Board, player: int, k: nat)
    requires ValidBoard(b) && (player == -1 || player == 1) && k <= 8
    ensures EvaluateFrom(b, -player, k) == -EvaluateFrom(b, player, k)
    decreases 8 - k
  {
    if k < 8 {
      LineSumWon(b, k);
      if Abs(LineSum(b, k)) != 3 {
        EvaluateFromOpponent(b, player, k + 1);
      }
    }
  }

  /** The game is zero-sum: seen from the other side, the same board scores
      the opposite. */
  lemma EvaluateOpponent(b: Board, player: int)
    requires ValidBoard(b) && (player == -1 || player == 1)
    ensures Evaluate(b, -player) == -Evaluate(b, player)
  {
    EvaluateScans(b, player);
    EvaluateScans(b, -player);
    EvaluateFromOpponent(b, player, 0);
  }

  /** A line that playing m wins, and that was not won before, holds the
      mark just played. */
  lemma NewLineHoldsMover(b: Board, m: Move, mark: int, k: nat)
    requires OnBoard(m) && k < 8
    requires LineWon(Place(b, m, mark), k) && !LineWon(b, k)
    ensures Place(b, m, mark)[Lines[k].0] == mark
  {
  }

  /** Completing a line on a board where no line is won yet wins the game for
      the side that played: seen from that side the board scores 10. */
  lemma CompletingLineWins(b: Board, m: Move, mark: int, k: nat)
    requires ValidBoard(b) && (mark == -1 || mark == 1) && Evaluate(b, mark) == 0
    requires IsEmptyCell(b, m) && k < 8 && LineWon(Place(b, m, mark), k)
    ensures Evaluate(Place(b, m, mark), mark) == 10
  {
    var b' := Place(b, m, mark);
    EvaluateSpec(b, mark);
    PlaceKeepsValid(b, m, mark);
    EvaluateSpec(b', mark);
    var k' :| 0 <= k' < 8 && FirstWon(b', k') && (Evaluate(b', mark) == 10 <==> b'[Lines[k'].0] == mark);
    NewLineHoldsMover(b, m, mark, k');
  }
}
