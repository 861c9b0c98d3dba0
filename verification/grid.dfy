/**
 * The 3x3 board the engine searches over, stored row-major as nine integers:
 * 1 is X, -1 is O and 0 is an empty cell. A move names a cell by (row, column);
 * the cell's position in the flat board is row * 3 + column.
 */
module Grid {

  datatype Option<T> = None | Some(value: T)

  /** A board always has exactly nine cells; their values are not restricted,
      because the engine itself never checks them. */
  type Board = s: seq<int> | |s| == 9 witness [0, 0, 0, 0, 0, 0, 0, 0, 0]

  datatype Move = Move(row: int, col: int)

  predicate OnBoard(m: Move) {
    0 <= m.row < 3 && 0 <= m.col < 3
  }

  function Index(m: Move): int {
    m.row * 3 + m.col
  }

  /** The move that names the cell at flat position k. */
  function MoveAt(k: nat): (m: Move)
    requires k < 9
    ensures OnBoard(m) && Index(m) == k
  {
    Move(k / 3, k % 3)
  }

  lemma IndexInjective(m: Move, k: nat)
    requires OnBoard(m) && k < 9 && Index(m) == k
    ensures m == MoveAt(k)
  {
  }

  /** Boards as the front end produces them: every cell is X, O or empty. */
  predicate ValidBoard(b: Board) {
    forall k :: 0 <= k < 9 ==> b[k] == -1 || b[k] == 0 || b[k] == 1
  }

  predicate IsEmptyCell(b: Board, m: Move) {
    OnBoard(m) && b[Index(m)] == 0
  }

  /** No cell is empty. */
  predicate Full(b: Board) {
    b[0] != 0 && b[1] != 0 && b[2] != 0 && b[3] != 0 && b[4] != 0
    && b[5] != 0 && b[6] != 0 && b[7] != 0 && b[8] != 0
  }

  function Abs(x: int): int {
    if x < 0 then -x else x
  }

  /** The sum of the absolute values of all cells: the number of marks on a
      board of X, O and empty cells. */
  function AbsSum(b: Board): int {
    Abs(b[0]) + Abs(b[1]) + Abs(b[2]) + Abs(b[3]) + Abs(b[4])
    + Abs(b[5]) + Abs(b[6]) + Abs(b[7]) + Abs(b[8])
  }

  /** A copy of b in which the cell named by m holds mark. */
  function Place(b: Board, m: Move, mark: int): (r: Board)
    requires OnBoard(m)
  {
    b[Index(m) := mark]
  }

  /** The empty cells among the first n positions, in row-major order. */
  function EmptyUpTo(b: Board, n: nat): seq<Move>
    requires n <= 9
  {
    if n == 0 then []
    else
      var prefix := EmptyUpTo(b, n - 1);
      if b[n - 1] == 0 then prefix + [MoveAt(n - 1)] else prefix
  }

  /** The candidate moves: every empty cell, in row-major order. */
  function EmptyCells(b: Board): seq<Move> {
    EmptyUpTo(b, 9)
  }

  lemma {:induction false} EmptyUpToSpec(b: Board, n: nat)
    requires n <= 9
    ensures forall m :: m in EmptyUpTo(b, n) <==> IsEmptyCell(b, m) && Index(m) < n
    ensures forall i :: 0 <= i < |EmptyUpTo(b, n)| ==> Index(EmptyUpTo(b, n)[i]) < n
    ensures forall i, j :: 0 <= i < j < |EmptyUpTo(b, n)| ==> Index(EmptyUpTo(b, n)[i]) < Index(EmptyUpTo(b, n)[j])
  {
    if n > 0 {
      EmptyUpToSpec(b, n - 1);
      var prefix := EmptyUpTo(b, n - 1);
      if b[n - 1] == 0 {
        var r := prefix + [MoveAt(n - 1)];
        assert forall m :: m in r <==> m in prefix || m == MoveAt(n - 1);
        forall m | IsEmptyCell(b, m) && Index(m) < n
          ensures m in r
        {
          if Index(m) == n - 1 {
            IndexInjective(m, n - 1);
          }
        }
      } else {
        forall m | IsEmptyCell(b, m) && Index(m) < n
          ensures m in prefix
        {
        }
      }
    }
  }

  /** The candidate moves are exactly the empty cells. */
  lemma EmptyCellsMembers(b: Board)
    ensures forall m :: m in EmptyCells(b) <==> IsEmptyCell(b, m)
  {
    EmptyUpToSpec(b, 9);
  }

  /** The position of a candidate in the list follows row-major order. */
  lemma EmptyCellsOrdered(b: Board, i: nat, j: nat)
    requires i < |EmptyCells(b)| && j < |EmptyCells(b)|
    requires Index(EmptyCells(b)[i]) < Index(EmptyCells(b)[j])
    ensures i < j
  {
    EmptyUpToSpec(b, 9);
  }

  /** The candidate moves are exactly the empty cells, in strictly increasing
      row-major order, and there are none exactly when the board is full. */
  lemma EmptyCellsSpec(b: Board)
    ensures forall m :: m in EmptyCells(b) <==> IsEmptyCell(b, m)
    ensures forall i, j :: 0 <= i < j < |EmptyCells(b)| ==> Index(EmptyCells(b)[i]) < Index(EmptyCells(b)[j])
    ensures EmptyCells(b) == [] <==> Full(b)
  {
    EmptyUpToSpec(b, 9);
    if !Full(b) {
      var k :| 0 <= k < 9 && b[k] == 0;
      assert MoveAt(k) in EmptyCells(b);
    }
    if EmptyCells(b) != [] {
      assert EmptyCells(b)[0] in EmptyCells(b);
    }
  }

  /** The flat position of the i-th move in ms, or 9 once the moves run out. */
  function NextCell(ms: seq<Move>, i: nat): int {
    if i < |ms| then Index(ms[i]) else 9
  }

  /** The first flat position after the (i-1)-th move in ms, 0 for i = 0. */
  function GapStart(ms: seq<Move>, i: nat): int
    requires i <= |ms|
  {
    if i == 0 then 0 else Index(ms[i - 1]) + 1
  }

  lemma CandidatesOnBoard(b: Board, p: nat)
    requires p < |EmptyCells(b)|
    ensures OnBoard(EmptyCells(b)[p]) && b[Index(EmptyCells(b)[p])] == 0
  {
    EmptyCellsSpec(b);
    assert EmptyCells(b)[p] in EmptyCells(b);
  }

  lemma CellInGap(b: Board, i: nat, j: int)
    requires i <= |EmptyCells(b)| && 0 <= j < 9
    requires GapStart(EmptyCells(b), i) <= j < NextCell(EmptyCells(b), i)
    ensures b[j] != 0
  {
    var ms := EmptyCells(b);
    EmptyCellsSpec(b);
    forall p | 0 <= p < |ms|
      ensures ms[p] != MoveAt(j)
    {
      if p < i {
        assert Index(ms[p]) <= Index(ms[i - 1]);
      } else {
        assert Index(ms[i]) <= Index(ms[p]);
      }
    }
    assert MoveAt(j) !in ms;
  }

  /** The candidates skip only occupied cells: every cell strictly between
      two consecutive candidate moves (or before the first, or after the
      last) holds a mark. */
  lemma GapFilled(b: Board, i: nat)
    requires i <= |EmptyCells(b)|
    ensures 0 <= GapStart(EmptyCells(b), i) <= NextCell(EmptyCells(b), i) <= 9
    ensures forall j :: GapStart(EmptyCells(b), i) <= j < NextCell(EmptyCells(b), i) ==> b[j] != 0
  {
    var ms := EmptyCells(b);
    if i > 0 { CandidatesOnBoard(b, i - 1); }
    if i < |ms| { CandidatesOnBoard(b, i); }
    if 0 < i < |ms| {
      EmptyCellsSpec(b);
      assert Index(ms[i - 1]) < Index(ms[i]);
    }
    forall j | GapStart(ms, i) <= j < NextCell(ms, i)
      ensures b[j] != 0
    {
      CellInGap(b, i, j);
    }
  }

  /** The cells from GapStart(ms, i) up to NextCell(ms, i) hold marks. */
  predicate GapOccupied(b: Board, ms: seq<Move>, i: nat)
    requires i <= |ms|
  {
    0 <= GapStart(ms, i) <= NextCell(ms, i) <= 9
    && forall j :: GapStart(ms, i) <= j < NextCell(ms, i) ==> b[j] != 0
  }

  /** What a scan over ms relies on: every move is an empty cell on the
      board, and the cells skipped before, between and after the moves are
      occupied. */
  predicate ScanOrder(b: Board, ms: seq<Move>) {
    (forall i :: 0 <= i < |ms| ==> OnBoard(ms[i]) && b[Index(ms[i])] == 0)
    && (forall i :: 0 <= i <= |ms| ==> GapOccupied(b, ms, i))
  }

  /** The candidate moves are such a scan of the board. */
  lemma EmptyCellsScan(b: Board)
    ensures ScanOrder(b, EmptyCells(b))
  {
    var ms := EmptyCells(b);
    forall i | 0 <= i < |ms|
      ensures OnBoard(ms[i]) && b[Index(ms[i])] == 0
    {
      CandidatesOnBoard(b, i);
    }
    forall i | 0 <= i <= |ms|
      ensures GapOccupied(b, ms, i)
    {
      GapFilled(b, i);
    }
  }

  /** The number of empty cells among the first n positions. */
  function CountEmpty(b: Board, n: nat): nat
    requires n <= 9
  {
    if n == 0 then 0 else CountEmpty(b, n - 1) + (if b[n - 1] == 0 then 1 else 0)
  }

  lemma {:induction false} EmptyUpToCount(b: Board, n: nat)
    requires n <= 9
    ensures |EmptyUpTo(b, n)| == CountEmpty(b, n)
  {
    if n > 0 {
      EmptyUpToCount(b, n - 1);
    }
  }

  lemma {:induction false} PlaceCount(b: Board, m: Move, mark: int, n: nat)
    requires IsEmptyCell(b, m) && mark != 0 && n <= 9
    ensures CountEmpty(Place(b, m, mark), n) == CountEmpty(b, n) - (if Index(m) < n then 1 else 0)
  {
    if n > 0 {
      PlaceCount(b, m, mark, n - 1);
    }
  }

  /** Playing a mark on an empty cell changes that cell only, and leaves
      exactly one empty cell fewer: every ply brings the game closer to a full
      board. */
  lemma PlaceFillsOneCell(b: Board, m: Move, mark: int)
    requires IsEmptyCell(b, m) && mark != 0
    ensures m in EmptyCells(b) && Place(b, m, mark)[Index(m)] == mark
    ensures forall k :: 0 <= k < 9 && k != Index(m) ==> Place(b, m, mark)[k] == b[k]
    ensures |EmptyCells(Place(b, m, mark))| == |EmptyCells(b)| - 1
    ensures m !in EmptyCells(Place(b, m, mark))
  {
    EmptyCellsSpec(b);
    EmptyCellsSpec(Place(b, m, mark));
    EmptyUpToCount(b, 9);
    EmptyUpToCount(Place(b, m, mark), 9);
    PlaceCount(b, m, mark, 9);
  }

  lemma {:induction false} CountSingle(b: Board, m: Move, n: nat)
    requires n <= 9 && IsEmptyCell(b, m) && forall m' :: IsEmptyCell(b, m') ==> m' == m
    ensures CountEmpty(b, n) == if Index(m) < n then 1 else 0
  {
    if n > 0 {
      CountSingle(b, m, n - 1);
      if b[n - 1] == 0 {
        assert IsEmptyCell(b, MoveAt(n - 1));
      }
    }
  }

  /** A board with exactly one empty cell has that cell as its only
      candidate move. */
  lemma SingleEmptyCell(b: Board, m: Move)
    requires IsEmptyCell(b, m) && forall m' :: IsEmptyCell(b, m') ==> m' == m
    ensures EmptyCells(b) == [m]
  {
    var ms := EmptyCells(b);
    CountSingle(b, m, 9);
    EmptyUpToCount(b, 9);
    assert |ms| == 1;
    EmptyCellsMembers(b);
    assert m in ms;
    assert ms == [ms[0]];
  }

  /** Playing X or O keeps a board of X, O and empty cells. */
  lemma PlaceKeepsValid(b: Board, m: Move, mark: int)
    requires ValidBoard(b) && OnBoard(m) && (mark == -1 || mark == 1)
    ensures ValidBoard(Place(b, m, mark))
  {
  }

  /** Collects the empty cells row by row, each row left to right, appending
      each empty one. */
  method CollectMoves(b: Board) returns (moves: seq<Move>)
    ensures moves == EmptyCells(b)
    ensures forall m :: m in moves <==> IsEmptyCell(b, m)
  {
    moves := [];
    for i := 0 to 3
      invariant moves == EmptyUpTo(b, i * 3)
    {
      for j := 0 to 3
        invariant moves == EmptyUpTo(b, i * 3 + j)
      {
        var n := i * 3 + j;
        assert Move(i, j) == MoveAt(n);
        if b[n] == 0 {
          moves := moves + [Move(i, j)];
        }
      }
    }
    EmptyCellsSpec(b);
  }
}
