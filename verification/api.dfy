/**
 * What the move endpoint does around the agent: it turns the nine cells it
 * receives into a board, picks the agent for the difficulty key and
 * reports the chosen cell as its flat position row * 3 + column.
 */
module Api {
  import opened Grid
  import opened Agent

  /** The board value of one cell given as a string: "X" is 1, "O" is -1,
      and any other value counts as an empty cell. */
  function CellValue(c: string): (v: int)
    ensures v == -1 || v == 0 || v == 1
    ensures v == 1 <==> c == "X"
    ensures v == -1 <==> c == "O"
  {
    if c == "X" then 1 else if c == "O" then -1 else 0
  }

  /** The board described by the first nine cells. */
  function Decoded(cells: seq<string>): (b: Board)
    requires |cells| >= 9
    ensures ValidBoard(b)
  {
    seq(9, k requires 0 <= k < 9 => CellValue(cells[k]))
  }

  /** A rendering of a board as cell strings: "X", "O", and "" for an empty
      cell. */
  function Encoded(b: Board): (cells: seq<string>)
    ensures |cells| == 9
  {
    seq(9, k requires 0 <= k < 9 => if b[k] == 1 then "X" else if b[k] == -1 then "O" else "")
  }

  /** Reading a rendered board gives the board back: every board of X, O and
      empty cells is the conversion of some nine-cell list. */
  lemma DecodeEncoded(b: Board)
    requires ValidBoard(b)
    ensures Decoded(Encoded(b)) == b
  {
    forall k | 0 <= k < 9
      ensures Decoded(Encoded(b))[k] == b[k]
    {
      assert b[k] == -1 || b[k] == 0 || b[k] == 1;
    }
  }

  /** Rendering what was read keeps every X and O where it was and turns
      every other cell into the empty string. */
  lemma EncodeDecoded(cells: seq<string>)
    requires |cells| >= 9
    ensures forall k :: 0 <= k < 9 ==>
      Encoded(Decoded(cells))[k] == (if cells[k] == "X" || cells[k] == "O" then cells[k] else "")
  {
  }

  /** Fills a zeroed 3x3 board from the cells, row by row; a list of fewer
      than nine cells has no board (the source fails on the missing index). */
  method ConvertBoard(cells: seq<string>) returns (r: Option<Board>)
    ensures r.None? <==> |cells| < 9
    ensures r.Some? ==> ValidBoard(r.value)
    ensures r.Some? ==> forall m :: OnBoard(m) ==>
      (r.value[Index(m)] == 1 <==> cells[Index(m)] == "X")
      && (r.value[Index(m)] == -1 <==> cells[Index(m)] == "O")
    ensures r.Some? ==> r.value == Decoded(cells)
  {
    if |cells| < 9 {
      return None;
    }
    var board := new int[9](_ => 0);
    for i := 0 to 3
      invariant forall k :: 0 <= k < i * 3 ==> board[k] == CellValue(cells[k])
      invariant forall k :: i * 3 <= k < 9 ==> board[k] == 0
    {
      for j := 0 to 3
        invariant forall k :: 0 <= k < i * 3 + j ==> board[k] == CellValue(cells[k])
        invariant forall k :: i * 3 + j <= k < 9 ==> board[k] == 0
      {
        var index := i * 3 + j;
        if cells[index] == "X" {
          board[index] := 1;
        } else if cells[index] == "O" {
          board[index] := -1;
        }
      }
    }
    r := Some(board[..]);
  }

  /** The move index the endpoint answers with: the agent for the key, O by
      default, moving on the board read from the cells; None when no cell is
      empty. */
  function MoveIndex(cells: seq<string>, key: string, roll: real, pick: nat): Option<int>
    requires |cells| >= 9
  {
    var agent := AgentFor(key);
    match ChooseMove(agent, Decoded(cells), agent.player, roll, pick)
    case None => None
    case Some(m) => Some(Index(m))
  }

  /** End to end, for every difficulty key and whatever the random values: the
      move has no index exactly when every cell is X or O, and otherwise names
      a position 0..8 whose cell is neither X nor O. The delay the endpoint
      computes from the key before moving, which can fail, is not part of
      this model. */
  lemma MoveIndexLegal(cells: seq<string>, key: string, roll: real, pick: nat)
    requires |cells| >= 9
    ensures MoveIndex(cells, key, roll, pick).None? <==>
      forall k :: 0 <= k < 9 ==> cells[k] == "X" || cells[k] == "O"
    ensures MoveIndex(cells, key, roll, pick).Some? ==>
      0 <= MoveIndex(cells, key, roll, pick).value < 9
      && cells[MoveIndex(cells, key, roll, pick).value] != "X"
      && cells[MoveIndex(cells, key, roll, pick).value] != "O"
  {
    var agent := AgentFor(key);
    var b := Decoded(cells);
    ChooseMoveLegal(agent, b, agent.player, roll, pick);
    if !Full(b) {
      var k :| 0 <= k < 9 && b[k] == 0;
      assert !(cells[k] == "X" || cells[k] == "O");
    }
  }
}
