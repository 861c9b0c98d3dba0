# Tic-tac-toe minimax agent

A Dafny model of the move engine of a Flask tic-tac-toe server: the
`MinimaxAgent` class of `app.py` (strength profile, board evaluator,
depth-bounded minimax with alpha-beta cutoffs and the move selector with its
random-error branch and opening shortcuts), the table of agents by difficulty
key with its level-3 fallback, and the conversion of the nine cells the front
end sends ("X", "O", or another value for an empty cell) into a board.

The board is a sequence of nine integers in row-major order (`1` is X, `-1`
is O, `0` is empty); a move `(row, col)` names the cell at `row * 3 + col`.
The model is split the way the engine is:

- `grid.dfy` (`Grid`): boards, moves, the candidate-move scan in row-major
  order (`CollectMoves`, specified by `EmptyCells`), and what playing one mark
  does to a board.
- `evaluation.dfy` (`Evaluation`): `evaluate_board`, written as the same
  eight checks in the same order (rows, columns, main diagonal,
  anti-diagonal, each "absolute line sum is 3"), with its meaning proved:
  0 exactly when no line holds three equal marks, otherwise the first such
  line in scan order decides, and 10 exactly when its mark is the agent's.
- `search.dfy` (`Search`): `minimax` as a recursive method whose two loops
  keep `best`, `alpha`/`beta` and break on `beta <= alpha`, proved equal to
  the pure function `SearchValue`. Plain minimax without cutoffs
  (`MinimaxValue`) is the reference: the fail-soft window property relates
  the two for every window, and with the full window (as the selector calls
  it) they are equal.
- `agent.dfy` (`Agent`): the strength profile, the agent table, and
  `get_best_move` as the method `GetBestMove`, specified branch by branch by
  the function `ChooseMove`.
- `api.dfy` (`Api`): `convert_board_to_numpy` and the move index the
  endpoint answers with.

The five files are verified together:
`dafny verify --resource-limit 2000000 grid.dfy evaluation.dfy search.dfy agent.dfy api.dfy`.

Python's `float('inf')` bounds are the integer sentinels `-INF`/`INF`
(`INF = 1000`), outside every score. The values `random.random()` and
`random.choice` would produce are parameters: `roll` is the drawn real, and
`random.choice(s)` is `s[pick % |s|]` for a parameter `pick` (one call of the
selector makes at most one choice). Boards are values, so "the input board is
never mutated" holds by construction; each child is a copy differing from its
parent in exactly one previously empty cell (`Grid.PlaceFillsOneCell`).

On the search branch the model proves that the chosen move has the highest
plain minimax value and is the first such move in row-major order. It does
not prove that the agent always plays an immediate win when one exists: the
search does not prefer shorter wins, so an earlier cell that forces a win
within the depth ties with the immediate win and is chosen.
`Agent.SearchFindsWin` states what does hold: the chosen move is worth 10.

## Model

| member | source | states |
|---|---|---|
| `Grid.CollectMoves` | app.py:157-161 | the scan collects exactly the empty cells, each once, in row-major order |
| `Grid.EmptyCellsSpec` | app.py:84-88 | candidate moves are exactly the empty cells, strictly increasing in row-major order, and none exist exactly when the board is full |
| `Grid.PlaceFillsOneCell` | app.py:95-97 | a child board differs from its parent only in the chosen, previously empty cell, which now holds the mover's mark, and has one empty cell fewer |
| `Grid.SingleEmptyCell` | app.py:168-169 | with exactly one empty cell, the candidate list is that cell alone |
| `Evaluation.Evaluate` | app.py:30-56 | the evaluation is always -10, 0 or 10 |
| `Evaluation.LineSumWon` | app.py:39 | on a board of X, O and empty cells, a line's absolute sum is 3 exactly when it holds three equal marks |
| `Evaluation.EvaluateSpec` | app.py:37-56 | the score is 0 iff no row, column or diagonal is won; otherwise the first won line in scan order decides, with 10 iff its mark is the agent's |
| `Evaluation.EvaluateOpponent` | app.py:30-56 | zero-sum: seen from the other side a board scores the opposite |
| `Evaluation.CompletingLineWins` | app.py:37-56 | completing a line on a board with no won line scores 10 for the side that played |
| `Search.SearchValue` | app.py:58-128 | the pruned search value is always -10, 0 or 10: the infinite initial value is always replaced |
| `Search.MaxFold` | app.py:91-108 | the maximizing loop never returns less than its running best, and returns a score once a child has been searched |
| `Search.MinFold` | app.py:110-128 | the minimizing loop never returns more than its running best, and returns a score once a child has been searched |
| `Search.Minimax` | app.py:58-128 | returns the pruned value; a won, depth-exhausted or full node returns its static evaluation; the result is a score and obeys the window property against plain minimax, equal to it for the full window |
| `Search.MaximizeOver` | app.py:91-108 | the maximizing loop returns the fold `MaxFold`: the children in row-major order, each searched as a minimizing node with the alpha raised by those before it, best and alpha raised to each score, stopping after the first child with beta <= alpha |
| `Search.MinimizeOver` | app.py:110-128 | the minimizing loop, symmetric for beta and the minimum |
| `Search.TerminalNode` | app.py:73-77 | a won, depth-exhausted or full node is not expanded: its value is the static evaluation |
| `Search.AlphaBetaSound` | app.py:91-128 | fail-soft soundness: at or below alpha the result bounds the true value from above, at or above beta from below, and strictly inside the window it is exact |
| `Search.FullWindowExact` | app.py:206 | called with the window (-inf, inf) the pruned search equals plain minimax |
| `Agent.NewAgent` | app.py:13-28 | depth min(9, 2d-1) and error rate max(0, 20-5d): depth at most 9 and at least 1 from level 1, error rate never negative and 0 from level 4 |
| `Agent.StrengthMonotone` | app.py:25-28 | a higher level searches at least as deep and errs at most as often |
| `Agent.AgentTable` | app.py:216-223 | levels 1 to 5 have depths 1, 3, 5, 7, 9 and error rates 15, 10, 5, 0, 0 |
| `Agent.AgentFor` | app.py:255 | a key in the table selects its agent; any other key selects the level-3 agent; every agent plays O |
| `Agent.Choose` | app.py:154 | a random choice is an element of the list it chooses from |
| `Agent.AvailableCorners` | app.py:185-186 | the free corners are exactly the corners whose cell is empty |
| `Agent.SearchDepth` | app.py:203-204 | each candidate is searched to the agent's depth or one more than the number of candidates, whichever is smaller |
| `Agent.SearchMove` | app.py:191-213 | the search loop returns one of the candidates, the one the strict-improvement fold over their scores keeps, starting from the first candidate |
| `Agent.BestFromArgmax` | app.py:208-211 | the strict-improvement fold ends on the first candidate with the highest score |
| `Agent.SearchBestIsFirstArgmax` | app.py:191-213 | the search branch plays an empty cell with the highest plain minimax value, and every empty cell before it in row-major order has a strictly lower value |
| `Agent.ChooseMoveLegal` | app.py:145-213 | the selector returns no move iff the board is full, and otherwise an empty cell on the board, on every branch |
| `Agent.ChooseMoveSingle` | app.py:168-169 | with exactly one empty cell the selector plays it, whatever the random values |
| `Agent.NoErrorsRollIgnored` | app.py:145 | agents with error rate 0 ignore the random roll |
| `Agent.OpeningMove` | app.py:172-174 | on an empty board the agent opens in a corner or the centre unless it errs |
| `Agent.FirstReplyToCorner` | app.py:177-181 | against a single mark in a corner the agent answers in the centre unless it errs |
| `Agent.FirstReplyToCentre` | app.py:183-188 | against a single mark in the centre the agent answers in a corner unless it errs |
| `Agent.LaterMovesSearch` | app.py:190-213 | with two or more empty cells and no opening shortcut (including the first reply to a single mark on an edge cell), the selector plays the search branch's move unless it errs |
| `Agent.SearchFindsWin` | app.py:191-213 | when the agent can complete a line, the search branch picks a move worth 10 |
| `Agent.GetBestMove` | app.py:130-213 | returns the selector's move; none iff the board is full; otherwise an empty cell |
| `Api.CellValue` | app.py:231-234 | a cell is 1 exactly when it is "X", -1 exactly when it is "O", and 0 otherwise |
| `Api.ConvertBoard` | app.py:226-235 | a board exists iff there are nine cells; it holds only -1, 0 and 1, with 1 exactly at "X" and -1 exactly at "O" |
| `Api.DecodeEncoded` | app.py:226-235 | reading a board rendered as "X", "O" and "" gives the board back: every board of X, O and empty cells is the conversion of some nine-cell list |
| `Api.EncodeDecoded` | app.py:226-235 | rendering a read board keeps X and O in place and empties every other cell |
| `Api.MoveIndexLegal` | app.py:262-268 | the endpoint has no move iff every cell is X or O, and otherwise answers a position 0 to 8 whose cell is neither |

## Left out

- The Flask routes, static file serving, JSON shaping and `app.run`: transport only.
- The artificial delay before answering (app.py:258-259): its length is timing only, but computing it fails for some keys, see the `Api.MoveIndexLegal` line below.
- The `difficulty_info` display strings: static text.
- The random number generator itself: its outputs are the parameters `roll` and `pick`.
- numpy: sums, diagonals and copies are written out over the nine cells.
- Floating point: the infinite search bounds are the sentinels `-INF` and `INF`.
- `static/js/game.js`, the browser client, is not part of this model.
- The second full-board test before the search loop in `minimax` (app.py:80-81) is not modelled: the first test already returned on a full board, so it can never succeed.
- Search.Minimax: the depth is a natural number. The source would recurse on a negative depth only for an agent of level 0 or below, and the agent table holds levels 1 to 5 only.
- Agent.GetBestMove: requires a non-negative search depth, which every agent of the table has.
- Api.MoveIndexLegal: the model answers for every difficulty key. The endpoint first computes its delay with `int(difficulty)` and `time.sleep`, which raise `ValueError` for a key `int()` rejects (such as "abc", "3.5" or the "None" of a JSON null) and for a negative one (such as "-1"), so for those keys it answers with an error instead of a level-3 move. Python's integer parsing is not modelled.
- Api.ConvertBoard: a list of fewer than nine cells gives no board, where the source raises an index error. The model covers string cells only; other JSON values such as `null` behave like any string other than "X" and "O".
