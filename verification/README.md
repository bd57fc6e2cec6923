# Gomoku engine core in Dafny

This project models the engine of a five-in-a-row (Gomoku) game played on a 9x9 board, as written in `Game.py`, and proves properties of that model. The board holds `.` (empty), `B` (black) and `W` (white) tokens. A player wins with five of their stones in a row along a row, a column or one of the two diagonals.

The engine has these parts:

- the board primitives (`create_board`, `is_valid_move`, `make_move`);
- the win detector `check_winner`;
- the candidate move generator `get_available_moves`, which offers every cell on an empty board and otherwise only the empty cells within Chebyshev distance 2 of a stone;
- the pattern evaluator: `PATTERN_WEIGHTS`, `pattern_score` and `evaluate_board`;
- the two depth-limited searches, `minimax` and `alphabeta`, with their root drivers `best_move_minimax` and `best_move_alphabeta`.

Modules, in dependency order:

- `Board` (board.dfy) holds:
  - the constants;
  - cells, players and positions;
  - the four scan directions;
  - `Grid`, the pure board value that every specification talks about;
  - the mutable board, an `array2<Cell>`, with its operations.
- `WinDetector` (windetect.dfy) defines `HasWin`, which says some cell starts five consecutive stones of the player. It holds the imperative `CheckWinner`, proved equal to `HasWin`.
- `MoveGen` (movegen.dfy) defines `Candidates`, the candidate list as a value. It holds the imperative `GetAvailableMoves`, proved to return exactly that list.
- `Evaluator` (evaluator.dfy) holds:
  - the weight table;
  - the window reading as functions;
  - the imperative `PatternScore` and `EvaluateBoard`, each proved equal to those functions.
- `Search` (search.dfy) holds:
  - scores extended with the two infinities (`Ext`);
  - `MinimaxValue` and `AlphaBetaValue`, recursive functions that give minimax and alpha-beta as values;
  - the root selection rules as values;
  - the imperative searches on the mutable board, each proved to return that value and to leave the board as it found it.
- `SearchProps` (searchprops.dfy) proves:
  - the game-tree meaning of minimax;
  - the fail-soft relation between alpha-beta and minimax on any window, and from it that the full-window alpha-beta equals minimax;
  - that both drivers return the first best candidate and agree with each other.

Where the code and its documentation differ, the model follows the code:

- `make_move` overwrites an occupied cell without raising any error.
- The search stops early on a score of exactly ±10000, a value the terminal scores (±1000000) never take.
- The set that `get_available_moves` returns is listed in an unspecified order. The model fixes it to row-major order.

## Model

| member | source | states |
|---|---|---|
| Board.CreateBoard | Game.py:24-25 | returns a fresh 9x9 board whose every cell is empty |
| Board.IsValidMove | Game.py:34-35 | true exactly when row and column both lie in 0..8 and that cell is empty |
| Board.MakeMove | Game.py:38-39 | the cell now holds the player's stone, whatever it held before; every other cell is unchanged |
| Board.SetCell | Game.py:162 | the cell now holds the given token (the search's try/undo assignment); every other cell is unchanged |
| Board.PlaceThenUndo | Game.py:162-165 | placing a stone on an empty cell and then resetting that cell to empty gives back the original board |
| Board.Opponent | Game.py:117 | the opponent of a player is the other colour |
| Board.OpponentInvolution | Game.py:140 | the opponent of the opponent is the player |
| Board.DirectionsComplete | Game.py:44 | each of the four directions (0,1), (1,0), (1,1), (1,-1) appears in the scan list |
| WinDetector.CheckWinner | Game.py:42-60 | true exactly when some on-board cell starts five consecutive on-board stones of the player in one of the four directions; the board is only read |
| WinDetector.NoStonesNoWin | Game.py:45-60 | a player with no stone on the board has not won |
| WinDetector.LongRunWins | Game.py:49-59 | a run of five or more stones is a win, because only the first five stones of a run are counted |
| WinDetector.FourInARowDoesNotWin | Game.py:42-60 | black stones at (4,0)..(4,3) alone are not a win |
| WinDetector.FiveInARowWins | Game.py:42-60 | black stones at (4,0)..(4,4) are a win |
| WinDetector.WinSymmetry | Game.py:42-60 | exchanging the colours of all stones exchanges the winners |
| MoveGen.Candidates | Game.py:84-95 | every candidate is on the board and empty, and none appears twice |
| MoveGen.CandidateMember | Game.py:65-95 | a cell is a candidate exactly when it is on the board and empty, and the board has no stone or some stone is within Chebyshev distance `radius` of it |
| MoveGen.CellsIn | Game.py:95 | turning a set into a list keeps exactly its on-board cells, each once |
| MoveGen.CellsWhere | Game.py:67-81 | the two comprehensions: in row-major order, the list of occupied cells or the list of empty cells |
| MoveGen.RowMajor | Game.py:95 | `list(candidates)` lists the set in row-major order |
| MoveGen.AddNearbyEmpties | Game.py:86-94 | the set grows by exactly the empty cells within Chebyshev distance `radius` of (r0, c0) |
| MoveGen.GetAvailableMoves | Game.py:65-95 | returns exactly `Candidates(board, radius)` |
| MoveGen.FirstMoveCandidates | Game.py:74-81 | with no occupied cell, the candidates are all the empty cells |
| MoveGen.NeighbourhoodCandidates | Game.py:83-95 | with stones on the board, the set the loop builds over the occupied list is the candidate set |
| MoveGen.CandidatesOnEmptyBoard | Game.py:74-81 | on an empty board every one of the 81 cells is a candidate, and nothing else is |
| MoveGen.CandidatesNearStones | Game.py:83-95 | once a stone is down, a cell is a candidate exactly when it is on the board, empty, and within Chebyshev distance `radius` of a stone |
| MoveGen.NoCandidatesOnlyWhenFull | Game.py:65-95 | with radius at least 1, the list is empty exactly when the board is full |
| Evaluator.WeightsShape | Game.py:101-112 | every weight is positive, and every pattern has five characters and at least one own stone |
| Evaluator.Mark | Game.py:126-132 | a cell reads 'X' exactly when it holds the player's stone, '.' exactly when it is an empty on-board cell, and 'O' exactly when it is off the board or holds the opponent's stone |
| Evaluator.Window | Game.py:123-133 | a window has five characters, and character i is the mark of the cell i steps along the direction |
| Evaluator.WindowScore | Game.py:133-135 | a window scores at least 0; a window with an 'O' scores 0; a window scores above 0 exactly when it has no 'O' and is in the table |
| Evaluator.ReadWindow | Game.py:123-133 | the loop builds exactly the window of the cell and direction |
| Evaluator.WindowsAt | Game.py:120-135 | returns the sum of the scores of the four windows that start at one cell |
| Evaluator.PatternScore | Game.py:116-136 | returns the sum of the window scores over every cell and direction, which is never negative |
| Evaluator.TotalAtLeastWindow | Game.py:118-136 | the total is at least the score of any single window that starts on the board |
| Evaluator.TotalZero | Game.py:118-136 | if every window scores 0, then the total is 0 |
| Evaluator.BlockedWindow | Game.py:128-135 | a window with an off-board cell or an opponent's stone adds nothing |
| Evaluator.NoStoneWindow | Game.py:101-135 | a window without one of the player's stones adds nothing |
| Evaluator.RunWindow | Game.py:101-135 | the window of a winning run reads "XXXXX" and adds 100000 |
| Evaluator.OpenFourWindow | Game.py:101-135 | an empty cell followed by four of the player's stones reads ".XXXX" and adds 5000 |
| Evaluator.EmptyBoardScoresZero | Game.py:116-136 | the empty board scores 0 |
| Evaluator.WinnerScoresHigh | Game.py:116-136 | a player who has won scores at least 100000 |
| Evaluator.PatternSymmetry | Game.py:116-136 | exchanging all colours together with the player leaves the score unchanged |
| Evaluator.EvaluateBoard | Game.py:139-150 | returns 1000000 if the player has won, otherwise -1000000 if the opponent has won, otherwise the player's score less 1.5 times the opponent's |
| Evaluator.EvaluationSymmetry | Game.py:139-150 | exchanging all colours together with the player leaves the evaluation unchanged |
| Evaluator.EmptyBoardEvaluation | Game.py:139-150 | the empty board evaluates to 0 |
| Search.Max | Game.py:163-164 | Python's `max`: at least both arguments, and equal to one of them (the first when they are equal) |
| Search.Min | Game.py:172-173 | Python's `min`: at most both arguments, and equal to one of them |
| Search.TryMinimax | Game.py:161-165 | tries one move: places the stone, searches one level down, and takes the stone back; returns the child's minimax value |
| Search.Minimax | Game.py:154-175 | the board ends as it started, and the result is `MinimaxValue` of the starting board |
| Search.MaximizeOver | Game.py:159-166 | the maximising loop returns the running maximum over the candidates and leaves the board unchanged |
| Search.MinimizeOver | Game.py:167-175 | the minimising loop, with the opponent's stones, returns the running minimum over the candidates and leaves the board unchanged |
| Search.TryAlphaBeta | Game.py:200-203 | one alpha-beta try/undo step; returns the child's alpha-beta value |
| Search.AlphaBeta | Game.py:192-219 | the board ends as it started, and the result is `AlphaBetaValue` of the starting board and window |
| Search.AlphaMaximizeOver | Game.py:197-207 | the maximising loop with the alpha update and the `beta <= alpha` break; leaves the board unchanged |
| Search.AlphaMinimizeOver | Game.py:208-219 | the minimising loop with the beta update and the `beta <= alpha` break; leaves the board unchanged |
| Search.MinimaxChoice | Game.py:181-188 | the selection loop returns the move it started with or one of the remaining candidates |
| Search.AlphaBetaChoice | Game.py:225-232 | the same for the alpha-beta driver |
| Search.BestMoveMinimax | Game.py:178-188 | the board ends as it started, and the result is the selection over the candidates by minimax score, where a later move replaces the best only with a strictly larger score |
| Search.BestMoveAlphaBeta | Game.py:222-232 | the same with alpha-beta scores on the full window (-inf, inf) |
| SearchProps.LeafValue | Game.py:155-157 | at a leaf, both searches return the static evaluation; a leaf is a score of exactly ±10000, depth 0, or no candidates |
| SearchProps.SearchGoesPastWins | Game.py:155-157 | a won or lost position with depth left and candidates remaining is not a leaf, because ±1000000 is not ±10000 |
| SearchProps.MaxFromIsMax | Game.py:160-166 | the maximising fold is at least its start and every child, and equals its start or one of the children |
| SearchProps.MinFromIsMin | Game.py:168-175 | the minimising fold is at most its start and every child, and equals its start or one of the children |
| SearchProps.MaximizingNode | Game.py:159-166 | at an inner maximising node, the value is at least every child's value (the player's stone on a candidate) and equals one of them |
| SearchProps.MinimizingNode | Game.py:167-175 | at an inner minimising node, the value is at most every child's value (the opponent's stone on a candidate) and equals one of them |
| SearchProps.BetaCutoff | Game.py:204-206 | breaking once the maximising score reaches beta keeps alpha-beta in the fail-soft relation to minimax |
| SearchProps.AlphaCutoff | Game.py:216-218 | breaking once the minimising score falls to alpha keeps alpha-beta in the fail-soft relation to minimax |
| SearchProps.MaxLoopConsistent | Game.py:197-207 | the maximising loops of alpha-beta and minimax stay in the fail-soft relation over the remaining moves |
| SearchProps.MinLoopConsistent | Game.py:208-219 | the minimising loops of alpha-beta and minimax stay in the fail-soft relation over the remaining moves |
| SearchProps.AlphaBetaConsistent | Game.py:192-219 | for any window with alpha < beta, alpha-beta is in the fail-soft relation to minimax: at most alpha when minimax is, equal inside the window, at least beta when minimax is |
| SearchProps.AlphaBetaEqualsMinimax | Game.py:192-219 | with the window (-inf, inf), alpha-beta returns exactly the minimax value |
| SearchProps.BestMovesAgree | Game.py:222-232 | `best_move_alphabeta` and `best_move_minimax` return the same move |
| SearchProps.PickFindsFirstMax | Game.py:183-187 | the strict-greater selection ends at the first largest score |
| SearchProps.ChoiceIsPick | Game.py:181-188 | the driver's selection loop is that selection applied to the root scores |
| SearchProps.BestMoveIsFirstBest | Game.py:178-188 | `best_move_minimax` returns None exactly when there is no candidate; otherwise it returns an empty on-board candidate whose score is the largest, and no earlier candidate scores as much |
| SearchProps.BestMoveAlphaBetaIsFirstBest | Game.py:222-232 | the same for `best_move_alphabeta` |

## Left out

- The Tk GUI, the console drivers, the AI-vs-AI loop, `print_board` and the random first move are not part of this model. They are I/O and randomness around the engine.
- Scores are exact reals rather than floating point. `math.inf` and `-math.inf` become the `PosInf` and `NegInf` values of `Ext`.
  - Every score the engine computes is a multiple of 0.5 well inside the exact range of a double, so the two agree.
- `Candidates` and `MoveGen.RowMajor` list the candidate set in row-major order. Python's set iteration order is unspecified.
  - Because of this, which move wins a tie between equally scored candidates matches the source only up to that order.
- `Board.MakeMove` requires on-board coordinates. Python would wrap negative indices and raise `IndexError` for indices that are too large. Every caller passes a move that is validated or generated.
- `Search.Minimax` and `Search.AlphaBeta` take the depth as a natural number. A negative depth, which never reaches 0 in the source, is not modelled.
- `Search.BestMoveMinimax` and `Search.BestMoveAlphaBeta` require a depth of at least 1. With depth 0 the source would search from depth -1, which is also not modelled.
- `Search.MinimaxChoice` and `Search.AlphaBetaChoice` state only that the result is the start move or a remaining candidate. `SearchProps.BestMoveIsFirstBest` states which candidate it is.
- `pattern_score` binds an `opponent` variable that it never uses. The model has no counterpart for it.
- The searches always call `get_available_moves` with its default radius of 2, as the source does. `MoveGen.GetAvailableMoves` keeps the radius as a parameter.
