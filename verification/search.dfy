/** The search: depth-limited minimax, alpha-beta, and the two root drivers
    that pick a move. Scores are the evaluator's, seen from one fixed player;
    the maximising side places that player's stones, the minimising side the
    opponent's. */
module Search {
  import opened Board
  import opened WinDetector
  import opened MoveGen
  import opened Evaluator

  // ---- Scores extended with the two infinities ----

  /** A score, or -math.inf / math.inf. */
  datatype Ext = NegInf | Fin(v: real) | PosInf

  predicate Le(x: Ext, y: Ext)
  {
    match (x, y)
    case (NegInf, _) => true
    case (_, PosInf) => true
    case (Fin(a), Fin(b)) => a <= b
    case _ => false
  }

  predicate Lt(x: Ext, y: Ext)
  {
    !Le(y, x)
  }

  /** Python's max(x, y): y only when it is strictly larger. */
  function Max(x: Ext, y: Ext): (m: Ext)
    ensures Le(x, m) && Le(y, m) && (m == x || m == y)
  {
    if Lt(x, y) then y else x
  }

  /** Python's min(x, y): y only when it is strictly smaller. */
  function Min(x: Ext, y: Ext): (m: Ext)
    ensures Le(m, x) && Le(m, y) && (m == x || m == y)
  {
    if Lt(y, x) then y else x
  }

  function Abs(x: real): (y: real)
    ensures y >= 0.0 && (y == x || y == -x)
  {
    if x < 0.0 then -x else x
  }

  /** Every move of ms is on the board. */
  predicate OnBoard(ms: seq<Pos>)
  {
    forall j :: 0 <= j < |ms| ==> InBounds(ms[j].0, ms[j].1)
  }

  /** Every move of ms is an empty cell of g. */
  predicate Playable(g: Grid, ms: seq<Pos>)
  {
    forall j :: 0 <= j < |ms| ==> InBounds(ms[j].0, ms[j].1) && g[ms[j].0][ms[j].1] == Empty
  }

  /** The leaf test shared by minimax and alphabeta: a heuristic score of
      exactly 10000 in absolute value, the depth used up, or no candidates. */
  predicate Leaf(g: Grid, depth: nat, p: Player)
  {
    Abs(Evaluation(g, p)) == 10000.0 || depth == 0 || Candidates(g, Radius) == []
  }

  // ---- minimax as a value ----

  /** minimax(board, depth, is_maximizing, player). */
  function MinimaxValue(g: Grid, depth: nat, maximizing: bool, p: Player): (v: Ext)
    ensures v.Fin?
    decreases depth, 1
  {
    if Leaf(g, depth, p) then Fin(Evaluation(g, p))
    else if maximizing then MaxFrom(g, Candidates(g, Radius), 0, depth, p, NegInf)
    else MinFrom(g, Candidates(g, Radius), 0, depth, p, PosInf)
  }

  /** The maximising loop from index i on, best being the best so far. */
  function MaxFrom(g: Grid, ms: seq<Pos>, i: int, depth: nat, p: Player, best: Ext): (v: Ext)
    requires depth >= 1 && OnBoard(ms) && 0 <= i <= |ms|
    requires best != PosInf
    ensures v != PosInf
    ensures i < |ms| || best.Fin? ==> v.Fin?
    decreases depth, 0, |ms| - i
  {
    if i == |ms| then best
    else MaxFrom(g, ms, i + 1, depth, p, Max(best, MaxChild(g, ms[i], depth, p)))
  }

  /** The minimising loop from index i on, best being the best so far. */
  function MinFrom(g: Grid, ms: seq<Pos>, i: int, depth: nat, p: Player, best: Ext): (v: Ext)
    requires depth >= 1 && OnBoard(ms) && 0 <= i <= |ms|
    requires best != NegInf
    ensures v != NegInf
    ensures i < |ms| || best.Fin? ==> v.Fin?
    decreases depth, 0, |ms| - i
  {
    if i == |ms| then best
    else MinFrom(g, ms, i + 1, depth, p, Min(best, MinChild(g, ms[i], depth, p)))
  }

  /** The value of the child where the maximising side plays m. */
  function MaxChild(g: Grid, m: Pos, depth: nat, p: Player): (v: Ext)
    requires depth >= 1 && InBounds(m.0, m.1)
    ensures v.Fin?
    decreases depth, 0, 0
  {
    MinimaxValue(Place(g, m.0, m.1, p), depth - 1, false, p)
  }

  /** The value of the child where the minimising side plays m. */
  function MinChild(g: Grid, m: Pos, depth: nat, p: Player): (v: Ext)
    requires depth >= 1 && InBounds(m.0, m.1)
    ensures v.Fin?
    decreases depth, 0, 0
  {
    MinimaxValue(Place(g, m.0, m.1, Opponent(p)), depth - 1, true, p)
  }

  // ---- alphabeta as a value ----

  /** alphabeta(board, depth, alpha, beta, is_maximizing, player). */
  function AlphaBetaValue(g: Grid, depth: nat, alpha: Ext, beta: Ext, maximizing: bool, p: Player): (v: Ext)
    ensures v.Fin?
    decreases depth, 1
  {
    if Leaf(g, depth, p) then Fin(Evaluation(g, p))
    else if maximizing then ABMaxFrom(g, Candidates(g, Radius), 0, depth, alpha, beta, p, NegInf)
    else ABMinFrom(g, Candidates(g, Radius), 0, depth, alpha, beta, p, PosInf)
  }

  /** The maximising loop of alphabeta from index i on: alpha is raised to the
      best score so far and the loop stops once beta <= alpha. */
  function ABMaxFrom(g: Grid, ms: seq<Pos>, i: int, depth: nat, alpha: Ext, beta: Ext, p: Player, best: Ext): (v: Ext)
    requires depth >= 1 && OnBoard(ms) && 0 <= i <= |ms|
    requires best != PosInf
    ensures v != PosInf
    ensures i < |ms| || best.Fin? ==> v.Fin?
    decreases depth, 0, |ms| - i
  {
    if i == |ms| then best
    else
      var best' := Max(best, ABMaxChild(g, ms[i], depth, alpha, beta, p));
      var alpha' := Max(alpha, best');
      if Le(beta, alpha') then best'
      else ABMaxFrom(g, ms, i + 1, depth, alpha', beta, p, best')
  }

  /** The minimising loop of alphabeta from index i on: beta is lowered to the
      best score so far and the loop stops once beta <= alpha. */
  function ABMinFrom(g: Grid, ms: seq<Pos>, i: int, depth: nat, alpha: Ext, beta: Ext, p: Player, best: Ext): (v: Ext)
    requires depth >= 1 && OnBoard(ms) && 0 <= i <= |ms|
    requires best != NegInf
    ensures v != NegInf
    ensures i < |ms| || best.Fin? ==> v.Fin?
    decreases depth, 0, |ms| - i
  {
    if i == |ms| then best
    else
      var best' := Min(best, ABMinChild(g, ms[i], depth, alpha, beta, p));
      var beta' := Min(beta, best');
      if Le(beta', alpha) then best'
      else ABMinFrom(g, ms, i + 1, depth, alpha, beta', p, best')
  }

  /** The alphabeta value of the child where the maximising side plays m. */
  function ABMaxChild(g: Grid, m: Pos, depth: nat, alpha: Ext, beta: Ext, p: Player): (v: Ext)
    requires depth >= 1 && InBounds(m.0, m.1)
    ensures v.Fin?
    decreases depth, 0, 0
  {
    AlphaBetaValue(Place(g, m.0, m.1, p), depth - 1, alpha, beta, false, p)
  }

  /** The alphabeta value of the child where the minimising side plays m. */
  function ABMinChild(g: Grid, m: Pos, depth: nat, alpha: Ext, beta: Ext, p: Player): (v: Ext)
    requires depth >= 1 && InBounds(m.0, m.1)
    ensures v.Fin?
    decreases depth, 0, 0
  {
    AlphaBetaValue(Place(g, m.0, m.1, Opponent(p)), depth - 1, alpha, beta, true, p)
  }

  // ---- The root drivers as values ----

  /** The selection loop of best_move_minimax from index i on: a move
      replaces the best one only when its score is strictly larger. */
  function MinimaxChoice(g: Grid, ms: seq<Pos>, i: int, depth: nat, p: Player, best: Ext, move: Option<Pos>)
    : (r: Option<Pos>)
    requires depth >= 1 && OnBoard(ms) && 0 <= i <= |ms|
    ensures r == move || exists j :: i <= j < |ms| && r == Some(ms[j])
    decreases |ms| - i
  {
    if i == |ms| then move
    else
      var score := MaxChild(g, ms[i], depth, p);
      if Lt(best, score) then MinimaxChoice(g, ms, i + 1, depth, p, score, Some(ms[i]))
      else MinimaxChoice(g, ms, i + 1, depth, p, best, move)
  }

  /** The selection loop of best_move_alphabeta from index i on. */
  function AlphaBetaChoice(g: Grid, ms: seq<Pos>, i: int, depth: nat, p: Player, best: Ext, move: Option<Pos>)
    : (r: Option<Pos>)
    requires depth >= 1 && OnBoard(ms) && 0 <= i <= |ms|
    ensures r == move || exists j :: i <= j < |ms| && r == Some(ms[j])
    decreases |ms| - i
  {
    if i == |ms| then move
    else
      var score := ABMaxChild(g, ms[i], depth, NegInf, PosInf, p);
      if Lt(best, score) then AlphaBetaChoice(g, ms, i + 1, depth, p, score, Some(ms[i]))
      else AlphaBetaChoice(g, ms, i + 1, depth, p, best, move)
  }

  /** best_move_minimax(board, player, depth). */
  function BestMoveMinimaxValue(g: Grid, p: Player, depth: nat): Option<Pos>
    requires depth >= 1
  {
    MinimaxChoice(g, Candidates(g, Radius), 0, depth, p, NegInf, None)
  }

  /** best_move_alphabeta(board, player, depth). */
  function BestMoveAlphaBetaValue(g: Grid, p: Player, depth: nat): Option<Pos>
    requires depth >= 1
  {
    AlphaBetaChoice(g, Candidates(g, Radius), 0, depth, p, NegInf, None)
  }

  // ---- The search on the mutable board ----

  /** One step of a search loop: put stone on the empty cell (row, col),
      run minimax one level down, and reset the cell to empty. */
  method TryMinimax(a: array2<Cell>, ghost g: Grid, row: int, col: int, stone: Player, depth: nat, isMaximizing: bool, player: Player)
    returns (score: Ext)
    requires a.Length0 == N && a.Length1 == N
    requires Snapshot(a) == g
    requires InBounds(row, col) && g[row][col] == Empty
    modifies a
    ensures Snapshot(a) == g
    ensures score == MinimaxValue(Place(g, row, col, stone), depth, isMaximizing, player)
    decreases depth, 2
  {
    SetCell(a, row, col, stone);
    score := Minimax(a, depth, isMaximizing, player);
    SetCell(a, row, col, Empty);
    PlaceThenUndo(g, row, col, stone);
  }

  /** minimax: evaluates the board, stops at a leaf, and otherwise searches
      every candidate; the board comes back unchanged. */
  method Minimax(a: array2<Cell>, depth: nat, isMaximizing: bool, player: Player) returns (v: Ext)
    requires a.Length0 == N && a.Length1 == N
    modifies a
    ensures Snapshot(a) == old(Snapshot(a))
    ensures v == MinimaxValue(old(Snapshot(a)), depth, isMaximizing, player)
    decreases depth, 1
  {
    ghost var g := Snapshot(a);
    MinimaxUnfold(g, depth, isMaximizing, player);
    var score := EvaluateBoard(a, player);
    if Abs(score) == 10000.0 || depth == 0 {
      return Fin(score);
    }
    var available := GetAvailableMoves(a);
    if available == [] {
      return Fin(score);
    }
    var moves := GetAvailableMoves(a);
    if isMaximizing {
      v := MaximizeOver(a, g, moves, depth, player);
    } else {
      v := MinimizeOver(a, g, moves, depth, player);
    }
  }

  /** The maximising branch of minimax: each move gets the player's stone and
      is searched one level shallower. */
  method MaximizeOver(a: array2<Cell>, ghost g: Grid, moves: seq<Pos>, depth: nat, player: Player) returns (best: Ext)
    requires a.Length0 == N && a.Length1 == N && depth >= 1
    requires Snapshot(a) == g && Playable(g, moves)
    modifies a
    ensures Snapshot(a) == g
    ensures best == MaxFrom(g, moves, 0, depth, player, NegInf)
    decreases depth, 0
  {
    best := NegInf;
    for i := 0 to |moves|
      invariant Snapshot(a) == g
      invariant best != PosInf
      invariant MaxFrom(g, moves, i, depth, player, best) == MaxFrom(g, moves, 0, depth, player, NegInf)
    {
      var row, col := moves[i].0, moves[i].1;
      var child := TryMinimax(a, g, row, col, player, depth - 1, false, player);
      MaxFromUnfold(g, moves, i, depth, player, best, child);
      best := Max(best, child);
    }
  }

  /** The minimising branch of minimax: each move gets the opponent's stone. */
  method MinimizeOver(a: array2<Cell>, ghost g: Grid, moves: seq<Pos>, depth: nat, player: Player) returns (best: Ext)
    requires a.Length0 == N && a.Length1 == N && depth >= 1
    requires Snapshot(a) == g && Playable(g, moves)
    modifies a
    ensures Snapshot(a) == g
    ensures best == MinFrom(g, moves, 0, depth, player, PosInf)
    decreases depth, 0
  {
    best := PosInf;
    var opponent := Opponent(player);
    for i := 0 to |moves|
      invariant Snapshot(a) == g
      invariant best != NegInf
      invariant MinFrom(g, moves, i, depth, player, best) == MinFrom(g, moves, 0, depth, player, PosInf)
    {
      var row, col := moves[i].0, moves[i].1;
      var child := TryMinimax(a, g, row, col, opponent, depth - 1, true, player);
      MinFromUnfold(g, moves, i, depth, player, best, child);
      best := Min(best, child);
    }
  }

  /** One step of an alphabeta loop: put stone on the empty cell (row, col),
      run alphabeta one level down with the current window, and reset the
      cell to empty. */
  method TryAlphaBeta(a: array2<Cell>, ghost g: Grid, row: int, col: int, stone: Player, depth: nat, alpha: Ext, beta: Ext,
                      isMaximizing: bool, player: Player) returns (score: Ext)
    requires a.Length0 == N && a.Length1 == N
    requires Snapshot(a) == g
    requires InBounds(row, col) && g[row][col] == Empty
    modifies a
    ensures Snapshot(a) == g
    ensures score == AlphaBetaValue(Place(g, row, col, stone), depth, alpha, beta, isMaximizing, player)
    decreases depth, 2
  {
    SetCell(a, row, col, stone);
    score := AlphaBeta(a, depth, alpha, beta, isMaximizing, player);
    SetCell(a, row, col, Empty);
    PlaceThenUndo(g, row, col, stone);
  }

  /** alphabeta: like minimax, with the window (alpha, beta) passed down; the
      board comes back unchanged. */
  method AlphaBeta(a: array2<Cell>, depth: nat, alpha: Ext, beta: Ext, isMaximizing: bool, player: Player)
    returns (v: Ext)
    requires a.Length0 == N && a.Length1 == N
    modifies a
    ensures Snapshot(a) == old(Snapshot(a))
    ensures v == AlphaBetaValue(old(Snapshot(a)), depth, alpha, beta, isMaximizing, player)
    decreases depth, 1
  {
    ghost var g := Snapshot(a);
    AlphaBetaUnfold(g, depth, alpha, beta, isMaximizing, player);
    var score := EvaluateBoard(a, player);
    if Abs(score) == 10000.0 || depth == 0 {
      return Fin(score);
    }
    var available := GetAvailableMoves(a);
    if available == [] {
      return Fin(score);
    }
    var moves := GetAvailableMoves(a);
    if isMaximizing {
      v := AlphaMaximizeOver(a, g, moves, depth, alpha, beta, player);
    } else {
      v := AlphaMinimizeOver(a, g, moves, depth, alpha, beta, player);
    }
  }

  /** The maximising branch of alphabeta: alpha is raised to the best score
      after each move, and the loop stops once beta <= alpha. */
  method AlphaMaximizeOver(a: array2<Cell>, ghost g: Grid, moves: seq<Pos>, depth: nat, alpha0: Ext, beta: Ext, player: Player)
    returns (best: Ext)
    requires a.Length0 == N && a.Length1 == N && depth >= 1
    requires Snapshot(a) == g && Playable(g, moves)
    modifies a
    ensures Snapshot(a) == g
    ensures best == ABMaxFrom(g, moves, 0, depth, alpha0, beta, player, NegInf)
    decreases depth, 0
  {
    var alpha := alpha0;
    best := NegInf;
    for i := 0 to |moves|
      invariant Snapshot(a) == g
      invariant best != PosInf
      invariant ABMaxFrom(g, moves, i, depth, alpha, beta, player, best) == ABMaxFrom(g, moves, 0, depth, alpha0, beta, player, NegInf)
    {
      var row, col := moves[i].0, moves[i].1;
      var child := TryAlphaBeta(a, g, row, col, player, depth - 1, alpha, beta, false, player);
      ABMaxUnfold(g, moves, i, depth, alpha, beta, player, best, child);
      best := Max(best, child);
      alpha := Max(alpha, best);
      if Le(beta, alpha) {
        break;
      }
    }
  }

  /** The minimising branch of alphabeta: beta is lowered to the best score
      after each move, and the loop stops once beta <= alpha. */
  method AlphaMinimizeOver(a: array2<Cell>, ghost g: Grid, moves: seq<Pos>, depth: nat, alpha: Ext, beta0: Ext, player: Player)
    returns (best: Ext)
    requires a.Length0 == N && a.Length1 == N && depth >= 1
    requires Snapshot(a) == g && Playable(g, moves)
    modifies a
    ensures Snapshot(a) == g
    ensures best == ABMinFrom(g, moves, 0, depth, alpha, beta0, player, PosInf)
    decreases depth, 0
  {
    var beta := beta0;
    best := PosInf;
    var opponent := Opponent(player);
    for i := 0 to |moves|
      invariant Snapshot(a) == g
      invariant best != NegInf
      invariant ABMinFrom(g, moves, i, depth, alpha, beta, player, best) == ABMinFrom(g, moves, 0, depth, alpha, beta0, player, PosInf)
    {
      var row, col := moves[i].0, moves[i].1;
      var child := TryAlphaBeta(a, g, row, col, opponent, depth - 1, alpha, beta, true, player);
      ABMinUnfold(g, moves, i, depth, alpha, beta, player, best, child);
      best := Min(best, child);
      beta := Min(beta, best);
      if Le(beta, alpha) {
        break;
      }
    }
  }

  /** best_move_minimax: scores every candidate with minimax and keeps the
      first one whose score is strictly the largest; None when there is no
      candidate. The board comes back unchanged. */
  method BestMoveMinimax(a: array2<Cell>, player: Player, depth: int := SearchDepth) returns (move: Option<Pos>)
    requires a.Length0 == N && a.Length1 == N
    requires depth >= 1
    modifies a
    ensures Snapshot(a) == old(Snapshot(a))
    ensures move == BestMoveMinimaxValue(old(Snapshot(a)), player, depth)
  {
    ghost var g := Snapshot(a);
    var moves := GetAvailableMoves(a);
    var bestScore := NegInf;
    move := None;
    for i := 0 to |moves|
      invariant Snapshot(a) == g
      invariant MinimaxChoice(g, moves, i, depth, player, bestScore, move) == MinimaxChoice(g, moves, 0, depth, player, NegInf, None)
    {
      var row, col := moves[i].0, moves[i].1;
      var score := TryMinimax(a, g, row, col, player, depth - 1, false, player);
      MinimaxChoiceUnfold(g, moves, i, depth, player, bestScore, move, score);
      if Lt(bestScore, score) {
        bestScore := score;
        move := Some((row, col));
      }
    }
  }

  /** best_move_alphabeta: the same loop, each candidate scored by alphabeta
      with the full window (-inf, inf). The board comes back unchanged. */
  method BestMoveAlphaBeta(a: array2<Cell>, player: Player, depth: int := SearchDepth) returns (move: Option<Pos>)
    requires a.Length0 == N && a.Length1 == N
    requires depth >= 1
    modifies a
    ensures Snapshot(a) == old(Snapshot(a))
    ensures move == BestMoveAlphaBetaValue(old(Snapshot(a)), player, depth)
  {
    ghost var g := Snapshot(a);
    var moves := GetAvailableMoves(a);
    var bestScore := NegInf;
    move := None;
    for i := 0 to |moves|
      invariant Snapshot(a) == g
      invariant AlphaBetaChoice(g, moves, i, depth, player, bestScore, move) == AlphaBetaChoice(g, moves, 0, depth, player, NegInf, None)
    {
      var row, col := moves[i].0, moves[i].1;
      var score := TryAlphaBeta(a, g, row, col, player, depth - 1, NegInf, PosInf, false, player);
      AlphaBetaChoiceUnfold(g, moves, i, depth, player, bestScore, move, score);
      if Lt(bestScore, score) {
        bestScore := score;
        move := Some((row, col));
      }
    }
  }

  lemma MaxFromUnfold(g: Grid, ms: seq<Pos>, i: int, depth: nat, p: Player, best: Ext, child: Ext)
    requires depth >= 1 && OnBoard(ms) && 0 <= i < |ms|
    requires best != PosInf
    requires child == MaxChild(g, ms[i], depth, p)
    ensures MaxFrom(g, ms, i, depth, p, best) == MaxFrom(g, ms, i + 1, depth, p, Max(best, child))
  {
  }

  lemma MinFromUnfold(g: Grid, ms: seq<Pos>, i: int, depth: nat, p: Player, best: Ext, child: Ext)
    requires depth >= 1 && OnBoard(ms) && 0 <= i < |ms|
    requires best != NegInf
    requires child == MinChild(g, ms[i], depth, p)
    ensures MinFrom(g, ms, i, depth, p, best) == MinFrom(g, ms, i + 1, depth, p, Min(best, child))
  {
  }

  lemma ABMaxUnfold(g: Grid, ms: seq<Pos>, i: int, depth: nat, alpha: Ext, beta: Ext, p: Player, best: Ext, child: Ext)
    requires depth >= 1 && OnBoard(ms) && 0 <= i < |ms|
    requires best != PosInf
    requires child == ABMaxChild(g, ms[i], depth, alpha, beta, p)
    ensures ABMaxFrom(g, ms, i, depth, alpha, beta, p, best) ==
      if Le(beta, Max(alpha, Max(best, child))) then Max(best, child)
      else ABMaxFrom(g, ms, i + 1, depth, Max(alpha, Max(best, child)), beta, p, Max(best, child))
  {
  }

  lemma ABMinUnfold(g: Grid, ms: seq<Pos>, i: int, depth: nat, alpha: Ext, beta: Ext, p: Player, best: Ext, child: Ext)
    requires depth >= 1 && OnBoard(ms) && 0 <= i < |ms|
    requires best != NegInf
    requires child == ABMinChild(g, ms[i], depth, alpha, beta, p)
    ensures ABMinFrom(g, ms, i, depth, alpha, beta, p, best) ==
      if Le(Min(beta, Min(best, child)), alpha) then Min(best, child)
      else ABMinFrom(g, ms, i + 1, depth, alpha, Min(beta, Min(best, child)), p, Min(best, child))
  {
  }

  lemma AlphaBetaUnfold(g: Grid, depth: nat, alpha: Ext, beta: Ext, maximizing: bool, p: Player)
    ensures AlphaBetaValue(g, depth, alpha, beta, maximizing, p) ==
      if Leaf(g, depth, p) then Fin(Evaluation(g, p))
      else if maximizing then ABMaxFrom(g, Candidates(g, Radius), 0, depth, alpha, beta, p, NegInf)
      else ABMinFrom(g, Candidates(g, Radius), 0, depth, alpha, beta, p, PosInf)
  {
  }

  lemma MinimaxUnfold(g: Grid, depth: nat, maximizing: bool, p: Player)
    ensures MinimaxValue(g, depth, maximizing, p) ==
      if Leaf(g, depth, p) then Fin(Evaluation(g, p))
      else if maximizing then MaxFrom(g, Candidates(g, Radius), 0, depth, p, NegInf)
      else MinFrom(g, Candidates(g, Radius), 0, depth, p, PosInf)
  {
  }

  lemma MinimaxChoiceUnfold(g: Grid, ms: seq<Pos>, i: int, depth: nat, p: Player, best: Ext, move: Option<Pos>, score: Ext)
    requires depth >= 1 && OnBoard(ms) && 0 <= i < |ms|
    requires score == MaxChild(g, ms[i], depth, p)
    ensures MinimaxChoice(g, ms, i, depth, p, best, move) ==
      if Lt(best, score) then MinimaxChoice(g, ms, i + 1, depth, p, score, Some(ms[i]))
      else MinimaxChoice(g, ms, i + 1, depth, p, best, move)
  {
  }

  lemma AlphaBetaChoiceUnfold(g: Grid, ms: seq<Pos>, i: int, depth: nat, p: Player, best: Ext, move: Option<Pos>, score: Ext)
    requires depth >= 1 && OnBoard(ms) && 0 <= i < |ms|
    requires score == ABMaxChild(g, ms[i], depth, NegInf, PosInf, p)
    ensures AlphaBetaChoice(g, ms, i, depth, p, best, move) ==
      if Lt(best, score) then AlphaBetaChoice(g, ms, i + 1, depth, p, score, Some(ms[i]))
      else AlphaBetaChoice(g, ms, i + 1, depth, p, best, move)
  {
  }
}
