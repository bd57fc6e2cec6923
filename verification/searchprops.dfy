/** What the search computes: the minimax value of a node is the best of its
    children's values, alphabeta agrees with minimax (exactly inside its
    window, on the right side of it outside), the two root drivers pick the
    same move, and that move is the first candidate with the largest score. */
module SearchProps {
  import opened Board
  import opened MoveGen
  import opened Evaluator
  import opened WinDetector
  import opened Search

  // ---- The order on extended scores ----

  lemma LeTrans(x: Ext, y: Ext, z: Ext)
    requires Le(x, y) && Le(y, z)
    ensures Le(x, z)
  {
  }

  lemma LeRefl(x: Ext)
    ensures Le(x, x)
  {
  }

  lemma LeLtTrans(x: Ext, y: Ext, z: Ext)
    requires Le(x, y) && Lt(y, z)
    ensures Lt(x, z)
  {
  }

  lemma LtLeTrans(x: Ext, y: Ext, z: Ext)
    requires Lt(x, y) && Le(y, z)
    ensures Lt(x, z)
  {
  }

  // ---- A minimax node is the best of its children ----

  /** MaxFrom never goes below what it starts from, reaches every child's
      value, and ends at its start or at one of the children. */
  lemma {:induction false} MaxFromIsMax(g: Grid, ms: seq<Pos>, i: int, depth: nat, p: Player, best: Ext)
    requires depth >= 1 && OnBoard(ms) && 0 <= i <= |ms| && best != PosInf
    ensures Le(best, MaxFrom(g, ms, i, depth, p, best))
    ensures forall j :: i <= j < |ms| ==> Le(MaxChild(g, ms[j], depth, p), MaxFrom(g, ms, i, depth, p, best))
    ensures MaxFrom(g, ms, i, depth, p, best) == best ||
            exists j :: i <= j < |ms| && MaxFrom(g, ms, i, depth, p, best) == MaxChild(g, ms[j], depth, p)
    decreases |ms| - i
  {
    if i < |ms| {
      var child := MaxChild(g, ms[i], depth, p);
      var best' := Max(best, child);
      MaxFromUnfold(g, ms, i, depth, p, best, child);
      MaxFromIsMax(g, ms, i + 1, depth, p, best');
      var v := MaxFrom(g, ms, i, depth, p, best);
      LeTrans(best, best', v);
      forall j | i <= j < |ms|
        ensures Le(MaxChild(g, ms[j], depth, p), v)
      {
        if j == i {
          LeTrans(child, best', v);
        }
      }
      if v != best' {
        var j :| i + 1 <= j < |ms| && v == MaxChild(g, ms[j], depth, p);
      }
    }
  }

  /** MinFrom never goes above what it starts from, stays at or below every
      child's value, and ends at its start or at one of the children. */
  lemma {:induction false} MinFromIsMin(g: Grid, ms: seq<Pos>, i: int, depth: nat, p: Player, best: Ext)
    requires depth >= 1 && OnBoard(ms) && 0 <= i <= |ms| && best != NegInf
    ensures Le(MinFrom(g, ms, i, depth, p, best), best)
    ensures forall j :: i <= j < |ms| ==> Le(MinFrom(g, ms, i, depth, p, best), MinChild(g, ms[j], depth, p))
    ensures MinFrom(g, ms, i, depth, p, best) == best ||
            exists j :: i <= j < |ms| && MinFrom(g, ms, i, depth, p, best) == MinChild(g, ms[j], depth, p)
    decreases |ms| - i
  {
    if i < |ms| {
      var child := MinChild(g, ms[i], depth, p);
      var best' := Min(best, child);
      MinFromUnfold(g, ms, i, depth, p, best, child);
      MinFromIsMin(g, ms, i + 1, depth, p, best');
      var v := MinFrom(g, ms, i, depth, p, best);
      LeTrans(v, best', best);
      forall j | i <= j < |ms|
        ensures Le(v, MinChild(g, ms[j], depth, p))
      {
        if j == i {
          LeTrans(v, best', child);
        }
      }
      if v != best' {
        var j :| i + 1 <= j < |ms| && v == MinChild(g, ms[j], depth, p);
      }
    }
  }

  /** At an inner maximising node minimax is the largest value of the
      children, one per candidate move with the player's stone on it. */
  lemma MaximizingNode(g: Grid, depth: nat, p: Player)
    requires !Leaf(g, depth, p)
    ensures var ms := Candidates(g, Radius);
      (forall j :: 0 <= j < |ms| ==> Le(MaxChild(g, ms[j], depth, p), MinimaxValue(g, depth, true, p))) &&
      (exists j :: 0 <= j < |ms| && MinimaxValue(g, depth, true, p) == MaxChild(g, ms[j], depth, p))
  {
    var ms := Candidates(g, Radius);
    MinimaxUnfold(g, depth, true, p);
    MaxFromIsMax(g, ms, 0, depth, p, NegInf);
  }

  /** At an inner minimising node minimax is the smallest value of the
      children, one per candidate move with the opponent's stone on it. */
  lemma MinimizingNode(g: Grid, depth: nat, p: Player)
    requires !Leaf(g, depth, p)
    ensures var ms := Candidates(g, Radius);
      (forall j :: 0 <= j < |ms| ==> Le(MinimaxValue(g, depth, false, p), MinChild(g, ms[j], depth, p))) &&
      (exists j :: 0 <= j < |ms| && MinimaxValue(g, depth, false, p) == MinChild(g, ms[j], depth, p))
  {
    var ms := Candidates(g, Radius);
    MinimaxUnfold(g, depth, false, p);
    MinFromIsMin(g, ms, 0, depth, p, PosInf);
  }

  /** At a leaf (a heuristic score of exactly plus or minus 10000, depth 0, or
      no candidate) both searches return the static evaluation. */
  lemma LeafValue(g: Grid, depth: nat, alpha: Ext, beta: Ext, maximizing: bool, p: Player)
    requires Abs(Evaluation(g, p)) == 10000.0 || depth == 0 || Candidates(g, Radius) == []
    ensures MinimaxValue(g, depth, maximizing, p) == Fin(Evaluation(g, p))
    ensures AlphaBetaValue(g, depth, alpha, beta, maximizing, p) == Fin(Evaluation(g, p))
  {
  }

  /** The leaf test compares against 10000, which neither terminal score
      (plus or minus 1000000) equals: a position where either side already
      has five in a row is searched further while depth and candidates
      remain. */
  lemma SearchGoesPastWins(g: Grid, depth: nat, p: Player)
    requires HasWin(g, p) || HasWin(g, Opponent(p))
    requires depth >= 1 && Candidates(g, Radius) != []
    ensures !Leaf(g, depth, p)
  {
  }

  // ---- Alphabeta agrees with minimax ----

  /** The fail-soft relation between an alphabeta result v and the minimax
      value m for the window (alpha, beta): at or below alpha both are, strictly
      inside the window they are equal, at or above beta both are. */
  predicate Consistent(v: Ext, m: Ext, alpha: Ext, beta: Ext)
  {
    (Le(m, alpha) ==> Le(v, alpha)) &&
    (Lt(alpha, m) && Lt(m, beta) ==> v == m) &&
    (Le(beta, m) ==> Le(beta, v))
  }

  lemma MaxAssoc(x: Ext, y: Ext, z: Ext)
    ensures Max(Max(x, y), Max(y, z)) == Max(x, Max(y, z))
  {
  }

  lemma MinAssoc(x: Ext, y: Ext, z: Ext)
    ensures Min(Min(x, y), Min(y, z)) == Min(x, Min(y, z))
  {
  }

  /** One step of the maximising loop keeps the relation: the running alpha is
      alpha0 raised to the best alphabeta score so far. */
  lemma MaxStep(alpha0: Ext, beta: Ext, b: Ext, bm: Ext, v: Ext, m: Ext)
    requires Lt(alpha0, beta) && Lt(Max(alpha0, b), beta)
    requires Consistent(b, bm, alpha0, beta)
    requires Consistent(v, m, Max(alpha0, b), beta)
    ensures Consistent(Max(b, v), Max(bm, m), alpha0, beta)
  {
  }

  /** One step of the minimising loop keeps the relation. */
  lemma MinStep(alpha: Ext, beta0: Ext, b: Ext, bm: Ext, v: Ext, m: Ext)
    requires Lt(alpha, beta0) && Lt(alpha, Min(beta0, b))
    requires Consistent(b, bm, alpha, beta0)
    requires Consistent(v, m, alpha, Min(beta0, b))
    ensures Consistent(Min(b, v), Min(bm, m), alpha, beta0)
  {
  }

  /** A beta cutoff: once the alphabeta score reaches beta, minimax's value,
      which only grows over the remaining moves, is at or above beta too. */
  lemma BetaCutoff(alpha: Ext, beta: Ext, b: Ext, bm: Ext, m: Ext)
    requires Lt(alpha, beta) && Le(beta, b)
    requires Consistent(b, bm, alpha, beta) && Le(bm, m)
    ensures Consistent(b, m, alpha, beta)
  {
    if Le(bm, alpha) {
      LeTrans(beta, b, alpha);
    }
    if Lt(m, beta) {
      LeLtTrans(bm, m, beta);
    }
  }

  /** An alpha cutoff: once the alphabeta score falls to alpha, minimax's value,
      which only shrinks over the remaining moves, is at or below alpha too. */
  lemma AlphaCutoff(alpha: Ext, beta: Ext, b: Ext, bm: Ext, m: Ext)
    requires Lt(alpha, beta) && Le(b, alpha)
    requires Consistent(b, bm, alpha, beta) && Le(m, bm)
    ensures Consistent(b, m, alpha, beta)
  {
    if Le(beta, bm) {
      LeTrans(beta, b, alpha);
    }
    if Lt(alpha, m) {
      LtLeTrans(alpha, m, bm);
    }
  }

  /** The alphabeta value of a node stands in the fail-soft relation to its
      minimax value, for every non-empty window. */
  lemma {:induction false} AlphaBetaConsistent(g: Grid, depth: nat, alpha: Ext, beta: Ext, maximizing: bool, p: Player)
    requires Lt(alpha, beta)
    ensures Consistent(AlphaBetaValue(g, depth, alpha, beta, maximizing, p), MinimaxValue(g, depth, maximizing, p), alpha, beta)
    decreases depth, 1
  {
    AlphaBetaUnfold(g, depth, alpha, beta, maximizing, p);
    MinimaxUnfold(g, depth, maximizing, p);
    if Leaf(g, depth, p) {
      LeRefl(MinimaxValue(g, depth, maximizing, p));
    } else {
      if maximizing {
        MaxLoopStart(g, Candidates(g, Radius), depth, alpha, beta, p);
      } else {
        MinLoopStart(g, Candidates(g, Radius), depth, alpha, beta, p);
      }
    }
  }

  /** The maximising loops, started from -inf, are related. */
  lemma MaxLoopStart(g: Grid, ms: seq<Pos>, depth: nat, alpha: Ext, beta: Ext, p: Player)
    requires depth >= 1 && OnBoard(ms) && Lt(alpha, beta)
    ensures Consistent(ABMaxFrom(g, ms, 0, depth, alpha, beta, p, NegInf), MaxFrom(g, ms, 0, depth, p, NegInf), alpha, beta)
    decreases depth, 0, |ms| + 1
  {
    assert Max(alpha, NegInf) == alpha;
    MaxLoopConsistent(g, ms, 0, depth, alpha, beta, p, NegInf, NegInf);
  }

  /** The minimising loops, started from +inf, are related. */
  lemma MinLoopStart(g: Grid, ms: seq<Pos>, depth: nat, alpha: Ext, beta: Ext, p: Player)
    requires depth >= 1 && OnBoard(ms) && Lt(alpha, beta)
    ensures Consistent(ABMinFrom(g, ms, 0, depth, alpha, beta, p, PosInf), MinFrom(g, ms, 0, depth, p, PosInf), alpha, beta)
    decreases depth, 0, |ms| + 1
  {
    assert Min(beta, PosInf) == beta;
    MinLoopConsistent(g, ms, 0, depth, alpha, beta, p, PosInf, PosInf);
  }

  /** The maximising loops of alphabeta (from alpha = Max(alpha0, b), best b)
      and of minimax (best bm) stay related from index i on. */
  lemma {:induction false} MaxLoopConsistent(g: Grid, ms: seq<Pos>, i: int, depth: nat, alpha0: Ext, beta: Ext, p: Player, b: Ext, bm: Ext)
    requires depth >= 1 && OnBoard(ms) && 0 <= i <= |ms|
    requires b != PosInf && bm != PosInf
    requires Lt(alpha0, beta) && Lt(Max(alpha0, b), beta)
    requires Consistent(b, bm, alpha0, beta)
    ensures Consistent(ABMaxFrom(g, ms, i, depth, Max(alpha0, b), beta, p, b), MaxFrom(g, ms, i, depth, p, bm), alpha0, beta)
    decreases depth, 0, |ms| - i
  {
    if i < |ms| {
      var a := Max(alpha0, b);
      var child := Place(g, ms[i].0, ms[i].1, p);
      var v := ABMaxChild(g, ms[i], depth, a, beta, p);
      var m := MaxChild(g, ms[i], depth, p);
      AlphaBetaConsistent(child, depth - 1, a, beta, false, p);
      MaxStep(alpha0, beta, b, bm, v, m);
      var b', bm' := Max(b, v), Max(bm, m);
      MaxAssoc(alpha0, b, v);
      ABMaxUnfold(g, ms, i, depth, a, beta, p, b, v);
      MaxFromUnfold(g, ms, i, depth, p, bm, m);
      if Le(beta, Max(alpha0, b')) {
        MaxFromIsMax(g, ms, i + 1, depth, p, bm');
        BetaCutoff(alpha0, beta, b', bm', MaxFrom(g, ms, i + 1, depth, p, bm'));
      } else {
        MaxLoopConsistent(g, ms, i + 1, depth, alpha0, beta, p, b', bm');
      }
    }
  }

  /** The minimising loops of alphabeta (from beta = Min(beta0, b), best b)
      and of minimax (best bm) stay related from index i on. */
  lemma {:induction false} MinLoopConsistent(g: Grid, ms: seq<Pos>, i: int, depth: nat, alpha: Ext, beta0: Ext, p: Player, b: Ext, bm: Ext)
    requires depth >= 1 && OnBoard(ms) && 0 <= i <= |ms|
    requires b != NegInf && bm != NegInf
    requires Lt(alpha, beta0) && Lt(alpha, Min(beta0, b))
    requires Consistent(b, bm, alpha, beta0)
    ensures Consistent(ABMinFrom(g, ms, i, depth, alpha, Min(beta0, b), p, b), MinFrom(g, ms, i, depth, p, bm), alpha, beta0)
    decreases depth, 0, |ms| - i
  {
    if i < |ms| {
      var bt := Min(beta0, b);
      var child := Place(g, ms[i].0, ms[i].1, Opponent(p));
      var v := ABMinChild(g, ms[i], depth, alpha, bt, p);
      var m := MinChild(g, ms[i], depth, p);
      AlphaBetaConsistent(child, depth - 1, alpha, bt, true, p);
      MinStep(alpha, beta0, b, bm, v, m);
      var b', bm' := Min(b, v), Min(bm, m);
      MinAssoc(beta0, b, v);
      ABMinUnfold(g, ms, i, depth, alpha, bt, p, b, v);
      MinFromUnfold(g, ms, i, depth, p, bm, m);
      if Le(Min(beta0, b'), alpha) {
        MinFromIsMin(g, ms, i + 1, depth, p, bm');
        AlphaCutoff(alpha, beta0, b', bm', MinFrom(g, ms, i + 1, depth, p, bm'));
      } else {
        MinLoopConsistent(g, ms, i + 1, depth, alpha, beta0, p, b', bm');
      }
    }
  }

  /** With the full window (-inf, inf) alphabeta returns the minimax value. */
  lemma AlphaBetaEqualsMinimax(g: Grid, depth: nat, maximizing: bool, p: Player)
    ensures AlphaBetaValue(g, depth, NegInf, PosInf, maximizing, p) == MinimaxValue(g, depth, maximizing, p)
  {
    AlphaBetaConsistent(g, depth, NegInf, PosInf, maximizing, p);
  }

  // ---- The root drivers ----

  /** The selection loops of the two drivers pick the same move, since every
      candidate gets the same score. */
  lemma {:induction false} ChoicesAgree(g: Grid, ms: seq<Pos>, i: int, depth: nat, p: Player, best: Ext, move: Option<Pos>)
    requires depth >= 1 && OnBoard(ms) && 0 <= i <= |ms|
    ensures AlphaBetaChoice(g, ms, i, depth, p, best, move) == MinimaxChoice(g, ms, i, depth, p, best, move)
    decreases |ms| - i
  {
    if i < |ms| {
      var score := MaxChild(g, ms[i], depth, p);
      AlphaBetaEqualsMinimax(Place(g, ms[i].0, ms[i].1, p), depth - 1, false, p);
      MinimaxChoiceUnfold(g, ms, i, depth, p, best, move, score);
      AlphaBetaChoiceUnfold(g, ms, i, depth, p, best, move, score);
      ChoicesAgree(g, ms, i + 1, depth, p, score, Some(ms[i]));
      ChoicesAgree(g, ms, i + 1, depth, p, best, move);
    }
  }

  /** best_move_alphabeta and best_move_minimax return the same move. */
  lemma BestMovesAgree(g: Grid, p: Player, depth: nat)
    requires depth >= 1
    ensures BestMoveAlphaBetaValue(g, p, depth) == BestMoveMinimaxValue(g, p, depth)
  {
    ChoicesAgree(g, Candidates(g, Radius), 0, depth, p, NegInf, None);
  }

  /** The selection rule on a plain list of scores: from index i on, with the
      best score so far and its index k, an entry replaces the best only when
      it is strictly larger. */
  function Pick(xs: seq<Ext>, i: int, best: Ext, k: int): (r: int)
    requires 0 <= i <= |xs|
    ensures r == k || i <= r < |xs|
    decreases |xs| - i
  {
    if i == |xs| then k
    else if Lt(best, xs[i]) then Pick(xs, i + 1, xs[i], i)
    else Pick(xs, i + 1, best, k)
  }

  /** Entry r of xs is a largest one, and the first of them. */
  predicate FirstMax(xs: seq<Ext>, r: int)
    requires 0 <= r < |xs|
  {
    (forall j :: 0 <= j < |xs| ==> Le(xs[j], xs[r])) &&
    (forall j :: 0 <= j < r ==> Lt(xs[j], xs[r]))
  }

  /** If entry k is the first largest of the first i entries, the selection
      rule ends at the first largest entry of the whole list. */
  lemma {:induction false} PickFindsFirstMax(xs: seq<Ext>, i: int, k: int)
    requires 0 <= k < i <= |xs|
    requires forall j :: 0 <= j < i ==> Le(xs[j], xs[k])
    requires forall j :: 0 <= j < k ==> Lt(xs[j], xs[k])
    ensures k <= Pick(xs, i, xs[k], k) < |xs| && FirstMax(xs, Pick(xs, i, xs[k], k))
    decreases |xs| - i
  {
    if i < |xs| {
      if Lt(xs[k], xs[i]) {
        forall j | 0 <= j < i + 1
          ensures Le(xs[j], xs[i])
        {
          if j < i {
            LeLtTrans(xs[j], xs[k], xs[i]);
          } else {
            LeRefl(xs[i]);
          }
        }
        forall j | 0 <= j < i
          ensures Lt(xs[j], xs[i])
        {
          LeLtTrans(xs[j], xs[k], xs[i]);
        }
        PickFindsFirstMax(xs, i + 1, i);
      } else {
        PickFindsFirstMax(xs, i + 1, k);
      }
    }
  }

  lemma ChoiceEnd(g: Grid, ms: seq<Pos>, depth: nat, p: Player, best: Ext, move: Option<Pos>)
    requires depth >= 1 && OnBoard(ms)
    ensures MinimaxChoice(g, ms, |ms|, depth, p, best, move) == move
  {
  }

  /** Started on the first entry, the selection rule ends at the first
      largest entry. */
  lemma PickFromStart(xs: seq<Ext>)
    requires xs != []
    ensures 0 <= Pick(xs, 1, xs[0], 0) < |xs| && FirstMax(xs, Pick(xs, 1, xs[0], 0))
  {
    LeRefl(xs[0]);
    PickFindsFirstMax(xs, 1, 0);
  }

  /** The selection loop of best_move_minimax is the selection rule applied
      to the candidates' scores. */
  lemma {:induction false} ChoiceIsPick(g: Grid, ms: seq<Pos>, xs: seq<Ext>, i: int, depth: nat, p: Player, best: Ext, k: int)
    requires depth >= 1 && OnBoard(ms) && 0 <= i <= |ms| && 0 <= k < |ms|
    requires |xs| == |ms| && forall j :: 0 <= j < |ms| ==> xs[j] == MaxChild(g, ms[j], depth, p)
    ensures MinimaxChoice(g, ms, i, depth, p, best, Some(ms[k])) == Some(ms[Pick(xs, i, best, k)])
    decreases |ms| - i
  {
    if i == |ms| {
      ChoiceEnd(g, ms, depth, p, best, Some(ms[k]));
    } else {
      MinimaxChoiceUnfold(g, ms, i, depth, p, best, Some(ms[k]), xs[i]);
      if Lt(best, xs[i]) {
        ChoiceIsPick(g, ms, xs, i + 1, depth, p, xs[i], i);
      } else {
        ChoiceIsPick(g, ms, xs, i + 1, depth, p, best, k);
      }
    }
  }

  /** The scores the root driver gives the candidates, in order. */
  function RootScores(g: Grid, ms: seq<Pos>, depth: nat, p: Player): (xs: seq<Ext>)
    requires depth >= 1 && OnBoard(ms)
    ensures |xs| == |ms| && forall j :: 0 <= j < |ms| ==> xs[j] == MaxChild(g, ms[j], depth, p)
  {
    seq(|ms|, j requires 0 <= j < |ms| => MaxChild(g, ms[j], depth, p))
  }

  /** The k-th move is the first whose score is the largest. */
  predicate FirstBest(g: Grid, ms: seq<Pos>, k: int, depth: nat, p: Player)
    requires depth >= 1 && OnBoard(ms) && 0 <= k < |ms|
  {
    FirstMax(RootScores(g, ms, depth, p), k)
  }

  /** best_move_minimax returns None exactly when there is no candidate, and
      otherwise an empty cell among the candidates whose score is the largest,
      the first such in candidate order. */
  lemma BestMoveIsFirstBest(g: Grid, p: Player, depth: nat)
    requires depth >= 1
    ensures BestMoveMinimaxValue(g, p, depth) == None <==> Candidates(g, Radius) == []
    ensures var ms := Candidates(g, Radius);
      BestMoveMinimaxValue(g, p, depth).Some? ==>
        var m := BestMoveMinimaxValue(g, p, depth).value;
        InBounds(m.0, m.1) && g[m.0][m.1] == Empty &&
        exists k :: 0 <= k < |ms| && ms[k] == m && FirstBest(g, ms, k, depth, p)
  {
    var ms := Candidates(g, Radius);
    if ms != [] {
      var k := ChoiceOfSome(g, ms, RootScores(g, ms, depth, p), depth, p);
      assert ms[k] == BestMoveMinimaxValue(g, p, depth).value;
    }
  }

  /** On a non-empty list the selection loop, started from -inf and no move,
      ends at the first best move. */
  lemma ChoiceOfSome(g: Grid, ms: seq<Pos>, xs: seq<Ext>, depth: nat, p: Player) returns (k: int)
    requires depth >= 1 && OnBoard(ms) && ms != []
    requires |xs| == |ms| && forall j :: 0 <= j < |ms| ==> xs[j] == MaxChild(g, ms[j], depth, p)
    ensures 0 <= k < |ms| && FirstMax(xs, k)
    ensures MinimaxChoice(g, ms, 0, depth, p, NegInf, None) == Some(ms[k])
  {
    MinimaxChoiceUnfold(g, ms, 0, depth, p, NegInf, None, xs[0]);
    ChoiceIsPick(g, ms, xs, 1, depth, p, xs[0], 0);
    PickFromStart(xs);
    k := Pick(xs, 1, xs[0], 0);
  }

  /** The same for best_move_alphabeta. */
  lemma BestMoveAlphaBetaIsFirstBest(g: Grid, p: Player, depth: nat)
    requires depth >= 1
    ensures BestMoveAlphaBetaValue(g, p, depth) == None <==> Candidates(g, Radius) == []
    ensures var ms := Candidates(g, Radius);
      BestMoveAlphaBetaValue(g, p, depth).Some? ==>
        var m := BestMoveAlphaBetaValue(g, p, depth).value;
        InBounds(m.0, m.1) && g[m.0][m.1] == Empty &&
        exists k :: 0 <= k < |ms| && ms[k] == m && FirstBest(g, ms, k, depth, p)
  {
    BestMovesAgree(g, p, depth);
    BestMoveIsFirstBest(g, p, depth);
  }
}
