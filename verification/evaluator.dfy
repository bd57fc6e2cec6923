/** The pattern evaluator: a heuristic score from 5-cell windows, and the
    static evaluation that puts wins and losses first. */
module Evaluator {
  import opened Board
  import opened WinDetector

  /** PATTERN_WEIGHTS: 'X' own stone, '.' empty cell. */
  const PatternWeights: map<string, int> := map[
    "XXXXX" := 100000,
    ".XXXX" := 5000,
    "XXXX." := 5000,
    ".XXX." := 1000,
    "XXX.X" := 2000,
    "XX.XX" := 2000,
    ".XX.X" := 200,
    ".X.XX" := 200,
    ".XX.." := 50,
    "..XX." := 50
  ]

  /** Every weight is positive and every pattern holds an own stone. */
  lemma WeightsShape()
    ensures forall w :: w in PatternWeights ==> PatternWeights[w] > 0 && 'X' in w && |w| == WinLength
  {
  }

  /** How p sees q: 'X' for its own stone, '.' for an empty cell, 'O' for an
      opponent's stone or a cell off the board. */
  function Mark(g: Grid, p: Player, q: Pos): (m: char)
    ensures m == 'X' <==> StoneAt(g, p, q)
    ensures m == '.' <==> InBounds(q.0, q.1) && g[q.0][q.1] == Empty
    ensures m == 'O' <==> !InBounds(q.0, q.1) || g[q.0][q.1] == Opponent(p)
  {
    if InBounds(q.0, q.1) then
      (if g[q.0][q.1] == p then 'X' else if g[q.0][q.1] == Empty then '.' else 'O')
    else 'O'
  }

  /** The first k marks of the window that starts at (r, c) and runs along d. */
  function Window(g: Grid, p: Player, r: int, c: int, d: Dir, k: int): (w: string)
    requires 0 <= k <= WinLength
    ensures |w| == k
    ensures forall i :: 0 <= i < k ==> w[i] == Mark(g, p, Step(r, c, d, i))
  {
    if k == 0 then [] else Window(g, p, r, c, d, k - 1) + [Mark(g, p, Step(r, c, d, k - 1))]
  }

  /** What one window adds to the total: nothing when it holds an 'O',
      otherwise its weight, or nothing when it is not in the table. */
  function WindowScore(w: string): (s: int)
    ensures s >= 0
    ensures 'O' in w ==> s == 0
    ensures s > 0 <==> 'O' !in w && w in PatternWeights
  {
    WeightsShape();
    if 'O' !in w then (if w in PatternWeights then PatternWeights[w] else 0) else 0
  }

  /** The score of the full window at (r, c) along d. */
  function WindowValue(g: Grid, p: Player, r: int, c: int, d: Dir): (s: int)
    ensures s >= 0
  {
    WindowScore(Window(g, p, r, c, d, WinLength))
  }

  /** The first k directions at the cell (r, c). */
  function DirsValue(g: Grid, p: Player, r: int, c: int, k: int): (s: int)
    requires 0 <= k <= |Directions|
    ensures s >= 0
  {
    if k == 0 then 0 else DirsValue(g, p, r, c, k - 1) + WindowValue(g, p, r, c, Directions[k - 1])
  }

  /** The first c cells of row r. */
  function RowValue(g: Grid, p: Player, r: int, c: int): (s: int)
    requires 0 <= c <= N
    ensures s >= 0
  {
    if c == 0 then 0 else RowValue(g, p, r, c - 1) + DirsValue(g, p, r, c - 1, |Directions|)
  }

  /** The first r rows. */
  function RowsValue(g: Grid, p: Player, r: int): (s: int)
    requires 0 <= r <= N
    ensures s >= 0
  {
    if r == 0 then 0 else RowsValue(g, p, r - 1) + RowValue(g, p, r - 1, N)
  }

  /** pattern_score as a value: the sum, over every start cell and every
      direction, of the window's score. */
  function PatternTotal(g: Grid, p: Player): (s: int)
    ensures s >= 0
  {
    RowsValue(g, p, N)
  }

  /** The inner loop of pattern_score: the marks of the five cells from (r, c)
      along d, an off-board cell reading as 'O'. */
  method ReadWindow(a: array2<Cell>, player: Player, r: int, c: int, d: Dir) returns (window: string)
    requires a.Length0 == N && a.Length1 == N
    ensures window == Window(Snapshot(a), player, r, c, d, WinLength)
  {
    ghost var g := Snapshot(a);
    window := [];
    for i := 0 to WinLength
      invariant window == Window(g, player, r, c, d, i)
    {
      var (rr, cc) := Step(r, c, d, i);
      if 0 <= rr < N && 0 <= cc < N {
        var cell := a[rr, cc];
        if cell == player {
          window := window + ['X'];
        } else if cell == Empty {
          window := window + ['.'];
        } else {
          window := window + ['O'];
        }
      } else {
        window := window + ['O'];
      }
    }
  }

  /** The direction loop of pattern_score at one start cell: the weights of
      its four windows that hold no 'O'. */
  method WindowsAt(a: array2<Cell>, player: Player, r: int, c: int) returns (s: int)
    requires a.Length0 == N && a.Length1 == N
    ensures s == DirsValue(Snapshot(a), player, r, c, |Directions|)
  {
    ghost var g := Snapshot(a);
    s := 0;
    for k := 0 to |Directions|
      invariant s == DirsValue(g, player, r, c, k)
    {
      var pattern := ReadWindow(a, player, r, c, Directions[k]);
      if 'O' !in pattern {
        s := s + (if pattern in PatternWeights then PatternWeights[pattern] else 0);
      }
    }
  }

  /** pattern_score: builds the 5-mark window from every cell in every
      direction and adds up the weights of those without an 'O'. */
  method PatternScore(a: array2<Cell>, player: Player) returns (total: int)
    requires a.Length0 == N && a.Length1 == N
    ensures total == PatternTotal(Snapshot(a), player)
  {
    ghost var g := Snapshot(a);
    total := 0;
    for r := 0 to N
      invariant total == RowsValue(g, player, r)
    {
      for c := 0 to N
        invariant total == RowsValue(g, player, r) + RowValue(g, player, r, c)
      {
        var s := WindowsAt(a, player, r, c);
        total := total + s;
      }
    }
  }

  /** evaluate_board as a value: a win for p first, then a win for the
      opponent, then p's pattern total less 1.5 times the opponent's. */
  function Evaluation(g: Grid, p: Player): real
  {
    if HasWin(g, p) then 1000000.0
    else if HasWin(g, Opponent(p)) then -1000000.0
    else PatternTotal(g, p) as real - PatternTotal(g, Opponent(p)) as real * 1.5
  }

  /** evaluate_board. */
  method EvaluateBoard(a: array2<Cell>, player: Player) returns (score: real)
    requires a.Length0 == N && a.Length1 == N
    ensures score == Evaluation(Snapshot(a), player)
  {
    var opponent := Opponent(player);
    var won := CheckWinner(a, player);
    if won {
      return 1000000.0;
    }
    var lost := CheckWinner(a, opponent);
    if lost {
      return -1000000.0;
    }
    var myScore := PatternScore(a, player);
    var oppScore := PatternScore(a, opponent);
    return myScore as real - oppScore as real * 1.5;
  }

  // ---- Properties of the window sum ----

  /** Each summand is counted: the total is at least the score of any window
      that starts on the board. */
  lemma {:induction false} TotalAtLeastWindow(g: Grid, p: Player, r: int, c: int, d: Dir)
    requires InBounds(r, c)
    ensures PatternTotal(g, p) >= WindowValue(g, p, r, c, d)
  {
    DirectionsComplete(d);
    var k :| 0 <= k < |Directions| && Directions[k] == d;
    DirsAtLeast(g, p, r, c, k, |Directions|);
    RowAtLeast(g, p, r, c, N);
    RowsAtLeast(g, p, r, N);
  }

  lemma {:induction false} DirsAtLeast(g: Grid, p: Player, r: int, c: int, k: int, n: int)
    requires 0 <= k < n <= |Directions|
    ensures DirsValue(g, p, r, c, n) >= WindowValue(g, p, r, c, Directions[k])
  {
    if k < n - 1 {
      DirsAtLeast(g, p, r, c, k, n - 1);
    }
  }

  lemma {:induction false} RowAtLeast(g: Grid, p: Player, r: int, c: int, n: int)
    requires 0 <= c < n <= N
    ensures RowValue(g, p, r, n) >= DirsValue(g, p, r, c, |Directions|)
  {
    if c < n - 1 {
      RowAtLeast(g, p, r, c, n - 1);
    }
  }

  lemma {:induction false} RowsAtLeast(g: Grid, p: Player, r: int, n: int)
    requires 0 <= r < n <= N
    ensures RowsValue(g, p, n) >= RowValue(g, p, r, N)
  {
    if r < n - 1 {
      RowsAtLeast(g, p, r, n - 1);
    }
  }

  /** The total is 0 when every window scores 0. */
  lemma {:induction false} TotalZero(g: Grid, p: Player)
    requires forall r, c, d :: InBounds(r, c) ==> WindowValue(g, p, r, c, d) == 0
    ensures PatternTotal(g, p) == 0
  {
    RowsZero(g, p, N);
  }

  lemma {:induction false} DirsZero(g: Grid, p: Player, r: int, c: int, k: int)
    requires 0 <= k <= |Directions|
    requires forall d :: WindowValue(g, p, r, c, d) == 0
    ensures DirsValue(g, p, r, c, k) == 0
  {
    if k > 0 {
      DirsZero(g, p, r, c, k - 1);
    }
  }

  lemma {:induction false} RowZero(g: Grid, p: Player, r: int, n: int)
    requires 0 <= r < N && 0 <= n <= N
    requires forall c, d :: 0 <= c < N ==> WindowValue(g, p, r, c, d) == 0
    ensures RowValue(g, p, r, n) == 0
  {
    if n > 0 {
      RowZero(g, p, r, n - 1);
      DirsZero(g, p, r, n - 1, |Directions|);
    }
  }

  lemma {:induction false} RowsZero(g: Grid, p: Player, n: int)
    requires 0 <= n <= N
    requires forall r, c, d :: InBounds(r, c) ==> WindowValue(g, p, r, c, d) == 0
    ensures RowsValue(g, p, n) == 0
  {
    if n > 0 {
      RowsZero(g, p, n - 1);
      RowZero(g, p, n - 1, N);
    }
  }

  /** Two boards whose windows score alike, window by window, have the same
      total. */
  lemma {:induction false} TotalsAgree(g: Grid, p: Player, h: Grid, q: Player)
    requires forall r, c, d :: InBounds(r, c) ==> WindowValue(g, p, r, c, d) == WindowValue(h, q, r, c, d)
    ensures PatternTotal(g, p) == PatternTotal(h, q)
  {
    RowsAgree(g, p, h, q, N);
  }

  lemma {:induction false} DirsAgree(g: Grid, p: Player, h: Grid, q: Player, r: int, c: int, k: int)
    requires 0 <= k <= |Directions|
    requires forall d :: WindowValue(g, p, r, c, d) == WindowValue(h, q, r, c, d)
    ensures DirsValue(g, p, r, c, k) == DirsValue(h, q, r, c, k)
  {
    if k > 0 {
      DirsAgree(g, p, h, q, r, c, k - 1);
    }
  }

  lemma {:induction false} RowAgree(g: Grid, p: Player, h: Grid, q: Player, r: int, n: int)
    requires 0 <= r < N && 0 <= n <= N
    requires forall c, d :: 0 <= c < N ==> WindowValue(g, p, r, c, d) == WindowValue(h, q, r, c, d)
    ensures RowValue(g, p, r, n) == RowValue(h, q, r, n)
  {
    if n > 0 {
      RowAgree(g, p, h, q, r, n - 1);
      DirsAgree(g, p, h, q, r, n - 1, |Directions|);
    }
  }

  lemma {:induction false} RowsAgree(g: Grid, p: Player, h: Grid, q: Player, n: int)
    requires 0 <= n <= N
    requires forall r, c, d :: InBounds(r, c) ==> WindowValue(g, p, r, c, d) == WindowValue(h, q, r, c, d)
    ensures RowsValue(g, p, n) == RowsValue(h, q, n)
  {
    if n > 0 {
      RowsAgree(g, p, h, q, n - 1);
      RowAgree(g, p, h, q, n - 1, N);
    }
  }

  // ---- Windows and the weight table ----

  /** A window with an opponent's stone or an off-board cell adds nothing. */
  lemma BlockedWindow(g: Grid, p: Player, r: int, c: int, d: Dir, i: int)
    requires 0 <= i < WinLength
    requires !InBounds(Step(r, c, d, i).0, Step(r, c, d, i).1) || g[Step(r, c, d, i).0][Step(r, c, d, i).1] == Opponent(p)
    ensures WindowValue(g, p, r, c, d) == 0
  {
    assert Window(g, p, r, c, d, WinLength)[i] == 'O';
  }

  /** A window without an own stone adds nothing: every pattern of the table
      holds an 'X'. */
  lemma NoStoneWindow(g: Grid, p: Player, r: int, c: int, d: Dir)
    requires forall i :: 0 <= i < WinLength ==> !StoneAt(g, p, Step(r, c, d, i))
    ensures WindowValue(g, p, r, c, d) == 0
  {
    var w := Window(g, p, r, c, d, WinLength);
    WeightsShape();
    assert 'X' !in w;
  }

  /** A winning run's window is "XXXXX" and is worth 100000. */
  lemma RunWindow(g: Grid, p: Player, r: int, c: int, d: Dir)
    requires RunAt(g, p, r, c, d)
    ensures WindowValue(g, p, r, c, d) == 100000
  {
    var w := Window(g, p, r, c, d, WinLength);
    assert w == "XXXXX";
  }

  /** An empty cell followed by four own stones reads ".XXXX", worth 5000. */
  lemma OpenFourWindow(g: Grid, p: Player, r: int, c: int, d: Dir)
    requires InBounds(r, c) && g[r][c] == Empty
    requires forall i :: 1 <= i < WinLength ==> StoneAt(g, p, Step(r, c, d, i))
    ensures WindowValue(g, p, r, c, d) == 5000
  {
    var w := Window(g, p, r, c, d, WinLength);
    assert Step(r, c, d, 0) == (r, c);
    assert w == ".XXXX";
  }

  /** pattern_score of the empty board is 0. */
  lemma EmptyBoardScoresZero(g: Grid, p: Player)
    requires forall r, c :: InBounds(r, c) ==> g[r][c] == Empty
    ensures PatternTotal(g, p) == 0
  {
    forall r, c, d | InBounds(r, c)
      ensures WindowValue(g, p, r, c, d) == 0
    {
      NoStoneWindow(g, p, r, c, d);
    }
    TotalZero(g, p);
  }

  /** A player who has won holds an "XXXXX" window, so its pattern total is at
      least 100000. */
  lemma WinnerScoresHigh(g: Grid, p: Player)
    requires HasWin(g, p)
    ensures PatternTotal(g, p) >= 100000
  {
    var r, c, d :| 0 <= r < N && 0 <= c < N && RunAt(g, p, r, c, d);
    RunWindow(g, p, r, c, d);
    TotalAtLeastWindow(g, p, r, c, d);
  }

  /** Exchanging all colours and the player leaves every mark unchanged. */
  lemma MarkSymmetry(g: Grid, p: Player, q: Pos)
    ensures Mark(Swap(g), Opponent(p), q) == Mark(g, p, q)
  {
  }

  /** pattern_score does not depend on the colour's name. */
  lemma PatternSymmetry(g: Grid, p: Player)
    ensures PatternTotal(Swap(g), Opponent(p)) == PatternTotal(g, p)
  {
    var h := Swap(g);
    forall r, c, d | InBounds(r, c)
      ensures WindowValue(h, Opponent(p), r, c, d) == WindowValue(g, p, r, c, d)
    {
      var w := Window(g, p, r, c, d, WinLength);
      var v := Window(h, Opponent(p), r, c, d, WinLength);
      forall i | 0 <= i < WinLength
        ensures v[i] == w[i]
      {
        MarkSymmetry(g, p, Step(r, c, d, i));
      }
      assert v == w;
    }
    TotalsAgree(h, Opponent(p), g, p);
  }

  // ---- The evaluation ----

  /** evaluate_board does not depend on the colour's name: exchanging the
      colours and the player gives the same score. */
  lemma EvaluationSymmetry(g: Grid, p: Player)
    ensures Evaluation(Swap(g), Opponent(p)) == Evaluation(g, p)
  {
    OpponentInvolution(p);
    WinSymmetry(g, p);
    WinSymmetry(g, Opponent(p));
    PatternSymmetry(g, p);
    PatternSymmetry(g, Opponent(p));
  }

  /** The empty board evaluates to 0. */
  lemma EmptyBoardEvaluation(g: Grid, p: Player)
    requires forall r, c :: InBounds(r, c) ==> g[r][c] == Empty
    ensures Evaluation(g, p) == 0.0
  {
    NoStonesNoWin(g, p);
    NoStonesNoWin(g, Opponent(p));
    EmptyBoardScoresZero(g, p);
    EmptyBoardScoresZero(g, Opponent(p));
  }
}
