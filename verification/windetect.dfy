/** The win detector: does a player have NO_ADJACENT_CELLS_FOR_WIN stones in a
    row along one of the four directions? */
module WinDetector {
  import opened Board

  /** q is on the board and holds a stone of p. */
  predicate StoneAt(g: Grid, p: Player, q: Pos)
  {
    InBounds(q.0, q.1) && g[q.0][q.1] == p
  }

  /** The WinLength cells starting at (r, c) along d are all on the board and
      all hold p. */
  predicate RunAt(g: Grid, p: Player, r: int, c: int, d: Dir)
  {
    forall i :: 0 <= i < WinLength ==> StoneAt(g, p, Step(r, c, d, i))
  }

  /** Some cell of the board starts a winning run of p. */
  predicate HasWin(g: Grid, p: Player)
  {
    exists r, c, d :: 0 <= r < N && 0 <= c < N && RunAt(g, p, r, c, d)
  }

  /** check_winner: scans every cell holding the player's stone and counts,
      in each direction, how many consecutive stones of the player follow it,
      stopping after WinLength - 1 more; a count of WinLength is a win. */
  method CheckWinner(a: array2<Cell>, player: Player) returns (won: bool)
    requires a.Length0 == N && a.Length1 == N
    ensures won == HasWin(Snapshot(a), player)
  {
    ghost var g := Snapshot(a);
    for row := 0 to N
      invariant forall r, c, d :: 0 <= r < row && 0 <= c < N ==> !RunAt(g, player, r, c, d)
    {
      for col := 0 to N
        invariant forall r, c, d :: (0 <= r < row && 0 <= c < N) || (r == row && 0 <= c < col) ==> !RunAt(g, player, r, c, d)
      {
        if a[row, col] == player {
          for k := 0 to |Directions|
            invariant forall j :: 0 <= j < k ==> !RunAt(g, player, row, col, Directions[j])
          {
            var d := Directions[k];
            var count := 1;
            var nextRow, nextCol := row + DRow(d), col + DCol(d);
            var steps := 0;
            while steps < WinLength - 1
              invariant 0 <= steps <= WinLength - 1 && count == steps + 1
              invariant (nextRow, nextCol) == Step(row, col, d, count)
              invariant forall i :: 0 <= i < count ==> StoneAt(g, player, Step(row, col, d, i))
            {
              if 0 <= nextRow < N && 0 <= nextCol < N && a[nextRow, nextCol] == player {
                count := count + 1;
                nextRow := nextRow + DRow(d);
                nextCol := nextCol + DCol(d);
              } else {
                assert !StoneAt(g, player, Step(row, col, d, count));
                break;
              }
              steps := steps + 1;
            }
            if count == WinLength {
              assert RunAt(g, player, row, col, d);
              return true;
            }
            assert !StoneAt(g, player, Step(row, col, d, count));
          }
          forall d: Dir
            ensures !RunAt(g, player, row, col, d)
          {
            DirectionsComplete(d);
          }
        } else {
          assert !StoneAt(g, player, (row, col));
          forall d: Dir
            ensures !RunAt(g, player, row, col, d)
          {
            assert Step(row, col, d, 0) == (row, col);
          }
        }
      }
    }
    return false;
  }

  /** A player without stones on the board has not won. */
  lemma NoStonesNoWin(g: Grid, p: Player)
    requires forall r, c :: InBounds(r, c) ==> g[r][c] != p
    ensures !HasWin(g, p)
  {
    forall r, c, d | InBounds(r, c)
      ensures !RunAt(g, p, r, c, d)
    {
      assert Step(r, c, d, 0) == (r, c);
    }
  }

  /** A run longer than WinLength is still a win: only its first WinLength
      stones are looked at. */
  lemma LongRunWins(g: Grid, p: Player, r: int, c: int, d: Dir, len: int)
    requires len >= WinLength
    requires forall i :: 0 <= i < len ==> StoneAt(g, p, Step(r, c, d, i))
    ensures HasWin(g, p)
  {
    assert Step(r, c, d, 0) == (r, c);
    assert RunAt(g, p, r, c, d);
  }

  /** The board with Black stones at (4, 0) .. (4, k - 1) and nothing else. */
  function RowOfBlack(k: int): (g: Grid)
    requires 0 <= k <= N
    ensures forall r, c :: InBounds(r, c) ==> g[r][c] == (if r == 4 && c < k then Black else Empty)
  {
    if k == 0 then EmptyGrid() else Place(RowOfBlack(k - 1), 4, k - 1, Black)
  }

  /** Four Black stones at (4, 0) .. (4, 3) do not win. */
  lemma FourInARowDoesNotWin()
    ensures !HasWin(RowOfBlack(4), Black)
  {
    var g := RowOfBlack(4);
    forall r, c, d | InBounds(r, c)
      ensures !RunAt(g, Black, r, c, d)
    {
      if d == East {
        if StoneAt(g, Black, Step(r, c, d, 0)) {
          assert !StoneAt(g, Black, Step(r, c, d, 4));
        }
      } else {
        if StoneAt(g, Black, Step(r, c, d, 0)) {
          assert !StoneAt(g, Black, Step(r, c, d, 1));
        }
      }
    }
  }

  /** Adding the fifth stone at (4, 4) wins. */
  lemma FiveInARowWins()
    ensures HasWin(RowOfBlack(5), Black)
  {
    var g := RowOfBlack(5);
    assert forall i :: 0 <= i < WinLength ==> Step(4, 0, East, i) == (4, i);
    assert RunAt(g, Black, 4, 0, East);
  }

  /** The board with the colours of all stones exchanged. */
  function Swap(g: Grid): (h: Grid)
    ensures forall r, c :: InBounds(r, c) ==> h[r][c] == SwapCell(g[r][c])
  {
    seq(N, r requires 0 <= r < N => seq(N, c requires 0 <= c < N => SwapCell(g[r][c])))
  }

  function SwapCell(x: Cell): (y: Cell)
    ensures x == Empty <==> y == Empty
    ensures x != Empty ==> y == Opponent(x)
  {
    match x
    case Empty => Empty
    case Black => White
    case White => Black
  }

  /** The detector does not depend on the colour's name: exchanging the colours
      of all stones exchanges the winners. */
  lemma WinSymmetry(g: Grid, p: Player)
    ensures HasWin(g, p) <==> HasWin(Swap(g), Opponent(p))
  {
    var h := Swap(g);
    forall r, c, d
      ensures RunAt(g, p, r, c, d) <==> RunAt(h, Opponent(p), r, c, d)
    {
      forall i
        ensures StoneAt(g, p, Step(r, c, d, i)) <==> StoneAt(h, Opponent(p), Step(r, c, d, i))
      {
      }
    }
  }
}
