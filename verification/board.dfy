/** The board model of the five-in-a-row engine: the module constants, cells,
    players, positions, the four scan directions, the pure grid value used by
    every specification, and the mutable 9x9 board the engine works on. */
module Board {

  /** BOARD_SIZE */
  const N: int := 9
  /** NO_ADJACENT_CELLS_FOR_WIN */
  const WinLength: int := 5
  /** DEPTH, the search depth the drivers pass */
  const SearchDepth: int := 2
  /** The default neighbourhood radius of the candidate generator */
  const Radius: int := 2

  /** The three board tokens '.', 'B' and 'W'. */
  datatype Cell = Empty | Black | White

  /** A player is one of the two stone colours. */
  type Player = c: Cell | c != Empty witness Black

  datatype Option<T> = None | Some(value: T)

  /** The opponent rule used throughout the source: White if the player is
      Black, Black otherwise. */
  function Opponent(p: Player): (o: Player)
    ensures o != p
  {
    if p == Black then White else Black
  }

  lemma OpponentInvolution(p: Player)
    ensures Opponent(Opponent(p)) == p
  {
  }

  /** A move: (row, column). */
  type Pos = (int, int)

  predicate InBounds(r: int, c: int)
  {
    0 <= r < N && 0 <= c < N
  }

  /** The four scan directions (0,1), (1,0), (1,1), (1,-1). */
  datatype Dir = East | South | SouthEast | SouthWest

  /** The direction lists of the win detector and the pattern evaluator,
      in the source's order. */
  const Directions: seq<Dir> := [East, South, SouthEast, SouthWest]

  function DRow(d: Dir): int
  {
    if d == East then 0 else 1
  }

  function DCol(d: Dir): int
  {
    match d
    case East => 1
    case South => 0
    case SouthEast => 1
    case SouthWest => -1
  }

  /** The cell i steps away from (r, c) along d, i.e. (r + i*dr, c + i*dc),
      written per direction so that it stays linear. */
  function Step(r: int, c: int, d: Dir, i: int): (q: Pos)
    ensures q.0 == r + (if d == East then 0 else i)
    ensures q.1 == c + (match d case East => i case South => 0 case SouthEast => i case SouthWest => -i)
  {
    match d
    case East => (r, c + i)
    case South => (r + i, c)
    case SouthEast => (r + i, c + i)
    case SouthWest => (r + i, c - i)
  }

  lemma DirectionsComplete(d: Dir)
    ensures d in Directions
  {
    match d
    case East => assert Directions[0] == d;
    case South => assert Directions[1] == d;
    case SouthEast => assert Directions[2] == d;
    case SouthWest => assert Directions[3] == d;
  }

  /** A snapshot of the board contents: N rows of N cells. */
  type Grid = g: seq<seq<Cell>> | |g| == N && forall i | 0 <= i < N :: |g[i]| == N
    witness seq(N, _ => seq(N, _ => Empty))

  /** The board create_board builds. */
  function EmptyGrid(): (g: Grid)
    ensures forall r, c :: InBounds(r, c) ==> g[r][c] == Empty
  {
    seq(N, _ => seq(N, _ => Empty))
  }

  /** The grid after `board[row][col] = v`. */
  function Place(g: Grid, row: int, col: int, v: Cell): (h: Grid)
    requires InBounds(row, col)
    ensures h[row][col] == v
    ensures forall r, c :: InBounds(r, c) && (r, c) != (row, col) ==> h[r][c] == g[r][c]
  {
    g[row := g[row][col := v]]
  }

  /** Two grids are equal when they agree on every cell. */
  lemma GridExt(g: Grid, h: Grid)
    requires forall r, c :: InBounds(r, c) ==> g[r][c] == h[r][c]
    ensures g == h
  {
    forall r | 0 <= r < N
      ensures g[r] == h[r]
    {
      assert forall c | 0 <= c < N :: g[r][c] == h[r][c];
    }
  }

  /** Apply/undo identity: writing a stone on an empty cell and then
      resetting it to Empty gives back the original grid. */
  lemma PlaceThenUndo(g: Grid, row: int, col: int, p: Player)
    requires InBounds(row, col) && g[row][col] == Empty
    ensures Place(Place(g, row, col, p), row, col, Empty) == g
  {
    GridExt(Place(Place(g, row, col, p), row, col, Empty), g);
  }

  /** The contents of the mutable board as a grid value. */
  ghost function Snapshot(a: array2<Cell>): (g: Grid)
    requires a.Length0 == N && a.Length1 == N
    reads a
    ensures forall r, c :: InBounds(r, c) ==> g[r][c] == a[r, c]
  {
    seq(N, r requires 0 <= r < N reads a => seq(N, c requires 0 <= c < N reads a => a[r, c]))
  }

  /** The board agrees cell for cell with g. */
  ghost predicate Holds(a: array2<Cell>, g: Grid)
    requires a.Length0 == N && a.Length1 == N
    reads a
  {
    forall r, c :: InBounds(r, c) ==> a[r, c] == g[r][c]
  }

  lemma HoldsSnapshot(a: array2<Cell>, g: Grid)
    requires a.Length0 == N && a.Length1 == N
    requires Holds(a, g)
    ensures Snapshot(a) == g
  {
    GridExt(Snapshot(a), g);
  }

  /** create_board: a fresh N x N board of empty cells. */
  method CreateBoard() returns (a: array2<Cell>)
    ensures fresh(a)
    ensures a.Length0 == N && a.Length1 == N
    ensures Snapshot(a) == EmptyGrid()
  {
    a := new Cell[N, N]((_, _) => Empty);
    HoldsSnapshot(a, EmptyGrid());
  }

  /** is_valid_move: the coordinates are on the board and the cell is empty. */
  function IsValidMove(a: array2<Cell>, row: int, col: int): (ok: bool)
    requires a.Length0 == N && a.Length1 == N
    reads a
    ensures ok <==> InBounds(row, col) && Snapshot(a)[row][col] == Empty
  {
    0 <= row < N && 0 <= col < N && a[row, col] == Empty
  }

  /** make_move: overwrite one cell with the player's stone, whatever it held;
      every other cell keeps its value. */
  method MakeMove(a: array2<Cell>, row: int, col: int, player: Player)
    requires a.Length0 == N && a.Length1 == N
    requires InBounds(row, col)
    modifies a
    ensures Snapshot(a) == Place(old(Snapshot(a)), row, col, player)
  {
    ghost var g := Snapshot(a);
    a[row, col] := player;
    HoldsSnapshot(a, Place(g, row, col, player));
  }

  /** The plain assignment `board[row][col] = v` the search uses to try a
      move and to take it back. */
  method SetCell(a: array2<Cell>, row: int, col: int, v: Cell)
    requires a.Length0 == N && a.Length1 == N
    requires InBounds(row, col)
    modifies a
    ensures Snapshot(a) == Place(old(Snapshot(a)), row, col, v)
  {
    ghost var g := Snapshot(a);
    a[row, col] := v;
    HoldsSnapshot(a, Place(g, row, col, v));
  }
}
