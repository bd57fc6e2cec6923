/** The candidate move generator: on an empty board every cell, otherwise the
    empty cells within Chebyshev distance `radius` of some stone. The source
    collects the second kind in a set, whose iteration order is incidental;
    here every list of cells is in row-major order. */
module MoveGen {
  import opened Board

  /** Row-major order on positions. */
  predicate Before(q: Pos, s: Pos)
  {
    q.0 < s.0 || (q.0 == s.0 && q.1 < s.1)
  }

  /** The cells of s that lie on the board before (r, c), in row-major order. */
  function Enum(s: set<Pos>, r: int, c: int): (xs: seq<Pos>)
    requires (0 <= r < N && 0 <= c <= N) || (r == N && c == 0)
    ensures forall q :: q in xs <==> q in s && InBounds(q.0, q.1) && Before(q, (r, c))
    ensures forall i, j :: 0 <= i < j < |xs| ==> Before(xs[i], xs[j])
    decreases r, c
  {
    if c == 0 then
      (if r == 0 then [] else Enum(s, r - 1, N))
    else
      Enum(s, r, c - 1) + (if (r, c - 1) in s then [(r, c - 1)] else [])
  }

  /** The on-board cells of s in row-major order: each exactly once, and
      nothing else. */
  function CellsIn(s: set<Pos>): (xs: seq<Pos>)
    ensures forall q :: q in xs <==> q in s && InBounds(q.0, q.1)
    ensures forall i, j :: 0 <= i < j < |xs| ==> xs[i] != xs[j]
  {
    var xs := Enum(s, N, 0);
    assert forall i, j :: 0 <= i < j < |xs| ==> Before(xs[i], xs[j]);
    xs
  }

  function OccupiedSet(g: Grid): set<Pos>
  {
    set r, c | 0 <= r < N && 0 <= c < N && g[r][c] != Empty :: (r, c)
  }

  function EmptySet(g: Grid): set<Pos>
  {
    set r, c | 0 <= r < N && 0 <= c < N && g[r][c] == Empty :: (r, c)
  }

  /** Chebyshev distance between q and o is at most radius. */
  predicate Near(q: Pos, o: Pos, radius: int)
  {
    -radius <= q.0 - o.0 <= radius && -radius <= q.1 - o.1 <= radius
  }

  /** Some stone on the board is within Chebyshev distance radius of (r, c). */
  predicate NearStone(g: Grid, radius: int, r: int, c: int)
  {
    exists o :: o in OccupiedSet(g) && Near((r, c), o, radius)
  }

  /** Some cell of os is within Chebyshev distance radius of q. */
  predicate NearAny(q: Pos, os: seq<Pos>, radius: int)
  {
    exists i :: 0 <= i < |os| && Near(q, os[i], radius)
  }

  /** The cells get_available_moves returns, as a set. */
  function CandidateSet(g: Grid, radius: int): set<Pos>
  {
    if OccupiedSet(g) == {} then EmptySet(g)
    else set r, c | 0 <= r < N && 0 <= c < N && g[r][c] == Empty && NearStone(g, radius, r, c) :: (r, c)
  }

  /** The candidate moves in row-major order: all on the board, all empty,
      none listed twice. */
  function Candidates(g: Grid, radius: int): (ms: seq<Pos>)
    ensures forall i :: 0 <= i < |ms| ==> InBounds(ms[i].0, ms[i].1) && g[ms[i].0][ms[i].1] == Empty
    ensures forall i, j :: 0 <= i < j < |ms| ==> ms[i] != ms[j]
  {
    CellsIn(CandidateSet(g, radius))
  }

  lemma CandidateSetMember(g: Grid, radius: int, q: Pos)
    ensures q in CandidateSet(g, radius) <==>
      InBounds(q.0, q.1) && g[q.0][q.1] == Empty && (OccupiedSet(g) == {} || NearStone(g, radius, q.0, q.1))
  {
  }

  lemma CandidateMember(g: Grid, radius: int, q: Pos)
    ensures q in Candidates(g, radius) <==>
      InBounds(q.0, q.1) && g[q.0][q.1] == Empty && (OccupiedSet(g) == {} || NearStone(g, radius, q.0, q.1))
  {
    CandidateSetMember(g, radius, q);
  }

  /** The two list comprehensions of get_available_moves: the occupied cells,
      or the empty cells, of the board in row-major order. */
  method CellsWhere(a: array2<Cell>, wantEmpty: bool) returns (cells: seq<Pos>)
    requires a.Length0 == N && a.Length1 == N
    ensures cells == CellsIn(if wantEmpty then EmptySet(Snapshot(a)) else OccupiedSet(Snapshot(a)))
  {
    ghost var g := Snapshot(a);
    ghost var s := if wantEmpty then EmptySet(g) else OccupiedSet(g);
    cells := [];
    for r := 0 to N
      invariant cells == Enum(s, r, 0)
    {
      for c := 0 to N
        invariant cells == Enum(s, r, c)
      {
        WhereMember(g, wantEmpty, r, c);
        EnumNext(s, r, c);
        if (a[r, c] == Empty) == wantEmpty {
          cells := cells + [(r, c)];
        }
      }
      EnumNextRow(s, r);
    }
  }

  lemma WhereMember(g: Grid, wantEmpty: bool, r: int, c: int)
    requires InBounds(r, c)
    ensures (r, c) in (if wantEmpty then EmptySet(g) else OccupiedSet(g)) <==> (g[r][c] == Empty) == wantEmpty
  {
  }

  lemma EnumNext(s: set<Pos>, r: int, c: int)
    requires 0 <= r < N && 0 <= c < N
    ensures Enum(s, r, c + 1) == Enum(s, r, c) + (if (r, c) in s then [(r, c)] else [])
  {
  }

  lemma EnumNextRow(s: set<Pos>, r: int)
    requires 0 <= r < N
    ensures Enum(s, r + 1, 0) == Enum(s, r, N)
  {
  }

  /** list(candidates), with the order pinned to row-major. */
  method RowMajor(s: set<Pos>) returns (xs: seq<Pos>)
    ensures xs == CellsIn(s)
  {
    xs := [];
    for r := 0 to N
      invariant xs == Enum(s, r, 0)
    {
      for c := 0 to N
        invariant xs == Enum(s, r, c)
      {
        EnumNext(s, r, c);
        if (r, c) in s {
          xs := xs + [(r, c)];
        }
      }
      EnumNextRow(s, r);
    }
  }

  lemma NearAnyExtend(q: Pos, os: seq<Pos>, k: int, radius: int)
    requires 0 <= k < |os|
    ensures NearAny(q, os[..k + 1], radius) <==> NearAny(q, os[..k], radius) || Near(q, os[k], radius)
  {
    if NearAny(q, os[..k + 1], radius) {
      var i :| 0 <= i < k + 1 && Near(q, os[..k + 1][i], radius);
      if i < k {
        assert os[..k][i] == os[i];
      }
    }
    if NearAny(q, os[..k], radius) {
      var i :| 0 <= i < k && Near(q, os[..k][i], radius);
      assert os[..k + 1][i] == os[i];
    }
    if Near(q, os[k], radius) {
      assert os[..k + 1][k] == os[k];
    }
  }

  lemma NearAnyOccupied(g: Grid, radius: int, q: Pos)
    ensures NearAny(q, CellsIn(OccupiedSet(g)), radius) <==> NearStone(g, radius, q.0, q.1)
  {
    if NearAny(q, CellsIn(OccupiedSet(g)), radius) {
      NearAnyIsNearStone(g, radius, q);
    }
    if NearStone(g, radius, q.0, q.1) {
      NearStoneIsNearAny(g, radius, q);
    }
  }

  lemma NearAnyIsNearStone(g: Grid, radius: int, q: Pos)
    requires NearAny(q, CellsIn(OccupiedSet(g)), radius)
    ensures NearStone(g, radius, q.0, q.1)
  {
    var os := CellsIn(OccupiedSet(g));
    var i :| 0 <= i < |os| && Near(q, os[i], radius);
    assert os[i] in OccupiedSet(g);
  }

  lemma NearStoneIsNearAny(g: Grid, radius: int, q: Pos)
    requires NearStone(g, radius, q.0, q.1)
    ensures NearAny(q, CellsIn(OccupiedSet(g)), radius)
  {
    var os := CellsIn(OccupiedSet(g));
    var o :| o in OccupiedSet(g) && Near(q, o, radius);
    assert o in os;
    var i :| 0 <= i < |os| && os[i] == o;
    assert Near(q, os[i], radius);
  }

  /** The two inner loops of get_available_moves: adds to `candidates` every
      in-bounds empty cell (r0 + dr, c0 + dc) with -radius <= dr, dc <= radius. */
  method AddNearbyEmpties(a: array2<Cell>, candidates: set<Pos>, r0: int, c0: int, radius: int)
    returns (result: set<Pos>)
    requires a.Length0 == N && a.Length1 == N
    ensures forall q :: q in result <==> q in candidates || (q in EmptySet(Snapshot(a)) && Near(q, (r0, c0), radius))
  {
    ghost var g := Snapshot(a);
    result := candidates;
    var dr := -radius;
    while dr <= radius
      invariant radius >= 0 ==> dr <= radius + 1
      invariant forall q :: q in result <==> (q in candidates ||
        (q in EmptySet(g) && -radius <= q.0 - r0 < dr && -radius <= q.1 - c0 <= radius))
      decreases radius - dr
    {
      var dc := -radius;
      while dc <= radius
        invariant dc <= radius + 1
        invariant forall q :: q in result <==> (q in candidates ||
          (q in EmptySet(g) && -radius <= q.0 - r0 < dr && -radius <= q.1 - c0 <= radius) ||
          (q in EmptySet(g) && q.0 - r0 == dr && -radius <= q.1 - c0 < dc))
        decreases radius - dc
      {
        var r, c := r0 + dr, c0 + dc;
        assert (r, c) in EmptySet(g) <==> 0 <= r < N && 0 <= c < N && a[r, c] == Empty;
        if 0 <= r < N && 0 <= c < N && a[r, c] == Empty {
          result := result + {(r, c)};
        }
        dc := dc + 1;
      }
      dr := dr + 1;
    }
  }

  /** get_available_moves: collects the occupied cells; with none, returns
      every empty cell; otherwise adds to a set every in-bounds empty cell
      (r0 + dr, c0 + dc), -radius <= dr, dc <= radius, around each occupied
      (r0, c0), and returns that set as a list. */
  method GetAvailableMoves(a: array2<Cell>, radius: int := Radius) returns (moves: seq<Pos>)
    requires a.Length0 == N && a.Length1 == N
    ensures moves == Candidates(Snapshot(a), radius)
  {
    ghost var g := Snapshot(a);
    var occupied := CellsWhere(a, false);
    if occupied == [] {
      moves := CellsWhere(a, true);
      FirstMoveCandidates(g, radius);
      return;
    }
    var candidates: set<Pos> := {};
    for k := 0 to |occupied|
      invariant forall q :: q in candidates <==> q in EmptySet(g) && NearAny(q, occupied[..k], radius)
    {
      var (r0, c0) := occupied[k];
      candidates := AddNearbyEmpties(a, candidates, r0, c0, radius);
      forall q
        ensures q in candidates <==> q in EmptySet(g) && NearAny(q, occupied[..k + 1], radius)
      {
        NearAnyExtend(q, occupied, k, radius);
      }
    }
    assert occupied[..|occupied|] == occupied;
    NeighbourhoodCandidates(g, radius, candidates);
    moves := RowMajor(candidates);
  }

  /** With no stone on the board the candidates are the empty cells. */
  lemma FirstMoveCandidates(g: Grid, radius: int)
    requires CellsIn(OccupiedSet(g)) == []
    ensures Candidates(g, radius) == CellsIn(EmptySet(g))
  {
  }

  /** With stones on the board, the empty cells near some occupied cell, in
      the order of the occupied list, make up the candidate set. */
  lemma NeighbourhoodCandidates(g: Grid, radius: int, candidates: set<Pos>)
    requires CellsIn(OccupiedSet(g)) != []
    requires forall q :: q in candidates <==> q in EmptySet(g) && NearAny(q, CellsIn(OccupiedSet(g)), radius)
    ensures candidates == CandidateSet(g, radius)
  {
    assert CellsIn(OccupiedSet(g))[0] in OccupiedSet(g);
    forall q
      ensures q in candidates <==> q in CandidateSet(g, radius)
    {
      NearAnyOccupied(g, radius, q);
      CandidateSetMember(g, radius, q);
    }
  }

  /** First-move case: on a board without stones every cell is a candidate. */
  lemma CandidatesOnEmptyBoard(g: Grid, radius: int)
    requires forall r, c :: InBounds(r, c) ==> g[r][c] == Empty
    ensures forall r, c :: InBounds(r, c) <==> (r, c) in Candidates(g, radius)
  {
    assert OccupiedSet(g) == {};
    forall r, c
      ensures InBounds(r, c) <==> (r, c) in Candidates(g, radius)
    {
      CandidateMember(g, radius, (r, c));
    }
  }

  /** Once a stone is on the board, a cell is a candidate exactly when it is
      on the board, empty, and within Chebyshev distance radius of a stone. */
  lemma CandidatesNearStones(g: Grid, radius: int, r0: int, c0: int, r: int, c: int)
    requires InBounds(r0, c0) && g[r0][c0] != Empty
    ensures (r, c) in Candidates(g, radius) <==> InBounds(r, c) && g[r][c] == Empty && NearStone(g, radius, r, c)
  {
    assert (r0, c0) in OccupiedSet(g);
    CandidateMember(g, radius, (r, c));
  }

  /** With a radius of at least one, the candidate list is empty only on a
      full board: so the drivers' tie test (no candidates) is a full board. */
  lemma NoCandidatesOnlyWhenFull(g: Grid, radius: int)
    requires radius >= 1
    ensures Candidates(g, radius) == [] <==> forall r, c :: InBounds(r, c) ==> g[r][c] != Empty
  {
    if Candidates(g, radius) == [] {
      forall r, c | InBounds(r, c)
        ensures g[r][c] != Empty
      {
        if g[r][c] == Empty {
          if OccupiedSet(g) == {} {
            CandidateMember(g, radius, (r, c));
          } else {
            var o :| o in OccupiedSet(g);
            var q := EmptyNextToStone(g, o, (r, c));
            var o' :| o' in OccupiedSet(g) && Near(q, o', 1);
            assert Near(q, o', radius);
            CandidateMember(g, radius, q);
          }
          assert false;
        }
      }
    } else {
      var q := Candidates(g, radius)[0];
      assert g[q.0][q.1] == Empty;
    }
  }

  /** Walking from a stone o towards an empty cell e, the first empty cell met
      is next to a stone. */
  lemma {:induction false} EmptyNextToStone(g: Grid, o: Pos, e: Pos) returns (q: Pos)
    requires o in OccupiedSet(g)
    requires InBounds(e.0, e.1) && g[e.0][e.1] == Empty
    ensures InBounds(q.0, q.1) && g[q.0][q.1] == Empty && NearStone(g, 1, q.0, q.1)
    decreases (if o.0 < e.0 then e.0 - o.0 else o.0 - e.0) + (if o.1 < e.1 then e.1 - o.1 else o.1 - e.1)
  {
    assert InBounds(o.0, o.1) && g[o.0][o.1] != Empty;
    var next: Pos :=
      if o.0 < e.0 then (o.0 + 1, o.1)
      else if o.0 > e.0 then (o.0 - 1, o.1)
      else if o.1 < e.1 then (o.0, o.1 + 1)
      else (o.0, o.1 - 1);
    assert Near(next, o, 1);
    if g[next.0][next.1] == Empty {
      q := next;
    } else {
      assert next in OccupiedSet(g);
      q := EmptyNextToStone(g, next, e);
    }
  }
}
