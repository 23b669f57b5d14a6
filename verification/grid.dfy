/** The 20x20 grid of cell codes and its four-way adjacency (`get_neighbors`). */
module Grid {
  import opened Coords

  const ROWS: int := 20
  const COLS: int := 20

  /** Cell codes. Only `OBSTACLE` blocks movement. */
  const FREE: int := 0
  const OBSTACLE: int := 1
  const START: int := 2
  const GOAL: int := 3

  /** The grid is a list of ROWS rows of COLS codes each. */
  predicate WellFormed(grid: seq<seq<int>>)
  {
    |grid| == ROWS && forall r :: 0 <= r < ROWS ==> |grid[r]| == COLS
  }

  predicate InBounds(c: Coord)
  {
    0 <= c.row < ROWS && 0 <= c.col < COLS
  }

  /** A cell one may step onto: inside the grid and not an obstacle. */
  predicate Passable(grid: seq<seq<int>>, c: Coord)
    requires WellFormed(grid)
  {
    InBounds(c) && grid[c.row][c.col] != OBSTACLE
  }

  /** `b` is a neighbour of `a`: passable and at Manhattan distance one. */
  predicate Adjacent(grid: seq<seq<int>>, a: Coord, b: Coord)
    requires WellFormed(grid)
  {
    Passable(grid, b) && Heuristic(a, b) == 1
  }

  /** Offsets in enumeration order: Right, Down, Left, Up. */
  const Directions: seq<(int, int)> := [(0, 1), (1, 0), (0, -1), (-1, 0)]

  function Shift(c: Coord, d: (int, int)): Coord
  {
    Coord(c.row + d.0, c.col + d.1)
  }

  /** Position of `n` in the enumeration order around `c`; 4 when `n` is not one step away. */
  function Rank(c: Coord, n: Coord): nat
  {
    if n == Coord(c.row, c.col + 1) then 0
    else if n == Coord(c.row + 1, c.col) then 1
    else if n == Coord(c.row, c.col - 1) then 2
    else if n == Coord(c.row - 1, c.col) then 3
    else 4
  }

  lemma RankOfStep(c: Coord, n: Coord)
    ensures Rank(c, n) < 4 <==> Heuristic(c, n) == 1
  {
    if Heuristic(c, n) == 1 {
      assert Abs(c.row - n.row) + Abs(c.col - n.col) == 1;
      if c.row == n.row {
        assert n.col == c.col + 1 || n.col == c.col - 1;
      } else {
        assert c.col == n.col;
        assert n.row == c.row + 1 || n.row == c.row - 1;
      }
    }
  }

  /** The cells of `ns` come in strictly increasing enumeration order around `c`. */
  predicate InDirectionOrder(c: Coord, ns: seq<Coord>)
  {
    forall i, j :: 0 <= i < j < |ns| ==> Rank(c, ns[i]) < Rank(c, ns[j])
  }

  /** The neighbours contributed by the first `k` directions, in order. */
  function NeighborsUpTo(grid: seq<seq<int>>, c: Coord, k: nat): (ns: seq<Coord>)
    requires WellFormed(grid) && k <= |Directions|
    ensures |ns| <= k
  {
    if k == 0 then []
    else
      var n := Shift(c, Directions[k - 1]);
      NeighborsUpTo(grid, c, k - 1) + (if Passable(grid, n) then [n] else [])
  }

  /** The first `k` directions contribute exactly the passable cells of rank below `k`, in order. */
  lemma {:induction false} NeighborsUpToCells(grid: seq<seq<int>>, c: Coord, k: nat)
    requires WellFormed(grid) && k <= |Directions|
    ensures forall n :: n in NeighborsUpTo(grid, c, k) <==> Passable(grid, n) && Rank(c, n) < k
    ensures InDirectionOrder(c, NeighborsUpTo(grid, c, k))
  {
    if k > 0 {
      NeighborsUpToCells(grid, c, k - 1);
      var n := Shift(c, Directions[k - 1]);
      assert Rank(c, n) == k - 1;
    }
  }

  /** The cells reachable from `c` in one step, Right, Down, Left, Up; out-of-range cells are skipped, never an error. */
  function Neighbors(grid: seq<seq<int>>, c: Coord): (ns: seq<Coord>)
    requires WellFormed(grid)
    ensures |ns| <= 4
    ensures forall n :: n in ns <==> Adjacent(grid, c, n)
    ensures InDirectionOrder(c, ns)
  {
    var ns := NeighborsUpTo(grid, c, |Directions|);
    NeighborsUpToCells(grid, c, |Directions|);
    forall n ensures n in ns <==> Adjacent(grid, c, n) {
      RankOfStep(c, n);
    }
    ns
  }

  /** In a list in enumeration order, the head comes first and every other cell lies in the tail. */
  lemma HeadIsLeast(c: Coord, ns: seq<Coord>, n: Coord)
    requires InDirectionOrder(c, ns) && n in ns
    ensures Rank(c, ns[0]) <= Rank(c, n)
    ensures n != ns[0] <==> n in ns[1..]
  {
    var i :| 0 <= i < |ns| && ns[i] == n;
    if i > 0 {
      assert ns[1..][i - 1] == n;
    }
    forall j | 0 <= j < |ns[1..]| ensures ns[1..][j] != ns[0] {
      assert Rank(c, ns[0]) < Rank(c, ns[j + 1]);
    }
  }

  lemma NoCellsMeansEmpty(ms: seq<Coord>)
    ensures (forall n :: n !in ms) ==> ms == []
  {
    if ms != [] {
      assert ms[0] in ms;
    }
  }

  /** Two lists in enumeration order around `c` with the same cells are the same list. */
  lemma {:induction false} OrderedListsEqual(c: Coord, ns: seq<Coord>, ms: seq<Coord>)
    requires InDirectionOrder(c, ns) && InDirectionOrder(c, ms)
    requires forall n :: n in ns <==> n in ms
    ensures ns == ms
    decreases |ns|
  {
    if ns == [] {
      NoCellsMeansEmpty(ms);
    } else {
      assert ns[0] in ms && ns[0] in ns;
      assert ms[0] in ns && ms[0] in ms;
      HeadIsLeast(c, ms, ns[0]);
      HeadIsLeast(c, ns, ms[0]);
      assert ns[0] == ms[0];
      forall n ensures n in ns[1..] <==> n in ms[1..] {
        if n in ns[1..] {
          assert n in ns;
          HeadIsLeast(c, ns, n);
          HeadIsLeast(c, ms, n);
        }
        if n in ms[1..] {
          assert n in ms;
          HeadIsLeast(c, ns, n);
          HeadIsLeast(c, ms, n);
        }
      }
      OrderedListsEqual(c, ns[1..], ms[1..]);
      assert ns == [ns[0]] + ns[1..] && ms == [ms[0]] + ms[1..];
    }
  }

  /** A list holding exactly the neighbours of `c`, in enumeration order, is `Neighbors(grid, c)`. */
  lemma NeighborListIsNeighbors(grid: seq<seq<int>>, c: Coord, ns: seq<Coord>)
    requires WellFormed(grid)
    requires forall n :: n in ns <==> Adjacent(grid, c, n)
    requires InDirectionOrder(c, ns)
    ensures ns == Neighbors(grid, c)
  {
    OrderedListsEqual(c, ns, Neighbors(grid, c));
  }

  /**
    `get_neighbors(x, y)`: builds the neighbour list by trying the four offsets in turn.
    The list holds exactly the passable cells one step away, in the order Right, Down,
    Left, Up; by `NeighborListIsNeighbors` it is `Neighbors(grid, Coord(x, y))`.
  */
  method GetNeighbors(grid: seq<seq<int>>, x: int, y: int) returns (neighbors: seq<Coord>)
    requires WellFormed(grid)
    ensures |neighbors| <= 4
    ensures forall n :: n in neighbors <==> Adjacent(grid, Coord(x, y), n)
    ensures InDirectionOrder(Coord(x, y), neighbors)
  {
    neighbors := [];
    var i := 0;
    while i < |Directions|
      invariant 0 <= i <= |Directions|
      invariant neighbors == NeighborsUpTo(grid, Coord(x, y), i)
    {
      var (dx, dy) := Directions[i];
      var nx, ny := x + dx, y + dy;
      assert NeighborsUpTo(grid, Coord(x, y), i + 1) ==
        neighbors + (if 0 <= nx < ROWS && 0 <= ny < COLS && grid[nx][ny] != OBSTACLE then [Coord(nx, ny)] else []);
      if 0 <= nx < ROWS && 0 <= ny < COLS && grid[nx][ny] != OBSTACLE {
        neighbors := neighbors + [Coord(nx, ny)];
      }
      i := i + 1;
    }
    assert neighbors == Neighbors(grid, Coord(x, y));
  }

  /** Every cell of the grid. */
  function AllCells(): (cells: set<Coord>)
    ensures forall c :: c in cells <==> InBounds(c)
  {
    set r, col | 0 <= r < ROWS && 0 <= col < COLS :: Coord(r, col)
  }
}
