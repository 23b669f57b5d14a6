/** Grid coordinates and the Manhattan-distance heuristic used by A*. */
module Coords {

  /** A cell of the grid: `row` is the first tuple component (x) and `col` the second (y). */
  datatype Coord = Coord(row: int, col: int)

  function Abs(x: int): (r: nat)
    ensures r == x || r == -x
  {
    if x < 0 then -x else x
  }

  /** Manhattan distance between `current` and `goal`. */
  function Heuristic(current: Coord, goal: Coord): (h: nat)
    ensures h == 0 <==> current == goal
    ensures h >= Abs(current.row - goal.row) && h >= Abs(current.col - goal.col)
  {
    Abs(current.row - goal.row) + Abs(current.col - goal.col)
  }

  /** The heuristic is symmetric and satisfies the triangle inequality. */
  lemma HeuristicIsMetric(a: Coord, b: Coord, c: Coord)
    ensures Heuristic(a, b) == Heuristic(b, a)
    ensures Heuristic(a, c) <= Heuristic(a, b) + Heuristic(b, c)
  {
  }

  /** Consistency: between two cells one step apart the heuristic changes by at most one. */
  lemma HeuristicIsConsistent(a: Coord, b: Coord, goal: Coord)
    requires Heuristic(a, b) == 1
    ensures Heuristic(a, goal) <= Heuristic(b, goal) + 1
    ensures Heuristic(b, goal) <= Heuristic(a, goal) + 1
  {
    HeuristicIsMetric(a, b, goal);
    HeuristicIsMetric(b, a, goal);
  }
}
