/** The four search buttons of the options panel, and what the four strategies have in common. */
module Strategies {
  import opened Coords
  import opened Grid
  import opened Walks
  import opened Outcomes
  import BreadthFirst
  import DepthFirst
  import AStar
  import UniformCost

  /** The buttons in panel order: BFS, DFS, A*, UCS. */
  datatype Button = BfsButton | DfsButton | AStarButton | UcsButton

  /** `k` is the least number of steps of any walk from `s` to `t`. */
  ghost predicate LeastSteps(grid: seq<seq<int>>, s: Coord, t: Coord, k: int)
    requires WellFormed(grid)
  {
    (exists w :: WalkFromTo(grid, w, s, t) && k == |w| - 1) &&
    forall w :: WalkFromTo(grid, w, s, t) ==> k <= |w| - 1
  }

  /**
    Runs the search bound to button `b`. Whatever the button, the outcome is "unset" exactly
    when an endpoint is missing, and "goal found" exactly when the goal is reachable, with a
    simple path from start to goal. Breadth-first search finds a path no longer than any
    walk and, like depth-first search, reports cost 0 and heuristic 0; uniform-cost search
    reports the least number of steps and heuristic 0; A* search reports the least number of
    steps and the sum of the heuristic over the cells of its path.
  */
  method Solve(grid: seq<seq<int>>, start: Option<Coord>, goal: Option<Coord>, b: Button)
    returns (result: Outcome)
    requires WellFormed(grid)
    ensures result.Unset? <==> start.None? || goal.None?
    ensures start.Some? && goal.Some? ==>
      (result.GoalFound? <==> Reachable(grid, start.value, goal.value))
    ensures result.GoalFound? ==> SimplePath(grid, result.path, start.value, goal.value)
    ensures b == BfsButton || b == DfsButton ==> Report(result).1 == 0 && Report(result).2 == 0
    ensures b == BfsButton && result.GoalFound? ==>
      forall w :: WalkFromTo(grid, w, start.value, goal.value) ==> |result.path| <= |w|
    ensures (b == AStarButton || b == UcsButton) && result.GoalFound? ==>
      result.cost == |result.path| - 1 && LeastSteps(grid, start.value, goal.value, result.cost)
    ensures b == UcsButton && result.GoalFound? ==> result.heuristic == 0
    ensures b == AStarButton && result.GoalFound? ==>
      result.heuristic == AStar.HeuristicTotal(result.path, goal.value)
  {
    ghost var expanded: seq<Coord>;
    match b
    case BfsButton => result, expanded := BreadthFirst.BreadthFirstSearch(grid, start, goal);
    case DfsButton => result, expanded := DepthFirst.DepthFirstSearch(grid, start, goal);
    case AStarButton => result, expanded := AStar.AStarSearch(grid, start, goal);
    case UcsButton => result, expanded := UniformCost.UniformCostSearch(grid, start, goal);
  }

  /**
    Runs all four searches on the same grid and endpoints. They agree on whether the goal
    is found; uniform-cost and A* search report the same cost, which is the number of steps
    of the path breadth-first search finds.
  */
  method CompareAll(grid: seq<seq<int>>, start: Option<Coord>, goal: Option<Coord>)
    returns (bfs: Outcome, dfs: Outcome, astar: Outcome, ucs: Outcome)
    requires WellFormed(grid)
    ensures bfs.Unset? == dfs.Unset? == astar.Unset? == ucs.Unset?
    ensures bfs.GoalFound? == dfs.GoalFound? == astar.GoalFound? == ucs.GoalFound?
    ensures astar.GoalFound? ==> astar.cost == ucs.cost == |bfs.path| - 1
  {
    ghost var e1, e2, e3, e4: seq<Coord>;
    bfs, e1 := BreadthFirst.BreadthFirstSearch(grid, start, goal);
    dfs, e2 := DepthFirst.DepthFirstSearch(grid, start, goal);
    astar, e3 := AStar.AStarSearch(grid, start, goal);
    ucs, e4 := UniformCost.UniformCostSearch(grid, start, goal);
    if astar.GoalFound? {
      var s, t := start.value, goal.value;
      assert WalkFromTo(grid, bfs.path, s, t);
      assert WalkFromTo(grid, astar.path, s, t);
      assert WalkFromTo(grid, ucs.path, s, t);
    }
  }
}
