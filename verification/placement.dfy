/**
  The state the event loop keeps between events: the grid, the two endpoints and the last
  result shown. A left click inside the grid places the start, then the goal, then obstacles;
  a click on a button runs that button's search and shows its result triple.
*/
module Placement {
  import opened Coords
  import opened Grid
  import opened Walks
  import opened Outcomes
  import opened Strategies
  import AStar

  /** The grid and the endpoints, as the searches read them. */
  datatype Layout = Layout(grid: seq<seq<int>>, start: Option<Coord>, goal: Option<Coord>)

  /** The initial grid: every cell free. */
  function EmptyGrid(): (g: seq<seq<int>>)
    ensures WellFormed(g)
    ensures forall c :: InBounds(c) ==> g[c.row][c.col] == FREE
  {
    seq(ROWS, _ => seq(COLS, _ => FREE))
  }

  /** `grid` with the code of `cell` replaced by `code`. */
  function SetCell(grid: seq<seq<int>>, cell: Coord, code: int): (g: seq<seq<int>>)
    requires WellFormed(grid) && InBounds(cell)
    ensures WellFormed(g)
    ensures g[cell.row][cell.col] == code
    ensures forall c :: InBounds(c) && c != cell ==> g[c.row][c.col] == grid[c.row][c.col]
  {
    grid[cell.row := grid[cell.row][cell.col := code]]
  }

  /**
    One click on grid cell `cell`: the first places the start, the next the goal, and every
    later one an obstacle, even over the start or goal cell, whose endpoint stays placed.
  */
  function Place(l: Layout, cell: Coord): (r: Layout)
    requires WellFormed(l.grid) && InBounds(cell)
    ensures WellFormed(r.grid)
    ensures l.start.None? ==> r.start == Some(cell) && r.goal == l.goal && r.grid[cell.row][cell.col] == START
    ensures l.start.Some? && l.goal.None? ==>
      r.start == l.start && r.goal == Some(cell) && r.grid[cell.row][cell.col] == GOAL
    ensures l.start.Some? && l.goal.Some? ==>
      r.start == l.start && r.goal == l.goal && r.grid[cell.row][cell.col] == OBSTACLE
    ensures forall c :: InBounds(c) && c != cell ==> r.grid[c.row][c.col] == l.grid[c.row][c.col]
  {
    if l.start.None? then Layout(SetCell(l.grid, cell, START), Some(cell), l.goal)
    else if l.goal.None? then Layout(SetCell(l.grid, cell, GOAL), l.start, Some(cell))
    else Layout(SetCell(l.grid, cell, OBSTACLE), l.start, l.goal)
  }

  /** The clicks `cells`, in order. */
  function PlaceAll(l: Layout, cells: seq<Coord>): (r: Layout)
    requires WellFormed(l.grid) && forall i :: 0 <= i < |cells| ==> InBounds(cells[i])
    ensures WellFormed(r.grid)
    decreases |cells|
  {
    if cells == [] then l else PlaceAll(Place(l, cells[0]), cells[1..])
  }

  /**
    Once both endpoints are placed, the clicks `cells[k..]` change neither of them, turn every
    cell they click into an obstacle and leave every other cell as it was.
  */
  lemma {:induction false} LaterClicksAreObstacles(l: Layout, cells: seq<Coord>, k: nat)
    requires WellFormed(l.grid) && forall i :: 0 <= i < |cells| ==> InBounds(cells[i])
    requires l.start.Some? && l.goal.Some? && k <= |cells|
    ensures var r := PlaceAll(l, cells[k..]);
      && r.start == l.start && r.goal == l.goal
      && (forall i :: k <= i < |cells| ==> r.grid[cells[i].row][cells[i].col] == OBSTACLE)
      && (forall c :: InBounds(c) && (forall i :: k <= i < |cells| ==> cells[i] != c) ==>
            r.grid[c.row][c.col] == l.grid[c.row][c.col])
    decreases |cells| - k
  {
    if k < |cells| {
      var l' := Place(l, cells[k]);
      assert cells[k..][1..] == cells[k + 1..];
      LaterClicksAreObstacles(l', cells, k + 1);
    }
  }

  /**
    On a fresh board, the first click places the start and the second the goal; every later
    click leaves an obstacle; a cell never clicked stays free; the start cell keeps its start
    code unless clicked again, and the goal cell its goal code unless clicked later.
  */
  lemma ClicksOnFreshBoard(cells: seq<Coord>)
    requires |cells| >= 2 && forall i :: 0 <= i < |cells| ==> InBounds(cells[i])
    ensures var r := PlaceAll(Layout(EmptyGrid(), None, None), cells);
      && r.start == Some(cells[0]) && r.goal == Some(cells[1])
      && (forall i :: 2 <= i < |cells| ==> r.grid[cells[i].row][cells[i].col] == OBSTACLE)
      && (forall c :: InBounds(c) && c !in cells ==> r.grid[c.row][c.col] == FREE)
      && ((forall i :: 1 <= i < |cells| ==> cells[i] != cells[0]) ==>
            r.grid[cells[0].row][cells[0].col] == START)
      && ((forall i :: 2 <= i < |cells| ==> cells[i] != cells[1]) ==>
            r.grid[cells[1].row][cells[1].col] == GOAL)
  {
    var l0 := Layout(EmptyGrid(), None, None);
    var l2 := Place(Place(l0, cells[0]), cells[1]);
    assert cells[1..][1..] == cells[2..];
    assert PlaceAll(l0, cells) == PlaceAll(l2, cells[2..]);
    LaterClicksAreObstacles(l2, cells, 2);
  }

  /** The board the event loop works on, with the last result it shows. */
  class Board {
    var grid: seq<seq<int>>
    var start: Option<Coord>
    var goal: Option<Coord>
    var message: string
    var totalCost: int
    var heuristicCost: int
    /** The outcome of the last search run, whose triple is shown. */
    ghost var shown: Outcome

    ghost predicate Valid()
      reads this
    {
      WellFormed(grid)
    }

    /** The grid and endpoints as a value. */
    function Current(): Layout
      reads this
    {
      Layout(grid, start, goal)
    }

    /** An empty grid, no endpoints and no result shown yet. */
    constructor ()
      ensures Valid() && Current() == Layout(EmptyGrid(), None, None)
      ensures message == "" && totalCost == 0 && heuristicCost == 0
    {
      grid := EmptyGrid();
      start, goal := None, None;
      message, totalCost, heuristicCost := "", 0, 0;
      shown := Unset;
    }

    /** A left click on grid cell `cell`; the result shown is untouched. */
    method Click(cell: Coord)
      requires Valid() && InBounds(cell)
      modifies this
      ensures Valid() && Current() == Place(old(Current()), cell)
      ensures message == old(message) && totalCost == old(totalCost) && heuristicCost == old(heuristicCost)
      ensures shown == old(shown)
    {
      if start.None? {
        start := Some(cell);
        grid := grid[cell.row := grid[cell.row][cell.col := START]];
      } else if goal.None? {
        goal := Some(cell);
        grid := grid[cell.row := grid[cell.row][cell.col := GOAL]];
      } else {
        grid := grid[cell.row := grid[cell.row][cell.col := OBSTACLE]];
      }
    }

    /**
      A click on button `b`: runs its search on the current grid and endpoints and shows
      the triple it returns. The grid and endpoints are untouched.
    */
    method Press(b: Button)
      requires Valid()
      modifies this
      ensures Valid() && Current() == old(Current())
      ensures (message, totalCost, heuristicCost) == Report(shown)
      ensures shown.Unset? <==> start.None? || goal.None?
      ensures start.Some? && goal.Some? ==> (shown.GoalFound? <==> Reachable(grid, start.value, goal.value))
      ensures shown.GoalFound? ==> SimplePath(grid, shown.path, start.value, goal.value)
      ensures b == BfsButton || b == DfsButton ==> totalCost == 0 && heuristicCost == 0
      ensures b == BfsButton && shown.GoalFound? ==>
        forall w :: WalkFromTo(grid, w, start.value, goal.value) ==> |shown.path| <= |w|
      ensures (b == AStarButton || b == UcsButton) && shown.GoalFound? ==>
        totalCost == |shown.path| - 1 && LeastSteps(grid, start.value, goal.value, totalCost)
      ensures b == UcsButton ==> heuristicCost == 0
      ensures b == AStarButton && shown.GoalFound? ==>
        heuristicCost == AStar.HeuristicTotal(shown.path, goal.value)
    {
      var result := Solve(grid, start, goal, b);
      shown := result;
      message, totalCost, heuristicCost := Report(result).0, Report(result).1, Report(result).2;
    }
  }
}
