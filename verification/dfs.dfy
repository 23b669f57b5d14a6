/** Depth-first search over the grid with a LIFO stack of `(cell, path)` entries. */
module DepthFirst {
  import opened Coords
  import opened Grid
  import opened Walks
  import opened Outcomes
  import opened Frontier

  /**
    `depth_first_search`. Reports neither cost nor heuristic; the path it would draw is
    returned in the outcome. `expanded` lists the cells in the order they were expanded.
    Unlike breadth-first search, the path found need not be a shortest one.
  */
  method DepthFirstSearch(grid: seq<seq<int>>, start: Option<Coord>, goal: Option<Coord>)
    returns (result: Outcome, ghost expanded: seq<Coord>)
    requires WellFormed(grid)
    ensures result.Unset? <==> start.None? || goal.None?
    ensures result.Unset? ==> expanded == []
    ensures start.Some? && goal.Some? ==> Answers(grid, start.value, goal.value, result, expanded)
    ensures result.GoalFound? ==> result.cost == 0 && result.heuristic == 0
  {
    if start.None? || goal.None? {
      return Unset, [];
    }
    var s, t := start.value, goal.value;
    var visited: set<Coord> := {};
    var stack: seq<Node> := [Node(s, [])];
    expanded := [];
    while stack != []
      invariant DfsInv(grid, s, t, visited, expanded, stack)
      decreases AllCells() + {s} - visited, |stack|
    {
      ghost var before := stack;
      var node := stack[|stack| - 1];
      stack := stack[..|stack| - 1];
      if node.cell in visited {
        assert DfsInv(grid, s, t, visited, expanded, stack) by {
          DiscardVisited(grid, s, t, visited, expanded, before);
        }
        continue;
      }
      assert node.cell == s || InBounds(node.cell) by {
        FirstExpansion(grid, s, t, visited, expanded, before);
      }
      ghost var old_visited, old_expanded := visited, expanded;
      var x, y := node.cell.row, node.cell.col;
      visited := visited + {node.cell};
      expanded := expanded + [node.cell];
      var path := node.path + [node.cell];
      if node.cell == t {
        assert Answers(grid, s, t, GoalFound(path, 0, 0), expanded) by {
          GoalReached(grid, s, t, old_visited, old_expanded, before);
          FoundAnswers(grid, s, t, path, 0, 0, expanded);
        }
        return GoalFound(path, 0, 0), expanded;
      }
      var neighbors := GetNeighbors(grid, x, y);
      stack := PushUnvisited(stack, neighbors, visited, path);
      assert DfsInv(grid, s, t, visited, expanded, stack) by {
        ExpandKeepsInvariant(grid, s, t, old_visited, old_expanded, before, neighbors, stack);
      }
    }
    assert Answers(grid, s, t, GoalNotFound, expanded) by {
      EmptyStackClosed(grid, s, t, visited, expanded);
      NotFoundAnswers(grid, s, t, expanded);
    }
    return GoalNotFound, expanded;
  }

  /**
    The loop invariant: expansion bookkeeping; every stacked path is a simple walk from
    `s` through expanded cells; every unexpanded neighbour of an expanded cell is on the stack.
  */
  ghost predicate DfsInv(grid: seq<seq<int>>, s: Coord, t: Coord, visited: set<Coord>, expanded: seq<Coord>,
                         stack: seq<Node>)
    requires WellFormed(grid)
  {
    Explored(s, visited, expanded) && t !in visited &&
    (visited == {} ==> stack == [Node(s, [])]) &&
    EntriesOk(grid, s, visited, stack) &&
    StackedAround(grid, visited, stack)
  }

  /** Every unexpanded neighbour of an expanded cell has an entry on the stack. */
  ghost predicate StackedAround(grid: seq<seq<int>>, visited: set<Coord>, stack: seq<Node>)
    requires WellFormed(grid)
  {
    forall v, n :: v in visited && Adjacent(grid, v, n) ==> n in visited || Queued(stack, n)
  }

  /** Dropping a top entry whose cell is already expanded keeps the invariant. */
  lemma DiscardVisited(grid: seq<seq<int>>, s: Coord, t: Coord, visited: set<Coord>, expanded: seq<Coord>,
                       stack: seq<Node>)
    requires WellFormed(grid) && DfsInv(grid, s, t, visited, expanded, stack)
    requires stack != [] && stack[|stack| - 1].cell in visited
    ensures DfsInv(grid, s, t, visited, expanded, stack[..|stack| - 1])
  {
    forall v, n | v in visited && Adjacent(grid, v, n) && n !in visited
      ensures Queued(stack[..|stack| - 1], n)
    {
      QueuedAfterPop(stack, n);
    }
  }

  /** The top entry of an unexpanded cell carries a simple walk from `s` through expanded cells. */
  lemma FirstExpansion(grid: seq<seq<int>>, s: Coord, t: Coord, visited: set<Coord>, expanded: seq<Coord>,
                       stack: seq<Node>)
    requires WellFormed(grid) && DfsInv(grid, s, t, visited, expanded, stack)
    requires stack != [] && stack[|stack| - 1].cell !in visited
    ensures var top := stack[|stack| - 1];
      && (top.cell == s || InBounds(top.cell))
      && TrailOk(grid, s, visited + {top.cell}, top.path + [top.cell])
      && Explored(s, visited + {top.cell}, expanded + [top.cell])
      && (top.cell == s ==> top.path == [])
  {
    var top := stack[|stack| - 1];
    assert top in stack;
    assert EntryOk(grid, s, visited, top.cell, top.path);
    if top.path != [] {
      assert top.path[|top.path| - 1] in top.path;
    }
    ExtendTrail(grid, s, visited, top.cell, top.path);
    ExploreOne(s, visited, expanded, top.cell);
  }

  /** Expanding the top cell and pushing its unvisited neighbours keeps the invariant. */
  lemma ExpandKeepsInvariant(grid: seq<seq<int>>, s: Coord, t: Coord, visited: set<Coord>, expanded: seq<Coord>,
                             stack: seq<Node>, ns: seq<Coord>, stack': seq<Node>)
    requires WellFormed(grid) && DfsInv(grid, s, t, visited, expanded, stack)
    requires stack != [] && stack[|stack| - 1].cell !in visited && stack[|stack| - 1].cell != t
    requires forall n :: n in ns <==> Adjacent(grid, stack[|stack| - 1].cell, n)
    requires stack' == stack[..|stack| - 1] +
      Unvisited(ns, visited + {stack[|stack| - 1].cell}, stack[|stack| - 1].path + [stack[|stack| - 1].cell])
    ensures DfsInv(grid, s, t, visited + {stack[|stack| - 1].cell}, expanded + [stack[|stack| - 1].cell], stack')
  {
    var top, rest := stack[|stack| - 1], stack[..|stack| - 1];
    var cell, path := top.cell, top.path + [top.cell];
    var visited' := visited + {cell};
    var added := Unvisited(ns, visited', path);
    FirstExpansion(grid, s, t, visited, expanded, stack);
    UnvisitedEntries(ns, visited', path);
    forall e: Node | e in rest + added ensures EntryOk(grid, s, visited', e.cell, e.path) {
      if e in rest {
        assert e in stack;
        EntryOkGrows(grid, s, visited, visited', e.cell, e.path);
      } else {
        assert e.path == path && path[|path| - 1] == cell;
      }
    }
    forall v, n | v in visited' && Adjacent(grid, v, n) && n !in visited'
      ensures Queued(rest + added, n)
    {
      if v == cell {
        assert Node(n, path) in added;
        assert Node(n, path) in rest + added;
      } else {
        QueuedAfterPop(stack, n);
        var d :| d in rest && d.cell == n;
        assert d in rest + added;
      }
    }
  }

  /** Expanding `t` reports a simple path from `s` to `t`. */
  lemma GoalReached(grid: seq<seq<int>>, s: Coord, t: Coord, visited: set<Coord>, expanded: seq<Coord>,
                    stack: seq<Node>)
    requires WellFormed(grid) && DfsInv(grid, s, t, visited, expanded, stack)
    requires stack != [] && stack[|stack| - 1].cell == t
    ensures
      var path, expanded' := stack[|stack| - 1].path + [t], expanded + [t];
      && SimplePath(grid, path, s, t)
      && Reachable(grid, s, t)
      && (s == t ==> path == [s])
      && Distinct(expanded')
      && (forall x :: x in expanded' ==> x == s || InBounds(x))
      && expanded'[|expanded'| - 1] == t
      && expanded'[0] == s
      && (forall x :: x in path ==> x in expanded')
  {
    FirstExpansion(grid, s, t, visited, expanded, stack);
    assert WalkFromTo(grid, stack[|stack| - 1].path + [t], s, t);
  }

  /** With the stack empty, the expanded cells are closed under steps and hold no path to `t`. */
  lemma EmptyStackClosed(grid: seq<seq<int>>, s: Coord, t: Coord, visited: set<Coord>, expanded: seq<Coord>)
    requires WellFormed(grid) && DfsInv(grid, s, t, visited, expanded, [])
    ensures s != t && t !in expanded && !Reachable(grid, s, t)
    ensures forall x, n :: x in expanded && Adjacent(grid, x, n) ==> n in expanded
    ensures Distinct(expanded) && forall x :: x in expanded ==> x == s || InBounds(x)
    ensures expanded != [] && expanded[0] == s
  {
    ReachableStaysInside(grid, visited, s, t);
  }
}
