/** Breadth-first search over the grid with a FIFO queue of `(cell, path)` entries. */
module BreadthFirst {
  import opened Coords
  import opened Grid
  import opened Walks
  import opened Outcomes
  import opened Frontier

  /**
    `Breadth_First_Search`. Reports neither cost nor heuristic; the path it would draw is
    returned in the outcome. `expanded` lists the cells in the order they were expanded.
  */
  method BreadthFirstSearch(grid: seq<seq<int>>, start: Option<Coord>, goal: Option<Coord>)
    returns (result: Outcome, ghost expanded: seq<Coord>)
    requires WellFormed(grid)
    ensures result.Unset? <==> start.None? || goal.None?
    ensures result.Unset? ==> expanded == []
    ensures start.Some? && goal.Some? ==> Answers(grid, start.value, goal.value, result, expanded)
    ensures result.GoalFound? ==> result.cost == 0 && result.heuristic == 0
    ensures result.GoalFound? ==>
      forall w :: WalkFromTo(grid, w, start.value, goal.value) ==> |result.path| <= |w|
  {
    if start.None? || goal.None? {
      return Unset, [];
    }
    var s, t := start.value, goal.value;
    var visited: set<Coord> := {};
    var queue: seq<Node> := [Node(s, [])];
    expanded := [];
    ghost var dist: map<Coord, int> := map[];
    while queue != []
      invariant BfsInv(grid, s, t, visited, expanded, queue, dist)
      decreases AllCells() + {s} - visited, |queue|
    {
      ghost var before := queue;
      var node := queue[0];
      queue := queue[1..];
      if node.cell in visited {
        assert BfsInv(grid, s, t, visited, expanded, queue, dist) by {
          DiscardVisited(grid, s, t, visited, expanded, before, dist);
        }
        continue;
      }
      assert node.cell == s || InBounds(node.cell) by {
        FirstExpansion(grid, s, t, visited, expanded, before, dist);
      }
      ghost var old_visited, old_expanded, old_dist := visited, expanded, dist;
      var x, y := node.cell.row, node.cell.col;
      visited := visited + {node.cell};
      expanded := expanded + [node.cell];
      dist := dist[node.cell := |node.path|];
      var path := node.path + [node.cell];
      if node.cell == t {
        assert Answers(grid, s, t, GoalFound(path, 0, 0), expanded) &&
               forall w :: WalkFromTo(grid, w, s, t) ==> |path| <= |w| by {
          GoalReached(grid, s, t, old_visited, old_expanded, before, old_dist);
          FoundAnswers(grid, s, t, path, 0, 0, expanded);
        }
        return GoalFound(path, 0, 0), expanded;
      }
      var neighbors := GetNeighbors(grid, x, y);
      queue := PushUnvisited(queue, neighbors, visited, path);
      assert BfsInv(grid, s, t, visited, expanded, queue, dist) by {
        ExpandKeepsInvariant(grid, s, t, old_visited, old_expanded, before, old_dist, neighbors, queue);
      }
    }
    assert Answers(grid, s, t, GoalNotFound, expanded) by {
      EmptyQueueClosed(grid, s, t, visited, expanded, dist);
      NotFoundAnswers(grid, s, t, expanded);
    }
    return GoalNotFound, expanded;
  }

  /**
    The loop invariant: expansion bookkeeping; every queued path is a simple walk from `s`
    through expanded cells; the queue is ordered by path length (FIFO levels); every
    unexpanded neighbour of an expanded cell `v` is queued with a path of at most
    `dist[v] + 1` cells; and `dist[v]`, the length of the path `v` was expanded with, is
    no longer than any walk to `v`.
  */
  ghost predicate BfsInv(grid: seq<seq<int>>, s: Coord, t: Coord, visited: set<Coord>, expanded: seq<Coord>,
                         queue: seq<Node>, dist: map<Coord, int>)
    requires WellFormed(grid)
  {
    Explored(s, visited, expanded) && t !in visited &&
    (visited == {} ==> queue == [Node(s, [])]) &&
    EntriesOk(grid, s, visited, queue) &&
    LevelOrdered(queue) &&
    dist.Keys == visited &&
    QueuedAround(grid, visited, queue, dist) &&
    Shortest(grid, s, visited, dist)
  }

  /** Every unexpanded neighbour of an expanded cell `v` is queued with a path of at most `dist[v] + 1` cells. */
  ghost predicate QueuedAround(grid: seq<seq<int>>, visited: set<Coord>, queue: seq<Node>, dist: map<Coord, int>)
    requires WellFormed(grid) && visited <= dist.Keys
  {
    forall v, n :: v in visited && Adjacent(grid, v, n) ==> n in visited || QueuedWithin(queue, n, dist[v] + 1)
  }

  /** Dropping an entry whose cell is already expanded keeps the invariant. */
  lemma DiscardVisited(grid: seq<seq<int>>, s: Coord, t: Coord, visited: set<Coord>, expanded: seq<Coord>,
                       queue: seq<Node>, dist: map<Coord, int>)
    requires WellFormed(grid) && BfsInv(grid, s, t, visited, expanded, queue, dist)
    requires queue != [] && queue[0].cell in visited
    ensures BfsInv(grid, s, t, visited, expanded, queue[1..], dist)
  {
    LevelOrderedDequeue(queue);
    forall v, n | v in visited && Adjacent(grid, v, n) && n !in visited
      ensures QueuedWithin(queue[1..], n, dist[v] + 1)
    {
      QueuedWithinAfterDequeue(queue, n, dist[v] + 1);
    }
  }

  /**
    The front entry of an unexpanded cell carries a simple walk from `s` that is no
    longer than any other walk to that cell.
  */
  lemma FirstExpansion(grid: seq<seq<int>>, s: Coord, t: Coord, visited: set<Coord>, expanded: seq<Coord>,
                       queue: seq<Node>, dist: map<Coord, int>)
    requires WellFormed(grid) && BfsInv(grid, s, t, visited, expanded, queue, dist)
    requires queue != [] && queue[0].cell !in visited
    ensures queue[0].cell == s || InBounds(queue[0].cell)
    ensures TrailOk(grid, s, visited + {queue[0].cell}, queue[0].path + [queue[0].cell])
    ensures Explored(s, visited + {queue[0].cell}, expanded + [queue[0].cell])
    ensures forall w :: WalkFromTo(grid, w, s, queue[0].cell) ==> |queue[0].path| + 1 <= |w|
    ensures visited == {} ==> queue[0] == Node(s, [])
    ensures queue[0].cell == s ==> visited == {}
  {
    var node := queue[0];
    var k := |node.path|;
    assert EntryOk(grid, s, visited, node.cell, node.path);
    forall v, n | v in visited && n !in visited && Adjacent(grid, v, n) ensures k <= dist[v] + 1 {
      LevelOrderedFront(queue, n, dist[v] + 1);
    }
    forall w | WalkFromTo(grid, w, s, node.cell) ensures k <= |w| - 1 {
      if visited != {} {
        ShortestByFirstExit(grid, s, visited, dist, k, w);
      }
    }
    ExtendTrail(grid, s, visited, node.cell, node.path);
    ExploreOne(s, visited, expanded, node.cell);
  }

  /** Expanding the front cell and queueing its unvisited neighbours keeps the invariant. */
  lemma ExpandKeepsInvariant(grid: seq<seq<int>>, s: Coord, t: Coord, visited: set<Coord>, expanded: seq<Coord>,
                             queue: seq<Node>, dist: map<Coord, int>, ns: seq<Coord>, queue': seq<Node>)
    requires WellFormed(grid) && BfsInv(grid, s, t, visited, expanded, queue, dist)
    requires queue != [] && queue[0].cell !in visited && queue[0].cell != t
    requires forall n :: n in ns <==> Adjacent(grid, queue[0].cell, n)
    requires queue' == queue[1..] + Unvisited(ns, visited + {queue[0].cell}, queue[0].path + [queue[0].cell])
    ensures BfsInv(grid, s, t, visited + {queue[0].cell}, expanded + [queue[0].cell], queue',
                   dist[queue[0].cell := |queue[0].path|])
  {
    var node := queue[0];
    var cell, k := node.cell, |node.path|;
    var path := node.path + [cell];
    var visited', dist' := visited + {cell}, dist[cell := k];
    var rest := queue[1..];
    var added := Unvisited(ns, visited', path);
    FirstExpansion(grid, s, t, visited, expanded, queue, dist);
    UnvisitedEntries(ns, visited', path);
    LevelOrderedDequeue(queue);
    LevelOrderedAppend(rest, added, k);
    EntriesAfterExpand(grid, s, visited, queue, ns, added);
    ClosureAfterExpand(grid, visited, queue, dist, ns, added);
    ShortestAfterRecord(grid, s, visited, dist, cell, k);
    RecordKeys(dist, visited, cell, k);
  }

  /** Every entry left in the queue and every entry appended stays well-formed once `queue[0].cell` is expanded. */
  lemma EntriesAfterExpand(grid: seq<seq<int>>, s: Coord, visited: set<Coord>, queue: seq<Node>,
                           ns: seq<Coord>, added: seq<Node>)
    requires WellFormed(grid) && queue != [] && EntriesOk(grid, s, visited, queue)
    requires TrailOk(grid, s, visited + {queue[0].cell}, queue[0].path + [queue[0].cell])
    requires forall n :: n in ns ==> Adjacent(grid, queue[0].cell, n)
    requires added == Unvisited(ns, visited + {queue[0].cell}, queue[0].path + [queue[0].cell])
    ensures EntriesOk(grid, s, visited + {queue[0].cell}, queue[1..] + added)
  {
    var cell := queue[0].cell;
    var path := queue[0].path + [cell];
    UnvisitedEntries(ns, visited + {cell}, path);
    forall e: Node | e in queue[1..] + added ensures EntryOk(grid, s, visited + {cell}, e.cell, e.path) {
      if e in queue[1..] {
        EntryOkGrows(grid, s, visited, visited + {cell}, e.cell, e.path);
      } else {
        assert e.path == path && path[|path| - 1] == cell;
      }
    }
  }

  /** Every unexpanded neighbour of an expanded cell stays queued within its bound. */
  lemma ClosureAfterExpand(grid: seq<seq<int>>, visited: set<Coord>, queue: seq<Node>, dist: map<Coord, int>,
                           ns: seq<Coord>, added: seq<Node>)
    requires WellFormed(grid) && queue != [] && visited <= dist.Keys
    requires QueuedAround(grid, visited, queue, dist)
    requires forall n :: Adjacent(grid, queue[0].cell, n) ==> n in ns
    requires added == Unvisited(ns, visited + {queue[0].cell}, queue[0].path + [queue[0].cell])
    ensures QueuedAround(grid, visited + {queue[0].cell}, queue[1..] + added, dist[queue[0].cell := |queue[0].path|])
  {
    var cell, k := queue[0].cell, |queue[0].path|;
    var path := queue[0].path + [cell];
    var visited', dist' := visited + {cell}, dist[cell := k];
    UnvisitedEntries(ns, visited', path);
    forall v, n | v in visited' && Adjacent(grid, v, n) && n !in visited'
      ensures QueuedWithin(queue[1..] + added, n, dist'[v] + 1)
    {
      if v == cell {
        assert Node(n, path) in added;
      } else {
        QueuedWithinAfterDequeue(queue, n, dist[v] + 1);
      }
      QueuedWithinAppend(queue[1..], added, n, dist'[v] + 1);
    }
  }

  /** Expanding `t` reports a shortest simple path from `s` to `t`. */
  lemma GoalReached(grid: seq<seq<int>>, s: Coord, t: Coord, visited: set<Coord>, expanded: seq<Coord>,
                    queue: seq<Node>, dist: map<Coord, int>)
    requires WellFormed(grid) && BfsInv(grid, s, t, visited, expanded, queue, dist)
    requires queue != [] && queue[0].cell == t
    ensures
      var path, expanded' := queue[0].path + [t], expanded + [t];
      && SimplePath(grid, path, s, t)
      && (forall w :: WalkFromTo(grid, w, s, t) ==> |path| <= |w|)
      && Reachable(grid, s, t)
      && (s == t ==> path == [s])
      && Distinct(expanded')
      && (forall x :: x in expanded' ==> x == s || InBounds(x))
      && expanded'[|expanded'| - 1] == t
      && expanded'[0] == s
      && (forall x :: x in path ==> x in expanded')
  {
    FirstExpansion(grid, s, t, visited, expanded, queue, dist);
    assert WalkFromTo(grid, queue[0].path + [t], s, t);
  }

  /** With the queue empty, the expanded cells are closed under steps and hold no path to `t`. */
  lemma EmptyQueueClosed(grid: seq<seq<int>>, s: Coord, t: Coord, visited: set<Coord>, expanded: seq<Coord>,
                         dist: map<Coord, int>)
    requires WellFormed(grid) && BfsInv(grid, s, t, visited, expanded, [], dist)
    ensures s != t && t !in expanded && !Reachable(grid, s, t)
    ensures forall x, n :: x in expanded && Adjacent(grid, x, n) ==> n in expanded
    ensures Distinct(expanded) && forall x :: x in expanded ==> x == s || InBounds(x)
    ensures expanded != [] && expanded[0] == s
  {
    ReachableStaysInside(grid, visited, s, t);
  }
}
