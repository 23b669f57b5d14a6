/** Uniform cost search: a priority queue of `(cost, cell, path)` entries, every step costing one. */
module UniformCost {
  import opened Coords
  import opened Grid
  import opened Walks
  import opened Outcomes
  import opened Frontier

  /**
    `uniform_cost_search`. Reports the cost of the path found (its number of steps) and
    a heuristic total of 0; the path it would draw is returned in the outcome.
    `expanded` lists the cells in the order they were expanded.
  */
  method UniformCostSearch(grid: seq<seq<int>>, start: Option<Coord>, goal: Option<Coord>)
    returns (result: Outcome, ghost expanded: seq<Coord>)
    requires WellFormed(grid)
    ensures result.Unset? <==> start.None? || goal.None?
    ensures result.Unset? ==> expanded == []
    ensures start.Some? && goal.Some? ==> Answers(grid, start.value, goal.value, result, expanded)
    ensures result.GoalFound? ==> result.cost == |result.path| - 1 && result.heuristic == 0
    ensures result.GoalFound? ==>
      forall w :: WalkFromTo(grid, w, start.value, goal.value) ==> result.cost <= |w| - 1
  {
    if start.None? || goal.None? {
      return Unset, [];
    }
    var s, t := start.value, goal.value;
    var openSet: seq<HeapEntry> := [HeapEntry(0, s, [])];
    var visited: set<Coord> := {};
    expanded := [];
    ghost var dist: map<Coord, int> := map[];
    InitialInvariant(grid, s, t);
    while openSet != []
      invariant UcsInv(grid, s, t, visited, expanded, openSet, dist)
      decreases AllCells() + {s} - visited, |openSet|
    {
      ghost var before := openSet;
      var top, rest := HeapPop(openSet);
      assert Popped(before, top, rest);
      openSet := rest;
      if top.cell in visited {
        assert UcsInv(grid, s, t, visited, expanded, openSet, dist) by {
          DiscardVisited(grid, s, t, visited, expanded, before, top, rest, dist);
        }
        continue;
      }
      assert top.cell == s || InBounds(top.cell) by {
        FirstExpansion(grid, s, t, visited, expanded, before, top, rest, dist);
      }
      ghost var old_visited, old_expanded, old_dist := visited, expanded, dist;
      var currentCost, x, y := top.key, top.cell.row, top.cell.col;
      visited := visited + {top.cell};
      expanded := expanded + [top.cell];
      dist := dist[top.cell := currentCost];
      var path := top.path + [top.cell];
      if top.cell == t {
        assert Answers(grid, s, t, GoalFound(path, currentCost, 0), expanded) &&
               currentCost == |path| - 1 &&
               forall w :: WalkFromTo(grid, w, s, t) ==> currentCost <= |w| - 1 by {
          GoalReached(grid, s, t, old_visited, old_expanded, before, top, rest, old_dist);
          FoundAnswers(grid, s, t, path, currentCost, 0, expanded);
        }
        return GoalFound(path, currentCost, 0), expanded;
      }
      var neighbors := GetNeighbors(grid, x, y);
      openSet := PushUnvisited(openSet, neighbors, visited, currentCost + 1, path);
      assert UcsInv(grid, s, t, visited, expanded, openSet, dist) by {
        ExpandKeepsInvariant(grid, s, t, old_visited, old_expanded, before, top, rest, old_dist, neighbors, openSet);
      }
    }
    assert Answers(grid, s, t, GoalNotFound, expanded) by {
      EmptyHeapClosed(grid, s, t, visited, expanded, dist);
      NotFoundAnswers(grid, s, t, expanded);
    }
    return GoalNotFound, expanded;
  }

  /**
    The entries `(key, n, path)` the neighbour loop pushes: one per unvisited neighbour, in order.
    This is the heap counterpart of `Frontier.Unvisited`: the queue and stack hold two-field
    `(cell, path)` entries, while the heap orders three-field entries by their key, so the two
    neighbour loops build entries of different types.
  */
  function Unvisited(neighbors: seq<Coord>, visited: set<Coord>, key: int, path: seq<Coord>): (added: seq<HeapEntry>)
    ensures |added| <= |neighbors|
  {
    if neighbors == [] then []
    else
      var n := neighbors[|neighbors| - 1];
      var front := neighbors[..|neighbors| - 1];
      assert neighbors == front + [n];
      Unvisited(front, visited, key, path) + (if n !in visited then [HeapEntry(key, n, path)] else [])
  }

  /** The neighbour loop of uniform cost search: pushes an entry keyed `key` for each neighbour not yet expanded. */
  method PushUnvisited(heap: seq<HeapEntry>, neighbors: seq<Coord>, visited: set<Coord>, key: int, path: seq<Coord>)
    returns (r: seq<HeapEntry>)
    ensures r == heap + Unvisited(neighbors, visited, key, path)
  {
    r := heap;
    var i := 0;
    while i < |neighbors|
      invariant 0 <= i <= |neighbors|
      invariant r == heap + Unvisited(neighbors[..i], visited, key, path)
    {
      UnvisitedStep(neighbors, visited, key, path, i);
      if neighbors[i] !in visited {
        r := r + [HeapEntry(key, neighbors[i], path)];
      }
      i := i + 1;
    }
    assert neighbors[..i] == neighbors;
  }

  /** Taking one more neighbour adds its entry when it is unvisited. */
  lemma UnvisitedStep(neighbors: seq<Coord>, visited: set<Coord>, key: int, path: seq<Coord>, i: nat)
    requires i < |neighbors|
    ensures Unvisited(neighbors[..i + 1], visited, key, path) ==
      Unvisited(neighbors[..i], visited, key, path) +
      (if neighbors[i] !in visited then [HeapEntry(key, neighbors[i], path)] else [])
  {
    assert neighbors[..i + 1][..i] == neighbors[..i];
  }

  /** The pushed entries are exactly `(key, n, path)` for the unvisited neighbours `n`. */
  lemma {:induction false} UnvisitedEntries(neighbors: seq<Coord>, visited: set<Coord>, key: int, path: seq<Coord>)
    ensures forall e :: e in Unvisited(neighbors, visited, key, path) ==>
      e.key == key && e.path == path && e.cell in neighbors && e.cell !in visited
    ensures forall n :: n in neighbors && n !in visited ==> HeapEntry(key, n, path) in Unvisited(neighbors, visited, key, path)
    decreases |neighbors|
  {
    if neighbors != [] {
      var front := neighbors[..|neighbors| - 1];
      assert neighbors == front + [neighbors[|neighbors| - 1]];
      UnvisitedEntries(front, visited, key, path);
    }
  }

  /** Before the first pop: the heap holds `(0, start, [])` and nothing is expanded. */
  lemma InitialInvariant(grid: seq<seq<int>>, s: Coord, t: Coord)
    requires WellFormed(grid)
    ensures UcsInv(grid, s, t, {}, [], [HeapEntry(0, s, [])], map[])
  {
  }

  /**
    The loop invariant: expansion bookkeeping; every heap entry is well-formed and keyed by
    the number of steps of the path it stores; every unexpanded neighbour of an expanded
    cell `v` is pending at a key of at most `dist[v] + 1`; and `dist[v]`, the cost `v` was
    expanded at, is no more than the steps of any walk to `v`.
  */
  ghost predicate UcsInv(grid: seq<seq<int>>, s: Coord, t: Coord, visited: set<Coord>, expanded: seq<Coord>,
                         heap: seq<HeapEntry>, dist: map<Coord, int>)
    requires WellFormed(grid)
  {
    Explored(s, visited, expanded) && t !in visited &&
    (visited == {} ==> heap == [HeapEntry(0, s, [])]) &&
    HeapEntriesOk(grid, s, visited, heap) &&
    KeyIsLength(heap) &&
    dist.Keys == visited &&
    PendingAround(grid, visited, heap, dist) &&
    Shortest(grid, s, visited, dist)
  }

  /** Every entry's key is the number of cells of its stored path, which is the steps to its cell. */
  ghost predicate KeyIsLength(heap: seq<HeapEntry>)
  {
    forall e :: e in heap ==> e.key == |e.path|
  }

  /** Every unexpanded neighbour `n` of an expanded cell `v` is pending at a key of at most `dist[v] + 1`. */
  ghost predicate PendingAround(grid: seq<seq<int>>, visited: set<Coord>, heap: seq<HeapEntry>, dist: map<Coord, int>)
    requires WellFormed(grid) && visited <= dist.Keys
  {
    forall v, n :: v in visited && Adjacent(grid, v, n) ==> n in visited || Pending(heap, n, dist[v] + 1)
  }

  /** Dropping a popped entry whose cell is already expanded keeps the invariant. */
  lemma DiscardVisited(grid: seq<seq<int>>, s: Coord, t: Coord, visited: set<Coord>, expanded: seq<Coord>,
                       heap: seq<HeapEntry>, top: HeapEntry, rest: seq<HeapEntry>, dist: map<Coord, int>)
    requires WellFormed(grid) && UcsInv(grid, s, t, visited, expanded, heap, dist)
    requires Popped(heap, top, rest) && top.cell in visited
    ensures UcsInv(grid, s, t, visited, expanded, rest, dist)
  {
    forall v, n | v in visited && Adjacent(grid, v, n) && n !in visited
      ensures Pending(rest, n, dist[v] + 1)
    {
      PendingAfterPop(heap, top, rest, n, dist[v] + 1);
    }
  }

  /**
    The least entry of an unexpanded cell carries a simple walk from `s` whose number of
    steps is its key and is no more than that of any other walk to that cell.
  */
  lemma FirstExpansion(grid: seq<seq<int>>, s: Coord, t: Coord, visited: set<Coord>, expanded: seq<Coord>,
                       heap: seq<HeapEntry>, top: HeapEntry, rest: seq<HeapEntry>, dist: map<Coord, int>)
    requires WellFormed(grid) && UcsInv(grid, s, t, visited, expanded, heap, dist)
    requires Popped(heap, top, rest) && top.cell !in visited
    ensures top.cell == s || InBounds(top.cell)
    ensures TrailOk(grid, s, visited + {top.cell}, top.path + [top.cell])
    ensures Explored(s, visited + {top.cell}, expanded + [top.cell])
    ensures top.key == |top.path|
    ensures forall w :: WalkFromTo(grid, w, s, top.cell) ==> top.key <= |w| - 1
    ensures top.cell == s ==> top == HeapEntry(0, s, [])
  {
    assert EntryOk(grid, s, visited, top.cell, top.path);
    forall v, n | v in visited && n !in visited && Adjacent(grid, v, n) ensures top.key <= dist[v] + 1 {
      LeastKey(heap, top, n, dist[v] + 1);
    }
    forall w | WalkFromTo(grid, w, s, top.cell) ensures top.key <= |w| - 1 {
      if visited != {} {
        ShortestByFirstExit(grid, s, visited, dist, top.key, w);
      }
    }
    ExtendTrail(grid, s, visited, top.cell, top.path);
    ExploreOne(s, visited, expanded, top.cell);
  }

  /** Expanding the popped cell and pushing its unvisited neighbours keeps the invariant. */
  lemma ExpandKeepsInvariant(grid: seq<seq<int>>, s: Coord, t: Coord, visited: set<Coord>, expanded: seq<Coord>,
                             heap: seq<HeapEntry>, top: HeapEntry, rest: seq<HeapEntry>, dist: map<Coord, int>,
                             ns: seq<Coord>, heap': seq<HeapEntry>)
    requires WellFormed(grid) && UcsInv(grid, s, t, visited, expanded, heap, dist)
    requires Popped(heap, top, rest) && top.cell !in visited && top.cell != t
    requires forall n :: n in ns <==> Adjacent(grid, top.cell, n)
    requires heap' == rest + Unvisited(ns, visited + {top.cell}, top.key + 1, top.path + [top.cell])
    ensures UcsInv(grid, s, t, visited + {top.cell}, expanded + [top.cell], heap', dist[top.cell := top.key])
  {
    var cell, path := top.cell, top.path + [top.cell];
    var added := Unvisited(ns, visited + {cell}, top.key + 1, path);
    FirstExpansion(grid, s, t, visited, expanded, heap, top, rest, dist);
    UnvisitedEntries(ns, visited + {cell}, top.key + 1, path);
    EntriesAfterExpand(grid, s, visited, heap, top, rest, ns, added);
    PendingAfterExpand(grid, visited, heap, top, rest, dist, ns, added);
    ShortestAfterRecord(grid, s, visited, dist, cell, top.key);
    RecordKeys(dist, visited, cell, top.key);
  }

  /** Entries left in the heap and entries pushed stay well-formed and keyed by their length. */
  lemma EntriesAfterExpand(grid: seq<seq<int>>, s: Coord, visited: set<Coord>,
                           heap: seq<HeapEntry>, top: HeapEntry, rest: seq<HeapEntry>,
                           ns: seq<Coord>, added: seq<HeapEntry>)
    requires WellFormed(grid) && Popped(heap, top, rest)
    requires HeapEntriesOk(grid, s, visited, heap) && KeyIsLength(heap)
    requires TrailOk(grid, s, visited + {top.cell}, top.path + [top.cell])
    requires forall n :: n in ns ==> Adjacent(grid, top.cell, n)
    requires added == Unvisited(ns, visited + {top.cell}, top.key + 1, top.path + [top.cell])
    ensures HeapEntriesOk(grid, s, visited + {top.cell}, rest + added)
    ensures KeyIsLength(rest + added)
  {
    var path := top.path + [top.cell];
    UnvisitedEntries(ns, visited + {top.cell}, top.key + 1, path);
    forall e: HeapEntry | e in rest + added
      ensures EntryOk(grid, s, visited + {top.cell}, e.cell, e.path) && e.key == |e.path|
    {
      if e in rest {
        EntryOkGrows(grid, s, visited, visited + {top.cell}, e.cell, e.path);
      } else {
        assert e.path == path && path[|path| - 1] == top.cell;
      }
    }
  }

  /** Every unexpanded neighbour of an expanded cell stays pending within its bound. */
  lemma PendingAfterExpand(grid: seq<seq<int>>, visited: set<Coord>, heap: seq<HeapEntry>, top: HeapEntry,
                           rest: seq<HeapEntry>, dist: map<Coord, int>, ns: seq<Coord>, added: seq<HeapEntry>)
    requires WellFormed(grid) && Popped(heap, top, rest) && visited <= dist.Keys
    requires PendingAround(grid, visited, heap, dist)
    requires forall n :: Adjacent(grid, top.cell, n) ==> n in ns
    requires added == Unvisited(ns, visited + {top.cell}, top.key + 1, top.path + [top.cell])
    ensures PendingAround(grid, visited + {top.cell}, rest + added, dist[top.cell := top.key])
  {
    var cell, path := top.cell, top.path + [top.cell];
    var visited', dist' := visited + {cell}, dist[cell := top.key];
    UnvisitedEntries(ns, visited', top.key + 1, path);
    forall v, n | v in visited' && Adjacent(grid, v, n) && n !in visited'
      ensures Pending(rest + added, n, dist'[v] + 1)
    {
      if v == cell {
        var e := HeapEntry(top.key + 1, n, path);
        assert e in added;
        assert e in rest + added;
      } else {
        PendingAfterPop(heap, top, rest, n, dist[v] + 1);
        var d :| d in rest && d.cell == n && d.key <= dist[v] + 1;
        assert d in rest + added;
      }
    }
  }

  /** Expanding `t` reports a shortest simple path from `s` to `t` and its number of steps. */
  lemma GoalReached(grid: seq<seq<int>>, s: Coord, t: Coord, visited: set<Coord>, expanded: seq<Coord>,
                    heap: seq<HeapEntry>, top: HeapEntry, rest: seq<HeapEntry>, dist: map<Coord, int>)
    requires WellFormed(grid) && UcsInv(grid, s, t, visited, expanded, heap, dist)
    requires Popped(heap, top, rest) && top.cell == t
    ensures
      var path, expanded' := top.path + [t], expanded + [t];
      && SimplePath(grid, path, s, t)
      && top.key == |path| - 1
      && (forall w :: WalkFromTo(grid, w, s, t) ==> top.key <= |w| - 1)
      && Reachable(grid, s, t)
      && (s == t ==> path == [s] && top.key == 0)
      && Distinct(expanded')
      && (forall x :: x in expanded' ==> x == s || InBounds(x))
      && expanded'[|expanded'| - 1] == t
      && expanded'[0] == s
      && (forall x :: x in path ==> x in expanded')
  {
    FirstExpansion(grid, s, t, visited, expanded, heap, top, rest, dist);
    assert WalkFromTo(grid, top.path + [t], s, t);
  }

  /** With the heap empty, the expanded cells are closed under steps and hold no path to `t`. */
  lemma EmptyHeapClosed(grid: seq<seq<int>>, s: Coord, t: Coord, visited: set<Coord>, expanded: seq<Coord>,
                        dist: map<Coord, int>)
    requires WellFormed(grid) && UcsInv(grid, s, t, visited, expanded, [], dist)
    ensures s != t && t !in expanded && !Reachable(grid, s, t)
    ensures forall x, n :: x in expanded && Adjacent(grid, x, n) ==> n in expanded
    ensures Distinct(expanded) && forall x :: x in expanded ==> x == s || InBounds(x)
    ensures expanded != [] && expanded[0] == s
  {
    ReachableStaysInside(grid, visited, s, t);
  }
}
