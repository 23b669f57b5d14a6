/**
  A* search with the Manhattan heuristic: a priority queue of `(f, cell, path)` entries
  where `f = g + heuristic`, a map of the best known step count `g` to every cell seen,
  and a map of the heuristic value of every cell seen.
*/
module AStar {
  import opened Coords
  import opened Grid
  import opened Walks
  import opened Outcomes
  import opened Frontier

  /** The heap and the two cost maps that the neighbour loop updates together. */
  datatype Costs = Costs(open: seq<HeapEntry>, g: map<Coord, int>, h: map<Coord, int>)

  /** `h` holds, for exactly the cells `g` holds, their heuristic to `goal`. */
  ghost predicate HeuristicCached(g: map<Coord, int>, h: map<Coord, int>, goal: Coord)
  {
    h.Keys == g.Keys && forall n :: n in h ==> h[n] == Heuristic(n, goal)
  }

  /**
    One turn of the neighbour loop for the neighbour `n` of `cell`: when `n` is unseen or
    reached in fewer steps through `cell`, record the new step count and heuristic and
    push `n` keyed by their sum; otherwise leave everything as it is.
  */
  function Improve(cell: Coord, n: Coord, goal: Coord, path: seq<Coord>, c: Costs): (r: Costs)
    requires cell in c.g
    ensures n in r.g && r.g[n] <= c.g[cell] + 1
    ensures cell in r.g && r.g[cell] == c.g[cell]
  {
    var tentative := c.g[cell] + 1;
    var hValue := Heuristic(n, goal);
    if n !in c.g || tentative < c.g[n] then
      Costs(c.open + [HeapEntry(tentative + hValue, n, path)], c.g[n := tentative], c.h[n := hValue])
    else
      c
  }

  /**
    `Improve` records `n` and no other new cell, never raises a count, changes no count but
    that of `n`, and keeps the heuristic map in step with the step-count map.
  */
  lemma ImproveKeeps(cell: Coord, n: Coord, goal: Coord, path: seq<Coord>, c: Costs)
    requires cell in c.g
    ensures var r := Improve(cell, n, goal, path, c);
      && (forall m :: m in r.g <==> m in c.g || m == n)
      && (forall m :: m in c.g ==> r.g[m] <= c.g[m])
      && (forall m :: m in c.g && m != n ==> r.g[m] == c.g[m])
      && (HeuristicCached(c.g, c.h, goal) ==> HeuristicCached(r.g, r.h, goal))
  {
  }

  /** The condition under which the neighbour loop records `n` anew. */
  predicate Improves(cell: Coord, n: Coord, c: Costs)
    requires cell in c.g
  {
    n !in c.g || c.g[cell] + 1 < c.g[n]
  }

  /** The two outcomes of `Improve`, spelled out. */
  lemma ImproveCases(cell: Coord, n: Coord, goal: Coord, path: seq<Coord>, c: Costs)
    requires cell in c.g
    ensures var r := Improve(cell, n, goal, path, c);
      if Improves(cell, n, c) then
        r.g == c.g[n := c.g[cell] + 1] && r.h == c.h[n := Heuristic(n, goal)] &&
        r.open == c.open + [HeapEntry(c.g[cell] + 1 + Heuristic(n, goal), n, path)]
      else r == c
  {
  }

  /** The whole neighbour loop over `ns`, one `Improve` per neighbour in order. */
  function RelaxAll(cell: Coord, ns: seq<Coord>, goal: Coord, path: seq<Coord>, c: Costs): (r: Costs)
    requires cell in c.g
    ensures cell in r.g && r.g[cell] == c.g[cell]
    decreases |ns|
  {
    if ns == [] then c
    else
      var front := ns[..|ns| - 1];
      assert ns == front + [ns[|ns| - 1]];
      Improve(cell, ns[|ns| - 1], goal, path, RelaxAll(cell, front, goal, path, c))
  }

  /**
    With `k` one more than the step count of `cell`: no count of `c` is raised in `r`, every
    cell of `ns` is recorded at most `k`, and every count that is already at most `k` or
    belongs to a cell outside `ns` is kept.
  */
  ghost predicate Lowered(cell: Coord, ns: seq<Coord>, c: Costs, r: Costs)
  {
    cell in c.g &&
    (forall n :: n in c.g ==> n in r.g && r.g[n] <= c.g[n]) &&
    (forall n :: n in ns ==> n in r.g && r.g[n] <= c.g[cell] + 1) &&
    (forall n :: n in c.g && (n !in ns || c.g[n] <= c.g[cell] + 1) ==> r.g[n] == c.g[n])
  }

  /**
    Every entry of `c` is still in `r`, and every other entry of `r` is for a cell of `ns`,
    stores `path`, and is keyed one more than the count of `cell` plus the cell's heuristic.
  */
  ghost predicate PushedOnly(cell: Coord, ns: seq<Coord>, goal: Coord, path: seq<Coord>, c: Costs, r: Costs)
  {
    cell in c.g &&
    (forall e :: e in c.open ==> e in r.open) &&
    (forall e :: e in r.open ==>
       e in c.open || (e.path == path && e.cell in ns && e.key == c.g[cell] + 1 + Heuristic(e.cell, goal)))
  }

  /**
    Every count of `r` that is new or differs from `c` is one more than the count of `cell`,
    and `r` holds an entry for that cell storing `path`, keyed that count plus its heuristic.
  */
  ghost predicate Recorded(cell: Coord, goal: Coord, path: seq<Coord>, c: Costs, r: Costs)
  {
    cell in c.g &&
    forall n :: n in r.g && (n !in c.g || r.g[n] != c.g[n]) ==>
      r.g[n] == c.g[cell] + 1 && HeapEntry(c.g[cell] + 1 + Heuristic(n, goal), n, path) in r.open
  }

  /** Relaxing never raises a count, brings every neighbour to at most `k`, and keeps the counts it need not touch. */
  lemma {:induction false} RelaxLowers(cell: Coord, ns: seq<Coord>, goal: Coord, path: seq<Coord>, c: Costs)
    requires cell in c.g
    ensures Lowered(cell, ns, c, RelaxAll(cell, ns, goal, path, c))
    decreases |ns|
  {
    if ns != [] {
      var front := ns[..|ns| - 1];
      var last := ns[|ns| - 1];
      assert ns == front + [last];
      RelaxLowers(cell, front, goal, path, c);
      var mid := RelaxAll(cell, front, goal, path, c);
      assert forall n :: n in ns ==> n in front || n == last;
    }
  }

  /** Relaxing keeps every entry already in the heap and pushes only entries for neighbours keyed `k` plus heuristic. */
  lemma {:induction false} RelaxPushes(cell: Coord, ns: seq<Coord>, goal: Coord, path: seq<Coord>, c: Costs)
    requires cell in c.g
    ensures PushedOnly(cell, ns, goal, path, c, RelaxAll(cell, ns, goal, path, c))
    decreases |ns|
  {
    if ns != [] {
      var front := ns[..|ns| - 1];
      var last := ns[|ns| - 1];
      assert ns == front + [last];
      RelaxPushes(cell, front, goal, path, c);
      var mid := RelaxAll(cell, front, goal, path, c);
      assert forall n :: n in front ==> n in ns;
    }
  }

  /** Every count that relaxing changes becomes `k`, with an entry pushed at `k` plus the cell's heuristic. */
  lemma {:induction false} RelaxRecords(cell: Coord, ns: seq<Coord>, goal: Coord, path: seq<Coord>, c: Costs)
    requires cell in c.g
    ensures Recorded(cell, goal, path, c, RelaxAll(cell, ns, goal, path, c))
    decreases |ns|
  {
    if ns != [] {
      var front := ns[..|ns| - 1];
      RelaxRecords(cell, front, goal, path, c);
      ImproveRecords(cell, ns[|ns| - 1], goal, path, c, RelaxAll(cell, front, goal, path, c));
    }
  }

  /** One more turn of the neighbour loop keeps every changed count recorded with its entry. */
  lemma ImproveRecords(cell: Coord, last: Coord, goal: Coord, path: seq<Coord>, c: Costs, mid: Costs)
    requires cell in c.g && cell in mid.g && mid.g[cell] == c.g[cell]
    requires Recorded(cell, goal, path, c, mid)
    ensures Recorded(cell, goal, path, c, Improve(cell, last, goal, path, mid))
  {
    var r := Improve(cell, last, goal, path, mid);
    ImproveCases(cell, last, goal, path, mid);
    var k := c.g[cell] + 1;
    forall n | n in r.g && (n !in c.g || r.g[n] != c.g[n])
      ensures r.g[n] == k && HeapEntry(k + Heuristic(n, goal), n, path) in r.open
    {
      var e := HeapEntry(k + Heuristic(n, goal), n, path);
      if !Improves(cell, last, mid) {
        assert r == mid;
        assert n in mid.g && (n !in c.g || mid.g[n] != c.g[n]);
      } else if n == last {
        assert r.open == mid.open + [e];
        assert r.open[|r.open| - 1] == e;
      } else {
        assert n in mid.g && r.g[n] == mid.g[n];
        assert mid.g[n] == k && e in mid.open;
        var x := HeapEntry(k + Heuristic(last, goal), last, path);
        assert r.open == mid.open + [x];
        assert e in mid.open + [x];
      }
    }
  }

  /** Relaxing keeps the heuristic map in step with the step-count map. */
  lemma {:induction false} RelaxCaches(cell: Coord, ns: seq<Coord>, goal: Coord, path: seq<Coord>, c: Costs)
    requires cell in c.g && HeuristicCached(c.g, c.h, goal)
    ensures var r := RelaxAll(cell, ns, goal, path, c); HeuristicCached(r.g, r.h, goal)
    decreases |ns|
  {
    if ns != [] {
      RelaxCaches(cell, ns[..|ns| - 1], goal, path, c);
    }
  }

  /**
    Relaxing one more neighbour `n`, once `ns[..i]` gave `Costs(open, g, h)`: when `n` is unseen
    or reached in fewer steps through `cell`, `n` is recorded and pushed; otherwise nothing changes.
  */
  lemma RelaxStep(cell: Coord, ns: seq<Coord>, goal: Coord, path: seq<Coord>, c: Costs, i: nat,
                  open: seq<HeapEntry>, g: map<Coord, int>, h: map<Coord, int>)
    requires cell in c.g && i < |ns|
    requires Costs(open, g, h) == RelaxAll(cell, ns[..i], goal, path, c)
    ensures cell in g
    ensures var n, k := ns[i], g[cell] + 1;
      RelaxAll(cell, ns[..i + 1], goal, path, c) ==
        if n !in g || k < g[n] then Costs(open + [HeapEntry(k + Heuristic(n, goal), n, path)], g[n := k], h[n := Heuristic(n, goal)])
        else Costs(open, g, h)
  {
    assert ns[..i + 1][..i] == ns[..i];
  }

  /**
    The neighbour loop of `a_star_search`: for each neighbour, the tentative step count
    through `cell`, its heuristic, and the conditional update and push.
  */
  method Relax(openSet: seq<HeapEntry>, gCost: map<Coord, int>, hCost: map<Coord, int>,
               cell: Coord, neighbors: seq<Coord>, goal: Coord, path: seq<Coord>)
    returns (openSet': seq<HeapEntry>, gCost': map<Coord, int>, hCost': map<Coord, int>)
    requires cell in gCost
    ensures Costs(openSet', gCost', hCost') == RelaxAll(cell, neighbors, goal, path, Costs(openSet, gCost, hCost))
  {
    openSet', gCost', hCost' := openSet, gCost, hCost;
    var i := 0;
    while i < |neighbors|
      invariant 0 <= i <= |neighbors|
      invariant Costs(openSet', gCost', hCost') == RelaxAll(cell, neighbors[..i], goal, path, Costs(openSet, gCost, hCost))
    {
      RelaxStep(cell, neighbors, goal, path, Costs(openSet, gCost, hCost), i, openSet', gCost', hCost');
      var n := neighbors[i];
      var tentativeGCost := gCost'[cell] + 1;
      var hValue := Heuristic(n, goal);
      var fCost := tentativeGCost + hValue;
      if n !in gCost' || tentativeGCost < gCost'[n] {
        gCost' := gCost'[n := tentativeGCost];
        hCost' := hCost'[n := hValue];
        openSet' := openSet' + [HeapEntry(fCost, n, path)];
      }
      i := i + 1;
    }
    assert neighbors[..i] == neighbors;
  }

  /**
    `a_star_search`. Reports the step count of the path found and the sum of the heuristic
    values of its cells; the path it would draw is returned in the outcome. `expanded`
    lists the cells in the order they were expanded.
  */
  method AStarSearch(grid: seq<seq<int>>, start: Option<Coord>, goal: Option<Coord>)
    returns (result: Outcome, ghost expanded: seq<Coord>)
    requires WellFormed(grid)
    ensures result.Unset? <==> start.None? || goal.None?
    ensures result.Unset? ==> expanded == []
    ensures start.Some? && goal.Some? ==> Answers(grid, start.value, goal.value, result, expanded)
    ensures result.GoalFound? ==> result.cost == |result.path| - 1
    ensures result.GoalFound? ==>
      forall w :: WalkFromTo(grid, w, start.value, goal.value) ==> result.cost <= |w| - 1
    ensures result.GoalFound? ==> result.heuristic == HeuristicTotal(result.path, goal.value)
  {
    if start.None? || goal.None? {
      return Unset, [];
    }
    var s, t := start.value, goal.value;
    var openSet: seq<HeapEntry> := [HeapEntry(0, s, [])];
    var gCost: map<Coord, int> := map[s := 0];
    var hCost: map<Coord, int> := map[s := Heuristic(s, t)];
    var visited: set<Coord> := {};
    expanded := [];
    InitialInvariant(grid, s, t);
    while openSet != []
      invariant AStarInv(grid, s, t, visited, expanded, openSet, gCost, hCost)
      decreases AllCells() + {s} - visited, |openSet|
    {
      ghost var before := openSet;
      var top, rest := HeapPop(openSet);
      assert Popped(before, top, rest);
      openSet := rest;
      if top.cell in visited {
        DiscardVisited(grid, s, t, visited, expanded, before, top, rest, gCost, hCost);
        continue;
      }
      assert (top.cell == s || InBounds(top.cell)) && top.cell in gCost by {
        FirstExpansion(grid, s, t, visited, expanded, before, top, rest, gCost, hCost);
      }
      ghost var old_visited, old_expanded := visited, expanded;
      var x, y := top.cell.row, top.cell.col;
      visited := visited + {top.cell};
      expanded := expanded + [top.cell];
      var path := top.path + [top.cell];
      if top.cell == t {
        assert forall x :: x in path ==> x in hCost by {
          GoalReached(grid, s, t, old_visited, old_expanded, before, top, rest, gCost, hCost);
        }
        var totalPathCost := gCost[top.cell];
        var totalHeuristicCost := SumHeuristic(path, hCost);
        assert Answers(grid, s, t, GoalFound(path, totalPathCost, totalHeuristicCost), expanded) &&
               totalPathCost == |path| - 1 &&
               (forall w :: WalkFromTo(grid, w, s, t) ==> totalPathCost <= |w| - 1) &&
               totalHeuristicCost == HeuristicTotal(path, t) by {
          GoalReached(grid, s, t, old_visited, old_expanded, before, top, rest, gCost, hCost);
          CachedTotalIsHeuristicTotal(path, hCost, t);
          FoundAnswers(grid, s, t, path, totalPathCost, totalHeuristicCost, expanded);
        }
        return GoalFound(path, totalPathCost, totalHeuristicCost), expanded;
      }
      var neighbors := GetNeighbors(grid, x, y);
      ghost var old_g, old_h := gCost, hCost;
      openSet, gCost, hCost := Relax(openSet, gCost, hCost, top.cell, neighbors, t, path);
      ExpandKeepsInvariant(grid, s, t, old_visited, old_expanded, before, top, rest, old_g, old_h, neighbors,
                           openSet, gCost, hCost);
    }
    assert Answers(grid, s, t, GoalNotFound, expanded) by {
      EmptyHeapClosed(grid, s, t, visited, expanded, gCost, hCost);
      NotFoundAnswers(grid, s, t, expanded);
    }
    return GoalNotFound, expanded;
  }

  /** Before the first pop: the heap holds `(0, start, [])` and only `start` is recorded. */
  lemma InitialInvariant(grid: seq<seq<int>>, s: Coord, t: Coord)
    requires WellFormed(grid)
    ensures AStarInv(grid, s, t, {}, [], [HeapEntry(0, s, [])], map[s := 0], map[s := Heuristic(s, t)])
  {
  }

  /**
    The loop invariant. Expansion bookkeeping; until the first pop the heap holds only the
    initial entry `(0, start, [])`; `start` is recorded at 0 steps; the heuristic map is in
    step with the step-count map; every expanded cell is recorded; every heap entry is
    well-formed and, after the first pop, keyed by its path's step count plus its cell's
    heuristic, with its cell recorded at no more steps; every neighbour of an expanded cell
    `v` is recorded at most one step beyond `v`; every recorded, unexpanded cell is pending
    at its recorded count plus heuristic; and the count of every expanded cell is no more
    than the steps of any walk to it.
  */
  ghost predicate AStarInv(grid: seq<seq<int>>, s: Coord, t: Coord, visited: set<Coord>, expanded: seq<Coord>,
                           open: seq<HeapEntry>, g: map<Coord, int>, h: map<Coord, int>)
    requires WellFormed(grid)
  {
    Explored(s, visited, expanded) && t !in visited &&
    (visited == {} ==> open == [HeapEntry(0, s, [])]) &&
    s in g && g[s] == 0 &&
    HeuristicCached(g, h, t) &&
    visited <= g.Keys &&
    HeapEntriesOk(grid, s, visited, open) &&
    (visited != {} ==> Keyed(open, g, t)) &&
    Relaxed(grid, visited, g) &&
    PendingCosts(visited, open, g, t) &&
    Shortest(grid, s, visited, g)
  }

  /** Every entry stores a path, is keyed by its step count plus heuristic, and its cell is recorded at no more steps. */
  ghost predicate Keyed(open: seq<HeapEntry>, g: map<Coord, int>, t: Coord)
  {
    forall e :: e in open ==>
      e.path != [] && e.key == |e.path| + Heuristic(e.cell, t) && e.cell in g && g[e.cell] <= |e.path|
  }

  /** Every neighbour `n` of an expanded cell `v` is recorded at no more than one step beyond `v`. */
  ghost predicate Relaxed(grid: seq<seq<int>>, visited: set<Coord>, g: map<Coord, int>)
    requires WellFormed(grid) && visited <= g.Keys
  {
    forall v, n :: v in visited && Adjacent(grid, v, n) ==> n in g && g[n] <= g[v] + 1
  }

  /** Every recorded, unexpanded cell has an entry keyed at most its recorded count plus its heuristic. */
  ghost predicate PendingCosts(visited: set<Coord>, open: seq<HeapEntry>, g: map<Coord, int>, t: Coord)
  {
    forall n :: n in g && n !in visited ==> Pending(open, n, g[n] + Heuristic(n, t))
  }

  /**
    The first-exit argument for A*: a walk from `start` to an unexpanded cell `c` leaves the
    expanded cells at some step onto a cell `u` pending at a key of at most the steps to `u`
    plus its heuristic; as the heuristic drops by at most one per step, the least key is at
    most the steps of the walk plus the heuristic of `c`.
  */
  lemma ShortestByLeastKey(grid: seq<seq<int>>, s: Coord, t: Coord, visited: set<Coord>, g: map<Coord, int>,
                           open: seq<HeapEntry>, top: HeapEntry, w: seq<Coord>)
    requires WellFormed(grid) && s in visited && visited <= g.Keys
    requires Relaxed(grid, visited, g) && PendingCosts(visited, open, g, t) && Shortest(grid, s, visited, g)
    requires forall e :: e in open ==> !EntryLess(e, top)
    requires |w| > 0 && w[0] == s && IsWalk(grid, w) && w[|w| - 1] !in visited
    ensures top.key <= |w| - 1 + Heuristic(w[|w| - 1], t)
  {
    var i := FirstExit(visited, w);
    PrefixIsWalk(grid, w, s, i - 1);
    assert Adjacent(grid, w[i - 1], w[i]);
    LeastKey(open, top, w[i], g[w[i]] + Heuristic(w[i], t));
    SuffixIsWalk(grid, w, i);
    HeuristicAlongWalk(grid, w[i..], t);
  }

  /** Dropping a popped entry whose cell is already expanded keeps the invariant. */
  lemma DiscardVisited(grid: seq<seq<int>>, s: Coord, t: Coord, visited: set<Coord>, expanded: seq<Coord>,
                       open: seq<HeapEntry>, top: HeapEntry, rest: seq<HeapEntry>, g: map<Coord, int>, h: map<Coord, int>)
    requires WellFormed(grid) && AStarInv(grid, s, t, visited, expanded, open, g, h)
    requires Popped(open, top, rest) && top.cell in visited
    ensures AStarInv(grid, s, t, visited, expanded, rest, g, h)
  {
    forall n | n in g && n !in visited ensures Pending(rest, n, g[n] + Heuristic(n, t)) {
      PendingAfterPop(open, top, rest, n, g[n] + Heuristic(n, t));
    }
  }

  /**
    The least entry of an unexpanded cell carries a simple walk from `s` whose step count is
    the cell's recorded count and is no more than that of any walk to the cell.
  */
  lemma FirstExpansion(grid: seq<seq<int>>, s: Coord, t: Coord, visited: set<Coord>, expanded: seq<Coord>,
                       open: seq<HeapEntry>, top: HeapEntry, rest: seq<HeapEntry>, g: map<Coord, int>, h: map<Coord, int>)
    requires WellFormed(grid) && AStarInv(grid, s, t, visited, expanded, open, g, h)
    requires Popped(open, top, rest) && top.cell !in visited
    ensures top.cell == s || InBounds(top.cell)
    ensures TrailOk(grid, s, visited + {top.cell}, top.path + [top.cell])
    ensures Explored(s, visited + {top.cell}, expanded + [top.cell])
    ensures top.cell in g && g[top.cell] == |top.path|
    ensures forall w :: WalkFromTo(grid, w, s, top.cell) ==> |top.path| <= |w| - 1
    ensures top.cell == s ==> top.path == []
    ensures visited == {} ==> rest == []
  {
    assert EntryOk(grid, s, visited, top.cell, top.path);
    if visited != {} {
      LeastKey(open, top, top.cell, g[top.cell] + Heuristic(top.cell, t));
      forall w | WalkFromTo(grid, w, s, top.cell) ensures |top.path| <= |w| - 1 {
        ShortestByLeastKey(grid, s, t, visited, g, open, top, w);
      }
    }
    ExtendTrail(grid, s, visited, top.cell, top.path);
    ExploreOne(s, visited, expanded, top.cell);
  }

  /** Expanding the popped cell and relaxing its neighbours keeps the invariant. */
  lemma ExpandKeepsInvariant(grid: seq<seq<int>>, s: Coord, t: Coord, visited: set<Coord>, expanded: seq<Coord>,
                             open: seq<HeapEntry>, top: HeapEntry, rest: seq<HeapEntry>,
                             g: map<Coord, int>, h: map<Coord, int>, ns: seq<Coord>,
                             open': seq<HeapEntry>, g': map<Coord, int>, h': map<Coord, int>)
    requires WellFormed(grid) && AStarInv(grid, s, t, visited, expanded, open, g, h)
    requires Popped(open, top, rest) && top.cell !in visited && top.cell != t
    requires forall n :: n in ns <==> Adjacent(grid, top.cell, n)
    requires top.cell in g && Costs(open', g', h') == RelaxAll(top.cell, ns, t, top.path + [top.cell], Costs(rest, g, h))
    ensures AStarInv(grid, s, t, visited + {top.cell}, expanded + [top.cell], open', g', h')
  {
    var cell, path := top.cell, top.path + [top.cell];
    var c := Costs(rest, g, h);
    FirstExpansion(grid, s, t, visited, expanded, open, top, rest, g, h);
    ExpandCounts(grid, s, t, visited, expanded, open, top, rest, g, h, ns);
    ExpandEntries(grid, s, t, visited, expanded, open, top, rest, g, h, ns);
    RelaxCaches(cell, ns, t, path, c);
  }

  /** Expanding the popped cell keeps the counts of the expanded cells, which stay shortest, and relaxes its neighbours. */
  lemma ExpandCounts(grid: seq<seq<int>>, s: Coord, t: Coord, visited: set<Coord>, expanded: seq<Coord>,
                     open: seq<HeapEntry>, top: HeapEntry, rest: seq<HeapEntry>,
                     g: map<Coord, int>, h: map<Coord, int>, ns: seq<Coord>)
    requires WellFormed(grid) && AStarInv(grid, s, t, visited, expanded, open, g, h)
    requires Popped(open, top, rest) && top.cell !in visited
    requires forall n :: n in ns <==> Adjacent(grid, top.cell, n)
    ensures
      var cell, path := top.cell, top.path + [top.cell];
      var r := RelaxAll(cell, ns, t, path, Costs(rest, g, h));
      && KeptOn(visited + {cell}, g, r.g)
      && visited + {cell} <= r.g.Keys
      && visited + {cell} != {}
      && s in r.g && r.g[s] == 0
      && Relaxed(grid, visited + {cell}, r.g)
      && Shortest(grid, s, visited + {cell}, r.g)
  {
    var cell, path := top.cell, top.path + [top.cell];
    var c := Costs(rest, g, h);
    var r := RelaxAll(cell, ns, t, path, c);
    FirstExpansion(grid, s, t, visited, expanded, open, top, rest, g, h);
    RelaxLowers(cell, ns, t, path, c);
    ExpandedCountsKept(grid, s, visited, cell, path, ns, c, r);
    KeptKeys(visited + {cell}, g, r.g);
    assert cell in visited + {cell};
    assert s in visited + {cell} by {
      if visited == {} {
        assert open == [HeapEntry(0, s, [])] && top in open;
      }
    }
    RelaxedAfterExpand(grid, visited, cell, ns, c, r);
    ShortestAfterExpand(grid, s, visited, cell, c.g, r.g);
  }

  /** Expanding the popped cell keeps every heap entry well-formed and keyed, and every unexpanded count pending. */
  lemma ExpandEntries(grid: seq<seq<int>>, s: Coord, t: Coord, visited: set<Coord>, expanded: seq<Coord>,
                      open: seq<HeapEntry>, top: HeapEntry, rest: seq<HeapEntry>,
                      g: map<Coord, int>, h: map<Coord, int>, ns: seq<Coord>)
    requires WellFormed(grid) && AStarInv(grid, s, t, visited, expanded, open, g, h)
    requires Popped(open, top, rest) && top.cell !in visited
    requires forall n :: n in ns <==> Adjacent(grid, top.cell, n)
    ensures
      var cell, path := top.cell, top.path + [top.cell];
      var r := RelaxAll(cell, ns, t, path, Costs(rest, g, h));
      && HeapEntriesOk(grid, s, visited + {cell}, r.open)
      && Keyed(r.open, r.g, t)
      && PendingCosts(visited + {cell}, r.open, r.g, t)
  {
    var cell, path := top.cell, top.path + [top.cell];
    var c := Costs(rest, g, h);
    var r := RelaxAll(cell, ns, t, path, c);
    FirstExpansion(grid, s, t, visited, expanded, open, top, rest, g, h);
    RelaxLowers(cell, ns, t, path, c);
    RelaxPushes(cell, ns, t, path, c);
    RelaxRecords(cell, ns, t, path, c);
    EntriesAfterExpand(grid, s, t, visited, open, top, ns, c, r);
    PendingAfterExpand(t, visited, open, top, ns, c, r);
  }

  /** `g2` agrees with `g` on every cell of `cells`. */
  ghost predicate KeptOn(cells: set<Coord>, g: map<Coord, int>, g2: map<Coord, int>)
  {
    forall v :: v in cells ==> v in g && v in g2 && g2[v] == g[v]
  }

  lemma KeptKeys(cells: set<Coord>, g: map<Coord, int>, g2: map<Coord, int>)
    requires KeptOn(cells, g, g2)
    ensures cells <= g2.Keys
  {
  }

  /** Relaxing from `cell` changes the count of no expanded cell, nor of `cell` itself. */
  lemma ExpandedCountsKept(grid: seq<seq<int>>, s: Coord, visited: set<Coord>, cell: Coord, path: seq<Coord>,
                           ns: seq<Coord>, c: Costs, r: Costs)
    requires WellFormed(grid) && visited <= c.g.Keys && Shortest(grid, s, visited, c.g)
    requires |path| > 0 && path[0] == s && IsWalk(grid, path) && path[|path| - 1] == cell
    requires cell in c.g && c.g[cell] == |path| - 1
    requires (forall n :: n in ns ==> Adjacent(grid, cell, n)) && Lowered(cell, ns, c, r)
    ensures KeptOn(visited + {cell}, c.g, r.g)
  {
    forall v | v in visited && v in ns ensures c.g[v] <= c.g[cell] + 1 {
      AppendStep(grid, path, v);
      assert WalkFromTo(grid, path + [v], s, v);
    }
  }

  /** Entries left in the heap and entries pushed stay well-formed and correctly keyed. */
  lemma EntriesAfterExpand(grid: seq<seq<int>>, s: Coord, t: Coord, visited: set<Coord>,
                           open: seq<HeapEntry>, top: HeapEntry, ns: seq<Coord>, c: Costs, r: Costs)
    requires WellFormed(grid) && Popped(open, top, c.open)
    requires HeapEntriesOk(grid, s, visited, open) && (visited != {} ==> Keyed(open, c.g, t))
    requires visited == {} ==> c.open == []
    requires TrailOk(grid, s, visited + {top.cell}, top.path + [top.cell])
    requires top.cell in c.g && c.g[top.cell] == |top.path|
    requires (forall n :: n in ns ==> Adjacent(grid, top.cell, n)) && Lowered(top.cell, ns, c, r)
    requires PushedOnly(top.cell, ns, t, top.path + [top.cell], c, r)
    ensures HeapEntriesOk(grid, s, visited + {top.cell}, r.open) && Keyed(r.open, r.g, t)
  {
    var path := top.path + [top.cell];
    forall e | e in r.open
      ensures EntryOk(grid, s, visited + {top.cell}, e.cell, e.path)
      ensures e.path != [] && e.key == |e.path| + Heuristic(e.cell, t) && e.cell in r.g && r.g[e.cell] <= |e.path|
    {
      if e in c.open {
        EntryOkGrows(grid, s, visited, visited + {top.cell}, e.cell, e.path);
      } else {
        assert e.path == path && path[|path| - 1] == top.cell;
      }
    }
  }

  /** Every neighbour of an expanded cell stays recorded at most one step beyond it. */
  lemma RelaxedAfterExpand(grid: seq<seq<int>>, visited: set<Coord>, cell: Coord, ns: seq<Coord>, c: Costs, r: Costs)
    requires WellFormed(grid) && visited <= c.g.Keys && Relaxed(grid, visited, c.g)
    requires (forall n :: Adjacent(grid, cell, n) ==> n in ns) && Lowered(cell, ns, c, r) && KeptOn(visited + {cell}, c.g, r.g)
    ensures Relaxed(grid, visited + {cell}, r.g)
  {
  }

  /** Every recorded, unexpanded cell stays pending at its recorded count plus heuristic. */
  lemma PendingAfterExpand(t: Coord, visited: set<Coord>, open: seq<HeapEntry>, top: HeapEntry, ns: seq<Coord>,
                           c: Costs, r: Costs)
    requires Popped(open, top, c.open) && PendingCosts(visited, open, c.g, t)
    requires PushedOnly(top.cell, ns, t, top.path + [top.cell], c, r)
    requires Recorded(top.cell, t, top.path + [top.cell], c, r)
    ensures PendingCosts(visited + {top.cell}, r.open, r.g, t)
  {
    forall n | n in r.g && n !in visited + {top.cell} ensures Pending(r.open, n, r.g[n] + Heuristic(n, t)) {
      if n in c.g && r.g[n] == c.g[n] {
        PendingAfterPop(open, top, c.open, n, c.g[n] + Heuristic(n, t));
        var d :| d in c.open && d.cell == n && d.key <= c.g[n] + Heuristic(n, t);
        assert d in r.open;
      } else {
        assert HeapEntry(c.g[top.cell] + 1 + Heuristic(n, t), n, top.path + [top.cell]) in r.open;
      }
    }
  }

  /** The counts of the expanded cells, `cell` now among them, stay no more than the steps of any walk. */
  lemma ShortestAfterExpand(grid: seq<seq<int>>, s: Coord, visited: set<Coord>, cell: Coord,
                            g: map<Coord, int>, g2: map<Coord, int>)
    requires WellFormed(grid) && visited <= g.Keys && cell in g && Shortest(grid, s, visited, g)
    requires forall w :: WalkFromTo(grid, w, s, cell) ==> g[cell] <= |w| - 1
    requires KeptOn(visited + {cell}, g, g2)
    ensures Shortest(grid, s, visited + {cell}, g2)
  {
  }

  /** Expanding `t` reports a shortest simple path, its step count, and cached heuristics for its cells. */
  lemma GoalReached(grid: seq<seq<int>>, s: Coord, t: Coord, visited: set<Coord>, expanded: seq<Coord>,
                    open: seq<HeapEntry>, top: HeapEntry, rest: seq<HeapEntry>, g: map<Coord, int>, h: map<Coord, int>)
    requires WellFormed(grid) && AStarInv(grid, s, t, visited, expanded, open, g, h)
    requires Popped(open, top, rest) && top.cell == t
    ensures
      var path, expanded' := top.path + [t], expanded + [t];
      && SimplePath(grid, path, s, t)
      && t in g && g[t] == |path| - 1
      && (forall w :: WalkFromTo(grid, w, s, t) ==> g[t] <= |w| - 1)
      && Reachable(grid, s, t)
      && (s == t ==> path == [s] && HeuristicTotal(path, t) == 0)
      && (forall x :: x in path ==> x in h && h[x] == Heuristic(x, t))
      && Distinct(expanded')
      && (forall x :: x in expanded' ==> x == s || InBounds(x))
      && expanded'[|expanded'| - 1] == t
      && expanded'[0] == s
      && (forall x :: x in path ==> x in expanded')
  {
    FirstExpansion(grid, s, t, visited, expanded, open, top, rest, g, h);
    assert WalkFromTo(grid, top.path + [t], s, t);
    if s == t {
      HeuristicTotalAtGoal(t);
    }
  }

  /** The one-cell path at the goal has heuristic total 0. */
  lemma HeuristicTotalAtGoal(t: Coord)
    ensures HeuristicTotal([t], t) == 0
  {
    assert [t][1..] == [];
  }

  /** With the heap empty, the expanded cells are closed under steps and hold no path to `t`. */
  lemma EmptyHeapClosed(grid: seq<seq<int>>, s: Coord, t: Coord, visited: set<Coord>, expanded: seq<Coord>,
                        g: map<Coord, int>, h: map<Coord, int>)
    requires WellFormed(grid) && AStarInv(grid, s, t, visited, expanded, [], g, h)
    ensures s != t && t !in expanded && !Reachable(grid, s, t)
    ensures forall x, n :: x in expanded && Adjacent(grid, x, n) ==> n in expanded
    ensures Distinct(expanded) && forall x :: x in expanded ==> x == s || InBounds(x)
    ensures expanded != [] && expanded[0] == s
  {
    ReachableStaysInside(grid, visited, s, t);
  }

  /** The sum of the cached heuristic values of the cells of `path`, first to last. */
  function CachedTotal(path: seq<Coord>, h: map<Coord, int>): int
    requires forall x :: x in path ==> x in h
  {
    if path == [] then 0 else h[path[0]] + CachedTotal(path[1..], h)
  }

  /** The sum of the heuristic values of the cells of `path`. */
  function HeuristicTotal(path: seq<Coord>, goal: Coord): nat
  {
    if path == [] then 0 else Heuristic(path[0], goal) + HeuristicTotal(path[1..], goal)
  }

  /** The heuristic total reported on success: the cached heuristic values of the path's cells, added up first to last. */
  method SumHeuristic(path: seq<Coord>, hCost: map<Coord, int>) returns (total: int)
    requires forall x :: x in path ==> x in hCost
    ensures total == CachedTotal(path, hCost)
  {
    total := 0;
    var i := 0;
    while i < |path|
      invariant 0 <= i <= |path|
      invariant total + CachedTotal(path[i..], hCost) == CachedTotal(path, hCost)
    {
      assert path[i..][1..] == path[i + 1..];
      total := total + hCost[path[i]];
      i := i + 1;
    }
  }

  /** When the cache holds the true heuristic of every cell of `path`, the two totals agree. */
  lemma {:induction false} CachedTotalIsHeuristicTotal(path: seq<Coord>, h: map<Coord, int>, goal: Coord)
    requires forall x :: x in path ==> x in h && h[x] == Heuristic(x, goal)
    ensures CachedTotal(path, h) == HeuristicTotal(path, goal)
  {
    if path != [] {
      assert forall x :: x in path[1..] ==> x in path;
      CachedTotalIsHeuristicTotal(path[1..], h, goal);
    }
  }

  /**
    Along a walk that ends at the goal, the heuristic total is at least the heuristic of the
    first cell and at most the sum `0 + 1 + ... + (|w| - 1)`, since a cell `i` steps before
    the goal has heuristic at most `i`.
  */
  lemma {:induction false} HeuristicTotalBounds(grid: seq<seq<int>>, w: seq<Coord>, goal: Coord)
    requires WellFormed(grid) && |w| > 0 && IsWalk(grid, w) && w[|w| - 1] == goal
    ensures Heuristic(w[0], goal) <= HeuristicTotal(w, goal)
    ensures 2 * HeuristicTotal(w, goal) <= |w| * (|w| - 1)
  {
    HeuristicAlongWalk(grid, w, goal);
    if |w| > 1 {
      SuffixIsWalk(grid, w, 1);
      HeuristicTotalBounds(grid, w[1..], goal);
      assert 2 * HeuristicTotal(w[1..], goal) <= (|w| - 1) * (|w| - 2);
      assert (|w| - 1) * (|w| - 2) + 2 * (|w| - 1) == |w| * (|w| - 1);
    }
  }
}
