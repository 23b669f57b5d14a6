/** Walks through the grid, reachability, and the facts about walks the searches rely on. */
module Walks {
  import opened Coords
  import opened Grid

  /** Every consecutive pair of `w` is a step between neighbours. */
  ghost predicate IsWalk(grid: seq<seq<int>>, w: seq<Coord>)
    requires WellFormed(grid)
  {
    forall i :: 0 <= i < |w| - 1 ==> Adjacent(grid, w[i], w[i + 1])
  }

  /** No cell occurs twice in `w`. */
  predicate Distinct(w: seq<Coord>)
  {
    forall i, j :: 0 <= i < j < |w| ==> w[i] != w[j]
  }

  ghost predicate WalkFromTo(grid: seq<seq<int>>, w: seq<Coord>, s: Coord, t: Coord)
    requires WellFormed(grid)
  {
    |w| > 0 && w[0] == s && w[|w| - 1] == t && IsWalk(grid, w)
  }

  /** `t` can be reached from `s` by stepping through non-obstacle cells. */
  ghost predicate Reachable(grid: seq<seq<int>>, s: Coord, t: Coord)
    requires WellFormed(grid)
  {
    exists w :: WalkFromTo(grid, w, s, t)
  }

  /** A path as the searches report it: a walk from `s` to `t` that repeats no cell. */
  ghost predicate SimplePath(grid: seq<seq<int>>, w: seq<Coord>, s: Coord, t: Coord)
    requires WellFormed(grid)
  {
    WalkFromTo(grid, w, s, t) && Distinct(w)
  }

  /** No step leads out of `cells`. */
  ghost predicate ClosedUnderSteps(grid: seq<seq<int>>, cells: set<Coord>)
    requires WellFormed(grid)
  {
    forall v, n :: v in cells && Adjacent(grid, v, n) ==> n in cells
  }

  lemma {:induction false} WalkStaysInside(grid: seq<seq<int>>, cells: set<Coord>, w: seq<Coord>)
    requires WellFormed(grid) && ClosedUnderSteps(grid, cells)
    requires |w| > 0 && w[0] in cells && IsWalk(grid, w)
    ensures forall i :: 0 <= i < |w| ==> w[i] in cells
  {
    if |w| > 1 {
      var front := w[..|w| - 1];
      assert IsWalk(grid, front) by {
        forall i | 0 <= i < |front| - 1 ensures Adjacent(grid, front[i], front[i + 1]) {
          assert front[i] == w[i] && front[i + 1] == w[i + 1];
        }
      }
      WalkStaysInside(grid, cells, front);
      assert w[|w| - 2] == front[|front| - 1];
      assert Adjacent(grid, w[|w| - 2], w[|w| - 1]);
      forall i | 0 <= i < |w| ensures w[i] in cells {
        if i < |w| - 1 {
          assert w[i] == front[i];
        }
      }
    }
  }

  /** Whatever is reachable from a cell of a step-closed set lies in that set. */
  lemma ReachableStaysInside(grid: seq<seq<int>>, cells: set<Coord>, s: Coord, t: Coord)
    requires WellFormed(grid) && ClosedUnderSteps(grid, cells) && s in cells
    ensures Reachable(grid, s, t) ==> t in cells
  {
    if Reachable(grid, s, t) {
      var w :| WalkFromTo(grid, w, s, t);
      WalkStaysInside(grid, cells, w);
      assert w[|w| - 1] in cells;
    }
  }

  /** A walk that starts inside `cells` and ends outside leaves it at some step. */
  lemma FirstExit(cells: set<Coord>, w: seq<Coord>) returns (i: nat)
    requires |w| > 0 && w[0] in cells && w[|w| - 1] !in cells
    ensures 0 < i < |w| && w[i - 1] in cells && w[i] !in cells
  {
    i := 1;
    while w[i] in cells
      invariant 0 < i < |w| && w[i - 1] in cells
      decreases |w| - i
    {
      i := i + 1;
    }
  }

  /** Along a walk the heuristic drops by at most one per step. */
  lemma {:induction false} HeuristicAlongWalk(grid: seq<seq<int>>, w: seq<Coord>, goal: Coord)
    requires WellFormed(grid) && |w| > 0 && IsWalk(grid, w)
    ensures Heuristic(w[0], goal) <= |w| - 1 + Heuristic(w[|w| - 1], goal)
  {
    if |w| > 1 {
      var rest := w[1..];
      assert IsWalk(grid, rest) by {
        forall i | 0 <= i < |rest| - 1 ensures Adjacent(grid, rest[i], rest[i + 1]) {
          assert rest[i] == w[i + 1] && rest[i + 1] == w[i + 2];
        }
      }
      HeuristicAlongWalk(grid, rest, goal);
      assert Adjacent(grid, w[0], w[1]);
      HeuristicIsConsistent(w[0], w[1], goal);
    }
  }

  /** The prefix of a walk up to one of its cells is a walk to that cell. */
  lemma PrefixIsWalk(grid: seq<seq<int>>, w: seq<Coord>, s: Coord, i: nat)
    requires WellFormed(grid) && |w| > 0 && w[0] == s && IsWalk(grid, w) && i < |w|
    ensures WalkFromTo(grid, w[..i + 1], s, w[i])
  {
    var p := w[..i + 1];
    forall k | 0 <= k < |p| - 1 ensures Adjacent(grid, p[k], p[k + 1]) {
      assert p[k] == w[k] && p[k + 1] == w[k + 1];
    }
  }

  /** A walk followed by one more step is a walk. */
  lemma AppendStep(grid: seq<seq<int>>, w: seq<Coord>, n: Coord)
    requires WellFormed(grid) && |w| > 0 && IsWalk(grid, w) && Adjacent(grid, w[|w| - 1], n)
    ensures IsWalk(grid, w + [n])
  {
    var q := w + [n];
    forall k | 0 <= k < |q| - 1 ensures Adjacent(grid, q[k], q[k + 1]) {
      if k < |w| - 1 {
        assert q[k] == w[k] && q[k + 1] == w[k + 1];
      }
    }
  }

  /** The part of a walk from one of its cells onwards is a walk. */
  lemma SuffixIsWalk(grid: seq<seq<int>>, w: seq<Coord>, i: nat)
    requires WellFormed(grid) && IsWalk(grid, w) && i < |w|
    ensures IsWalk(grid, w[i..]) && |w[i..]| > 0 && w[i..][0] == w[i] && w[i..][|w[i..]| - 1] == w[|w| - 1]
  {
    var q := w[i..];
    forall k | 0 <= k < |q| - 1 ensures Adjacent(grid, q[k], q[k + 1]) {
      assert q[k] == w[i + k] && q[k + 1] == w[i + k + 1];
    }
  }

  /**
    The first-exit argument behind every shortest-path claim: if each visited cell's
    recorded distance is no longer than any walk to it, and every unvisited neighbour
    of a visited cell `v` is pending at a key of at most `dist[v] + 1` (so the smallest
    pending key `k` is at most that), then no walk from `s` to an unvisited cell is shorter than `k`.
  */
  lemma ShortestByFirstExit(grid: seq<seq<int>>, s: Coord, visited: set<Coord>, dist: map<Coord, int>, k: int, w: seq<Coord>)
    requires WellFormed(grid)
    requires s in visited && visited <= dist.Keys
    requires forall v, n :: v in visited && n !in visited && Adjacent(grid, v, n) ==> k <= dist[v] + 1
    requires forall v, u :: v in visited && WalkFromTo(grid, u, s, v) ==> dist[v] <= |u| - 1
    requires |w| > 0 && w[0] == s && IsWalk(grid, w) && w[|w| - 1] !in visited
    ensures k <= |w| - 1
  {
    var i := FirstExit(visited, w);
    PrefixIsWalk(grid, w, s, i - 1);
    assert Adjacent(grid, w[i - 1], w[i]);
  }
}
