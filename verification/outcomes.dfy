/** What a search hands back: the optional endpoints it is given and the result it reports. */
module Outcomes {
  import opened Coords
  import opened Grid
  import opened Walks

  /** An endpoint that may not have been placed yet (Python's `None`). */
  datatype Option<T> = None | Some(value: T)

  /**
    The three ways a search ends. `GoalFound` carries the path that the program
    passes to `draw_path`, with the cost and heuristic total it reports.
  */
  datatype Outcome =
    | Unset
    | GoalFound(path: seq<Coord>, cost: int, heuristic: int)
    | GoalNotFound

  const UNSET_MESSAGE: string := "Set start and goal points!"
  const FOUND_MESSAGE: string := "Goal Found"
  const NOT_FOUND_MESSAGE: string := "Goal Not Found"

  /** The `(message, cost, heuristic)` triple a search function returns to the event loop. */
  function Report(o: Outcome): (r: (string, int, int))
    ensures r.0 == FOUND_MESSAGE <==> o.GoalFound?
    ensures r.0 == UNSET_MESSAGE <==> o.Unset?
    ensures o.GoalNotFound? ==> r.0 == NOT_FOUND_MESSAGE
    ensures o.GoalFound? ==> r.1 == o.cost && r.2 == o.heuristic
    ensures !o.GoalFound? ==> r.1 == 0 && r.2 == 0
  {
    match o
    case Unset => (UNSET_MESSAGE, 0, 0)
    case GoalFound(_, cost, heuristic) => (FOUND_MESSAGE, cost, heuristic)
    case GoalNotFound => (NOT_FOUND_MESSAGE, 0, 0)
  }

  /**
    What each of the four searches promises once both endpoints are placed: it reports
    "goal found" exactly when the goal is reachable, along a simple path from `s` to `t`,
    and `t` is then the last cell it expanded; when `s == t` it finds `[s]` at cost 0 and
    heuristic 0 at once; it expands `s` first, no cell twice and only cells on the grid
    (or `s`); every cell of the path found was expanded; and when it reports "goal not found", the cells it expanded miss `t` and no step
    leads out of them.
  */
  ghost predicate Answers(grid: seq<seq<int>>, s: Coord, t: Coord, result: Outcome, expanded: seq<Coord>)
    requires WellFormed(grid)
  {
    && !result.Unset?
    && (result.GoalFound? <==> Reachable(grid, s, t))
    && (result.GoalFound? ==> SimplePath(grid, result.path, s, t) && expanded != [] && expanded[|expanded| - 1] == t)
    && (s == t ==> result == GoalFound([s], 0, 0))
    && Distinct(expanded)
    && (forall x :: x in expanded ==> x == s || InBounds(x))
    && expanded != [] && expanded[0] == s
    && (result.GoalFound? ==> forall x :: x in result.path ==> x in expanded)
    && (result.GoalNotFound? ==> t !in expanded && forall x, n :: x in expanded && Adjacent(grid, x, n) ==> n in expanded)
  }

  /** A search that stops on expanding `t` with a simple path from `s` answers as promised. */
  lemma FoundAnswers(grid: seq<seq<int>>, s: Coord, t: Coord, path: seq<Coord>, cost: int, heuristic: int,
                     expanded: seq<Coord>)
    requires WellFormed(grid) && SimplePath(grid, path, s, t)
    requires s == t ==> path == [s] && cost == 0 && heuristic == 0
    requires Distinct(expanded) && forall x :: x in expanded ==> x == s || InBounds(x)
    requires expanded != [] && expanded[|expanded| - 1] == t && expanded[0] == s
    requires forall x :: x in path ==> x in expanded
    ensures Answers(grid, s, t, GoalFound(path, cost, heuristic), expanded)
  {
    assert WalkFromTo(grid, path, s, t);
  }

  /** A search whose frontier runs dry, with `t` unreachable and the expanded cells closed, answers as promised. */
  lemma NotFoundAnswers(grid: seq<seq<int>>, s: Coord, t: Coord, expanded: seq<Coord>)
    requires WellFormed(grid) && s != t && t !in expanded && !Reachable(grid, s, t)
    requires forall x, n :: x in expanded && Adjacent(grid, x, n) ==> n in expanded
    requires Distinct(expanded) && forall x :: x in expanded ==> x == s || InBounds(x)
    requires expanded != [] && expanded[0] == s
    ensures Answers(grid, s, t, GoalNotFound, expanded)
  {
  }
}
