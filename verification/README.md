# Maze solver search engine, in Dafny

This project models the search engine of `Maze_solver.py`, a 20×20 maze editor that
compares four graph searches. The grid holds one code per cell:

- 0 is free, 1 is an obstacle, 2 is the start and 3 is the goal.
- Only code 1 blocks movement.

The model covers these parts of the program:

- **Coords.** A cell `(row, col)` and the Manhattan-distance heuristic. The heuristic is
  proved symmetric, to satisfy the triangle inequality, and to be consistent.
- **Grid.** The grid, and `get_neighbors` as an imperative loop over the four offsets in
  the order Right, Down, Left, Up. It is proved to return exactly the passable cells one
  step away, at most four of them, in that order. It matches the reference function
  `Neighbors`.
- **Walks.** Walks, simple paths and reachability. The searches are specified in these
  terms.
- **Outcomes.** The result triple. `Answers` states what every search promises once both
  endpoints are placed.
- **Frontier.** The entries kept by the queue, the stack and the heaps. `heapq.heappop`
  removes the least entry in Python tuple order: key first, then the cell, then the
  stored path.
- **BreadthFirst, DepthFirst, UniformCost, AStar.** The four searches, one imperative
  method each. Each keeps its visited set, its frontier, its path copies and, for A*,
  its `g_cost` and `h_cost` maps. Each is proved against a loop invariant, with lemmas
  for each branch of the loop body. Proved results:
  - "Goal Found" is reported exactly when the goal is reachable.
  - The path found is simple and runs from start to goal.
  - The start cell is expanded first, and no cell is expanded twice.
  - Every cell of the path found was expanded.
  - "Goal Not Found" leaves a set of expanded cells closed under steps.
  - BFS finds a shortest path.
  - UCS and A* report the least number of steps.
  - A* reports the heuristic sum of its path.
- **Strategies.** The four buttons, and the dispatch from a button to its search.
  `CompareAll` runs all four searches on one maze. It proves that they agree on whether
  the goal is found, and that UCS and A* report the same cost, which is the length of the
  BFS path.
- **Placement.** The click rule of the event loop: the first click sets the start, the
  second sets the goal, and every later click writes an obstacle. The rule is modelled as
  functions on a `Layout` value, and as a `Board` class whose methods update the grid,
  the endpoints and the result shown.

The module-level `grid`, `start` and `goal` of the program are parameters here. `start`
and `goal` are `Option<Coord>` values. The Python test `not start` only fires on `None`,
because the cell `(0, 0)` is a non-empty tuple. The program passes the path it finds to
`draw_path`; here the path is returned inside `GoalFound`. Each search also returns a
ghost `expanded` list, with the cells in the order they were expanded.

Two details of the code shape the model:

- `heapq` compares whole `(key, cell, path)` tuples. Entries with equal keys are
  therefore ordered by the cell, row first, and then by the stored path.
  `Frontier.HeapPop` returns the one entry that comes before all others in this order.
  The optimality proofs do not depend on how ties are broken.
- The initial entry stores an empty path. Each cell is appended to its entry's path when
  the entry is popped.

## Model

| member | source | states |
|---|---|---|
| Coords.Heuristic | Maze_solver.py:119-121 | Manhattan distance; it is zero exactly when the two cells are equal, and at least the distance along either axis |
| Coords.HeuristicIsMetric | Maze_solver.py:119-121 | the heuristic is symmetric and satisfies the triangle inequality |
| Coords.HeuristicIsConsistent | Maze_solver.py:119-121 | between two cells one step apart, the heuristic to any goal changes by at most one |
| Grid.Neighbors | Maze_solver.py:51-57 | reference neighbour list: at most four cells, exactly the in-bounds non-obstacle cells at distance one, in Right, Down, Left, Up order |
| Grid.GetNeighbors | Maze_solver.py:51-57 | the loop over the four offsets returns at most four cells, exactly the passable cells one step away, in enumeration order; cells out of range are skipped, not an error |
| Grid.NeighborsUpToCells | Maze_solver.py:53-56 | after the first `k` offsets, the list holds exactly the passable cells whose direction comes among the first `k`, in enumeration order |
| Grid.NeighborListIsNeighbors | Maze_solver.py:51-57 | any list holding exactly the neighbours, in enumeration order, equals `Neighbors`, so `GetNeighbors` computes the reference list |
| Grid.OrderedListsEqual | Maze_solver.py:53 | two lists in the fixed direction order with the same cells are the same list |
| Outcomes.Report | Maze_solver.py:59-89 | the `(message, cost, heuristic)` triple: the unset message iff unset, "Goal Found" iff found with its cost and heuristic, "Goal Not Found" when not found, and 0 and 0 whenever not found |
| Frontier.HeapPop | Maze_solver.py:133-134 | `heappop` returns the entry that comes before every other entry in tuple order, and the rest holds every other entry with the same multiplicity |
| Frontier.EntryLessIsStrictOrder | Maze_solver.py:128 | the tuple order on `(key, cell, path)` entries is irreflexive and transitive |
| Frontier.EntryLessIsTotal | Maze_solver.py:128 | of two different entries, one comes first in tuple order, so the least entry is unique |
| Frontier.PushUnvisited | Maze_solver.py:85-87 | the neighbour loop of BFS and DFS appends `Unvisited(neighbors, visited, path)` to the frontier |
| Frontier.UnvisitedEntries | Maze_solver.py:113-115 | the appended entries are exactly `(n, path)` for the neighbours `n` not yet visited |
| BreadthFirst.BreadthFirstSearch | Maze_solver.py:58-89 | unset iff an endpoint is missing; otherwise `Answers`: found iff reachable, along a simple path from start to goal; cost and heuristic are 0; the path is no longer than any walk from start to goal |
| BreadthFirst.DiscardVisited | Maze_solver.py:67-68 | skipping an entry whose cell is already visited keeps the invariant |
| BreadthFirst.FirstExpansion | Maze_solver.py:69-71 | the front entry of an unvisited cell extends to a simple walk from start, no longer than any walk to that cell |
| BreadthFirst.ExpandKeepsInvariant | Maze_solver.py:84-87 | expanding the front cell and queueing its unvisited neighbours keeps the invariant: FIFO levels, entries well-formed, every unexpanded neighbour queued, recorded lengths shortest |
| BreadthFirst.GoalReached | Maze_solver.py:80-82 | popping the goal gives a shortest simple path from start to goal |
| BreadthFirst.EmptyQueueClosed | Maze_solver.py:89 | an empty queue means the expanded cells are closed under steps and the goal is unreachable |
| DepthFirst.DepthFirstSearch | Maze_solver.py:93-117 | unset iff an endpoint is missing; otherwise `Answers`: found iff reachable, along a simple path from start to goal; cost and heuristic are 0 |
| DepthFirst.DiscardVisited | Maze_solver.py:103-104 | skipping an entry whose cell is already visited keeps the invariant |
| DepthFirst.FirstExpansion | Maze_solver.py:105-107 | the top entry of an unvisited cell extends to a simple walk from start through expanded cells |
| DepthFirst.ExpandKeepsInvariant | Maze_solver.py:113-115 | expanding the top cell and pushing its unvisited neighbours keeps every unexpanded neighbour of an expanded cell on the stack |
| DepthFirst.GoalReached | Maze_solver.py:109-111 | popping the goal gives a simple path from start to goal |
| DepthFirst.EmptyStackClosed | Maze_solver.py:117 | an empty stack means the expanded cells are closed under steps and the goal is unreachable |
| UniformCost.UniformCostSearch | Maze_solver.py:161-184 | unset iff an endpoint is missing; otherwise `Answers`; on success the cost is the number of steps of the path and no more than the steps of any walk, and the heuristic is 0 |
| UniformCost.PushUnvisited | Maze_solver.py:180-182 | the neighbour loop pushes `Unvisited(neighbors, visited, key, path)` |
| UniformCost.UnvisitedEntries | Maze_solver.py:180-182 | the pushed entries are exactly `(current_cost + 1, n, path)` for the neighbours `n` not yet visited |
| UniformCost.DiscardVisited | Maze_solver.py:172-173 | skipping a popped entry whose cell is already visited keeps the invariant |
| UniformCost.FirstExpansion | Maze_solver.py:174-175 | the least entry of an unvisited cell has a key equal to its path's step count, and no walk to the cell is shorter |
| UniformCost.ExpandKeepsInvariant | Maze_solver.py:180-182 | expanding and pushing keeps the invariant: keys equal path lengths, and every unexpanded neighbour is pending at most one step beyond its expanded neighbour |
| UniformCost.GoalReached | Maze_solver.py:176-178 | popping the goal gives a simple path whose step count is the key and is least among all walks |
| UniformCost.EmptyHeapClosed | Maze_solver.py:184 | an empty heap means the expanded cells are closed under steps and the goal is unreachable |
| AStar.Improve | Maze_solver.py:149-156 | one neighbour turn: the neighbour ends up recorded at no more than the current count plus one, and the current cell's count is kept |
| AStar.ImproveCases | Maze_solver.py:153-156 | the neighbour is recorded and pushed with key `g + 1 + h` exactly when it is unseen or strictly improved; otherwise nothing changes |
| AStar.ImproveKeeps | Maze_solver.py:153-155 | a turn adds only the neighbour, never raises a count, changes no other count, and keeps `h_cost` equal to the heuristic on the cells of `g_cost` |
| AStar.RelaxAll | Maze_solver.py:148-156 | the neighbour loop as a fold of `Improve`; it keeps the count of the expanded cell |
| AStar.Relax | Maze_solver.py:148-156 | the imperative neighbour loop computes `RelaxAll` on the heap and both maps |
| AStar.RelaxLowers | Maze_solver.py:153-154 | relaxing never raises a count, brings every neighbour to at most `g + 1`, and keeps counts it need not touch |
| AStar.RelaxPushes | Maze_solver.py:156 | relaxing keeps every heap entry and pushes only neighbour entries keyed `g + 1 + h` with the current path |
| AStar.RelaxRecords | Maze_solver.py:153-156 | every count that relaxing changes becomes `g + 1`, with a matching entry pushed |
| AStar.RelaxCaches | Maze_solver.py:155 | relaxing keeps the heuristic map in step with the count map |
| AStar.AStarSearch | Maze_solver.py:123-158 | unset iff an endpoint is missing; otherwise `Answers`; on success the cost is the step count of the path and least among all walks, and the heuristic is the sum of the heuristic over the path's cells |
| AStar.DiscardVisited | Maze_solver.py:136-137 | skipping a popped entry whose cell is already visited keeps the invariant |
| AStar.FirstExpansion | Maze_solver.py:138-140 | the least entry of an unvisited cell carries a simple walk whose step count is the cell's `g_cost` and is least among all walks |
| AStar.ExpandKeepsInvariant | Maze_solver.py:148-156 | expanding and relaxing keeps the invariant: `g_cost[start] = 0`, entries keyed `g + h`, neighbours relaxed, pending costs, expanded counts shortest |
| AStar.GoalReached | Maze_solver.py:142-146 | popping the goal gives a simple path with `g_cost[goal]` steps, least among all walks, with every path cell's heuristic cached |
| AStar.EmptyHeapClosed | Maze_solver.py:158 | an empty heap means the expanded cells are closed under steps and the goal is unreachable |
| AStar.SumHeuristic | Maze_solver.py:145 | the summing loop computes the total of the cached heuristic values over the path |
| AStar.CachedTotalIsHeuristicTotal | Maze_solver.py:145 | with the true heuristic cached for every path cell, the cached total is the Manhattan total to the goal |
| AStar.HeuristicTotalBounds | Maze_solver.py:145 | along a walk ending at the goal, the heuristic total is at least the heuristic of the first cell and at most `0 + 1 + … + (n - 1)` |
| Strategies.Solve | Maze_solver.py:195-196 | the button's search: unset iff an endpoint is missing; found iff reachable, along a simple path; BFS finds a path no longer than any walk; BFS and DFS report 0 and 0; UCS and A* report the path's step count, which is the least; UCS reports heuristic 0, and A* the heuristic sum over its path |
| Strategies.CompareAll | Maze_solver.py:195-196 | all four searches agree on unset and on found; UCS and A* report the same cost, which is the step count of the BFS path |
| Placement.EmptyGrid | Maze_solver.py:24 | the initial grid is 20×20 with every cell free |
| Placement.Place | Maze_solver.py:251-258 | the first click places the start, the second the goal, later ones an obstacle even over an endpoint; no other cell changes |
| Placement.LaterClicksAreObstacles | Maze_solver.py:257-258 | once both endpoints are set, further clicks keep them, turn every clicked cell into an obstacle and leave the others unchanged |
| Placement.ClicksOnFreshBoard | Maze_solver.py:251-258 | from a fresh board, click 1 is the start and click 2 the goal; later clicks leave obstacles; unclicked cells stay free; each endpoint keeps its code unless clicked again later |
| Placement.Board.constructor | Maze_solver.py:228-233 | an empty grid, no endpoints, an empty message and zero costs |
| Placement.Board.Click | Maze_solver.py:251-258 | a click updates the board exactly as `Place` and leaves the result shown untouched |
| Placement.Board.Press | Maze_solver.py:263-266 | pressing a button leaves grid and endpoints as they were; the message, cost and heuristic shown are the triple of the outcome `shown`, and `shown` satisfies every promise of `Solve` for that button |

## Left out

- Rendering and timing are not modelled: `draw_grid`, `draw_path`, `draw_buttons`,
  `draw_result_message`, the drawing and delays inside BFS, and `pygame.init` and display
  setup. They have no effect on search results. The path that `draw_path` would draw is
  returned in the outcome instead.
- The event loop is not modelled: mouse polling, the quit event, the division from pixels
  to a cell, and the hit-testing of button rectangles. `Board.Click` takes the clicked
  cell, and `Board.Press` takes the button.
- The binary-heap layout of `heapq` is not modelled. `HeapPop` returns the least entry in
  tuple order and leaves the other entries in an unspecified order. The thread safety of
  `queue.Queue` is not modelled either; the queue is a sequence.
- Colour, window-size and pixel constants are not modelled; only `ROWS` and `COLS` are.
- Frontier.HeapPop: states which entry is removed and what remains, not the order of the
  remaining entries, because that order is the heap layout left out above.
- Strategies.Solve: does not restate each search's expansion order; the four search
  methods state it.
