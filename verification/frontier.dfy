/**
  Frontier entries shared by the four searches, what makes an entry well-formed,
  and the binary-heap pop abstracted to "remove the least entry in tuple order".
*/
module Frontier {
  import opened Coords
  import opened Grid
  import opened Walks

  /** A queue or stack entry `((x, y), path)`: the cell and the path to the cell it was reached from. */
  datatype Node = Node(cell: Coord, path: seq<Coord>)

  /** A heap entry `(key, (x, y), path)`. */
  datatype HeapEntry = HeapEntry(key: int, cell: Coord, path: seq<Coord>)

  /** A path built by a search: a simple walk from `s` through expanded cells only. */
  ghost predicate TrailOk(grid: seq<seq<int>>, s: Coord, visited: set<Coord>, path: seq<Coord>)
    requires WellFormed(grid)
  {
    |path| > 0 && path[0] == s && IsWalk(grid, path) && Distinct(path) &&
    forall x :: x in path ==> x in visited
  }

  /**
    An entry for `cell` with stored `path` is either the initial entry for `s` with an
    empty path, or its path is a trail and `cell` is a neighbour of the path's last cell.
  */
  ghost predicate EntryOk(grid: seq<seq<int>>, s: Coord, visited: set<Coord>, cell: Coord, path: seq<Coord>)
    requires WellFormed(grid)
  {
    if path == [] then cell == s
    else TrailOk(grid, s, visited, path) && Adjacent(grid, path[|path| - 1], cell)
  }

  /** Every entry of the queue or stack `q` is well-formed. */
  ghost predicate EntriesOk(grid: seq<seq<int>>, s: Coord, visited: set<Coord>, q: seq<Node>)
    requires WellFormed(grid)
  {
    forall e :: e in q ==> EntryOk(grid, s, visited, e.cell, e.path)
  }

  /** `dist[v]` is no more than the number of steps of any walk from `s` to a visited cell `v`. */
  ghost predicate Shortest(grid: seq<seq<int>>, s: Coord, visited: set<Coord>, dist: map<Coord, int>)
    requires WellFormed(grid) && visited <= dist.Keys
  {
    forall v, w :: v in visited && WalkFromTo(grid, w, s, v) ==> dist[v] <= |w| - 1
  }

  /** Recording `cell` at a `k` no larger than any walk to it keeps every recorded value shortest. */
  lemma ShortestAfterRecord(grid: seq<seq<int>>, s: Coord, visited: set<Coord>, dist: map<Coord, int>, cell: Coord, k: int)
    requires WellFormed(grid) && visited <= dist.Keys && Shortest(grid, s, visited, dist)
    requires forall w :: WalkFromTo(grid, w, s, cell) ==> k <= |w| - 1
    ensures Shortest(grid, s, visited + {cell}, dist[cell := k])
  {
  }

  lemma RecordKeys(dist: map<Coord, int>, visited: set<Coord>, cell: Coord, k: int)
    requires dist.Keys == visited
    ensures dist[cell := k].Keys == visited + {cell}
  {
  }

  lemma EntryOkGrows(grid: seq<seq<int>>, s: Coord, visited: set<Coord>, more: set<Coord>, cell: Coord, path: seq<Coord>)
    requires WellFormed(grid) && visited <= more
    requires EntryOk(grid, s, visited, cell, path)
    ensures EntryOk(grid, s, more, cell, path)
  {
  }

  /** Expanding an entry for an unvisited cell extends its path by that cell and keeps it a trail. */
  lemma ExtendTrail(grid: seq<seq<int>>, s: Coord, visited: set<Coord>, cell: Coord, path: seq<Coord>)
    requires WellFormed(grid)
    requires EntryOk(grid, s, visited, cell, path) && cell !in visited
    ensures TrailOk(grid, s, visited + {cell}, path + [cell])
    ensures |path + [cell]| == |path| + 1
  {
    var p := path + [cell];
    forall i | 0 <= i < |p| - 1 ensures Adjacent(grid, p[i], p[i + 1]) {
      if i < |p| - 2 {
        assert p[i] == path[i] && p[i + 1] == path[i + 1];
      }
    }
    forall i, j | 0 <= i < j < |p| ensures p[i] != p[j] {
      if j < |p| - 1 {
        assert p[i] == path[i] && p[j] == path[j];
      } else {
        assert path[i] in path;
      }
    }
  }

  /** Some entry of the queue or stack `q` is for cell `n`. */
  ghost predicate Queued(q: seq<Node>, n: Coord)
  {
    exists e :: e in q && e.cell == n
  }

  lemma QueuedAfterPush(q: seq<Node>, e: Node, n: Coord)
    requires Queued(q, n) || e.cell == n
    ensures Queued(q + [e], n)
  {
    if e.cell == n {
      assert e in q + [e];
    } else {
      var d :| d in q && d.cell == n;
      assert d in q + [d];
      assert d in q + [e];
    }
  }

  /** Taking the front entry (FIFO) keeps every other cell queued. */
  lemma QueuedAfterDequeue(q: seq<Node>, n: Coord)
    requires q != [] && Queued(q, n) && q[0].cell != n
    ensures Queued(q[1..], n)
  {
    var d :| d in q && d.cell == n;
    var k :| 0 <= k < |q| && q[k] == d;
    assert q[1..][k - 1] == d;
  }

  /** Taking the last entry (LIFO) keeps every other cell queued. */
  lemma QueuedAfterPop(q: seq<Node>, n: Coord)
    requires q != [] && Queued(q, n) && q[|q| - 1].cell != n
    ensures Queued(q[..|q| - 1], n)
  {
    var d :| d in q && d.cell == n;
    var k :| 0 <= k < |q| && q[k] == d;
    assert q[..|q| - 1][k] == d;
  }

  /** Some entry of `q` is for cell `n` with a path of at most `bound` cells. */
  ghost predicate QueuedWithin(q: seq<Node>, n: Coord, bound: int)
  {
    exists e :: e in q && e.cell == n && |e.path| <= bound
  }

  lemma QueuedWithinAfterPush(q: seq<Node>, e: Node, n: Coord, bound: int)
    requires QueuedWithin(q, n, bound) || (e.cell == n && |e.path| <= bound)
    ensures QueuedWithin(q + [e], n, bound)
  {
    if e.cell == n && |e.path| <= bound {
      assert e in q + [e];
    } else {
      var d :| d in q && d.cell == n && |d.path| <= bound;
      assert d in q + [e];
    }
  }

  lemma QueuedWithinAfterDequeue(q: seq<Node>, n: Coord, bound: int)
    requires q != [] && QueuedWithin(q, n, bound) && q[0].cell != n
    ensures QueuedWithin(q[1..], n, bound)
  {
    var d :| d in q && d.cell == n && |d.path| <= bound;
    var k :| 0 <= k < |q| && q[k] == d;
    assert q[1..][k - 1] == d;
  }

  /**
    The FIFO queue holds paths in non-decreasing length, spanning at most two
    consecutive lengths.
  */
  ghost predicate LevelOrdered(q: seq<Node>)
  {
    (forall i, j :: 0 <= i < j < |q| ==> |q[i].path| <= |q[j].path|) &&
    (forall i :: 0 <= i < |q| ==> |q[i].path| <= |q[0].path| + 1)
  }

  lemma LevelOrderedFront(q: seq<Node>, n: Coord, bound: int)
    requires LevelOrdered(q) && QueuedWithin(q, n, bound)
    ensures |q[0].path| <= bound
  {
    var d :| d in q && d.cell == n && |d.path| <= bound;
    var k :| 0 <= k < |q| && q[k] == d;
    if k > 0 {
      assert |q[0].path| <= |q[k].path|;
    }
  }

  lemma LevelOrderedDequeue(q: seq<Node>)
    requires q != [] && LevelOrdered(q)
    ensures LevelOrdered(q[1..])
    ensures forall e :: e in q[1..] ==> |q[0].path| <= |e.path| <= |q[0].path| + 1
  {
    if |q| > 1 {
      assert |q[0].path| <= |q[1].path|;
    }
  }

  lemma LevelOrderedAppend(q: seq<Node>, added: seq<Node>, k: int)
    requires LevelOrdered(q)
    requires forall e :: e in q ==> k <= |e.path| <= k + 1
    requires forall e :: e in added ==> |e.path| == k + 1
    ensures LevelOrdered(q + added)
  {
    var r := q + added;
    forall i, j | 0 <= i < j < |r| ensures |r[i].path| <= |r[j].path| {
      if j < |q| {
        assert r[i] == q[i] && r[j] == q[j];
      } else if i < |q| {
        assert r[i] == q[i] && q[i] in q && r[j] == added[j - |q|] && added[j - |q|] in added;
      } else {
        assert r[i] == added[i - |q|] && added[i - |q|] in added && r[j] == added[j - |q|] && added[j - |q|] in added;
      }
    }
    forall i | 0 <= i < |r| ensures |r[i].path| <= |r[0].path| + 1 {
      if q != [] {
        assert r[0] == q[0] && q[0] in q;
        if i < |q| {
          assert r[i] == q[i];
        } else {
          assert r[i] == added[i - |q|] && added[i - |q|] in added;
        }
      } else {
        assert r[0] == added[0] && added[0] in added && r[i] == added[i] && added[i] in added;
      }
    }
  }

  /** Bookkeeping every search keeps about the cells it has expanded, in expansion order. */
  ghost predicate Explored(s: Coord, visited: set<Coord>, expanded: seq<Coord>)
  {
    Distinct(expanded) &&
    (forall x :: x in expanded <==> x in visited) &&
    (forall x :: x in visited ==> x == s || InBounds(x)) &&
    (visited != {} ==> s in visited) &&
    (expanded != [] ==> expanded[0] == s)
  }

  lemma ExploreOne(s: Coord, visited: set<Coord>, expanded: seq<Coord>, c: Coord)
    requires Explored(s, visited, expanded) && c !in visited
    requires c == s || InBounds(c)
    requires visited == {} ==> c == s
    ensures Explored(s, visited + {c}, expanded + [c])
  {
    var e := expanded + [c];
    forall i, j | 0 <= i < j < |e| ensures e[i] != e[j] {
      if j < |e| - 1 {
        assert e[i] == expanded[i] && e[j] == expanded[j];
      } else {
        assert expanded[i] in expanded;
      }
    }
  }

  /** The entries `(n, path)` that the neighbour loop of BFS and DFS appends: one per unvisited neighbour, in order. */
  function Unvisited(neighbors: seq<Coord>, visited: set<Coord>, path: seq<Coord>): (added: seq<Node>)
    ensures |added| <= |neighbors|
  {
    if neighbors == [] then []
    else
      var n := neighbors[|neighbors| - 1];
      var front := neighbors[..|neighbors| - 1];
      assert neighbors == front + [n];
      Unvisited(front, visited, path) + (if n !in visited then [Node(n, path)] else [])
  }

  /** The neighbour loop of BFS and DFS: appends an entry for each neighbour not yet expanded, in order. */
  method PushUnvisited(frontier: seq<Node>, neighbors: seq<Coord>, visited: set<Coord>, path: seq<Coord>)
    returns (r: seq<Node>)
    ensures r == frontier + Unvisited(neighbors, visited, path)
  {
    r := frontier;
    var i := 0;
    while i < |neighbors|
      invariant 0 <= i <= |neighbors|
      invariant r == frontier + Unvisited(neighbors[..i], visited, path)
    {
      UnvisitedStep(neighbors, visited, path, i);
      if neighbors[i] !in visited {
        r := r + [Node(neighbors[i], path)];
      }
      i := i + 1;
    }
    assert neighbors[..i] == neighbors;
  }

  /** Taking one more neighbour adds its entry when it is unvisited. */
  lemma UnvisitedStep(neighbors: seq<Coord>, visited: set<Coord>, path: seq<Coord>, i: nat)
    requires i < |neighbors|
    ensures Unvisited(neighbors[..i + 1], visited, path) ==
      Unvisited(neighbors[..i], visited, path) + (if neighbors[i] !in visited then [Node(neighbors[i], path)] else [])
  {
    assert neighbors[..i + 1][..i] == neighbors[..i];
  }

  /** The appended entries are exactly `(n, path)` for the unvisited neighbours `n`. */
  lemma {:induction false} UnvisitedEntries(neighbors: seq<Coord>, visited: set<Coord>, path: seq<Coord>)
    ensures forall e :: e in Unvisited(neighbors, visited, path) ==>
      e.path == path && e.cell in neighbors && e.cell !in visited
    ensures forall n :: n in neighbors && n !in visited ==> Node(n, path) in Unvisited(neighbors, visited, path)
    decreases |neighbors|
  {
    if neighbors != [] {
      var front := neighbors[..|neighbors| - 1];
      assert neighbors == front + [neighbors[|neighbors| - 1]];
      UnvisitedEntries(front, visited, path);
    }
  }

  lemma QueuedWithinAppend(q: seq<Node>, added: seq<Node>, n: Coord, bound: int)
    requires QueuedWithin(q, n, bound) || exists e :: e in added && e.cell == n && |e.path| <= bound
    ensures QueuedWithin(q + added, n, bound)
  {
    if QueuedWithin(q, n, bound) {
      var d :| d in q && d.cell == n && |d.path| <= bound;
      assert d in q + added;
    } else {
      var d :| d in added && d.cell == n && |d.path| <= bound;
      assert d in q + added;
    }
  }

  /** Some heap entry is for cell `n` with a key no larger than `bound`. */
  ghost predicate Pending(heap: seq<HeapEntry>, n: Coord, bound: int)
  {
    exists e :: e in heap && e.cell == n && e.key <= bound
  }

  lemma PendingAfterPush(heap: seq<HeapEntry>, e: HeapEntry, n: Coord, bound: int)
    requires Pending(heap, n, bound) || (e.cell == n && e.key <= bound)
    ensures Pending(heap + [e], n, bound)
  {
    if e.cell == n && e.key <= bound {
      assert e in heap + [e];
    } else {
      var d :| d in heap && d.cell == n && d.key <= bound;
      assert d in heap + [e];
    }
  }

  // Python compares heap entries as tuples: by key, then by cell (row, then column),
  // then by path, element by element, a proper prefix coming first.

  predicate CoordLess(a: Coord, b: Coord)
  {
    a.row < b.row || (a.row == b.row && a.col < b.col)
  }

  predicate PathLess(p: seq<Coord>, q: seq<Coord>)
    decreases |p|
  {
    if p == [] then q != []
    else q != [] && (CoordLess(p[0], q[0]) || (p[0] == q[0] && PathLess(p[1..], q[1..])))
  }

  predicate EntryLess(a: HeapEntry, b: HeapEntry)
  {
    a.key < b.key ||
    (a.key == b.key && (CoordLess(a.cell, b.cell) || (a.cell == b.cell && PathLess(a.path, b.path))))
  }

  lemma {:induction false} PathLessIrreflexive(p: seq<Coord>)
    ensures !PathLess(p, p)
    decreases |p|
  {
    if p != [] {
      PathLessIrreflexive(p[1..]);
    }
  }

  lemma {:induction false} PathLessTransitive(p: seq<Coord>, q: seq<Coord>, r: seq<Coord>)
    requires PathLess(p, q) && PathLess(q, r)
    ensures PathLess(p, r)
    decreases |p|
  {
    if p != [] && p[0] == q[0] && q[0] == r[0] {
      PathLessTransitive(p[1..], q[1..], r[1..]);
    }
  }

  lemma {:induction false} PathLessTotal(p: seq<Coord>, q: seq<Coord>)
    requires p != q
    ensures PathLess(p, q) || PathLess(q, p)
    decreases |p|
  {
    if p != [] && q != [] && p[0] == q[0] {
      assert p == [p[0]] + p[1..] && q == [q[0]] + q[1..];
      PathLessTotal(p[1..], q[1..]);
    }
  }

  /** Tuple order is total: of two different entries, one comes first. */
  lemma EntryLessIsTotal(a: HeapEntry, b: HeapEntry)
    requires a != b
    ensures EntryLess(a, b) || EntryLess(b, a)
  {
    if a.key == b.key && a.cell == b.cell {
      PathLessTotal(a.path, b.path);
    }
  }

  /** Tuple order is a strict order on heap entries. */
  lemma EntryLessIsStrictOrder(a: HeapEntry, b: HeapEntry, c: HeapEntry)
    ensures !EntryLess(a, a)
    ensures EntryLess(a, b) && EntryLess(b, c) ==> EntryLess(a, c)
  {
    PathLessIrreflexive(a.path);
    if EntryLess(a, b) && EntryLess(b, c) && a.key == b.key == c.key && a.cell == b.cell == c.cell {
      PathLessTransitive(a.path, b.path, c.path);
    }
  }

  /**
    `heapq.heappop`: removes and returns the least entry in tuple order, which comes before
    every other entry, so it is the one entry `heappop` can return; the entries left are the
    others, the order among them not being modelled.
  */
  method HeapPop(heap: seq<HeapEntry>) returns (top: HeapEntry, rest: seq<HeapEntry>)
    requires heap != []
    ensures top in heap
    ensures forall e :: e in heap ==> !EntryLess(e, top)
    ensures forall e :: e in heap && e != top ==> EntryLess(top, e)
    ensures multiset(heap) == multiset(rest) + multiset{top}
    ensures |rest| == |heap| - 1
    ensures forall e :: e in rest ==> e in heap
    ensures forall e :: e in heap && e != top ==> e in rest
  {
    var j := 0;
    var i := 1;
    EntryLessIsStrictOrder(heap[0], heap[0], heap[0]);
    while i < |heap|
      invariant 0 <= j < i <= |heap|
      invariant forall k :: 0 <= k < i ==> !EntryLess(heap[k], heap[j])
    {
      if EntryLess(heap[i], heap[j]) {
        forall k | 0 <= k < i ensures !EntryLess(heap[k], heap[i]) {
          EntryLessIsStrictOrder(heap[k], heap[i], heap[j]);
        }
        EntryLessIsStrictOrder(heap[i], heap[i], heap[i]);
        j := i;
      }
      i := i + 1;
    }
    top := heap[j];
    forall e | e in heap && e != top ensures EntryLess(top, e) {
      EntryLessIsTotal(top, e);
    }
    rest := heap[..j] + heap[j + 1..];
    RemoveAt(heap, j);
  }

  /** Removing the entry at `j` leaves every other entry, as often as before. */
  lemma RemoveAt(heap: seq<HeapEntry>, j: nat)
    requires j < |heap|
    ensures var rest := heap[..j] + heap[j + 1..];
      && multiset(heap) == multiset(rest) + multiset{heap[j]}
      && |rest| == |heap| - 1
      && (forall e :: e in rest ==> e in heap)
      && (forall e :: e in heap && e != heap[j] ==> e in rest)
  {
    var rest := heap[..j] + heap[j + 1..];
    assert heap == heap[..j] + [heap[j]] + heap[j + 1..];
    assert multiset(heap) == multiset(heap[..j]) + multiset{heap[j]} + multiset(heap[j + 1..]);
    forall e | e in heap && e != heap[j] ensures e in rest {
      assert multiset(heap)[e] > 0;
    }
  }

  /** `top` and `rest` are what `HeapPop` made of `heap`, as far as membership and order go. */
  ghost predicate Popped(heap: seq<HeapEntry>, top: HeapEntry, rest: seq<HeapEntry>)
  {
    top in heap && |rest| == |heap| - 1 &&
    (forall e :: e in heap ==> !EntryLess(e, top)) &&
    (forall e :: e in rest ==> e in heap) &&
    (forall e :: e in heap && e != top ==> e in rest)
  }

  /** Every heap entry is well-formed (its key aside). */
  ghost predicate HeapEntriesOk(grid: seq<seq<int>>, s: Coord, visited: set<Coord>, heap: seq<HeapEntry>)
    requires WellFormed(grid)
  {
    forall e :: e in heap ==> EntryOk(grid, s, visited, e.cell, e.path)
  }

  /** Popping keeps every cell other than the popped one pending. */
  lemma PendingAfterPop(heap: seq<HeapEntry>, top: HeapEntry, rest: seq<HeapEntry>, n: Coord, bound: int)
    requires Popped(heap, top, rest) && Pending(heap, n, bound) && top.cell != n
    ensures Pending(rest, n, bound)
  {
    var d :| d in heap && d.cell == n && d.key <= bound;
    assert d in rest;
  }

  /** A least entry's key is no larger than any key in the heap. */
  lemma LeastKey(heap: seq<HeapEntry>, top: HeapEntry, n: Coord, bound: int)
    requires forall e :: e in heap ==> !EntryLess(e, top)
    requires Pending(heap, n, bound)
    ensures top.key <= bound
  {
  }
}
