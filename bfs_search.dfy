/**
 * The resumable breadth-first search of `MazeSolver.solve_gen` on values:
 * the scan of one cell, the dequeue, the path rebuild and one resumption as
 * a transition function, with the search invariant carried through the scan.
 */
module BfsSearch {
  import opened Util
  import opened MazeGrid
  import opened BfsTree

  /** A scan entry of the solver: the offset to the neighbour and the wall index on the current cell. */
  datatype Probe = Probe(dx: int, dy: int, w: Dir)

  /** The scan list, top, right, bottom, left, in the order the source writes it. */
  const Probes: seq<Probe> := [Probe(0, -1, 0), Probe(1, 0, 1), Probe(0, 1, 2), Probe(-1, 0, 3)]

  lemma ProbeIsNeighbor(c: Cell, d: Dir)
    ensures Probes[d].w == d
    ensures Cell(c.x + Probes[d].dx, c.y + Probes[d].dy) == Neighbor(c, d)
  {
  }

  /** Where the resumable search stands between two events. */
  datatype Phase =
    | Start                               // not yet resumed
    | Pending(cur: Cell)                  // `cur` was just reported, its neighbours not yet scanned
    | Tracing(path: seq<Cell>, next: nat) // reporting the cells of `path` from index `next` on
    | Stopped                             // the generator has finished or raised

  /** What one resumption of the solver produces. */
  datatype SolveEvent =
    | Visit(cell: Cell)     // `('visit', cell)`
    | PathCell(cell: Cell)  // `('path', cell)`
    | MissingKey            // `came_from[node]` raised `KeyError`
    | Exhausted             // the generator has stopped

  /** The search state: the queue, `came_from`, the depths (for the proofs) and the phase. */
  datatype Bfs = Bfs(queue: seq<Cell>, parents: Parents, dist: map<Cell, nat>, phase: Phase)

  /** The cells still waiting to be scanned. */
  function Frontier(s: Bfs): seq<Cell>
  {
    if s.phase.Pending? then [s.phase.cur] + s.queue else s.queue
  }

  /** The state is one the solver can reach: the search invariant while it searches, a shortest path once it reports one. */
  ghost predicate SolverOk(width: int, height: int, walls: Walls, start: Cell, goal: Cell, s: Bfs)
  {
    match s.phase
    case Start => BfsInv(width, height, walls, start, s.queue, s.parents, s.dist)
    case Pending(cur) => BfsInv(width, height, walls, start, [cur] + s.queue, s.parents, s.dist)
    case Tracing(path, next) => next <= |path| && ShortestWalk(width, height, walls, start, goal, path)
    case Stopped => true
  }

  /**
   * The scan of `cur` in direction `d`: with no wall that way and the
   * neighbour inside the grid and not yet in `came_from`, the neighbour gets
   * `cur` as its parent and joins the queue.
   */
  function ScanOne(width: int, height: int, walls: Walls, s: Bfs, cur: Cell, d: Dir): Bfs
    requires cur in walls && |walls[cur]| == 4 && cur in s.dist
  {
    var n := Neighbor(cur, d);
    if !walls[cur][d] && InBounds(width, height, n) && n !in s.parents
    then s.(queue := s.queue + [n], parents := s.parents[n := Some(cur)], dist := s.dist[n := s.dist[cur] + 1])
    else s
  }

  /** The scan of `cur` in the directions from `d` on. */
  function ScanFrom(width: int, height: int, walls: Walls, s: Bfs, cur: Cell, d: nat): (r: Bfs)
    requires cur in walls && |walls[cur]| == 4 && cur in s.dist && d <= 4
    ensures cur in r.dist && r.phase == s.phase
    decreases 4 - d
  {
    if d == 4 then s
    else ScanFrom(width, height, walls, ScanOne(width, height, walls, s, cur, d), cur, d + 1)
  }

  /** The end of the search: rebuild the path to `goal`, or fail on the missing key. */
  ghost function Finish(width: int, height: int, walls: Walls, start: Cell, goal: Cell, s: Bfs): (Bfs, SolveEvent)
    requires ParentInv(width, height, walls, start, s.parents, s.dist)
  {
    if goal !in s.parents then (s.(phase := Stopped), MissingKey)
    else
      var path := Reversed(TraceBack(width, height, walls, start, s.parents, s.dist, goal));
      (s.(phase := Tracing(path, 1)), PathCell(path[0]))
  }

  /** Dequeue the next cell and report it, or end the search when the queue is empty. */
  ghost function Dequeue(width: int, height: int, walls: Walls, start: Cell, goal: Cell, s: Bfs): (Bfs, SolveEvent)
    requires ParentInv(width, height, walls, start, s.parents, s.dist)
  {
    if s.queue != [] then (s.(queue := s.queue[1..], phase := Pending(s.queue[0])), Visit(s.queue[0]))
    else Finish(width, height, walls, start, goal, s)
  }

  /** One resumption of `solve_gen`: the new state and what it yields. */
  ghost function SolveStep(width: int, height: int, walls: Walls, start: Cell, goal: Cell, s: Bfs): (Bfs, SolveEvent)
    requires WellFormed(width, height, walls)
    requires SolverOk(width, height, walls, start, goal, s)
  {
    match s.phase
    case Stopped => (s, Exhausted)
    case Tracing(path, next) =>
      if next < |path| then (s.(phase := Tracing(path, next + 1)), PathCell(path[next]))
      else (s.(phase := Stopped), Exhausted)
    case Start => Dequeue(width, height, walls, start, goal, s)
    case Pending(cur) =>
      if cur == goal then Finish(width, height, walls, start, goal, s)
      else
        InGrid(width, height, cur);
        var s' := ScanFrom(width, height, walls, s, cur, 0);
        ScanKeepsInv(width, height, walls, start, s, cur, 0);
        Dequeue(width, height, walls, start, goal, s')
  }

  /** Scanning keeps the search invariant, with `cur` still at the head of the frontier. */
  lemma {:induction false} ScanKeepsInv(width: int, height: int, walls: Walls, start: Cell, s: Bfs, cur: Cell, d: nat)
    requires WellFormed(width, height, walls) && cur in walls && d <= 4
    requires BfsInv(width, height, walls, start, [cur] + s.queue, s.parents, s.dist)
    ensures var r := ScanFrom(width, height, walls, s, cur, d);
      BfsInv(width, height, walls, start, [cur] + r.queue, r.parents, r.dist)
    decreases 4 - d
  {
    assert cur in s.dist;
    hide BfsInv, Passage, ScanOne;
    if d < 4 {
      ScanOneKeepsInv(width, height, walls, start, s, cur, d);
      ScanKeepsInv(width, height, walls, start, ScanOne(width, height, walls, s, cur, d), cur, d + 1);
    }
  }

  /** One scan step keeps the search invariant. */
  lemma ScanOneKeepsInv(width: int, height: int, walls: Walls, start: Cell, s: Bfs, cur: Cell, d: Dir)
    requires WellFormed(width, height, walls) && cur in walls
    requires BfsInv(width, height, walls, start, [cur] + s.queue, s.parents, s.dist)
    ensures var r := ScanOne(width, height, walls, s, cur, d);
      BfsInv(width, height, walls, start, [cur] + r.queue, r.parents, r.dist)
  {
    var n := Neighbor(cur, d);
    NeighborBack(cur, d);
    assert ([cur] + s.queue)[0] == cur;
    if !walls[cur][d] && InBounds(width, height, n) && n !in s.parents {
      DiscoverKeepsInv(width, height, walls, start, s.queue, s.parents, s.dist, cur, n);
    }
  }

  /**
   * The scan from direction `d` on only adds to `came_from`, and afterwards
   * every neighbour behind an open wall of `cur` in those directions is in it.
   */
  lemma {:induction false} ScanDiscovers(width: int, height: int, walls: Walls, s: Bfs, cur: Cell, d: nat)
    requires cur in walls && |walls[cur]| == 4 && cur in s.dist && d <= 4
    ensures var r := ScanFrom(width, height, walls, s, cur, d);
      && s.parents.Keys <= r.parents.Keys
      && forall e: Dir | d <= e && Passage(width, height, walls, cur, Neighbor(cur, e)) :: Neighbor(cur, e) in r.parents
    decreases 4 - d
  {
    if d < 4 {
      var s1 := ScanOne(width, height, walls, s, cur, d);
      NeighborBack(cur, d);
      ScanDiscovers(width, height, walls, s1, cur, d + 1);
    }
  }

  /** The scan only appends to the queue and keeps the depths defined exactly on `came_from`. */
  lemma {:induction false} ScanPrefix(width: int, height: int, walls: Walls, s: Bfs, cur: Cell, d: nat)
    requires cur in walls && |walls[cur]| == 4 && cur in s.dist && d <= 4
    requires s.dist.Keys == s.parents.Keys
    ensures var r := ScanFrom(width, height, walls, s, cur, d);
      && |s.queue| <= |r.queue| && r.queue[..|s.queue|] == s.queue
      && r.dist.Keys == r.parents.Keys && s.parents.Keys <= r.parents.Keys
    decreases 4 - d
  {
    if d < 4 {
      var s1 := ScanOne(width, height, walls, s, cur, d);
      var r := ScanFrom(width, height, walls, s1, cur, d + 1);
      ScanPrefix(width, height, walls, s1, cur, d + 1);
      assert r.queue[..|s.queue|] == r.queue[..|s1.queue|][..|s.queue|];
    }
  }

  /**
   * The scan appends only cells that were not yet in `came_from`, lie
   * inside the grid and are pairwise distinct, and puts each of them in
   * `came_from`: a cell is enqueued at most once.
   */
  lemma {:induction false} ScanFresh(width: int, height: int, walls: Walls, s: Bfs, cur: Cell, d: nat)
    requires cur in walls && |walls[cur]| == 4 && cur in s.dist && d <= 4
    requires s.dist.Keys == s.parents.Keys
    ensures var r := ScanFrom(width, height, walls, s, cur, d);
      && |s.queue| <= |r.queue|
      && (forall i | |s.queue| <= i < |r.queue| ::
            r.queue[i] !in s.parents && r.queue[i] in r.parents && InBounds(width, height, r.queue[i]))
      && (forall i, j | |s.queue| <= i < j < |r.queue| :: r.queue[i] != r.queue[j])
    decreases 4 - d
  {
    ScanPrefix(width, height, walls, s, cur, d);
    if d < 4 {
      var s1 := ScanOne(width, height, walls, s, cur, d);
      var r := ScanFrom(width, height, walls, s1, cur, d + 1);
      ScanFresh(width, height, walls, s1, cur, d + 1);
      ScanPrefix(width, height, walls, s1, cur, d + 1);
      if s1 != s {
        var n := Neighbor(cur, d);
        assert s1.queue == s.queue + [n] && s1.parents.Keys == s.parents.Keys + {n};
        assert r.queue[|s.queue|] == r.queue[..|s1.queue|][|s.queue|] == n;
        hide ScanOne, ScanFrom;
        forall i | |s.queue| <= i < |r.queue|
          ensures r.queue[i] !in s.parents && r.queue[i] in r.parents && InBounds(width, height, r.queue[i])
        {
        }
        forall i, j | |s.queue| <= i < j < |r.queue| ensures r.queue[i] != r.queue[j] {
          if i == |s.queue| { assert r.queue[j] !in s1.parents; }
        }
      }
    }
  }

  /** The cells still unseen shrink by as many as the scan enqueues. */
  lemma {:induction false} ScanCount(width: int, height: int, walls: Walls, s: Bfs, cur: Cell, d: nat)
    requires cur in walls && |walls[cur]| == 4 && cur in s.dist && d <= 4
    requires s.dist.Keys == s.parents.Keys
    ensures var r := ScanFrom(width, height, walls, s, cur, d);
      && |s.queue| <= |r.queue|
      && |Grid(width, height) - r.parents.Keys| + (|r.queue| - |s.queue|) == |Grid(width, height) - s.parents.Keys|
    decreases 4 - d
  {
    if d < 4 {
      var s1 := ScanOne(width, height, walls, s, cur, d);
      ScanCount(width, height, walls, s1, cur, d + 1);
      if s1 != s {
        var n := Neighbor(cur, d);
        var g := Grid(width, height);
        InGrid(width, height, n);
        assert g - s1.parents.Keys == (g - s.parents.Keys) - {n};
      }
    }
  }

  /** The state before the first resumption: the queue holds the start, which has no parent. */
  function Init(start: Cell): Bfs
  {
    Bfs([start], map[start := None], map[start := 0], Start)
  }

  lemma InitOk(width: int, height: int, walls: Walls, start: Cell, goal: Cell)
    requires InBounds(width, height, start)
    ensures SolverOk(width, height, walls, start, goal, Init(start))
  {
  }

  /**
   * Rebuilding the path keeps the state one the solver can reach, and fails
   * on the missing key exactly when `goal` is not in `came_from`.
   */
  lemma FinishOk(width: int, height: int, walls: Walls, start: Cell, goal: Cell, s: Bfs, frontier: seq<Cell>)
    requires BfsInv(width, height, walls, start, frontier, s.parents, s.dist)
    ensures SolverOk(width, height, walls, start, goal, Finish(width, height, walls, start, goal, s).0)
    ensures Finish(width, height, walls, start, goal, s).1 == MissingKey <==> goal !in s.parents
    ensures goal in s.parents ==> Finish(width, height, walls, start, goal, s).1 == PathCell(start)
  {
    if goal in s.parents {
      TracedPathIsShortest(width, height, walls, start, frontier, s.parents, s.dist, goal);
    }
  }

  /** No walk along open passages leads from `start` to `goal`. */
  ghost predicate Unreachable(width: int, height: int, walls: Walls, start: Cell, goal: Cell)
  {
    forall p | IsWalk(width, height, walls, p) && p[0] == start :: p[|p| - 1] != goal
  }

  /**
   * Taking the next cell off the queue keeps the state one the solver can
   * reach; with the queue drained the search raises the missing key exactly
   * when `goal` cannot be reached.
   */
  lemma DequeueOk(width: int, height: int, walls: Walls, start: Cell, goal: Cell, s: Bfs)
    requires BfsInv(width, height, walls, start, s.queue, s.parents, s.dist)
    ensures SolverOk(width, height, walls, start, goal, Dequeue(width, height, walls, start, goal, s).0)
    ensures Dequeue(width, height, walls, start, goal, s).1 == MissingKey <==>
      s.queue == [] && Unreachable(width, height, walls, start, goal)
  {
    if s.queue != [] {
      assert [s.queue[0]] + s.queue[1..] == s.queue;
    } else {
      FinishOk(width, height, walls, start, goal, s, []);
      if goal in s.parents {
        TraceIsWalk(width, height, walls, start, s.parents, s.dist, goal);
      } else {
        ClosedWhenDrained(width, height, walls, start, s.parents, s.dist, goal);
      }
    }
  }

  /**
   * One resumption keeps the state one the solver can reach (so every path
   * it reports is a shortest walk from the entrance to the exit), and it
   * raises the missing key only when the exit cannot be reached.
   */
  lemma SolveStepOk(width: int, height: int, walls: Walls, start: Cell, goal: Cell, s: Bfs)
    requires WellFormed(width, height, walls) && SolverOk(width, height, walls, start, goal, s)
    ensures SolverOk(width, height, walls, start, goal, SolveStep(width, height, walls, start, goal, s).0)
    ensures SolveStep(width, height, walls, start, goal, s).1 == MissingKey ==> Unreachable(width, height, walls, start, goal)
  {
    match s.phase
    case Start =>
      DequeueOk(width, height, walls, start, goal, s);
    case Pending(cur) =>
      if cur == goal {
        assert ([cur] + s.queue)[0] == cur;
        FinishOk(width, height, walls, start, goal, s, [cur] + s.queue);
      } else {
        var s' := ScanAfter(width, height, walls, start, s, cur);
        DequeueOk(width, height, walls, start, goal, s');
      }
    case Tracing(_, _) =>
    case Stopped =>
  }

  /** The scan of the head `cur` in all four directions, after which `cur` leaves the frontier. */
  lemma ScanAfter(width: int, height: int, walls: Walls, start: Cell, s: Bfs, cur: Cell) returns (r: Bfs)
    requires WellFormed(width, height, walls)
    requires BfsInv(width, height, walls, start, [cur] + s.queue, s.parents, s.dist)
    ensures cur in walls && cur in s.dist
    ensures r == ScanFrom(width, height, walls, s, cur, 0)
    ensures BfsInv(width, height, walls, start, r.queue, r.parents, r.dist)
  {
    assert ([cur] + s.queue)[0] == cur;
    InGrid(width, height, cur);
    r := ScanFrom(width, height, walls, s, cur, 0);
    ScanKeepsInv(width, height, walls, start, s, cur, 0);
    ScanDiscovers(width, height, walls, s, cur, 0);
    forall b | Passage(width, height, walls, cur, b) ensures b in r.parents {
      var e := DirTo(cur, b).value;
    }
    CloseHead(width, height, walls, start, r.queue, r.parents, r.dist, cur);
  }

  /**
   * What is left of the run, ordered lexicographically: whether the search
   * is still under way, then twice the cells never discovered plus the
   * frontier (plus one before the first resumption), or the path cells
   * still to report.
   */
  ghost function Rank(width: int, height: int, s: Bfs): (nat, nat)
  {
    match s.phase
    case Start => (1, 2 * |Grid(width, height) - s.parents.Keys| + |s.queue| + 1)
    case Pending(_) => (1, 2 * |Grid(width, height) - s.parents.Keys| + |s.queue| + 1)
    case Tracing(path, next) => (0, if next <= |path| then |path| - next + 1 else 0)
    case Stopped => (0, 0)
  }

  predicate Below(a: (nat, nat), b: (nat, nat))
  {
    a.0 < b.0 || (a.0 == b.0 && a.1 < b.1)
  }

  /** Every resumption but the final one moves the run strictly forward, so the solver stops. */
  lemma SolveStepProgress(width: int, height: int, walls: Walls, start: Cell, goal: Cell, s: Bfs)
    requires WellFormed(width, height, walls) && SolverOk(width, height, walls, start, goal, s)
    ensures var (s', ev) := SolveStep(width, height, walls, start, goal, s);
      && (ev != Exhausted ==> Below(Rank(width, height, s'), Rank(width, height, s)))
      && (ev == Exhausted ==> s'.phase == Stopped)
  {
    match s.phase
    case Start =>
      DequeueProgress(width, height, walls, start, goal, s);
      assert SolveStep(width, height, walls, start, goal, s) == Dequeue(width, height, walls, start, goal, s);
      hide SolveStep, Dequeue;
    case Pending(cur) =>
      if cur == goal {
        FinishProgress(width, height, walls, start, goal, s);
        assert SolveStep(width, height, walls, start, goal, s) == Finish(width, height, walls, start, goal, s);
        hide SolveStep, Finish;
      } else {
        hide SolveStep;
        ScanProgress(width, height, walls, start, goal, s, cur);
      }
    case Tracing(_, _) =>
    case Stopped =>
  }

  /** Rebuilding the path ends the search and yields an event. */
  lemma FinishProgress(width: int, height: int, walls: Walls, start: Cell, goal: Cell, s: Bfs)
    requires ParentInv(width, height, walls, start, s.parents, s.dist)
    ensures var (s', ev) := Finish(width, height, walls, start, goal, s);
      ev != Exhausted && Rank(width, height, s').0 == 0
  {
  }

  /** Taking the next cell off the queue, or ending the search, yields an event and moves the run forward. */
  lemma DequeueProgress(width: int, height: int, walls: Walls, start: Cell, goal: Cell, s: Bfs)
    requires ParentInv(width, height, walls, start, s.parents, s.dist)
    ensures var (s', ev) := Dequeue(width, height, walls, start, goal, s);
      && ev != Exhausted
      && Below(Rank(width, height, s'), (1, 2 * |Grid(width, height) - s.parents.Keys| + |s.queue| + 1))
  {
    if s.queue == [] {
      FinishProgress(width, height, walls, start, goal, s);
    }
  }

  /** The scan of a cell other than the exit, and the dequeue after it, move the run forward. */
  lemma ScanProgress(width: int, height: int, walls: Walls, start: Cell, goal: Cell, s: Bfs, cur: Cell)
    requires WellFormed(width, height, walls) && s.phase == Pending(cur) && cur != goal
    requires BfsInv(width, height, walls, start, [cur] + s.queue, s.parents, s.dist)
    ensures SolverOk(width, height, walls, start, goal, s)
    ensures SolveStep(width, height, walls, start, goal, s).1 != Exhausted
    ensures Below(Rank(width, height, SolveStep(width, height, walls, start, goal, s).0), Rank(width, height, s))
  {
    var r := ScanAfter(width, height, walls, start, s, cur);
    ScanCount(width, height, walls, s, cur, 0);
    DequeueProgress(width, height, walls, start, goal, r);
    assert SolveStep(width, height, walls, start, goal, s) == Dequeue(width, height, walls, start, goal, r);
    hide BfsInv, SolveStep, ScanFrom, Dequeue;
    var g := Grid(width, height);
    assert |g - r.parents.Keys| + (|r.queue| - |s.queue|) == |g - s.parents.Keys|;
  }

  /**
   * With the entrance as the exit, the solver reports one visit and then
   * the one-cell path, and stops.
   */
  lemma StartIsGoal(width: int, height: int, walls: Walls, start: Cell)
    requires WellFormed(width, height, walls) && InBounds(width, height, start)
    ensures SolverOk(width, height, walls, start, start, Init(start))
    ensures var (s1, e1) := SolveStep(width, height, walls, start, start, Init(start));
      && e1 == Visit(start) && SolverOk(width, height, walls, start, start, s1)
      && var (s2, e2) := SolveStep(width, height, walls, start, start, s1);
      && e2 == PathCell(start) && s2.phase == Tracing([start], 1)
      && SolverOk(width, height, walls, start, start, s2)
      && SolveStep(width, height, walls, start, start, s2).1 == Exhausted
  {
    var s1 := SolveStep(width, height, walls, start, start, Init(start)).0;
    SolveStepOk(width, height, walls, start, start, Init(start));
    assert s1.phase == Pending(start) && s1.parents == map[start := None];
    SolveStepOk(width, height, walls, start, start, s1);
    assert TraceBack(width, height, walls, start, s1.parents, s1.dist, start) == [start];
  }
}
