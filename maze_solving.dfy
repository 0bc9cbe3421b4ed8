/**
 * The breadth-first solver of `MazeSolver.solve_gen`, as a resumable
 * generator: each call of `Step` runs the source's generator up to its next
 * `yield` and returns the event it yields. The solver reads the maze and
 * never writes it.
 */
module MazeSolving {
  import opened Util
  import opened MazeGrid
  import opened BfsTree
  import opened BfsSearch
  import CarveTree

  /** The generator of `solve_gen`: its queue, `came_from` and where it stands. */
  class Solver {
    const maze: Maze
    var queue: seq<Cell>
    var cameFrom: Parents
    var phase: Phase
    ghost var dist: map<Cell, nat>  // search depth of every cell in `cameFrom`

    /** The state of the search, as a value. */
    ghost function State(): Bfs
      reads this
    {
      Bfs(queue, cameFrom, dist, phase)
    }

    /** The search invariant holds while searching; a reported path is a shortest walk from entrance to exit. */
    ghost predicate Valid()
      reads this, maze
    {
      && maze.Valid()
      && SolverOk(maze.width, maze.height, maze.walls, maze.entrance, maze.exit, State())
    }

    /** The local state `solve_gen` sets up before its loop: the entrance alone in the queue and in `came_from`. */
    constructor (maze: Maze)
      requires maze.Valid()
      ensures this.maze == maze && Valid()
      ensures State() == Init(maze.entrance)
    {
      this.maze := maze;
      queue := [maze.entrance];
      cameFrom := map[maze.entrance := None];
      dist := map[maze.entrance := 0];
      phase := Start;
      new;
      InitOk(maze.width, maze.height, maze.walls, maze.entrance, maze.exit);
    }

    /** Resumes the search for one event. */
    method Step() returns (ev: SolveEvent)
      requires Valid()
      modifies this
      ensures Valid() && unchanged(maze)
      ensures (State(), ev) == SolveStep(maze.width, maze.height, maze.walls, maze.entrance, maze.exit, old(State()))
    {
      SolveStepOk(maze.width, maze.height, maze.walls, maze.entrance, maze.exit, State());
      match phase
      case Stopped =>
        ev := Exhausted;
      case Tracing(path, next) =>
        if next < |path| {
          phase := Tracing(path, next + 1);
          ev := PathCell(path[next]);
        } else {
          phase := Stopped;
          ev := Exhausted;
        }
      case Start =>
        ev := Dequeue();
      case Pending(cur) =>
        if cur == maze.exit {
          ev := Finish();
        } else {
          ghost var s := ScanAfter(maze.width, maze.height, maze.walls, maze.entrance, State(), cur);
          Expand(cur);
          ev := Dequeue();
        }
    }

    /** Takes the next cell off the queue and reports it, or ends the search when the queue is empty. */
    method Dequeue() returns (ev: SolveEvent)
      requires maze.Valid()
      requires ParentInv(maze.width, maze.height, maze.walls, maze.entrance, cameFrom, dist)
      modifies this
      ensures (State(), ev) == BfsSearch.Dequeue(maze.width, maze.height, maze.walls, maze.entrance, maze.exit, old(State()))
    {
      if queue != [] {
        var c := queue[0];
        queue := queue[1..];
        phase := Pending(c);
        return Visit(c);
      }
      ev := Finish();
    }

    /** Scans the four neighbours of `cur` in the fixed order top, right, bottom, left. */
    method Expand(cur: Cell)
      requires maze.Valid() && cur in maze.walls && cur in dist
      modifies this
      ensures State() == ScanFrom(maze.width, maze.height, maze.walls, old(State()), cur, 0)
    {
      for i := 0 to 4
        invariant cur in dist && phase == old(phase)
        invariant ScanFrom(maze.width, maze.height, maze.walls, old(State()), cur, 0)
                  == ScanFrom(maze.width, maze.height, maze.walls, State(), cur, i)
      {
        ghost var before := State();
        var p := Probes[i];
        ProbeIsNeighbor(cur, i);
        if !maze.walls[cur][p.w] {
          var n := Cell(cur.x + p.dx, cur.y + p.dy);
          if 0 <= n.x < maze.width && 0 <= n.y < maze.height && n !in cameFrom {
            cameFrom := cameFrom[n := Some(cur)];
            queue := queue + [n];
            dist := dist[n := dist[cur] + 1];
          }
        }
        assert State() == ScanOne(maze.width, maze.height, maze.walls, before, cur, i);
      }
    }

    /** Rebuilds the path to the exit and reports its first cell, or stops on the missing key. */
    method Finish() returns (ev: SolveEvent)
      requires ParentInv(maze.width, maze.height, maze.walls, maze.entrance, cameFrom, dist)
      modifies this
      ensures (State(), ev) == BfsSearch.Finish(maze.width, maze.height, maze.walls, maze.entrance, maze.exit, old(State()))
    {
      var trace := Reconstruct();
      match trace
      case None =>
        phase := Stopped;
        ev := MissingKey;
      case Some(t) =>
        var path := Reversed(t);
        phase := Tracing(path, 1);
        ev := PathCell(path[0]);
    }

    /**
     * Follows `came_from` from the exit until the entrance's `None`: the
     * cells from the exit back to the entrance, or `None` where the lookup
     * of the exit raises `KeyError`.
     */
    method Reconstruct() returns (trace: Option<seq<Cell>>)
      requires ParentInv(maze.width, maze.height, maze.walls, maze.entrance, cameFrom, dist)
      ensures trace.None? <==> maze.exit !in cameFrom
      ensures trace.Some? ==>
        trace.value == TraceBack(maze.width, maze.height, maze.walls, maze.entrance, cameFrom, dist, maze.exit)
    {
      if maze.exit !in cameFrom {
        // the first lookup, `came_from[goal]`, raises; every later one is of a parent, which is a key
        return None;
      }
      var path: seq<Cell> := [];
      var node: Option<Cell> := Some(maze.exit);
      while node.Some?
        invariant path == [] ==> node == Some(maze.exit)
        invariant path != [] ==> Chain(cameFrom, path) && path[0] == maze.exit && node == cameFrom[path[|path| - 1]]
        invariant node.Some? ==> node.value in cameFrom
        decreases if node.Some? then dist[node.value] + 1 else 0
      {
        var c := node.value;
        path := path + [c];
        node := cameFrom[c];
      }
      ChainIsTrace(maze.width, maze.height, maze.walls, maze.entrance, cameFrom, dist, path);
      return Some(path);
    }
  }

  /**
   * Generator then solver: on the walls of a finished carving, with the exit
   * inside the grid, no resumption of the solver raises `KeyError`.
   */
  lemma GeneratedMazeSolves(width: int, height: int, entrance: Cell, exit: Cell, s: CarveTree.Search, b: Bfs)
    requires CarveTree.SearchOk(width, height, entrance, s) && s.stack == []
    requires InBounds(width, height, exit) && WellFormed(width, height, s.walls)
    requires SolverOk(width, height, s.walls, entrance, exit, b)
    ensures SolveStep(width, height, s.walls, entrance, exit, b).1 != MissingKey
  {
    CarveTree.SearchComplete(width, height, entrance, s);
    SolveStepOk(width, height, s.walls, entrance, exit, b);
    var p :| IsWalk(width, height, s.walls, p) && p[0] == entrance && p[|p| - 1] == exit;
  }
}
