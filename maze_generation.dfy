/**
 * Maze carving by randomised depth-first search (`Maze.generate_gen`), as a
 * resumable generator: each call of `Step` runs the source's loop body once
 * and returns the event the source yields for it.
 */
module MazeGeneration {
  import opened Util
  import opened MazeGrid
  import opened CarveTree

  /** The generator of `Maze.generate_gen`, with its stack and its progress. */
  class Generator {
    const maze: Maze
    var stack: seq<Cell>
    var finished: bool          // the trailing yield has been produced
    ghost var carves: nat       // Carve events so far
    ghost var backtracks: nat   // Backtrack events so far
    ghost var parent: map<Cell, Cell>
    ghost var depth: map<Cell, nat>

    /**
     * The stack is the tree path from the entrance to the current cell, and
     * every visited cell off the stack has no unvisited neighbour left.
     */
    ghost predicate Valid()
      reads this, maze
    {
      && maze.Valid()
      && SearchOk(maze.width, maze.height, maze.entrance, State())
    }

    /** The state of the search, as a value. */
    ghost function State(): Search
      reads this, maze
    {
      Search(maze.walls, maze.visited, stack, parent, depth, carves, backtracks, finished)
    }

    /** Events still to come before the generator stops. */
    ghost function Remaining(): nat
      reads this, maze
      requires Valid()
    {
      VisitedFits();
      2 * (|Grid(maze.width, maze.height)| - |maze.visited|) + |stack| + (if finished then 0 else 1)
    }

    lemma VisitedFits()
      requires maze.Valid()
      requires maze.visited <= maze.walls.Keys
      ensures |maze.visited| <= |Grid(maze.width, maze.height)|
    {
      var g := Grid(maze.width, maze.height);
      assert g == maze.visited + (g - maze.visited);
    }

    /** Starts the search at the entrance of a freshly built maze. */
    constructor (maze: Maze)
      requires maze.Valid() && maze.AllWalled()
      modifies maze
      ensures this.maze == maze && Valid()
      ensures stack == [maze.entrance] && !finished
      ensures maze.visited == {maze.entrance} && maze.walls == old(maze.walls)
      ensures carves == 0 && backtracks == 0
      ensures Remaining() == 2 * (maze.width * maze.height)
    {
      this.maze := maze;
      stack := [maze.entrance];
      finished := false;
      carves, backtracks := 0, 0;
      parent, depth := map[], map[maze.entrance := 0];
      new;
      maze.visited := {maze.entrance};
      GridSize(maze.width, maze.height);
      assert TreeInv(maze.width, maze.height, maze.entrance, maze.walls, maze.visited, parent, depth) by {
        forall c, d: Dir | c in maze.walls ensures maze.walls[c][d] {
          assert maze.walls[c] == [true, true, true, true];
        }
        InGrid(maze.width, maze.height, maze.entrance);
      }
    }

    /** Resumes the search for one event. */
    method Step(order: seq<Dir>) returns (ev: GenEvent)
      requires Valid() && IsShuffle(order)
      modifies this, maze
      ensures Valid()
      ensures ev == Exhausted <==> old(Remaining()) == 0
      ensures Remaining() == if old(Remaining()) == 0 then 0 else old(Remaining()) - 1
      ensures old(finished) ==> ev == Exhausted && State() == old(State())
      ensures !old(finished) && old(stack) == [] ==> ev == Final && State() == old(State()).(finished := true)
      ensures !old(finished) && old(stack) != [] ==>
        var cur := old(stack)[|old(stack)| - 1];
        match FirstFree(maze.width, maze.height, old(maze.visited), cur, order, 0)
        case Some(j) =>
          && ev == Carve(cur, Neighbor(cur, order[j]))
          && cur in old(maze.walls) && Neighbor(cur, order[j]) in old(maze.walls)
          && State() == CarveStep(old(State()), order[j])
        case None =>
          && ev == Backtrack(cur)
          && State() == BacktrackStep(old(State()))
    {
      if finished {
        SearchCovers(maze.width, maze.height, maze.entrance, State());
        return Exhausted;
      }
      if stack == [] {
        SearchCovers(maze.width, maze.height, maze.entrance, State());
        finished := true;
        return Final;
      }
      ev := Advance(order);
    }

    /** One pass of the loop body: carve from the top of the stack, or pop it. */
    method Advance(order: seq<Dir>) returns (ev: GenEvent)
      requires Valid() && IsShuffle(order) && !finished && stack != []
      modifies this, maze
      ensures Valid()
      ensures Remaining() == old(Remaining()) - 1
      ensures var cur := old(stack)[|old(stack)| - 1];
        match FirstFree(maze.width, maze.height, old(maze.visited), cur, order, 0)
        case Some(j) =>
          && ev == Carve(cur, Neighbor(cur, order[j]))
          && cur in old(maze.walls) && Neighbor(cur, order[j]) in old(maze.walls)
          && State() == CarveStep(old(State()), order[j])
        case None =>
          && ev == Backtrack(cur)
          && State() == BacktrackStep(old(State()))
    {
      var cur := stack[|stack| - 1];
      var found := Scan(order);
      FirstFreeSpec(maze.width, maze.height, maze.visited, cur, order, 0);
      if found.Some? {
        // knock the wall down on both sides, then descend
        KnockDown(order[found.value]);
        return Carve(cur, Neighbor(cur, order[found.value]));
      }
      // no free neighbour: go back
      assert forall d: Dir :: !Free(maze.width, maze.height, maze.visited, cur, d) by {
        forall d: Dir ensures !Free(maze.width, maze.height, maze.visited, cur, d) {
          assert d in multiset(order);
        }
      }
      Pop();
      return Backtrack(cur);
    }

    /**
     * The scan over the shuffled candidates from the top of the stack: the
     * position in `order` of the first one leading to an unvisited cell
     * inside the grid, if any.
     */
    method Scan(order: seq<Dir>) returns (found: Option<nat>)
      requires stack != [] && |order| == 4
      ensures found == FirstFree(maze.width, maze.height, maze.visited, stack[|stack| - 1], order, 0)
    {
      var cur := stack[|stack| - 1];
      var i := 0;
      while i < 4
        invariant 0 <= i <= 4
        invariant FirstFree(maze.width, maze.height, maze.visited, cur, order, 0)
                  == FirstFree(maze.width, maze.height, maze.visited, cur, order, i)
      {
        var cand := Candidates[order[i]];
        var n := Cell(cur.x + cand.dx, cur.y + cand.dy);
        CandidateIsNeighbor(cur, order[i]);
        if 0 <= n.x < maze.width && 0 <= n.y < maze.height && n !in maze.visited {
          return Some(i);
        }
        i := i + 1;
      }
      return None;
    }

    /** The carving branch of the loop body, towards direction `k`. */
    method KnockDown(k: Dir)
      requires Valid() && !finished && stack != []
      requires Free(maze.width, maze.height, maze.visited, stack[|stack| - 1], k)
      modifies this, maze
      ensures Valid()
      ensures State() == CarveStep(old(State()), k)
      ensures Remaining() == old(Remaining()) - 1
    {
      hide SearchOk;
      var cur := stack[|stack| - 1];
      var cand := Candidates[k];
      var n := Cell(cur.x + cand.dx, cur.y + cand.dy);
      CandidateIsNeighbor(cur, k);
      CarveStepOk(maze.width, maze.height, maze.entrance, State(), k);
      ghost var s := CarveStep(State(), k);
      maze.walls := Knock(maze.walls, cur, cand.w);
      maze.visited, stack := maze.visited + {n}, stack + [n];
      carves, parent, depth := s.carves, s.parent, s.depth;
      assert State() == s;
    }

    /** The backtracking branch: the top cell has no free neighbour. */
    method Pop()
      requires Valid() && !finished && stack != []
      requires var cur := stack[|stack| - 1]; forall d: Dir :: !Free(maze.width, maze.height, maze.visited, cur, d)
      modifies this
      ensures Valid()
      ensures State() == BacktrackStep(old(State()))
      ensures Remaining() == old(Remaining()) - 1
    {
      hide SearchOk;
      BacktrackStepOk(maze.width, maze.height, maze.entrance, State(), stack[|stack| - 1]);
      stack := stack[..|stack| - 1];
      backtracks := backtracks + 1;
      assert State() == BacktrackStep(old(State()));
    }
  }
}
