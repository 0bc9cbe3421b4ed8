/**
 * The breadth-first search of `MazeSolver.solve_gen`, on plain values: the
 * `came_from` parent map with the search depth of every discovered cell, the
 * frontier shape, the invariant the search keeps, and the facts that make
 * its path a shortest one.
 */
module BfsTree {
  import opened Util
  import opened MazeGrid

  /** The `came_from` map: the start maps to `None`, every other cell to the cell it was reached from. */
  type Parents = map<Cell, Option<Cell>>

  /**
   * The parent map is a tree rooted at `start` over in-bounds cells: each
   * other discovered cell hangs below a discovered cell one level up, from
   * which a passage leads to it.
   */
  ghost predicate ParentInv(width: int, height: int, walls: Walls, start: Cell, parents: Parents, dist: map<Cell, nat>)
  {
    && start in parents && parents[start] == None
    && dist.Keys == parents.Keys
    && dist[start] == 0
    && (forall c | c in parents :: InBounds(width, height, c))
    && (forall c | c in parents && c != start ::
          && parents[c].Some? && parents[c].value in parents
          && dist[c] == dist[parents[c].value] + 1
          && Passage(width, height, walls, parents[c].value, c))
  }

  /**
   * The frontier (the cell being expanded, then the queue) is discovered,
   * ordered by depth, and no discovered cell is more than one level deeper
   * than its head.
   */
  ghost predicate FrontierShape(frontier: seq<Cell>, dist: map<Cell, nat>)
  {
    && (forall i | 0 <= i < |frontier| :: frontier[i] in dist)
    && (forall i, j | 0 <= i <= j < |frontier| :: dist[frontier[i]] <= dist[frontier[j]])
    && (frontier != [] ==> forall c | c in dist :: dist[c] <= dist[frontier[0]] + 1)
  }

  /**
   * The breadth-first invariant: the parent tree, the frontier shape, every
   * passage out of a discovered cell off the frontier leads to a discovered
   * cell, and a passage between discovered cells climbs at most one level.
   */
  ghost predicate BfsInv(width: int, height: int, walls: Walls, start: Cell, frontier: seq<Cell>,
                         parents: Parents, dist: map<Cell, nat>)
  {
    && ParentInv(width, height, walls, start, parents, dist)
    && FrontierShape(frontier, dist)
    && (forall a, b | a in parents && a !in frontier && Passage(width, height, walls, a, b) :: b in parents)
    && (forall a, b | a in parents && b in parents && Passage(width, height, walls, a, b) :: dist[b] <= dist[a] + 1)
  }

  /**
   * Along a walk from the start, the cell entered after `i` hops, when it is
   * discovered, lies at most `i` levels down; when it is not, the frontier is
   * not empty and its head lies fewer than `i` levels down.
   */
  lemma {:induction false} WalkBound(width: int, height: int, walls: Walls, start: Cell, frontier: seq<Cell>,
                                     parents: Parents, dist: map<Cell, nat>, p: seq<Cell>, i: nat)
    requires BfsInv(width, height, walls, start, frontier, parents, dist)
    requires IsWalk(width, height, walls, p) && p[0] == start && i < |p|
    ensures p[i] in parents ==> dist[p[i]] <= i
    ensures p[i] !in parents ==> frontier != [] && dist[frontier[0]] + 1 <= i
    decreases i
  {
    if i > 0 {
      WalkBound(width, height, walls, start, frontier, parents, dist, p, i - 1);
      var a, b := p[i - 1], p[i];
      assert Passage(width, height, walls, a, b);
      if a in parents && b !in parents {
        var k :| 0 <= k < |frontier| && frontier[k] == a;
        assert dist[frontier[0]] <= dist[frontier[k]];
      }
    }
  }

  /** A walk from the start to a discovered cell is at least as long as its depth. */
  lemma DepthIsShortest(width: int, height: int, walls: Walls, start: Cell, frontier: seq<Cell>,
                        parents: Parents, dist: map<Cell, nat>, c: Cell)
    requires BfsInv(width, height, walls, start, frontier, parents, dist) && c in parents
    ensures forall p | IsWalk(width, height, walls, p) && p[0] == start && p[|p| - 1] == c :: dist[c] <= |p| - 1
  {
    forall p | IsWalk(width, height, walls, p) && p[0] == start && p[|p| - 1] == c
      ensures dist[c] <= |p| - 1
    {
      WalkBound(width, height, walls, start, frontier, parents, dist, p, |p| - 1);
    }
  }

  /** With the frontier empty, every walk from the start stays among the discovered cells. */
  lemma ClosedWhenDrained(width: int, height: int, walls: Walls, start: Cell,
                          parents: Parents, dist: map<Cell, nat>, c: Cell)
    requires BfsInv(width, height, walls, start, [], parents, dist) && c !in parents
    ensures forall p | IsWalk(width, height, walls, p) && p[0] == start :: p[|p| - 1] != c
  {
    forall p | IsWalk(width, height, walls, p) && p[0] == start
      ensures p[|p| - 1] != c
    {
      WalkBound(width, height, walls, start, [], parents, dist, p, |p| - 1);
    }
  }

  /** The cells from `c` back to the start along parent pointers, `c` first. */
  ghost function TraceBack(width: int, height: int, walls: Walls, start: Cell, parents: Parents,
                           dist: map<Cell, nat>, c: Cell): (r: seq<Cell>)
    requires ParentInv(width, height, walls, start, parents, dist) && c in parents
    ensures |r| == dist[c] + 1 && r[0] == c && r[|r| - 1] == start
    ensures forall i | 0 <= i < |r| :: r[i] in parents
    ensures forall i | 0 <= i < |r| - 1 :: parents[r[i]] == Some(r[i + 1])
    decreases dist[c]
  {
    if c == start then [c]
    else [c] + TraceBack(width, height, walls, start, parents, dist, parents[c].value)
  }

  /** `p` follows parent pointers: each of its cells is discovered and has the next one as its parent. */
  ghost predicate Chain(parents: Parents, p: seq<Cell>)
  {
    && |p| >= 1
    && (forall i | 0 <= i < |p| :: p[i] in parents)
    && (forall i | 0 <= i < |p| - 1 :: parents[p[i]] == Some(p[i + 1]))
  }

  /** A chain of parent pointers that ends at a cell without a parent is the traced chain of its first cell. */
  lemma {:induction false} ChainIsTrace(width: int, height: int, walls: Walls, start: Cell, parents: Parents,
                                        dist: map<Cell, nat>, p: seq<Cell>)
    requires ParentInv(width, height, walls, start, parents, dist)
    requires Chain(parents, p) && parents[p[|p| - 1]] == None
    ensures p == TraceBack(width, height, walls, start, parents, dist, p[0])
    decreases |p|
  {
    if |p| > 1 {
      assert Chain(parents, p[1..]);
      ChainIsTrace(width, height, walls, start, parents, dist, p[1..]);
      assert p == [p[0]] + p[1..];
    }
  }

  /** A path along a walk, from `start` to `goal`, no longer than any other. */
  ghost predicate ShortestWalk(width: int, height: int, walls: Walls, start: Cell, goal: Cell, path: seq<Cell>)
  {
    && IsWalk(width, height, walls, path) && path[0] == start && path[|path| - 1] == goal
    && forall p | IsWalk(width, height, walls, p) && p[0] == start && p[|p| - 1] == goal :: |path| <= |p|
  }

  /** The reversed parent chain of a discovered cell is a walk from the start to it. */
  lemma {:induction false} TraceIsWalk(width: int, height: int, walls: Walls, start: Cell,
                                       parents: Parents, dist: map<Cell, nat>, c: Cell)
    requires ParentInv(width, height, walls, start, parents, dist) && c in parents
    ensures var path := Reversed(TraceBack(width, height, walls, start, parents, dist, c));
      IsWalk(width, height, walls, path) && path[0] == start && path[|path| - 1] == c
    decreases dist[c]
  {
    var t := TraceBack(width, height, walls, start, parents, dist, c);
    if c != start {
      var p := parents[c].value;
      var tp := TraceBack(width, height, walls, start, parents, dist, p);
      TraceIsWalk(width, height, walls, start, parents, dist, p);
      assert t[1..] == tp;
      assert Reversed(t) == Reversed(tp) + [c];
      WalkExtend(width, height, walls, Reversed(tp), c);
    }
  }

  /** A walk followed by one more passage is a walk. */
  lemma WalkExtend(width: int, height: int, walls: Walls, p: seq<Cell>, c: Cell)
    requires IsWalk(width, height, walls, p) && Passage(width, height, walls, p[|p| - 1], c)
    ensures IsWalk(width, height, walls, p + [c]) && (p + [c])[0] == p[0]
  {
    var q := p + [c];
    forall i | 0 <= i < |q| - 1 ensures Passage(width, height, walls, q[i], q[i + 1]) {
      if i < |p| - 1 { assert q[i] == p[i] && q[i + 1] == p[i + 1]; }
    }
  }

  /** The reversed parent chain of a discovered cell is a shortest walk from the start to it. */
  lemma TracedPathIsShortest(width: int, height: int, walls: Walls, start: Cell, frontier: seq<Cell>,
                             parents: Parents, dist: map<Cell, nat>, c: Cell)
    requires BfsInv(width, height, walls, start, frontier, parents, dist) && c in parents
    ensures ShortestWalk(width, height, walls, start, c, Reversed(TraceBack(width, height, walls, start, parents, dist, c)))
  {
    TraceIsWalk(width, height, walls, start, parents, dist, c);
    DepthIsShortest(width, height, walls, start, frontier, parents, dist, c);
  }

  /** Discovering a fresh cell `n` through a passage from the frontier head `cur` keeps the search invariant. */
  lemma DiscoverKeepsInv(width: int, height: int, walls: Walls, start: Cell, queue: seq<Cell>,
                         parents: Parents, dist: map<Cell, nat>, cur: Cell, n: Cell)
    requires BfsInv(width, height, walls, start, [cur] + queue, parents, dist)
    requires Passage(width, height, walls, cur, n) && n !in parents
    ensures BfsInv(width, height, walls, start, [cur] + (queue + [n]), parents[n := Some(cur)], dist[n := dist[cur] + 1])
  {
    assert InBounds(width, height, n);
    DiscoverKeepsShape(width, height, walls, start, queue, parents, dist, cur, n);
    DiscoverKeepsClosure(width, height, walls, start, queue, parents, dist, cur, n);
    DiscoverKeepsSteps(width, height, walls, start, queue, parents, dist, cur, n);
  }

  /** The new cell joins the back of the frontier one level below its head. */
  lemma DiscoverKeepsShape(width: int, height: int, walls: Walls, start: Cell, queue: seq<Cell>,
                           parents: Parents, dist: map<Cell, nat>, cur: Cell, n: Cell)
    requires BfsInv(width, height, walls, start, [cur] + queue, parents, dist)
    requires n !in parents
    ensures FrontierShape([cur] + (queue + [n]), dist[n := dist[cur] + 1])
  {
    hide Passage;
    var f, f' := [cur] + queue, [cur] + (queue + [n]);
    var dist' := dist[n := dist[cur] + 1];
    assert f[0] == cur && f'[0] == cur && f' == f + [n];
    forall i | 0 <= i < |f'| ensures f'[i] in dist' {
      if i < |f| { assert f'[i] == f[i]; }
    }
    forall i, j | 0 <= i <= j < |f'| ensures dist'[f'[i]] <= dist'[f'[j]] {
      if j < |f| {
        assert f'[i] == f[i] && f'[j] == f[j];
        assert f[i] != n && f[j] != n;
      } else if i < |f| {
        assert f'[i] == f[i] != n;
        assert dist[f[i]] <= dist[f[0]] + 1;
      }
    }
  }

  /** Cells off the frontier still have all their passages leading to discovered cells. */
  lemma DiscoverKeepsClosure(width: int, height: int, walls: Walls, start: Cell, queue: seq<Cell>,
                             parents: Parents, dist: map<Cell, nat>, cur: Cell, n: Cell)
    requires BfsInv(width, height, walls, start, [cur] + queue, parents, dist)
    requires n !in parents
    ensures forall a, b | a in parents[n := Some(cur)] && a !in [cur] + (queue + [n]) && Passage(width, height, walls, a, b) ::
      b in parents[n := Some(cur)]
  {
    hide Passage;
    var f, f' := [cur] + queue, [cur] + (queue + [n]);
    var parents' := parents[n := Some(cur)];
    forall a, b | a in parents' && a !in f' && Passage(width, height, walls, a, b)
      ensures b in parents'
    {
      assert a != n;
      assert a !in f by { assert f' == f + [n]; }
    }
  }

  /** A passage between discovered cells still climbs at most one level. */
  lemma DiscoverKeepsSteps(width: int, height: int, walls: Walls, start: Cell, queue: seq<Cell>,
                           parents: Parents, dist: map<Cell, nat>, cur: Cell, n: Cell)
    requires BfsInv(width, height, walls, start, [cur] + queue, parents, dist)
    requires n !in parents
    ensures forall a, b | a in parents[n := Some(cur)] && b in parents[n := Some(cur)] && Passage(width, height, walls, a, b) ::
      dist[n := dist[cur] + 1][b] <= dist[n := dist[cur] + 1][a] + 1
  {
    hide Passage;
    var f := [cur] + queue;
    var parents', dist' := parents[n := Some(cur)], dist[n := dist[cur] + 1];
    assert f[0] == cur;
    forall a, b | a in parents' && b in parents' && Passage(width, height, walls, a, b)
      ensures dist'[b] <= dist'[a] + 1
    {
      if a == n {
        assert dist'[a] == dist[cur] + 1;
      } else if b == n {
        // `a` cannot be off the frontier: it would already have discovered `n`
        assert a in f;
        var k :| 0 <= k < |f| && f[k] == a;
        assert dist[f[0]] <= dist[f[k]];
      }
    }
  }

  /** Once every passage out of the head `cur` leads to a discovered cell, `cur` can leave the frontier. */
  lemma CloseHead(width: int, height: int, walls: Walls, start: Cell, queue: seq<Cell>,
                  parents: Parents, dist: map<Cell, nat>, cur: Cell)
    requires BfsInv(width, height, walls, start, [cur] + queue, parents, dist)
    requires forall b | Passage(width, height, walls, cur, b) :: b in parents
    ensures BfsInv(width, height, walls, start, queue, parents, dist)
  {
    hide Passage;
    var f := [cur] + queue;
    assert forall i | 0 <= i < |queue| :: queue[i] == f[i + 1];
    forall a, b | a in parents && a !in queue && Passage(width, height, walls, a, b)
      ensures b in parents
    {
      if a != cur { assert a !in f; }
    }
    if queue != [] {
      assert dist[f[0]] <= dist[f[1]];
    }
  }
}
