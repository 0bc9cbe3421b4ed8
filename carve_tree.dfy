/**
 * The invariants of the depth-first carving of `Maze.generate_gen`, on plain
 * values: the scan candidates, the wall update of one carve, the carving
 * tree and the stack discipline, with the lemmas that each carve and each
 * backtrack keeps them.
 */
module CarveTree {
  import opened Util
  import opened MazeGrid

  /**
   * A scan candidate: the offset to the neighbour, the wall index on the
   * current cell (`w`) and on the neighbour (`ow`).
   */
  datatype Candidate = Candidate(dx: int, dy: int, w: Dir, ow: Dir)

  /** The candidate list in the order it is written before shuffling. */
  const Candidates: seq<Candidate> :=
    [Candidate(0, -1, 0, 2), Candidate(1, 0, 1, 3), Candidate(0, 1, 2, 0), Candidate(-1, 0, 3, 1)]

  lemma CandidateIsNeighbor(c: Cell, k: Dir)
    ensures Candidates[k].w == k && Candidates[k].ow == Opposite(k)
    ensures Cell(c.x + Candidates[k].dx, c.y + Candidates[k].dy) == Neighbor(c, k)
  {
  }

  /** One outcome of shuffling the four candidates: the candidate indices in scan order. */
  predicate IsShuffle(order: seq<Dir>)
  {
    |order| == 4 && multiset(order) == multiset{0, 1, 2, 3}
  }

  /** What one resumption of the generator does. */
  datatype GenEvent =
    | Carve(from: Cell, to: Cell)   // a wall knocked down, `to` pushed
    | Backtrack(cell: Cell)         // `cell` popped
    | Final                         // the yield after the loop
    | Exhausted                     // the generator has stopped

  /** Direction `d` of `cur` leads to an in-bounds cell not yet visited. */
  predicate Free(width: int, height: int, visited: set<Cell>, cur: Cell, d: Dir)
  {
    InBounds(width, height, Neighbor(cur, d)) && Neighbor(cur, d) !in visited
  }

  /**
   * The position in `order`, from `from` on, of the first candidate the scan
   * carves towards, if any.
   */
  function FirstFree(width: int, height: int, visited: set<Cell>, cur: Cell, order: seq<Dir>, from: nat): (r: Option<nat>)
    requires from <= |order|
    ensures r.Some? ==> from <= r.value < |order|
    decreases |order| - from
  {
    if from == |order| then None
    else if Free(width, height, visited, cur, order[from]) then Some(from)
    else FirstFree(width, height, visited, cur, order, from + 1)
  }

  /**
   * The scan finds a position exactly when some candidate from `from` on is
   * free, and then the first free one.
   */
  lemma {:induction false} FirstFreeSpec(width: int, height: int, visited: set<Cell>, cur: Cell, order: seq<Dir>, from: nat)
    requires from <= |order|
    ensures var r := FirstFree(width, height, visited, cur, order, from);
      && (r.Some? ==> Free(width, height, visited, cur, order[r.value]))
      && (r.Some? ==> forall j | from <= j < r.value :: !Free(width, height, visited, cur, order[j]))
      && (r.None? <==> forall j | from <= j < |order| :: !Free(width, height, visited, cur, order[j]))
    decreases |order| - from
  {
    if from < |order| && !Free(width, height, visited, cur, order[from]) {
      FirstFreeSpec(width, height, visited, cur, order, from + 1);
    }
  }

  /**
   * The wall table after knocking down the wall between `a` and its
   * neighbour in direction `d`: the flag `d` of `a` and the opposite flag of
   * the neighbour are cleared, and nothing else changes.
   */
  function Knock(walls: Walls, a: Cell, d: Dir): (r: Walls)
    requires a in walls && Neighbor(a, d) in walls
    requires forall c | c in walls :: |walls[c]| == 4
    ensures r.Keys == walls.Keys
    ensures forall c | c in r :: |r[c]| == 4
    ensures forall c, e: Dir | c in r ::
      r[c][e] == (walls[c][e] && !((c == a && e == d) || (c == Neighbor(a, d) && e == Opposite(d))))
  {
    var b := Neighbor(a, d);
    NeighborBack(a, d);
    walls[a := walls[a][d := false]][b := walls[b][Opposite(d) := false]]
  }

  /** Every wall is seen alike from both of its sides, and the border is intact. */
  ghost predicate Symmetric(width: int, height: int, walls: Walls)
  {
    && (forall c | c in walls :: |walls[c]| == 4)
    && forall c, d: Dir | c in walls ::
         if InBounds(width, height, Neighbor(c, d))
         then Neighbor(c, d) in walls && walls[c][d] == walls[Neighbor(c, d)][Opposite(d)]
         else walls[c][d]
  }

  /** Knocking down one wall pair keeps the table symmetric. */
  lemma KnockKeepsSymmetry(width: int, height: int, walls: Walls, a: Cell, d: Dir)
    requires WellFormed(width, height, walls) && Symmetric(width, height, walls)
    requires InBounds(width, height, a) && InBounds(width, height, Neighbor(a, d))
    ensures Symmetric(width, height, Knock(walls, a, d))
  {
    InGrid(width, height, a);
    InGrid(width, height, Neighbor(a, d));
    var r := Knock(walls, a, d);
    forall c, e: Dir | c in r
      ensures if InBounds(width, height, Neighbor(c, e))
              then Neighbor(c, e) in r && r[c][e] == r[Neighbor(c, e)][Opposite(e)]
              else r[c][e]
    {
      InGrid(width, height, Neighbor(c, e));
      NeighborBack(c, e);
      NeighborBack(a, d);
    }
  }

  /** `a` -- `b` is an edge of the carving tree recorded in `parent`. */
  ghost predicate TreeEdge(parent: map<Cell, Cell>, a: Cell, b: Cell)
  {
    (b in parent && parent[b] == a) || (a in parent && parent[a] == b)
  }

  /**
   * The carving so far is a tree rooted at the entrance: each visited cell
   * other than the entrance hangs below the adjacent cell it was carved from,
   * one level deeper, and the cleared walls are exactly the tree's edges.
   */
  ghost predicate TreeInv(width: int, height: int, entrance: Cell, walls: Walls, visited: set<Cell>,
                          parent: map<Cell, Cell>, depth: map<Cell, nat>)
  {
    && WellFormed(width, height, walls)
    && entrance in visited
    && visited <= walls.Keys
    && parent.Keys == visited - {entrance}
    && depth.Keys == visited
    && depth[entrance] == 0
    && (forall c | c in parent ::
          parent[c] in visited && depth[c] == depth[parent[c]] + 1 && DirTo(parent[c], c).Some?)
    && (forall c, d: Dir | c in walls :: !walls[c][d] <==> TreeEdge(parent, c, Neighbor(c, d)))
  }

  /** Carving from a visited cell into a fresh neighbour grows the tree by one edge. */
  lemma CarveKeepsTree(width: int, height: int, entrance: Cell, walls: Walls, visited: set<Cell>,
                       parent: map<Cell, Cell>, depth: map<Cell, nat>, cur: Cell, d: Dir)
    requires TreeInv(width, height, entrance, walls, visited, parent, depth)
    requires cur in visited && Free(width, height, visited, cur, d)
    ensures TreeInv(width, height, entrance, Knock(walls, cur, d), visited + {Neighbor(cur, d)},
                    parent[Neighbor(cur, d) := cur], depth[Neighbor(cur, d) := depth[cur] + 1])
  {
    var n := Neighbor(cur, d);
    InGrid(width, height, n);
    NeighborBack(cur, d);
    var walls', visited' := Knock(walls, cur, d), visited + {n};
    var parent', depth' := parent[n := cur], depth[n := depth[cur] + 1];
    assert parent'.Keys == visited' - {entrance};
    forall c | c in parent'
      ensures parent'[c] in visited' && depth'[c] == depth'[parent'[c]] + 1 && DirTo(parent'[c], c).Some?
    {
      if c != n {
        assert parent'[c] == parent[c] != n;
      }
    }
    forall c, e: Dir | c in walls'
      ensures !walls'[c][e] <==> TreeEdge(parent', c, Neighbor(c, e))
    {
      CarveWallAt(width, height, entrance, walls, visited, parent, depth, cur, d, c, e);
    }
  }

  /** The flag `e` of cell `c` after a carve is open exactly on the grown tree's edges. */
  lemma CarveWallAt(width: int, height: int, entrance: Cell, walls: Walls, visited: set<Cell>,
                    parent: map<Cell, Cell>, depth: map<Cell, nat>, cur: Cell, d: Dir, c: Cell, e: Dir)
    requires TreeInv(width, height, entrance, walls, visited, parent, depth)
    requires cur in visited && Free(width, height, visited, cur, d)
    requires c in walls
    ensures Neighbor(cur, d) in walls
    ensures !Knock(walls, cur, d)[c][e] <==> TreeEdge(parent[Neighbor(cur, d) := cur], c, Neighbor(c, e))
  {
    var n := Neighbor(cur, d);
    InGrid(width, height, n);
    NeighborBack(cur, d);
    var parent' := parent[n := cur];
    var x := Neighbor(c, e);
    assert x in parent ==> parent[x] != n;
    assert !walls[c][e] <==> TreeEdge(parent, c, x);
    if c == n {
      // the fresh cell had all its walls, and no child yet
      assert !TreeEdge(parent, n, x);
      assert TreeEdge(parent', n, x) <==> x == cur;
      assert x == cur <==> e == Opposite(d) by { NeighborInjective(n, e, Opposite(d)); }
    } else if c == cur {
      assert TreeEdge(parent', cur, x) <==> x == n || TreeEdge(parent, cur, x);
      assert x == n <==> e == d by { NeighborInjective(cur, e, d); }
    } else {
      assert TreeEdge(parent', c, x) <==> TreeEdge(parent, c, x);
    }
  }

  /** The stack is the tree path from the entrance down to its top cell. */
  ghost predicate StackInv(entrance: Cell, visited: set<Cell>, stack: seq<Cell>,
                           parent: map<Cell, Cell>, depth: map<Cell, nat>)
  {
    && (stack != [] ==> stack[0] == entrance)
    && (forall i | 0 <= i < |stack| :: stack[i] in visited && stack[i] in depth && depth[stack[i]] == i)
    && (forall i | 0 < i < |stack| :: stack[i] in parent && parent[stack[i]] == stack[i - 1])
  }

  /** Every visited cell off the stack has no unvisited in-bounds neighbour left. */
  ghost predicate ClosedInv(width: int, height: int, visited: set<Cell>, stack: seq<Cell>)
  {
    forall c, d: Dir | c in visited && c !in stack && InBounds(width, height, Neighbor(c, d)) ::
      Neighbor(c, d) in visited
  }

  ghost predicate GenInv(width: int, height: int, entrance: Cell, walls: Walls, visited: set<Cell>,
                         stack: seq<Cell>, parent: map<Cell, Cell>, depth: map<Cell, nat>)
  {
    && TreeInv(width, height, entrance, walls, visited, parent, depth)
    && StackInv(entrance, visited, stack, parent, depth)
    && ClosedInv(width, height, visited, stack)
  }

  /** A carve from the top of the stack pushes a fresh cell one level deeper. */
  lemma CarveKeepsGen(width: int, height: int, entrance: Cell, walls: Walls, visited: set<Cell>,
                      stack: seq<Cell>, parent: map<Cell, Cell>, depth: map<Cell, nat>, d: Dir)
    requires GenInv(width, height, entrance, walls, visited, stack, parent, depth)
    requires stack != [] && Free(width, height, visited, stack[|stack| - 1], d)
    ensures var cur, n := stack[|stack| - 1], Neighbor(stack[|stack| - 1], d);
      GenInv(width, height, entrance, Knock(walls, cur, d), visited + {n}, stack + [n],
             parent[n := cur], depth[n := |stack|])
  {
    var cur, n := stack[|stack| - 1], Neighbor(stack[|stack| - 1], d);
    CarveKeepsTree(width, height, entrance, walls, visited, parent, depth, cur, d);
    var stack', depth' := stack + [n], depth[n := |stack|];
    assert depth' == depth[n := depth[cur] + 1];
    forall i | 0 <= i < |stack'|
      ensures stack'[i] in visited + {n} && stack'[i] in depth' && depth'[stack'[i]] == i
    {
      if i < |stack| { assert stack'[i] == stack[i] != n; }
    }
  }

  /** Popping a cell with no free neighbour keeps every invariant. */
  lemma BacktrackKeepsGen(width: int, height: int, entrance: Cell, walls: Walls, visited: set<Cell>,
                          stack: seq<Cell>, parent: map<Cell, Cell>, depth: map<Cell, nat>, cur: Cell)
    requires GenInv(width, height, entrance, walls, visited, stack, parent, depth)
    requires stack != [] && stack[|stack| - 1] == cur
    requires forall d: Dir :: !Free(width, height, visited, cur, d)
    ensures GenInv(width, height, entrance, walls, visited, stack[..|stack| - 1], parent, depth)
  {
    var stack' := stack[..|stack| - 1];
    assert stack == stack' + [cur];
    assert StackInv(entrance, visited, stack', parent, depth) by {
      assert forall i | 0 <= i < |stack'| :: stack'[i] == stack[i];
    }
    forall c, d: Dir | c in visited && c !in stack' && InBounds(width, height, Neighbor(c, d))
      ensures Neighbor(c, d) in visited
    {
      if c == cur {
        assert !Free(width, height, visited, c, d);
      } else {
        assert c !in stack;
      }
    }
  }

  /** The tree invariant makes the wall table symmetric. */
  lemma TreeIsSymmetric(width: int, height: int, entrance: Cell, walls: Walls, visited: set<Cell>,
                        parent: map<Cell, Cell>, depth: map<Cell, nat>)
    requires TreeInv(width, height, entrance, walls, visited, parent, depth)
    ensures Symmetric(width, height, walls)
  {
    forall c, d: Dir | c in walls
      ensures if InBounds(width, height, Neighbor(c, d))
              then Neighbor(c, d) in walls && walls[c][d] == walls[Neighbor(c, d)][Opposite(d)]
              else walls[c][d]
    {
      InGrid(width, height, Neighbor(c, d));
      NeighborBack(c, d);
    }
  }

  /** The path of tree edges from the entrance down to `c`. */
  ghost function TreePath(width: int, height: int, entrance: Cell, walls: Walls, visited: set<Cell>,
                          parent: map<Cell, Cell>, depth: map<Cell, nat>, c: Cell): (p: seq<Cell>)
    requires TreeInv(width, height, entrance, walls, visited, parent, depth)
    requires c in visited
    ensures IsWalk(width, height, walls, p) && p[0] == entrance && p[|p| - 1] == c
    ensures |p| == depth[c] + 1
    decreases depth[c]
  {
    if c == entrance then [c]
    else
      var q := TreePath(width, height, entrance, walls, visited, parent, depth, parent[c]);
      var d := DirTo(parent[c], c).value;
      InGrid(width, height, c);
      assert TreeEdge(parent, parent[c], Neighbor(parent[c], d));
      q + [c]
  }

  /** Each carved cell is reachable from the entrance along open passages. */
  lemma TreeConnected(width: int, height: int, entrance: Cell, walls: Walls, visited: set<Cell>,
                      parent: map<Cell, Cell>, depth: map<Cell, nat>)
    requires TreeInv(width, height, entrance, walls, visited, parent, depth)
    ensures forall c | c in visited ::
      exists p :: IsWalk(width, height, walls, p) && p[0] == entrance && p[|p| - 1] == c
  {
    forall c | c in visited
      ensures exists p :: IsWalk(width, height, walls, p) && p[0] == entrance && p[|p| - 1] == c
    {
      var p := TreePath(width, height, entrance, walls, visited, parent, depth, c);
    }
  }

  /** The whole state of the search, as a value. */
  datatype Search = Search(walls: Walls, visited: set<Cell>, stack: seq<Cell>,
                           parent: map<Cell, Cell>, depth: map<Cell, nat>,
                           carves: nat, backtracks: nat, finished: bool)

  /**
   * The invariants above, one carve per visited cell but the entrance, one
   * backtrack per visited cell off the stack, and an empty stack once the
   * trailing event has been produced.
   */
  ghost predicate SearchOk(width: int, height: int, entrance: Cell, s: Search)
  {
    && GenInv(width, height, entrance, s.walls, s.visited, s.stack, s.parent, s.depth)
    && s.carves + 1 == |s.visited|
    && s.backtracks + |s.stack| == |s.visited|
    && (s.finished ==> s.stack == [])
  }

  /**
   * The state after carving from the top of the stack in direction `d`: both
   * sides of the wall knocked down, the neighbour marked visited and pushed.
   */
  function CarveStep(s: Search, d: Dir): Search
    requires s.stack != [] && s.stack[|s.stack| - 1] in s.walls && Neighbor(s.stack[|s.stack| - 1], d) in s.walls
    requires forall c | c in s.walls :: |s.walls[c]| == 4
  {
    var cur := s.stack[|s.stack| - 1];
    var n := Neighbor(cur, d);
    s.(walls := Knock(s.walls, cur, d), visited := s.visited + {n}, stack := s.stack + [n],
       parent := s.parent[n := cur], depth := s.depth[n := |s.stack|], carves := s.carves + 1)
  }

  /** The state after popping the top of the stack. */
  function BacktrackStep(s: Search): Search
    requires s.stack != []
  {
    s.(stack := s.stack[..|s.stack| - 1], backtracks := s.backtracks + 1)
  }

  /** A carve into a free neighbour keeps the whole state valid and visits one more cell. */
  lemma CarveStepOk(width: int, height: int, entrance: Cell, s: Search, d: Dir)
    requires SearchOk(width, height, entrance, s) && s.stack != []
    requires Free(width, height, s.visited, s.stack[|s.stack| - 1], d)
    ensures s.stack[|s.stack| - 1] in s.walls && Neighbor(s.stack[|s.stack| - 1], d) in s.walls
    ensures SearchOk(width, height, entrance, CarveStep(s, d))
    ensures |CarveStep(s, d).visited| == |s.visited| + 1
  {
    CarveKeepsGen(width, height, entrance, s.walls, s.visited, s.stack, s.parent, s.depth, d);
    InGrid(width, height, Neighbor(s.stack[|s.stack| - 1], d));
  }

  /** Popping a top cell with no free neighbour keeps the whole state valid. */
  lemma BacktrackStepOk(width: int, height: int, entrance: Cell, s: Search, cur: Cell)
    requires SearchOk(width, height, entrance, s) && s.stack != [] && s.stack[|s.stack| - 1] == cur
    requires forall d: Dir :: !Free(width, height, s.visited, cur, d)
    ensures SearchOk(width, height, entrance, BacktrackStep(s))
  {
    BacktrackKeepsGen(width, height, entrance, s.walls, s.visited, s.stack, s.parent, s.depth, cur);
  }

  /** Once the stack is empty, the search has visited every grid cell. */
  lemma SearchCovers(width: int, height: int, entrance: Cell, s: Search)
    requires SearchOk(width, height, entrance, s) && s.stack == []
    ensures s.visited == Grid(width, height)
  {
    InGrid(width, height, entrance);
    GridConnected(width, height, s.visited, entrance);
    forall c ensures c in s.visited <==> c in Grid(width, height) {
      InGrid(width, height, c);
    }
  }

  /**
   * Once the stack is empty, every grid cell was visited, there were
   * `width * height - 1` carves and `width * height` backtracks, the open
   * walls are exactly the `width * height - 1` edges of a tree over the grid,
   * every wall looks the same from both sides, the border is intact, and
   * every cell is reachable from the entrance along open passages.
   */
  lemma SearchComplete(width: int, height: int, entrance: Cell, s: Search)
    requires SearchOk(width, height, entrance, s) && s.stack == []
    ensures s.visited == Grid(width, height)
    ensures s.carves == width * height - 1 && s.backtracks == width * height
    ensures |s.parent| == width * height - 1
    ensures forall c, d: Dir | c in s.walls :: !s.walls[c][d] <==> TreeEdge(s.parent, c, Neighbor(c, d))
    ensures Symmetric(width, height, s.walls)
    ensures forall c | InBounds(width, height, c) ::
      exists p :: IsWalk(width, height, s.walls, p) && p[0] == entrance && p[|p| - 1] == c
  {
    SearchCovers(width, height, entrance, s);
    assert |s.visited| == width * height && |s.parent| == width * height - 1 by {
      GridSize(width, height);
      assert s.parent.Keys == s.visited - {entrance};
    }
    assert Symmetric(width, height, s.walls) by {
      TreeIsSymmetric(width, height, entrance, s.walls, s.visited, s.parent, s.depth);
    }
    forall c | InBounds(width, height, c)
      ensures exists p :: IsWalk(width, height, s.walls, p) && p[0] == entrance && p[|p| - 1] == c
    {
      InGrid(width, height, c);
      var p := TreePath(width, height, entrance, s.walls, s.visited, s.parent, s.depth, c);
    }
  }
}
