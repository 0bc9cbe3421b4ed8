/**
 * The maze of Lab 2: a rectangular grid of cells, each carrying four wall
 * flags ordered top, right, bottom, left, plus the set of cells visited while
 * the maze is carved.
 */
module MazeGrid {
  import opened Util

  /** A grid coordinate; the source uses an `(x, y)` tuple. */
  datatype Cell = Cell(x: int, y: int)

  /** A wall index: 0 = top, 1 = right, 2 = bottom, 3 = left. */
  type Dir = d: int | 0 <= d < 4

  /** The wall a neighbour shares with us: top <-> bottom, right <-> left. */
  function Opposite(d: Dir): Dir
  {
    if d < 2 then d + 2 else d - 2
  }

  /** The cell one step away in direction `d`; y grows downwards. */
  function Neighbor(c: Cell, d: Dir): Cell
  {
    match d
    case 0 => Cell(c.x, c.y - 1)
    case 1 => Cell(c.x + 1, c.y)
    case 2 => Cell(c.x, c.y + 1)
    case 3 => Cell(c.x - 1, c.y)
  }

  /** The direction in which `b` lies next to `a`, if it does. */
  function DirTo(a: Cell, b: Cell): (r: Option<Dir>)
    ensures r.Some? <==> exists d: Dir :: Neighbor(a, d) == b
    ensures r.Some? ==> Neighbor(a, r.value) == b
  {
    if b == Neighbor(a, 0) then Some(0)
    else if b == Neighbor(a, 1) then Some(1)
    else if b == Neighbor(a, 2) then Some(2)
    else if b == Neighbor(a, 3) then Some(3)
    else None
  }

  lemma NeighborBack(c: Cell, d: Dir)
    ensures Neighbor(Neighbor(c, d), Opposite(d)) == c
    ensures DirTo(c, Neighbor(c, d)) == Some(d)
    ensures DirTo(Neighbor(c, d), c) == Some(Opposite(d))
  {
  }

  lemma NeighborInjective(c: Cell, d: Dir, e: Dir)
    ensures Neighbor(c, d) == Neighbor(c, e) <==> d == e
  {
  }

  predicate InBounds(width: int, height: int, c: Cell)
  {
    0 <= c.x < width && 0 <= c.y < height
  }

  /** All cells of the `width` x `height` grid. */
  function Grid(width: int, height: int): set<Cell>
  {
    set x, y | 0 <= x < width && 0 <= y < height :: Cell(x, y)
  }

  lemma InGrid(width: int, height: int, c: Cell)
    ensures c in Grid(width, height) <==> InBounds(width, height, c)
  {
    if InBounds(width, height, c) {
      assert c == Cell(c.x, c.y);
    }
  }

  /** The wall table: one four-flag entry per grid cell. */
  type Walls = map<Cell, seq<bool>>

  ghost predicate WellFormed(width: int, height: int, walls: Walls)
  {
    && walls.Keys == Grid(width, height)
    && (forall c | c in walls :: |walls[c]| == 4)
  }

  /**
   * One hop of a passage as the solver sees it: `a` has no wall towards the
   * in-bounds neighbour `b`.
   */
  predicate Passage(width: int, height: int, walls: Walls, a: Cell, b: Cell)
  {
    && a in walls
    && InBounds(width, height, b)
    && DirTo(a, b).Some?
    && |walls[a]| == 4
    && !walls[a][DirTo(a, b).value]
  }

  /** A walk along open passages, given as the list of cells it enters. */
  predicate IsWalk(width: int, height: int, walls: Walls, p: seq<Cell>)
  {
    && |p| >= 1
    && forall i | 0 <= i < |p| - 1 :: Passage(width, height, walls, p[i], p[i + 1])
  }

  /** Row `y` of a grid `width` cells wide. */
  function Row(width: int, y: int): set<Cell>
  {
    set x | 0 <= x < width :: Cell(x, y)
  }

  /** The grid holds `width * height` cells, counted row by row. */
  lemma {:induction false} GridSize(width: nat, height: nat)
    ensures |Grid(width, height)| == width * height
  {
    if height == 0 {
      assert Grid(width, height) == {};
    } else {
      GridSplit(width, height);
      RowSize(width, height - 1);
      GridSize(width, height - 1);
      assert width * height == width * (height - 1) + width;
    }
  }

  lemma GridSplit(width: nat, height: nat)
    requires height > 0
    ensures Grid(width, height) == Grid(width, height - 1) + Row(width, height - 1)
    ensures Grid(width, height - 1) !! Row(width, height - 1)
  {
    var g, g', row := Grid(width, height), Grid(width, height - 1), Row(width, height - 1);
    forall c | c in g ensures c in g' + row {
      InGrid(width, height, c);
      if c.y < height - 1 { InGrid(width, height - 1, c); }
      else { assert c == Cell(c.x, height - 1); }
    }
    forall c | c in g' + row ensures c in g {
      InGrid(width, height, c);
      if c in g' { InGrid(width, height - 1, c); }
    }
    forall c | c in row ensures c !in g' {
      InGrid(width, height - 1, c);
    }
  }

  lemma {:induction false} RowSize(width: nat, y: int)
    ensures |Row(width, y)| == width
  {
    if width > 0 {
      assert Row(width, y) == Row(width - 1, y) + {Cell(width - 1, y)};
      RowSize(width - 1, y);
    } else {
      assert Row(width, y) == {};
    }
  }

  /**
   * A set of grid cells that holds `start` and every in-bounds neighbour of
   * each of its members covers the whole grid: the grid is connected.
   */
  lemma GridConnected(width: int, height: int, s: set<Cell>, start: Cell)
    requires InBounds(width, height, start) && start in s
    requires forall c, d: Dir | c in s && InBounds(width, height, Neighbor(c, d)) :: Neighbor(c, d) in s
    ensures forall c | InBounds(width, height, c) :: c in s
  {
    forall c | InBounds(width, height, c) ensures c in s {
      ReachFrom(width, height, s, start, c);
    }
  }

  function Distance(a: Cell, b: Cell): nat
  {
    (if a.x < b.x then b.x - a.x else a.x - b.x) + (if a.y < b.y then b.y - a.y else a.y - b.y)
  }

  lemma {:induction false} ReachFrom(width: int, height: int, s: set<Cell>, start: Cell, c: Cell)
    requires InBounds(width, height, start) && start in s
    requires forall c, d: Dir | c in s && InBounds(width, height, Neighbor(c, d)) :: Neighbor(c, d) in s
    requires InBounds(width, height, c)
    ensures c in s
    decreases Distance(start, c)
  {
    if c != start {
      // step back one cell towards `start`, staying inside the grid
      var d: Dir :=
        if c.x > start.x then 3 else if c.x < start.x then 1
        else if c.y > start.y then 0 else 2;
      var b := Neighbor(c, d);
      ReachFrom(width, height, s, start, b);
      NeighborBack(c, d);
    }
  }

  /** The maze: dimensions, entrance and exit, the wall table, the generation's visited set. */
  class Maze {
    const width: int
    const height: int
    const entrance: Cell
    const exit: Cell
    var visited: set<Cell>
    var walls: Walls

    ghost predicate Valid()
      reads this
    {
      && InBounds(width, height, entrance)
      && InBounds(width, height, exit)
      && WellFormed(width, height, walls)
    }

    /** Every wall of every cell is standing. */
    ghost predicate AllWalled()
      reads this
    {
      forall c | c in walls :: walls[c] == [true, true, true, true]
    }

    /**
     * Builds the fully walled grid. The source validates nothing; an
     * in-bounds entrance and exit are what the later algorithms index by.
     */
    constructor (width: int, height: int, entrance: Cell, exit: Cell)
      requires InBounds(width, height, entrance) && InBounds(width, height, exit)
      ensures this.width == width && this.height == height
      ensures this.entrance == entrance && this.exit == exit
      ensures visited == {}
      ensures walls.Keys == Grid(width, height)
      ensures Valid() && AllWalled()
    {
      this.width, this.height := width, height;
      this.entrance, this.exit := entrance, exit;
      visited := {};
      walls := map c | c in Grid(width, height) :: [true, true, true, true];
    }
  }
}
