/**
 * Conway's Game of Life of Lab 1 on a bounded grid without wrap-around:
 * the B3/S23 rule applied synchronously, the shape check on a starting
 * configuration, the clear and toggle actions of the event loop, and the two
 * seed patterns of `Configurations`.
 */
module Life {
  import opened Util

  /** The exceptions the source raises. */
  datatype LifeError =
    | ValueError  // the configuration has the wrong shape
    | IndexError  // a list index out of range

  /** 1 when `(y, x)` is on the board and alive, else 0 (the source adds the `alive` flag as a number). */
  function LiveAt(g: array2<bool>, y: int, x: int): (r: nat)
    reads g
    ensures r <= 1
  {
    if 0 <= y < g.Length0 && 0 <= x < g.Length1 && g[y, x] then 1 else 0
  }

  /** The count over row offset `i`, column offsets -1 up to `j - 1`, skipping the cell itself. */
  function RowSum(g: array2<bool>, y: int, x: int, i: int, j: int): nat
    reads g
    requires -1 <= j <= 2
    decreases j + 1
  {
    if j == -1 then 0
    else RowSum(g, y, x, i, j - 1) + (if i == 0 && j - 1 == 0 then 0 else LiveAt(g, y + i, x + j - 1))
  }

  /** The count over row offsets -1 up to `i - 1`. */
  function AreaSum(g: array2<bool>, y: int, x: int, i: int): nat
    reads g
    requires -1 <= i <= 2
    decreases i + 1
  {
    if i == -1 then 0 else AreaSum(g, y, x, i - 1) + RowSum(g, y, x, i - 1, 2)
  }

  /** The live cells among the eight around `(y, x)` that lie on the board. */
  function Neighbours(g: array2<bool>, y: int, x: int): (r: nat)
    reads g
    ensures r == LiveAt(g, y - 1, x - 1) + LiveAt(g, y - 1, x) + LiveAt(g, y - 1, x + 1)
               + LiveAt(g, y, x - 1) + LiveAt(g, y, x + 1)
               + LiveAt(g, y + 1, x - 1) + LiveAt(g, y + 1, x) + LiveAt(g, y + 1, x + 1)
  {
    RowSumClosed(g, y, x, -1);
    RowSumClosed(g, y, x, 0);
    RowSumClosed(g, y, x, 1);
    assert AreaSum(g, y, x, 0) == RowSum(g, y, x, -1, 2);
    assert AreaSum(g, y, x, 1) == RowSum(g, y, x, -1, 2) + RowSum(g, y, x, 0, 2);
    AreaSum(g, y, x, 2)
  }

  /** A full row of the 3 x 3 block: its three cells, the middle one left out on the cell's own row. */
  lemma RowSumClosed(g: array2<bool>, y: int, x: int, i: int)
    ensures RowSum(g, y, x, i, 2) ==
      LiveAt(g, y + i, x - 1) + (if i == 0 then 0 else LiveAt(g, y + i, x)) + LiveAt(g, y + i, x + 1)
  {
    assert RowSum(g, y, x, i, 0) == LiveAt(g, y + i, x - 1);
    assert RowSum(g, y, x, i, 1) == LiveAt(g, y + i, x - 1) + (if i == 0 then 0 else LiveAt(g, y + i, x));
  }

  /** No cell has more than eight live neighbours, and a corner cell no more than three. */
  lemma NeighboursBound(g: array2<bool>, y: int, x: int)
    ensures Neighbours(g, y, x) <= 8
    ensures (y == 0 || y == g.Length0 - 1) && (x == 0 || x == g.Length1 - 1) ==> Neighbours(g, y, x) <= 3
  {
  }

  /** The B3/S23 rule: born with exactly three live neighbours, survives with two or three. */
  function NextState(alive: bool, n: nat): (r: bool)
    ensures r <==> n == 3 || (alive && n == 2)
  {
    if alive then !(n < 2 || n > 3) else n == 3
  }

  /** What the update makes of cell `(y, x)` of board `g`. */
  function NextAt(g: array2<bool>, y: int, x: int): bool
    reads g
    requires 0 <= y < g.Length0 && 0 <= x < g.Length1
  {
    NextState(g[y, x], Neighbours(g, y, x))
  }

  /**
   * The shape check of `__init__` and `set_config`: the row count must be
   * the height, then the first row's length the width. On an empty
   * configuration reading the first row raises before the second test.
   */
  function CheckShape(width: int, height: int, config: array2<bool>): (r: Option<LifeError>)
  {
    if config.Length0 != height then Some(ValueError)
    else if config.Length0 == 0 then Some(IndexError)
    else if config.Length1 != width then Some(ValueError)
    else None
  }

  /** A configuration passes exactly when it has the board's shape and at least one row. */
  lemma CheckShapeAccepts(width: int, height: int, config: array2<bool>)
    ensures CheckShape(width, height, config).None? <==> config.Length0 == height >= 1 && config.Length1 == width
    ensures CheckShape(width, height, config) == Some(IndexError) <==> config.Length0 == height == 0
  {
  }

  /** The game: its board, the cell size in pixels, and whether it is paused. */
  class Game {
    const width: nat
    const height: nat
    const size: int
    var paused: bool
    var grid: array2<bool>

    ghost predicate Valid()
      reads this
    {
      grid.Length0 == height && grid.Length1 == width
    }

    /** A paused game on an all-dead board. */
    constructor (width: nat, height: nat, size: int)
      ensures this.width == width && this.height == height && this.size == size
      ensures Valid() && paused && fresh(grid)
      ensures forall y, x | 0 <= y < height && 0 <= x < width :: !grid[y, x]
    {
      this.width, this.height, this.size := width, height, size;
      paused := true;
      grid := new bool[height, width]((_, _) => false);
    }

    /**
     * A paused game on the given board, which the game then shares with the
     * caller; a board of the wrong shape raises instead.
     */
    static method FromConfig(width: nat, height: nat, size: int, config: array2<bool>) returns (r: Result<Game, LifeError>)
      ensures r.Err? <==> CheckShape(width, height, config).Some?
      ensures r.Err? ==> CheckShape(width, height, config) == Some(r.error)
      ensures r.Ok? ==> fresh(r.value) && r.value.Valid() && r.value.paused && r.value.grid == config
      ensures r.Ok? ==> r.value.width == width && r.value.height == height && r.value.size == size
    {
      var err := CheckShape(width, height, config);
      if err.Some? {
        return Err(err.value);
      }
      var g := new Game(width, height, size);
      g.grid := config;
      return Ok(g);
    }

    /** Replaces the board, or raises on a wrong shape and keeps the old one. */
    method SetConfig(config: array2<bool>) returns (err: Option<LifeError>)
      requires Valid()
      modifies this
      ensures Valid() && paused == old(paused)
      ensures err == CheckShape(width, height, config)
      ensures err.None? ==> grid == config
      ensures err.Some? ==> grid == old(grid)
    {
      err := CheckShape(width, height, config);
      if err.None? {
        grid := config;
      }
    }

    /** The live neighbours of `(y, x)`, scanned over the 3 x 3 block around it. */
    method CountNeighbours(y: int, x: int) returns (n: nat)
      requires Valid()
      ensures n == Neighbours(grid, y, x)
    {
      n := 0;
      for i := -1 to 2
        invariant n == AreaSum(grid, y, x, i)
      {
        for j := -1 to 2
          invariant n == AreaSum(grid, y, x, i) + RowSum(grid, y, x, i, j)
        {
          if !(i == 0 && j == 0) && 0 <= y + i < height && 0 <= x + j < width {
            n := n + if grid[y + i, x + j] then 1 else 0;
          }
        }
      }
    }

    /**
     * One generation: unless paused, every cell takes the rule's verdict on
     * the old board, all computed before any cell is written.
     */
    method Update()
      requires Valid()
      modifies grid
      ensures Valid()
      ensures old(paused) ==> unchanged(grid)
      ensures !old(paused) ==>
        forall y, x | 0 <= y < height && 0 <= x < width :: grid[y, x] == old(NextAt(grid, y, x))
    {
      if paused {
        return;
      }
      var next := NewStates();
      Commit(next);
    }

    /** The `new_states` table: the rule's verdict on every cell of the current board. */
    method NewStates() returns (next: array2<bool>)
      requires Valid()
      ensures fresh(next) && next.Length0 == height && next.Length1 == width
      ensures forall y, x | 0 <= y < height && 0 <= x < width :: next[y, x] == NextAt(grid, y, x)
    {
      next := new bool[height, width]((_, _) => false);
      for y := 0 to height
        invariant forall r, c | 0 <= r < y && 0 <= c < width :: next[r, c] == NextAt(grid, r, c)
      {
        FillRow(next, y);
      }
    }

    /** One row of the `new_states` table; the other rows are left alone. */
    method FillRow(next: array2<bool>, y: int)
      requires Valid() && next != grid && next.Length0 == height && next.Length1 == width && 0 <= y < height
      modifies next
      ensures forall c | 0 <= c < width :: next[y, c] == NextAt(grid, y, c)
      ensures forall r, c | 0 <= r < height && r != y && 0 <= c < width :: next[r, c] == old(next[r, c])
    {
      hide NextAt;
      for x := 0 to width
        invariant forall c | 0 <= c < x :: next[y, c] == NextAt(grid, y, c)
        invariant forall r, c | 0 <= r < height && r != y && 0 <= c < width :: next[r, c] == old(next[r, c])
      {
        var alive := NextCell(y, x);
        next[y, x] := alive;
      }
    }

    /** The rule applied to one cell of the current board. */
    method NextCell(y: int, x: int) returns (alive: bool)
      requires Valid() && 0 <= y < height && 0 <= x < width
      ensures alive == NextAt(grid, y, x)
    {
      var n := CountNeighbours(y, x);
      alive := if grid[y, x] then !(n < 2 || n > 3) else n == 3;
    }

    /** Writes the table back into the board, cell by cell. */
    method Commit(next: array2<bool>)
      requires Valid() && next != grid && next.Length0 == height && next.Length1 == width
      modifies grid
      ensures forall y, x | 0 <= y < height && 0 <= x < width :: grid[y, x] == next[y, x]
    {
      for y := 0 to height
        invariant forall r, c | 0 <= r < height && 0 <= c < width ::
          grid[r, c] == if r < y then next[r, c] else old(grid[r, c])
      {
        for x := 0 to width
          invariant forall r, c | 0 <= r < height && 0 <= c < width ::
            grid[r, c] == if r < y || (r == y && c < x) then next[r, c] else old(grid[r, c])
        {
          grid[y, x] := next[y, x];
        }
      }
    }

    /** The space key: pause or resume. */
    method TogglePause()
      modifies this
      ensures paused == !old(paused) && grid == old(grid)
    {
      paused := !paused;
    }

    /** The 'c' key: every cell dies. */
    method Clear()
      requires Valid()
      modifies grid
      ensures forall y, x | 0 <= y < height && 0 <= x < width :: !grid[y, x]
    {
      for y := 0 to height
        invariant forall r, c | 0 <= r < y && 0 <= c < width :: !grid[r, c]
      {
        for x := 0 to width
          invariant forall r, c | 0 <= r < y && 0 <= c < width :: !grid[r, c]
          invariant forall c | 0 <= c < x :: !grid[y, c]
        {
          grid[y, x] := false;
        }
      }
    }

    /** A mouse click at pixel `(px, py)` of the window: toggles the cell under it, only while paused. */
    method Click(px: int, py: int)
      requires Valid() && size > 0
      requires 0 <= px < width * size && 0 <= py < height * size
      modifies grid
      ensures !paused ==> unchanged(grid)
      ensures paused ==> forall y, x | 0 <= y < height && 0 <= x < width ::
        grid[y, x] == if y == py / size && x == px / size then !old(grid[y, x]) else old(grid[y, x])
    {
      if paused {
        var x, y := px / size, py / size;
        grid[y, x] := !grid[y, x];
      }
    }
  }

  /** The board holds exactly the live cells `x0..x0+1` of rows `y0..y0+1`. */
  ghost predicate BlockAt(g: array2<bool>, y0: int, x0: int)
    reads g
  {
    forall y, x | 0 <= y < g.Length0 && 0 <= x < g.Length1 :: g[y, x] <==> (y0 <= y <= y0 + 1 && x0 <= x <= x0 + 1)
  }

  /** The board holds exactly the live cells `x0..x0+len-1` of row `y0`. */
  ghost predicate RowAt(g: array2<bool>, y0: int, x0: int, len: nat)
    reads g
  {
    forall y, x | 0 <= y < g.Length0 && 0 <= x < g.Length1 :: g[y, x] <==> (y == y0 && x0 <= x < x0 + len)
  }

  /** The board holds exactly the live cells `y0..y0+len-1` of column `x0`. */
  ghost predicate ColumnAt(g: array2<bool>, y0: int, x0: int, len: nat)
    reads g
  {
    forall y, x | 0 <= y < g.Length0 && 0 <= x < g.Length1 :: g[y, x] <==> (x == x0 && y0 <= y < y0 + len)
  }

  /** A 2 x 2 block on the board is a still life: the update leaves every cell as it is, at the border too. */
  lemma BlockIsStill(g: array2<bool>, y0: int, x0: int)
    requires BlockAt(g, y0, x0)
    requires 0 <= y0 && y0 + 1 < g.Length0 && 0 <= x0 && x0 + 1 < g.Length1
    ensures forall y, x | 0 <= y < g.Length0 && 0 <= x < g.Length1 :: NextAt(g, y, x) == g[y, x]
  {
    forall y, x | 0 <= y < g.Length0 && 0 <= x < g.Length1 ensures NextAt(g, y, x) == g[y, x] {
      var n := Neighbours(g, y, x);
      if y0 <= y <= y0 + 1 && x0 <= x <= x0 + 1 {
        assert n == 3;
      } else {
        assert n <= 2;
      }
    }
  }

  /** Two live cells side by side both die, and nothing is born: the board empties in one update. */
  lemma PairDies(g: array2<bool>, y0: int, x0: int)
    requires RowAt(g, y0, x0, 2)
    ensures forall y, x | 0 <= y < g.Length0 && 0 <= x < g.Length1 :: !NextAt(g, y, x)
  {
    forall y, x | 0 <= y < g.Length0 && 0 <= x < g.Length1 ensures !NextAt(g, y, x) {
      var n := Neighbours(g, y, x);
      assert n <= 2;
      if g[y, x] {
        assert n <= 1;
      }
    }
  }

  /** Three in a row away from the top and bottom edges turn into three in a column through the middle one. */
  lemma RowTurnsToColumn(g: array2<bool>, y0: int, x0: int)
    requires RowAt(g, y0, x0, 3)
    requires 1 <= y0 && y0 + 1 < g.Length0 && 0 <= x0 && x0 + 2 < g.Length1
    ensures forall y, x | 0 <= y < g.Length0 && 0 <= x < g.Length1 ::
      NextAt(g, y, x) <==> (x == x0 + 1 && y0 - 1 <= y <= y0 + 1)
  {
    forall y, x | 0 <= y < g.Length0 && 0 <= x < g.Length1
      ensures NextAt(g, y, x) <==> (x == x0 + 1 && y0 - 1 <= y <= y0 + 1)
    {
      var n := Neighbours(g, y, x);
      if x == x0 + 1 && y0 - 1 <= y <= y0 + 1 {
        assert n == (if y == y0 then 2 else 3);
      } else if g[y, x] {
        assert n == 1;
      } else {
        assert n <= 2;
      }
    }
  }

  /** Three in a column away from the left and right edges turn into three in a row through the middle one. */
  lemma ColumnTurnsToRow(g: array2<bool>, y0: int, x0: int)
    requires ColumnAt(g, y0, x0, 3)
    requires 0 <= y0 && y0 + 2 < g.Length0 && 1 <= x0 && x0 + 1 < g.Length1
    ensures forall y, x | 0 <= y < g.Length0 && 0 <= x < g.Length1 ::
      NextAt(g, y, x) <==> (y == y0 + 1 && x0 - 1 <= x <= x0 + 1)
  {
    forall y, x | 0 <= y < g.Length0 && 0 <= x < g.Length1
      ensures NextAt(g, y, x) <==> (y == y0 + 1 && x0 - 1 <= x <= x0 + 1)
    {
      var n := Neighbours(g, y, x);
      if y == y0 + 1 && x0 - 1 <= x <= x0 + 1 {
        assert n == (if x == x0 then 2 else 3);
      } else if g[y, x] {
        assert n == 1;
      } else {
        assert n <= 2;
      }
    }
  }

  /** The seed patterns, centred on a board of the given size. */
  class Configurations {
    const width: int
    const height: int

    constructor (width: int, height: int)
      ensures this.width == width && this.height == height
    {
      this.width, this.height := width, height;
    }

    /** A fresh all-dead board, the shape every pattern starts from. */
    method Blank() returns (b: array2<bool>)
      requires width >= 0 && height >= 0
      ensures fresh(b) && b.Length0 == height && b.Length1 == width
      ensures forall y, x | 0 <= y < height && 0 <= x < width :: !b[y, x]
    {
      b := new bool[height, width]((_, _) => false);
    }

    /**
     * `get_block`: a 2 x 2 block with its top-left cell at the centre; the
     * second row or column of it is out of range, and raises, on a board
     * narrower or lower than three cells.
     */
    method Block() returns (r: Result<array2<bool>, LifeError>)
      ensures r.Err? <==> width < 3 || height < 3
      ensures r.Err? ==> r.error == IndexError
      ensures r.Ok? ==> fresh(r.value) && r.value.Length0 == height && r.value.Length1 == width
      ensures r.Ok? ==> BlockAt(r.value, height / 2, width / 2)
    {
      if width < 3 || height < 3 {
        return Err(IndexError);
      }
      var b := Blank();
      b[height / 2, width / 2] := true;
      b[height / 2, width / 2 + 1] := true;
      b[height / 2 + 1, width / 2] := true;
      b[height / 2 + 1, width / 2 + 1] := true;
      return Ok(b);
    }

    /**
     * `get_blinker` as written: two cells side by side at the centre, which
     * raises on a board narrower than three cells or without rows.
     */
    method Blinker() returns (r: Result<array2<bool>, LifeError>)
      ensures r.Err? <==> width < 3 || height < 1
      ensures r.Err? ==> r.error == IndexError
      ensures r.Ok? ==> fresh(r.value) && r.value.Length0 == height && r.value.Length1 == width
      ensures r.Ok? ==> RowAt(r.value, height / 2, width / 2, 2)
    {
      if width < 3 || height < 1 {
        return Err(IndexError);
      }
      var b := Blank();
      b[height / 2, width / 2] := true;
      b[height / 2, width / 2 + 1] := true;
      return Ok(b);
    }

    /**
     * The blinker as the name promises: three cells in a row centred on the
     * board, which alternates with three in a column.
     */
    method BlinkerOfThree() returns (r: Result<array2<bool>, LifeError>)
      ensures r.Err? <==> width < 3 || height < 1
      ensures r.Err? ==> r.error == IndexError
      ensures r.Ok? ==> fresh(r.value) && r.value.Length0 == height && r.value.Length1 == width
      ensures r.Ok? ==> RowAt(r.value, height / 2, width / 2 - 1, 3)
    {
      if width < 3 || height < 1 {
        return Err(IndexError);
      }
      var b := Blank();
      b[height / 2, width / 2 - 1] := true;
      b[height / 2, width / 2] := true;
      b[height / 2, width / 2 + 1] := true;
      return Ok(b);
    }
  }

  /** The blinker as written vanishes after a single update. */
  lemma BlinkerDies(g: array2<bool>)
    requires RowAt(g, g.Length0 / 2, g.Length1 / 2, 2)
    ensures forall y, x | 0 <= y < g.Length0 && 0 <= x < g.Length1 :: !NextAt(g, y, x)
  {
    PairDies(g, g.Length0 / 2, g.Length1 / 2);
  }

  /**
   * The three-cell blinker on a board at least three cells high turns into
   * a column through the centre (`BlinkerReturns` takes it back).
   */
  lemma BlinkerOscillates(g: array2<bool>)
    requires RowAt(g, g.Length0 / 2, g.Length1 / 2 - 1, 3) && g.Length0 >= 3 && g.Length1 >= 3
    ensures forall y, x | 0 <= y < g.Length0 && 0 <= x < g.Length1 ::
      NextAt(g, y, x) <==> (x == g.Length1 / 2 && g.Length0 / 2 - 1 <= y <= g.Length0 / 2 + 1)
  {
    RowTurnsToColumn(g, g.Length0 / 2, g.Length1 / 2 - 1);
  }

  /** The centre column of three turns back into the blinker's row: the pattern has period two. */
  lemma BlinkerReturns(g: array2<bool>)
    requires ColumnAt(g, g.Length0 / 2 - 1, g.Length1 / 2, 3) && g.Length0 >= 3 && g.Length1 >= 3
    ensures forall y, x | 0 <= y < g.Length0 && 0 <= x < g.Length1 ::
      NextAt(g, y, x) <==> (y == g.Length0 / 2 && g.Length1 / 2 - 1 <= x <= g.Length1 / 2 + 1)
  {
    ColumnTurnsToRow(g, g.Length0 / 2 - 1, g.Length1 / 2);
  }
}
