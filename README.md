# Intro-To-AI labs in Dafny

A Dafny model of four programs from an introductory AI course:

- **Lab 2, maze search.** `Maze` carves a rectangular maze by randomised depth-first search, one step per `yield`. `MazeSolver` finds the path from the entrance to the exit by breadth-first search and reports each visited cell and then each path cell. Both generators become classes (`MazeGeneration.Generator`, `MazeSolving.Solver`). Each `Step` method runs the generator up to its next `yield`, and its new state is tied to a transition function on values (`CarveTree`, `BfsSearch`). The invariants those functions keep are proved as lemmas (`CarveTree`, `BfsTree`):
  - the carved passages form a spanning tree that reaches every cell;
  - the walls stay symmetric;
  - the solver's path is a shortest walk;
  - `KeyError` is raised exactly when the exit cannot be reached.
- **Lab 1, Game of Life.** The grid is a class over an `array2<bool>`. `Update` applies the B3/S23 rule to every cell at once, without wrap-around. The model also covers the shape check on a starting configuration, the pause, clear and click actions of the event loop, and the block and blinker seed patterns.
- **Lab 4, Hunt the Wumpus.** The twenty-room dodecahedral cave, the placement of the hazards, the warnings, the player's move (with the bat drop), the arrow's flight (with ricochets) and the wumpus's move. The class `Wumpus.Game` updates the game's fields, and each of its methods is tied to a function on a `World` value. Every random draw is a parameter.
- **Lab 5, decision-tree inference.** `DecisionTreeSolver` indexes a table of dictionaries by their `node` id, then walks from the start node. It asks the node's question and reads an answer, which it strips and lower-cases. It follows the answer's key until it reaches a `classification`. The walk is a function `Run` over a finite list of input lines. It returns the result together with the log of prompts and messages. `Solve` is the source's `while True` loop, proved equal to `Run`. `InferenceSample` holds the scientist table from the program's `__main__` and proves three things about it:
  - it indexes cleanly;
  - every target it names is defined;
  - from the root, at most five listed answers reach a classification.

`Util` holds `Option`, `Result` and sequence reversal.

## Model

| member | source | states |
|---|---|---|
| MazeGrid.Neighbor | Lab2-Search/main.py:53-58 | the cell one step from `c` in direction `d` (0 up, 1 right, 2 down, 3 left), the offset table shared by both searches |
| MazeGrid.Passage | Lab2-Search/main.py:106-111 | one solver move: `b` is an in-bounds neighbour of `a` and the wall of `a` facing it is down |
| MazeGrid.DirTo | Lab2-Search/main.py:106-110 | the direction from one cell to another exists exactly when the second is a neighbour, and moving that way from the first reaches it |
| MazeGrid.NeighborBack | Lab2-Search/main.py:53-58 | stepping in a direction and back in the opposite one returns to the cell; the wall index on the other side of wall `w` is its opposite `ow` |
| MazeGrid.NeighborInjective | Lab2-Search/main.py:53-58 | the four candidate neighbours of a cell are four different cells |
| MazeGrid.InGrid | Lab2-Search/main.py:33-36 | the keys of `walls` are exactly the in-bounds cells |
| MazeGrid.GridSize | Lab2-Search/main.py:33-36 | the wall dictionary has `width * height` entries |
| MazeGrid.GridSplit | Lab2-Search/main.py:33-36 | the grid is the grid one row shorter plus the last row, and the two are disjoint |
| MazeGrid.RowSize | Lab2-Search/main.py:35 | one row of the grid holds `width` cells |
| MazeGrid.GridConnected | Lab2-Search/main.py:45-79 | a set that holds an in-bounds cell and is closed under in-bounds neighbours holds the whole grid |
| MazeGrid.ReachFrom | Lab2-Search/main.py:45-79 | any in-bounds cell lies in such a closed set, by induction on its distance from the start |
| MazeGrid.Maze.constructor | Lab2-Search/main.py:25-36 | the maze keeps its dimensions, entrance and exit, has no visited cells, and has all four walls standing on every cell of the grid |
| CarveTree.CandidateIsNeighbor | Lab2-Search/main.py:53-58 | candidate `k` of the neighbour list shifts the cell to its neighbour in direction `k`, with wall `k` on this side and the opposite wall on the other |
| CarveTree.Free | Lab2-Search/main.py:63-64 | the test of the `for` loop: the candidate neighbour is inside the grid and not yet visited |
| CarveTree.FirstFree | Lab2-Search/main.py:61-72 | the position, from `from` on, of the first candidate in the shuffled order that passes the test, or `None` when the loop ends without a carve |
| CarveTree.FirstFreeSpec | Lab2-Search/main.py:61-72 | the scan picks the first candidate that is in bounds and unvisited; it finds none exactly when no candidate is |
| CarveTree.Knock | Lab2-Search/main.py:66-67 | knocking down a wall clears exactly wall `w` of the current cell and wall `ow` of the neighbour, and keeps every other flag |
| CarveTree.KnockKeepsSymmetry | Lab2-Search/main.py:66-67 | a knock keeps every wall flag equal to its counterpart on the neighbouring cell |
| CarveTree.CarveStep | Lab2-Search/main.py:66-71 | a carving step: both sides of the wall cleared, the neighbour marked visited and pushed, with its parent and depth recorded |
| CarveTree.BacktrackStep | Lab2-Search/main.py:74-77 | a backtracking step: the top of the stack popped |
| CarveTree.CarveKeepsTree | Lab2-Search/main.py:62-70 | a carve keeps the invariant that the open walls are exactly the edges of the tree of parents, rooted at the entrance, with depths |
| CarveTree.CarveWallAt | Lab2-Search/main.py:66-67 | after a carve a wall is open exactly when it separates a cell from its new parent or child |
| CarveTree.CarveKeepsGen | Lab2-Search/main.py:62-71 | a carve keeps the whole generator invariant: the tree, the stack as a root-to-top path of the tree, and every unvisited neighbour of a visited cell having a stacked cell next to it |
| CarveTree.BacktrackKeepsGen | Lab2-Search/main.py:74-77 | popping a cell whose neighbours are all visited or out of bounds keeps the generator invariant |
| CarveTree.TreeIsSymmetric | Lab2-Search/main.py:66-67 | the walls of a carving tree are symmetric |
| CarveTree.TreePath | Lab2-Search/main.py:42-79 | every visited cell has a walk through open walls from the entrance, one step longer than its depth |
| CarveTree.TreeConnected | Lab2-Search/main.py:42-79 | every visited cell can be reached from the entrance through open walls |
| CarveTree.CarveStepOk | Lab2-Search/main.py:62-71 | one carving step keeps the generator state consistent and visits exactly one more cell |
| CarveTree.BacktrackStepOk | Lab2-Search/main.py:74-77 | one backtracking step keeps the generator state consistent |
| CarveTree.SearchCovers | Lab2-Search/main.py:45-79 | once the stack is empty every cell of the grid has been visited |
| CarveTree.SearchComplete | Lab2-Search/main.py:39-79 | a finished carving visits the whole grid and carves `width*height - 1` walls in `width*height` backtracks; the open walls are exactly the tree's edges; the walls are symmetric; every cell is reachable from the entrance |
| MazeGeneration.Generator.constructor | Lab2-Search/main.py:42-43 | generation starts with the entrance stacked and visited, on an untouched maze |
| MazeGeneration.Generator.Step | Lab2-Search/main.py:45-79 | one resumption carves toward the first free candidate in the shuffled order (yielding `Carve`), or pops the top cell (`Backtrack`), or, once the stack is empty, makes the final yield and then stops; the new state is the matching `CarveTree` step, and the remaining-steps measure falls by one |
| MazeGeneration.Generator.Advance | Lab2-Search/main.py:46-77 | with a non-empty stack one loop iteration carves or backtracks as `Step` states |
| MazeGeneration.Generator.Scan | Lab2-Search/main.py:61-64 | the loop over the shuffled candidates returns the first free one |
| MazeGeneration.Generator.KnockDown | Lab2-Search/main.py:66-71 | knocking down the wall to a free neighbour, marking it visited and pushing it is one `CarveStep` |
| MazeGeneration.Generator.Pop | Lab2-Search/main.py:74-77 | popping a cell with no free neighbour is one `BacktrackStep` |
| BfsTree.WalkBound | Lab2-Search/main.py:95-113 | under the search invariant, no walk from the start reaches a discovered cell in fewer steps than its depth, nor an undiscovered cell before the head of the queue's depth plus one |
| BfsTree.DepthIsShortest | Lab2-Search/main.py:95-113 | the depth of a discovered cell is at most the length of any walk from the start to it |
| BfsTree.ClosedWhenDrained | Lab2-Search/main.py:95-113 | when the queue is empty, no walk from the start ends at an undiscovered cell |
| BfsTree.TraceBack | Lab2-Search/main.py:116-120 | following `came_from` from a discovered cell reaches the start after exactly its depth steps, each step from a cell to its parent |
| BfsTree.ChainIsTrace | Lab2-Search/main.py:116-120 | any chain of parent links ending at the cell without a parent is the trace back |
| BfsTree.TraceIsWalk | Lab2-Search/main.py:116-121 | the reversed trace is a walk through open walls from the start to the cell |
| BfsTree.TracedPathIsShortest | Lab2-Search/main.py:95-121 | the reversed trace is a shortest walk from the start to the cell |
| BfsTree.DiscoverKeepsInv | Lab2-Search/main.py:106-113 | recording a new neighbour with the current cell as parent and enqueuing it keeps the search invariant |
| BfsTree.DiscoverKeepsShape | Lab2-Search/main.py:111-113 | the queue stays sorted by depth, spanning at most two adjacent depths |
| BfsTree.DiscoverKeepsClosure | Lab2-Search/main.py:106-113 | every discovered cell that is no longer queued has all its open neighbours discovered |
| BfsTree.DiscoverKeepsSteps | Lab2-Search/main.py:106-113 | the depths of two discovered cells joined by an open wall differ by at most one in the direction of the passage |
| BfsTree.CloseHead | Lab2-Search/main.py:95-113 | once all open neighbours of the head are discovered, dropping it from the queue keeps the invariant |
| BfsSearch.ProbeIsNeighbor | Lab2-Search/main.py:106-110 | probe `d` of the solver's list checks wall `d` and moves to the neighbour in direction `d` |
| BfsSearch.ScanOne | Lab2-Search/main.py:107-113 | one probe: with the wall down and the neighbour in bounds and not in `came_from`, the neighbour gets the current cell as parent and joins the queue; otherwise nothing changes |
| BfsSearch.ScanFrom | Lab2-Search/main.py:106-113 | the probes from direction `d` on, in the order of the loop; it keeps the current cell recorded and the phase |
| BfsSearch.ScanKeepsInv | Lab2-Search/main.py:106-113 | the whole scan of a cell keeps the search invariant |
| BfsSearch.ScanOneKeepsInv | Lab2-Search/main.py:107-113 | one probe keeps the search invariant |
| BfsSearch.ScanDiscovers | Lab2-Search/main.py:106-113 | after the scan every neighbour behind an open wall is discovered, and nothing discovered is lost |
| BfsSearch.ScanPrefix | Lab2-Search/main.py:111-113 | the scan only appends to the queue |
| BfsSearch.ScanFresh | Lab2-Search/main.py:111-113 | the cells it appends are in bounds, newly discovered and pairwise different |
| BfsSearch.ScanCount | Lab2-Search/main.py:111-113 | each appended cell leaves the set of undiscovered cells, so queue growth and undiscovered count balance |
| BfsSearch.Init | Lab2-Search/main.py:89-92 | the local state before the loop: the queue holds the start and `came_from` maps it to `None` |
| BfsSearch.InitOk | Lab2-Search/main.py:89-92 | the start state (queue `[start]`, `came_from = {start: None}`) satisfies the solver invariant |
| BfsSearch.Finish | Lab2-Search/main.py:115-125 | the end of the search: `MissingKey` when the goal is not in `came_from`, otherwise the reversed trace from the goal, whose first cell is yielded |
| BfsSearch.FinishOk | Lab2-Search/main.py:115-125 | the path rebuild raises `KeyError` exactly when the exit was never discovered, and otherwise reports the entrance first |
| BfsSearch.Dequeue | Lab2-Search/main.py:95-99 | `popleft` of the head with its `visit` event, or the end of the search when the queue is empty |
| BfsSearch.DequeueOk | Lab2-Search/main.py:95-103 | a dequeue keeps the invariant, and raises `KeyError` exactly when the queue is empty and the exit is unreachable |
| BfsSearch.SolveStep | Lab2-Search/main.py:88-125 | one resumption of `solve_gen`: from its phase, the next dequeue, the scan of the current cell followed by a dequeue, the stop at the goal, the next path cell, or the end |
| BfsSearch.SolveStepOk | Lab2-Search/main.py:88-125 | each resumption keeps the solver invariant, and a `KeyError` means the exit is unreachable from the entrance |
| BfsSearch.ScanAfter | Lab2-Search/main.py:105-113 | after scanning a dequeued cell the invariant holds for the remaining queue |
| BfsSearch.SolveStepProgress | Lab2-Search/main.py:88-125 | every resumption that yields an event strictly decreases a well-founded rank, so the generator stops |
| BfsSearch.FinishProgress | Lab2-Search/main.py:115-125 | the path rebuild moves the rank to its final stage |
| BfsSearch.DequeueProgress | Lab2-Search/main.py:95-103 | a dequeue decreases the rank |
| BfsSearch.ScanProgress | Lab2-Search/main.py:105-113 | a scan decreases the rank |
| BfsSearch.StartIsGoal | Lab2-Search/main.py:99-103 | when entrance and exit coincide, the solver visits it, reports the one-cell path and stops |
| MazeSolving.Solver.constructor | Lab2-Search/main.py:83-92 | the solver starts from the initial search state on the maze's entrance |
| MazeSolving.Solver.Step | Lab2-Search/main.py:88-125 | one resumption changes the solver state and yields exactly as `SolveStep`, and never changes the maze |
| MazeSolving.Solver.Dequeue | Lab2-Search/main.py:95-103 | popping the queue head yields its visit, or, once the queue is empty, starts the rebuild |
| MazeSolving.Solver.Expand | Lab2-Search/main.py:105-113 | the loop over the four probes is the scan `ScanFrom` |
| MazeSolving.Solver.Finish | Lab2-Search/main.py:115-121 | the path rebuild matches `BfsSearch.Finish` |
| MazeSolving.Solver.Reconstruct | Lab2-Search/main.py:115-121 | the `while node is not None` loop raises exactly when the exit is not in `came_from`, and otherwise returns the trace back from the exit |
| MazeSolving.GeneratedMazeSolves | Lab2-Search/main.py:39-125 | on a maze the generator has finished, with the exit inside the grid, no resumption of the solver raises `KeyError` |
| Util.Reversed | Lab2-Search/main.py:121 | the reversed path has the same length, with element `i` taken from the mirrored position |
| Life.LiveAt | Lab1-GameOfLife/main.py:59-60 | a cell counts 1 only when it is on the board and alive, so never more than 1 |
| Life.Neighbours | Lab1-GameOfLife/main.py:54-60 | the neighbour count is the sum over the eight surrounding cells, with off-board cells counting 0 |
| Life.RowSumClosed | Lab1-GameOfLife/main.py:55-60 | one row of the 3x3 window sums its cells, skipping the centre on the middle row |
| Life.NeighboursBound | Lab1-GameOfLife/main.py:54-60 | a cell has at most 8 live neighbours, and a corner cell at most 3 |
| Life.NextAt | Lab1-GameOfLife/main.py:54-65 | the next state of cell `(y, x)`: the rule applied to its state and its live neighbour count on the current grid |
| Life.NextState | Lab1-GameOfLife/main.py:62-65 | a cell is alive next exactly when it has 3 live neighbours, or is alive and has 2 |
| Life.CheckShape | Lab1-GameOfLife/main.py:36-37 | the shape check of `__init__` and `set_config` (lines 42-43): `ValueError` on a wrong row count, `IndexError` when `config[0]` does not exist, `ValueError` on a wrong first-row length |
| Life.CheckShapeAccepts | Lab1-GameOfLife/main.py:36-37 | a configuration is accepted exactly when it has `height` rows, at least one, of `width` cells; an empty one fails with `IndexError` when `height` is 0 |
| Life.Game.constructor | Lab1-GameOfLife/main.py:24-34 | a new game is paused, and all `height` x `width` cells start dead |
| Life.Game.FromConfig | Lab1-GameOfLife/main.py:35-39 | a game built from a configuration raises exactly the error `CheckShape` gives; otherwise it is paused and uses that very grid |
| Life.Game.SetConfig | Lab1-GameOfLife/main.py:41-44 | a configuration is installed exactly when the shape check passes, and the error is returned otherwise with the grid unchanged |
| Life.Game.CountNeighbours | Lab1-GameOfLife/main.py:54-60 | the double loop over offsets -1..1 computes `Neighbours` |
| Life.Game.Update | Lab1-GameOfLife/main.py:46-70 | when paused nothing changes; otherwise every cell takes the next state computed from the old grid |
| Life.Game.NewStates | Lab1-GameOfLife/main.py:51-65 | the new-state table holds the next state of every cell of the current grid |
| Life.Game.FillRow | Lab1-GameOfLife/main.py:53-65 | one pass of the outer loop fills row `y` with next states and leaves the other rows alone |
| Life.Game.NextCell | Lab1-GameOfLife/main.py:54-65 | the loop body computes the next state of one cell |
| Life.Game.Commit | Lab1-GameOfLife/main.py:68-70 | the copy loop writes every new state into the grid |
| Life.Game.TogglePause | Lab1-GameOfLife/main.py:107-108 | space flips the pause flag and keeps the grid |
| Life.Game.Clear | Lab1-GameOfLife/main.py:111-114 | `c` kills every cell |
| Life.Game.Click | Lab1-GameOfLife/main.py:117-120 | a click while paused flips exactly the cell under the pointer; while running it changes nothing |
| Life.BlockIsStill | Lab1-GameOfLife/main.py:134-142 | a block in an otherwise empty grid is a still life: every cell keeps its state |
| Life.PairDies | Lab1-GameOfLife/main.py:144-149 | two live cells side by side in an otherwise empty grid all die in one generation |
| Life.RowTurnsToColumn | Lab1-GameOfLife/main.py:46-70 | three live cells in a row turn into three in a column through the middle one |
| Life.ColumnTurnsToRow | Lab1-GameOfLife/main.py:46-70 | three live cells in a column turn into three in a row through the middle one |
| Life.Configurations.constructor | Lab1-GameOfLife/main.py:129-132 | the pattern factory keeps its width and height |
| Life.Configurations.Blank | Lab1-GameOfLife/main.py:135 | a fresh `height` x `width` grid of dead cells |
| Life.Configurations.Block | Lab1-GameOfLife/main.py:134-142 | a 2x2 block at the centre, or `IndexError` exactly when the grid is smaller than 3x3 |
| Life.Configurations.Blinker | Lab1-GameOfLife/main.py:144-149 | as written: two live cells at the centre, or `IndexError` exactly when the width is under 3 or the height under 1 |
| Life.Configurations.BlinkerOfThree | Lab1-GameOfLife/main.py:144-149 | corrected: three live cells in a row centred on the middle column, with the same error condition |
| Life.BlinkerDies | Lab1-GameOfLife/main.py:144-149 | the as-written blinker dies out after one generation |
| Life.BlinkerOscillates | Lab1-GameOfLife/main.py:144-149 | the corrected blinker turns into a vertical bar of three through the centre |
| Life.BlinkerReturns | Lab1-GameOfLife/main.py:144-149 | the centre column of three turns back into the blinker's row, so the corrected blinker has period two |
| Wumpus.CaveRooms | Lab4-Wumpus/main.py:4-25 | the cave's rooms are exactly 1 to 20, and the room list has twenty different rooms |
| Wumpus.CaveTunnels | Lab4-Wumpus/main.py:4-25 | each room has three different tunnels, none leading back to itself and each leading to a room |
| Wumpus.CaveSymmetric | Lab4-Wumpus/main.py:3-25 | every tunnel can be walked back |
| Wumpus.TunnelsBack | Lab4-Wumpus/main.py:4-25 | the same, for each of the three tunnels of one room |
| Wumpus.Outside | Lab4-Wumpus/main.py:37 | the comprehension `[r for r in rooms if r not in hazard_rooms]`, keeping the order of `rooms` |
| Wumpus.OutsideHas | Lab4-Wumpus/main.py:37 | the comprehension keeps exactly the rooms not in the hazard set |
| Wumpus.OutsideDistinct | Lab4-Wumpus/main.py:37 | it keeps the rooms different |
| Wumpus.OutsideIgnores | Lab4-Wumpus/main.py:37 | hazards outside the room list do not matter |
| Wumpus.OutsideSize | Lab4-Wumpus/main.py:41 | it leaves `|rooms| - |hazards|` rooms |
| Wumpus.RoomsInOrder | Lab4-Wumpus/main.py:32 | `list(CAVE.keys())` is 1 to 20 in order |
| Wumpus.FreeRooms | Lab4-Wumpus/main.py:32-45 | the free rooms are the rooms not taken, all different, twenty minus the number taken |
| Wumpus.DrawTwo | Lab4-Wumpus/main.py:37-41 | `random.sample(..., 2)` gives two different free rooms |
| Wumpus.DrawOne | Lab4-Wumpus/main.py:45-46 | `random.choice` gives a free room |
| Wumpus.Reset | Lab4-Wumpus/main.py:31-50 | `reset_game` for given draws: the wumpus, then two pits and two bats sampled from the rooms still free, then the player from what remains; five arrows and both flags cleared |
| Wumpus.ResetApart | Lab4-Wumpus/main.py:31-50 | after a reset the wumpus, the two pits, the two bats and the player are in six different rooms, with five arrows, and the game is neither over nor won |
| Wumpus.CanDrawTwo | Lab4-Wumpus/main.py:37-41 | any two different free rooms can be the sample |
| Wumpus.CanDrawOne | Lab4-Wumpus/main.py:45-46 | any free room can be the choice |
| Wumpus.ResetReachesEvery | Lab4-Wumpus/main.py:31-50 | every placement of six different rooms is the outcome of some draws |
| Wumpus.WarningsAt | Lab4-Wumpus/main.py:55-60 | the warnings for one neighbouring room, in the order stench, breeze, rustling |
| Wumpus.Warnings | Lab4-Wumpus/main.py:52-61 | `adjacent_hazards`: the warnings of each tunnel in turn, concatenated |
| Wumpus.WarningsCount | Lab4-Wumpus/main.py:52-61 | the warnings hold one stench per tunnel to the wumpus, one breeze per tunnel to a pit and one rustling per tunnel to bats, and nothing else |
| Wumpus.WarningsAtCount | Lab4-Wumpus/main.py:55-60 | one neighbour adds a stench, a breeze and a rustling exactly when it holds the wumpus, a pit or bats |
| Wumpus.HitsDisjoint | Lab4-Wumpus/main.py:52-61 | with disjoint hazards there are at most as many warnings as tunnels |
| Wumpus.HitsNone | Lab4-Wumpus/main.py:52-61 | no warning of a kind exactly when no tunnel leads to that hazard |
| Wumpus.WarningsSound | Lab4-Wumpus/main.py:52-61 | a stench exactly when the wumpus is next door, a breeze exactly when a pit is, a rustling exactly when bats are; at most three warnings |
| Wumpus.Move | Lab4-Wumpus/main.py:63-84 | `move_player` for a given bat drop: refuse a room that is not adjacent, end the game in the wumpus room or a pit, drop the player from a bat room into room `Rooms[drop]` and check the wumpus and pits again |
| Wumpus.MoveOutcome | Lab4-Wumpus/main.py:63-84 | a room that is not adjacent changes nothing; otherwise the player ends in the room, or where the bat drops them, and the game ends exactly when that last room holds the wumpus or a pit; nothing else changes |
| Wumpus.WumpusMove | Lab4-Wumpus/main.py:111-115 | `move_wumpus` for a given tunnel pick: the wumpus takes that tunnel and the game ends if it enters the player's room |
| Wumpus.WumpusMoveOutcome | Lab4-Wumpus/main.py:111-115 | the wumpus walks down one of its tunnels, every tunnel is possible, and the game ends exactly when it walks into the player |
| Wumpus.Hop | Lab4-Wumpus/main.py:93-96 | one hop of the arrow: the named room when a tunnel leads there, otherwise the ricochet pick among the tunnels |
| Wumpus.Flight | Lab4-Wumpus/main.py:91-96 | the arrow passes one room per path entry, each a neighbour of the one before, and the named room wherever a tunnel leads there |
| Wumpus.Outcome | Lab4-Wumpus/main.py:97-106 | what a flight through the given rooms does: `Hit` at the first wumpus room, `Backfire` at the first return to the player, `Missed` when it reaches neither |
| Wumpus.OutcomeSnoc | Lab4-Wumpus/main.py:92-105 | a flight that has missed so far decides on its next room: the wumpus is a hit, the player a backfire |
| Wumpus.OutcomeStops | Lab4-Wumpus/main.py:97-105 | once it hits or backfires, later rooms do not matter |
| Wumpus.OutcomeMeaning | Lab4-Wumpus/main.py:92-106 | a hit exactly when the arrow reaches the wumpus before it passes the player; a miss exactly when it reaches neither |
| Wumpus.Shoot | Lab4-Wumpus/main.py:86-109 | `shoot_arrow` for given ricochet picks and wake draw: nothing without arrows; otherwise one arrow spent, then victory on a hit, game over on a backfire, and on a miss the wumpus moves when it wakes |
| Wumpus.ShootOutcome | Lab4-Wumpus/main.py:86-109 | with no arrows nothing changes; otherwise one arrow is spent, the game is won exactly on a hit, a hit or backfire ends the game with the wumpus in place, and a miss without waking changes nothing else |
| Wumpus.Game.constructor | Lab4-Wumpus/main.py:28-29 | a new game is a reset |
| Wumpus.Game.ResetGame | Lab4-Wumpus/main.py:31-50 | the fields become the `Reset` of the draws |
| Wumpus.Game.AdjacentHazards | Lab4-Wumpus/main.py:52-61 | the loop returns the warnings for the player's tunnels, in order |
| Wumpus.Game.MovePlayer | Lab4-Wumpus/main.py:63-84 | the fields become `Move` of the old ones |
| Wumpus.Game.MoveWumpus | Lab4-Wumpus/main.py:111-115 | the fields become `WumpusMove` of the old ones |
| Wumpus.Game.ShootArrow | Lab4-Wumpus/main.py:86-109 | the fields become `Shoot` of the old ones |
| Wumpus.Game.Fly | Lab4-Wumpus/main.py:91-105 | the arrow loop stops with the outcome of the flight |
| Inference.Lookup | Lab5-Inference/main.py:25 | `dict.get`: the value stored under a key, or `None` |
| Inference.LookupUnique | Lab5-Inference/main.py:5-10 | on an entry whose keys are distinct, as in a dictionary, a lookup gives `v` exactly when the pair `(k, v)` is stored |
| Inference.LookupKeys | Lab5-Inference/main.py:30 | `node.get(k)` finds a value exactly when `k in node` |
| Inference.LookupFinds | Lab5-Inference/main.py:45 | a found value is stored under that key |
| Inference.Index | Lab5-Inference/main.py:15 | `{entry['node']: entry for entry in transition_table}`, later entries overwriting earlier ones, or `None` where an entry has no `node` and the comprehension raises `KeyError` |
| Inference.IndexDefined | Lab5-Inference/main.py:15 | the index builds exactly when every entry has a `node` key, and raises `KeyError` otherwise |
| Inference.IndexKeys | Lab5-Inference/main.py:15 | the index's keys are exactly the ids of the entries |
| Inference.IndexLaterWins | Lab5-Inference/main.py:15 | an id maps to the last entry that carries it |
| Inference.IndexedById | Lab5-Inference/main.py:15 | every entry of the index carries its key as its id |
| Inference.Strip | Lab5-Inference/main.py:40 | `strip()` never lengthens and leaves no white space at either end |
| Inference.Lower | Lab5-Inference/main.py:40 | `lower()` maps each character |
| Inference.Normalize | Lab5-Inference/main.py:40 | `.strip().lower()` of an input line |
| Inference.StripStripped | Lab5-Inference/main.py:40 | stripping a string with no edge white space keeps it |
| Inference.LowerKeepsSpace | Lab5-Inference/main.py:40 | lower-casing keeps white space and non-space apart |
| Inference.NormalizeIdempotent | Lab5-Inference/main.py:40 | stripping and lower-casing twice is doing it once, and leaves no capital letter |
| Inference.NormalizePlain | Lab5-Inference/main.py:40 | an answer without edge white space or capitals is read as typed |
| Inference.Options | Lab5-Inference/main.py:36-37 | the keys of a node other than `node` and `question`, in key order |
| Inference.Question | Lab5-Inference/main.py:34 | `node.get('question', '[No question specified]')` |
| Inference.Run | Lab5-Inference/main.py:22-45 | the `while True` loop of `solve` over the given input lines: the error and `None` for an unknown id, the classification at a leaf, otherwise the prompt, one answer read, and either the invalid-answer message or a move to `node[answer]`; out of input stands for `EOFError`; together with the log of prompts and messages |
| Inference.OptionsExact | Lab5-Inference/main.py:37 | the options are the keys other than `node` and `question`, in the order of the keys |
| Inference.InvalidAsksAgain | Lab5-Inference/main.py:41-43 | an answer that is not a key of the node keeps the walk on that node and asks again |
| Inference.StopsWithoutReading | Lab5-Inference/main.py:25-32 | an unknown id returns `None` and a classification is returned, both without reading input |
| Inference.NodeAnswerStays | Lab5-Inference/main.py:37-45 | the answer `node` is not listed, yet it is accepted and keeps the walk on the same node |
| Inference.ResultReached | Lab5-Inference/main.py:24-45 | a returned classification belongs to a node reached from the start by a chain of answer keys |
| Inference.QuestionAnswerLost | Lab5-Inference/main.py:34-45 | the answer `question` is not listed, yet it is accepted, and when the question text is not an id the walk ends with `None` |
| Inference.ClosedNeverUnknown | Lab5-Inference/main.py:36-45 | corrected walk: accepting only listed options, it never meets an unknown id in a table whose targets are all defined |
| Inference.RunChecked | Lab5-Inference/main.py:36-45 | corrected: the same walk, but an answer is accepted only when it is one of the listed options |
| Inference.RunCheckedAgrees | Lab5-Inference/main.py:36-45 | the corrected walk and the walk as written agree on every input that never answers `node` or `question` |
| Inference.FinishesWithin | Lab5-Inference/main.py:24-45 | from a node whose listed answers all reach a classification within `n` answers, the walk returns one after reading at most `n` listed answers |
| Inference.DecisionTreeSolver.constructor | Lab5-Inference/main.py:13-16 | the walker keeps the index and the start node it is given |
| Inference.DecisionTreeSolver.Create | Lab5-Inference/main.py:13-16 | `__init__` raises (`None`) exactly when some entry has no `node`; otherwise the new walker holds `Index` of the table and the start node |
| Inference.DecisionTreeSolver.Solve | Lab5-Inference/main.py:18-45 | the loop returns the outcome of the walk from the start node, and prints and asks exactly its log |
| InferenceSample.AskEntry | Lab5-Inference/main.py:63-148 | a yes/no entry holds no classification and lists `yes` and `no`, which lead to its two targets |
| InferenceSample.IdsApart | Lab5-Inference/main.py:50-165 | no two entries of the table share an id |
| InferenceSample.RootOptions | Lab5-Inference/main.py:51-60 | the root lists its six fields as options, in order |
| InferenceSample.RootAsks | Lab5-Inference/main.py:51-60 | the root asks its question and holds no classification |
| InferenceSample.RootTargets | Lab5-Inference/main.py:54-59 | each field of the root leads to its branch |
| InferenceSample.RootLeads | Lab5-Inference/main.py:51-60 | the root asks "What is their primary field?", and each of its options leads to an entry needing fewer answers |
| InferenceSample.AskLeads | Lab5-Inference/main.py:63-148 | a yes/no entry whose targets need fewer answers leads on, and its four keys are distinct |
| InferenceSample.PhysicsLeads | Lab5-Inference/main.py:62-86 | the physics questions lead on and repeat no key |
| InferenceSample.BiologyLeads | Lab5-Inference/main.py:88-100 | the biology questions lead on and repeat no key |
| InferenceSample.ChemistryLeads | Lab5-Inference/main.py:102-114 | the chemistry questions lead on and repeat no key |
| InferenceSample.MathematicsLeads | Lab5-Inference/main.py:116-134 | the mathematics questions lead on and repeat no key |
| InferenceSample.ComputerScienceLeads | Lab5-Inference/main.py:136-148 | the computer science questions lead on and repeat no key |
| InferenceSample.QuestionsLead | Lab5-Inference/main.py:50-148 | every question entry leads on |
| InferenceSample.LeavesClassify | Lab5-Inference/main.py:150-164 | every leaf entry holds its classification |
| InferenceSample.RootDistinct | Lab5-Inference/main.py:51-60 | the root's eight keys are distinct |
| InferenceSample.SampleDistinctKeys | Lab5-Inference/main.py:50-165 | no entry of the table repeats a key, so first-match lookup agrees with the dictionaries |
| InferenceSample.SampleIndexed | Lab5-Inference/main.py:50-167 | the table indexes without a missing id, files each of its twenty-eight ids with its own entry, and holds nothing else |
| InferenceSample.SampleClosed | Lab5-Inference/main.py:50-165 | every target the table names is an id of the table |
| InferenceSample.SampleWithin | Lab5-Inference/main.py:50-165 | from every entry, listed answers reach a classification within the entry's height |
| InferenceSample.SampleFinishes | Lab5-Inference/main.py:50-168 | from the root, a walk giving only listed answers returns a classification after at most five answers |
| InferenceSample.QuestionNotAnId | Lab5-Inference/main.py:51-53 | the root's question text is not an id of the table |
| InferenceSample.QuestionAtRoot | Lab5-Inference/main.py:34-60 | at the root, the answer `question` ends the walk with `None` |
| InferenceSample.SampleNeverUnknown | Lab5-Inference/main.py:36-60 | on this table the corrected walk from the root never meets an unknown id |

## Left out

- Drawing and the event loops are not modelled. This covers `visualize` in Lab 2, `draw` and the pygame plumbing of `run` in Lab 1, the console loop `play` in Lab 4 (with its parsing of commands and its three-room limit), and the `__main__` blocks. They only render, or feed the modelled operations.
- Randomness is a parameter:
  - `random.shuffle` becomes a permutation `order` of the four candidates;
  - `random.choice` and `random.sample` become indices into the list drawn from;
  - `random.random() < 0.75` becomes a boolean `wakes`.
  The model proves facts for every outcome, not for the distribution.
- Wumpus: the messages printed by the game methods are not modelled; only their effect on the fields is.
- Inference: `input_func` becomes a finite list of answer lines and `print_func` becomes an event log. An exhausted input list stands for `EOFError` (`OutOfInput`).
- Inference.Strip: the white space set is Python's `str.isspace` on single characters.
- Inference.Lower: maps only `A`-`Z`; the Unicode case mappings of `str.lower` beyond ASCII (including those that change the length) are not modelled.
- Life: a configuration is an `array2<bool>`. The `Cell` objects (position, display, size) are not modelled, so a ragged list of rows, which the source accepts because it checks only the first row's length, cannot be expressed.
- Life.Game.Click: requires the pointer inside the window, which is where pygame reports clicks. A position outside would raise `IndexError` or wrap to the other side through Python's negative indices.
- MazeGrid.Maze.constructor: requires the entrance and the exit inside the grid, as the program's `__main__` draws them. With an entrance outside, the source raises `KeyError` on its first wall update.
- MazeGeneration.Generator.constructor: requires a freshly built maze with every wall standing, which is how the program uses `generate_gen`. A second run over an already carved maze is not modelled.
- MazeGeneration.Generator.constructor: stacks the entrance and marks it visited when the generator is built, where `generate_gen` does so on its first resumption (lines 42-43); nothing reads the maze in between.
- Inference: an entry is a list of (key, value) pairs, so it could repeat a key, which a dictionary cannot. `Lookup` takes the first match. A dictionary literal with a repeated key keeps the last value. The two agree on entries with distinct keys (`DistinctKeys`, `LookupUnique`), and every entry of the sample table has distinct keys.
- MazeSolving.Solver.Step: the solver's local state (`queue`, `came_from`) starts in the constructor rather than on the first resumption; nothing observes the difference.
- Wumpus.ShootOutcome: `random.random()` is a float draw. Only its comparison with 0.75 matters to the game, and that comparison is the boolean `wakes`.

## Findings

| source | as written | input that shows it | evidently intended | confidence | as-written member | corrected member |
|---|---|---|---|---|---|---|
| Lab1-GameOfLife/main.py:144-149 | `get_blinker` sets two adjacent live cells | any grid at least 3 wide: the two cells have one live neighbour each and die, so the pattern vanishes after one generation | a blinker is three cells in a row that oscillates between a row and a column | not executed | Life.BlinkerDies | Life.BlinkerOscillates |
| Lab5-Inference/main.py:36-45 | the answer is accepted when it is any key of the node (`answer not in node`), including `node` and `question` | at the root, answering `question` moves to the id "What is their primary field?", which is not defined, so `solve` prints an unknown-node error and returns `None` | only the listed options are accepted, as the comment on line 36 says | not executed | Inference.QuestionAnswerLost | Inference.ClosedNeverUnknown |
