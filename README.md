# Maze generator core, modelled in Dafny

This project models the logic at the heart of `maze_generator.py`, a pygame
maze game. It covers:

- the grid of `Block`s: four wall flags, a visited flag and `borders()`;
- the `Maze` class:
  - `reset`, `unblock` and `find_neighbours`;
  - the recursive backtracker `generate`;
  - the whole-grid audits `check_visited` and `check_valid`;
  - the ring search `find_cell` and `find_exits`, which place the start and finish on dead ends;
  - the viewport ("frame") arithmetic: `restrict_zoom`, `update_frame_pos`, `align_frame`, `set_frame_quadrant`, `set_frame_center` and `scroll`;
  - the line-width table;
  - the hold-to-repeat controls `zoom` and `expand_lines`;
- the `Player` class: movement through open walls, the speed and size clamps, and the one-shot escape check with its victory symbol;
- `Background.resize_frame`.

## Modules

| file | module | what it holds |
|---|---|---|
| `block.dfy` | `Blocks` | `Cell` and `Block` values, `borders()`, adjacency |
| `numeric.dfy` | `PyNum` | Python's `int()` truncation, `round()` half to even, negative list indices, the clamp pattern |
| `random.dfy` | `Randomness` | `random.randint` as a class whose draws come from an injected oracle |
| `grid.dfy` | `Grid` | the grid as a value, walls between neighbours, a fresh grid, opening a wall, visited sets, counting, the spanning-tree records |
| `carving.dfy` | `Carving` | what one call of `generate(cell)` establishes, and what a whole run from a fresh grid leaves |
| `ring.dfy` | `Ring` | the ring walk of `find_cell` as a function, its search over growing radii, and the "nearest ring" properties |
| `viewport.dfy` | `Viewport` | frame size, clamping, aligning, quadrants, centring, scrolling, line widths |
| `timer.dfy` | `HoldRepeat` | the delay/interval counter shared by the hold-to-repeat controls, and its firing schedule |
| `maze.dfy` | `MazeModel` | the imperative `Maze` class and the loops and recursion of `find_cell` and `generate` |
| `player.dfy` | `PlayerModel` | movement on values with its lemmas, and the imperative `Player` class |
| `background.dfy` | `BackgroundModel` | the `Background` border control |

The grid is a `seq<seq<Block>>` held in the field `Maze.data`. Methods
reassign it through value-level functions such as `SetBlock` and `OpenWall`,
and their contracts tie the new grid to those functions.

`generate` is a recursive method. Its measure is the set of unvisited cells,
so the recursion always ends. Ghost records follow the spanning tree it
carves: `entered` maps each cell to the cell it was entered from, and `stamp`
records the order of first visits. `random.randint` draws from an injected
oracle `roll`, so every choice sequence the real generator can make is
covered.

`find_cell`'s `while True` loop is a method with a fuel bound of
`8 * radius + 2` iterations per ring. That is the ring's perimeter, plus one
step to see the return to the start, plus one for the radius-0 ring. A walk
that has not closed by then ends with the outcome `Cutoff`, so no run of the
source is claimed to be infinite or finite beyond that bound.

Python's list indexing is written out exactly:

- a position still off the grid after the two clamping passes wraps around when it is negative;
- otherwise it ends the search with `IndexFault`, the source's `IndexError`.

Frame positions and sizes are exact reals.

## Model

| member | source | states |
|---|---|---|
| `Blocks.NewBlock` | maze_generator.py:67-78 | a new block sits at its own position with all four walls standing (four borders), 0/1 flags, not visited |
| `Blocks.Borders` | maze_generator.py:80-85 | with 0/1 flags the border count lies in 0..4 and is 4 exactly when all four walls stand |
| `Blocks.Candidates` | maze_generator.py:527-529 | the four candidates are exactly the cells sharing a wall with the cell, in the order left, up, right, down |
| `PyNum.ClampTo` | maze_generator.py:1064-1067 | the clamp pattern lands in `[lo, hi]`; it leaves an in-range value alone and sends values above or below to the nearer bound |
| `PyNum.ClampShift` | maze_generator.py:390-395 | clamping part-way through a monotone run of steps changes nothing: the bound reached is kept |
| `PyNum.Trunc` | maze_generator.py:169 | `int(x)` truncates toward zero, from below for non-negative and from above for negative values |
| `PyNum.TruncExactIffWhole` | maze_generator.py:418 | `x - int(x) == 0` holds exactly for whole numbers of either sign |
| `PyNum.RoundHalfEven` | maze_generator.py:427 | `round(x)` is within one half of `x`, and on a tie it is even |
| `PyNum.RoundMonotone` | maze_generator.py:427 | rounding preserves order |
| `PyNum.PyIndex` | maze_generator.py:702 | a list index is accepted exactly in `-n..n-1` and then names `i` or `i + n` |
| `Randomness.RandomSource.RandInt` | maze_generator.py:567 | `randint(lo, hi)` lies in `lo..hi`, is the oracle's next draw folded into the range, and consumes one draw |
| `Grid.FreshGridOk` | maze_generator.py:199-209 | a fresh grid is valid (positions, 0/1 flags, symmetric walls, closed boundary), has no visited cell, and every block has four borders |
| `Grid.WallSymmetric` | maze_generator.py:510-522 | in a valid grid the wall between two neighbours reads the same from both sides |
| `Grid.Classify` | maze_generator.py:501-509 | `unblock`'s status is success exactly for neighbours, -2 exactly for the same cell, -3 exactly for a diagonal, -1 exactly when an offset exceeds 1 |
| `Grid.OpenWall` | maze_generator.py:510-522 | the facing walls of the two cells are both 0 afterwards, every other block is unchanged, and no position or visited flag changes |
| `Grid.OpenWallEffect` | maze_generator.py:510-522 | removing the barrier changes exactly the wall between the pair, seen from either side, and no other wall |
| `Grid.OpenWallOk` | maze_generator.py:494-522 | opening a wall between two neighbours of a valid grid leaves it valid |
| `Grid.OpenWallSymmetric` | maze_generator.py:510-522 | the walls still agree from both sides after `unblock` clears a facing pair |
| `Grid.OpenWallBoundary` | maze_generator.py:510-522 | `unblock` between two cells of the grid never opens an outer wall |
| `Grid.SetVisitedWalls` | maze_generator.py:559-560 | marking the current block visited changes no wall, keeps the grid valid, and visits only that cell |
| `Grid.SetVisitedEffect` | maze_generator.py:559-560 | `curr_block.visited = 1` makes that block visited and changes no other block |
| `Grid.SetVisitedSymmetric` | maze_generator.py:559-560 | the walls still agree from both sides after a block is marked visited |
| `Grid.SetVisitedBoundary` | maze_generator.py:559-560 | marking a block visited opens no outer wall |
| `Grid.VisitedCellsAt` | maze_generator.py:546-553 | the visited and unvisited cell sets hold exactly the in-bounds cells with and without the flag |
| `Grid.KeepUnvisited` | maze_generator.py:530-543 | the kept candidates are exactly those in bounds and unvisited, never more than given |
| `Grid.UnvisitedNeighbours` | maze_generator.py:524-544 | `find_neighbours` yields at most four cells, exactly the in-bounds, adjacent, unvisited ones |
| `Grid.NoUnvisitedNeighbours` | maze_generator.py:565 | the loop of `generate` ends exactly when every neighbour of the cell is visited |
| `Grid.CountRowFull` | maze_generator.py:549-552 | a row counts its full length exactly when every block in it is visited |
| `Grid.CountRowsBound` | maze_generator.py:546-553 | the visited count of the first `k` rows is at most `k * cols` |
| `Grid.CountAllVisited` | maze_generator.py:546-553 | `check_visited` reaches `k * cols` over `k` rows exactly when all their blocks are visited |
| `Grid.ClosedSetIsGrid` | maze_generator.py:565-583 | a set of cells that holds one grid cell and is closed under stepping to neighbours holds every grid cell |
| `Grid.PathToRoot` | maze_generator.py:555-589 | from every cell the generator stamped, a walk through open walls leads to a root of the tree |
| `Grid.OpenWallKeepsUnvisited` | maze_generator.py:571 | `unblock` leaves the unvisited cells as they were |
| `Grid.UnvisitedShrinks` | maze_generator.py:560 | visiting a new cell while flags only grow strictly shrinks the unvisited set (the recursion's measure) |
| `Grid.NeighboursVisitedGrows` | maze_generator.py:581-583 | a cell whose neighbours are all visited keeps that property while flags only grow |
| `Grid.OpenWallBorders` | maze_generator.py:742 | a cell with an open wall has fewer than four borders |
| `Grid.FreshTree` | maze_generator.py:199-209 | a fresh grid has no open wall, so the empty tree describes it |
| `Grid.TreeGrows` | maze_generator.py:571-580 | carving from a stamped cell into an unstamped neighbour grows the tree by exactly that edge |
| `Grid.TreeGrowsEdges` | maze_generator.py:571-580 | after carving, every recorded edge is an open wall between neighbours whose parent was stamped first |
| `Grid.TreeGrowsWalls` | maze_generator.py:571-580 | after carving, every open wall is a recorded edge |
| `Grid.TreeSetVisited` | maze_generator.py:559-560 | marking a block visited keeps the tree |
| `Grid.AllVisitedFromSeed` | maze_generator.py:555-589 | a visited seed, with every visited cell's neighbours visited, means the whole grid is visited |
| `Carving.SetVisitedAdvances` | maze_generator.py:559-560 | marking the cell visited only raises flags, visits that cell, and newly visits nothing else |
| `Carving.TreeStampOnEntry` | maze_generator.py:555-560 | stamping the cell on entry keeps the tree |
| `Carving.ProgressStart` | maze_generator.py:555-563 | after entry the progress relation of `generate(cell)` holds, and the cell has an unvisited neighbour exactly when it had one before |
| `Carving.CarveReady` | maze_generator.py:567-580 | after the wall to the chosen neighbour is opened and the neighbour recorded, the recursive call's assumptions hold, with fewer unvisited cells than at entry |
| `Carving.CarveShrinks` | maze_generator.py:571-580 | opening the wall still leaves fewer unvisited cells than when `generate(cell)` began |
| `Carving.CarveStamps` | maze_generator.py:571-580 | the stamps stay older than the clock and on visited cells, the new neighbour pending |
| `Carving.OpenWallOnlyOpens` | maze_generator.py:510-522 | `unblock` keeps the grid valid, only lowers wall flags and changes no visited flag |
| `Carving.AdvanceTrans` | maze_generator.py:565-586 | advancing the grid (valid, walls down, flags up) is transitive |
| `Carving.ClosedCompose` | maze_generator.py:580-583 | the cells newly visited over one loop iteration have all their neighbours visited and are stamped |
| `Carving.RecordsCompose` | maze_generator.py:580-583 | over one iteration the records only grow, new entries are fresh cells, and every new stamp was entered |
| `Carving.ProgressCompose` | maze_generator.py:580-583 | after the recursive call the progress of `generate(cell)` carries over, the wall to the neighbour is open, and fewer cells are unvisited |
| `Carving.GridCompose` | maze_generator.py:571-583 | over one iteration the grid advances, the carved wall stays open and the unvisited set shrinks |
| `Carving.AdvanceOverCarve` | maze_generator.py:571-580 | opening the wall changes no visited flag, so advancing after it is advancing from before it |
| `Carving.StaysOpen` | maze_generator.py:571-580 | a wall opened by `unblock` stays open in every later grid |
| `Carving.FreshReady` | maze_generator.py:194-195 | a grid fresh from `reset` with empty records is ready for `generate(seed)` |
| `Carving.SeedHasNeighbour` | maze_generator.py:524-529 | on a grid of more than one cell every cell has a neighbour on the grid |
| `Carving.CarvedEverywhere` | maze_generator.py:555-589 | after a whole run every cell is visited and stamped, and the entered cells are exactly those other than the seed |
| `Carving.CarvedNoWalledIn` | maze_generator.py:738-745 | with every non-seed cell entered through an open wall and the seed opened, no block keeps four walls |
| `Carving.GeneratedMaze` | maze_generator.py:555-589 | a whole run from a fresh grid leaves a spanning tree of the grid with every block visited, and `check_visited` counts `rows * cols` |
| `Carving.SpanningConnected` | maze_generator.py:555-589 | in the spanning tree a run leaves, every cell of the grid is joined to the seed by a walk through open walls |
| `Carving.RowCellsCount` | maze_generator.py:202-207 | a row of the grid holds `cols` cells |
| `Carving.GridCellsCount` | maze_generator.py:202-207 | the grid holds `rows * cols` cells |
| `Carving.SpanningEdges` | maze_generator.py:555-589 | the spanning tree has `rows * cols - 1` edges, one per cell other than the seed |
| `Ring.Index` | maze_generator.py:702 | `data[row][col]` reads a cell of the grid when it reads anything, and reads in-bounds positions as themselves |
| `Ring.WalkCloses` | maze_generator.py:693-696 | an iteration that comes back to the start position closes the ring |
| `Ring.WalkFaults` | maze_generator.py:702 | an iteration at a position Python cannot index ends the walk with the fault |
| `Ring.WalkGoesOn` | maze_generator.py:684-729 | any other iteration inspects the clamped cell, steps (unless radius 0) and goes on with the start fixed |
| `Ring.WalkFromInBounds` | maze_generator.py:702 | every cell the walk inspects lies on the grid |
| `Ring.RingWalk` | maze_generator.py:591-729 | the walk of one ring only inspects cells of the grid |
| `Ring.FirstMatch` | maze_generator.py:701-706 | the first match has `n` borders with none before it; no match means no inspected cell has `n` borders |
| `Ring.FirstMatchAfter` | maze_generator.py:701-706 | after a prefix with no match, a matching cell is the first match |
| `Ring.FirstMatchNone` | maze_generator.py:701-706 | a walk with no cell of `n` borders has no first match |
| `Ring.Search` | maze_generator.py:591-736 | a found block has `n` borders and is a block of the grid |
| `Ring.SearchFoundOnGrid` | maze_generator.py:702-706 | on a well-formed grid a found block sits at its own position |
| `Ring.FoundOnNearestRing` | maze_generator.py:591-736 | a found block is the first match of the smallest radius (from the starting one) that has a match; every ring before it was walked to its end without one |
| `Ring.SearchPassesRing` | maze_generator.py:731-736 | a search that finds nothing on its first ring exhausted that ring and returns what the next radius returns |
| `Ring.NoMatchMeansAllRingsSearched` | maze_generator.py:731-734 | -1 comes back only after every ring from the starting radius up to `max(rows, cols) - 1` was walked to its end without a match |
| `Ring.NoMatchExhaustsRing` | maze_generator.py:731-736 | a -1 result walked its first ring to the end, and below the last radius the next radius also gives -1 |
| `Ring.RadiusZeroRing` | maze_generator.py:599-622 | the ring of radius 0 around a grid cell is that cell alone, and the walk closes |
| `Viewport.RestrictedZoom` | maze_generator.py:320-328 | with at least 3 rows and columns the zoom ends in `3..min(rows, cols)`; an admissible zoom is kept, a too small one raised to 3 |
| `Viewport.Stretched` | maze_generator.py:266-269 | the long axis of the frame is at least the tile count and at most the grid's long side |
| `Viewport.FrameSizeFor` | maze_generator.py:252-270 | one axis of the frame size is whole, and for an admissible zoom both axes lie between the tile count and the grid's extent |
| `Viewport.ClampAxis` | maze_generator.py:408-411 | a frame no longer than the axis ends inside it, and a frame already inside stays put |
| `Viewport.ClampFrameInside` | maze_generator.py:405-411 | `update_frame_pos` puts a frame that fits inside the grid, leaves a frame inside where it is, and is idempotent |
| `Viewport.AlignFrameInside` | maze_generator.py:413-428 | aligning a frame that fits and is inside keeps it inside |
| `Viewport.ClampWholeAxis` | maze_generator.py:426-428 | clamping a whole position with whole size and extent gives a whole position |
| `Viewport.AlignFrameIdempotent` | maze_generator.py:413-428 | aligning twice is aligning once, provided one axis of the frame size is whole (the zoom axis always is) |
| `Viewport.QuadrantFrameCorner` | maze_generator.py:430-442 | the quadrant frame is inside the grid in a corner; quadrants 1-2 pin the top and 2-3 the left; anything outside 1..4 acts as 3 |
| `Viewport.CenterOn` | maze_generator.py:446-447 | the frame's middle falls on the middle of the cell |
| `Viewport.CenteredCellVisible` | maze_generator.py:444-450 | centring on a cell and clamping keeps that cell in view |
| `Viewport.ScrollFrameBounded` | maze_generator.py:284-294 | one scroll step from inside moves each coordinate by at most half a tile and stays inside |
| `Viewport.LineSizeFor` | maze_generator.py:350-368 | the width lies in 1..15, is 15 exactly up to 3 tiles and 1 exactly beyond 15 tiles |
| `Viewport.LineSizeAntitone` | maze_generator.py:350-368 | showing more tiles never makes the lines thicker |
| `HoldRepeat.Press` | maze_generator.py:296-318 | a released control rearms and does not act; a held one acts exactly when its counter has run down, and is continuous afterwards |
| `HoldRepeat.HoldCounting` | maze_generator.py:301-318 | held continuously with `c` frames left, the control acts after `c` frames and then once every `interval + 1` frames |
| `HoldRepeat.HoldFromRest` | maze_generator.py:296-318 | held from rest, the control acts at once, again after the initial delay, then once per interval |
| `HoldRepeat.HoldValueClamped` | maze_generator.py:375-397 | holding a clamped control moves the value by the step once per action, clamped once at the end |
| `HoldRepeat.HoldValueFromRest` | maze_generator.py:1086-1108 | held from rest, the value follows the firing schedule, clamped |
| `HoldRepeat.ScrollIsPress` | maze_generator.py:284-294 | `scroll`'s counter is the shared counter with delay equal to interval: it always rearms with `scroll_delay` |
| `MazeModel.ClampWalker` | maze_generator.py:650-682 | the two clamping passes move the walker as the clamp function prescribes |
| `MazeModel.StepWalker` | maze_generator.py:708-729 | one step along the ring, turning at corners, as the step function prescribes |
| `MazeModel.StartAt` | maze_generator.py:595-644 | the start corner and first axis are those `dir` and `cw` select, the `y == x` test included |
| `MazeModel.VisitNext` | maze_generator.py:648-706 | one loop iteration closes, faults, or inspects the next cell of the ring walk and leaves the rest of the walk |
| `MazeModel.WalkOn` | maze_generator.py:648-729 | the loop returns the first block with `n` borders on the walk, and otherwise how the walk ended |
| `MazeModel.WalkRing` | maze_generator.py:591-729 | walking one ring returns its first match, or how the walk of that ring ended |
| `MazeModel.UnblockGrid` | maze_generator.py:494-522 | the status is the error classification; on success the facing walls are opened, otherwise the grid is unchanged; the grid stays valid |
| `MazeModel.FindNeighbours` | maze_generator.py:524-544 | the neighbours are the in-bounds unvisited ones in order left, up, right, down, and the blocks list has the same length with each entry the block at that neighbour |
| `MazeModel.GenerateOn` | maze_generator.py:555-589 | the call advances the grid and records, leaves every neighbour of the cell visited, and opens a wall of the cell if it had an unvisited neighbour |
| `MazeModel.CarveOn` | maze_generator.py:567-586 | one loop iteration keeps the call's progress, opens the wall to the chosen neighbour and shrinks the unvisited set |
| `MazeModel.GenerateFresh` | maze_generator.py:194-195 | `generate(seed)` on a fresh grid yields a spanning tree rooted at the seed with `rows * cols - 1` edges, every block visited |
| `MazeModel.FindCell` | maze_generator.py:591-736 | the result is the ring search over growing radii; a found block has `n` borders and sits at its own position on the grid |
| `MazeModel.Maze.constructor` | maze_generator.py:149-190 | the fields as `__init__` sets them: fresh grid, restricted starting zoom, frame size from the zoom, adaptive line width, counters at rest |
| `MazeModel.Maze.Reset` | maze_generator.py:199-209 | the grid is rows lists of cols fresh blocks and both exits are cleared |
| `MazeModel.Maze.Unblock` | maze_generator.py:494-522 | `unblock` on the maze's grid, with its status and effect as `UnblockGrid`, keeping the maze valid |
| `MazeModel.Maze.CheckVisited` | maze_generator.py:546-553 | the count of visited blocks, equal to `rows * cols` exactly when every block is visited |
| `MazeModel.Maze.CheckValid` | maze_generator.py:738-745 | the result is true exactly when no block has four borders |
| `MazeModel.Maze.FindExits` | maze_generator.py:856-861 | start and finish are the blocks the searches from the bottom-left (clockwise) and the top-right (counter-clockwise) corners return, as `ExitsFrom` states; an exit whose search fails keeps its value; success means both exits are dead ends of the grid |
| `MazeModel.Maze.Remap` | maze_generator.py:192-197 | the grid is a spanning tree carved from the seed; the exits are the blocks the two searches return on that grid, dead ends when both are found; the frame is centred on the start and clamped inside the grid, or stays put without a start |
| `MazeModel.Maze.Recarve` | maze_generator.py:194-195 | `reset` then `generate(seed)`: the grid is a spanning tree with every block visited and no exits |
| `MazeModel.Maze.CarvedSpans` | maze_generator.py:555-589 | a carved grid joins every cell to the seed through open walls, with `rows * cols - 1` tree edges |
| `MazeModel.Maze.PlaceExits` | maze_generator.py:196-197 | from no exits, the exits are the blocks the two searches return, dead ends when both are found; the frame is centred on the start and clamped inside the grid, or stays put without a start |
| `MazeModel.Maze.CenterOnStart` | maze_generator.py:197 | the frame is centred on the start cell and clamped inside the grid; without a start it stays put; exits on dead ends stay so |
| `MazeModel.SnakeOk` | maze_generator.py:555-589 | the 3 x 3 example maze, every block visited, is a valid grid: its blocks in place with 0/1 flags, symmetric walls and a closed boundary |
| `MazeModel.SnakeStartRing` | maze_generator.py:591-729 | ring 1 around the bottom-left corner of the example, walked clockwise, inspects (1,0), (1,1), (2,1) and closes |
| `MazeModel.SnakeFinishRing` | maze_generator.py:591-729 | ring 1 around the top-right corner of the example, walked counter-clockwise, inspects (0,1), (1,1), (1,2) and closes |
| `MazeModel.SnakeStartFound` | maze_generator.py:701-706 | on ring 1 of the start search the first dead end is (1,1) |
| `MazeModel.SnakeStart` | maze_generator.py:859 | the start search on the example returns the dead end (1,1) |
| `MazeModel.SnakeFinishFound` | maze_generator.py:701-706 | on ring 1 of the finish search the first dead end is (1,1) |
| `MazeModel.SnakeFinish` | maze_generator.py:860 | the finish search on the example returns the dead end (1,1) |
| `MazeModel.ExitsCanCoincide` | maze_generator.py:856-861 | on a valid 3 x 3 maze, `find_exits` places the start and the finish on the same block (1,1) |
| `MazeModel.Maze.Resize` | maze_generator.py:211-228 | new dimensions give a fresh grid, a restricted zoom and a clamped frame; the frame size follows the zoom in every case |
| `MazeModel.Maze.SetDims` | maze_generator.py:213-218 | the new dimensions with a fresh grid and no exits, the zoom restricted to `3..min(rows, cols)`, and the frame (still of its old size) clamped to the new grid |
| `MazeModel.Maze.UpdateTilesize` | maze_generator.py:252-282 | the frame size is the one the zoom gives and the line width follows it when adaptive |
| `MazeModel.Maze.RestrictZoom` | maze_generator.py:320-328 | the zoom is restricted, landing in `3..min(rows, cols)` for admissible dimensions |
| `MazeModel.Maze.Zoom` | maze_generator.py:296-318 | the counter follows the shared schedule; when it acts the zoom moves by `m`, is restricted, and the frame is anchored and clamped inside; otherwise nothing else changes |
| `MazeModel.Maze.ApplyZoom` | maze_generator.py:309-316 | the zoom moved and restricted, the frame size and line width recomputed, the frame anchored and clamped inside the grid |
| `MazeModel.Maze.GetLineSize` | maze_generator.py:350-368 | the table's width for the given tile count, or for the frame's long side when none or 0 is given; always in 1..15 |
| `MazeModel.Maze.UpdateLineSize` | maze_generator.py:370-373 | an adaptive line width follows the frame size and stays in 1..15; a manual one is kept |
| `MazeModel.Maze.ExpandLines` | maze_generator.py:375-397 | ignored while adaptive; otherwise the shared schedule, and when it acts the width moves by `w` and is clamped to 1..15 |
| `MazeModel.Maze.ToggleAdaptiveLines` | maze_generator.py:399-403 | the flag is flipped |
| `MazeModel.Maze.UpdateFramePos` | maze_generator.py:405-411 | each axis is clamped; a frame that fits ends inside; a frame already inside stays put |
| `MazeModel.Maze.AlignFrame` | maze_generator.py:413-428 | the frame is left alone when both trailing edges are whole, else rounded half to even and clamped; it stays inside if it was |
| `MazeModel.Maze.SetFrameQuadrant` | maze_generator.py:430-442 | the frame is pinned to the quadrant's corner (3 for values outside 1..4) and is inside the grid |
| `MazeModel.Maze.SetFrameCenter` | maze_generator.py:444-450 | each axis is set to `cell - size / 2 + 0.5` and clamped; the frame ends inside the grid |
| `MazeModel.Maze.Scroll` | maze_generator.py:284-294 | released, the counter rearms; held with the counter run down, the frame moves half a tile per pressed axis and is clamped inside; otherwise the counter counts down |
| `PlayerModel.Advance` | maze_generator.py:1131-1155 | a move along an axis lands one step along that axis in the pressed direction |
| `PlayerModel.AdvanceThroughOpenWall` | maze_generator.py:1131-1155 | the player advances along an axis exactly when that component is non-zero and the wall on that side is open |
| `PlayerModel.AdvanceStaysInBounds` | maze_generator.py:1131-1155 | the outer walls of a valid grid keep the player on it |
| `PlayerModel.AdvanceReversible` | maze_generator.py:1131-1155 | every step can be retraced by pressing the opposite direction |
| `PlayerModel.MoveIsOneOpenStep` | maze_generator.py:1157-1182 | one `move` goes to an adjacent grid cell through an open wall, or nowhere |
| `PlayerModel.TrailStaysInMaze` | maze_generator.py:1157-1182 | for any sequence of key presses the player stays on the grid and only crosses open walls |
| `PlayerModel.MoveDelay` | maze_generator.py:1070-1073 | `move_delay` is the larger of a quarter second and one move interval |
| `PlayerModel.FasterMovesSooner` | maze_generator.py:1062-1073 | a faster speed never gives a longer interval or delay |
| `PlayerModel.VictorySymbolFor` | maze_generator.py:1116-1123 | star exactly up to 40, hidden crown exactly above 80, crown in between |
| `PlayerModel.SymbolCountIs` | maze_generator.py:1116-1123 | the number of draws `1..k` giving each symbol, in closed form |
| `PlayerModel.SymbolOdds` | maze_generator.py:1116-1123 | of the 100 equally likely draws, 40 give a star, 40 a crown, 20 a hidden crown |
| `PlayerModel.Player.constructor` | maze_generator.py:1039-1060 | the fields as `__init__` sets them, with the speed set through `set_speed` |
| `PlayerModel.Player.SetSpeed` | maze_generator.py:1062-1073 | the speed is clamped to 1..30, and interval and delay are recomputed with the delay never below the interval |
| `PlayerModel.Player.UpdateSpeed` | maze_generator.py:1075-1081 | `set_speed` with the active speed setting |
| `PlayerModel.Player.SetPos` | maze_generator.py:1083-1084 | the player is on the new cell |
| `PlayerModel.Player.Grow` | maze_generator.py:1086-1100 | the shared schedule; when it acts the size moves by `direction` growth units, clamped to 5..100 |
| `PlayerModel.Player.UpdateSize` | maze_generator.py:1102-1108 | the new size, if given, is clamped to 5..100 |
| `PlayerModel.Player.CheckEscaped` | maze_generator.py:1110-1114 | the flag is set by the first arrival on the exit, which draws the victory symbol; later calls change nothing |
| `PlayerModel.Player.ChooseVictorySymbol` | maze_generator.py:1116-1123 | one draw in 1..100 picks star, crown or hidden crown |
| `PlayerModel.Player.AdvanceVertically` | maze_generator.py:1131-1142 | the player moves up or down exactly when that wall is open, and the result says whether it moved |
| `PlayerModel.Player.AdvanceHorizontally` | maze_generator.py:1144-1155 | the player moves left or right exactly when that wall is open, and the result says whether it moved |
| `PlayerModel.Player.Move` | maze_generator.py:1157-1182 | with the counter run down, one step by the priority rule arms the counter (delay first, interval afterwards) and a failed step leaves it; otherwise the counter counts down |
| `BackgroundModel.Background.constructor` | maze_generator.py:1282-1300 | default border 2, the counter at rest, and the interval and delay computed from `fps` |
| `BackgroundModel.Background.ResizeFrame` | maze_generator.py:1318-1338 | the shared schedule; when it acts the border moves by `r` and is clamped to 0..50 |

## Left out

- Rendering, pixels and the window are not modelled:
  - `Block.drawlines`, the `draw_*` and `paint*` methods, `to_paper` and `save_image`;
  - the pixel sizes in `resize` and `update_tilesize`, and `update_pos`.
- The mouse is not modelled. `zoom` reads the cursor through `mouse_cell` and `set_frame_to_cursor`; here the frame anchor is a parameter (`None` when the cursor is off the maze).
- The menus, the main loop, `Text`, `MultiText`, `Settings`, and colours and their helpers (including `Background`'s day/night toggles) are presentation and are not modelled.
- `get_zoom`, `set_zoom`, `random_location` and `check_cell` are not modelled. They are not modelled; `check_cell` only prints.
- Diagnostic `print`s and the `DEBUG` branches are not modelled.
- `Ring.Search`: the ring walk gets at most `8 * radius + 2` iterations. A walk that has not closed by then ends with `Cutoff`, so the model says nothing about a walk that would run longer.
- `MazeModel.FindCell`: it inherits the same iteration bound as `Ring.Search` and its `Cutoff` outcome.
- `MazeModel.Maze.constructor`: maze_generator.py has no range check on the grid dimensions. The settings menu clamps rows and cols to 3..50 (maze_generator.py:1834-1837, `Maze.MIN_TILES` and `Maze.MAX_TILES`), and the model makes that range a precondition.
- `MazeModel.Maze.FindExits`: when a search returns -1, the source's `.pos` raises an `AttributeError` (maze_generator.py:859-860). Here a failure gives `ok == false` instead; as in the source, a start found before the finish search fails stays assigned, and an exit not found keeps its value.
- `MazeModel.Maze.FindExits`: nothing keeps the two exits apart. `MazeModel.ExitsCanCoincide` gives a valid 3 x 3 maze, a single path from (1,1) to (0,0), on which both searches return the dead end (1,1).
- `MazeModel.Maze.Remap`: a start is missing only when its search returned -1. The source then raises an `AttributeError` at `find_cell(...).pos` inside `find_exits` (maze_generator.py:859), before `set_frame_center` runs (maze_generator.py:196-197). Here the frame is left where it was. Connectivity and the edge count of the carved grid are stated by `MazeModel.Maze.CarvedSpans` about `Carved`, not in `Remap`'s or `Recarve`'s own contract.
- `MazeModel.Maze.Recarve`: it runs `generate` on the fresh grid that `Reset` states, rather than calling `Reset` itself. It clears the exits itself.
- `MazeModel.GenerateOn`: the source's check that the two lists have the same length can never fail (`FindNeighbours` proves the lengths equal), so its `break` is not modelled. The three error `print`s after `unblock` are unreachable for a neighbouring pair and are not modelled either.
- `MazeModel.UnblockGrid`: the grid is a value, so two references to one `Block` cannot alias; the source never shares blocks between cells.
- `MazeModel.UnblockGrid`: requires that two adjacent cells both be on the grid (`Adjacent(pos1, pos2) ==> InBounds(..)`, as `MazeModel.Maze.Unblock` does too). For an off-grid neighbour the source would wrap a negative index (maze_generator.py:511-522); `generate` only passes grid cells.
- `PlayerModel.Player.CheckEscaped`: the exit is a `Cell`; the source compares the first two entries of a list.
- `PlayerModel.Player.AdvanceVertically`: requires the player's cell to be on the grid. The source would wrap a negative index, but the outer walls keep the player on the grid (`AdvanceStaysInBounds`).
- `PlayerModel.Player.AdvanceHorizontally`: requires the player's cell to be on the grid, for the same reason.
- The release handling of movement in the main loop is not modelled: `move_counter` and `cont_movement` are reset there, not in `Player`.
- Counters are reals because `grow_delay = 0.5 * fps` is a float. All other quantities are exact; no floating-point rounding is modelled.
- The source's recursion depth (`sys.setrecursionlimit`) is not modelled; the recursion is proved to terminate.
