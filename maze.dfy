/** The `Maze` class of maze_generator.py: the grid of blocks, the recursive
    backtracker that carves it, the ring search that places the exits, and
    the viewport ("frame") with its hold-to-repeat controls.

    Each method changes the fields the source's method changes, in the same
    order, and its contract ties the new state to the value-level functions
    of `Grid`, `Ring`, `Viewport` and `HoldRepeat`, where the properties are
    proved. Pixel sizes, the window surface and the mouse are not modelled:
    where the source reads the mouse, the result is a parameter. */
module MazeModel {
  import opened PyNum
  import opened Blocks
  import opened Grid
  import opened Ring
  import opened Viewport
  import opened HoldRepeat
  import opened Carving
  import opened Randomness

  const MIN_TILES := 3
  const MAX_TILES := 50
  const SCROLL_SPEED := 5.0
  const START_ZOOM := 0.75
  const ZOOM_VAL := 1
  const ZOOM_SPEED := 15.0
  const EXPAND_VAL := 1
  const EXPAND_SPEED := 45.0

  /** The number of borders `find_exits` looks for: a dead end. */
  const EXIT_BORDERS := 3

  /** Grid dimensions the maze supports (the settings menu keeps to them). */
  predicate DimsInRange(rows: int, cols: int) {
    MIN_TILES <= rows <= MAX_TILES && MIN_TILES <= cols <= MAX_TILES
  }

  /** `find_cell`'s default direction `[-1, -1]` (the top-left corner) when
      `dir` is empty; `dir` is `[x, y]`, column first. */
  function DirOrDefault(dir: seq<int>): (d: seq<int>)
    requires dir == [] || |dir| >= 2
    ensures |d| >= 2
  {
    if dir == [] then [-1, -1] else dir
  }

  /** The clamping loop of `find_cell` (`for _ in range(2)`): a position
      above, below, left or right of the grid is moved onto that edge at the
      ring corner the rotation points to, and the walker turns along it. */
  method ClampWalker(pos: Cell, i: int, sq: Square, rows: nat, cols: nat, cw: int) returns (pos': Cell, i': int)
    ensures Walker(pos', i') == Clamp(Walker(pos, i), sq, rows, cols, cw)
  {
    pos', i' := pos, i;
    for pass := 0 to 2
      invariant Walker(pos', i') == if pass == 0 then Walker(pos, i)
                                    else if pass == 1 then ClampOnce(Walker(pos, i), sq, rows, cols, cw)
                                    else Clamp(Walker(pos, i), sq, rows, cols, cw)
    {
      if pos'.row < 0 {
        pos', i' := Cell(0, if cw == 1 then sq.right else sq.left), 0;
      } else if pos'.row >= rows {
        pos', i' := Cell(rows - 1, if cw == 1 then sq.left else sq.right), 0;
      } else if pos'.col < 0 {
        pos', i' := Cell(if cw == 1 then sq.top else sq.bottom, 0), 1;
      } else if pos'.col >= cols {
        pos', i' := Cell(if cw == 1 then sq.bottom else sq.top, cols - 1), 1;
      }
    }
  }

  /** One step of `find_cell` along the ring: the index `i` advances by
      `cw` on the right and bottom sides and against it on the left and top,
      and the walker turns at a corner. */
  method StepWalker(pos: Cell, i: int, sq: Square, cw: int) returns (pos': Cell, i': int)
    ensures Walker(pos', i') == Step(Walker(pos, i), sq, cw)
  {
    pos', i' := pos, i;
    if i == 0 {
      if pos.col == sq.right {
        pos' := Cell(pos.row + cw, pos.col);
      } else if pos.col == sq.left {
        pos' := Cell(pos.row - cw, pos.col);
      }
    } else if i == 1 {
      if pos.row == sq.top {
        pos' := Cell(pos.row, pos.col + cw);
      } else if pos.row == sq.bottom {
        pos' := Cell(pos.row, pos.col - cw);
      }
    }
    if pos' in [Cell(sq.top, sq.left), Cell(sq.top, sq.right), Cell(sq.bottom, sq.left), Cell(sq.bottom, sq.right)] {
      i' := Abs(i - 1);
    }
  }

  /** What one iteration of the ring walk sees before it tests the block. */
  datatype Visit = Closes | Faults | Visits(c: Cell, block: Block)

  /** The start of `find_cell`'s walk round the ring of `radius`: the corner
      `dir` picks and the axis to advance first. */
  method StartAt(center: Cell, radius: nat, cw: int, dirX: int, dirY: int) returns (pos: Cell, i: int)
    ensures Walker(pos, i) == StartWalker(center, radius, cw, dirX, dirY)
  {
    var top, bottom := center.row - radius, center.row + radius;
    var left, right := center.col - radius, center.col + radius;
    var y := if dirY == 0 then center.row else if dirY == 1 then bottom else top;
    var x := if dirX == 0 then center.col else if dirX == 1 then right else left;
    if y == x {
      y := top;
    }
    pos := Cell(y, x);
    if dirX == 0 {
      i := 1;
    } else if dirY == 0 {
      i := 0;
    } else if dirX == dirY {
      i := if cw == 1 then 1 else 0;
    } else {
      i := if cw == 1 then 1 else 0;
    }
  }

  /** One iteration of `find_cell`'s loop up to the border test: clamp the
      position, record the start the first time round, stop when back at
      the start, read the block at the clamped position (`Faults` when
      Python would refuse the index), and step along the ring unless the
      ring is a single column. The source steps after the border test; the
      walk returns on a match, so the stepped walker is then unused. */
  method VisitNext(g: Rows, rows: nat, cols: nat, sq: Square, cw: int, pos: Cell, i: int, startPos: Cell, setStart: bool, ghost fuel: nat)
    returns (visit: Visit, pos': Cell, i': int, startPos': Cell)
    requires Shaped(g, rows, cols) && fuel > 0
    ensures var rest := WalkFrom(Walker(pos, i), startPos, !setStart, fuel, sq, rows, cols, cw);
            match visit
            case Closes => rest == RingScan([], Closed)
            case Faults => rest == RingScan([], Fault)
            case Visits(c, block) =>
              var rest' := WalkFrom(Walker(pos', i'), startPos', false, fuel - 1, sq, rows, cols, cw);
              InBounds(rows, cols, c) && block == At(g, c) && rest == RingScan([c] + rest'.cells, rest'.end)
  {
    ghost var w0 := Walker(pos, i);
    pos', i' := ClampWalker(pos, i, sq, rows, cols, cw);
    ghost var w1 := Walker(pos', i');
    startPos' := startPos;
    if !setStart {
      startPos' := pos';
    } else if pos' == startPos {
      WalkCloses(w0, w1, startPos, fuel, sq, rows, cols, cw);
      return Closes, pos', i', startPos';
    }
    var at := Index(rows, cols, pos');
    if at.None? {
      WalkFaults(w0, w1, startPos, !setStart, fuel, sq, rows, cols, cw);
      return Faults, pos', i', startPos';
    }
    var block := g[at.value.row][at.value.col];
    if sq.left != sq.right {
      pos', i' := StepWalker(pos', i', sq, cw);
    }
    WalkGoesOn(w0, w1, Walker(pos', i'), startPos, startPos', !setStart, at.value, fuel, sq, rows, cols, cw);
    visit := Visits(at.value, block);
  }

  /** The `while True` loop of `find_cell` for one ring: from the walker
      `(pos, i)`, each position is clamped onto the grid and read, and the
      walk ends at the first block with `n` borders (`found`), back at its
      start (`Closed`), on an index Python refuses (`Fault`) or after `fuel`
      iterations (`Unclosed`). `scan` is the walk the loop performs. */
  method WalkOn(g: Rows, rows: nat, cols: nat, sq: Square, cw: int, n: int, pos: Cell, i: int, fuel: nat, ghost scan: RingScan)
    returns (found: Option<Block>, end: RingEnd)
    requires Shaped(g, rows, cols)
    requires scan == WalkFrom(Walker(pos, i), pos, true, fuel, sq, rows, cols, cw)
    requires forall k :: 0 <= k < |scan.cells| ==> Has(g, scan.cells[k])
    ensures var m := FirstMatch(g, scan.cells, n);
            (found.Some? <==> m.Some?) &&
            (m.Some? ==> found.value == At(g, scan.cells[m.value])) &&
            (m.None? ==> end == scan.end)
  {
    var pos, i, fuel := pos, i, fuel;
    var startPos := pos;
    var setStart := false;
    ghost var seen: seq<Cell> := [];
    ghost var rest := scan;
    while fuel > 0
      invariant rest == WalkFrom(Walker(pos, i), startPos, !setStart, fuel, sq, rows, cols, cw)
      invariant scan == RingScan(seen + rest.cells, rest.end)
      invariant forall k :: 0 <= k < |seen| ==> Has(g, seen[k])
      invariant NoMatchIn(g, seen, n)
      decreases fuel
    {
      var visit;
      visit, pos, i, startPos := VisitNext(g, rows, cols, sq, cw, pos, i, startPos, setStart, fuel);
      setStart := true;
      if visit.Closes? {
        assert seen + rest.cells == seen;
        FirstMatchNone(g, seen, n);
        return None, Closed;
      } else if visit.Faults? {
        assert seen + rest.cells == seen;
        FirstMatchNone(g, seen, n);
        return None, Fault;
      }
      ghost var rest' := WalkFrom(Walker(pos, i), startPos, false, fuel - 1, sq, rows, cols, cw);
      Regroup(seen, visit.c, rest'.cells);
      if Borders(visit.block) == n {
        WalkFromInBounds(Walker(pos, i), startPos, false, fuel - 1, sq, rows, cols, cw);
        AllHas(g, rows, cols, rest'.cells);
        FirstMatchAfter(g, seen, visit.c, rest'.cells, n);
        return Some(visit.block), Closed;
      }
      seen := seen + [visit.c];
      rest := rest';
      fuel := fuel - 1;
    }
    assert seen + rest.cells == seen;
    FirstMatchNone(g, seen, n);
    found, end := None, Unclosed;
  }

  /** `find_cell`'s walk round the ring of `radius` around `center`,
      starting at the corner `dir` (`[x, y]`, column first) picks. */
  method WalkRing(g: Rows, rows: nat, cols: nat, center: Cell, n: int, radius: nat, cw: int, dirX: int, dirY: int)
    returns (found: Option<Block>, end: RingEnd)
    requires Shaped(g, rows, cols)
    ensures var scan := RingWalk(rows, cols, center, radius, cw, dirX, dirY);
            var m := FirstMatch(g, scan.cells, n);
            (found.Some? <==> m.Some?) &&
            (m.Some? ==> found.value == At(g, scan.cells[m.value])) &&
            (m.None? ==> end == scan.end)
  {
    var pos, i := StartAt(center, radius, cw, dirX, dirY);
    var sq := Square(center.row - radius, center.row + radius, center.col - radius, center.col + radius);
    assert sq == RingOf(center, radius);
    ghost var scan := RingWalk(rows, cols, center, radius, cw, dirX, dirY);
    AllHas(g, rows, cols, scan.cells);
    found, end := WalkOn(g, rows, cols, sq, cw, n, pos, i, RingBound(radius), scan);
  }

  /** `unblock(pos1, pos2)`: the error codes for a pair that is not a
      neighbouring pair, otherwise the wall between the two is removed from
      both sides. The source indexes the grid only for a neighbouring pair,
      and only cells of the grid are passed to it. */
  method UnblockGrid(g: Rows, rows: nat, cols: nat, pos1: Cell, pos2: Cell) returns (status: UnblockStatus, h: Rows)
    requires GridOk(g, rows, cols)
    requires Adjacent(pos1, pos2) ==> InBounds(rows, cols, pos1) && InBounds(rows, cols, pos2)
    ensures GridOk(h, rows, cols)
    ensures status == Classify(pos1, pos2)
    ensures status == Done ==> h == OpenWall(g, pos1, pos2)
    ensures status != Done ==> h == g
  {
    h := g;
    var y := pos2.row - pos1.row;
    var x := pos2.col - pos1.col;
    if Abs(x) > 1 || Abs(y) > 1 {
      return NotAdjacent, h;
    } else if x == 0 && y == 0 {
      return SameCell, h;
    } else if Abs(x) == 1 && Abs(y) == 1 {
      return Diagonal, h;
    }
    status := Done;
    var b1, b2 := h[pos1.row][pos1.col], h[pos2.row][pos2.col];
    if x == -1 {
      h := SetBlock(h, pos1, b1.(left := 0));
      h := SetBlock(h, pos2, b2.(right := 0));
    } else if x == 1 {
      h := SetBlock(h, pos1, b1.(right := 0));
      h := SetBlock(h, pos2, b2.(left := 0));
    } else if y == -1 {
      h := SetBlock(h, pos1, b1.(top := 0));
      h := SetBlock(h, pos2, b2.(bottom := 0));
    } else if y == 1 {
      h := SetBlock(h, pos1, b1.(bottom := 0));
      h := SetBlock(h, pos2, b2.(top := 0));
    }
    OpenWallOk(g, rows, cols, pos1, pos2);
  }

  /** `find_neighbours(cell, blocks)` over the grid `g` (the maze's
      `data`): the in-bounds, unvisited neighbours of `cell` (left, up,
      right, down) and their blocks, in the same order. The source removes
      the other candidates from a copy of the list; keeping the rest in
      order is the same list. */
  method FindNeighbours(g: Rows, rows: nat, cols: nat, cell: Cell) returns (neighbours: seq<Cell>, blocks: seq<Block>)
    requires Shaped(g, rows, cols)
    ensures neighbours == UnvisitedNeighbours(g, rows, cols, cell)
    ensures |blocks| == |neighbours|
    ensures forall k :: 0 <= k < |neighbours| ==> InBounds(rows, cols, neighbours[k]) && blocks[k] == At(g, neighbours[k])
  {
    var candidates := Candidates(cell);
    neighbours, blocks := [], [];
    for k := 0 to 4
      invariant neighbours == KeepUnvisited(g, rows, cols, candidates[..k])
      invariant |blocks| == |neighbours|
      invariant forall j :: 0 <= j < |neighbours| ==> InBounds(rows, cols, neighbours[j]) && blocks[j] == At(g, neighbours[j])
    {
      var p := candidates[k];
      KeepUnvisitedSnoc(g, rows, cols, candidates[..k], p);
      assert candidates[..k + 1] == candidates[..k] + [p];
      if p.col < 0 || p.col >= cols {
      } else if p.row < 0 || p.row >= rows {
      } else {
        var newBlock := g[p.row][p.col];
        if !IsVisited(newBlock) {
          neighbours := neighbours + [p];
          blocks := blocks + [newBlock];
        }
      }
    }
    assert candidates[..4] == candidates;
  }

  /** `generate(cell)`: the recursive backtracker, on the grid `g` (the
      maze's `data`), with the ghost records `e` (the cell each cell was
      entered from), `s` (the order of entry) and `clock`. The cell is
      marked visited; while it has unvisited neighbours, one is picked at
      random and carved into (`CarveOn`). The result has advanced from `g`
      as `Progress` describes, with every neighbour of `cell` visited.
      Termination: `CarveOn` is entered with fewer unvisited cells than
      this call started with, and its own call of `generate` with as many
      as `CarveOn` started with. */
  method GenerateOn(g: Rows, rows: nat, cols: nat, cell: Cell, rng: RandomSource,
                    ghost e: map<Cell, Cell>, ghost s: map<Cell, nat>, ghost clock: nat)
    returns (h: Rows, ghost e': map<Cell, Cell>, ghost s': map<Cell, nat>, ghost clock': nat)
    requires Ready(g, rows, cols, e, s, clock, cell)
    modifies rng`draws
    ensures Progress(g, h, rows, cols, e, e', s, s', clock', cell)
    ensures NeighboursVisited(h, rows, cols, cell)
    ensures !NeighboursVisited(g, rows, cols, cell) ==> Borders(At(h, cell)) < 4
    decreases UnvisitedCells(g, rows, cols), 0
  {
    var currBlock := g[cell.row][cell.col];
    h := SetBlock(g, cell, currBlock.(visited := 1));
    e', s', clock' := e, StampOnEntry(s, clock, cell), ClockOnEntry(s, clock, cell);
    ProgressStart(g, rows, cols, e, s, clock, cell);

    var neighbours, unvisitedBlocks := FindNeighbours(h, rows, cols, cell);
    NoUnvisitedNeighbours(h, rows, cols, cell);
    while neighbours != []
      invariant Progress(g, h, rows, cols, e, e', s, s', clock', cell)
      invariant neighbours == UnvisitedNeighbours(h, rows, cols, cell)
      invariant |unvisitedBlocks| == |neighbours|
      invariant neighbours == [] <==> NeighboursVisited(h, rows, cols, cell)
      invariant !NeighboursVisited(g, rows, cols, cell) ==> neighbours != [] || Borders(At(h, cell)) < 4
      decreases UnvisitedCells(h, rows, cols)
    {
      var i := rng.RandInt(1, |neighbours|);
      i := i - 1;
      var nextBlock := unvisitedBlocks[i];
      var pos2 := neighbours[i];
      assert pos2 in UnvisitedNeighbours(h, rows, cols, cell);
      UnvisitedShrinks(g, h, rows, cols, cell);
      h, e', s', clock' := CarveOn(h, rows, cols, cell, pos2, rng, g, e, s, e', s', clock');
      OpenWallBorders(h, rows, cols, cell, pos2);
      neighbours, unvisitedBlocks := FindNeighbours(h, rows, cols, cell);
      NoUnvisitedNeighbours(h, rows, cols, cell);
    }
  }

  /** One iteration of `generate(cell)`'s loop after the choice of `pos2`:
      the wall between `cell` and its unvisited neighbour `pos2` is removed
      (`unblock` cannot fail on a neighbouring pair), `pos2` is recorded as
      entered from `cell`, and `generate(pos2)` runs. The progress of
      `generate(cell)` since `g0` carries over, the wall stays open, and
      fewer cells are left unvisited. */
  method CarveOn(g1: Rows, rows: nat, cols: nat, cell: Cell, pos2: Cell, rng: RandomSource,
                 ghost g0: Rows, ghost e0: map<Cell, Cell>, ghost s0: map<Cell, nat>,
                 ghost e1: map<Cell, Cell>, ghost s1: map<Cell, nat>, ghost clock1: nat)
    returns (h: Rows, ghost e: map<Cell, Cell>, ghost s: map<Cell, nat>, ghost clock: nat)
    requires Shaped(g0, rows, cols) && InBounds(rows, cols, cell) && !IsVisited(At(g0, cell))
    requires Progress(g0, g1, rows, cols, e0, e1, s0, s1, clock1, cell)
    requires pos2 in UnvisitedNeighbours(g1, rows, cols, cell)
    modifies rng`draws
    ensures Progress(g0, h, rows, cols, e0, e, s0, s, clock, cell)
    ensures Wall(h, cell, pos2) == 0
    ensures UnvisitedCells(h, rows, cols) < UnvisitedCells(g1, rows, cols)
    decreases UnvisitedCells(g1, rows, cols), 1
  {
    CarveReady(g0, g1, rows, cols, e1, s1, clock1, cell, pos2);
    var err, g2 := UnblockGrid(g1, rows, cols, cell, pos2);
    assert err == Done;
    OpenWallKeepsUnvisited(g1, rows, cols, cell, pos2);
    h, e, s, clock := GenerateOn(g2, rows, cols, pos2, rng, e1[pos2 := cell], s1[pos2 := clock1], clock1 + 1);
    ProgressCompose(g0, g1, h, rows, cols, e0, e1, e, s0, s1, s, clock1, clock, cell, pos2);
  }

  /** `generate(seed)` on the fresh grid `reset` builds, as `remap` runs
      it: the result is a spanning tree of the grid rooted at `seed`, with
      every block visited. */
  method GenerateFresh(rows: nat, cols: nat, seed: Cell, rng: RandomSource)
    returns (h: Rows, ghost e: map<Cell, Cell>, ghost s: map<Cell, nat>)
    requires InBounds(rows, cols, seed)
    modifies rng`draws
    ensures SpanningMaze(h, rows, cols, seed, e, s)
    ensures |e| == rows * cols - 1
    ensures CountRows(h, rows) == rows * cols
  {
    FreshReady(rows, cols, seed);
    ghost var clock;
    h, e, s, clock := GenerateOn(FreshGrid(rows, cols), rows, cols, seed, rng, map[], map[], 0);
    GeneratedMaze(rows, cols, seed, h, e, s, clock);
    SpanningEdges(h, rows, cols, seed, e, s);
  }

  /** `find_cell(cell, n, radius, cw, dir)` over the grid `g` (the maze's
      `data`): the ring of `radius` around `center` is walked (`WalkRing`)
      and its first block with `n` borders returned; an exhausted ring moves
      on to the next radius, up to `max(rows, cols) - 1`. */
  method FindCell(g: Rows, rows: nat, cols: nat, center: Cell, n: int, radius: nat, cw: int, dir: seq<int>) returns (res: SearchResult)
    requires WellFormed(g, rows, cols)
    requires dir == [] || |dir| >= 2
    ensures res == Search(g, rows, cols, center, n, radius, cw, DirOrDefault(dir)[0], DirOrDefault(dir)[1])
    ensures res.Found? ==> Borders(res.block) == n && InBounds(rows, cols, res.block.pos) && At(g, res.block.pos) == res.block
    decreases Max(rows, cols) - radius
  {
    var d := DirOrDefault(dir);
    SearchUnfold(g, rows, cols, center, n, radius, cw, d[0], d[1]);
    SearchFoundOnGrid(g, rows, cols, center, n, radius, cw, d[0], d[1]);
    var found, end := WalkRing(g, rows, cols, center, n, radius, cw, d[0], d[1]);
    if found.Some? {
      res := Found(found.value);
    } else if end == Fault {
      res := IndexFault;
    } else if end == Unclosed {
      res := Cutoff;
    } else if radius >= Max(rows, cols) - 1 {
      res := NoMatch;
    } else {
      res := FindCell(g, rows, cols, center, n, radius + 1, cw, dir);
    }
  }

  /** The exits `find_exits` leaves on `g`, from exits `start0` and
      `finish0`: the start is the block found from the bottom-left corner
      clockwise, the finish the block found from the top-right corner
      counter-clockwise; `ok` says both were found. The source raises as soon
      as a search comes back empty, so an exit not found keeps its value. */
  predicate ExitsFrom(g: Rows, rows: nat, cols: nat, start0: Option<Cell>, finish0: Option<Cell>,
                      ok: bool, start: Option<Cell>, finish: Option<Cell>)
    requires Shaped(g, rows, cols)
  {
    var s := Search(g, rows, cols, Cell(rows - 1, 0), EXIT_BORDERS, 0, 1, -1, -1);
    var f := Search(g, rows, cols, Cell(0, cols - 1), EXIT_BORDERS, 0, -1, -1, -1);
    (ok <==> s.Found? && f.Found?) &&
    start == (if s.Found? then Some(s.block.pos) else start0) &&
    finish == (if ok then Some(f.block.pos) else finish0)
  }

  /** A 3 x 3 maze with every block visited whose passages form the single
      path (1,1)-(1,0)-(2,0)-(2,1)-(2,2)-(1,2)-(0,2)-(0,1)-(0,0); its only
      dead ends are (1,1) and (0,0). */
  function SnakeMaze(): Rows {
    [[Block(Cell(0, 0), 1, 0, 1, 1, 1), Block(Cell(0, 1), 0, 0, 1, 1, 1), Block(Cell(0, 2), 0, 1, 1, 0, 1)],
     [Block(Cell(1, 0), 1, 0, 1, 0, 1), Block(Cell(1, 1), 0, 1, 1, 1, 1), Block(Cell(1, 2), 1, 1, 0, 0, 1)],
     [Block(Cell(2, 0), 1, 0, 0, 1, 1), Block(Cell(2, 1), 0, 0, 1, 1, 1), Block(Cell(2, 2), 0, 1, 0, 1, 1)]]
  }

  /** `SnakeMaze` is a valid grid: blocks at their positions with 0/1
      flags, symmetric walls and a closed boundary. */
  lemma SnakeOk()
    ensures GridOk(SnakeMaze(), 3, 3)
  {
    var g := SnakeMaze();
    forall c | InBounds(3, 3, c) ensures At(g, c).pos == c && FlagsOk(At(g, c)) {
      assert c.row == 0 || c.row == 1 || c.row == 2;
      assert c.col == 0 || c.col == 1 || c.col == 2;
    }
  }

  /** Ring 1 around the bottom-left corner, walked clockwise from its
      top-left corner: (1,0), (1,1), (2,1), then back at (1,0). */
  lemma SnakeStartRing()
    ensures RingWalk(3, 3, Cell(2, 0), 1, 1, -1, -1) == RingScan([Cell(1, 0), Cell(1, 1), Cell(2, 1)], Closed)
  {
    var sq := RingOf(Cell(2, 0), 1);
    var w := StartWalker(Cell(2, 0), 1, 1, -1, -1);
    assert w == Walker(Cell(1, -1), 1);
    assert Clamp(Walker(Cell(3, 1), 1), sq, 3, 3, 1) == Walker(Cell(1, 0), 1);
    assert WalkFrom(Walker(Cell(3, 1), 1), Cell(1, 0), false, 7, sq, 3, 3, 1) == RingScan([], Closed);
    assert Step(Walker(Cell(2, 1), 0), sq, 1) == Walker(Cell(3, 1), 1);
    assert WalkFrom(Walker(Cell(2, 1), 0), Cell(1, 0), false, 8, sq, 3, 3, 1) == RingScan([Cell(2, 1)], Closed);
    assert Step(Walker(Cell(1, 1), 0), sq, 1) == Walker(Cell(2, 1), 0);
    assert WalkFrom(Walker(Cell(1, 1), 0), Cell(1, 0), false, 9, sq, 3, 3, 1) == RingScan([Cell(1, 1), Cell(2, 1)], Closed);
    assert Clamp(w, sq, 3, 3, 1) == Walker(Cell(1, 0), 1);
    assert Step(Walker(Cell(1, 0), 1), sq, 1) == Walker(Cell(1, 1), 0);
  }

  /** Ring 1 around the top-right corner, walked counter-clockwise from its
      top-left corner: (0,1), (1,1), (1,2), then back at (0,1). */
  lemma SnakeFinishRing()
    ensures RingWalk(3, 3, Cell(0, 2), 1, -1, -1, -1) == RingScan([Cell(0, 1), Cell(1, 1), Cell(1, 2)], Closed)
  {
    var sq := RingOf(Cell(0, 2), 1);
    var w := StartWalker(Cell(0, 2), 1, -1, -1, -1);
    assert w == Walker(Cell(-1, 1), 0);
    assert Clamp(Walker(Cell(1, 3), 0), sq, 3, 3, -1) == Walker(Cell(0, 1), 0);
    assert WalkFrom(Walker(Cell(1, 3), 0), Cell(0, 1), false, 7, sq, 3, 3, -1) == RingScan([], Closed);
    assert Step(Walker(Cell(1, 2), 1), sq, -1) == Walker(Cell(1, 3), 0);
    assert WalkFrom(Walker(Cell(1, 2), 1), Cell(0, 1), false, 8, sq, 3, 3, -1) == RingScan([Cell(1, 2)], Closed);
    assert Step(Walker(Cell(1, 1), 1), sq, -1) == Walker(Cell(1, 2), 1);
    assert WalkFrom(Walker(Cell(1, 1), 1), Cell(0, 1), false, 9, sq, 3, 3, -1) == RingScan([Cell(1, 1), Cell(1, 2)], Closed);
    assert Clamp(w, sq, 3, 3, -1) == Walker(Cell(0, 1), 0);
    assert Step(Walker(Cell(0, 1), 0), sq, -1) == Walker(Cell(1, 1), 1);
  }

  /** Ring 1 of the start search on `SnakeMaze` meets (1, 0) and then the
      dead end (1, 1). */
  lemma SnakeStartFound(g: Rows, center: Cell)
    requires g == SnakeMaze() && center == Cell(2, 0)
    ensures Search(g, 3, 3, center, EXIT_BORDERS, 1, 1, -1, -1) == Found(At(g, Cell(1, 1)))
  {
    assert Shaped(g, 3, 3);
    assert FirstMatch(g, [Cell(1, 0), Cell(1, 1), Cell(2, 1)], EXIT_BORDERS) == Some(1);
    SnakeStartRing();
    SearchUnfold(g, 3, 3, center, EXIT_BORDERS, 1, 1, -1, -1);
  }

  /** The start search of `find_exits` on `SnakeMaze`: the seed (2, 0) has
      two borders, so the search goes on to ring 1. */
  lemma SnakeStart(g: Rows, center: Cell)
    requires g == SnakeMaze() && center == Cell(2, 0)
    ensures Search(g, 3, 3, center, EXIT_BORDERS, 0, 1, -1, -1) == Found(At(g, Cell(1, 1)))
  {
    assert Shaped(g, 3, 3);
    assert FirstMatch(g, [center], EXIT_BORDERS) == None;
    RadiusZeroRing(3, 3, center, 1, -1, -1);
    SearchUnfold(g, 3, 3, center, EXIT_BORDERS, 0, 1, -1, -1);
    SnakeStartFound(g, center);
  }

  /** Ring 1 of the finish search on `SnakeMaze` meets (0, 1) and then the
      dead end (1, 1). */
  lemma SnakeFinishFound(g: Rows, center: Cell)
    requires g == SnakeMaze() && center == Cell(0, 2)
    ensures Search(g, 3, 3, center, EXIT_BORDERS, 1, -1, -1, -1) == Found(At(g, Cell(1, 1)))
  {
    assert Shaped(g, 3, 3);
    assert FirstMatch(g, [Cell(0, 1), Cell(1, 1), Cell(1, 2)], EXIT_BORDERS) == Some(1);
    SnakeFinishRing();
    SearchUnfold(g, 3, 3, center, EXIT_BORDERS, 1, -1, -1, -1);
  }

  /** The finish search of `find_exits` on `SnakeMaze`: the seed (0, 2) has
      two borders, so the search goes on to ring 1. */
  lemma SnakeFinish(g: Rows, center: Cell)
    requires g == SnakeMaze() && center == Cell(0, 2)
    ensures Search(g, 3, 3, center, EXIT_BORDERS, 0, -1, -1, -1) == Found(At(g, Cell(1, 1)))
  {
    assert Shaped(g, 3, 3);
    assert FirstMatch(g, [center], EXIT_BORDERS) == None;
    RadiusZeroRing(3, 3, center, -1, -1, -1);
    SearchUnfold(g, 3, 3, center, EXIT_BORDERS, 0, -1, -1, -1);
    SnakeFinishFound(g, center);
  }

  /** `find_exits` can put the start and the finish on the same block: on
      the valid grid `SnakeMaze`, with no exits yet, both searches return
      the dead end (1, 1). */
  lemma ExitsCanCoincide()
    ensures GridOk(SnakeMaze(), 3, 3)
    ensures ExitsFrom(SnakeMaze(), 3, 3, None, None, true, Some(Cell(1, 1)), Some(Cell(1, 1)))
  {
    SnakeOk();
    SnakeStart(SnakeMaze(), Cell(2, 0));
    SnakeFinish(SnakeMaze(), Cell(0, 2));
  }

  class Maze {
    var rows: nat
    var cols: nat
    var data: Rows
    var startCell: Option<Cell>
    var finishCell: Option<Cell>
    /** `frame_pos`: the grid position of the frame's top-left corner, row first. */
    var framePos: seq<real>
    /** `frame_size`: tiles shown per axis, row first. */
    var frameSize: seq<real>
    /** `max_screen_tiles`: the zoom, as tiles on the frame's short side. */
    var maxScreenTiles: int
    const fps: nat
    const scrollDelay: int
    var scrollCounter: real
    const zoomInterval: int
    const zoomDelay: int
    /** `zoom_counter` and `cont_zoom`. */
    var zoomRepeat: Repeat
    const expandInterval: int
    const expandDelay: int
    /** `expand_counter` and `cont_expand`. */
    var expandRepeat: Repeat
    var lineWidth: int
    var adaptiveLines: bool
    /** The spanning tree `generate` carves: the cell each cell was entered
        from, the order cells were first reached, and the next order number. */
    ghost var entered: map<Cell, Cell>
    ghost var stamp: map<Cell, nat>
    ghost var clock: nat

    /** Everything the maze keeps consistent about its grid, its exits, its
        zoom and its line width. */
    ghost predicate Settled()
      reads this`rows, this`cols, this`data, this`framePos, this`frameSize, this`maxScreenTiles, this`lineWidth, this`startCell, this`finishCell
    {
      DimsInRange(rows, cols) && GridOk(data, rows, cols) &&
      |framePos| == 2 && |frameSize| == 2 &&
      MIN_FRAME_SIZE <= maxScreenTiles <= Min(rows, cols) &&
      MIN_LINE_WIDTH <= lineWidth <= MAX_LINE_WIDTH &&
      (startCell.Some? ==> InBounds(rows, cols, startCell.value)) &&
      (finishCell.Some? ==> InBounds(rows, cols, finishCell.value))
    }

    ghost predicate Valid()
      reads this`rows, this`cols, this`data, this`framePos, this`frameSize, this`maxScreenTiles, this`lineWidth, this`startCell, this`finishCell
    {
      Settled() && Fits(frameSize, Dims(rows, cols))
    }

    /** Both exits are placed, on dead ends of the grid (three borders). */
    ghost predicate DeadEndExits()
      reads this`rows, this`cols, this`data, this`startCell, this`finishCell
    {
      Shaped(data, rows, cols) && startCell.Some? && finishCell.Some? &&
      InBounds(rows, cols, startCell.value) && InBounds(rows, cols, finishCell.value) &&
      Borders(At(data, startCell.value)) == EXIT_BORDERS && Borders(At(data, finishCell.value)) == EXIT_BORDERS
    }

    /** With a start placed, the frame is centred on it (`set_frame_center`)
        and clamped to the grid. */
    ghost predicate CenteredOnStart()
      reads this`rows, this`cols, this`framePos, this`frameSize, this`startCell
      requires |frameSize| == 2
    {
      startCell.Some? ==>
        framePos == ClampFrame([CenterOn(startCell.value.row as real, frameSize[0]),
                                CenterOn(startCell.value.col as real, frameSize[1])], frameSize, Dims(rows, cols))
    }

    /** The grid is the spanning tree a whole run of `generate(seed)` carves
        out of a fresh grid, every block visited. */
    ghost predicate Carved(seed: Cell)
      reads this`rows, this`cols, this`data, this`entered, this`stamp
    {
      SpanningMaze(data, rows, cols, seed, entered, stamp)
    }

    /** A carved grid is one maze: a walk through open walls joins every
        cell to the seed, and the tree has one edge fewer than the grid has
        cells. */
    lemma CarvedSpans(seed: Cell)
      requires Carved(seed) && InBounds(rows, cols, seed)
      ensures ConnectedToSeed(data, rows, cols, seed)
      ensures |entered| == rows * cols - 1
    {
      SpanningConnected(data, rows, cols, seed, entered, stamp);
      SpanningEdges(data, rows, cols, seed, entered, stamp);
    }

    /** The frame size is the one `update_tilesize` derives from the zoom. */
    ghost predicate Sized()
      reads this`rows, this`cols, this`maxScreenTiles, this`frameSize
    {
      0 < rows && 0 < cols && frameSize == FrameSizeFor(rows, cols, maxScreenTiles)
    }

    /** The frame lies inside the grid. Resizing to new dimensions clamps the
        frame with the old frame size, so this holds again only once the
        frame is next clamped (`remap` does so by centring it). */
    ghost predicate FrameInside()
      reads this`rows, this`cols, this`data, this`framePos, this`frameSize, this`maxScreenTiles, this`lineWidth, this`startCell, this`finishCell
      requires Valid()
    {
      Inside(framePos, frameSize, Dims(rows, cols))
    }

    /** `Maze(dim, fps)`. */
    constructor (dimRows: nat, dimCols: nat, fps: nat)
      requires DimsInRange(dimRows, dimCols)
      ensures Valid() && Sized() && FrameInside()
      ensures rows == dimRows && cols == dimCols && data == FreshGrid(rows, cols)
      ensures startCell == None && finishCell == None
      ensures maxScreenTiles == RestrictedZoom(RoundHalfEven(START_ZOOM * (Min(dimRows, dimCols) as real)), rows, cols)
      ensures framePos == [0.0, 0.0] && frameSize == FrameSizeFor(rows, cols, maxScreenTiles)
      ensures adaptiveLines && lineWidth == LineSizeFor(MaxReal(frameSize[0], frameSize[1]))
      ensures this.fps == fps
      ensures scrollDelay == Trunc(fps as real / SCROLL_SPEED * SCROLL_VAL) && scrollCounter == 0.0
      ensures zoomInterval == Trunc(fps as real / ZOOM_SPEED * ZOOM_VAL as real) && zoomDelay == Trunc(0.25 * fps as real)
      ensures expandInterval == Trunc(fps as real / EXPAND_SPEED * EXPAND_VAL as real) && expandDelay == Trunc(0.25 * fps as real)
      ensures zoomRepeat == Released && expandRepeat == Released
      ensures entered == map[] && stamp == map[] && clock == 0
    {
      data := [];
      this.fps := fps;
      rows, cols := 0, 0;
      startCell, finishCell := None, None;
      framePos, frameSize := [0.0, 0.0], [0.0, 0.0];
      scrollDelay := Trunc(fps as real / SCROLL_SPEED * SCROLL_VAL);
      scrollCounter := 0.0;
      zoomInterval := Trunc(fps as real / ZOOM_SPEED * ZOOM_VAL as real);
      zoomDelay := Trunc(0.25 * fps as real);
      zoomRepeat := Released;
      expandInterval := Trunc(fps as real / EXPAND_SPEED * EXPAND_VAL as real);
      expandDelay := Trunc(0.25 * fps as real);
      expandRepeat := Released;
      maxScreenTiles := RoundHalfEven(START_ZOOM * (Min(dimRows, dimCols) as real));
      lineWidth := 2;
      adaptiveLines := true;
      entered, stamp, clock := map[], map[], 0;
      new;
      Resize(Some((dimRows, dimCols)));
      UpdateLineSize();
    }

    // -------------------------------------------------------------------------
    // The grid

    /** `reset`: a grid of fresh blocks, no exits. */
    method Reset()
      modifies this`data, this`startCell, this`finishCell, this`entered, this`stamp, this`clock
      ensures data == FreshGrid(rows, cols)
      ensures startCell == None && finishCell == None
      ensures entered == map[] && stamp == map[] && clock == 0
    {
      startCell := None;
      finishCell := None;
      data := [];
      for y := 0 to rows
        modifies this`data
        invariant data == FreshGrid(y, cols)
      {
        var row: seq<Block> := [];
        for x := 0 to cols
          modifies {}
          invariant row == FreshRow(y, x)
        {
          row := row + [NewBlock(y, x)];
        }
        data := data + [row];
      }
      entered, stamp, clock := map[], map[], 0;
    }

    /** `unblock(pos1, pos2)` on the maze's grid (`UnblockGrid`). */
    method Unblock(pos1: Cell, pos2: Cell) returns (status: UnblockStatus)
      requires Valid()
      requires Adjacent(pos1, pos2) ==> InBounds(rows, cols, pos1) && InBounds(rows, cols, pos2)
      modifies this`data
      ensures Valid()
      ensures status == Classify(pos1, pos2)
      ensures status == Done ==> data == OpenWall(old(data), pos1, pos2)
      ensures status != Done ==> data == old(data)
    {
      status, data := UnblockGrid(data, rows, cols, pos1, pos2);
    }

    /** `check_visited`: the number of visited blocks; it is `rows * cols`
        exactly when every block is visited. */
    method CheckVisited() returns (total: nat)
      requires Valid()
      ensures total == CountRows(data, rows)
      ensures total == rows * cols <==> forall c {:trigger At(data, c)} :: InBounds(rows, cols, c) ==> IsVisited(At(data, c))
    {
      total := 0;
      for row := 0 to |data|
        invariant total == CountRows(data, row)
      {
        for col := 0 to |data[row]|
          invariant total == CountRows(data, row) + CountRow(data[row][..col])
        {
          assert data[row][..col + 1][..col] == data[row][..col];
          if IsVisited(data[row][col]) {
            total := total + 1;
          }
        }
        assert data[row][..|data[row]|] == data[row];
      }
      CountAllVisited(data, rows, cols, rows);
    }

    /** `check_valid`: false exactly when some block still has all four
        walls. Its `break` leaves only the inner loop; the scan goes on. */
    method CheckValid() returns (valid: bool)
      requires Valid()
      ensures valid <==> NoWalledInCell(data, rows, cols)
    {
      valid := true;
      var row := 0;
      while row < |data|
        invariant 0 <= row <= rows
        invariant valid <==> forall c {:trigger At(data, c)} :: InBounds(row, cols, c) ==> Borders(At(data, c)) != 4
      {
        var col := 0;
        while col < |data[row]|
          invariant 0 <= col <= cols
          invariant valid <==> (forall c {:trigger At(data, c)} :: InBounds(row, cols, c) ==> Borders(At(data, c)) != 4) &&
                               forall j :: 0 <= j < col ==> Borders(data[row][j]) != 4
        {
          if Borders(data[row][col]) == 4 {
            assert At(data, Cell(row, col)) == data[row][col];
            valid := false;
            break;
          }
          col := col + 1;
        }
        assert valid ==> forall j :: 0 <= j < cols ==> Borders(At(data, Cell(row, j))) != 4;
        row := row + 1;
      }
    }

    // -------------------------------------------------------------------------
    // Exits

    /** `find_exits`: the start is the first dead end (three borders) found
        from the bottom-left corner, clockwise; the finish the first found
        from the top-right corner, counter-clockwise. The source takes
        `.pos` of the result, which raises when the search returned -1; here
        `ok` is false then, and the exits not yet placed keep their value. */
    method FindExits() returns (ok: bool)
      requires Valid()
      modifies this`startCell, this`finishCell
      ensures Valid()
      ensures ExitsFrom(old(data), old(rows), old(cols), old(startCell), old(finishCell), ok, startCell, finishCell)
      ensures ok ==> DeadEndExits()
    {
      var startSeed := Cell(rows - 1, 0);
      var finishSeed := Cell(0, cols - 1);
      assert DirOrDefault([]) == [-1, -1];
      var s := FindCell(data, rows, cols, startSeed, EXIT_BORDERS, 0, 1, []);
      var f := NoMatch;
      if s.Found? {
        f := FindCell(data, rows, cols, finishSeed, EXIT_BORDERS, 0, -1, []);
      }
      ok := s.Found? && f.Found?;
      if s.Found? {
        startCell := Some(s.block.pos);
      }
      if ok {
        finishCell := Some(f.block.pos);
      }
    }

    /** `remap(seed)`: a fresh grid carved from `seed` into a spanning
        tree (`Recarve`), its exits placed, and the frame centred on the
        start cell. */
    method Remap(seed: Cell, rng: RandomSource) returns (ok: bool)
      requires Valid() && InBounds(rows, cols, seed)
      modifies this`data, this`startCell, this`finishCell, this`framePos, this`entered, this`stamp, this`clock, rng`draws
      ensures Valid() && Carved(seed)
      ensures ExitsFrom(data, rows, cols, None, None, ok, startCell, finishCell)
      ensures ok <==> finishCell.Some?
      ensures ok ==> DeadEndExits()
      ensures startCell.Some? ==> FrameInside()
      ensures CenteredOnStart() && (startCell.None? ==> framePos == old(framePos))
    {
      Recarve(seed, rng);
      ok := PlaceExits();
    }

    /** The last two steps of `remap(seed)`: `find_exits()` on a grid with
        no exits yet, then the frame centred on the start cell if one was
        found. The grid is left as it is. */
    method PlaceExits() returns (ok: bool)
      requires Valid() && startCell == None && finishCell == None
      modifies this`startCell, this`finishCell, this`framePos
      ensures Valid() && ExitsFrom(old(data), rows, cols, None, None, ok, startCell, finishCell)
      ensures ok <==> finishCell.Some?
      ensures ok ==> DeadEndExits()
      ensures startCell.Some? ==> FrameInside()
      ensures CenteredOnStart() && (startCell.None? ==> framePos == old(framePos))
    {
      ok := FindExits();
      CenterOnStart();
    }

    /** The last step of `remap(seed)`: the frame is centred on the start
        cell when one was found. */
    method CenterOnStart()
      requires Valid()
      modifies this`framePos
      ensures Valid()
      ensures startCell.Some? ==> FrameInside()
      ensures CenteredOnStart() && (startCell.None? ==> framePos == old(framePos))
      ensures old(DeadEndExits()) ==> DeadEndExits()
    {
      if startCell.Some? {
        SetFrameCenter(startCell.value.row as real, startCell.value.col as real);
      }
    }

    /** The first two steps of `remap(seed)`: `reset()` clears the exits and
        rebuilds the grid from fresh blocks (the `FreshGrid` that `Reset`
        states), then `generate(seed)` carves that grid (`GenerateFresh`),
        which leaves a spanning tree and no exits. */
    method Recarve(seed: Cell, rng: RandomSource)
      requires Valid() && InBounds(rows, cols, seed)
      modifies this`data, this`startCell, this`finishCell, this`entered, this`stamp, this`clock, rng`draws
      ensures Valid() && Carved(seed)
      ensures CountRows(data, rows) == rows * cols
      ensures startCell == None && finishCell == None
    {
      startCell, finishCell := None, None;
      var h, e, s := GenerateFresh(rows, cols, seed, rng);
      data, entered, stamp := h, e, s;
    }

    // -------------------------------------------------------------------------
    // Dimensions and zoom

    /** `resize(new_dim)`: with new dimensions, a fresh grid, the zoom
        restricted and the frame clamped (with the frame size it had so far);
        in every case the frame size is recomputed from the zoom and the
        line width follows it when adaptive. */
    method Resize(newDim: Option<(nat, nat)>)
      requires |framePos| == 2 && |frameSize| == 2
      requires newDim.Some? ==> DimsInRange(newDim.value.0, newDim.value.1) &&
                                MIN_LINE_WIDTH <= lineWidth <= MAX_LINE_WIDTH
      requires newDim.None? ==> Settled()
      modifies this`rows, this`cols, this`data, this`startCell, this`finishCell, this`entered, this`stamp, this`clock,
               this`maxScreenTiles, this`framePos, this`frameSize, this`lineWidth
      ensures Valid() && Sized()
      ensures newDim.Some? ==>
                rows == newDim.value.0 && cols == newDim.value.1 && data == FreshGrid(rows, cols) &&
                startCell == None && finishCell == None && entered == map[] && stamp == map[] && clock == 0 &&
                maxScreenTiles == RestrictedZoom(old(maxScreenTiles), rows, cols) &&
                framePos == ClampFrame(old(framePos), old(frameSize), Dims(rows, cols))
      ensures newDim.None? ==>
                rows == old(rows) && cols == old(cols) && data == old(data) &&
                startCell == old(startCell) && finishCell == old(finishCell) &&
                entered == old(entered) && stamp == old(stamp) && clock == old(clock) &&
                maxScreenTiles == old(maxScreenTiles) && framePos == old(framePos)
      ensures lineWidth == if adaptiveLines then LineSizeFor(MaxReal(frameSize[0], frameSize[1])) else old(lineWidth)
    {
      if newDim.Some? {
        SetDims(newDim.value.0, newDim.value.1);
      }
      UpdateTilesize();
    }

    /** The first branch of `resize(new_dim)`: the new dimensions, a fresh
        grid from `reset`, the zoom restricted to them and the frame, still
        of its old size, clamped to them. */
    method SetDims(newRows: nat, newCols: nat)
      requires |framePos| == 2 && |frameSize| == 2
      requires DimsInRange(newRows, newCols) && MIN_LINE_WIDTH <= lineWidth <= MAX_LINE_WIDTH
      modifies this`rows, this`cols, this`data, this`startCell, this`finishCell, this`entered, this`stamp, this`clock,
               this`maxScreenTiles, this`framePos
      ensures Settled()
      ensures rows == newRows && cols == newCols && data == FreshGrid(rows, cols) &&
              startCell == None && finishCell == None && entered == map[] && stamp == map[] && clock == 0
      ensures maxScreenTiles == RestrictedZoom(old(maxScreenTiles), rows, cols)
      ensures framePos == ClampFrame(old(framePos), frameSize, Dims(rows, cols))
    {
      rows, cols := newRows, newCols;
      Reset();
      RestrictZoom();
      UpdateFramePos();
      FreshGridOk(rows, cols);
    }

    /** The part of `update_tilesize` that concerns the grid: the frame
        shows the zoom's tile count on the short axis and as much more on
        the long axis as the aspect ratio gives, capped at the grid; then
        the line width is updated. */
    method UpdateTilesize()
      requires Settled()
      modifies this`frameSize, this`lineWidth
      ensures Valid() && Sized()
      ensures frameSize == FrameSizeFor(rows, cols, maxScreenTiles)
      ensures lineWidth == if adaptiveLines then LineSizeFor(MaxReal(frameSize[0], frameSize[1])) else old(lineWidth)
    {
      frameSize := FrameSizeFor(rows, cols, maxScreenTiles);
      UpdateLineSize();
    }

    /** `restrict_zoom`. */
    method RestrictZoom()
      modifies this`maxScreenTiles
      ensures maxScreenTiles == RestrictedZoom(old(maxScreenTiles), rows, cols)
      ensures DimsInRange(rows, cols) ==> MIN_FRAME_SIZE <= maxScreenTiles <= Min(rows, cols)
    {
      if maxScreenTiles < MIN_FRAME_SIZE {
        maxScreenTiles := MIN_FRAME_SIZE;
      } else if maxScreenTiles > Min(rows, cols) {
        maxScreenTiles := Min(rows, cols);
      } else if maxScreenTiles > MAX_FRAME_SIZE {
        maxScreenTiles := MAX_FRAME_SIZE;
      }
    }

    /** `zoom(m)`: a hold-to-repeat control. When it acts, the zoom moves by
        `m` tiles and is restricted, the frame size and line width are
        recomputed, the frame is moved to `anchor` (where `set_frame_to_cursor`
        puts it; None when the cursor is off the maze) and clamped. */
    method Zoom(m: int, anchor: Option<seq<real>>)
      requires Valid() && Sized()
      requires anchor.Some? ==> |anchor.value| == 2
      modifies this`zoomRepeat, this`maxScreenTiles, this`frameSize, this`lineWidth, this`framePos
      ensures Valid() && Sized()
      ensures var t := Press(old(zoomRepeat), m != 0, zoomDelay as real, zoomInterval as real);
              zoomRepeat == t.next &&
              (t.fired ==>
                 maxScreenTiles == RestrictedZoom(old(maxScreenTiles) - m * ZOOM_VAL, rows, cols) &&
                 framePos == ClampFrame(if anchor.Some? then anchor.value else old(framePos), frameSize, Dims(rows, cols)) &&
                 FrameInside() &&
                 lineWidth == if adaptiveLines then LineSizeFor(MaxReal(frameSize[0], frameSize[1])) else old(lineWidth)) &&
              (!t.fired ==>
                 maxScreenTiles == old(maxScreenTiles) && frameSize == old(frameSize) &&
                 framePos == old(framePos) && lineWidth == old(lineWidth))
    {
      if m == 0 {
        zoomRepeat := Released;
      } else if zoomRepeat.counter <= 0.0 {
        if zoomRepeat.cont {
          zoomRepeat := zoomRepeat.(counter := zoomInterval as real);
        } else {
          zoomRepeat := Repeat(zoomDelay as real, true);
        }
        ApplyZoom(m, anchor);
      } else {
        zoomRepeat := zoomRepeat.(counter := zoomRepeat.counter - 1.0);
      }
    }

    /** The work `zoom(m)` does when the control acts: the zoom moves by `m`
        tiles and is restricted, the frame size and line width are
        recomputed, and the frame is moved to `anchor` and clamped. */
    method ApplyZoom(m: int, anchor: Option<seq<real>>)
      requires Valid() && Sized()
      requires anchor.Some? ==> |anchor.value| == 2
      modifies this`maxScreenTiles, this`frameSize, this`lineWidth, this`framePos
      ensures Valid() && Sized()
      ensures maxScreenTiles == RestrictedZoom(old(maxScreenTiles) - m * ZOOM_VAL, rows, cols)
      ensures framePos == ClampFrame(if anchor.Some? then anchor.value else old(framePos), frameSize, Dims(rows, cols))
      ensures FrameInside()
      ensures lineWidth == if adaptiveLines then LineSizeFor(MaxReal(frameSize[0], frameSize[1])) else old(lineWidth)
    {
      maxScreenTiles := maxScreenTiles - m * ZOOM_VAL;
      RestrictZoom();
      // `resize()` without new dimensions: of its work only `update_tilesize`
      // concerns the grid.
      UpdateTilesize();
      if anchor.Some? {
        framePos := anchor.value;
      }
      UpdateFramePos();
    }

    // -------------------------------------------------------------------------
    // Line width

    /** `get_line_size(screen_tiles)`: the line width for the given tile
        count, or for the frame's long side when none (or 0) is given. */
    method GetLineSize(screenTiles: Option<real>) returns (lineSize: int)
      requires |frameSize| == 2
      ensures var tiles := if screenTiles.None? || screenTiles.value == 0.0 then MaxReal(frameSize[0], frameSize[1]) else screenTiles.value;
              lineSize == LineSizeFor(tiles)
      ensures MIN_LINE_WIDTH <= lineSize <= MAX_LINE_WIDTH
    {
      var tiles := if screenTiles.None? || screenTiles.value == 0.0 then MaxReal(frameSize[0], frameSize[1]) else screenTiles.value;
      lineSize := LineSizeFor(tiles);
    }

    /** `update_line_size`: an adaptive line width follows the frame size. */
    method UpdateLineSize()
      requires |frameSize| == 2
      modifies this`lineWidth
      ensures lineWidth == if adaptiveLines then LineSizeFor(MaxReal(frameSize[0], frameSize[1])) else old(lineWidth)
      ensures adaptiveLines ==> MIN_LINE_WIDTH <= lineWidth <= MAX_LINE_WIDTH
    {
      if adaptiveLines {
        lineWidth := GetLineSize(None);
      }
    }

    /** `expand_lines(w)`: ignored while the line width is adaptive;
        otherwise a hold-to-repeat control that, when it acts, changes the
        width by `w` and clamps it to 1..15. */
    method ExpandLines(w: int)
      requires Valid()
      modifies this`expandRepeat, this`lineWidth
      ensures Valid()
      ensures adaptiveLines ==> expandRepeat == old(expandRepeat) && lineWidth == old(lineWidth)
      ensures !adaptiveLines ==>
                var t := Press(old(expandRepeat), w != 0, expandDelay as real, expandInterval as real);
                expandRepeat == t.next &&
                lineWidth == if t.fired then ClampLineWidth(old(lineWidth) + w * EXPAND_VAL) else old(lineWidth)
    {
      if adaptiveLines {
        return;
      }
      if w == 0 {
        expandRepeat := Released;
      } else if expandRepeat.counter <= 0.0 {
        if expandRepeat.cont {
          expandRepeat := expandRepeat.(counter := expandInterval as real);
        } else {
          expandRepeat := Repeat(expandDelay as real, true);
        }
        lineWidth := lineWidth + w * EXPAND_VAL;
        if lineWidth > MAX_LINE_WIDTH {
          lineWidth := MAX_LINE_WIDTH;
        } else if lineWidth < MIN_LINE_WIDTH {
          lineWidth := MIN_LINE_WIDTH;
        }
      } else {
        expandRepeat := expandRepeat.(counter := expandRepeat.counter - 1.0);
      }
    }

    /** `toggle_adaptive_lines`. */
    method ToggleAdaptiveLines()
      modifies this`adaptiveLines
      ensures adaptiveLines == !old(adaptiveLines)
    {
      if adaptiveLines {
        adaptiveLines := false;
      } else {
        adaptiveLines := true;
      }
    }

    // -------------------------------------------------------------------------
    // The frame

    /** `update_frame_pos`: each axis is clamped into the grid; a frame that
        fits ends inside, and a frame already inside stays put. */
    method UpdateFramePos()
      requires |framePos| == 2 && |frameSize| == 2
      modifies this`framePos
      ensures framePos == ClampFrame(old(framePos), frameSize, Dims(rows, cols))
      ensures Fits(frameSize, Dims(rows, cols)) ==> Inside(framePos, frameSize, Dims(rows, cols))
      ensures Inside(old(framePos), frameSize, Dims(rows, cols)) ==> framePos == old(framePos)
    {
      var dims := Dims(rows, cols);
      for i := 0 to 2
        invariant |framePos| == 2
        invariant forall j :: 0 <= j < i ==> framePos[j] == ClampAxis(old(framePos)[j], frameSize[j], dims[j])
        invariant forall j :: i <= j < 2 ==> framePos[j] == old(framePos)[j]
      {
        if framePos[i] < 0.0 {
          framePos := framePos[i := 0.0];
        } else if framePos[i] + frameSize[i] > dims[i] {
          framePos := framePos[i := dims[i] - frameSize[i]];
        }
      }
      ClampFrameInside(old(framePos), frameSize, dims);
    }

    /** `align_frame`: nothing when both trailing edges are on whole tiles,
        otherwise both coordinates are rounded (half to even) and clamped. */
    method AlignFrame()
      requires Valid()
      modifies this`framePos
      ensures Valid()
      ensures framePos == Viewport.AlignFrame(old(framePos), frameSize, Dims(rows, cols))
      ensures old(FrameInside()) ==> FrameInside()
    {
      var aligned := true;
      for i := 0 to 2
        invariant aligned <==> forall j :: 0 <= j < i ==> framePos[j] + frameSize[j] - Trunc(framePos[j] + frameSize[j]) as real == 0.0
      {
        if (framePos[i] + frameSize[i]) - Trunc(framePos[i] + frameSize[i]) as real != 0.0 {
          aligned := false;
        }
      }
      if aligned {
        assert EdgesWhole(framePos, frameSize);
        return;
      }
      ghost var rounded := [RoundHalfEven(framePos[0]) as real, RoundHalfEven(framePos[1]) as real];
      for i := 0 to 2
        invariant |framePos| == 2
        invariant forall j :: 0 <= j < i ==> framePos[j] == RoundHalfEven(old(framePos)[j]) as real
        invariant forall j :: i <= j < 2 ==> framePos[j] == old(framePos)[j]
      {
        framePos := framePos[i := RoundHalfEven(framePos[i]) as real];
      }
      assert framePos == rounded;
      UpdateFramePos();
      if old(FrameInside()) {
        AlignFrameInside(old(framePos), frameSize, Dims(rows, cols));
      }
    }

    /** `set_frame_quadrant(quadrant)`: the frame is pinned to the corner of
        the quadrant (3 for any value outside 1..4). */
    method SetFrameQuadrant(quadrant: int)
      requires Valid()
      modifies this`framePos
      ensures Valid() && FrameInside()
      ensures framePos == QuadrantFrame(quadrant, frameSize, Dims(rows, cols))
    {
      var q := quadrant;
      if q < 1 || q > 4 {
        q := 3;
      }
      if q == 1 || q == 2 {
        framePos := framePos[0 := 0.0];
      } else {
        framePos := framePos[0 := rows as real - frameSize[0]];
      }
      if q == 2 || q == 3 {
        framePos := framePos[1 := 0.0];
      } else {
        framePos := framePos[1 := cols as real - frameSize[1]];
      }
      QuadrantFrameCorner(quadrant, frameSize, Dims(rows, cols));
    }

    /** `set_frame_center(cell)`: the frame is centred on the cell (whose
        coordinates may be fractional) and clamped into the grid. */
    method SetFrameCenter(cellRow: real, cellCol: real)
      requires Valid()
      modifies this`framePos
      ensures Valid() && FrameInside()
      ensures framePos == ClampFrame([CenterOn(cellRow, frameSize[0]), CenterOn(cellCol, frameSize[1])], frameSize, Dims(rows, cols))
    {
      var y := cellRow - frameSize[0] / 2.0 + 0.5;
      var x := cellCol - frameSize[1] / 2.0 + 0.5;
      framePos := [y, x];
      UpdateFramePos();
    }

    /** `scroll(direction)`: released, the counter rearms at once; held
        with the counter run down, the frame moves half a tile per pressed
        axis, is clamped, and the counter reloads with `scroll_delay`;
        otherwise the counter counts down. */
    method Scroll(direction: seq<int>)
      requires Valid() && |direction| == 2
      modifies this`framePos, this`scrollCounter
      ensures Valid()
      ensures var t := ScrollTick(old(scrollCounter), direction[0] != 0 || direction[1] != 0, scrollDelay as real);
              scrollCounter == t.0 &&
              framePos == (if t.1 then ScrollFrame(old(framePos), direction, frameSize, Dims(rows, cols)) else old(framePos)) &&
              (t.1 ==> FrameInside())
      ensures old(FrameInside()) ==> FrameInside()
    {
      if direction[0] == 0 && direction[1] == 0 {
        scrollCounter := 0.0;
      } else if scrollCounter <= 0.0 {
        for i := 0 to 2
          invariant |framePos| == 2
          invariant forall j :: 0 <= j < i ==> framePos[j] == old(framePos)[j] + direction[j] as real * SCROLL_VAL
          invariant forall j :: i <= j < 2 ==> framePos[j] == old(framePos)[j]
        {
          framePos := framePos[i := framePos[i] + direction[i] as real * SCROLL_VAL];
        }
        UpdateFramePos();
        scrollCounter := scrollDelay as real;
      } else {
        scrollCounter := scrollCounter - 1.0;
      }
    }
  }
}
