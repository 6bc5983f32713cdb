/** What one call of the recursive backtracker `Maze.generate(cell)`
    establishes, stated over grid values so that `MazeModel.GenerateOn`
    can carry it through its loop and its recursion.

    Besides the grid, the generator is followed through two ghost records:
    `entered` maps each carved-into cell to the cell it was entered from, and
    `stamp` numbers the cells in the order they were first reached (`clock`
    is the next number). */
module Carving {
  import opened PyNum
  import opened Blocks
  import opened Grid

  /** Every stamp is older than the clock and belongs to a visited cell of
      the grid, save possibly `pending` (a cell stamped by the caller of
      `generate(pending)` just before the call). */
  ghost predicate StampsVisited(g: Rows, rows: int, cols: int, s: map<Cell, nat>, clock: nat, pending: Option<Cell>)
    requires Shaped(g, rows, cols)
  {
    forall x {:trigger x in s} :: x in s ==> InBounds(rows, cols, x) && s[x] < clock && (Some(x) == pending || IsVisited(At(g, x)))
  }

  /** What a call `generate(cell)` may assume: a valid grid, an unvisited
      cell on it, a tree describing the open walls, and the stamps in order. */
  ghost predicate Ready(g: Rows, rows: int, cols: int, e: map<Cell, Cell>, s: map<Cell, nat>, clock: nat, cell: Cell) {
    GridOk(g, rows, cols) && InBounds(rows, cols, cell) && !IsVisited(At(g, cell)) &&
    TreeShaped(g, rows, cols, e, s) && StampsVisited(g, rows, cols, s, clock, Some(cell))
  }

  /** The grid stays valid, walls only come down and visited flags only go up. */
  ghost predicate GridAdvanced(g0: Rows, g: Rows, rows: int, cols: int)
    requires Shaped(g0, rows, cols)
  {
    GridOk(g, rows, cols) && OnlyOpened(g0, g, rows, cols) && VisitedGrows(g0, g, rows, cols)
  }

  /** Every cell visited since `g0`, other than `cell`, has all its
      neighbours visited and is stamped. */
  ghost predicate NewlyVisitedClosed(g0: Rows, g: Rows, rows: int, cols: int, s: map<Cell, nat>, cell: Cell)
    requires Shaped(g0, rows, cols) && Shaped(g, rows, cols)
  {
    forall c {:trigger At(g, c)} :: InBounds(rows, cols, c) && IsVisited(At(g, c)) && !IsVisited(At(g0, c)) && c != cell ==>
      NeighboursVisited(g, rows, cols, c) && c in s
  }

  /** The records only grow: no entry is dropped or changed. */
  ghost predicate Extends(e0: map<Cell, Cell>, e: map<Cell, Cell>, s0: map<Cell, nat>, s: map<Cell, nat>) {
    (forall x :: x in e0 ==> x in e && e[x] == e0[x]) &&
    (forall x :: x in s0 ==> x in s && s[x] == s0[x])
  }

  /** Cells entered since `g0` were unvisited in `g0` and are not `cell`. */
  ghost predicate FreshEntries(g0: Rows, rows: int, cols: int, e0: map<Cell, Cell>, e: map<Cell, Cell>, cell: Cell)
    requires Shaped(g0, rows, cols)
  {
    forall x {:trigger x in e} :: x in e && x !in e0 ==> x != cell && InBounds(rows, cols, x) && !IsVisited(At(g0, x))
  }

  /** Cells stamped since the start, other than `cell`, were entered. */
  ghost predicate StampsEntered(s0: map<Cell, nat>, s: map<Cell, nat>, e: map<Cell, Cell>, cell: Cell) {
    forall x {:trigger x in s} :: x in s && x !in s0 && x != cell ==> x in e
  }

  /** What holds between the start of `generate(cell)` (grid `g0`, records
      `e0`, `s0`) and any later point of that call (grid `g`, records `e`,
      `s`, `clock`). */
  ghost predicate Progress(g0: Rows, g: Rows, rows: int, cols: int, e0: map<Cell, Cell>, e: map<Cell, Cell>,
                           s0: map<Cell, nat>, s: map<Cell, nat>, clock: nat, cell: Cell)
    requires Shaped(g0, rows, cols)
  {
    GridAdvanced(g0, g, rows, cols) &&
    InBounds(rows, cols, cell) && IsVisited(At(g, cell)) && cell in s &&
    NewlyVisitedClosed(g0, g, rows, cols, s, cell) &&
    TreeShaped(g, rows, cols, e, s) && Extends(e0, e, s0, s) &&
    FreshEntries(g0, rows, cols, e0, e, cell) &&
    StampsVisited(g, rows, cols, s, clock, None) &&
    StampsEntered(s0, s, e, cell)
  }

  /** The stamp `generate` gives `cell` on entry, unless the caller already did. */
  function StampOnEntry(s: map<Cell, nat>, clock: nat, cell: Cell): map<Cell, nat> {
    if cell in s then s else s[cell := clock]
  }

  function ClockOnEntry(s: map<Cell, nat>, clock: nat, cell: Cell): nat {
    if cell in s then clock else clock + 1
  }

  // ---------------------------------------------------------------------------
  // Entering generate(cell)

  /** Marking `cell` visited advances the grid and visits nothing else. */
  lemma SetVisitedAdvances(g0: Rows, rows: int, cols: int, cell: Cell)
    requires GridOk(g0, rows, cols) && InBounds(rows, cols, cell)
    ensures GridAdvanced(g0, SetVisited(g0, cell), rows, cols)
    ensures IsVisited(At(SetVisited(g0, cell), cell))
    ensures forall s :: NewlyVisitedClosed(g0, SetVisited(g0, cell), rows, cols, s, cell)
  {
    var g1 := SetVisited(g0, cell);
    SetVisitedWalls(g0, rows, cols, cell);
    SetVisitedEffect(g0, rows, cols, cell);
    assert OnlyOpened(g0, g1, rows, cols);
  }

  /** Stamping the unstamped `cell` keeps the tree (it was never entered). */
  lemma TreeStampOnEntry(g: Rows, rows: int, cols: int, e: map<Cell, Cell>, s: map<Cell, nat>, clock: nat, cell: Cell)
    requires TreeShaped(g, rows, cols, e, s)
    ensures TreeShaped(g, rows, cols, e, StampOnEntry(s, clock, cell))
  {
    var s1 := StampOnEntry(s, clock, cell);
    forall x | x in e ensures x in s1 && e[x] in s1 && s1[e[x]] < s1[x] {
      assert x in s && e[x] in s;
    }
  }

  /** Opening `generate`: once `cell` is marked visited and stamped, the
      progress relation holds, and `cell` has an unvisited neighbour exactly
      when it had one before it was marked. */
  lemma ProgressStart(g0: Rows, rows: int, cols: int, e0: map<Cell, Cell>, s0: map<Cell, nat>, clock0: nat, cell: Cell)
    requires Ready(g0, rows, cols, e0, s0, clock0, cell)
    ensures Progress(g0, SetVisited(g0, cell), rows, cols, e0, e0, s0, StampOnEntry(s0, clock0, cell),
                     ClockOnEntry(s0, clock0, cell), cell)
    ensures NeighboursVisited(SetVisited(g0, cell), rows, cols, cell) <==> NeighboursVisited(g0, rows, cols, cell)
  {
    var g1 := SetVisited(g0, cell);
    var s1, clock1 := StampOnEntry(s0, clock0, cell), ClockOnEntry(s0, clock0, cell);
    SetVisitedAdvances(g0, rows, cols, cell);
    SetVisitedEffect(g0, rows, cols, cell);
    TreeSetVisited(g0, rows, cols, e0, s0, cell);
    TreeStampOnEntry(g1, rows, cols, e0, s0, clock0, cell);
    assert StampsVisited(g1, rows, cols, s1, clock1, None) by {
      forall x | x in s1 ensures InBounds(rows, cols, x) && s1[x] < clock1 && IsVisited(At(g1, x)) {
        if x != cell {
          assert x in s0;
        }
      }
    }
    if !NeighboursVisited(g0, rows, cols, cell) {
      var y :| InBounds(rows, cols, y) && Adjacent(cell, y) && !IsVisited(At(g0, y));
      assert !IsVisited(At(g1, y));
    }
  }

  // ---------------------------------------------------------------------------
  // Carving into pos2 and recursing

  /** Before the recursive call `generate(pos2)`: after the wall between
      `cell` and its unvisited neighbour `pos2` is opened and `pos2` is
      recorded as entered from `cell`, the call's own assumptions hold, and
      fewer cells are unvisited than when `generate(cell)` began. */
  lemma CarveReady(g0: Rows, g1: Rows, rows: int, cols: int, e1: map<Cell, Cell>, s1: map<Cell, nat>,
                   clock1: nat, cell: Cell, pos2: Cell)
    requires Shaped(g0, rows, cols) && InBounds(rows, cols, cell) && !IsVisited(At(g0, cell))
    requires GridOk(g1, rows, cols) && VisitedGrows(g0, g1, rows, cols) && IsVisited(At(g1, cell))
    requires TreeShaped(g1, rows, cols, e1, s1) && cell in s1 && StampsVisited(g1, rows, cols, s1, clock1, None)
    requires pos2 in UnvisitedNeighbours(g1, rows, cols, cell)
    ensures InBounds(rows, cols, pos2) && Adjacent(cell, pos2) && Has(g1, cell) && Has(g1, pos2)
    ensures Ready(OpenWall(g1, cell, pos2), rows, cols, e1[pos2 := cell], s1[pos2 := clock1], clock1 + 1, pos2)
    ensures UnvisitedCells(OpenWall(g1, cell, pos2), rows, cols) < UnvisitedCells(g0, rows, cols)
  {
    var g2 := OpenWall(g1, cell, pos2);
    OpenWallOk(g1, rows, cols, cell, pos2);
    assert pos2 !in s1;
    TreeGrows(g1, rows, cols, e1, s1, cell, pos2, clock1);
    CarveStamps(g1, rows, cols, s1, clock1, cell, pos2);
    CarveShrinks(g0, g1, rows, cols, cell, pos2);
  }

  /** Opening a wall visits nothing new, so the cells still unvisited after
      it are fewer than when `generate(cell)` began: `cell` has been visited. */
  lemma CarveShrinks(g0: Rows, g1: Rows, rows: int, cols: int, cell: Cell, pos2: Cell)
    requires Shaped(g0, rows, cols) && InBounds(rows, cols, cell) && !IsVisited(At(g0, cell))
    requires GridOk(g1, rows, cols) && VisitedGrows(g0, g1, rows, cols) && IsVisited(At(g1, cell))
    requires InBounds(rows, cols, pos2) && Adjacent(cell, pos2)
    ensures UnvisitedCells(OpenWall(g1, cell, pos2), rows, cols) < UnvisitedCells(g0, rows, cols)
  {
    var g2 := OpenWall(g1, cell, pos2);
    assert VisitedGrows(g0, g2, rows, cols);
    UnvisitedShrinks(g0, g2, rows, cols, cell);
  }

  lemma CarveStamps(g1: Rows, rows: int, cols: int, s1: map<Cell, nat>, clock1: nat, cell: Cell, pos2: Cell)
    requires GridOk(g1, rows, cols) && StampsVisited(g1, rows, cols, s1, clock1, None)
    requires InBounds(rows, cols, cell) && InBounds(rows, cols, pos2) && Adjacent(cell, pos2)
    ensures StampsVisited(OpenWall(g1, cell, pos2), rows, cols, s1[pos2 := clock1], clock1 + 1, Some(pos2))
  {
  }

  /** Opening one wall only lowers flags. */
  lemma OpenWallOnlyOpens(g: Rows, rows: int, cols: int, p1: Cell, p2: Cell)
    requires GridOk(g, rows, cols) && InBounds(rows, cols, p1) && InBounds(rows, cols, p2) && Adjacent(p1, p2)
    ensures GridAdvanced(g, OpenWall(g, p1, p2), rows, cols)
  {
    var h := OpenWall(g, p1, p2);
    OpenWallOk(g, rows, cols, p1, p2);
    forall c | InBounds(rows, cols, c)
      ensures At(h, c).left <= At(g, c).left && At(h, c).right <= At(g, c).right &&
              At(h, c).top <= At(g, c).top && At(h, c).bottom <= At(g, c).bottom
    {
      assert FlagsOk(At(g, c)) && FlagsOk(At(h, c));
    }
  }

  /** Advancing the grid is transitive. */
  lemma AdvanceTrans(g0: Rows, g1: Rows, g2: Rows, rows: int, cols: int)
    requires Shaped(g0, rows, cols) && Shaped(g1, rows, cols)
    requires GridAdvanced(g0, g1, rows, cols) && GridAdvanced(g1, g2, rows, cols)
    ensures GridAdvanced(g0, g2, rows, cols)
  {
    forall c | InBounds(rows, cols, c)
      ensures At(g2, c).left <= At(g0, c).left && At(g2, c).right <= At(g0, c).right &&
              At(g2, c).top <= At(g0, c).top && At(g2, c).bottom <= At(g0, c).bottom
    {
      assert At(g2, c).left <= At(g1, c).left;
    }
  }

  /** The cells newly visited over the whole loop iteration are closed: those
      from before the iteration stay so as flags only grow, and those of the
      recursive call are closed by the call (`pos2` among them). */
  lemma ClosedCompose(g0: Rows, g1: Rows, g2: Rows, g3: Rows, rows: int, cols: int,
                      s1: map<Cell, nat>, s3: map<Cell, nat>, cell: Cell, pos2: Cell)
    requires Shaped(g0, rows, cols) && Shaped(g1, rows, cols) && Shaped(g2, rows, cols) && Shaped(g3, rows, cols)
    requires NewlyVisitedClosed(g0, g1, rows, cols, s1, cell)
    requires forall x :: x in s1 ==> x in s3
    requires VisitedGrows(g1, g3, rows, cols)
    requires forall c {:trigger At(g2, c)} :: InBounds(rows, cols, c) ==> (IsVisited(At(g2, c)) <==> IsVisited(At(g1, c)))
    requires NewlyVisitedClosed(g2, g3, rows, cols, s3, pos2)
    requires NeighboursVisited(g3, rows, cols, pos2) && pos2 in s3
    ensures NewlyVisitedClosed(g0, g3, rows, cols, s3, cell)
  {
    forall c | InBounds(rows, cols, c) && IsVisited(At(g3, c)) && !IsVisited(At(g0, c)) && c != cell
      ensures NeighboursVisited(g3, rows, cols, c) && c in s3
    {
      if IsVisited(At(g1, c)) {
        NeighboursVisitedGrows(g1, g3, rows, cols, c);
      }
    }
  }

  /** The records after the loop iteration: grown, their new entries fresh,
      and every new stamp entered. */
  lemma RecordsCompose(g0: Rows, g1: Rows, g2: Rows, rows: int, cols: int,
                       e0: map<Cell, Cell>, e1: map<Cell, Cell>, e3: map<Cell, Cell>,
                       s0: map<Cell, nat>, s1: map<Cell, nat>, s3: map<Cell, nat>,
                       clock1: nat, cell: Cell, pos2: Cell)
    requires Shaped(g0, rows, cols) && Shaped(g1, rows, cols) && Shaped(g2, rows, cols)
    requires VisitedGrows(g0, g1, rows, cols) && InBounds(rows, cols, cell) && IsVisited(At(g1, cell))
    requires forall c {:trigger At(g2, c)} :: InBounds(rows, cols, c) ==> (IsVisited(At(g2, c)) <==> IsVisited(At(g1, c)))
    requires InBounds(rows, cols, pos2) && !IsVisited(At(g1, pos2)) && pos2 != cell
    requires Extends(e0, e1, s0, s1) && pos2 !in e1 && pos2 !in s1
    requires FreshEntries(g0, rows, cols, e0, e1, cell) && StampsEntered(s0, s1, e1, cell)
    requires Extends(e1[pos2 := cell], e3, s1[pos2 := clock1], s3)
    requires FreshEntries(g2, rows, cols, e1[pos2 := cell], e3, pos2)
    requires StampsEntered(s1[pos2 := clock1], s3, e3, pos2)
    ensures Extends(e0, e3, s0, s3)
    ensures FreshEntries(g0, rows, cols, e0, e3, cell)
    ensures StampsEntered(s0, s3, e3, cell)
  {
    var e2, s2 := e1[pos2 := cell], s1[pos2 := clock1];
    forall x | x in e3 && x !in e0 ensures x != cell && InBounds(rows, cols, x) && !IsVisited(At(g0, x)) {
      if x !in e2 {
        assert !IsVisited(At(g2, x));
      }
    }
    forall x | x in s3 && x !in s0 && x != cell ensures x in e3 {
      if x in s2 && x != pos2 {
        assert x in s1 && x in e1;
      }
    }
  }

  /** After the recursive call `generate(pos2)` returns: the progress of
      `generate(cell)` extends over the whole call, the wall to `pos2` is
      still open, and `pos2` is no longer unvisited. */
  lemma {:induction false} ProgressCompose(g0: Rows, g1: Rows, g3: Rows, rows: int, cols: int,
                                           e0: map<Cell, Cell>, e1: map<Cell, Cell>, e3: map<Cell, Cell>,
                                           s0: map<Cell, nat>, s1: map<Cell, nat>, s3: map<Cell, nat>,
                                           clock1: nat, clock3: nat, cell: Cell, pos2: Cell)
    requires Shaped(g0, rows, cols) && Progress(g0, g1, rows, cols, e0, e1, s0, s1, clock1, cell)
    requires pos2 in UnvisitedNeighbours(g1, rows, cols, cell)
    requires InBounds(rows, cols, pos2) && Adjacent(cell, pos2)
    requires Shaped(OpenWall(g1, cell, pos2), rows, cols)
    requires Progress(OpenWall(g1, cell, pos2), g3, rows, cols, e1[pos2 := cell], e3, s1[pos2 := clock1], s3, clock3, pos2)
    requires NeighboursVisited(g3, rows, cols, pos2)
    ensures Progress(g0, g3, rows, cols, e0, e3, s0, s3, clock3, cell)
    ensures Wall(g3, cell, pos2) == 0
    ensures UnvisitedCells(g3, rows, cols) < UnvisitedCells(g1, rows, cols)
  {
    var g2 := OpenWall(g1, cell, pos2);
    GridCompose(g0, g1, g3, rows, cols, cell, pos2);
    assert pos2 !in s1;
    ClosedCompose(g0, g1, g2, g3, rows, cols, s1, s3, cell, pos2);
    RecordsCompose(g0, g1, g2, rows, cols, e0, e1, e3, s0, s1, s3, clock1, cell, pos2);
  }

  /** The grid over the loop iteration: still advancing from `g0`, the wall
      to `pos2` open, and fewer cells unvisited. */
  lemma GridCompose(g0: Rows, g1: Rows, g3: Rows, rows: int, cols: int, cell: Cell, pos2: Cell)
    requires Shaped(g0, rows, cols) && GridAdvanced(g0, g1, rows, cols)
    requires InBounds(rows, cols, cell) && InBounds(rows, cols, pos2) && Adjacent(cell, pos2)
    requires !IsVisited(At(g1, pos2))
    requires Shaped(OpenWall(g1, cell, pos2), rows, cols)
    requires GridAdvanced(OpenWall(g1, cell, pos2), g3, rows, cols) && IsVisited(At(g3, pos2))
    ensures GridAdvanced(g0, g3, rows, cols) && VisitedGrows(g1, g3, rows, cols)
    ensures forall c {:trigger At(OpenWall(g1, cell, pos2), c)} :: InBounds(rows, cols, c) ==> (IsVisited(At(OpenWall(g1, cell, pos2), c)) <==> IsVisited(At(g1, c)))
    ensures Wall(g3, cell, pos2) == 0
    ensures UnvisitedCells(g3, rows, cols) < UnvisitedCells(g1, rows, cols)
  {
    AdvanceOverCarve(g0, g1, g3, rows, cols, cell, pos2);
    StaysOpen(g1, g3, rows, cols, cell, pos2);
    UnvisitedShrinks(g1, g3, rows, cols, pos2);
  }

  /** Opening the wall changes no visited flag, so advancing from the
      opened grid is advancing from `g1`, and from `g0`. */
  lemma AdvanceOverCarve(g0: Rows, g1: Rows, g3: Rows, rows: int, cols: int, cell: Cell, pos2: Cell)
    requires Shaped(g0, rows, cols) && GridAdvanced(g0, g1, rows, cols)
    requires InBounds(rows, cols, cell) && InBounds(rows, cols, pos2) && Adjacent(cell, pos2)
    requires Shaped(OpenWall(g1, cell, pos2), rows, cols)
    requires GridAdvanced(OpenWall(g1, cell, pos2), g3, rows, cols)
    ensures GridAdvanced(g0, g3, rows, cols) && VisitedGrows(g1, g3, rows, cols)
    ensures forall c {:trigger At(OpenWall(g1, cell, pos2), c)} :: InBounds(rows, cols, c) ==> (IsVisited(At(OpenWall(g1, cell, pos2), c)) <==> IsVisited(At(g1, c)))
  {
    var g2 := OpenWall(g1, cell, pos2);
    OpenWallOnlyOpens(g1, rows, cols, cell, pos2);
    AdvanceTrans(g1, g2, g3, rows, cols);
    AdvanceTrans(g0, g1, g3, rows, cols);
  }

  /** A wall opened in `g2` is still open in any grid advanced from it. */
  lemma StaysOpen(g1: Rows, g3: Rows, rows: int, cols: int, cell: Cell, pos2: Cell)
    requires GridOk(g1, rows, cols) && InBounds(rows, cols, cell) && InBounds(rows, cols, pos2) && Adjacent(cell, pos2)
    requires Shaped(OpenWall(g1, cell, pos2), rows, cols)
    requires GridAdvanced(OpenWall(g1, cell, pos2), g3, rows, cols)
    ensures Wall(g3, cell, pos2) == 0
  {
    var g2 := OpenWall(g1, cell, pos2);
    OpenWallOk(g1, rows, cols, cell, pos2);
    assert Wall(g2, cell, pos2) == 0;
    assert FlagsOk(At(g3, cell));
  }

  // ---------------------------------------------------------------------------
  // The whole maze

  /** A fresh grid with empty records is ready for `generate(seed)`. */
  lemma FreshReady(rows: nat, cols: nat, seed: Cell)
    requires InBounds(rows, cols, seed)
    ensures Ready(FreshGrid(rows, cols), rows, cols, map[], map[], 0, seed)
  {
    FreshGridOk(rows, cols);
    FreshTree(rows, cols);
  }

  /** The seed of a grid with more than one cell has a neighbour on the grid. */
  lemma SeedHasNeighbour(rows: int, cols: int, seed: Cell) returns (y: Cell)
    requires InBounds(rows, cols, seed) && rows * cols > 1
    ensures InBounds(rows, cols, y) && Adjacent(seed, y)
  {
    if seed.col + 1 < cols {
      y := Cell(seed.row, seed.col + 1);
    } else if seed.col > 0 {
      y := Cell(seed.row, seed.col - 1);
    } else if seed.row + 1 < rows {
      y := Cell(seed.row + 1, seed.col);
    } else {
      assert cols == 1;
      y := Cell(seed.row - 1, seed.col);
    }
  }

  /** The maze a whole run of `generate(seed)` leaves on a fresh grid: a
      valid grid with every block visited and stamped, every cell but the
      seed entered from a neighbour through an opened wall, the open walls
      exactly those entries (a spanning tree), and, on more than one cell,
      no block left with four walls. */
  ghost predicate SpanningMaze(g: Rows, rows: int, cols: int, seed: Cell, e: map<Cell, Cell>, s: map<Cell, nat>) {
    GridOk(g, rows, cols) &&
    (forall c {:trigger At(g, c)} :: InBounds(rows, cols, c) ==> IsVisited(At(g, c)) && c in s && (c in e <==> c != seed)) &&
    (forall c {:trigger c in e} :: c in e ==> InBounds(rows, cols, c) && Adjacent(c, e[c]) && Wall(g, c, e[c]) == 0) &&
    TreeShaped(g, rows, cols, e, s) &&
    (rows * cols > 1 ==> NoWalledInCell(g, rows, cols))
  }

  /** After a whole run from `seed` on a fresh grid every block is visited
      and stamped, and the cells entered are exactly those other than the seed. */
  lemma CarvedEverywhere(rows: nat, cols: nat, seed: Cell, g: Rows, e: map<Cell, Cell>, s: map<Cell, nat>, clock: nat)
    requires InBounds(rows, cols, seed)
    requires Progress(FreshGrid(rows, cols), g, rows, cols, map[], e, map[], s, clock, seed)
    requires NeighboursVisited(g, rows, cols, seed)
    ensures forall c {:trigger At(g, c)} :: InBounds(rows, cols, c) ==> IsVisited(At(g, c)) && c in s && (c in e <==> c != seed)
  {
    var g0 := FreshGrid(rows, cols);
    forall c | InBounds(rows, cols, c) && IsVisited(At(g, c)) ensures NeighboursVisited(g, rows, cols, c) {
      assert At(g0, c) == NewBlock(c.row, c.col);
    }
    AllVisitedFromSeed(g, rows, cols, seed);
    forall c | InBounds(rows, cols, c) ensures c in s && (c in e <==> c != seed) {
      assert At(g0, c) == NewBlock(c.row, c.col);
    }
  }

  /** Every cell but the seed was entered through a wall that is now open,
      and the seed has lost a wall, so no cell keeps all four. */
  lemma CarvedNoWalledIn(rows: nat, cols: nat, seed: Cell, g: Rows, e: map<Cell, Cell>)
    requires GridOk(g, rows, cols) && InBounds(rows, cols, seed)
    requires forall c {:trigger At(g, c)} :: InBounds(rows, cols, c) ==> (c in e <==> c != seed)
    requires forall c {:trigger c in e} :: c in e ==> InBounds(rows, cols, c) && Adjacent(c, e[c]) && Wall(g, c, e[c]) == 0
    requires Borders(At(g, seed)) < 4
    ensures NoWalledInCell(g, rows, cols)
  {
    forall c | InBounds(rows, cols, c) ensures Borders(At(g, c)) != 4 {
      var b := At(g, c);
      if c != seed {
        OpenWallBorders(g, rows, cols, c, e[c]);
      }
    }
  }

  /** A whole run of `generate(seed)` on a fresh grid leaves a spanning
      maze, and `check_visited` then counts every block. */
  lemma {:induction false} GeneratedMaze(rows: nat, cols: nat, seed: Cell, g: Rows, e: map<Cell, Cell>, s: map<Cell, nat>, clock: nat)
    requires InBounds(rows, cols, seed)
    requires Progress(FreshGrid(rows, cols), g, rows, cols, map[], e, map[], s, clock, seed)
    requires NeighboursVisited(g, rows, cols, seed)
    requires !NeighboursVisited(FreshGrid(rows, cols), rows, cols, seed) ==> Borders(At(g, seed)) < 4
    ensures SpanningMaze(g, rows, cols, seed, e, s)
    ensures CountRows(g, rows) == rows * cols
  {
    CarvedEverywhere(rows, cols, seed, g, e, s, clock);
    if rows * cols > 1 {
      var y := SeedHasNeighbour(rows, cols, seed);
      assert At(FreshGrid(rows, cols), y) == NewBlock(y.row, y.col);
      forall c | InBounds(rows, cols, c) ensures c in e <==> c != seed {
        var b := At(g, c);
      }
      CarvedNoWalledIn(rows, cols, seed, g, e);
    }
    CountAllVisited(g, rows, cols, rows);
  }

  /** A walk through open walls leads from `c` to `seed`. */
  ghost predicate PathToSeed(g: Rows, rows: int, cols: int, seed: Cell, c: Cell)
    requires Shaped(g, rows, cols)
  {
    exists p :: |p| >= 1 && p[0] == c && p[|p| - 1] == seed && OpenPath(g, rows, cols, p)
  }

  /** Every cell of the grid is joined to `seed` by a walk through open walls. */
  ghost predicate ConnectedToSeed(g: Rows, rows: int, cols: int, seed: Cell)
    requires Shaped(g, rows, cols)
  {
    forall c :: InBounds(rows, cols, c) ==> PathToSeed(g, rows, cols, seed, c)
  }

  /** The maze `generate(seed)` carves is connected: from every block a walk
      through open walls leads back to the seed. The walk follows the parent
      records to a cell that was never entered, and the only such cell on
      the grid is the seed. */
  lemma SpanningConnected(g: Rows, rows: int, cols: int, seed: Cell, e: map<Cell, Cell>, s: map<Cell, nat>)
    requires SpanningMaze(g, rows, cols, seed, e, s)
    ensures ConnectedToSeed(g, rows, cols, seed)
  {
    forall c | InBounds(rows, cols, c)
      ensures PathToSeed(g, rows, cols, seed, c)
    {
      assert IsVisited(At(g, c));
      var p := PathToRoot(g, rows, cols, e, s, c);
      var root := p[|p| - 1];
      assert InBounds(rows, cols, root);
      assert IsVisited(At(g, root));
      assert root == seed;
    }
  }

  /** The cells of one row of the grid. */
  function RowCells(r: int, cols: nat): (cs: set<Cell>)
    ensures forall c :: c in cs <==> c.row == r && 0 <= c.col < cols
  {
    set k | 0 <= k < cols :: Cell(r, k)
  }

  /** A row holds `cols` cells. */
  lemma {:induction false} RowCellsCount(r: int, cols: nat)
    ensures |RowCells(r, cols)| == cols
  {
    if cols > 0 {
      RowCellsCount(r, cols - 1);
      assert RowCells(r, cols) == RowCells(r, cols - 1) + {Cell(r, cols - 1)};
    }
  }

  /** The cells of the grid. */
  function GridCells(rows: nat, cols: nat): (cs: set<Cell>)
    ensures forall c :: c in cs <==> InBounds(rows, cols, c)
  {
    set r, k | 0 <= r < rows && 0 <= k < cols :: Cell(r, k)
  }

  /** A grid holds `rows * cols` cells. */
  lemma {:induction false} GridCellsCount(rows: nat, cols: nat)
    ensures |GridCells(rows, cols)| == rows * cols
  {
    if rows > 0 {
      var upper, last := GridCells(rows - 1, cols), RowCells(rows - 1, cols);
      GridCellsCount(rows - 1, cols);
      RowCellsCount(rows - 1, cols);
      forall c ensures c in GridCells(rows, cols) <==> c in upper || c in last {
      }
      assert GridCells(rows, cols) == upper + last;
      assert upper !! last;
      assert |upper + last| == |upper| + |last|;
      assert (rows - 1) * cols + cols == rows * cols;
    }
  }

  /** The carved tree has one edge fewer than the grid has cells: every cell
      but the seed was entered exactly once. */
  lemma SpanningEdges(g: Rows, rows: nat, cols: nat, seed: Cell, e: map<Cell, Cell>, s: map<Cell, nat>)
    requires SpanningMaze(g, rows, cols, seed, e, s) && InBounds(rows, cols, seed)
    ensures |e| == rows * cols - 1
  {
    forall c ensures c in e.Keys <==> c in GridCells(rows, cols) - {seed} {
      if InBounds(rows, cols, c) {
        assert IsVisited(At(g, c));
      }
    }
    assert e.Keys == GridCells(rows, cols) - {seed};
    GridCellsCount(rows, cols);
  }
}
