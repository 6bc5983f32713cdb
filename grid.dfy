/** The grid of blocks held in `Maze.data` (a list of rows, each a list of
    blocks), the wall relation between neighbouring cells, and the shape the
    generator leaves behind. Everything here is a value; `MazeModel.Maze`
    holds the grid in a field and changes it through these functions. */
module Grid {
  import opened PyNum
  import opened Blocks

  type Rows = seq<seq<Block>>

  predicate InBounds(rows: int, cols: int, c: Cell) {
    0 <= c.row < rows && 0 <= c.col < cols
  }

  predicate Shaped(g: Rows, rows: int, cols: int) {
    |g| == rows && forall r :: 0 <= r < rows ==> |g[r]| == cols
  }

  predicate Has(g: Rows, c: Cell) {
    0 <= c.row < |g| && 0 <= c.col < |g[c.row]|
  }

  /** On a grid of the given shape, the cells in bounds are the cells it has. */
  lemma AllHas(g: Rows, rows: int, cols: int, cells: seq<Cell>)
    requires Shaped(g, rows, cols)
    requires forall k :: 0 <= k < |cells| ==> InBounds(rows, cols, cells[k])
    ensures forall k :: 0 <= k < |cells| ==> Has(g, cells[k])
  {
  }

  function At(g: Rows, c: Cell): Block
    requires Has(g, c)
  {
    g[c.row][c.col]
  }

  function SetBlock(g: Rows, c: Cell, b: Block): (h: Rows)
    requires Has(g, c)
    ensures |h| == |g| && forall r :: 0 <= r < |g| ==> |h[r]| == |g[r]|
    ensures At(h, c) == b
    ensures forall d {:trigger At(h, d)} :: Has(g, d) && d != c ==> At(h, d) == At(g, d)
  {
    g[c.row := g[c.row][c.col := b]]
  }

  /** Every block sits at its own position and carries 0/1 flags. */
  ghost predicate WellFormed(g: Rows, rows: int, cols: int) {
    Shaped(g, rows, cols) &&
    forall c {:trigger At(g, c)} :: InBounds(rows, cols, c) ==> At(g, c).pos == c && FlagsOk(At(g, c))
  }

  /** Walls are a symmetric relation: a cell's right wall is its right
      neighbour's left wall, and its bottom wall its lower neighbour's top wall. */
  ghost predicate Symmetric(g: Rows, rows: int, cols: int)
    requires Shaped(g, rows, cols)
  {
    (forall r, c, d {:trigger g[r][c].right, g[r][d].left} :: 0 <= r < rows && 0 <= c < cols - 1 && d == c + 1 ==> g[r][c].right == g[r][d].left) &&
    (forall r, s, c {:trigger g[r][c].bottom, g[s][c].top} :: 0 <= r < rows - 1 && s == r + 1 && 0 <= c < cols ==> g[r][c].bottom == g[s][c].top)
  }

  /** The outer walls of the grid are standing. */
  predicate BoundaryClosed(g: Rows, rows: int, cols: int)
    requires Shaped(g, rows, cols)
  {
    (forall r :: 0 <= r < rows && 0 < cols ==> g[r][0].left == 1 && g[r][cols - 1].right == 1) &&
    (forall c :: 0 <= c < cols && 0 < rows ==> g[0][c].top == 1 && g[rows - 1][c].bottom == 1)
  }

  ghost predicate GridOk(g: Rows, rows: int, cols: int) {
    WellFormed(g, rows, cols) && Symmetric(g, rows, cols) && BoundaryClosed(g, rows, cols)
  }

  // ---------------------------------------------------------------------------
  // A fresh grid (`Maze.reset`)

  function FreshRow(r: int, cols: nat): (row: seq<Block>)
    ensures |row| == cols
  {
    seq(cols, c => NewBlock(r, c))
  }

  /** The blocks `reset` builds: `rows` lists of `cols` fresh blocks. */
  function FreshGrid(rows: nat, cols: nat): (g: Rows)
    ensures Shaped(g, rows, cols)
  {
    seq(rows, r => FreshRow(r, cols))
  }

  /** A fresh grid is a valid grid: all walls stand, so they agree on both
      sides, and no cell is visited. */
  lemma FreshGridOk(rows: nat, cols: nat)
    ensures GridOk(FreshGrid(rows, cols), rows, cols)
    ensures VisitedCells(FreshGrid(rows, cols), rows, cols) == {}
    ensures forall c {:trigger At(FreshGrid(rows, cols), c)} :: InBounds(rows, cols, c) ==> Borders(At(FreshGrid(rows, cols), c)) == 4
  {
    var g: Rows := FreshGrid(rows, cols);
    forall r, c | 0 <= r < rows && 0 <= c < cols
      ensures At(g, Cell(r, c)) == NewBlock(r, c)
    {
    }
  }

  // ---------------------------------------------------------------------------
  // Walls between neighbours

  /** The flag of the wall of `a` that faces its neighbour `b`. */
  function Wall(g: Rows, a: Cell, b: Cell): int
    requires Has(g, a) && Adjacent(a, b)
  {
    var blk := At(g, a);
    if b.col == a.col - 1 then blk.left
    else if b.col == a.col + 1 then blk.right
    else if b.row == a.row - 1 then blk.top
    else blk.bottom
  }

  /** In a valid grid the wall between two neighbours reads the same from both sides. */
  lemma WallSymmetric(g: Rows, rows: int, cols: int, a: Cell, b: Cell)
    requires GridOk(g, rows, cols) && InBounds(rows, cols, a) && InBounds(rows, cols, b) && Adjacent(a, b)
    ensures Wall(g, a, b) == Wall(g, b, a)
  {
  }

  /** A wall flag is 0 or 1 in a valid grid. */
  lemma WallIsFlag(g: Rows, rows: int, cols: int, a: Cell, b: Cell)
    requires GridOk(g, rows, cols) && InBounds(rows, cols, a) && Adjacent(a, b)
    ensures Wall(g, a, b) in {0, 1}
  {
    assert FlagsOk(At(g, a));
  }

  /** The outcome of `unblock(pos1, pos2)`: `Done` stands for the source's
      `None`; the three errors carry the source's codes. */
  datatype UnblockStatus = Done | NotAdjacent | SameCell | Diagonal {
    function Code(): int {
      match this
      case Done => 0
      case NotAdjacent => -1
      case SameCell => -2
      case Diagonal => -3
    }
  }

  /** The error checks of `unblock`, in the source's order. */
  function Classify(p1: Cell, p2: Cell): (s: UnblockStatus)
    ensures s == Done <==> Adjacent(p1, p2)
    ensures s == SameCell <==> p1 == p2
    ensures s == Diagonal <==> Abs(p2.row - p1.row) == 1 && Abs(p2.col - p1.col) == 1
    ensures s == NotAdjacent <==> Abs(p2.row - p1.row) > 1 || Abs(p2.col - p1.col) > 1
  {
    var y := p2.row - p1.row;
    var x := p2.col - p1.col;
    if Abs(x) > 1 || Abs(y) > 1 then NotAdjacent
    else if x == 0 && y == 0 then SameCell
    else if Abs(x) == 1 && Abs(y) == 1 then Diagonal
    else Done
  }

  /** The barrier removal of `unblock` for a neighbouring pair: the wall of
      `p1` facing `p2` and the wall of `p2` facing `p1` are set to 0. */
  function OpenWall(g: Rows, p1: Cell, p2: Cell): (h: Rows)
    requires Has(g, p1) && Has(g, p2) && Adjacent(p1, p2)
    ensures |h| == |g| && forall r :: 0 <= r < |g| ==> |h[r]| == |g[r]|
    ensures Wall(h, p1, p2) == 0 && Wall(h, p2, p1) == 0
    ensures forall d {:trigger At(h, d)} :: Has(g, d) && d != p1 && d != p2 ==> At(h, d) == At(g, d)
    ensures forall d {:trigger At(h, d)} :: Has(g, d) ==> At(h, d).pos == At(g, d).pos && At(h, d).visited == At(g, d).visited
  {
    var b1, b2 := At(g, p1), At(g, p2);
    var x := p2.col - p1.col;
    var y := p2.row - p1.row;
    if x == -1 then SetBlock(SetBlock(g, p1, b1.(left := 0)), p2, b2.(right := 0))
    else if x == 1 then SetBlock(SetBlock(g, p1, b1.(right := 0)), p2, b2.(left := 0))
    else if y == -1 then SetBlock(SetBlock(g, p1, b1.(top := 0)), p2, b2.(bottom := 0))
    else SetBlock(SetBlock(g, p1, b1.(bottom := 0)), p2, b2.(top := 0))
  }

  /** Opening the wall between `p1` and `p2` changes exactly that wall, seen
      from either side, and no other wall of any cell. */
  lemma OpenWallEffect(g: Rows, p1: Cell, p2: Cell, a: Cell, b: Cell)
    requires Has(g, p1) && Has(g, p2) && Adjacent(p1, p2)
    requires Has(g, a) && Adjacent(a, b)
    ensures Wall(OpenWall(g, p1, p2), a, b) ==
            if (a == p1 && b == p2) || (a == p2 && b == p1) then 0 else Wall(g, a, b)
  {
  }

  /** Opening a wall between two cells of a valid grid keeps it valid. */
  lemma OpenWallOk(g: Rows, rows: int, cols: int, p1: Cell, p2: Cell)
    requires GridOk(g, rows, cols) && InBounds(rows, cols, p1) && InBounds(rows, cols, p2) && Adjacent(p1, p2)
    ensures GridOk(OpenWall(g, p1, p2), rows, cols)
  {
    OpenWallSymmetric(g, rows, cols, p1, p2);
    OpenWallBoundary(g, rows, cols, p1, p2);
    var h: Rows := OpenWall(g, p1, p2);
    forall d | InBounds(rows, cols, d)
      ensures At(h, d).pos == d && FlagsOk(At(h, d))
    {
      assert FlagsOk(At(g, d));
      if d == p1 || d == p2 {
        WallIsFlag(g, rows, cols, p1, p2);
      }
    }
  }

  lemma OpenWallSymmetric(g: Rows, rows: int, cols: int, p1: Cell, p2: Cell)
    requires GridOk(g, rows, cols) && InBounds(rows, cols, p1) && InBounds(rows, cols, p2) && Adjacent(p1, p2)
    ensures Symmetric(OpenWall(g, p1, p2), rows, cols)
  {
    var h: Rows := OpenWall(g, p1, p2);
    forall r, c | 0 <= r < rows && 0 <= c < cols - 1
      ensures h[r][c].right == h[r][c + 1].left
    {
      var a, b := Cell(r, c), Cell(r, c + 1);
      OpenWallEffect(g, p1, p2, a, b);
      OpenWallEffect(g, p1, p2, b, a);
      WallSymmetric(g, rows, cols, a, b);
    }
    forall r, c | 0 <= r < rows - 1 && 0 <= c < cols
      ensures h[r][c].bottom == h[r + 1][c].top
    {
      var a, b := Cell(r, c), Cell(r + 1, c);
      OpenWallEffect(g, p1, p2, a, b);
      OpenWallEffect(g, p1, p2, b, a);
      WallSymmetric(g, rows, cols, a, b);
    }
  }

  lemma OpenWallBoundary(g: Rows, rows: int, cols: int, p1: Cell, p2: Cell)
    requires GridOk(g, rows, cols) && InBounds(rows, cols, p1) && InBounds(rows, cols, p2) && Adjacent(p1, p2)
    ensures BoundaryClosed(OpenWall(g, p1, p2), rows, cols)
  {
    var h: Rows := OpenWall(g, p1, p2);
    forall r | 0 <= r < rows && 0 < cols
      ensures h[r][0].left == 1 && h[r][cols - 1].right == 1
    {
      var a, b := Cell(r, 0), Cell(r, cols - 1);
      OpenWallEffect(g, p1, p2, a, Cell(r, -1));
      OpenWallEffect(g, p1, p2, b, Cell(r, cols));
      assert Wall(h, a, Cell(r, -1)) == h[r][0].left && Wall(g, a, Cell(r, -1)) == g[r][0].left;
      assert Wall(h, b, Cell(r, cols)) == h[r][cols - 1].right && Wall(g, b, Cell(r, cols)) == g[r][cols - 1].right;
    }
    forall c | 0 <= c < cols && 0 < rows
      ensures h[0][c].top == 1 && h[rows - 1][c].bottom == 1
    {
      var a, b := Cell(0, c), Cell(rows - 1, c);
      OpenWallEffect(g, p1, p2, a, Cell(-1, c));
      OpenWallEffect(g, p1, p2, b, Cell(rows, c));
      assert Wall(h, a, Cell(-1, c)) == h[0][c].top && Wall(g, a, Cell(-1, c)) == g[0][c].top;
      assert Wall(h, b, Cell(rows, c)) == h[rows - 1][c].bottom && Wall(g, b, Cell(rows, c)) == g[rows - 1][c].bottom;
    }
  }

  /** Walls only ever come down: every flag of `h` is at most the one in `g`. */
  ghost predicate OnlyOpened(g: Rows, h: Rows, rows: int, cols: int)
    requires Shaped(g, rows, cols) && Shaped(h, rows, cols)
  {
    forall c {:trigger At(h, c)} :: InBounds(rows, cols, c) ==>
      At(h, c).left <= At(g, c).left && At(h, c).right <= At(g, c).right &&
      At(h, c).top <= At(g, c).top && At(h, c).bottom <= At(g, c).bottom
  }

  // ---------------------------------------------------------------------------
  // Visited cells

  function SetVisited(g: Rows, c: Cell): (h: Rows)
    requires Has(g, c)
    ensures |h| == |g| && forall r :: 0 <= r < |g| ==> |h[r]| == |g[r]|
  {
    SetBlock(g, c, At(g, c).(visited := 1))
  }

  function VisitedCells(g: Rows, rows: int, cols: int): set<Cell>
    requires Shaped(g, rows, cols)
  {
    set r, c | 0 <= r < rows && 0 <= c < cols && IsVisited(g[r][c]) :: Cell(r, c)
  }

  function UnvisitedCells(g: Rows, rows: int, cols: int): set<Cell>
    requires Shaped(g, rows, cols)
  {
    set r, c | 0 <= r < rows && 0 <= c < cols && !IsVisited(g[r][c]) :: Cell(r, c)
  }

  lemma VisitedCellsAt(g: Rows, rows: int, cols: int, c: Cell)
    requires Shaped(g, rows, cols)
    ensures c in VisitedCells(g, rows, cols) <==> InBounds(rows, cols, c) && IsVisited(At(g, c))
    ensures c in UnvisitedCells(g, rows, cols) <==> InBounds(rows, cols, c) && !IsVisited(At(g, c))
  {
    if InBounds(rows, cols, c) && IsVisited(At(g, c)) {
      assert Cell(c.row, c.col) in VisitedCells(g, rows, cols);
    }
    if InBounds(rows, cols, c) && !IsVisited(At(g, c)) {
      assert Cell(c.row, c.col) in UnvisitedCells(g, rows, cols);
    }
  }

  /** Every in-bounds neighbour of `x` is visited. */
  ghost predicate NeighboursVisited(g: Rows, rows: int, cols: int, x: Cell)
    requires Shaped(g, rows, cols)
  {
    forall y {:trigger At(g, y)} :: InBounds(rows, cols, y) && Adjacent(x, y) ==> IsVisited(At(g, y))
  }

  /** The unvisited, in-bounds entries of `cs`, in order. */
  function KeepUnvisited(g: Rows, rows: int, cols: int, cs: seq<Cell>): (r: seq<Cell>)
    requires Shaped(g, rows, cols)
    ensures |r| <= |cs|
    ensures forall x {:trigger x in r} {:trigger x in cs} :: x in r <==> x in cs && InBounds(rows, cols, x) && !IsVisited(At(g, x))
  {
    if cs == [] then []
    else
      var c := cs[0];
      var keep := 0 <= c.col < cols && 0 <= c.row < rows && !IsVisited(At(g, c));
      (if keep then [c] else []) + KeepUnvisited(g, rows, cols, cs[1..])
  }

  /** What `find_neighbours` returns: the in-bounds, unvisited neighbours of
      `c`, in the order left, up, right, down. */
  function UnvisitedNeighbours(g: Rows, rows: int, cols: int, c: Cell): (r: seq<Cell>)
    requires Shaped(g, rows, cols)
    ensures |r| <= 4
    ensures forall x {:trigger x in r} :: x in r <==> InBounds(rows, cols, x) && Adjacent(c, x) && !IsVisited(At(g, x))
  {
    KeepUnvisited(g, rows, cols, Candidates(c))
  }

  /** No unvisited neighbour is left exactly when all neighbours are visited. */
  lemma NoUnvisitedNeighbours(g: Rows, rows: int, cols: int, c: Cell)
    requires Shaped(g, rows, cols)
    ensures UnvisitedNeighbours(g, rows, cols, c) == [] <==> NeighboursVisited(g, rows, cols, c)
  {
    var r := UnvisitedNeighbours(g, rows, cols, c);
    if r != [] {
      assert r[0] in r;
    }
  }

  // ---------------------------------------------------------------------------
  // Counting (`check_visited`, `check_valid`)

  function CountRow(row: seq<Block>): (n: nat)
    ensures n <= |row|
  {
    if row == [] then 0 else CountRow(row[..|row| - 1]) + (if IsVisited(row[|row| - 1]) then 1 else 0)
  }

  /** The number of visited blocks in the first `k` rows. */
  function CountRows(g: Rows, k: nat): nat
    requires k <= |g|
  {
    if k == 0 then 0 else CountRows(g, k - 1) + CountRow(g[k - 1])
  }

  /** A row counts its full length exactly when every block in it is visited. */
  lemma {:induction false} CountRowFull(row: seq<Block>)
    ensures CountRow(row) == |row| <==> forall i :: 0 <= i < |row| ==> IsVisited(row[i])
  {
    if row != [] {
      var front := row[..|row| - 1];
      CountRowFull(front);
      if forall i :: 0 <= i < |row| ==> IsVisited(row[i]) {
        assert forall i :: 0 <= i < |front| ==> IsVisited(front[i]) by {
          forall i | 0 <= i < |front| ensures IsVisited(front[i]) {
            assert front[i] == row[i];
          }
        }
      } else {
        var i :| 0 <= i < |row| && !IsVisited(row[i]);
        if i < |row| - 1 {
          assert front[i] == row[i];
        }
      }
    }
  }

  /** The visited blocks of the first `k` rows number at most `k * cols`. */
  lemma {:induction false} CountRowsBound(g: Rows, rows: nat, cols: nat, k: nat)
    requires Shaped(g, rows, cols) && k <= rows
    ensures CountRows(g, k) <= k * cols
  {
    if k > 0 {
      CountRowsBound(g, rows, cols, k - 1);
      assert k * cols == (k - 1) * cols + cols;
    }
  }

  /** `check_visited` counts `k * cols` over the first `k` rows exactly when
      every block in them is visited. */
  lemma {:induction false} CountAllVisited(g: Rows, rows: nat, cols: nat, k: nat)
    requires Shaped(g, rows, cols) && k <= rows
    ensures CountRows(g, k) == k * cols <==>
            forall c {:trigger At(g, c)} :: InBounds(k, cols, c) ==> IsVisited(At(g, c))
  {
    if k > 0 {
      CountAllVisited(g, rows, cols, k - 1);
      CountRowsBound(g, rows, cols, k - 1);
      assert k * cols == (k - 1) * cols + cols;
      var row := g[k - 1];
      CountRowFull(row);
      if forall c :: InBounds(k, cols, c) ==> IsVisited(At(g, c)) {
        forall i | 0 <= i < |row| ensures IsVisited(row[i]) {
          assert IsVisited(At(g, Cell(k - 1, i)));
        }
        assert forall c :: InBounds(k - 1, cols, c) ==> IsVisited(At(g, c));
      } else {
        var c :| InBounds(k, cols, c) && !IsVisited(At(g, c));
        if c.row == k - 1 {
          assert !IsVisited(row[c.col]);
        } else {
          assert !(forall d :: InBounds(k - 1, cols, d) ==> IsVisited(At(g, d)));
        }
      }
    }
  }

  /** No block has all four walls standing (the condition `check_valid` tests). */
  ghost predicate NoWalledInCell(g: Rows, rows: int, cols: int)
    requires Shaped(g, rows, cols)
  {
    forall c {:trigger At(g, c)} :: InBounds(rows, cols, c) ==> Borders(At(g, c)) != 4
  }

  // ---------------------------------------------------------------------------
  // Reaching every cell

  /** A set of cells that holds one cell of the grid and is closed under
      stepping to an in-bounds neighbour holds the whole grid. */
  lemma {:induction false} ClosedSetIsGrid(rows: int, cols: int, v: set<Cell>, a: Cell, b: Cell)
    requires a in v && InBounds(rows, cols, a) && InBounds(rows, cols, b)
    requires forall x, y :: x in v && InBounds(rows, cols, y) && Adjacent(x, y) ==> y in v
    ensures b in v
    decreases Abs(a.row - b.row) + Abs(a.col - b.col)
  {
    if a != b {
      var next :=
        if a.col < b.col then Cell(a.row, a.col + 1)
        else if a.col > b.col then Cell(a.row, a.col - 1)
        else if a.row < b.row then Cell(a.row + 1, a.col)
        else Cell(a.row - 1, a.col);
      assert Adjacent(a, next);
      ClosedSetIsGrid(rows, cols, v, next, b);
    }
  }

  // ---------------------------------------------------------------------------
  // The spanning tree the generator carves

  /** The open walls form a tree recorded by `entered` (each entered cell maps
      to the cell it was entered from, through an open wall) and `stamp` (the
      order cells were visited in): every entered cell's parent was visited
      before it, and every open wall joins an entered cell to its parent. */
  ghost predicate TreeShaped(g: Rows, rows: int, cols: int, entered: map<Cell, Cell>, stamp: map<Cell, nat>)
  {
    Shaped(g, rows, cols) &&
    (forall x :: x in entered ==>
       x in stamp && entered[x] in stamp && stamp[entered[x]] < stamp[x] &&
       InBounds(rows, cols, x) && InBounds(rows, cols, entered[x]) &&
       Adjacent(x, entered[x]) && Wall(g, x, entered[x]) == 0) &&
    (forall a, b {:trigger Wall(g, a, b)} :: InBounds(rows, cols, a) && InBounds(rows, cols, b) && Adjacent(a, b) && Wall(g, a, b) == 0 ==>
       (a in entered && entered[a] == b) || (b in entered && entered[b] == a))
  }

  /** A walk through open walls. */
  ghost predicate OpenPath(g: Rows, rows: int, cols: int, p: seq<Cell>)
    requires Shaped(g, rows, cols)
  {
    (forall k :: 0 <= k < |p| ==> InBounds(rows, cols, p[k])) &&
    (forall k :: 0 <= k < |p| - 1 ==> Adjacent(p[k], p[k + 1]) && Wall(g, p[k], p[k + 1]) == 0)
  }

  /** From every stamped cell a walk through open walls leads to a root (a
      stamped cell that was not entered from anywhere). */
  lemma {:induction false} PathToRoot(g: Rows, rows: int, cols: int, entered: map<Cell, Cell>, stamp: map<Cell, nat>, x: Cell)
    returns (p: seq<Cell>)
    requires TreeShaped(g, rows, cols, entered, stamp) && x in stamp && InBounds(rows, cols, x)
    ensures |p| >= 1 && p[0] == x && p[|p| - 1] in stamp && p[|p| - 1] !in entered
    ensures OpenPath(g, rows, cols, p)
    decreases stamp[x]
  {
    if x !in entered {
      p := [x];
    } else {
      var q := PathToRoot(g, rows, cols, entered, stamp, entered[x]);
      p := [x] + q;
      assert p[1..] == q;
    }
  }

  // ---------------------------------------------------------------------------
  // Steps of the generator

  /** Appending one candidate to the list filters it on its own. */
  lemma {:induction false} KeepUnvisitedSnoc(g: Rows, rows: int, cols: int, cs: seq<Cell>, c: Cell)
    requires Shaped(g, rows, cols)
    ensures KeepUnvisited(g, rows, cols, cs + [c]) ==
            KeepUnvisited(g, rows, cols, cs) + (if InBounds(rows, cols, c) && !IsVisited(At(g, c)) then [c] else [])
  {
    var tail := if InBounds(rows, cols, c) && !IsVisited(At(g, c)) then [c] else [];
    if cs == [] {
      assert cs + [c] == [c];
    } else {
      var head := if InBounds(rows, cols, cs[0]) && !IsVisited(At(g, cs[0])) then [cs[0]] else [];
      assert (cs + [c])[0] == cs[0] && (cs + [c])[1..] == cs[1..] + [c];
      KeepUnvisitedSnoc(g, rows, cols, cs[1..], c);
      assert KeepUnvisited(g, rows, cols, cs + [c]) == head + (KeepUnvisited(g, rows, cols, cs[1..]) + tail);
      assert head + (KeepUnvisited(g, rows, cols, cs[1..]) + tail) == (head + KeepUnvisited(g, rows, cols, cs[1..])) + tail;
    }
  }

  /** No visited flag of `g` is cleared in `h`. */
  ghost predicate VisitedGrows(g: Rows, h: Rows, rows: int, cols: int)
    requires Shaped(g, rows, cols) && Shaped(h, rows, cols)
  {
    forall c {:trigger At(h, c)} :: InBounds(rows, cols, c) && IsVisited(At(g, c)) ==> IsVisited(At(h, c))
  }

  /** Opening a wall leaves the visited flags, hence the unvisited cells, alone. */
  lemma OpenWallKeepsUnvisited(g: Rows, rows: int, cols: int, p1: Cell, p2: Cell)
    requires Shaped(g, rows, cols) && InBounds(rows, cols, p1) && InBounds(rows, cols, p2) && Adjacent(p1, p2)
    ensures Shaped(OpenWall(g, p1, p2), rows, cols)
    ensures UnvisitedCells(OpenWall(g, p1, p2), rows, cols) == UnvisitedCells(g, rows, cols)
  {
    var h := OpenWall(g, p1, p2);
    forall c ensures c in UnvisitedCells(h, rows, cols) <==> c in UnvisitedCells(g, rows, cols) {
      VisitedCellsAt(h, rows, cols, c);
      VisitedCellsAt(g, rows, cols, c);
    }
  }

  /** Visiting a cell removes it from the unvisited cells, which only shrink. */
  lemma UnvisitedShrinks(g: Rows, h: Rows, rows: int, cols: int, p: Cell)
    requires Shaped(g, rows, cols) && Shaped(h, rows, cols) && VisitedGrows(g, h, rows, cols)
    requires InBounds(rows, cols, p) && !IsVisited(At(g, p)) && IsVisited(At(h, p))
    ensures UnvisitedCells(h, rows, cols) < UnvisitedCells(g, rows, cols)
  {
    forall c | c in UnvisitedCells(h, rows, cols) ensures c in UnvisitedCells(g, rows, cols) {
      VisitedCellsAt(h, rows, cols, c);
      VisitedCellsAt(g, rows, cols, c);
    }
    VisitedCellsAt(g, rows, cols, p);
    VisitedCellsAt(h, rows, cols, p);
  }

  /** A cell whose neighbours are all visited keeps that property while
      visited flags only grow. */
  lemma NeighboursVisitedGrows(g: Rows, h: Rows, rows: int, cols: int, x: Cell)
    requires Shaped(g, rows, cols) && Shaped(h, rows, cols) && VisitedGrows(g, h, rows, cols)
    requires NeighboursVisited(g, rows, cols, x)
    ensures NeighboursVisited(h, rows, cols, x)
  {
  }

  /** Marking a cell visited changes that cell's visited flag and nothing else. */
  lemma SetVisitedEffect(g: Rows, rows: int, cols: int, c: Cell)
    requires Shaped(g, rows, cols) && InBounds(rows, cols, c)
    ensures var h := SetVisited(g, c);
            Shaped(h, rows, cols) &&
            (forall d {:trigger At(h, d)} :: InBounds(rows, cols, d) && d != c ==> At(h, d) == At(g, d)) &&
            At(h, c) == At(g, c).(visited := 1)
  {
  }

  /** Marking a cell visited leaves every wall as it was, and the grid valid. */
  lemma SetVisitedWalls(g: Rows, rows: int, cols: int, c: Cell)
    requires GridOk(g, rows, cols) && InBounds(rows, cols, c)
    ensures var h := SetVisited(g, c);
            GridOk(h, rows, cols) &&
            (forall a, b {:trigger Wall(h, a, b)} :: InBounds(rows, cols, a) && Adjacent(a, b) ==> Wall(h, a, b) == Wall(g, a, b)) &&
            (forall d {:trigger At(h, d)} :: InBounds(rows, cols, d) ==> (IsVisited(At(h, d)) <==> d == c || IsVisited(At(g, d))))
  {
    var h: Rows := SetVisited(g, c);
    SetVisitedEffect(g, rows, cols, c);
    assert WellFormed(h, rows, cols) by {
      forall d | InBounds(rows, cols, d) ensures At(h, d).pos == d && FlagsOk(At(h, d)) {
        assert At(g, d).pos == d && FlagsOk(At(g, d));
      }
    }
    SetVisitedSymmetric(g, rows, cols, c);
    SetVisitedBoundary(g, rows, cols, c);
  }

  lemma SetVisitedSymmetric(g: Rows, rows: int, cols: int, c: Cell)
    requires GridOk(g, rows, cols) && InBounds(rows, cols, c)
    ensures Shaped(SetVisited(g, c), rows, cols) && Symmetric(SetVisited(g, c), rows, cols)
  {
    var h: Rows := SetVisited(g, c);
    SetVisitedEffect(g, rows, cols, c);
    forall r, k | 0 <= r < rows && 0 <= k < cols - 1 ensures h[r][k].right == h[r][k + 1].left {
      assert h[r][k] == At(h, Cell(r, k)) && h[r][k + 1] == At(h, Cell(r, k + 1));
      assert g[r][k] == At(g, Cell(r, k)) && g[r][k + 1] == At(g, Cell(r, k + 1));
    }
    forall r, k | 0 <= r < rows - 1 && 0 <= k < cols ensures h[r][k].bottom == h[r + 1][k].top {
      assert h[r][k] == At(h, Cell(r, k)) && h[r + 1][k] == At(h, Cell(r + 1, k));
      assert g[r][k] == At(g, Cell(r, k)) && g[r + 1][k] == At(g, Cell(r + 1, k));
    }
  }

  lemma SetVisitedBoundary(g: Rows, rows: int, cols: int, c: Cell)
    requires GridOk(g, rows, cols) && InBounds(rows, cols, c)
    ensures Shaped(SetVisited(g, c), rows, cols) && BoundaryClosed(SetVisited(g, c), rows, cols)
  {
    var h: Rows := SetVisited(g, c);
    SetVisitedEffect(g, rows, cols, c);
    assert Shaped(h, rows, cols);
    forall d | InBounds(rows, cols, d)
      ensures At(h, d).left == At(g, d).left && At(h, d).right == At(g, d).right
      ensures At(h, d).top == At(g, d).top && At(h, d).bottom == At(g, d).bottom
    {
    }
    forall r | 0 <= r < rows && 0 < cols ensures h[r][0].left == 1 && h[r][cols - 1].right == 1 {
      assert h[r][0] == At(h, Cell(r, 0)) && h[r][cols - 1] == At(h, Cell(r, cols - 1));
      assert g[r][0] == At(g, Cell(r, 0)) && g[r][cols - 1] == At(g, Cell(r, cols - 1));
    }
    forall k | 0 <= k < cols && 0 < rows ensures h[0][k].top == 1 && h[rows - 1][k].bottom == 1 {
      assert h[0][k] == At(h, Cell(0, k)) && h[rows - 1][k] == At(h, Cell(rows - 1, k));
      assert g[0][k] == At(g, Cell(0, k)) && g[rows - 1][k] == At(g, Cell(rows - 1, k));
    }
  }

  /** An open wall leaves its cell with fewer than four borders. */
  lemma OpenWallBorders(g: Rows, rows: int, cols: int, a: Cell, b: Cell)
    requires GridOk(g, rows, cols) && InBounds(rows, cols, a) && Adjacent(a, b) && Wall(g, a, b) == 0
    ensures Borders(At(g, a)) < 4
  {
    assert FlagsOk(At(g, a));
  }

  /** A fresh grid has no open wall, so the empty tree describes it. */
  lemma FreshTree(rows: nat, cols: nat)
    ensures TreeShaped(FreshGrid(rows, cols), rows, cols, map[], map[])
  {
    FreshGridOk(rows, cols);
    var g := FreshGrid(rows, cols);
    forall a, b | InBounds(rows, cols, a) && InBounds(rows, cols, b) && Adjacent(a, b)
      ensures Wall(g, a, b) == 1
    {
      assert At(g, a) == NewBlock(a.row, a.col);
    }
  }

  /** Carving from `a` into the not yet stamped cell `b` grows the tree by the
      edge `b -> a`: the opened wall is that edge and every other wall is as
      before. */
  lemma TreeGrows(g: Rows, rows: int, cols: int, entered: map<Cell, Cell>, stamp: map<Cell, nat>, a: Cell, b: Cell, t: nat)
    requires GridOk(g, rows, cols) && TreeShaped(g, rows, cols, entered, stamp)
    requires InBounds(rows, cols, a) && InBounds(rows, cols, b) && Adjacent(a, b)
    requires a in stamp && b !in stamp && forall x :: x in stamp ==> stamp[x] < t
    ensures TreeShaped(OpenWall(g, a, b), rows, cols, entered[b := a], stamp[b := t])
  {
    OpenWallOk(g, rows, cols, a, b);
    TreeGrowsEdges(g, rows, cols, entered, stamp, a, b, t);
    TreeGrowsWalls(g, rows, cols, entered, a, b);
  }

  /** After carving, every recorded edge is still an open wall, the new one included. */
  lemma TreeGrowsEdges(g: Rows, rows: int, cols: int, entered: map<Cell, Cell>, stamp: map<Cell, nat>, a: Cell, b: Cell, t: nat)
    requires GridOk(g, rows, cols) && TreeShaped(g, rows, cols, entered, stamp)
    requires InBounds(rows, cols, a) && InBounds(rows, cols, b) && Adjacent(a, b)
    requires a in stamp && b !in stamp && forall x :: x in stamp ==> stamp[x] < t
    ensures var h, e, s := OpenWall(g, a, b), entered[b := a], stamp[b := t];
            forall x :: x in e ==>
              x in s && e[x] in s && s[e[x]] < s[x] &&
              InBounds(rows, cols, x) && InBounds(rows, cols, e[x]) &&
              Adjacent(x, e[x]) && Wall(h, x, e[x]) == 0
  {
    var h := OpenWall(g, a, b);
    var e, s := entered[b := a], stamp[b := t];
    forall x | x in e
      ensures x in s && e[x] in s && s[e[x]] < s[x]
      ensures InBounds(rows, cols, x) && InBounds(rows, cols, e[x])
      ensures Adjacent(x, e[x]) && Wall(h, x, e[x]) == 0
    {
      if x != b {
        OpenWallEffect(g, a, b, x, e[x]);
      }
    }
  }

  /** After carving, every open wall is a recorded edge, the new one included. */
  lemma TreeGrowsWalls(g: Rows, rows: int, cols: int, entered: map<Cell, Cell>, a: Cell, b: Cell)
    requires Shaped(g, rows, cols)
    requires forall x, y {:trigger Wall(g, x, y)} :: InBounds(rows, cols, x) && InBounds(rows, cols, y) && Adjacent(x, y) && Wall(g, x, y) == 0 ==>
               (x in entered && entered[x] == y) || (y in entered && entered[y] == x)
    requires InBounds(rows, cols, a) && InBounds(rows, cols, b) && Adjacent(a, b) && b !in entered
    ensures var h, e := OpenWall(g, a, b), entered[b := a];
            forall x, y {:trigger Wall(h, x, y)} :: InBounds(rows, cols, x) && InBounds(rows, cols, y) && Adjacent(x, y) && Wall(h, x, y) == 0 ==>
              (x in e && e[x] == y) || (y in e && e[y] == x)
  {
    var h, e := OpenWall(g, a, b), entered[b := a];
    forall x, y | InBounds(rows, cols, x) && InBounds(rows, cols, y) && Adjacent(x, y) && Wall(h, x, y) == 0
      ensures (x in e && e[x] == y) || (y in e && e[y] == x)
    {
      OpenWallEffect(g, a, b, x, y);
      if !((x == a && y == b) || (x == b && y == a)) {
        assert Wall(g, x, y) == 0;
      }
    }
  }

  /** Marking a cell visited changes no wall, so the tree still describes the grid. */
  lemma TreeSetVisited(g: Rows, rows: int, cols: int, entered: map<Cell, Cell>, stamp: map<Cell, nat>, c: Cell)
    requires GridOk(g, rows, cols) && TreeShaped(g, rows, cols, entered, stamp) && InBounds(rows, cols, c)
    ensures TreeShaped(SetVisited(g, c), rows, cols, entered, stamp)
  {
    SetVisitedWalls(g, rows, cols, c);
  }

  /** When the seed is visited and every visited cell has only visited
      neighbours, the whole grid is visited. */
  lemma AllVisitedFromSeed(g: Rows, rows: int, cols: int, seed: Cell)
    requires Shaped(g, rows, cols) && InBounds(rows, cols, seed) && IsVisited(At(g, seed))
    requires forall c {:trigger At(g, c)} :: InBounds(rows, cols, c) && IsVisited(At(g, c)) ==> NeighboursVisited(g, rows, cols, c)
    ensures forall c {:trigger At(g, c)} :: InBounds(rows, cols, c) ==> IsVisited(At(g, c))
  {
    var v := set c | c in VisitedCells(g, rows, cols);
    forall c | c in v ensures InBounds(rows, cols, c) && IsVisited(At(g, c)) {
      VisitedCellsAt(g, rows, cols, c);
    }
    VisitedCellsAt(g, rows, cols, seed);
    forall x, y | x in v && InBounds(rows, cols, y) && Adjacent(x, y) ensures y in v {
      VisitedCellsAt(g, rows, cols, y);
    }
    forall c | InBounds(rows, cols, c) ensures IsVisited(At(g, c)) {
      ClosedSetIsGrid(rows, cols, v, seed, c);
      VisitedCellsAt(g, rows, cols, c);
    }
  }
}
