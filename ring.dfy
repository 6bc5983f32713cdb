/** The ring search of `Maze.find_cell`: square rings of growing radius
    around a seed cell are walked, positions that fall off the grid are pulled
    back onto its edge, and the first block with the wanted number of
    borders is returned.

    The walk of one ring is a `while True` loop with no measure of its own.
    Here each ring gets at most `RingBound(radius)` iterations; a walk that has
    not returned to its starting position by then ends with `Cutoff`. The
    walk also reads the grid with Python's indexing, so a position left off
    the grid after the two clamping passes either wraps around (a negative
    index) or ends the search with `IndexFault` (the source's IndexError). */
module Ring {
  import opened PyNum
  import opened Blocks
  import opened Grid

  /** The bounds of the square of half-width `radius` around a centre. */
  datatype Square = Square(top: int, bottom: int, left: int, right: int)

  function RingOf(center: Cell, radius: int): Square {
    Square(center.row - radius, center.row + radius, center.col - radius, center.col + radius)
  }

  /** The walker: its position and the index it advances (0: the row, so it
      moves vertically; 1: the column, so it moves horizontally). */
  datatype Walker = Walker(pos: Cell, i: int)

  /** How one ring walk ends. */
  datatype RingEnd = Closed | Fault | Unclosed

  /** The cells a ring walk inspects, in order, and how it ends. */
  datatype RingScan = RingScan(cells: seq<Cell>, end: RingEnd)

  /** The outcome of `find_cell`: the block found, -1 (`NoMatch`), or one of
      the two ways the modelled walk can stop early. */
  datatype SearchResult = Found(block: Block) | NoMatch | IndexFault | Cutoff

  /** Iterations allowed to the walk of one ring: its perimeter 8r, one more
      to detect the return to the start, one more for the radius-0 ring. */
  function RingBound(radius: nat): nat { 8 * radius + 2 }

  /** The starting walker of `find_cell`: the corner picked by `dir` (default
      `[-1, -1]`, the top-left corner) and the first axis to advance. The test
      `y == x` compares a row with a column; it is kept as written. */
  function StartWalker(center: Cell, radius: int, cw: int, dirX: int, dirY: int): Walker {
    var sq := RingOf(center, radius);
    var y := if dirY == 0 then center.row else if dirY == 1 then sq.bottom else sq.top;
    var x := if dirX == 0 then center.col else if dirX == 1 then sq.right else sq.left;
    var y' := if y == x then sq.top else y;
    var i :=
      if dirX == 0 then 1
      else if dirY == 0 then 0
      else if dirX == dirY then (if cw == 1 then 1 else 0)
      else (if cw == 1 then 1 else 0);
    Walker(Cell(y', x), i)
  }

  /** One pass of the clamping loop: a position above, below, left or right
      of the grid is moved onto the matching grid edge, at the ring corner the
      rotation points to, and the walker turns to run along that edge. */
  function ClampOnce(w: Walker, sq: Square, rows: nat, cols: nat, cw: int): Walker {
    var p := w.pos;
    if p.row < 0 then Walker(Cell(0, if cw == 1 then sq.right else sq.left), 0)
    else if p.row >= rows then Walker(Cell(rows - 1, if cw == 1 then sq.left else sq.right), 0)
    else if p.col < 0 then Walker(Cell(if cw == 1 then sq.top else sq.bottom, 0), 1)
    else if p.col >= cols then Walker(Cell(if cw == 1 then sq.bottom else sq.top, cols - 1), 1)
    else w
  }

  /** Both passes of the clamping loop `for _ in range(2)`. */
  function Clamp(w: Walker, sq: Square, rows: nat, cols: nat, cw: int): Walker {
    ClampOnce(ClampOnce(w, sq, rows, cols, cw), sq, rows, cols, cw)
  }

  /** Advancing one cell along the ring (`pos[i] += cw` or `-= cw`, by the side
      the walker is on) and turning at a corner of the square. A walker on
      neither side stays put, as the source's error branches do. */
  function Step(w: Walker, sq: Square, cw: int): Walker {
    var p := w.pos;
    var moved :=
      if w.i == 0 then
        (if p.col == sq.right then Cell(p.row + cw, p.col)
         else if p.col == sq.left then Cell(p.row - cw, p.col)
         else p)
      else if w.i == 1 then
        (if p.row == sq.top then Cell(p.row, p.col + cw)
         else if p.row == sq.bottom then Cell(p.row, p.col - cw)
         else p)
      else p;
    var corner := moved in {Cell(sq.top, sq.left), Cell(sq.top, sq.right), Cell(sq.bottom, sq.left), Cell(sq.bottom, sq.right)};
    Walker(moved, if corner then Abs(w.i - 1) else w.i)
  }

  /** Python's `data[row][col]` on a rows x cols grid: the cell read, or None
      for an IndexError. */
  function Index(rows: nat, cols: nat, p: Cell): (r: Option<Cell>)
    ensures r.Some? ==> InBounds(rows, cols, r.value)
    ensures InBounds(rows, cols, p) ==> r == Some(p)
  {
    var ri := PyIndex(p.row, rows);
    var ci := PyIndex(p.col, cols);
    if ri.Some? && ci.Some? then Some(Cell(ri.value, ci.value)) else None
  }

  /** The remaining iterations of one ring walk from walker `w`, with at most
      `fuel` iterations left. `first` holds until the starting position is
      fixed; afterwards returning to `start` closes the ring. */
  function WalkFrom(w: Walker, start: Cell, first: bool, fuel: nat, sq: Square, rows: nat, cols: nat, cw: int): RingScan
    decreases fuel
  {
    if fuel == 0 then RingScan([], Unclosed)
    else
      var w1 := Clamp(w, sq, rows, cols, cw);
      if !first && w1.pos == start then RingScan([], Closed)
      else
        var start' := if first then w1.pos else start;
        match Index(rows, cols, w1.pos)
        case None => RingScan([], Fault)
        case Some(c) =>
          var next := if sq.left == sq.right then w1 else Step(w1, sq, cw);
          var rest := WalkFrom(next, start', false, fuel - 1, sq, rows, cols, cw);
          RingScan([c] + rest.cells, rest.end)
  }

  /** Regrouping a walk's cells once one more cell has been inspected. */
  lemma Regroup(a: seq<Cell>, c: Cell, t: seq<Cell>)
    ensures a + ([c] + t) == a + [c] + t
  {
  }

  /** One iteration of a ring walk that comes back to its start closes it. */
  lemma WalkCloses(w: Walker, w1: Walker, start: Cell, fuel: nat, sq: Square, rows: nat, cols: nat, cw: int)
    requires fuel > 0 && w1 == Clamp(w, sq, rows, cols, cw) && w1.pos == start
    ensures WalkFrom(w, start, false, fuel, sq, rows, cols, cw) == RingScan([], Closed)
  {
  }

  /** One iteration of a ring walk at a position Python cannot index faults. */
  lemma WalkFaults(w: Walker, w1: Walker, start: Cell, first: bool, fuel: nat, sq: Square, rows: nat, cols: nat, cw: int)
    requires fuel > 0 && w1 == Clamp(w, sq, rows, cols, cw) && (first || w1.pos != start)
    requires Index(rows, cols, w1.pos).None?
    ensures WalkFrom(w, start, first, fuel, sq, rows, cols, cw) == RingScan([], Fault)
  {
  }

  /** Otherwise the iteration inspects the clamped cell and the walk goes on
      from the next walker, with the start fixed. */
  lemma WalkGoesOn(w: Walker, w1: Walker, next: Walker, start: Cell, start': Cell, first: bool, c: Cell, fuel: nat, sq: Square, rows: nat, cols: nat, cw: int)
    requires fuel > 0 && w1 == Clamp(w, sq, rows, cols, cw) && (first || w1.pos != start)
    requires Index(rows, cols, w1.pos) == Some(c)
    requires next == (if sq.left == sq.right then w1 else Step(w1, sq, cw))
    requires start' == (if first then w1.pos else start)
    ensures var rest := WalkFrom(next, start', false, fuel - 1, sq, rows, cols, cw);
            WalkFrom(w, start, first, fuel, sq, rows, cols, cw) == RingScan([c] + rest.cells, rest.end)
  {
  }

  /** Every cell a walk inspects is on the grid: it was read through
      `Index`, which wraps or refuses the rest. */
  lemma {:induction false} WalkFromInBounds(w: Walker, start: Cell, first: bool, fuel: nat, sq: Square, rows: nat, cols: nat, cw: int)
    ensures forall k :: 0 <= k < |WalkFrom(w, start, first, fuel, sq, rows, cols, cw).cells| ==>
              InBounds(rows, cols, WalkFrom(w, start, first, fuel, sq, rows, cols, cw).cells[k])
    decreases fuel
  {
    if fuel > 0 {
      var w1 := Clamp(w, sq, rows, cols, cw);
      var at := Index(rows, cols, w1.pos);
      if (first || w1.pos != start) && at.Some? {
        var next := if sq.left == sq.right then w1 else Step(w1, sq, cw);
        var start' := if first then w1.pos else start;
        WalkFromInBounds(next, start', false, fuel - 1, sq, rows, cols, cw);
        WalkGoesOn(w, w1, next, start, start', first, at.value, fuel, sq, rows, cols, cw);
        var rest := WalkFrom(next, start', false, fuel - 1, sq, rows, cols, cw);
        forall k | 0 <= k < 1 + |rest.cells|
          ensures InBounds(rows, cols, ([at.value] + rest.cells)[k])
        {
          if k > 0 {
            assert ([at.value] + rest.cells)[k] == rest.cells[k - 1];
          }
        }
      } else if !first && w1.pos == start {
        WalkCloses(w, w1, start, fuel, sq, rows, cols, cw);
      } else {
        WalkFaults(w, w1, start, first, fuel, sq, rows, cols, cw);
      }
    }
  }

  /** The walk of the ring of `radius` around `center`. */
  function RingWalk(rows: nat, cols: nat, center: Cell, radius: nat, cw: int, dirX: int, dirY: int): (s: RingScan)
    ensures forall k :: 0 <= k < |s.cells| ==> InBounds(rows, cols, s.cells[k])
  {
    var w := StartWalker(center, radius, cw, dirX, dirY);
    WalkFromInBounds(w, w.pos, true, RingBound(radius), RingOf(center, radius), rows, cols, cw);
    WalkFrom(w, w.pos, true, RingBound(radius), RingOf(center, radius), rows, cols, cw)
  }

  predicate NoMatchIn(g: Rows, cells: seq<Cell>, n: int)
    requires forall k :: 0 <= k < |cells| ==> Has(g, cells[k])
  {
    forall k :: 0 <= k < |cells| ==> Borders(At(g, cells[k])) != n
  }

  /** The index of the first cell with `n` borders. */
  function FirstMatch(g: Rows, cells: seq<Cell>, n: int): (r: Option<nat>)
    requires forall k :: 0 <= k < |cells| ==> Has(g, cells[k])
    ensures r.Some? ==> r.value < |cells| && Borders(At(g, cells[r.value])) == n &&
                        NoMatchIn(g, cells[..r.value], n)
    ensures r.None? ==> NoMatchIn(g, cells, n)
  {
    if cells == [] then None
    else if Borders(At(g, cells[0])) == n then Some(0)
    else
      match FirstMatch(g, cells[1..], n)
      case None => None
      case Some(k) => Some(k + 1)
  }

  /** Past a prefix without a match, a matching cell is the first match. */
  lemma FirstMatchAfter(g: Rows, a: seq<Cell>, c: Cell, t: seq<Cell>, n: int)
    requires forall k :: 0 <= k < |a| ==> Has(g, a[k])
    requires Has(g, c) && forall k :: 0 <= k < |t| ==> Has(g, t[k])
    requires NoMatchIn(g, a, n) && Borders(At(g, c)) == n
    ensures FirstMatch(g, a + [c] + t, n) == Some(|a|)
  {
    assert (a + [c] + t)[|a|] == c;
  }

  /** With no cell matching, there is no first match. */
  lemma FirstMatchNone(g: Rows, cells: seq<Cell>, n: int)
    requires forall k :: 0 <= k < |cells| ==> Has(g, cells[k])
    requires NoMatchIn(g, cells, n)
    ensures FirstMatch(g, cells, n) == None
  {
    var m := FirstMatch(g, cells, n);
    if m.Some? {
      assert false;
    }
  }

  /** `find_cell(center, n, radius, cw, dir)`: the ring of `radius` is
      searched; the first match wins; an exhausted ring moves on to the next
      radius until the radius reaches `max(rows, cols) - 1`. */
  function Search(g: Rows, rows: nat, cols: nat, center: Cell, n: int, radius: nat, cw: int, dirX: int, dirY: int): (res: SearchResult)
    requires Shaped(g, rows, cols)
    ensures res.Found? ==> Borders(res.block) == n
    ensures res.Found? ==> exists c {:trigger At(g, c)} :: InBounds(rows, cols, c) && At(g, c) == res.block
    decreases Max(rows, cols) - radius
  {
    var scan := RingWalk(rows, cols, center, radius, cw, dirX, dirY);
    match FirstMatch(g, scan.cells, n)
    case Some(k) => Found(At(g, scan.cells[k]))
    case None =>
      if scan.end == Fault then IndexFault
      else if scan.end == Unclosed then Cutoff
      else if radius >= Max(rows, cols) - 1 then NoMatch
      else Search(g, rows, cols, center, n, radius + 1, cw, dirX, dirY)
  }

  /** `Search` on its first ring, unfolded. */
  lemma SearchUnfold(g: Rows, rows: nat, cols: nat, center: Cell, n: int, radius: nat, cw: int, dirX: int, dirY: int)
    requires Shaped(g, rows, cols)
    ensures var scan := RingWalk(rows, cols, center, radius, cw, dirX, dirY);
            var m := FirstMatch(g, scan.cells, n);
            Search(g, rows, cols, center, n, radius, cw, dirX, dirY) ==
              if m.Some? then Found(At(g, scan.cells[m.value]))
              else if scan.end == Fault then IndexFault
              else if scan.end == Unclosed then Cutoff
              else if radius >= Max(rows, cols) - 1 then NoMatch
              else Search(g, rows, cols, center, n, radius + 1, cw, dirX, dirY)
  {
  }

  /** On a grid whose blocks know their own position, a found block sits on
      the grid at its own position. */
  lemma SearchFoundOnGrid(g: Rows, rows: nat, cols: nat, center: Cell, n: int, radius: nat, cw: int, dirX: int, dirY: int)
    requires WellFormed(g, rows, cols)
    ensures var r := Search(g, rows, cols, center, n, radius, cw, dirX, dirY);
            r.Found? ==> InBounds(rows, cols, r.block.pos) && At(g, r.block.pos) == r.block
  {
  }

  /** The ring of radius `r` was walked back to its start without meeting a
      block with `n` borders. */
  predicate RingExhausted(g: Rows, rows: nat, cols: nat, center: Cell, n: int, r: nat, cw: int, dirX: int, dirY: int)
    requires Shaped(g, rows, cols)
  {
    var scan := RingWalk(rows, cols, center, r, cw, dirX, dirY);
    scan.end == Closed && NoMatchIn(g, scan.cells, n)
  }

  /** `b` is the first block with `n` borders on the ring of radius `r`. */
  predicate FirstMatchOfRing(g: Rows, rows: nat, cols: nat, center: Cell, n: int, r: nat, cw: int, dirX: int, dirY: int, b: Block)
    requires Shaped(g, rows, cols)
  {
    var scan := RingWalk(rows, cols, center, r, cw, dirX, dirY);
    var m := FirstMatch(g, scan.cells, n);
    m.Some? && b == At(g, scan.cells[m.value])
  }

  /** A found block lies on the nearest ring that holds a match: every
      smaller ring from `radius` on was walked to its end without one, and
      the block is the first match of its own ring. */
  lemma {:induction false} FoundOnNearestRing(g: Rows, rows: nat, cols: nat, center: Cell, n: int, radius: nat, cw: int, dirX: int, dirY: int)
    returns (r: nat)
    requires Shaped(g, rows, cols)
    requires Search(g, rows, cols, center, n, radius, cw, dirX, dirY).Found?
    ensures radius <= r
    ensures forall r' :: radius <= r' < r ==> RingExhausted(g, rows, cols, center, n, r', cw, dirX, dirY)
    ensures FirstMatchOfRing(g, rows, cols, center, n, r, cw, dirX, dirY, Search(g, rows, cols, center, n, radius, cw, dirX, dirY).block)
    decreases Max(rows, cols) - radius
  {
    if FirstMatchOfRing(g, rows, cols, center, n, radius, cw, dirX, dirY, Search(g, rows, cols, center, n, radius, cw, dirX, dirY).block) {
      r := radius;
    } else {
      SearchPassesRing(g, rows, cols, center, n, radius, cw, dirX, dirY);
      r := FoundOnNearestRing(g, rows, cols, center, n, radius + 1, cw, dirX, dirY);
      ExhaustedFrom(g, rows, cols, center, n, radius, r, cw, dirX, dirY);
    }
  }

  /** Rings `radius + 1` to `r - 1` exhausted, and ring `radius` too: rings
      `radius` to `r - 1` are. */
  lemma ExhaustedFrom(g: Rows, rows: nat, cols: nat, center: Cell, n: int, radius: nat, r: nat, cw: int, dirX: int, dirY: int)
    requires Shaped(g, rows, cols)
    requires RingExhausted(g, rows, cols, center, n, radius, cw, dirX, dirY)
    requires forall r' :: radius + 1 <= r' < r ==> RingExhausted(g, rows, cols, center, n, r', cw, dirX, dirY)
    ensures forall r' :: radius <= r' < r ==> RingExhausted(g, rows, cols, center, n, r', cw, dirX, dirY)
  {
  }

  /** A search that finds nothing on its first ring goes on to the next. */
  lemma SearchPassesRing(g: Rows, rows: nat, cols: nat, center: Cell, n: int, radius: nat, cw: int, dirX: int, dirY: int)
    requires Shaped(g, rows, cols)
    requires Search(g, rows, cols, center, n, radius, cw, dirX, dirY).Found?
    requires !FirstMatchOfRing(g, rows, cols, center, n, radius, cw, dirX, dirY, Search(g, rows, cols, center, n, radius, cw, dirX, dirY).block)
    ensures RingExhausted(g, rows, cols, center, n, radius, cw, dirX, dirY)
    ensures Max(rows, cols) - (radius + 1) < Max(rows, cols) - radius
    ensures Search(g, rows, cols, center, n, radius + 1, cw, dirX, dirY) == Search(g, rows, cols, center, n, radius, cw, dirX, dirY)
  {
  }

  /** -1 comes back only after every ring up to radius `max(rows, cols) - 1`
      (or the starting ring, if that is already larger) was walked to its end
      without a match. */
  lemma {:induction false} NoMatchMeansAllRingsSearched(g: Rows, rows: nat, cols: nat, center: Cell, n: int, radius: nat, cw: int, dirX: int, dirY: int)
    requires Shaped(g, rows, cols)
    requires Search(g, rows, cols, center, n, radius, cw, dirX, dirY) == NoMatch
    ensures forall r :: radius <= r < Max(radius + 1, Max(rows, cols)) ==> RingExhausted(g, rows, cols, center, n, r, cw, dirX, dirY)
    decreases Max(rows, cols) - radius
  {
    NoMatchExhaustsRing(g, rows, cols, center, n, radius, cw, dirX, dirY);
    if radius < Max(rows, cols) - 1 {
      NoMatchMeansAllRingsSearched(g, rows, cols, center, n, radius + 1, cw, dirX, dirY);
    }
    ExhaustedUpTo(g, rows, cols, center, n, radius, cw, dirX, dirY);
  }

  /** Ring `radius` exhausted, and below the last radius every ring after it
      up to the last: every ring from `radius` to the last is exhausted. */
  lemma ExhaustedUpTo(g: Rows, rows: nat, cols: nat, center: Cell, n: int, radius: nat, cw: int, dirX: int, dirY: int)
    requires Shaped(g, rows, cols)
    requires RingExhausted(g, rows, cols, center, n, radius, cw, dirX, dirY)
    requires radius < Max(rows, cols) - 1 ==>
               forall r :: radius + 1 <= r < Max(radius + 2, Max(rows, cols)) ==> RingExhausted(g, rows, cols, center, n, r, cw, dirX, dirY)
    ensures forall r :: radius <= r < Max(radius + 1, Max(rows, cols)) ==> RingExhausted(g, rows, cols, center, n, r, cw, dirX, dirY)
  {
    if radius < Max(rows, cols) - 1 {
      assert Max(radius + 2, Max(rows, cols)) == Max(radius + 1, Max(rows, cols));
    }
    ExhaustedFrom(g, rows, cols, center, n, radius, Max(radius + 1, Max(rows, cols)), cw, dirX, dirY);
  }

  /** A search that comes back with -1 walked its first ring to the end
      and, below the last radius, comes back with -1 from the next. */
  lemma NoMatchExhaustsRing(g: Rows, rows: nat, cols: nat, center: Cell, n: int, radius: nat, cw: int, dirX: int, dirY: int)
    requires Shaped(g, rows, cols)
    requires Search(g, rows, cols, center, n, radius, cw, dirX, dirY) == NoMatch
    ensures RingExhausted(g, rows, cols, center, n, radius, cw, dirX, dirY)
    ensures radius < Max(rows, cols) - 1 ==> Search(g, rows, cols, center, n, radius + 1, cw, dirX, dirY) == NoMatch
  {
    SearchUnfold(g, rows, cols, center, n, radius, cw, dirX, dirY);
  }

  /** The ring of radius 0 is the seed cell alone. */
  lemma RadiusZeroRing(rows: nat, cols: nat, center: Cell, cw: int, dirX: int, dirY: int)
    requires InBounds(rows, cols, center)
    ensures RingWalk(rows, cols, center, 0, cw, dirX, dirY) == RingScan([center], Closed)
  {
    var sq := RingOf(center, 0);
    var w := StartWalker(center, 0, cw, dirX, dirY);
    assert w.pos == center;
    assert Clamp(w, sq, rows, cols, cw) == w;
    assert WalkFrom(w, center, false, 1, sq, rows, cols, cw) == RingScan([], Closed);
  }
}
