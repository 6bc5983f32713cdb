/** The arithmetic of the maze's viewport ("frame"): the window shows
    `frame_size` tiles per axis of the grid, with its top-left corner at
    `frame_pos` (row first). Positions are exact reals here: they move in
    halves (scrolling by 0.5, centring by `size / 2`) and the long axis of
    the frame size is a fraction of the maze's aspect ratio. */
module Viewport {
  import opened PyNum

  const MIN_FRAME_SIZE := 3
  const MAX_FRAME_SIZE := 50
  const SCROLL_VAL := 0.5
  const MIN_LINE_WIDTH := 1
  const MAX_LINE_WIDTH := 15

  /** The grid's extent per axis, `[rows, cols]`. */
  function Dims(rows: nat, cols: nat): (d: seq<real>)
    ensures |d| == 2 && IsWhole(d[0]) && IsWhole(d[1])
  {
    [rows as real, cols as real]
  }

  /** `restrict_zoom`: the number of tiles on the short side of the frame is
      raised to the minimum frame size, else lowered to the short side of the
      grid, else lowered to the maximum frame size. */
  function RestrictedZoom(tiles: int, rows: nat, cols: nat): (r: int)
    ensures MIN_FRAME_SIZE <= Min(rows, cols) ==> MIN_FRAME_SIZE <= r <= Min(rows, cols)
    ensures MIN_FRAME_SIZE <= tiles <= Min(rows, cols) && tiles <= MAX_FRAME_SIZE ==> r == tiles
    ensures tiles < MIN_FRAME_SIZE ==> r == MIN_FRAME_SIZE
  {
    if tiles < MIN_FRAME_SIZE then MIN_FRAME_SIZE
    else if tiles > Min(rows, cols) then Min(rows, cols)
    else if tiles > MAX_FRAME_SIZE then MAX_FRAME_SIZE
    else tiles
  }

  /** Stretching a non-negative length by the ratio of a longer side to a
      shorter one does not shrink it. */
  lemma StretchAtLeast(t: real, long: real, short: real)
    requires 0.0 < short <= long
    ensures 0.0 <= t ==> t <= t * (long / short)
  {
    var r := long / short;
    assert r * short == long;
    assert 1.0 <= r;
    if 0.0 <= t {
      assert t * r - t == t * (r - 1.0);
    }
  }

  /** The long axis of the frame: `tiles` stretched by the ratio of the
      grid's long side to its short side, capped at the long side. */
  function Stretched(tiles: real, long: real, short: real): (r: real)
    requires 0.0 < short <= long
    ensures 0.0 <= tiles <= short ==> tiles <= r <= long
  {
    StretchAtLeast(tiles, long, short);
    MinReal(tiles * (long / short), long)
  }

  /** The frame size `update_tilesize` derives from the zoom: the short axis
      of the grid shows `tiles` tiles, the long axis `tiles` times the
      aspect ratio, capped at the grid's length on that axis. */
  function FrameSizeFor(rows: nat, cols: nat, tiles: int): (fs: seq<real>)
    requires 0 < rows && 0 < cols
    ensures |fs| == 2
    ensures IsWhole(fs[0]) || IsWhole(fs[1])
    ensures 0 <= tiles <= Min(rows, cols) ==>
              tiles as real <= fs[0] <= rows as real && tiles as real <= fs[1] <= cols as real
  {
    assert IsWhole(tiles as real);
    if rows <= cols then
      [tiles as real, Stretched(tiles as real, cols as real, rows as real)]
    else
      [Stretched(tiles as real, rows as real, cols as real), tiles as real]
  }

  /** The frame size fits in the grid on both axes. */
  predicate Fits(size: seq<real>, dims: seq<real>)
    requires |size| == 2 && |dims| == 2
  {
    0.0 <= size[0] <= dims[0] && 0.0 <= size[1] <= dims[1]
  }

  /** The frame lies inside the grid on both axes. */
  predicate Inside(pos: seq<real>, size: seq<real>, dims: seq<real>)
    requires |pos| == 2 && |size| == 2 && |dims| == 2
  {
    0.0 <= pos[0] && pos[0] + size[0] <= dims[0] &&
    0.0 <= pos[1] && pos[1] + size[1] <= dims[1]
  }

  /** One axis of `update_frame_pos`: a negative position goes to 0, else a
      frame running past the far edge is pulled back to end on it. */
  function ClampAxis(p: real, s: real, d: real): (r: real)
    ensures s <= d ==> 0.0 <= r && r + s <= d
    ensures 0.0 <= p && p + s <= d ==> r == p
  {
    if p < 0.0 then 0.0
    else if p + s > d then d - s
    else p
  }

  /** `update_frame_pos` on both axes. */
  function ClampFrame(pos: seq<real>, size: seq<real>, dims: seq<real>): (r: seq<real>)
    requires |pos| == 2 && |size| == 2 && |dims| == 2
    ensures |r| == 2
  {
    [ClampAxis(pos[0], size[0], dims[0]), ClampAxis(pos[1], size[1], dims[1])]
  }

  /** Clamping puts a frame that fits inside the grid, leaves a frame that is
      already inside where it is, and is therefore idempotent. */
  lemma ClampFrameInside(pos: seq<real>, size: seq<real>, dims: seq<real>)
    requires |pos| == 2 && |size| == 2 && |dims| == 2
    ensures Fits(size, dims) ==> Inside(ClampFrame(pos, size, dims), size, dims)
    ensures Inside(pos, size, dims) ==> ClampFrame(pos, size, dims) == pos
    ensures Fits(size, dims) ==> ClampFrame(ClampFrame(pos, size, dims), size, dims) == ClampFrame(pos, size, dims)
  {
    if Fits(size, dims) {
      var q := ClampFrame(pos, size, dims);
      assert Inside(q, size, dims);
      assert ClampFrame(q, size, dims) == q;
    }
  }

  /** The test of `align_frame`: both trailing edges of the frame lie on
      whole tiles (`x - int(x) == 0`). */
  predicate EdgesWhole(pos: seq<real>, size: seq<real>)
    requires |pos| == 2 && |size| == 2
  {
    pos[0] + size[0] - Trunc(pos[0] + size[0]) as real == 0.0 &&
    pos[1] + size[1] - Trunc(pos[1] + size[1]) as real == 0.0
  }

  /** `align_frame`: a frame whose trailing edges are both whole is left
      alone; otherwise both coordinates are rounded half to even and the
      frame is clamped back into the grid. */
  function AlignFrame(pos: seq<real>, size: seq<real>, dims: seq<real>): (r: seq<real>)
    requires |pos| == 2 && |size| == 2 && |dims| == 2
    ensures |r| == 2
  {
    if EdgesWhole(pos, size) then pos
    else ClampFrame([RoundHalfEven(pos[0]) as real, RoundHalfEven(pos[1]) as real], size, dims)
  }

  /** Aligning a frame that fits leaves it inside the grid. */
  lemma AlignFrameInside(pos: seq<real>, size: seq<real>, dims: seq<real>)
    requires |pos| == 2 && |size| == 2 && |dims| == 2
    requires Fits(size, dims) && Inside(pos, size, dims)
    ensures Inside(AlignFrame(pos, size, dims), size, dims)
  {
    if !EdgesWhole(pos, size) {
      ClampFrameInside([RoundHalfEven(pos[0]) as real, RoundHalfEven(pos[1]) as real], size, dims);
    }
  }

  /** After a clamp of whole coordinates, an axis with a whole size has a
      whole position. */
  lemma ClampWholeAxis(p: real, s: real, d: real)
    requires IsWhole(p) && IsWhole(s) && IsWhole(d)
    ensures IsWhole(ClampAxis(p, s, d))
  {
    if 0.0 <= p && p + s > d {
      assert d - s == (d.Floor - s.Floor) as real;
    }
  }

  /** Aligning twice is aligning once, provided one axis of the frame size is
      a whole number of tiles (the short axis always is: it is the zoom's
      tile count). */
  lemma {:induction false} AlignFrameIdempotent(pos: seq<real>, size: seq<real>, dims: seq<real>)
    requires |pos| == 2 && |size| == 2 && |dims| == 2
    requires Fits(size, dims) && IsWhole(dims[0]) && IsWhole(dims[1])
    requires IsWhole(size[0]) || IsWhole(size[1])
    ensures AlignFrame(AlignFrame(pos, size, dims), size, dims) == AlignFrame(pos, size, dims)
  {
    if !EdgesWhole(pos, size) {
      var rounded := [RoundHalfEven(pos[0]) as real, RoundHalfEven(pos[1]) as real];
      var q := ClampFrame(rounded, size, dims);
      ClampFrameInside(rounded, size, dims);
      if !EdgesWhole(q, size) {
        // On each axis the clamp either leaves a whole position or pulls the
        // frame back until its trailing edge meets the grid's whole edge.
        forall i | 0 <= i < 2 ensures IsWhole(q[i]) || IsWhole(q[i] + size[i]) {
          assert IsWhole(rounded[i]);
          if IsWhole(size[i]) {
            ClampWholeAxis(rounded[i], size[i], dims[i]);
          }
        }
        // The axis whose size is whole has a whole trailing edge, so the
        // other axis cannot have one too: its position is whole.
        var j := if IsWhole(size[0]) then 0 else 1;
        ClampWholeAxis(rounded[j], size[j], dims[j]);
        WholeSum(q[j], size[j]);
        TruncExactIffWhole(q[0] + size[0]);
        TruncExactIffWhole(q[1] + size[1]);
        RoundWhole(q[0].Floor);
        RoundWhole(q[1].Floor);
        assert [RoundHalfEven(q[0]) as real, RoundHalfEven(q[1]) as real] == q;
      }
    }
  }

  /** The sum of two whole numbers is whole. */
  lemma WholeSum(a: real, b: real)
    requires IsWhole(a) && IsWhole(b)
    ensures IsWhole(a + b)
  {
    assert a + b == (a.Floor + b.Floor) as real;
  }

  /** The frame `set_frame_quadrant` picks: quadrants outside 1..4 become 3;
      quadrants 1 and 2 anchor the top edge, 3 and 4 the bottom; 2 and 3
      anchor the left edge, 1 and 4 the right. */
  function QuadrantFrame(q: int, size: seq<real>, dims: seq<real>): (r: seq<real>)
    requires |size| == 2 && |dims| == 2
    ensures |r| == 2
  {
    var q' := if q < 1 || q > 4 then 3 else q;
    [if q' == 1 || q' == 2 then 0.0 else dims[0] - size[0],
     if q' == 2 || q' == 3 then 0.0 else dims[1] - size[1]]
  }

  /** A quadrant frame is inside the grid and sits in a corner: on each axis
      it touches the near or the far edge, the near one exactly for the
      quadrants that anchor it there. */
  lemma QuadrantFrameCorner(q: int, size: seq<real>, dims: seq<real>)
    requires |size| == 2 && |dims| == 2 && Fits(size, dims)
    ensures var r := QuadrantFrame(q, size, dims);
            Inside(r, size, dims) &&
            (r[0] == 0.0 || r[0] + size[0] == dims[0]) &&
            (r[1] == 0.0 || r[1] + size[1] == dims[1])
    ensures 1 <= q <= 4 ==>
              (QuadrantFrame(q, size, dims)[0] == 0.0 <==> q <= 2 || size[0] == dims[0]) &&
              (QuadrantFrame(q, size, dims)[1] == 0.0 <==> q == 2 || q == 3 || size[1] == dims[1])
    ensures !(1 <= q <= 4) ==> QuadrantFrame(q, size, dims) == QuadrantFrame(3, size, dims)
  {
  }

  /** `set_frame_center` on one axis before clamping: the cell's middle
      `c + 0.5` becomes the frame's middle (the cell may be fractional, as
      when the frame is centred on the middle of the grid). */
  function CenterOn(c: real, s: real): (p: real)
    ensures p + s / 2.0 == c + 0.5
  {
    c - s / 2.0 + 0.5
  }

  /** Centring on a cell of the grid and clamping keeps that cell in view,
      whenever the frame is at least one tile and at most the grid long. */
  lemma CenteredCellVisible(c: int, s: real, d: real)
    requires 1.0 <= s <= d && 0 <= c && c as real + 1.0 <= d
    ensures var p := ClampAxis(CenterOn(c as real, s), s, d);
            p <= c as real && c as real + 1.0 <= p + s
  {
  }

  /** `scroll` moves each coordinate by half a tile in the pressed
      direction, then clamps. */
  function ScrollFrame(pos: seq<real>, dir: seq<int>, size: seq<real>, dims: seq<real>): (r: seq<real>)
    requires |pos| == 2 && |dir| == 2 && |size| == 2 && |dims| == 2
    ensures |r| == 2
  {
    ClampFrame([pos[0] + dir[0] as real * SCROLL_VAL, pos[1] + dir[1] as real * SCROLL_VAL], size, dims)
  }

  /** A single scroll step from a frame inside the grid moves each coordinate
      by at most half a tile and keeps the frame inside. */
  lemma ScrollFrameBounded(pos: seq<real>, dir: seq<int>, size: seq<real>, dims: seq<real>)
    requires |pos| == 2 && |dir| == 2 && |size| == 2 && |dims| == 2
    requires Fits(size, dims) && Inside(pos, size, dims)
    requires -1 <= dir[0] <= 1 && -1 <= dir[1] <= 1
    ensures var r := ScrollFrame(pos, dir, size, dims);
            Inside(r, size, dims) &&
            -0.5 <= r[0] - pos[0] <= 0.5 && -0.5 <= r[1] - pos[1] <= 0.5
  {
    ClampFrameInside([pos[0] + dir[0] as real * SCROLL_VAL, pos[1] + dir[1] as real * SCROLL_VAL], size, dims);
  }

  /** `get_line_size`: the line width for a frame showing `tiles` tiles on
      its long side, from 15 for at most 3 tiles down to 1 beyond 15. */
  function LineSizeFor(tiles: real): (w: int)
    ensures MIN_LINE_WIDTH <= w <= MAX_LINE_WIDTH
    ensures tiles <= 3.0 <==> w == MAX_LINE_WIDTH
    ensures tiles > 15.0 <==> w == MIN_LINE_WIDTH
  {
    if tiles <= 3.0 then 15
    else if tiles <= 5.0 then 9
    else if tiles <= 7.0 then 5
    else if tiles <= 10.0 then 3
    else if tiles <= 15.0 then 2
    else 1
  }

  /** Showing more tiles never makes the lines thicker. */
  lemma LineSizeAntitone(a: real, b: real)
    requires a <= b
    ensures LineSizeFor(b) <= LineSizeFor(a)
  {
  }

  /** A line width set by hand (`expand_lines`) is kept between the minimum
      and the maximum. */
  function ClampLineWidth(w: int): (r: int)
  {
    ClampTo(w, MIN_LINE_WIDTH, MAX_LINE_WIDTH)
  }
}
