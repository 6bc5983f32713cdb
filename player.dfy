/** The `Player` class of maze_generator.py: a marker on one cell of the
    maze that steps through open walls, with a hold-to-repeat movement
    counter, a speed setting, a size control and a one-shot "escaped" flag.

    The movement rules are value-level functions (`Advance`, `MoveTarget`)
    whose lemmas say the player only ever passes open walls, never leaves
    the grid and can always retrace a step; the class's methods change the
    fields as the source does and are specified by those functions. */
module PlayerModel {
  import opened PyNum
  import opened Blocks
  import opened Grid
  import opened HoldRepeat
  import opened Randomness

  const MIN_SPEED := 1
  const MAX_SPEED := 30
  const DEFAULT_SPEED_1 := 6
  const DEFAULT_SPEED_2 := 18
  const MIN_MOVE_DELAY := 0.25
  const MIN_SIZE := 5
  const MAX_SIZE := 100
  const DEFAULT_SIZE := 70
  const GROWTH_SPEED := 15
  const GROWTH_UNIT := 5
  const DIR_PRIORITY := 1

  /** Victory symbols drawn by `choose_victory_symbol`. */
  const STAR := 0
  const CROWN := 1
  const HIDDEN_CROWN := 2

  // ---------------------------------------------------------------------------
  // Movement on values

  /** A direction as the main loop builds it from the arrow keys: `[dy, dx]`
      with each component -1, 0 or 1. */
  predicate UnitDir(dir: seq<int>) {
    |dir| == 2 && -1 <= dir[0] <= 1 && -1 <= dir[1] <= 1
  }

  /** The cell one step from `c` along the chosen axis of `dir`. */
  function Toward(c: Cell, dir: seq<int>, vertical: bool): Cell
    requires |dir| >= 2
  {
    if vertical then Cell(c.row + dir[0], c.col) else Cell(c.row, c.col + dir[1])
  }

  /** `advance_vertically(dir, data)` (`vertical`) and
      `advance_horizontally(dir, data)`: the cell the player moves to, or
      None when the axis component is 0 or the wall on that side stands. */
  function Advance(g: Rows, c: Cell, dir: seq<int>, vertical: bool): (r: Option<Cell>)
    requires Has(g, c) && |dir| >= 2
    ensures r.Some? ==> r.value == Toward(c, dir, vertical)
  {
    var b := At(g, c);
    if vertical then
      if dir[0] < 0 && b.top == 0 then Some(Toward(c, dir, true))
      else if dir[0] > 0 && b.bottom == 0 then Some(Toward(c, dir, true))
      else None
    else
      if dir[1] < 0 && b.left == 0 then Some(Toward(c, dir, false))
      else if dir[1] > 0 && b.right == 0 then Some(Toward(c, dir, false))
      else None
  }

  /** `move(dir, data)` once the counter allows it: the priority axis first
      (`dir_priority` 1 = vertical, 0 = horizontal), the other axis if that
      fails. */
  function MoveTarget(g: Rows, c: Cell, dir: seq<int>, priority: int): (r: Option<Cell>)
    requires Has(g, c) && |dir| >= 2
  {
    var first := Advance(g, c, dir, priority != 0);
    if first.Some? then first else Advance(g, c, dir, priority == 0)
  }

  /** For a unit direction, the player advances along an axis exactly when
      that component is non-zero and the wall facing that way is open. */
  lemma AdvanceThroughOpenWall(g: Rows, c: Cell, dir: seq<int>, vertical: bool)
    requires Has(g, c) && UnitDir(dir)
    ensures var d := if vertical then dir[0] else dir[1];
            Advance(g, c, dir, vertical).Some? <==>
              d != 0 && Wall(g, c, Toward(c, dir, vertical)) == 0
    ensures Advance(g, c, dir, vertical).Some? ==> Adjacent(c, Toward(c, dir, vertical))
  {
  }

  /** The outer walls of a valid grid keep the player on it. */
  lemma AdvanceStaysInBounds(g: Rows, rows: int, cols: int, c: Cell, dir: seq<int>, vertical: bool)
    requires GridOk(g, rows, cols) && InBounds(rows, cols, c) && UnitDir(dir)
    ensures Advance(g, c, dir, vertical).Some? ==> InBounds(rows, cols, Advance(g, c, dir, vertical).value)
  {
    if Advance(g, c, dir, vertical).Some? {
      var b := At(g, c);
      assert b == g[c.row][c.col];
      if vertical {
        assert g[0][c.col].top == 1 && g[rows - 1][c.col].bottom == 1;
      } else {
        assert g[c.row][0].left == 1 && g[c.row][cols - 1].right == 1;
      }
    }
  }

  /** The opposite direction. */
  function Reverse(dir: seq<int>): (r: seq<int>)
    requires |dir| == 2
    ensures UnitDir(dir) ==> UnitDir(r)
  {
    [-dir[0], -dir[1]]
  }

  /** Walls read the same from both sides, so every step can be retraced by
      pressing the opposite direction. */
  lemma AdvanceReversible(g: Rows, rows: int, cols: int, c: Cell, dir: seq<int>, vertical: bool)
    requires GridOk(g, rows, cols) && InBounds(rows, cols, c) && UnitDir(dir)
    requires Advance(g, c, dir, vertical).Some?
    ensures var d := Advance(g, c, dir, vertical).value;
            InBounds(rows, cols, d) && Advance(g, d, Reverse(dir), vertical) == Some(c)
  {
    var d := Advance(g, c, dir, vertical).value;
    AdvanceStaysInBounds(g, rows, cols, c, dir, vertical);
    AdvanceThroughOpenWall(g, c, dir, vertical);
    WallSymmetric(g, rows, cols, c, d);
    AdvanceThroughOpenWall(g, d, Reverse(dir), vertical);
    assert Toward(d, Reverse(dir), vertical) == c;
  }

  /** One `move` goes to a neighbouring cell of the grid through an open
      wall, or nowhere. */
  lemma MoveIsOneOpenStep(g: Rows, rows: int, cols: int, c: Cell, dir: seq<int>, priority: int)
    requires GridOk(g, rows, cols) && InBounds(rows, cols, c) && UnitDir(dir)
    ensures var r := MoveTarget(g, c, dir, priority);
            r.Some? ==> InBounds(rows, cols, r.value) && Adjacent(c, r.value) && Wall(g, c, r.value) == 0
  {
    AdvanceThroughOpenWall(g, c, dir, priority != 0);
    AdvanceThroughOpenWall(g, c, dir, priority == 0);
    AdvanceStaysInBounds(g, rows, cols, c, dir, priority != 0);
    AdvanceStaysInBounds(g, rows, cols, c, dir, priority == 0);
  }

  /** The cells the player occupies while the keys `dirs` are pressed on
      successive moves, starting from `c`. */
  function Trail(g: Rows, rows: int, cols: int, c: Cell, dirs: seq<seq<int>>, priority: int): (p: seq<Cell>)
    requires GridOk(g, rows, cols) && InBounds(rows, cols, c)
    requires forall k :: 0 <= k < |dirs| ==> UnitDir(dirs[k])
    ensures |p| >= 1 && p[0] == c
    decreases |dirs|
  {
    if dirs == [] then [c]
    else
      assert UnitDir(dirs[0]);
      var r := MoveTarget(g, c, dirs[0], priority);
      MoveIsOneOpenStep(g, rows, cols, c, dirs[0], priority);
      [c] + Trail(g, rows, cols, if r.Some? then r.value else c, dirs[1..], priority)
  }

  /** A sequence of cells on the grid in which every change of cell is a
      step through an open wall. */
  ghost predicate WithinMaze(g: Rows, rows: int, cols: int, p: seq<Cell>)
    requires Shaped(g, rows, cols)
  {
    (forall k :: 0 <= k < |p| ==> InBounds(rows, cols, p[k])) &&
    (forall k :: 0 <= k < |p| - 1 && p[k] != p[k + 1] ==>
       Adjacent(p[k], p[k + 1]) && Wall(g, p[k], p[k + 1]) == 0)
  }

  /** However the keys are pressed, the player stays on the grid and only
      ever crosses open walls: apart from the moves that fail, its trail is
      a walk through the maze. */
  lemma {:induction false} TrailStaysInMaze(g: Rows, rows: int, cols: int, c: Cell, dirs: seq<seq<int>>, priority: int)
    requires GridOk(g, rows, cols) && InBounds(rows, cols, c)
    requires forall k :: 0 <= k < |dirs| ==> UnitDir(dirs[k])
    ensures WithinMaze(g, rows, cols, Trail(g, rows, cols, c, dirs, priority))
    decreases |dirs|
  {
    if dirs != [] {
      assert UnitDir(dirs[0]);
      var r := MoveTarget(g, c, dirs[0], priority);
      MoveIsOneOpenStep(g, rows, cols, c, dirs[0], priority);
      var next := if r.Some? then r.value else c;
      TrailStaysInMaze(g, rows, cols, next, dirs[1..], priority);
      var q := Trail(g, rows, cols, next, dirs[1..], priority);
      var p := [c] + q;
      assert Trail(g, rows, cols, c, dirs, priority) == p;
      forall k | 0 <= k < |p|
        ensures InBounds(rows, cols, p[k])
      {
        if k > 0 {
          assert p[k] == q[k - 1];
        }
      }
      forall k | 0 <= k < |p| - 1 && p[k] != p[k + 1]
        ensures Adjacent(p[k], p[k + 1]) && Wall(g, p[k], p[k + 1]) == 0
      {
        if k > 0 {
          assert p[k] == q[k - 1] && p[k + 1] == q[k];
        } else {
          assert p[1] == q[0] == next;
        }
      }
    }
  }

  // ---------------------------------------------------------------------------
  // Speed, size and the victory symbol

  /** `move_interval` for a speed in tiles per second: frames per tile,
      rounded half to even. */
  function MoveInterval(fps: int, speed: int): int
    requires speed >= 1
  {
    RoundHalfEven(fps as real / speed as real)
  }

  /** `move_delay`: a quarter of a second in whole frames, but never less
      than one interval. */
  function MoveDelay(fps: int, speed: int): (d: int)
    requires speed >= 1
    ensures d >= MoveInterval(fps, speed) && d >= Trunc(MIN_MOVE_DELAY * fps as real)
    ensures d == MoveInterval(fps, speed) || d == Trunc(MIN_MOVE_DELAY * fps as real)
  {
    Max(Trunc(MIN_MOVE_DELAY * fps as real), MoveInterval(fps, speed))
  }

  /** A faster speed never makes the player wait longer between steps. */
  lemma FasterMovesSooner(fps: nat, s1: int, s2: int)
    requires 1 <= s1 <= s2
    ensures MoveInterval(fps, s2) <= MoveInterval(fps, s1)
    ensures MoveDelay(fps, s2) <= MoveDelay(fps, s1)
  {
    var f, x1, x2 := fps as real, s1 as real, s2 as real;
    var a, b := f / x1, f / x2;
    assert a * x1 == f && b * x2 == f;
    if b > a {
      assert false;
    }
    RoundMonotone(b, a);
  }

  /** `choose_victory_symbol` given the drawn `chance` (1..100): a star for
      up to 40, a crown for up to 80, a hidden crown above. */
  function VictorySymbolFor(chance: int): (s: int)
    ensures s in {STAR, CROWN, HIDDEN_CROWN}
    ensures s == STAR <==> chance <= 40
    ensures s == HIDDEN_CROWN <==> chance > 80
  {
    if chance <= 40 then STAR
    else if chance <= 80 then CROWN
    else HIDDEN_CROWN
  }

  /** How many of the chances `1..k` give the symbol `s`. */
  function SymbolCount(k: nat, s: int): nat {
    if k == 0 then 0
    else SymbolCount(k - 1, s) + (if VictorySymbolFor(k) == s then 1 else 0)
  }

  /** Chances up to `k` that give the symbol `s`, counted in closed form. */
  lemma {:induction false} SymbolCountIs(k: nat, s: int)
    ensures SymbolCount(k, s) ==
      if s == STAR then Min(k, 40)
      else if s == CROWN then (if k <= 40 then 0 else Min(k, 80) - 40)
      else if s == HIDDEN_CROWN then (if k <= 80 then 0 else k - 80)
      else 0
  {
    if k > 0 {
      SymbolCountIs(k - 1, s);
    }
  }

  /** Of the 100 equally likely draws, 40 give a star, 40 a crown and 20 a
      hidden crown. */
  lemma SymbolOdds()
    ensures SymbolCount(100, STAR) == 40
    ensures SymbolCount(100, CROWN) == 40
    ensures SymbolCount(100, HIDDEN_CROWN) == 20
  {
    SymbolCountIs(100, STAR);
    SymbolCountIs(100, CROWN);
    SymbolCountIs(100, HIDDEN_CROWN);
  }

  // ---------------------------------------------------------------------------
  // The player

  class Player {
    var fps: int
    /** The occupied cell, `[row, col]`. */
    var cell: Cell
    var escaped: bool
    var victorySymbol: int
    /** Percent of a tile. */
    var size: int
    var growInterval: int
    var growDelay: real
    /** `grow_counter` and `cont_grow`. */
    var growRepeat: Repeat
    /** 1: vertical moves take precedence, 0: horizontal ones. */
    var dirPriority: int
    var manualOverride: bool
    /** The two speed settings (`ms_1`, `ms_2`) and which one is active. */
    var speed1: int
    var speed2: int
    var altSpeed: bool
    var speed: int
    var moveInterval: int
    var moveDelay: int
    var contMovement: bool
    var moveCounter: int

    /** The bounds `set_speed` and `update_size` keep. */
    ghost predicate Valid()
      reads this`speed, this`moveInterval, this`moveDelay, this`size
    {
      MIN_SPEED <= speed <= MAX_SPEED && moveInterval <= moveDelay && MIN_SIZE <= size <= MAX_SIZE
    }

    /** `Player(color, fps)`; colours and the highlight are not modelled. */
    constructor (fps: int)
      ensures Valid()
      ensures cell == Cell(0, 0) && !escaped && victorySymbol == STAR
      ensures size == DEFAULT_SIZE && growRepeat == Released
      ensures growInterval == RoundHalfEven(fps as real / GROWTH_SPEED as real) && growDelay == 0.5 * fps as real
      ensures dirPriority == DIR_PRIORITY && manualOverride
      ensures speed1 == DEFAULT_SPEED_1 && speed2 == DEFAULT_SPEED_2 && !altSpeed
      ensures this.fps == fps && speed == DEFAULT_SPEED_1
      ensures moveInterval == MoveInterval(fps, DEFAULT_SPEED_1) && moveDelay == MoveDelay(fps, DEFAULT_SPEED_1)
      ensures !contMovement && moveCounter == 0
    {
      this.fps := fps;
      cell := Cell(0, 0);
      escaped := false;
      victorySymbol := STAR;
      size := DEFAULT_SIZE;
      growInterval := RoundHalfEven(fps as real / GROWTH_SPEED as real);
      growDelay := 0.5 * fps as real;
      growRepeat := Released;
      dirPriority := DIR_PRIORITY;
      manualOverride := true;
      speed1 := DEFAULT_SPEED_1;
      speed2 := DEFAULT_SPEED_2;
      altSpeed := false;
      new;
      SetSpeed(fps, speed1);
      contMovement := false;
      moveCounter := 0;
    }

    /** `set_speed(fps, speed)`: the speed clamped to 1..30, the interval
        and the initial delay recomputed from it. */
    method SetSpeed(fps: int, speed: int)
      requires MIN_SIZE <= size <= MAX_SIZE
      modifies this`fps, this`speed, this`moveInterval, this`moveDelay
      ensures Valid()
      ensures this.fps == fps && this.speed == ClampTo(speed, MIN_SPEED, MAX_SPEED)
      ensures moveInterval == MoveInterval(fps, this.speed) && moveDelay == MoveDelay(fps, this.speed)
    {
      var s := speed;
      if s > MAX_SPEED {
        s := MAX_SPEED;
      } else if s < MIN_SPEED {
        s := MIN_SPEED;
      }
      this.fps := fps;
      this.speed := s;
      moveInterval := RoundHalfEven(fps as real / s as real);
      moveDelay := Trunc(MIN_MOVE_DELAY * fps as real);
      if moveDelay < moveInterval {
        moveDelay := moveInterval;
      }
    }

    /** `update_speed`: `set_speed` with the active speed setting. */
    method UpdateSpeed()
      requires MIN_SIZE <= size <= MAX_SIZE
      modifies this`fps, this`speed, this`moveInterval, this`moveDelay
      ensures Valid() && fps == old(fps)
      ensures speed == ClampTo(if altSpeed then speed2 else speed1, MIN_SPEED, MAX_SPEED)
      ensures moveInterval == MoveInterval(fps, speed) && moveDelay == MoveDelay(fps, speed)
    {
      SetSpeed(fps, if altSpeed then speed2 else speed1);
    }

    /** `set_pos(new_cell)`. */
    method SetPos(newCell: Cell)
      modifies this`cell
      ensures cell == newCell
    {
      cell := newCell;
    }

    /** `grow(direction)`: a hold-to-repeat control that, when it acts,
        changes the size by `direction` growth units and clamps it. */
    method Grow(direction: int)
      requires Valid()
      modifies this`growRepeat, this`size
      ensures Valid()
      ensures var t := Press(old(growRepeat), direction != 0, growDelay, growInterval as real);
              growRepeat == t.next &&
              size == if t.fired then ClampTo(old(size) + direction * GROWTH_UNIT, MIN_SIZE, MAX_SIZE) else old(size)
    {
      if direction == 0 {
        growRepeat := Released;
      } else if growRepeat.counter <= 0.0 {
        if growRepeat.cont {
          growRepeat := growRepeat.(counter := growInterval as real);
        } else {
          growRepeat := Repeat(growDelay, true);
        }
        size := size + direction * GROWTH_UNIT;
        UpdateSize(None);
      } else {
        growRepeat := growRepeat.(counter := growRepeat.counter - 1.0);
      }
    }

    /** `update_size(new_size)`: the new size, if given, clamped to 5..100. */
    method UpdateSize(newSize: Option<int>)
      requires MIN_SPEED <= speed <= MAX_SPEED && moveInterval <= moveDelay
      modifies this`size
      ensures Valid()
      ensures size == ClampTo(if newSize.Some? then newSize.value else old(size), MIN_SIZE, MAX_SIZE)
    {
      if newSize.Some? {
        size := newSize.value;
      }
      if size > MAX_SIZE {
        size := MAX_SIZE;
      } else if size < MIN_SIZE {
        size := MIN_SIZE;
      }
    }

    /** `check_escaped(exit_cell)`: the first arrival on the exit sets the
        flag and draws the victory symbol; later calls change nothing. */
    method CheckEscaped(exit: Cell, rng: RandomSource)
      modifies this`escaped, this`victorySymbol, rng`draws
      ensures escaped <==> old(escaped) || cell == exit
      ensures old(escaped) || cell != exit ==>
                victorySymbol == old(victorySymbol) && rng.draws == old(rng.draws)
      ensures !old(escaped) && cell == exit ==>
                victorySymbol == VictorySymbolFor(1 + rng.roll(old(rng.draws)) % 100) &&
                rng.draws == old(rng.draws) + 1
    {
      if cell.row == exit.row && cell.col == exit.col {
        if !escaped {
          escaped := true;
          ChooseVictorySymbol(rng);
        }
      }
    }

    /** `choose_victory_symbol`: `random.randint(1, 100)` picks the symbol. */
    method ChooseVictorySymbol(rng: RandomSource)
      modifies this`victorySymbol, rng`draws
      ensures victorySymbol == VictorySymbolFor(1 + rng.roll(old(rng.draws)) % 100)
      ensures victorySymbol in {STAR, CROWN, HIDDEN_CROWN}
      ensures rng.draws == old(rng.draws) + 1
    {
      var chance := rng.RandInt(1, 100);
      if chance <= 40 {
        victorySymbol := STAR;
      } else if chance <= 80 {
        victorySymbol := CROWN;
      } else {
        victorySymbol := HIDDEN_CROWN;
      }
    }

    /** `advance_vertically(dir, data)`: up through an open top wall or
        down through an open bottom wall; whether the player moved. */
    method AdvanceVertically(dir: seq<int>, g: Rows) returns (moved: bool)
      requires |dir| >= 2 && Has(g, cell)
      modifies this`cell
      ensures moved <==> Advance(g, old(cell), dir, true).Some?
      ensures cell == if moved then Advance(g, old(cell), dir, true).value else old(cell)
    {
      var b := g[cell.row][cell.col];
      moved := false;
      if dir[0] < 0 {
        if b.top == 0 {
          cell := cell.(row := cell.row + dir[0]);
          moved := true;
        }
      }
      if !moved && dir[0] > 0 {
        if b.bottom == 0 {
          cell := cell.(row := cell.row + dir[0]);
          moved := true;
        }
      }
    }

    /** `advance_horizontally(dir, data)`: left through an open left wall
        or right through an open right wall; whether the player moved. */
    method AdvanceHorizontally(dir: seq<int>, g: Rows) returns (moved: bool)
      requires |dir| >= 2 && Has(g, cell)
      modifies this`cell
      ensures moved <==> Advance(g, old(cell), dir, false).Some?
      ensures cell == if moved then Advance(g, old(cell), dir, false).value else old(cell)
    {
      var b := g[cell.row][cell.col];
      moved := false;
      if dir[1] < 0 {
        if b.left == 0 {
          cell := cell.(col := cell.col + dir[1]);
          moved := true;
        }
      }
      if !moved && dir[1] > 0 {
        if b.right == 0 {
          cell := cell.(col := cell.col + dir[1]);
          moved := true;
        }
      }
    }

    /** `move(dir, data)`: when the counter has run down, one step along
        the priority axis or else the other; a step arms the counter with
        the initial delay the first time and the interval afterwards, a
        failed attempt leaves it. While the counter runs, it counts down. */
    method Move(dir: seq<int>, g: Rows)
      requires |dir| >= 2 && Has(g, cell)
      modifies this`cell, this`contMovement, this`moveCounter
      ensures old(moveCounter) <= 0 ==>
                var t := MoveTarget(g, old(cell), dir, dirPriority);
                cell == (if t.Some? then t.value else old(cell)) &&
                (t.Some? ==> contMovement &&
                             moveCounter == if old(contMovement) then moveInterval else moveDelay) &&
                (t.None? ==> contMovement == old(contMovement) && moveCounter == old(moveCounter))
      ensures old(moveCounter) > 0 ==>
                cell == old(cell) && contMovement == old(contMovement) && moveCounter == old(moveCounter) - 1
    {
      if moveCounter <= 0 {
        var moved;
        if dirPriority != 0 {
          moved := AdvanceVertically(dir, g);
        } else {
          moved := AdvanceHorizontally(dir, g);
        }
        if !moved {
          if dirPriority != 0 {
            moved := AdvanceHorizontally(dir, g);
          } else {
            moved := AdvanceVertically(dir, g);
          }
        }
        if moved {
          if contMovement {
            moveCounter := moveInterval;
          } else {
            contMovement := true;
            moveCounter := moveDelay;
          }
        }
      } else {
        moveCounter := moveCounter - 1;
      }
    }
  }
}
