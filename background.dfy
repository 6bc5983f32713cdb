/** The `Background` class of maze_generator.py, reduced to the part with
    rules: the width of the border drawn around the maze frame, changed by
    a hold-to-repeat control and kept between 0 and 50. The day and night
    colours are presentation and are not modelled. */
module BackgroundModel {
  import opened PyNum
  import opened HoldRepeat

  const MAX_BORDER_SIZE := 50
  const MIN_BORDER_SIZE := 0
  const DEFAULT_BORDER := 2
  /** Border changes per second while the control is held. */
  const INCR_SPEED := 30
  const BORDER_INCR := 1
  /** The step a mouse-wheel notch asks for. */
  const STEP_SIZE := 5

  class Background {
    var borderSize: int
    var resizeInterval: int
    var resizeDelay: int
    /** `resize_counter` and `cont_resize`. */
    var resizeRepeat: Repeat

    ghost predicate Valid()
      reads this`borderSize
    {
      MIN_BORDER_SIZE <= borderSize <= MAX_BORDER_SIZE
    }

    /** `Background(fps)`: the default border, one change per 1/30 s once
        the control repeats, after a quarter of a second. */
    constructor (fps: int)
      ensures Valid() && borderSize == DEFAULT_BORDER
      ensures resizeInterval == RoundHalfEven(fps as real / INCR_SPEED as real)
      ensures resizeDelay == Trunc(0.25 * fps as real)
      ensures resizeRepeat == Released
    {
      borderSize := DEFAULT_BORDER;
      resizeInterval := RoundHalfEven(fps as real / INCR_SPEED as real);
      resizeDelay := Trunc(0.25 * fps as real);
      resizeRepeat := Released;
    }

    /** `resize_frame(r)`: a hold-to-repeat control that, when it acts,
        changes the border by `r` steps and clamps it to 0..50. */
    method ResizeFrame(r: int)
      requires Valid()
      modifies this`resizeRepeat, this`borderSize
      ensures Valid()
      ensures var t := Press(old(resizeRepeat), r != 0, resizeDelay as real, resizeInterval as real);
              resizeRepeat == t.next &&
              borderSize == if t.fired then ClampTo(old(borderSize) + r * BORDER_INCR, MIN_BORDER_SIZE, MAX_BORDER_SIZE)
                            else old(borderSize)
    {
      if r == 0 {
        resizeRepeat := Released;
      } else if resizeRepeat.counter > 0.0 {
        resizeRepeat := resizeRepeat.(counter := resizeRepeat.counter - 1.0);
      } else {
        if resizeRepeat.cont {
          resizeRepeat := resizeRepeat.(counter := resizeInterval as real);
        } else {
          resizeRepeat := Repeat(resizeDelay as real, true);
        }
        borderSize := borderSize + r * BORDER_INCR;
        if borderSize > MAX_BORDER_SIZE {
          borderSize := MAX_BORDER_SIZE;
        } else if borderSize < MIN_BORDER_SIZE {
          borderSize := MIN_BORDER_SIZE;
        }
      }
    }
  }
}
