/** The hold-to-repeat counter shared by `Maze.zoom`, `Maze.expand_lines`,
    `Player.grow` and `Background.resize_frame` (and, in a simpler form,
    `Maze.scroll`). Each frame the control is either released, which rearms
    it at once, or held: a held control whose counter has run down acts and
    reloads the counter with the initial delay the first time and with the
    shorter repeat interval afterwards; otherwise the counter counts one
    frame down. Counters are reals because `Player.grow_delay` is a float. */
module HoldRepeat {
  import opened PyNum

  /** A counter and the "continuous" flag (`cont_zoom`, `cont_grow`, ...). */
  datatype Repeat = Repeat(counter: real, cont: bool)

  /** The state of a released control. */
  const Released := Repeat(0.0, false)

  /** One frame of the control: the new state and whether it acted. */
  datatype Tick = Tick(next: Repeat, fired: bool)

  function Press(t: Repeat, held: bool, delay: real, interval: real): (r: Tick)
    ensures !held ==> r == Tick(Released, false)
    ensures r.fired <==> held && t.counter <= 0.0
    ensures r.fired ==> r.next.cont
  {
    if !held then Tick(Released, false)
    else if t.counter <= 0.0 then Tick(Repeat(if t.cont then interval else delay, true), true)
    else Tick(Repeat(t.counter - 1.0, t.cont), false)
  }

  /** Holding the control for `k` frames: the state reached and how many
      times it acted. */
  function Hold(t: Repeat, k: nat, delay: real, interval: real): (Repeat, nat)
    decreases k
  {
    if k == 0 then (t, 0)
    else
      var s := Press(t, true, delay, interval);
      var (t', n) := Hold(s.next, k - 1, delay, interval);
      (t', n + (if s.fired then 1 else 0))
  }

  /** How many times a control held for `k` frames from rest acts, given a
      whole initial delay `d` and repeat interval `i`: at frame 0, at frame
      `d + 1`, and then every `i + 1` frames. */
  function FiresFromRest(k: nat, d: nat, i: nat): nat {
    if k == 0 then 0
    else if k <= d + 1 then 1
    else 2 + (k - d - 2) / (i + 1)
  }

  /** Held with the continuous flag set and `c` frames left on the counter,
      the control acts after `c` frames and then every `i + 1` frames. */
  lemma {:induction false} HoldCounting(c: nat, k: nat, delay: real, i: nat)
    ensures Hold(Repeat(c as real, true), k, delay, i as real).1 ==
            (if k <= c then 0 else 1 + (k - c - 1) / (i + 1))
    decreases k
  {
    if k > 0 {
      var t := Repeat(c as real, true);
      if c == 0 {
        assert Press(t, true, delay, i as real) == Tick(Repeat(i as real, true), true);
        HoldCounting(i, k - 1, delay, i);
        if k - 1 > i {
          DivStep(k - 1 - i - 1, i + 1);
        } else {
          DivUnique(0, k - 1, i + 1, k - 1);
        }
      } else {
        assert Press(t, true, delay, i as real) == Tick(Repeat((c - 1) as real, true), false);
        HoldCounting(c - 1, k - 1, delay, i);
      }
    }
  }

  /** `(m + d) / d == m / d + 1`. */
  lemma DivStep(m: nat, d: nat)
    requires d > 0
    ensures (m + d) / d == m / d + 1
  {
    var q, r := m / d, m % d;
    assert m == q * d + r;
    assert m + d == (q + 1) * d + r;
    DivUnique(q + 1, r, d, m + d);
  }

  /** Integer division recovers the quotient of `q * d + r` for `0 <= r < d`. */
  lemma DivUnique(q: int, r: int, d: int, n: int)
    requires 0 <= r < d && n == q * d + r
    ensures n / d == q
  {
    var q', r' := n / d, n % d;
    assert n == q' * d + r' && 0 <= r' < d;
    if q' < q {
      MulAtLeast(q - q', d);
      assert false;
    } else if q' > q {
      MulAtLeast(q' - q, d);
      assert false;
    }
  }

  lemma {:induction false} MulAtLeast(a: nat, d: nat)
    requires a >= 1
    ensures a * d >= d
  {
    if a > 1 {
      MulAtLeast(a - 1, d);
      assert a * d == (a - 1) * d + d;
    }
  }

  /** The repeat schedule from rest: one action on the first frame, the next
      after the initial delay, then one per interval. */
  lemma HoldFromRest(k: nat, d: nat, i: nat)
    ensures Hold(Released, k, d as real, i as real).1 == FiresFromRest(k, d, i)
  {
    if k > 0 {
      HoldCounting(d, k - 1, d as real, i);
    }
  }

  /** A control that, each time it acts, adds `step` to a value kept
      between `lo` and `hi` (`Maze.expand_lines`, `Player.grow`,
      `Background.resize_frame`), held for `k` frames: the value and the
      counter reached. */
  function HoldValue(v: int, t: Repeat, step: int, k: nat, delay: real, interval: real, lo: int, hi: int): (r: (int, Repeat))
    requires lo <= hi
    decreases k
  {
    if k == 0 then (v, t)
    else
      var p := Press(t, true, delay, interval);
      HoldValue(if p.fired then ClampTo(v + step, lo, hi) else v, p.next, step, k - 1, delay, interval, lo, hi)
  }

  /** Holding such a control moves the value by `step` once per action and
      clamps only once: the bound reached part-way is kept. */
  lemma {:induction false} HoldValueClamped(v: int, t: Repeat, step: int, k: nat, delay: real, interval: real, lo: int, hi: int)
    requires lo <= v <= hi
    ensures var (t', n) := Hold(t, k, delay, interval);
            HoldValue(v, t, step, k, delay, interval, lo, hi) == (ClampTo(v + step * n, lo, hi), t')
    decreases k
  {
    if k > 0 {
      var p := Press(t, true, delay, interval);
      var v1 := if p.fired then ClampTo(v + step, lo, hi) else v;
      HoldValueClamped(v1, p.next, step, k - 1, delay, interval, lo, hi);
      var n' := Hold(p.next, k - 1, delay, interval).1;
      assert Hold(t, k, delay, interval).1 == n' + (if p.fired then 1 else 0);
      if p.fired {
        StepTimes(step, n');
        ClampShift(v + step, step * n', lo, hi);
      }
    }
  }

  /** `n + 1` steps are one step and then `n`, all in the step's direction. */
  lemma StepTimes(step: int, n: nat)
    ensures step * (n + 1) == step + step * n
    ensures step >= 0 ==> step * n >= 0
    ensures step <= 0 ==> step * n <= 0
  {
  }

  /** Held from rest for `k` frames with a whole delay `d` and interval
      `i`, such a control moves the value by `step` once per action of the
      repeat schedule, clamped at the end. */
  lemma HoldValueFromRest(v: int, step: int, k: nat, d: nat, i: nat, lo: int, hi: int)
    requires lo <= v <= hi
    ensures HoldValue(v, Released, step, k, d as real, i as real, lo, hi).0 ==
            ClampTo(v + step * FiresFromRest(k, d, i), lo, hi)
  {
    HoldValueClamped(v, Released, step, k, d as real, i as real, lo, hi);
    HoldFromRest(k, d, i);
  }

  /** `Maze.scroll`'s counter: it has no continuous flag and always reloads
      with `scroll_delay`. */
  function ScrollTick(counter: real, held: bool, delay: real): (r: (real, bool))
  {
    if !held then (0.0, false)
    else if counter <= 0.0 then (delay, true)
    else (counter - 1.0, false)
  }

  /** The scroll counter is the shared counter with the delay equal to the
      interval, whatever the continuous flag. */
  lemma ScrollIsPress(counter: real, cont: bool, held: bool, delay: real)
    ensures var s := ScrollTick(counter, held, delay);
            var p := Press(Repeat(counter, cont), held, delay, delay);
            s.0 == p.next.counter && s.1 == p.fired
  {
  }
}
