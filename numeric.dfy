/** Python number and list semantics that the maze code relies on, written out
    exactly: `int()` on a float truncates toward zero, `round()` rounds half to
    even, and a list index may be negative (counted from the end). */
module PyNum {

  datatype Option<T> = None | Some(value: T)

  function Min(a: int, b: int): int { if a <= b then a else b }
  function Max(a: int, b: int): int { if a >= b then a else b }
  function MinReal(a: real, b: real): real { if a <= b then a else b }
  function MaxReal(a: real, b: real): real { if a >= b then a else b }
  function Abs(x: int): nat { if x < 0 then -x else x }

  /** The bounds check the source writes as `if x > hi: x = hi elif x < lo:
      x = lo`: the nearest value between `lo` and `hi`. */
  function ClampTo(x: int, lo: int, hi: int): (r: int)
    requires lo <= hi
    ensures lo <= r <= hi
    ensures lo <= x <= hi ==> r == x
    ensures x > hi ==> r == hi
    ensures x < lo ==> r == lo
  {
    if x > hi then hi else if x < lo then lo else x
  }

  /** Clamping once part-way through a move in one direction changes
      nothing: a value pushed past a bound stays there. */
  lemma ClampShift(x: int, d: int, lo: int, hi: int)
    requires lo <= hi
    requires (d >= 0 && x >= lo) || (d <= 0 && x <= hi)
    ensures ClampTo(ClampTo(x, lo, hi) + d, lo, hi) == ClampTo(x + d, lo, hi)
  {
  }

  /** A real that is a whole number. */
  predicate IsWhole(x: real) { x == x.Floor as real }

  /** Python `int(x)` for a float: truncation toward zero. */
  function Trunc(x: real): (r: int)
    ensures 0.0 <= x ==> r as real <= x < r as real + 1.0
    ensures x < 0.0 ==> r as real - 1.0 < x <= r as real
  {
    if x >= 0.0 then x.Floor else -((-x).Floor)
  }

  /** `x - int(x) == 0` holds exactly for whole numbers, whatever their sign. */
  lemma TruncExactIffWhole(x: real)
    ensures (x - Trunc(x) as real == 0.0) <==> IsWhole(x)
  {
    if x < 0.0 {
      var f := (-x).Floor;
      if x - Trunc(x) as real == 0.0 {
        assert x == (-f) as real;
        assert x.Floor == -f;
      }
    }
  }

  /** Python 3 `round(x)`: the nearest integer, ties to the even one. */
  function RoundHalfEven(x: real): (r: int)
    ensures -0.5 <= r as real - x <= 0.5
    ensures (r as real - x == 0.5 || x - r as real == 0.5) ==> r % 2 == 0
  {
    var f := x.Floor;
    var d := x - f as real;
    if d < 0.5 then f
    else if d > 0.5 then f + 1
    else if f % 2 == 0 then f else f + 1
  }

  /** Rounding never reverses an order. */
  lemma RoundMonotone(x: real, y: real)
    requires x <= y
    ensures RoundHalfEven(x) <= RoundHalfEven(y)
  {
  }

  /** Rounding leaves a whole number alone. */
  lemma RoundWhole(k: int)
    ensures RoundHalfEven(k as real) == k
  {
    assert (k as real).Floor == k;
  }

  /** Python list indexing `xs[i]` on a list of length n: a negative index
      counts from the end; anything else outside the list raises IndexError
      (None here). */
  function PyIndex(i: int, n: nat): (r: Option<nat>)
    ensures r.Some? <==> -(n as int) <= i < n
    ensures r.Some? ==> r.value < n && (r.value == i || r.value == i + n)
  {
    if 0 <= i < n then Some(i)
    else if -(n as int) <= i < 0 then Some(i + n)
    else None
  }
}
