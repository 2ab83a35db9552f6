/** Python's two-argument min and max on durations. */
module Reals {

  /** `min(a, b)`: `b` only when it is strictly smaller. */
  function Min(a: real, b: real): (r: real)
    ensures r <= a && r <= b && (r == a || r == b)
  {
    if b < a then b else a
  }

  /** `max(a, b)`: `b` only when it is strictly larger. */
  function Max(a: real, b: real): (r: real)
    ensures r >= a && r >= b && (r == a || r == b)
  {
    if b > a then b else a
  }
}
