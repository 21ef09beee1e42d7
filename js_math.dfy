/** `Math.round` and `Math.abs` over exact reals (no IEEE-754 rounding is modelled). */
module JsMath {

  /**
   * `Math.round(x)`: the nearest integer, a tie going towards +infinity; that is,
   * the unique integer `n` with `n - 1/2 <= x < n + 1/2`.
   */
  function Round(x: real): (n: int)
    ensures n as real - 0.5 <= x < n as real + 0.5
  {
    (x + 0.5).Floor
  }

  /** Only one integer lies in the half-open window `Round` describes. */
  lemma RoundUnique(x: real, m: int)
    requires m as real - 0.5 <= x < m as real + 0.5
    ensures Round(x) == m
  {
  }

  /** `Math.round` never decreases when its argument grows. */
  lemma RoundMonotone(x: real, y: real)
    requires x <= y
    ensures Round(x) <= Round(y)
  {
  }

  /** `Math.abs(x)`. */
  function Abs(x: real): (r: real)
    ensures r >= 0.0
    ensures r == x || r == -x
  {
    if x < 0.0 then -x else x
  }
}
