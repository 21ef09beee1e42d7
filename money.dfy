/** Conversion between pounds (exact reals) and integer pence. */
module Money {
  import opened Wrappers
  import opened JsMath

  /** `toPence(gbp)`: `Math.round(gbp * 100)`. */
  function ToPence(gbp: real): (p: int)
    ensures p as real - 0.5 <= gbp * 100.0 < p as real + 0.5
  {
    Round(gbp * 100.0)
  }

  /**
   * `fromPence(pence)`: `(pence || 0) / 100`; a missing (`null`/`undefined`) amount
   * reads as zero pence.
   */
  function FromPence(pence: Option<int>): (gbp: real)
    ensures pence.None? ==> gbp == 0.0
    ensures pence.Some? ==> gbp * 100.0 == pence.value as real
  {
    (pence.GetOr(0)) as real / 100.0
  }

  /** Every whole number of pence survives the trip to pounds and back. */
  lemma ToPenceFromPence(p: int)
    ensures ToPence(FromPence(Some(p))) == p
  {
    RoundUnique(FromPence(Some(p)) * 100.0, p);
  }

  /** Rounding to pence loses at most half a penny. */
  lemma FromPenceToPence(gbp: real)
    ensures Abs(FromPence(Some(ToPence(gbp))) - gbp) <= 0.005
  {
  }

  /** A larger amount in pounds never gives fewer pence. */
  lemma ToPenceMonotone(x: real, y: real)
    requires x <= y
    ensures ToPence(x) <= ToPence(y)
  {
    RoundMonotone(x * 100.0, y * 100.0);
  }
}
