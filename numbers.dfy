/**
  The comparison and clamping operations the library adds to numbers,
  over unbounded integers.
 */
module Numbers {

  /** `x.compareTo(other)`: 0 when equal, 1 when greater, -1 otherwise. */
  function CompareTo(x: int, other: int): (r: int)
    ensures r == 0 <==> x == other
    ensures r == 1 <==> x > other
    ensures r == -1 <==> x < other
  {
    if x == other then 0 else if x > other then 1 else -1
  }

  /** Swapping the operands negates the comparison. */
  lemma CompareToAntisymmetric(a: int, b: int)
    ensures CompareTo(a, b) == -CompareTo(b, a)
    ensures CompareTo(a, b) in {-1, 0, 1}
  {
  }

  /** `x.coerceAtLeast(minimumValue)`: the larger of the two. */
  function CoerceAtLeast(x: int, minimumValue: int): (r: int)
    ensures r >= minimumValue && r >= x
    ensures r == x || r == minimumValue
    ensures x >= minimumValue ==> r == x
  {
    if x < minimumValue then minimumValue else x
  }

  /** `x.coerceAtMost(maximumValue)`: the smaller of the two. */
  function CoerceAtMost(x: int, maximumValue: int): (r: int)
    ensures r <= maximumValue && r <= x
    ensures r == x || r == maximumValue
    ensures x <= maximumValue ==> r == x
  {
    if x > maximumValue then maximumValue else x
  }

  /**
    `x.coerceIn(minimumValue, maximumValue)`. Unlike the clamp it imitates,
    it does not reject an empty range: the lower bound is tested first.
   */
  function CoerceIn(x: int, minimumValue: int, maximumValue: int): (r: int)
    ensures x < minimumValue ==> r == minimumValue
    ensures minimumValue <= x <= maximumValue ==> r == x
    ensures minimumValue <= x && maximumValue < x ==> r == maximumValue
    ensures minimumValue <= maximumValue ==> minimumValue <= r <= maximumValue
    ensures minimumValue <= maximumValue ==>
              r == CoerceAtMost(CoerceAtLeast(x, minimumValue), maximumValue)
  {
    if x < minimumValue then minimumValue
    else if x > maximumValue then maximumValue
    else x
  }

  /** Clamping twice with the same bounds changes nothing more. */
  lemma CoerceIdempotent(x: int, lo: int, hi: int)
    ensures CoerceAtLeast(CoerceAtLeast(x, lo), lo) == CoerceAtLeast(x, lo)
    ensures CoerceAtMost(CoerceAtMost(x, hi), hi) == CoerceAtMost(x, hi)
    ensures lo <= hi ==> CoerceIn(CoerceIn(x, lo, hi), lo, hi) == CoerceIn(x, lo, hi)
  {
  }
}
