/** Integer arithmetic as JavaScript's `Math` performs it, shared by the
    archive extractor and the rate limiter. */
module Numbers {

  /** `Math.ceil(d / m)` for a positive `m`: the least multiple count of
      `m` that reaches `d`. */
  function CeilDiv(d: int, m: int): (q: int)
    requires m > 0
    ensures (q - 1) * m < d <= q * m
  {
    var k := (-d) / m;
    assert m * k <= -d < m * k + m;
    -k
  }
}
