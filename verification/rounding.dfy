/**
 Python's integer-valued rounding of exact quotients: `round(n / d)` rounds
 half to even, `int(n / d)` truncates toward zero. The quotients the
 integration rounds are of small integers, so their floating-point values
 are exact enough that these integer definitions give the same results.
 */
module Rounding {

  function Abs(x: int): nat
  {
    if x < 0 then -x else x
  }

  /** `round(n / d)` for `d > 0`: the nearest integer, the even one on a tie. */
  function RoundHalfEven(n: int, d: int): (r: int)
    requires d > 0
    ensures 2 * Abs(n - d * r) <= d
    ensures 2 * Abs(n - d * r) == d ==> r % 2 == 0
  {
    var q := n / d;
    var m := n % d;
    assert n == d * q + m;
    if 2 * m < d then q
    else if 2 * m > d then
      assert n - d * (q + 1) == m - d;
      q + 1
    else if q % 2 == 0 then q
    else
      assert n - d * (q + 1) == m - d;
      q + 1
  }

  /** A quotient strictly closer than half a step to `p` rounds to `p`. */
  lemma RoundHalfEvenNear(n: int, d: int, p: int)
    requires d > 0 && 2 * Abs(n - d * p) < d
    ensures RoundHalfEven(n, d) == p
  {
    var r := RoundHalfEven(n, d);
    var k := r - p;
    assert d * r - d * p == d * k by {
      assert d * r == d * (p + k);
    }
    if k >= 1 {
      MulAtLeast(d, k);
    } else if k <= -1 {
      MulAtLeast(d, -k);
    }
  }

  /** Rounding a quotient that lies between two integers stays between them. */
  lemma RoundHalfEvenBetween(n: int, d: int, lo: int, hi: int)
    requires d > 0 && d * lo <= n <= d * hi
    ensures lo <= RoundHalfEven(n, d) <= hi
  {
    var r := RoundHalfEven(n, d);
    if r < lo {
      assert d * (lo - r) == d * lo - d * r;
      MulAtLeast(d, lo - r);
    } else if r > hi {
      assert d * (r - hi) == d * r - d * hi;
      MulAtLeast(d, r - hi);
    }
  }

  lemma MulAtLeast(d: int, k: int)
    requires d > 0 && k >= 1
    ensures d * k >= d
  {
  }

  /** `int(n / d)` for `d > 0`: the quotient truncated toward zero. */
  function TruncDiv(n: int, d: int): (r: int)
    requires d > 0
    ensures n >= 0 ==> 0 <= r && d * r <= n < d * (r + 1)
    ensures n < 0 ==> r <= 0 && d * (r - 1) < n <= d * r
  {
    if n >= 0 then DivBounds(n, d); n / d
    else DivBounds(-n, d); -((-n) / d)
  }

  lemma DivBounds(m: nat, d: int)
    requires d > 0
    ensures 0 <= m / d && d * (m / d) <= m < d * (m / d) + d
  {
  }
}
