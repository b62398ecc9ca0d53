/**
 * The rounding used by the tiling classes, on exact reals: `ceil_int`
 * (tiling/__init__.py and tiling/const_stride.py), the floors of
 * tiling/__init__.py:62 and tiling/const_stride.py:38, and the `round` of
 * tiling/const_size.py:82-83.
 */
module Rounding {

  /** `math.floor`: the greatest integer not above `x`. */
  function Floor(x: real): (r: int)
    ensures r as real <= x < r as real + 1.0
  {
    x.Floor
  }

  /** `ceil_int(x)`: the least integer not below `x` (rounds up for negative `x` too). */
  function CeilInt(x: real): (r: int)
    ensures x <= r as real < x + 1.0
  {
    -Floor(-x)
  }

  /**
   * Python 3's built-in `round(x)`: the nearest integer, and of two equally
   * near integers the even one.
   */
  function Round(x: real): (r: int)
    ensures x - 0.5 <= r as real <= x + 0.5
    ensures (r as real == x - 0.5 || r as real == x + 0.5) ==> r % 2 == 0
  {
    var f := Floor(x);
    var frac := x - f as real;
    if frac < 0.5 then f
    else if frac > 0.5 then f + 1
    else if f % 2 == 0 then f
    else f + 1
  }

  /** `ceil_int` of an exact quotient `a / b` is the integer ceiling division. */
  lemma CeilOfQuotient(a: int, b: int)
    requires b > 0
    ensures var n := CeilInt(a as real / b as real);
      (n - 1) * b < a <= n * b
  {
    var q := a as real / b as real;
    var n := CeilInt(q);
    assert q * b as real == a as real;
    assert n as real * b as real >= q * b as real;
    assert (n - 1) as real * b as real < q * b as real;
    assert ((n - 1) * b) as real == (n - 1) as real * b as real;
    assert (n * b) as real == n as real * b as real;
  }

  /** Rounding an integral value leaves it unchanged. */
  lemma RoundIntegral(k: int)
    ensures Round(k as real) == k
  {
  }

  /** `round(i * d)`: the `i`-th multiple of a step `d`, rounded. */
  function RoundedMultiple(i: int, d: real): int
  {
    Round(i as real * d)
  }

  /** The zeroth multiple of any step rounds to 0. */
  lemma RoundedMultipleZero(d: real)
    ensures RoundedMultiple(0, d) == 0
  {
    RoundCongruent(0 as real * d, 0 as real);
    RoundIntegral(0);
  }

  /**
   * Rounding the multiples `i * d` of a step `0 < d <= k` (with `k` integral)
   * moves forward by at least 0 and at most `k` per step.
   */
  lemma RoundStep(i: int, d: real, k: int)
    requires 0.0 < d <= k as real
    ensures 0 <= RoundedMultiple(i + 1, d) - RoundedMultiple(i, d) <= k
  {
    if d == k as real {
      IntegralMultiple(i, k);
      IntegralMultiple(i + 1, k);
      assert (i + 1) * k == i * k + k;
    } else {
      NextMultiple(i, d);
      RoundShortStep(i as real * d, d, k);
    }
  }

  /** Helper: the next rounded multiple is the rounding of one step further. */
  lemma NextMultiple(i: int, d: real)
    ensures RoundedMultiple(i + 1, d) == Round(i as real * d + d)
    ensures RoundedMultiple(i, d) == Round(i as real * d)
  {
    RoundCongruent((i + 1) as real * d, i as real * d + d);
  }

  /** Helper: equal arguments round alike. */
  lemma RoundCongruent(x: real, y: real)
    requires x == y
    ensures Round(x) == Round(y)
  {
  }

  /** Helper: a step shorter than the integer `k` moves the rounded value by 0 to `k`. */
  lemma RoundShortStep(x: real, d: real, k: int)
    requires 0.0 < d < k as real
    ensures 0 <= Round(x + d) - Round(x) <= k
  {
  }

  /** Helper: the multiples of an integral step are integers, and rounding keeps them. */
  lemma IntegralMultiple(i: int, k: int)
    ensures RoundedMultiple(i, k as real) == i * k
  {
    RoundCongruent(i as real * k as real, (i * k) as real);
    RoundIntegral(i * k);
  }

  /**
   * The rounded multiples `i * d`, `0 <= i < n`, of a positive step stay
   * within `[0, (n - 1) * d]` and hit both ends when those are integral.
   */
  lemma RoundedMultipleBounds(i: int, n: int, d: real, span: int)
    requires 0 <= i < n && d > 0.0
    requires (n - 1) as real * d == span as real
    ensures 0 <= RoundedMultiple(i, d) <= span
    ensures i == 0 ==> RoundedMultiple(i, d) == 0
    ensures i == n - 1 ==> RoundedMultiple(i, d) == span
  {
    ScaleBetween(i, n, d);
    RoundBetween(i as real * d, 0, span);
    assert RoundedMultiple(i, d) == Round(i as real * d);
    if i == 0 {
      RoundCongruent(0 as real * d, 0 as real);
      RoundIntegral(0);
    }
    if i == n - 1 {
      RoundCongruent((n - 1) as real * d, span as real);
      RoundIntegral(span);
    }
  }

  /** Helper: scaling `0 <= i <= n - 1` by a positive `d` keeps the order. */
  lemma ScaleBetween(i: int, n: int, d: real)
    requires 0 <= i < n && d > 0.0
    ensures 0.0 <= i as real * d <= (n - 1) as real * d
  {
    assert (n - 1) as real * d - i as real * d == (n - 1 - i) as real * d;
  }

  /** Rounding keeps a value between two integral bounds. */
  lemma RoundBetween(x: real, lo: int, hi: int)
    requires lo as real <= x <= hi as real
    ensures lo <= Round(x) <= hi
  {
  }

  /** `ceil_int(1.789)` is 2. */
  lemma CeilExample()
    ensures CeilInt(1.789) == 2
  {
  }
}
