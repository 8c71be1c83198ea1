/** The per-connection round-trip estimator of the listener: a running mean
    over a window of at most WindowMax samples, computed on Java `long`
    nanoseconds with Java's truncating integer division. */
module PingEstimate {

  /** Largest number of samples the running mean is weighted by. */
  const WindowMax: int := 100

  /** Java's `/` on integers: the quotient is truncated toward zero. */
  function JavaDiv(a: int, d: int): (q: int)
    requires d > 0
    ensures a >= 0 ==> 0 <= q * d <= a < q * d + d
    ensures a < 0 ==> q * d - d < a <= q * d <= 0
  {
    if a >= 0 then
      EuclidBounds(a, d);
      a / d
    else
      EuclidBounds(-a, d);
      assert (-((-a) / d)) * d == -(((-a) / d) * d);
      -((-a) / d)
  }

  /** Bounds of Dafny's (Euclidean) quotient of a non-negative dividend. */
  lemma EuclidBounds(a: int, d: int)
    requires a >= 0 && d > 0
    ensures 0 <= (a / d) * d <= a < (a / d) * d + d
  {
    var q, r := a / d, a % d;
    assert a == d * q + r && 0 <= r < d;
    assert d * q == q * d;
    assert q >= 0;
    MulLe0(0, q, d);
  }

  /** The new estimate after one sample: the sample and the old estimate
      weighted by the current window size. */
  function NextPing(sample: int, estimate: int, windowSize: int): int
    requires windowSize >= 0
  {
    JavaDiv(sample + estimate * windowSize, windowSize + 1)
  }

  /** The window grows by one per sample until it reaches WindowMax. */
  function NextWindow(windowSize: int): (r: int)
    ensures 0 <= windowSize <= WindowMax ==>
      windowSize <= r <= WindowMax && (r == windowSize <==> windowSize == WindowMax)
  {
    if windowSize < WindowMax then windowSize + 1 else windowSize
  }

  /** The first sample, taken with an empty window, becomes the estimate. */
  lemma FirstSampleIsEstimate(sample: int, estimate: int)
    ensures NextPing(sample, estimate, 0) == sample
  {
  }

  /** A sample equal to the current estimate leaves the estimate unchanged. */
  lemma SteadySampleKeepsEstimate(estimate: int, windowSize: int)
    requires windowSize >= 0
    ensures NextPing(estimate, estimate, windowSize) == estimate
  {
    var d := windowSize + 1;
    assert estimate + estimate * windowSize == estimate * d;
    var q := NextPing(estimate, estimate, windowSize);
    if estimate >= 0 {
      MulBetween(q, estimate, d);
    } else {
      MulBetween(estimate, q, d);
    }
  }

  /** x * d <= y * d < x * d + d pins y to x when d > 0 (and symmetrically). */
  lemma MulBetween(x: int, y: int, d: int)
    requires d > 0
    requires (x * d <= y * d < x * d + d) || (x * d - d < y * d <= x * d)
    ensures x == y
  {
    if x < y {
      assert (x + 1) * d == x * d + d;
      MulLe(x + 1, y, d);
    } else if y < x {
      assert (y + 1) * d == y * d + d;
      MulLe(y + 1, x, d);
    }
  }

  lemma MulLe(x: int, y: int, d: int)
    requires d > 0 && x <= y
    ensures x * d <= y * d
  {
    assert y * d - x * d == (y - x) * d;
  }

  /** The new estimate lies between the sample and the old estimate: it is a
      weighted mean, and truncation toward zero never leaves that range. */
  lemma EstimateBetweenSampleAndOld(sample: int, estimate: int, windowSize: int)
    requires windowSize >= 0
    ensures var r := NextPing(sample, estimate, windowSize);
      (sample <= estimate ==> sample <= r <= estimate) &&
      (estimate <= sample ==> estimate <= r <= sample)
  {
    var d := windowSize + 1;
    var n := sample + estimate * windowSize;
    var lo := if sample <= estimate then sample else estimate;
    var hi := if sample <= estimate then estimate else sample;
    MulLe(lo, hi, d);
    assert lo * d <= n <= hi * d by {
      MulLe0(lo, estimate, windowSize);
      MulLe0(estimate, hi, windowSize);
      assert lo * d == lo + lo * windowSize;
      assert hi * d == hi + hi * windowSize;
    }
    QuotientInRange(n, d, lo, hi, NextPing(sample, estimate, windowSize));
  }

  /** A truncated quotient of n by d stays in [lo, hi] when n / d does. */
  lemma QuotientInRange(n: int, d: int, lo: int, hi: int, q: int)
    requires d > 0 && lo * d <= n <= hi * d
    requires n >= 0 ==> q * d <= n < q * d + d
    requires n < 0 ==> q * d - d < n <= q * d
    ensures lo <= q <= hi
  {
    assert (q + 1) * d == q * d + d;
    assert (hi + 1) * d == hi * d + d;
    if q < lo {
      MulLe(q + 1, lo, d);
    }
    if q > hi {
      MulLe(hi + 1, q, d);
    }
  }

  lemma MulLe0(x: int, y: int, w: int)
    requires w >= 0 && x <= y
    ensures x * w <= y * w
  {
    assert y * w - x * w == (y - x) * w;
  }

  /** Applying NextWindow n times, starting from an empty window. */
  function WindowAfter(n: nat): int
  {
    if n == 0 then 0 else NextWindow(WindowAfter(n - 1))
  }

  /** After n responses the window holds min(n, WindowMax) samples: it grows
      by one per response and never exceeds WindowMax. */
  lemma {:induction false} WindowAfterResponses(n: nat)
    ensures WindowAfter(n) == (if n < WindowMax then n else WindowMax)
  {
    if n > 0 {
      WindowAfterResponses(n - 1);
    }
  }

}
