/**
 * `sample_evenly_interpolated`, the test helper that picks a given number of items
 * spread evenly over a list, keeping the first and the last. The Python code rounds a
 * floating-point index; here the index is the exact quotient rounded half to even,
 * as Python's `round` does.
 */
module Sampling {
  import opened Wrappers
  import opened Arith

  /** The error raised for a negative sample count. */
  datatype SampleError = NegativeSamples

  function Abs(x: int): nat {
    if x < 0 then -x else x
  }

  /** `round(num / den)`: the quotient rounded to the nearest integer, halves to the even one. */
  function RoundHalfEven(num: int, den: int): int
    requires den >= 1
  {
    var q := num / den;
    var rem := num % den;
    if 2 * rem < den then q
    else if 2 * rem > den then q + 1
    else if q % 2 == 0 then q
    else q + 1
  }

  /**
   * The rounded quotient is at most half a unit away from the exact one, and an
   * exact half goes to the even neighbour.
   */
  lemma RoundNearest(num: int, den: int)
    requires den >= 1
    ensures var r := RoundHalfEven(num, den);
      2 * Abs(r * den - num) <= den && (2 * Abs(r * den - num) == den ==> r % 2 == 0)
  {
    var q := num / den;
    var rem := num % den;
    assert q * den + rem == num;
    assert (q + 1) * den == q * den + den;
  }

  /** No other integer is that close to the quotient: rounding is determined by the two rules. */
  lemma RoundUnique(num: int, den: int, x: int)
    requires den >= 1
    requires 2 * Abs(x * den - num) < den || (2 * Abs(x * den - num) == den && x % 2 == 0)
    ensures x == RoundHalfEven(num, den)
  {
    RoundNearest(num, den);
    NearestUnique(num, den, x, RoundHalfEven(num, den));
  }

  /** Two integers that both meet the two rounding rules for `num / den` are equal. */
  lemma NearestUnique(num: int, den: int, x: int, r: int)
    requires den >= 1
    requires 2 * Abs(x * den - num) < den || (2 * Abs(x * den - num) == den && x % 2 == 0)
    requires 2 * Abs(r * den - num) <= den && (2 * Abs(r * den - num) == den ==> r % 2 == 0)
    ensures x == r
  {
    var d := x - r;
    var e := x * den - num;
    var f := r * den - num;
    assert d * den == e - f;
    MulSign(d, den);
    assert -1 <= d <= 1;
    assert d != 0 ==> 2 * Abs(e) == den && 2 * Abs(f) == den;
    assert x % 2 == 0 && r % 2 == 0 ==> d % 2 == 0;
  }

  /** The `i`-th of `k` sample positions over `n` items: `round(i * (n - 1) / (k - 1))`. */
  function SampleIndex(i: int, n: int, k: int): (idx: int)
    requires 0 <= i < k && 2 <= k < n
    ensures 0 <= idx < n
  {
    SampleIndexBounds(i, n, k);
    RoundHalfEven(i * (n - 1), k - 1)
  }

  lemma SampleIndexBounds(i: int, n: int, k: int)
    requires 0 <= i < k && 2 <= k < n
    ensures 0 <= RoundHalfEven(i * (n - 1), k - 1) < n
  {
    var d := k - 1;
    var a := i * (n - 1);
    var r := RoundHalfEven(a, d);
    RoundNearest(a, d);
    MulMono(i, d, n - 1);
    assert d * (n - 1) + d == n * d;
    MulCancel(-1, r, d);
    MulCancel(r, n, d);
  }

  /** The first position is the first item and the last position the last item. */
  lemma SampleIndexEnds(n: int, k: int)
    requires 2 <= k < n
    ensures SampleIndex(0, n, k) == 0 && SampleIndex(k - 1, n, k) == n - 1
  {
    RoundUnique(0, k - 1, 0);
    RoundUnique((k - 1) * (n - 1), k - 1, n - 1);
  }

  /** Positions rise strictly, so no item is picked twice. */
  lemma {:induction false} SampleIndexIncreasing(i: int, j: int, n: int, k: int)
    requires 0 <= i < j < k && 2 <= k < n
    ensures SampleIndex(i, n, k) < SampleIndex(j, n, k)
    decreases j - i
  {
    var d := k - 1;
    var a := i * (n - 1);
    var b := (i + 1) * (n - 1);
    assert b == a + (n - 1);
    RoundNearest(a, d);
    RoundNearest(b, d);
    MulCancel(RoundHalfEven(a, d), RoundHalfEven(b, d), d);
    if i + 1 < j {
      SampleIndexIncreasing(i + 1, j, n, k);
    }
  }

  /**
   * `sample_evenly_interpolated(data, num_samples)`: an error for a negative count;
   * nothing for no samples or no data; the middle item for one sample; a copy of the
   * data when at least as many samples as items are asked for; otherwise the items at
   * the rounded, evenly spread positions.
   */
  method SampleEvenlyInterpolated<T>(data: seq<T>, numSamples: int) returns (r: Result<seq<T>, SampleError>)
    ensures r.Failure? <==> numSamples < 0
    ensures 0 <= numSamples && (numSamples == 0 || |data| == 0) ==> r == Success([])
    ensures numSamples == 1 && |data| > 0 ==> r == Success([data[|data| / 2]])
    ensures 2 <= numSamples && |data| <= numSamples && |data| > 0 ==> r == Success(data)
    ensures 2 <= numSamples < |data| ==>
      r.Success? && |r.value| == numSamples
      && r.value[0] == data[0] && r.value[numSamples - 1] == data[|data| - 1]
      && forall i :: 0 <= i < numSamples ==> r.value[i] == data[SampleIndex(i, |data|, numSamples)]
  {
    var n := |data|;
    if numSamples < 0 {
      return Failure(NegativeSamples);
    }
    if numSamples == 0 {
      return Success([]);
    }
    if n == 0 {
      return Success([]);
    }
    if numSamples == 1 {
      return Success([data[n / 2]]);
    }
    if numSamples >= n {
      return Success(data[..]);
    }
    var sampled: seq<T> := [];
    for i := 0 to numSamples
      invariant |sampled| == i
      invariant forall j :: 0 <= j < i ==> sampled[j] == data[SampleIndex(j, n, numSamples)]
    {
      var idx := RoundHalfEven(i * (n - 1), numSamples - 1);
      assert idx == SampleIndex(i, n, numSamples);
      sampled := sampled + [data[idx]];
    }
    SampleIndexEnds(n, numSamples);
    return Success(sampled);
  }
}
