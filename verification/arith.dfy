/** Facts about multiplication by a positive integer, which the solver does not find alone. */
module Arith {

  /** The sign of `d * k` follows the sign of `d`, and is at least `k` away from zero. */
  lemma MulSign(d: int, k: int)
    requires k >= 1
    ensures d >= 1 ==> d * k >= k
    ensures d <= -1 ==> d * k <= -k
    ensures d == 0 ==> d * k == 0
  {
  }

  /** Multiplying by a positive `k` keeps a non-negative order. */
  lemma MulMono(i: int, j: int, k: int)
    requires 0 <= i <= j && k >= 1
    ensures 0 <= i * k <= j * k
  {
    assert j * k == i * k + (j - i) * k;
  }

  /** Multiplying by a positive `k` keeps a strict order. */
  lemma MulStrict(i: int, j: int, k: int)
    requires 0 <= i < j && k >= 1
    ensures i * k < j * k
  {
    assert j * k == i * k + (j - i) * k;
  }

  /** A strict order between two multiples of a positive `k` is one between the factors. */
  lemma MulCancel(a: int, b: int, k: int)
    requires k >= 1 && a * k < b * k
    ensures a < b
  {
    assert (b - a) * k == b * k - a * k;
    MulSign(b - a, k);
  }

  /** A non-negative multiple of `k` is its quotient times `k`. */
  lemma MultipleQuotient(t: int, k: int)
    requires k >= 1 && t >= 0 && t % k == 0
    ensures t / k >= 0 && (t / k) * k == t
  {
  }

  /** `i * k` leaves no remainder when divided by `k`. */
  lemma MultipleRemainder(i: int, k: int)
    requires k >= 1
    ensures (i * k) % k == 0
  {
    var q := (i * k) / k;
    var r := (i * k) % k;
    assert (i - q) * k == r;
    MulSign(i - q, k);
  }
}
