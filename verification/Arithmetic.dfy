/**
 Machine words and a few facts of arithmetic that several components rest on.
 */
module Arithmetic {
  type byte = x: int | 0 <= x < 256

  const U32: int := 0x1_0000_0000

  lemma AtLeastOnce(k: nat, n: nat)
    requires k > 0
    ensures k * n >= n
  {
    assert k * n == (k - 1) * n + n;
  }

  /** Quotient and remainder are unique. */
  lemma DivMod(x: int, n: nat, q: int, r: nat)
    requires n > 0 && x == q * n + r && r < n
    ensures x / n == q && x % n == r
  {
    var q', r' := x / n, x % n;
    assert x == q' * n + r';
    if q > q' {
      assert (q - q') * n == q * n - q' * n;
      AtLeastOnce(q - q', n);
    } else if q < q' {
      assert (q' - q) * n == q' * n - q * n;
      AtLeastOnce(q' - q, n);
    }
  }

  lemma Quotient(x: nat, n: nat)
    requires n > 0
    ensures x == x / n * n + x % n && x % n < n && x / n * n <= x
  {
  }

  lemma {:induction false} SubsetSize<T>(a: set<T>, b: set<T>)
    requires a <= b
    ensures |a| <= |b|
  {
    assert b == a + (b - a);
  }
}
