/** Facts about division that the modules share. */
module Arithmetic {

  lemma Multiple(n: int, d: int)
    requires n > 0
    ensures (d >= 1 ==> n * d >= n) && (d <= -1 ==> n * d <= -n)
  {
  }

  lemma Positive(a: nat, b: nat)
    requires a > 0 && b > 0
    ensures a * b > 0
  {
  }

  /** Quotient and remainder are unique. */
  lemma Quotient(n: int, q: int, r: int, u: int)
    requires 0 <= r < n && u == q * n + r
    ensures u / n == q && u % n == r
  {
    var d := u / n - q;
    assert u == n * (u / n) + u % n;
    assert n * (u / n) == n * q + n * d;
    assert n * d == r - u % n;
    Multiple(n, d);
  }

  lemma QuotientBound(a: nat, q: nat, n: nat)
    requires n > 0 && a < q * n
    ensures a / n < q
  {
    var d := q - a / n;
    assert a == n * (a / n) + a % n;
    assert n * q == n * (a / n) + n * d;
    assert n * d > 0;
    Multiple(n, d);
  }

  lemma QuotientOfNext(k: nat, n: nat)
    requires n > 0 && k >= n
    ensures (k - n) / n == k / n - 1 && (k - n) % n == k % n
  {
    assert k == n * (k / n) + k % n;
    assert n * (k / n) == n * (k / n - 1) + n;
    Quotient(n, k / n - 1, k % n, k - n);
  }

  lemma QuotientOfSmall(k: nat, n: nat)
    requires k < n
    ensures k / n == 0 && k % n == k
  {
    Quotient(n, 0, k, k);
  }

  lemma Cancel(a: nat, b: nat, n: nat)
    requires a * n < b * n
    ensures a < b
  {
  }

  lemma QuotientIsNat(a: nat, n: nat)
    requires n > 0
    ensures a / n >= 0 && 0 <= a % n < n
  {
    assert a == n * (a / n) + a % n;
    Multiple(n, a / n);
  }

  lemma ProductIsNat(a: nat, b: nat)
    ensures a * b >= 0
  {
  }
}
