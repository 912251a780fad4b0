/**
 Division facts stated once, so that the models need no non-linear reasoning of their own.

 Dividends are integers and divisors naturals: the source divides unsigned numbers only, where
 Dafny's division and remainder are the machine's.

 Each lemma names its products as variables, which keeps them apart from their callers' own.
 */
module Arith {

  lemma MulAtLeast(n: nat, k: int)
    requires k >= 1
    ensures n * k >= n
  {
    assert n * k == n + n * (k - 1);
  }

  /** Quotient and remainder are unique. */
  lemma DivUnique(a: int, n: nat, q: int, r: int)
    requires n > 0 && a == n * q + r && 0 <= r < n
    ensures a / n == q && a % n == r
  {
    var q', r' := a / n, a % n;
    assert a == n * q' + r';
    assert n * (q - q') == n * q - n * q' == r' - r;
    if q > q' {
      MulAtLeast(n, q - q');
    } else if q < q' {
      assert n * (q' - q) == n * q' - n * q;
      MulAtLeast(n, q' - q);
    }
  }

  /** Adding a whole multiple moves the quotient and keeps the remainder. */
  lemma DivAdd(a: int, n: nat, k: int)
    requires n > 0
    ensures (a + n * k) / n == a / n + k && (a + n * k) % n == a % n
  {
    assert n * (a / n + k) == n * (a / n) + n * k;
    DivUnique(a + n * k, n, a / n + k, a % n);
  }

  lemma ModAdd(a: int, b: int, n: nat)
    requires n > 0
    ensures (a + b) % n == (a % n + b) % n
  {
    assert a + b == (a % n + b) + n * (a / n);
    DivAdd(a % n + b, n, a / n);
  }

  lemma DivMonotone(a: int, b: int, n: nat)
    requires n > 0 && a <= b
    ensures a / n <= b / n
  {
    var d := a / n - b / n;
    assert n * d == n * (a / n) - n * (b / n);
    if d >= 1 {
      MulAtLeast(n, d);
    }
  }

  lemma MulMonotone(a: int, b: int, c: nat)
    requires a <= b
    ensures a * c <= b * c
  {
    assert b * c - a * c == (b - a) * c;
    if b > a {
      MulAtLeast(c, b - a);
    }
  }
}
