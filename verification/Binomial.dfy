/**
 `binomial` of `src/parity.rs`: the column that says what independence would have predicted.

 The source multiplies a coefficient up term by term; here it is Pascal's, and the chances it gives
 are a distribution.
 */
module Binomial {

  /** Pascal's rule. */
  function Choose(n: nat, k: nat): nat {
    if k == 0 then 1 else if n == 0 then 0 else Choose(n - 1, k - 1) + Choose(n - 1, k)
  }

  function Pow(x: real, n: nat): real { if n == 0 then 1.0 else x * Pow(x, n - 1) }

  /** C(n,k) p^k (1-p)^(n-k). */
  function Term(n: nat, k: nat, p: real): real
    requires k <= n
  {
    Choose(n, k) as real * Pow(p, k) * Pow(1.0 - p, n - k)
  }

  lemma {:induction false} ChooseBeyond(n: nat, k: nat)
    requires k > n
    ensures Choose(n, k) == 0
  {
    if n > 0 {
      ChooseBeyond(n - 1, k - 1);
      ChooseBeyond(n - 1, k);
    }
  }

  /** Each coefficient from the one before it. */
  lemma {:induction false} ChooseStep(n: nat, k: nat)
    requires k < n
    ensures (k + 1) * Choose(n, k + 1) == (n - k) * Choose(n, k)
  {
    var a, b := Choose(n - 1, k), Choose(n - 1, k + 1);
    assert Choose(n, k + 1) == a + b;
    if k + 1 <= n - 1 {
      ChooseStep(n - 1, k);
      assert (k + 1) * b == (n - 1 - k) * a;
    } else {
      ChooseBeyond(n - 1, k + 1);
    }
    assert (k + 1) * (a + b) == (k + 1) * a + (k + 1) * b;
    if k == 0 {
      assert Choose(n, 0) == 1 && a == 1;
    } else {
      var c := Choose(n - 1, k - 1);
      assert Choose(n, k) == c + a;
      ChooseStep(n - 1, k - 1);
      assert k * a == (n - k) * c;
      Regroup(n, k, a, c);
    }
  }

  lemma Regroup(n: nat, k: nat, a: nat, c: nat)
    requires 0 < k < n && k * a == (n - k) * c
    ensures (k + 1) * a + (n - 1 - k) * a == (n - k) * (c + a)
  {
    assert (k + 1) * a + (n - 1 - k) * a == n * a;
    assert (n - k) * (c + a) == (n - k) * c + (n - k) * a;
    assert (n - k) * a + k * a == n * a;
  }

  lemma NextCoefficient(n: nat, i: nat)
    requires i < n
    ensures Choose(n, i) as real * (n - i) as real / (i + 1) as real == Choose(n, i + 1) as real
  {
    ChooseStep(n, i);
  }

  /** The running product is C(n,k) at every step. */
  method Coefficient(n: nat, k: nat) returns (c: real)
    requires k <= n
    ensures c == Choose(n, k) as real
  {
    c := 1.0;
    for i := 0 to k
      invariant c == Choose(n, i) as real
    {
      NextCoefficient(n, i);
      c := c * (n - i) as real / (i + 1) as real;
    }
  }

  /** `binomial`. */
  method Predicted(n: nat, k: nat, p: real) returns (r: real)
    requires k <= n
    ensures r == Term(n, k, p)
  {
    var c := Coefficient(n, k);
    r := c * Pow(p, k) * Pow(1.0 - p, n - k);
  }

  /* ---------- the terms are a distribution ---------- */

  function TermSum(n: nat, lo: nat, hi: nat, p: real): real
    requires lo <= hi <= n + 1
    decreases hi - lo
  {
    if lo == hi then 0.0 else TermSum(n, lo, hi - 1, p) + Term(n, hi - 1, p)
  }

  /** A term, or nothing outside 0..n. */
  function TermOrZero(n: nat, k: int, p: real): real {
    if 0 <= k <= n then Term(n, k, p) else 0.0
  }

  /** Conditioning on the last trial: the terms obey the same recurrence as the chances. */
  lemma {:induction false} PascalTerm(n: nat, k: nat, p: real)
    requires n > 0 && k <= n
    ensures Term(n, k, p) == p * TermOrZero(n - 1, k - 1, p) + (1.0 - p) * TermOrZero(n - 1, k, p)
  {
    var q := 1.0 - p;
    if k == 0 {
      NoneOf(n, p);
    } else if k == n {
      AllOf(n, p);
    } else {
      var a, b := Choose(n - 1, k - 1) as real, Choose(n - 1, k) as real;
      var x, z := Pow(p, k - 1), Pow(q, n - 1 - k);
      assert Choose(n, k) as real == a + b;
      assert Pow(p, k) == p * x && Pow(q, n - k) == q * z;
      Distribute(a, b, p, x, q, z, Term(n, k, p), TermOrZero(n - 1, k - 1, p), TermOrZero(n - 1, k, p));
    }
  }

  lemma {:induction false} NoneOf(n: nat, p: real)
    requires n > 0
    ensures Term(n, 0, p) == p * TermOrZero(n - 1, -1, p) + (1.0 - p) * TermOrZero(n - 1, 0, p)
  {
    assert Choose(n, 0) == 1 && Choose(n - 1, 0) == 1 && Pow(p, 0) == 1.0;
    assert Term(n, 0, p) == Pow(1.0 - p, n) && TermOrZero(n - 1, 0, p) == Pow(1.0 - p, n - 1);
    assert Pow(1.0 - p, n) == (1.0 - p) * Pow(1.0 - p, n - 1);
  }

  lemma {:induction false} AllOf(n: nat, p: real)
    requires n > 0
    ensures Term(n, n, p) == p * TermOrZero(n - 1, n - 1, p) + (1.0 - p) * TermOrZero(n - 1, n, p)
  {
    ChooseBeyond(n - 1, n);
    assert Pow(1.0 - p, 0) == 1.0;
    var c, x := Choose(n - 1, n - 1) as real, Pow(p, n - 1);
    assert Choose(n, n) as real == c && Pow(p, n) == p * x;
    assert Term(n, n, p) == c * (p * x) && TermOrZero(n - 1, n - 1, p) == c * x;
  }

  lemma Distribute(a: real, b: real, p: real, x: real, q: real, z: real, t: real, u: real, v: real)
    requires t == (a + b) * (p * x) * (q * z)
    requires u == a * x * (q * z) && v == b * (p * x) * z
    ensures t == p * u + q * v
  {
    var w := p * q * (x * z);
    assert t == (a + b) * w;
    assert p * u == a * w;
    assert q * v == b * w;
  }

  /** The sum of the first `hi` values of a row. */
  function RowSum(row: int -> real, hi: nat): real {
    if hi == 0 then 0.0 else RowSum(row, hi - 1) + row(hi - 1)
  }

  predicate Adds(mix: (real, real) -> real, a: real, b: real, c: real, d: real) {
    mix(a, b) + mix(c, d) == mix(a + c, b + d)
  }

  /** When each row mixes the one above with its shift, so do their sums. */
  lemma {:induction false} SumsMix(above: int -> real, below: int -> real, mix: (real, real) -> real, hi: nat)
    requires mix(0.0, 0.0) == 0.0 && above(-1) == 0.0
    requires forall a, b, c, d :: Adds(mix, a, b, c, d)
    requires forall k :: 0 <= k < hi ==> below(k) == mix(above(k - 1), above(k))
    ensures RowSum(below, hi) == mix(if hi == 0 then 0.0 else RowSum(above, hi - 1), RowSum(above, hi))
  {
    if hi > 0 {
      SumsMix(above, below, mix, hi - 1);
      var shifted := if hi == 1 then 0.0 else RowSum(above, hi - 2);
      assert Adds(mix, shifted, RowSum(above, hi - 1), above(hi - 2), above(hi - 1));
      assert below(hi - 1) == mix(above(hi - 2), above(hi - 1));
    }
  }

  function Blend(p: real): (real, real) -> real { (a, b) => p * a + (1.0 - p) * b }

  lemma BlendAdds(p: real, a: real, b: real, c: real, d: real)
    ensures Adds(Blend(p), a, b, c, d)
  {
    assert p * (a + c) == p * a + p * c;
    assert (1.0 - p) * (b + d) == (1.0 - p) * b + (1.0 - p) * d;
  }

  function TermRow(n: nat, p: real): int -> real { k => TermOrZero(n, k, p) }

  lemma {:induction false} RowSumsToOne(n: nat, p: real)
    ensures RowSum(TermRow(n, p), n + 1) == 1.0
  {
    if n == 0 {
      assert Choose(0, 0) == 1 && Pow(p, 0) == 1.0 && Pow(1.0 - p, 0) == 1.0;
      assert RowSum(TermRow(0, p), 0) == 0.0;
    } else {
      var above := TermRow(n - 1, p);
      RowSumsToOne(n - 1, p);
      MixRows(n, p);
      assert RowSum(above, n + 1) == RowSum(above, n) + above(n);
      assert above(n) == 0.0;
      assert Blend(p)(1.0, 1.0) == 1.0;
    }
  }

  lemma {:induction false} MixRows(n: nat, p: real)
    requires n > 0
    ensures RowSum(TermRow(n, p), n + 1) == Blend(p)(RowSum(TermRow(n - 1, p), n), RowSum(TermRow(n - 1, p), n + 1))
  {
    var above, below := TermRow(n - 1, p), TermRow(n, p);
    forall a, b, c, d ensures Adds(Blend(p), a, b, c, d) {
      BlendAdds(p, a, b, c, d);
    }
    forall k | 0 <= k < n + 1 ensures below(k) == Blend(p)(above(k - 1), above(k)) {
      PascalTerm(n, k, p);
    }
    SumsMix(above, below, Blend(p), n + 1);
  }

  lemma {:induction false} TermSumIsRowSum(n: nat, hi: nat, p: real)
    requires hi <= n + 1
    ensures TermSum(n, 0, hi, p) == RowSum(TermRow(n, p), hi)
    decreases hi
  {
    if hi > 0 {
      TermSumIsRowSum(n, hi - 1, p);
    }
  }

  /** The terms over all k sum to one. */
  lemma {:induction false} TermsSumToOne(n: nat, p: real)
    ensures TermSum(n, 0, n + 1, p) == 1.0
  {
    TermSumIsRowSum(n, n + 1, p);
    RowSumsToOne(n, p);
  }

  lemma {:induction false} TermSumSplit(n: nat, lo: nat, mid: nat, hi: nat, p: real)
    requires lo <= mid <= hi <= n + 1
    ensures TermSum(n, lo, hi, p) == TermSum(n, lo, mid, p) + TermSum(n, mid, hi, p)
    decreases hi
  {
    if mid < hi {
      TermSumSplit(n, lo, mid, hi - 1, p);
    }
  }

  lemma {:induction false} PowNonNegative(x: real, n: nat)
    requires x >= 0.0
    ensures Pow(x, n) >= 0.0
  {
    if n > 0 {
      PowNonNegative(x, n - 1);
    }
  }

  lemma Products(a: real, b: real, c: real)
    requires a >= 0.0 && b >= 0.0 && c >= 0.0
    ensures a * b * c >= 0.0
  {
    assert a * b >= 0.0;
  }

  lemma {:induction false} TermSumNonNegative(n: nat, lo: nat, hi: nat, p: real)
    requires lo <= hi <= n + 1 && 0.0 <= p <= 1.0
    ensures TermSum(n, lo, hi, p) >= 0.0
    decreases hi
  {
    if lo < hi {
      TermSumNonNegative(n, lo, hi - 1, p);
      PowNonNegative(p, hi - 1);
      PowNonNegative(1.0 - p, n - (hi - 1));
      Products(Choose(n, hi - 1) as real, Pow(p, hi - 1), Pow(1.0 - p, n - (hi - 1)));
    }
  }

  /** The `4+` row: one minus the first four predictions, for a group of at least three. */
  method FourOrMore(n: nat, p: real) returns (r: real)
    requires n >= 3
    ensures r == TermSum(n, 4, n + 1, p)
    ensures 0.0 <= p <= 1.0 ==> 0.0 <= r <= 1.0
  {
    var sum := 0.0;
    for j := 0 to 4
      invariant sum == TermSum(n, 0, j, p)
    {
      var t := Predicted(n, j, p);
      sum := sum + t;
    }
    r := 1.0 - sum;
    TermsSumToOne(n, p);
    TermSumSplit(n, 0, 4, n + 1, p);
    if 0.0 <= p <= 1.0 {
      TermSumNonNegative(n, 4, n + 1, p);
      TermSumNonNegative(n, 0, 4, p);
    }
  }
}
