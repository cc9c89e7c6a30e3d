/** Division with remainder by a positive number. */
module Divisions {

  lemma MulOrder(d: nat, x: nat, y: nat)
    requires x <= y
    ensures d * x <= d * y
  {}

  /** Quotient and remainder are the only such pair. */
  lemma DivUnique(n: nat, d: nat, q: nat, r: nat)
    requires d > 0 && n == d * q + r && r < d
    ensures n / d == q && n % d == r
  {
    var q' := n / d;
    assert n == d * q' + n % d;
    if q' < q {
      MulOrder(d, q' + 1, q);
      assert false;
    } else if q < q' {
      MulOrder(d, q + 1, q');
      assert false;
    }
  }

  lemma DivAtMost(n: nat, d: nat)
    requires d > 0
    ensures n / d <= n
  {
    assert n == d * (n / d) + n % d;
    MulOrder(n / d, 1, d);
  }

  /** Going `d` further is one quotient further. */
  lemma DivNext(n: nat, d: nat)
    requires d > 0
    ensures (n + d) / d == n / d + 1
  {
    assert n == d * (n / d) + n % d;
    DivUnique(n + d, d, n / d + 1, n % d);
  }

  /** The largest multiple of `d` up to `n`. */
  function RoundDown(n: nat, d: nat): (r: nat)
    requires d > 0
    ensures r <= n
  {
    assert n == d * (n / d) + n % d;
    MulOrder(d, 0, n / d);
    n - n % d
  }

  lemma RoundDownIs(n: nat, d: nat)
    requires d > 0
    ensures RoundDown(n, d) / d == n / d && RoundDown(n, d) % d == 0
  {
    assert n == d * (n / d) + n % d;
    DivUnique(RoundDown(n, d), d, n / d, 0);
  }

  lemma EvenUnique(n: nat, m: nat, d: nat)
    requires d > 0 && n / d == m / d && n % d == 0 && m % d == 0
    ensures n == m
  {
    assert n == d * (n / d) + n % d && m == d * (m / d) + m % d;
  }
}
