/** Division with remainder, where the divisor is not a constant. */
module Arithmetic {

  lemma MulMono(a: nat, b: nat, p: nat)
    requires a <= b
    ensures a * p <= b * p
  {
  }

  lemma Parts(n: nat, p: nat) returns (q: nat, high: nat)
    requires p > 0
    ensures high == q * p && n == high + n % p && n % p < p
  {
    q := n / p;
    high := q * p;
  }

  lemma ModAtMost(n: nat, p: nat)
    requires p > 0
    ensures n % p <= n
  {
    MulMono(0, n / p, p);
    assert n == (n / p) * p + n % p;
  }

  lemma ModUnique(q: nat, p: nat, r: nat)
    requires r < p
    ensures (q * p + r) / p == q && (q * p + r) % p == r
  {
    var x := q * p + r;
    var d := x / p;
    assert x == d * p + x % p;
    if d < q {
      MulMono(d + 1, q, p);
    } else if d > q {
      MulMono(q + 1, d, p);
    }
  }
}
