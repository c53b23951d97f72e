/** Facts about integer multiplication and Euclidean division that the
    layout and permission proofs share. */
module Arithmetic {

  lemma MulMonotonic(a: int, b: int, c: nat)
    requires a <= b
    ensures a * c <= b * c
  {
    assert b * c == a * c + (b - a) * c;
  }

  lemma MulStep(n: int, c: int)
    ensures (n - 1) * c + c == n * c
  {
  }

  /** Euclidean division has a unique quotient and remainder. */
  lemma RemainderUnique(n: nat, p: nat, q: nat, t: nat)
    requires p > 0 && t < p && n == q * p + t
    ensures n % p == t && n / p == q
  {
    var q', t' := n / p, n % p;
    assert n == q' * p + t';
    if q' < q {
      MulMonotonic(q' + 1, q, p);
    } else if q' > q {
      MulMonotonic(q + 1, q', p);
    }
  }

  /** Taking `n` modulo `2 * m` keeps its lowest bit and, above it, `n / 2`
      modulo `m`. */
  lemma HalveModulus(n: nat, m: nat)
    requires m > 0
    ensures n % (2 * m) == n % 2 + 2 * ((n / 2) % m)
    ensures (n % (2 * m)) % 2 == n % 2
    ensures (n % (2 * m)) / 2 == (n / 2) % m
  {
    var a, r := n / 2, n % 2;
    var q, t := a / m, a % m;
    assert a == q * m + t;
    assert n == q * (2 * m) + (2 * t + r);
    RemainderUnique(n, 2 * m, q, 2 * t + r);
    RemainderUnique(2 * t + r, 2, t, r);
  }
}
