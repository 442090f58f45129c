/** Facts about products, quotients and remainders on naturals, stated once so
    that the geometry proofs can stay linear. */
module Arith {

  lemma MulMonotone(a: int, b: int, c: nat)
    requires a <= b
    ensures c * a <= c * b
  {
  }

  lemma MulStep(d: int, a: int, b: int)
    requires d > 0 && a < b
    ensures d * a + d <= d * b
  {
    MulMonotone(a + 1, b, d);
    assert d * (a + 1) == d * a + d;
  }

  lemma MulPred(d: int, b: int)
    ensures d * b == d * (b - 1) + d
  {
  }

  lemma MulDistributes(n: int, s: int, a: int, b: int)
    ensures n * (s * a + b) == n * s * a + n * b
  {
  }

  /** The stride arithmetic of the row walk, with i == s * q + t. */
  lemma RowWalkIdentity(n: int, s: int, i: int, q: int, t: int, b: int, k: int)
    requires n == s * s && i == s * q + t
    ensures i * s + q * (n * s - n) + n * b + k == n * s * q + n * b + s * t + k
  {
    assert i * s == s * s * q + s * t;
    assert q * (n * s - n) == n * s * q - n * q;
    assert n * q == s * s * q;
  }

  /** The stride arithmetic of the column walk, with i == s * q + t and
      b == s * u + v. */
  lemma ColumnWalkIdentity(n: int, s: int, i: int, q: int, t: int, b: int, u: int, v: int)
    requires n == s * s && i == s * q + t && b == s * u + v
    ensures i + q * (n - s) + b * s + u * (n * s - n) == n * s * u + n * q + s * v + t
  {
    assert q * (n - s) == n * q - s * q;
    assert b * s == s * s * u + s * v;
    assert u * (n * s - n) == n * s * u - n * u;
    assert n * u == s * s * u;
  }

  /** Euclidean division has exactly one quotient and remainder. */
  lemma DivModUnique(x: int, d: int, q: int, t: int)
    requires d > 0 && 0 <= t < d && x == d * q + t
    ensures x / d == q && x % d == t
  {
    var q', t' := x / d, x % d;
    assert x == d * q' + t' && 0 <= t' < d;
    if q' < q {
      MulStep(d, q', q);
    } else if q < q' {
      MulStep(d, q, q');
    }
  }

  /** A number below d * d has a quotient below d. */
  lemma DivBelow(x: nat, d: nat)
    requires d > 0 && x < d * d
    ensures x / d < d && x % d < d
  {
    var q := x / d;
    assert x == d * q + x % d;
    if q >= d {
      MulMonotone(d, q, d);
    }
  }

  /** Position p inside chunk b of chunks of n stays below n * n. */
  lemma AffineBelow(n: int, b: int, p: int)
    requires 0 <= b < n && 0 <= p < n
    ensures 0 <= n * b + p < n * n
  {
    MulMonotone(b, n - 1, n);
    MulMonotone(0, b, n);
    assert n * (n - 1) == n * n - n;
  }
}
