/** Facts about Euclidean division by a positive divisor that the solver does not find alone. */
module Arithmetic {

  /** Quotient and remainder are unique. */
  lemma DivModUnique(x: nat, d: nat, q: nat, m: nat)
    requires 0 <= m < d && x == q * d + m
    ensures x / d == q && x % d == m
  {
    var q', m' := x / d, x % d;
    assert x == q' * d + m';
    assert (q - q') * d == m' - m;
    if q > q' {
      AtLeastOnce(q - q', d);
      assert false;
    } else if q < q' {
      AtLeastOnce(q' - q, d);
      assert false;
    }
  }

  lemma AtLeastOnce(t: int, d: nat)
    requires t >= 1
    ensures t * d >= d
  {
    assert t * d == (t - 1) * d + d;
  }

  lemma ModSmall(k: nat, d: nat)
    requires k < d
    ensures k % d == k
  {
  }

  lemma ModShift(k: nat, d: nat)
    requires 0 < d <= k
    ensures (k - d) % d == k % d
  {
    var q, m := (k - d) / d, (k - d) % d;
    assert k - d == q * d + m;
    assert k == (q + 1) * d + m;
    DivModUnique(k, d, q + 1, m);
  }

  /** Counting up by one: the remainder steps, or wraps to zero and carries into the quotient. */
  lemma DivModStep(m: nat, d: nat)
    requires d > 0
    ensures m % d < d - 1 ==> (m + 1) % d == m % d + 1 && (m + 1) / d == m / d
    ensures m % d == d - 1 ==> (m + 1) % d == 0 && (m + 1) / d == m / d + 1
  {
    var q, r := m / d, m % d;
    assert m == q * d + r;
    if r < d - 1 {
      DivModUnique(m + 1, d, q, r + 1);
    } else {
      assert m + 1 == (q + 1) * d + 0;
      DivModUnique(m + 1, d, q + 1, 0);
    }
  }
}
