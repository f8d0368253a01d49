/** Facts about Euclidean division used by the address, entry and layout
    arithmetic. */
module Arith {
  lemma MulAtLeast(k: int, m: int)
    requires k >= 1 && m > 0
    ensures k * m >= m
  {
  }

  lemma MulLeBound(r: nat, b: nat, a: nat)
    requires r < b && a > 0
    ensures r * a + a <= b * a
  {
    assert (b - r) * a >= a by { MulAtLeast(b - r, a); }
  }

  /** Division by a positive number has a unique quotient and remainder. */
  lemma DivModUnique(x: int, m: int, q: int, r: int)
    requires 0 < m && 0 <= r < m && x == q * m + r
    ensures x / m == q && x % m == r
  {
    var q', r' := x / m, x % m;
    assert q' * m + r' == q * m + r;
    if q' > q {
      assert (q' - q) * m == r - r';
      MulAtLeast(q' - q, m);
    } else if q' < q {
      assert (q - q') * m == r' - r;
      MulAtLeast(q - q', m);
    }
  }

  /** Reducing modulo a multiple first does not change the remainder. */
  lemma ModOfModMultiple(x: nat, m: nat, k: nat)
    requires m > 0 && k > 0
    ensures (x % (m * k)) % m == x % m
  {
    var q, r := x / (m * k), x % (m * k);
    assert x == (q * k) * m + r;
    var q2, r2 := r / m, r % m;
    assert r == q2 * m + r2;
    assert x == (q * k + q2) * m + r2;
    DivModUnique(x, m, q * k + q2, r2);
  }

  /** Dividing in two steps is dividing by the product. */
  lemma DivDiv(x: nat, a: nat, b: nat)
    requires a > 0 && b > 0
    ensures x / a / b == x / (a * b)
  {
    var q1, r1 := x / a, x % a;
    var q2, r2 := q1 / b, q1 % b;
    assert x == q1 * a + r1;
    assert q1 == q2 * b + r2;
    assert q1 * a == q2 * b * a + r2 * a;
    assert x == q2 * (a * b) + (r2 * a + r1);
    MulLeBound(r2, b, a);
    DivModUnique(x, a * b, q2, r2 * a + r1);
  }
}
