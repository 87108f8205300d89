/** Facts about products and floor division that the solver is spared from rediscovering. */
module Arithmetic {

  lemma MulMonotone(a: nat, x: int, y: int)
    requires x <= y
    ensures a * x <= a * y && x * a <= y * a
  {
  }

  lemma DivisionBounds(n: nat, d: nat)
    requires d > 0
    ensures n / d * d <= n < (n / d + 1) * d
    ensures 0 <= n / d <= n
  {
    assert n == n / d * d + n % d;
    MulMonotone(n / d, 1, d);
  }

  lemma UniqueRemainder(x: nat, m: nat, q: nat, r: nat)
    requires r < m && x == m * q + r
    ensures x / m == q && x % m == r
  {
    var d := x / m - q;
    assert m * d == r - x % m;
  }

  lemma ModShift(x: nat, k: nat, m: nat)
    requires m > 0
    ensures (x + m * k) % m == x % m
  {
    var q, r := DivMod(x, m);
    assert m * (q + k) == m * q + m * k;
    UniqueRemainder(x + m * k, m, q + k, r);
  }

  lemma DivNat(x: nat, d: nat)
    requires d > 0
    ensures 0 <= x / d <= x
  {
    DivisionBounds(x, d);
  }

  lemma DivMod(x: nat, d: nat) returns (q: nat, r: nat)
    requires d > 0
    ensures x == d * q + r && r < d && x / d == q && x % d == r
  {
    DivisionBounds(x, d);
    q, r := x / d, x % d;
  }

  /** One more digit keeps a value below the next power. */
  lemma HornerBound(radix: nat, v: nat, m: nat, digit: nat)
    requires v < m && digit < radix
    ensures radix * v + digit < radix * m
  {
    MulMonotone(radix, v + 1, m);
    assert radix * (v + 1) == radix * v + radix;
  }

  lemma QuotientBelow(x: nat, d: nat, q: nat, r: nat, m: nat)
    requires x == d * q + r && x < d * m
    ensures q < m
  {
    if q >= m {
      MulMonotone(d, m, q);
      assert false;
    }
  }

  /** A larger divisor gives a smaller quotient. */
  lemma DivAntitone(n: nat, a: nat, b: nat)
    requires 0 < a <= b
    ensures n / b <= n / a
  {
    DivisionBounds(n, a);
    DivisionBounds(n, b);
    if n / b > n / a {
      MulMonotone(a, n / a + 1, n / b);
      MulMonotone(n / b, a, b);
      assert false;
    }
  }
}
