/** Facts about products, quotients and remainders of unknowns. */
module Arithmetic {

  lemma MulMonotone(a: int, b: int, size: nat)
    requires a <= b
    ensures a * size <= b * size
  {
  }

  /** Quotient and remainder are unique. */
  lemma QuotientUnique(size: nat, a: int, b: int, x: nat, y: nat)
    requires x < size && y < size && a * size + x == b * size + y
    ensures a == b && x == y
  {
    if a < b {
      MulMonotone(a + 1, b, size);
    } else if b < a {
      MulMonotone(b + 1, a, size);
    }
  }

  lemma SameParts(size: nat, j: nat, k: nat)
    requires 0 < size && j / size == k / size && j % size == k % size
    ensures j == k
  {
    assert j == j / size * size + j % size && k == k / size * size + k % size;
  }

  lemma AddModulus(x: nat, n: nat)
    requires 0 < n
    ensures (x + n) % n == x % n && (x + n) / n == x / n + 1
  {
    assert x == x / n * n + x % n;
    assert x + n == (x + n) / n * n + (x + n) % n;
    assert x + n == (x / n + 1) * n + x % n;
    QuotientUnique(n, x / n + 1, (x + n) / n, x % n, (x + n) % n);
  }

  lemma SmallModulus(x: nat, n: nat)
    requires x < n
    ensures x % n == x && x / n == 0
  {
  }

  lemma Remainder(u: nat, q: nat, d: nat, r: nat)
    requires u == q * d + r && r < d
    ensures u % d == r && u / d == q
  {
    QuotientUnique(d, u / d, q, u % d, r);
  }

  /** Whole multiples do not change a remainder. */
  lemma SameRemainder(u: nat, k: nat, d: nat, s: nat)
    requires d > 0 && u == k * d + s
    ensures u % d == s % d
  {
    assert u == (k + s / d) * d + s % d;
    Remainder(u, k + s / d, d, s % d);
  }

  /** How many pieces of `size` hold `x`. */
  function CeilDiv(x: nat, size: nat): nat
    requires 0 < size
  {
    (x + size - 1) / size
  }

  lemma CeilDivBounds(x: nat, size: nat, n: nat)
    requires 0 < size
    ensures CeilDiv(x, size) <= n <==> x <= n * size
  {
    var q := CeilDiv(x, size);
    var r := (x + size - 1) % size;
    assert x + size - 1 == q * size + r;
    if q <= n {
      MulMonotone(q, n, size);
    } else {
      MulMonotone(n + 1, q, size);
    }
  }

  lemma CeilDivMonotone(a: nat, b: nat, size: nat)
    requires 0 < size
    ensures a <= b ==> CeilDiv(a, size) <= CeilDiv(b, size)
  {
    if a <= b {
      CeilDivBounds(b, size, CeilDiv(b, size));
      CeilDivBounds(a, size, CeilDiv(b, size));
    }
  }

  /** Whole pieces are counted by dividing. */
  lemma CeilDivWhole(k: nat, size: nat)
    requires 0 < size
    ensures CeilDiv(k * size, size) == k && k * size / size == k && k * size % size == 0
  {
    Remainder(k * size + size - 1, k, size, size - 1);
    Remainder(k * size, k, size, 0);
  }

  function Power2(n: nat): (p: nat)
    ensures p > 0
  {
    if n == 0 then 1 else 2 * Power2(n - 1)
  }

  lemma {:induction false} PowerSum(m: nat, n: nat)
    ensures Power2(m + n) == Power2(m) * Power2(n)
  {
    if m > 0 {
      PowerSum(m - 1, n);
    }
  }
}
