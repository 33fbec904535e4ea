// Division facts used throughout: nonlinear steps are proved once, here.
module Arith {

  lemma MulOutside(m: nat, d: int)
    ensures d >= 1 ==> m * d >= m
    ensures d <= -1 ==> m * d <= 0 - m
  {
  }

  lemma DivModUnique(m: nat, x: int, q: int, r: int)
    requires m > 0 && x == m * q + r && 0 <= r < m
    ensures x / m == q && x % m == r
  {
    var d := x / m - q;
    assert m * d == r - x % m;
    MulOutside(m, d);
  }

  lemma ModOfShift(m: nat, q: int, r: int)
    requires m > 0
    ensures (m * q + r) % m == r % m
  {
    var k := r / m;
    assert m * q + r == m * (q + k) + r % m;
    DivModUnique(m, m * q + r, q + k, r % m);
  }

  lemma ModSeparates(i: nat, j: nat, c: nat)
    requires 0 < c && i < j < i + c
    ensures i % c != j % c
  {
    var q := j / c - i / c;
    assert j - i == c * q + (j % c - i % c);
    if q >= 1 {
      assert c * q >= c;
    } else {
      assert c * q <= 0;
    }
  }

  lemma ModAbsorbs(m: nat, a: int, b: int)
    requires m > 0
    ensures (a % m + b) % m == (a + b) % m
  {
    assert a + b == m * (a / m) + (a % m + b);
    ModOfShift(m, a / m, a % m + b);
  }

  lemma DivBounds(p: nat, x: nat)
    requires p > 0
    ensures p * (x / p) <= x < p * (x / p + 1)
  {
    assert x == p * (x / p) + x % p;
  }

  lemma DivMod(p: nat, x: int)
    requires p > 0
    ensures x == p * (x / p) + x % p && x / p * p == p * (x / p)
  {
  }

  lemma DivMonotone(p: nat, x: nat, y: nat)
    requires p > 0 && x <= y
    ensures x / p <= y / p
  {
    var d := y / p - x / p;
    assert p * d == y - y % p - (x - x % p);
    MulOutside(p, d);
  }

  lemma MulStep(n: int, p: int)
    ensures (n + 1) * p == n * p + p
  {
  }

  lemma MulMonotone(a: nat, b: nat, c: nat)
    requires a <= b
    ensures a * c <= b * c
  {
  }

  /** `n` times `x`, by addition. */
  function Sum(n: nat, x: nat): nat {
    if n == 0 then 0 else Sum(n - 1, x) + x
  }

  lemma {:induction false} SumIsProduct(n: nat, x: nat)
    ensures Sum(n, x) == n * x
  {
    if n > 0 {
      SumIsProduct(n - 1, x);
      MulStep(n - 1, x);
    }
  }

  lemma MulAssoc(x: int, y: int, z: int)
    ensures x * (y * z) == (x * y) * z
  {
  }

  lemma MulDistributes(x: int, y: int, z: int)
    ensures x * (y + z) == x * y + x * z
  {
  }

  lemma Regroup(p: int, a: int, r: int, q: int)
    ensures (p * a + r) * q == (p * q) * a + r * q
  {
    MulAssoc(p, q, a);
    MulAssoc(p, a, q);
  }

  lemma ScaleBound(r: nat, p: nat, q: nat)
    requires r < p && q > 0
    ensures r * q < p * q
  {
  }

  lemma ModScaled(n: nat, p: nat, q: nat)
    requires p > 0 && q > 0
    ensures p * q > 0 && n * q % (p * q) == n % p * q
  {
    var a, r := n / p, n % p;
    Regroup(p, a, r, q);
    ScaleBound(r, p, q);
    ScaleBound(0, p, q);
    DivModUnique(p * q, n * q, a, r * q);
  }
}
