/** Division with remainder. */
module Arithmetic {

  lemma DivisionLaw(a: nat, k: nat)
    requires 0 < k
    ensures k * (a / k) <= a < k * (a / k) + k && a == k * (a / k) + a % k
  {
  }

  lemma {:induction false} ProductStep(x: nat, y: nat, k: nat)
    requires x < y
    ensures k * x + k <= k * y
  {
    if x + 1 < y { ProductStep(x, y - 1, k); }
    assert k * y == k * (y - 1) + k;
  }

  lemma QuotientMonotone(a: nat, b: nat, k: nat)
    requires a <= b && 0 < k
    ensures a / k <= b / k
  {
    if b / k < a / k {
      DivisionLaw(a, k);
      DivisionLaw(b, k);
      ProductStep(b / k, a / k, k);
    }
  }

  /** Quotient and remainder are the only such pair. */
  lemma DivisionUnique(a: nat, k: nat, q: nat, r: nat)
    requires a == k * q + r && r < k
    ensures a / k == q && a % k == r
  {
    DivisionLaw(a, k);
    if a / k < q { ProductStep(a / k, q, k); }
    if q < a / k { ProductStep(q, a / k, k); }
  }

  lemma QuotientOfQuotient(v: nat, a: nat, b: nat)
    requires a > 0 && b > 0
    ensures a * b > 0 && v / a / b == v / (a * b)
  {
    DivisionLaw(v, a);
    DivisionLaw(v / a, b);
    SplitProduct(v / a, a, b);
    DivisionUnique(v, a * b, v / a / b, a * (v / a % b) + v % a);
  }

  lemma SplitProduct(q: nat, a: nat, b: nat)
    requires a > 0 && b > 0
    ensures a * b > 0 && a * q == a * b * (q / b) + a * (q % b) && a * (q % b) + a <= a * b
  {
    DivisionLaw(q, b);
    Distributes(a, b * (q / b), q % b);
    ThreeFactors(a, b, q / b);
    ProductStep(q % b, b, a);
  }

  lemma Distributes(k: nat, x: nat, y: nat)
    ensures k * (x + y) == k * x + k * y
  {
  }

  /** Multiples of the modulus do not count. */
  lemma ModPlusMultiple(n: nat, k: nat, m: nat)
    requires n > 0
    ensures (n * k + m) % n == m % n
  {
    DivisionLaw(m, n);
    Distributes(n, k, m / n);
    DivisionUnique(n * k + m, n, k + m / n, m % n);
  }

  lemma ThreeFactors(n: nat, q: nat, b: nat)
    ensures n * q * b == n * (q * b)
  {
  }

  lemma ProductOfSum(x: nat, y: nat, b: nat)
    ensures (x + y) * b == x * b + y * b
  {
  }

  /** A factor can be reduced before multiplying. */
  lemma ModProduct(n: nat, a: nat, b: nat)
    requires n > 0
    ensures (a % n) * b % n == a * b % n
    ensures b * (a % n) % n == b * a % n
  {
    DivisionLaw(a, n);
    var q, r := a / n, a % n;
    ProductOfSum(n * q, r, b);
    ThreeFactors(n, q, b);
    ModPlusMultiple(n, q * b, r * b);
    Commutes(a, b);
    Commutes(r, b);
  }

  lemma Commutes(a: nat, b: nat)
    ensures a * b == b * a
  {
  }
}
