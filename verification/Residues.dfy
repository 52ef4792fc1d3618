/** A map of a finite range into itself that never repeats a value takes every value. */
module FiniteMaps {

  ghost function Image(f: nat -> nat, k: nat): set<nat> {
    if k == 0 then {} else Image(f, k - 1) + {f(k - 1)}
  }

  lemma {:induction false} MemberIsValue(f: nat -> nat, k: nat, y: nat) returns (x: nat)
    requires y in Image(f, k)
    ensures x < k && f(x) == y
  {
    if y == f(k - 1) {
      x := k - 1;
    } else {
      x := MemberIsValue(f, k - 1, y);
    }
  }

  ghost predicate Injective(f: nat -> nat, k: nat) {
    forall x: nat, y: nat :: x < y < k ==> f(x) != f(y)
  }

  lemma {:induction false} CountImage(f: nat -> nat, k: nat)
    requires Injective(f, k)
    ensures |Image(f, k)| == k
  {
    if k > 0 {
      CountImage(f, k - 1);
      if f(k - 1) in Image(f, k - 1) { var _ := MemberIsValue(f, k - 1, f(k - 1)); }
    }
  }

  /** The numbers below k. */
  ghost function Below(k: nat): set<nat> {
    if k == 0 then {} else Below(k - 1) + {k - 1}
  }

  lemma {:induction false} InBelow(k: nat, x: nat)
    ensures x in Below(k) <==> x < k
  {
    if k > 0 { InBelow(k - 1, x); }
  }

  lemma {:induction false} CountBelow(k: nat)
    ensures |Below(k)| == k
  {
    if k > 0 {
      CountBelow(k - 1);
      InBelow(k - 1, k - 1);
    }
  }

  lemma SameSize<T>(a: set<T>, b: set<T>)
    requires a <= b && |a| == |b|
    ensures a == b
  {
    assert b == a + (b - a);
  }

  lemma Onto(f: nat -> nat, k: nat, y: nat) returns (x: nat)
    requires Injective(f, k) && (forall i: nat :: i < k ==> f(i) < k) && y < k
    ensures x < k && f(x) == y
  {
    forall v | v in Image(f, k) ensures v in Below(k) {
      var i := MemberIsValue(f, k, v);
      InBelow(k, v);
    }
    CountImage(f, k);
    CountBelow(k);
    SameSize(Image(f, k), Below(k));
    InBelow(k, y);
    x := MemberIsValue(f, k, y);
  }
}

/** Powers of a generator modulo n: enough number theory to know that a modulus is prime. */
module Residues {
  import opened Arithmetic
  import opened FiniteMaps

  function Mul(n: nat, x: nat, y: nat): (z: nat)
    requires n > 0
    ensures z < n
  {
    x * y % n
  }

  lemma MulAssociates(n: nat, x: nat, y: nat, z: nat)
    requires n > 0
    ensures Mul(n, Mul(n, x, y), z) == Mul(n, x, Mul(n, y, z))
  {
    ModProduct(n, x * y, z);
    ModProduct(n, y * z, x);
    Regroup(x, y, z);
  }

  lemma Regroup(x: nat, y: nat, z: nat)
    ensures x * y * z == x * (y * z)
  {
  }

  lemma MulCommutes(n: nat, x: nat, y: nat)
    requires n > 0
    ensures Mul(n, x, y) == Mul(n, y, x)
  {
    Commutes(x, y);
  }

  lemma MulOne(n: nat, x: nat)
    requires x < n
    ensures Mul(n, 1, x) == x == Mul(n, x, 1)
  {
    DivisionUnique(x, n, 0, x);
  }

  lemma MulZero(n: nat, x: nat)
    requires n > 0
    ensures Mul(n, 0, x) == 0 == Mul(n, x, 0)
  {
    DivisionUnique(0, n, 0, 0);
  }

  /** a to the power e modulo n, for n above 1. */
  function Power(n: nat, a: nat, e: nat): (p: nat)
    requires n > 1
    ensures p < n
  {
    if e == 0 then 1 else Mul(n, a, Power(n, a, e - 1))
  }

  lemma {:induction false} PowerAdd(n: nat, a: nat, i: nat, j: nat)
    requires n > 1
    ensures Power(n, a, i + j) == Mul(n, Power(n, a, i), Power(n, a, j))
    decreases i
  {
    if i == 0 {
      MulOne(n, Power(n, a, j));
    } else {
      PowerAdd(n, a, i - 1, j);
      MulAssociates(n, a, Power(n, a, i - 1), Power(n, a, j));
    }
  }

  /** A power of 1 is 1. */
  lemma {:induction false} PowerOfUnit(n: nat, a: nat, d: nat, k: nat)
    requires n > 1 && Power(n, a, d) == 1
    ensures Power(n, a, d * k) == 1
    decreases k
  {
    if k > 0 {
      PowerOfUnit(n, a, d, k - 1);
      Distributes(d, k - 1, 1);
      PowerAdd(n, a, d * (k - 1), d);
      MulOne(n, 1);
    }
  }

  // ------------------------------------------------------------------- generators

  /** The powers of g come back to 1 after n - 1 steps, and not before. */
  ghost predicate Generates(n: nat, g: nat) {
    && n > 1 && Power(n, g, n - 1) == 1
    && forall d :: 0 < d < n - 1 ==> Power(n, g, d) != 1
  }

  lemma DivisionStep(n: nat, g: nat, i: nat, j: nat)
    requires n > 1 && j <= i && Power(n, g, i) == Power(n, g, j) && Power(n, g, n - 1) == 1 && j < n
    ensures Power(n, g, i - j) == 1
  {
    var k := n - 1 - (if j < n - 1 then j else 0);
    if j < n - 1 {
      PowerAdd(n, g, j, k);
      PowerAdd(n, g, i, k);
      assert i + k == (n - 1) + (i - j);
      PowerAdd(n, g, n - 1, i - j);
      MulOne(n, Power(n, g, i - j));
    } else {
      PowerAdd(n, g, n - 1, i - j);
      MulOne(n, Power(n, g, i - j));
    }
  }

  /** The first n - 1 powers are all different. */
  lemma PowersDiffer(n: nat, g: nat, i: nat, j: nat)
    requires Generates(n, g) && j < i < n - 1
    ensures Power(n, g, i) != Power(n, g, j)
  {
    if Power(n, g, i) == Power(n, g, j) { DivisionStep(n, g, i, j); }
  }

  /** No power is 0. */
  lemma PowerIsUnit(n: nat, g: nat, i: nat)
    requires Generates(n, g) && i <= n - 1
    ensures Power(n, g, i) != 0 && Mul(n, Power(n, g, i), Power(n, g, n - 1 - i)) == 1
  {
    PowerAdd(n, g, i, n - 1 - i);
    MulZero(n, Power(n, g, n - 1 - i));
  }

  /** One less than the power of g at e. */
  function Reach(n: nat, g: nat, e: nat): nat
    requires n > 1
  {
    if Power(n, g, e) == 0 then 0 else Power(n, g, e) - 1
  }

  lemma ReachDiffers(n: nat, g: nat, d: nat, e: nat)
    requires Generates(n, g) && d < e < n - 1
    ensures Reach(n, g, d) != Reach(n, g, e)
  {
    PowersDiffer(n, g, e, d);
    PowerIsUnit(n, g, e);
    PowerIsUnit(n, g, d);
  }

  lemma ReachOnto(n: nat, g: nat, f: nat -> nat, y: nat) returns (i: nat)
    requires Generates(n, g) && (forall e :: f(e) == Reach(n, g, e)) && y < n - 1
    ensures i < n - 1 && Reach(n, g, i) == y
  {
    forall d: nat, e: nat | d < e < n - 1 ensures f(d) != f(e) { ReachDiffers(n, g, d, e); }
    i := Onto(f, n - 1, y);
  }

  /** Every residue but 0 is a power of the generator. */
  lemma Logarithm(n: nat, g: nat, x: nat) returns (i: nat)
    requires Generates(n, g) && 0 < x < n
    ensures i < n - 1 && Power(n, g, i) == x
  {
    i := ReachOnto(n, g, e => Reach(n, g, e), x - 1);
    PowerIsUnit(n, g, i);
  }

  lemma Invert(n: nat, g: nat, x: nat) returns (v: nat)
    requires Generates(n, g) && 0 < x < n
    ensures Mul(n, x, v) == 1
  {
    var i := Logarithm(n, g, x);
    PowerIsUnit(n, g, i);
    v := Power(n, g, n - 1 - i);
  }

  /** A product of residues that are not 0 is not 0. */
  lemma NoZeroDivisors(n: nat, g: nat, x: nat, y: nat)
    requires Generates(n, g) && 0 < x < n && 0 < y < n
    ensures Mul(n, x, y) != 0
  {
    var v := Invert(n, g, x);
    MulAssociates(n, v, x, y);
    MulCommutes(n, v, x);
    MulOne(n, y);
    MulZero(n, v);
  }

  // ----------------------------------------------------------------------- primes

  ghost predicate Prime(n: nat) {
    n > 1 && forall d :: 1 < d < n ==> n % d != 0
  }

  lemma GeneratorMeansPrime(n: nat, g: nat)
    requires Generates(n, g)
    ensures Prime(n)
  {
    forall d | 1 < d < n ensures n % d != 0 {
      if n % d == 0 {
        var k := n / d;
        DivisionLaw(n, d);
        FactorIsSmall(n, d, k);
        DivisionUnique(n, n, 1, 0);
        NoZeroDivisors(n, g, d, k);
      }
    }
  }

  lemma FactorIsSmall(n: nat, d: nat, k: nat)
    requires n == d * k && 1 < d < n
    ensures 1 < k < n
  {
    if k >= n { ProductStep(1, d, k); }
  }

  /** A prime that divides a product divides a factor. */
  lemma {:induction false} Euclid(q: nat, a: nat, b: nat)
    requires Prime(q) && a * b % q == 0
    ensures a % q == 0 || b % q == 0
    decreases a
  {
    if a >= q {
      ModProduct(q, a, b);
      DivisionUnique(a % q, q, 0, a % q);
      DivisionLaw(a, q);
      Euclid(q, a % q, b);
    } else if a > 1 {
      // q == a * k + r with 0 < r < a, so q divides r * b as well
      var k, r := q / a, q % a;
      DivisionLaw(q, a);
      assert r != 0;
      RemainderTimes(q, a, b, k, r);
      Euclid(q, r, b);
      DivisionUnique(r, q, 0, r);
    } else if a == 1 {
      assert a * b == b;
    }
  }

  lemma RemainderTimes(q: nat, a: nat, b: nat, k: nat, r: nat)
    requires q > 0 && q == a * k + r && a * b % q == 0
    ensures r * b % q == 0
  {
    DivisionLaw(a * b, q);
    var m := a * b / q;
    ProductOfSum(a * k, r, b);
    SwapFactors(a, k, b);
    ThreeFactors(q, m, k);
    if m * k > b { ProductStep(b, m * k, q); }
    DistributesOver(q, b, m * k);
    DivisionUnique(r * b, q, b - m * k, 0);
  }

  lemma SwapFactors(a: nat, k: nat, b: nat)
    ensures a * k * b == a * b * k
  {
  }

  lemma DistributesOver(q: nat, x: nat, y: nat)
    requires y <= x
    ensures q * (x - y) == q * x - q * y
  {
  }

  // ----------------------------------------------------------------- certificates

  function Product(qs: seq<nat>): nat {
    if qs == [] then 1 else qs[0] * Product(qs[1..])
  }

  lemma {:induction false} PrimeInProduct(q: nat, qs: seq<nat>)
    requires Prime(q) && (forall i :: 0 <= i < |qs| ==> Prime(qs[i])) && Product(qs) % q == 0
    ensures q in qs
  {
    if qs == [] {
      DivisionUnique(1, q, 0, 1);
    } else {
      Euclid(q, qs[0], Product(qs[1..]));
      if qs[0] % q == 0 {
        if q > qs[0] { DivisionUnique(qs[0], q, 0, qs[0]); }
      } else {
        PrimeInProduct(q, qs[1..]);
      }
    }
  }

  /** Some prime divides e; nothing from 2 up to d does. */
  lemma PrimeFactor(e: nat, d: nat) returns (q: nat)
    requires 2 <= d <= e && forall c :: 1 < c < d ==> e % c != 0
    ensures Prime(q) && e % q == 0
    decreases e - d
  {
    if e % d == 0 {
      q := d;
      forall c | 1 < c < q ensures q % c != 0 {
        if q % c == 0 { Transitive(e, q, c); }
      }
    } else {
      DivisionUnique(e, e, 1, 0);
      q := PrimeFactor(e, d + 1);
    }
  }

  lemma Transitive(e: nat, q: nat, c: nat)
    requires q > 0 && c > 0 && e % q == 0 && q % c == 0
    ensures e % c == 0
  {
    DivisionLaw(e, q);
    DivisionLaw(q, c);
    ThreeFactors(c, q / c, e / q);
    DivisionUnique(e, c, q / c * (e / q), 0);
  }

  lemma LeastUnit(n: nat, g: nat, d: nat) returns (m: nat)
    requires n > 1 && d > 0 && Power(n, g, d) == 1
    ensures 0 < m <= d && Power(n, g, m) == 1 && forall k :: 0 < k < m ==> Power(n, g, k) != 1
    decreases d
  {
    if k :| 0 < k < d && Power(n, g, k) == 1 {
      m := LeastUnit(n, g, k);
    } else {
      m := d;
    }
  }

  /** The least exponent that gives 1 divides all others. */
  lemma LeastUnitDivides(n: nat, g: nat, m: nat, e: nat)
    requires n > 1 && m > 0 && Power(n, g, m) == 1 && Power(n, g, e) == 1
    requires forall k :: 0 < k < m ==> Power(n, g, k) != 1
    ensures e % m == 0
  {
    var r := e % m;
    DivisionLaw(e, m);
    PowerOfUnit(n, g, m, e / m);
    PowerAdd(n, g, m * (e / m), r);
    MulOne(n, Power(n, g, r));
  }

  lemma FactorOut(e: nat, m: nat, q: nat)
    requires m > 0 && q > 0 && e % m == 0 && (e / m) % q == 0
    ensures e % q == 0 && e / q == m * (e / m / q)
  {
    var f := e / m;
    DivisionLaw(e, m);
    DivisionLaw(f, q);
    var k := f / q;
    Regroup(m, q, k);
    Commutes(m, q);
    ThreeFactors(q, m, k);
    DivisionUnique(e, q, m * k, 0);
  }

  ghost predicate AllPrime(qs: seq<nat>) {
    forall i :: 0 <= i < |qs| ==> Prime(qs[i])
  }

  /** The power of g at (n - 1) / q. */
  ghost function Quotient(n: nat, g: nat, q: nat): nat
    requires n > 1
  {
    if q == 0 then 0 else Power(n, g, (n - 1) / q)
  }

  lemma NotOne(n: nat, m: nat, e: nat)
    requires n == m * e && m < n
    ensures e >= 2
  {
  }

  /** Lucas: g generates if no prime q of n - 1 brings it to 1 at (n - 1) / q. */
  lemma Certificate(n: nat, g: nat, qs: seq<nat>)
    requires n > 1 && Product(qs) == n - 1 && AllPrime(qs)
    requires Power(n, g, n - 1) == 1 && forall i :: 0 <= i < |qs| ==> Quotient(n, g, qs[i]) != 1
    ensures Generates(n, g)
  {
    forall d | 0 < d < n - 1 ensures Power(n, g, d) != 1 {
      if Power(n, g, d) == 1 {
        var m := LeastUnit(n, g, d);
        LeastUnitDivides(n, g, m, n - 1);
        CertificateFails(n, g, qs, m);
      }
    }
  }

  lemma CertificateFails(n: nat, g: nat, qs: seq<nat>, m: nat)
    requires n > 1 && Product(qs) == n - 1 && AllPrime(qs)
    requires 0 < m < n - 1 && (n - 1) % m == 0 && Power(n, g, m) == 1
    ensures exists i :: 0 <= i < |qs| && Quotient(n, g, qs[i]) == 1
  {
    var e := (n - 1) / m;
    DivisionLaw(n - 1, m);
    NotOne(n - 1, m, e);
    var q := PrimeFactor(e, 2);
    FactorOut(n - 1, m, q);
    PrimeInProduct(q, qs);
    var i :| 0 <= i < |qs| && qs[i] == q;
    PowerOfUnit(n, g, m, e / q);
    assert Quotient(n, g, qs[i]) == 1;
  }

  // ----------------------------------------------------------- computed powers

  /** The powers of g modulo n, by exponent. */
  datatype Row = Row(n: nat, g: nat, at: nat -> nat)

  type PowerRow = p: Row | Follows(p) ghost witness Row(2, 0, e => Power(2, 0, e))

  ghost predicate Follows(p: Row) {
    p.n > 1 && forall e {:trigger Power(p.n, p.g, e)} :: p.at(e) == Power(p.n, p.g, e)
  }

  ghost function RowOf(n: nat, g: nat): (p: PowerRow)
    requires n > 1
    ensures p.n == n && p.g == g
  {
    Row(n, g, e => Power(n, g, e))
  }

  lemma First(p: PowerRow) returns (e: nat)
    requires p.g < p.n
    ensures e == 1 && p.at(e) == p.g
  {
    e := 1;
    assert Power(p.n, p.g, 1) == Mul(p.n, p.g, Power(p.n, p.g, 0));
    MulOne(p.n, p.g);
  }

  /** From the powers at e and f to the one at e + f. */
  lemma Add(p: PowerRow, e: nat, x: nat, f: nat, y: nat, q: nat, z: nat) returns (s: nat)
    requires p.at(e) == x && p.at(f) == y && x * y == q * p.n + z && z < p.n
    ensures s == e + f && p.at(s) == z
  {
    s := e + f;
    PowerAdd(p.n, p.g, e, f);
    Commutes(q, p.n);
    DivisionUnique(x * y, p.n, q, z);
  }
}
