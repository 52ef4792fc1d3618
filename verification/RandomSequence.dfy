/** The sequence of distinct 32-bit numbers of src/random.cc. */
module RandomSequence {
  import opened Arithmetic
  import opened Binary
  import opened FiniteMaps
  import opened Residues
  import opened Modulus
  import opened Registers

  const TWO32: nat := 0x1_0000_0000

  // ------------------------------------------------------------ squares modulo n

  lemma {:induction false} Reduced(n: nat, g: nat, e: nat)
    requires Generates(n, g) && n > 2
    ensures Power(n, g, e) == Power(n, g, e % (n - 1))
  {
    DivisionLaw(e, n - 1);
    PowerOfUnit(n, g, n - 1, e / (n - 1));
    PowerAdd(n, g, (n - 1) * (e / (n - 1)), e % (n - 1));
    MulOne(n, Power(n, g, e % (n - 1)));
  }

  /** Equal powers have equal exponents, modulo n - 1. */
  lemma SamePower(n: nat, g: nat, d: nat, e: nat)
    requires Generates(n, g) && n > 2 && Power(n, g, d) == Power(n, g, e)
    ensures d % (n - 1) == e % (n - 1)
  {
    Reduced(n, g, d);
    Reduced(n, g, e);
    var r, s := d % (n - 1), e % (n - 1);
    if r < s { PowersDiffer(n, g, s, r); }
    if s < r { PowersDiffer(n, g, r, s); }
  }

  lemma SameParity(e: nat, t: nat, r: nat)
    requires e == 2 * t + r
    ensures r % 2 == e % 2
  {
  }

  lemma ParityOfRemainder(e: nat, k: nat, h: nat, q: nat, r: nat)
    requires k == 2 * h && e == k * q + r
    ensures r % 2 == e % 2
  {
    ThreeFactors(2, h, q);
    SameParity(e, h * q, r);
  }

  lemma MinusOneTimes(n: nat, b: nat)
    requires 0 < b < n
    ensures Mul(n, n - 1, b) == n - b
  {
    DistributesOver(b, n, 1);
    Commutes(n, b);
    Commutes(n - 1, b);
    DistributesOver(n, b, 1);
    DivisionUnique((n - 1) * b, n, b - 1, n - b);
  }

  /** The exponent of -1 is half of n - 1. */
  lemma LogOfMinusOne(n: nat, g: nat) returns (m: nat)
    requires Generates(n, g) && n > 2
    ensures 2 * m == n - 1 && Power(n, g, m) == n - 1
  {
    m := Logarithm(n, g, n - 1);
    MinusOneTimes(n, n - 1);
    PowerAdd(n, g, m, m);
    SamePower(n, g, m + m, 0);
    HalfOf(m, n - 1);
  }

  lemma HalfOf(m: nat, k: nat)
    requires 0 < m < k && (m + m) % k == 0 % k
    ensures 2 * m == k
  {
    DivisionUnique(0, k, 0, 0);
    if m + m < k {
      DivisionUnique(m + m, k, 0, m + m);
    } else {
      DivisionUnique(m + m, k, 1, m + m - k);
    }
  }

  lemma SquareIsPower(n: nat, g: nat, x: nat) returns (i: nat)
    requires Generates(n, g) && 0 < x < n
    ensures Mul(n, x, x) == Power(n, g, i + i) != 0
  {
    i := Logarithm(n, g, x);
    PowerAdd(n, g, i, i);
    NoZeroDivisors(n, g, x, x);
  }

  /** Where n is 3 modulo 4, no two squares add up to 0. */
  lemma SquaresDoNotCancel(n: nat, g: nat, x: nat, y: nat)
    requires Generates(n, g) && n % 4 == 3 && 0 < x < n && 0 < y < n
    ensures Mul(n, x, x) + Mul(n, y, y) != n
  {
    var i := SquareIsPower(n, g, x);
    var j := SquareIsPower(n, g, y);
    var m := LogOfMinusOne(n, g);
    var b := Mul(n, y, y);
    if Mul(n, x, x) + b == n {
      MinusOneTimes(n, b);
      PowerAdd(n, g, m, j + j);
      EvenExponents(n, g, i, j, m);
    }
  }

  lemma EvenExponents(n: nat, g: nat, i: nat, j: nat, m: nat)
    requires Generates(n, g) && n % 4 == 3 && 2 * m == n - 1
    ensures Power(n, g, i + i) != Power(n, g, m + (j + j))
  {
    EvenAndOdd(i + i, m + (j + j), n - 1, m);
    if Power(n, g, i + i) == Power(n, g, m + (j + j)) { SamePower(n, g, i + i, m + (j + j)); }
  }

  lemma EvenAndOdd(d: nat, e: nat, k: nat, m: nat)
    requires k == 2 * m && m > 0 && d % 2 == 0 && e % 2 == 1
    ensures d % k != e % k
  {
    RemainderParity(d, k, m);
    RemainderParity(e, k, m);
  }

  lemma RemainderParity(e: nat, k: nat, h: nat)
    requires k == 2 * h && h > 0
    ensures e % k % 2 == e % 2
  {
    var q, r := Divided(e, k);
    ParityOfRemainder(e, k, h, q, r);
  }

  lemma Divided(e: nat, k: nat) returns (q: nat, r: nat)
    requires k > 0
    ensures e == k * q + r && r == e % k
  {
    q, r := e / k, e % k;
    DivisionLaw(e, k);
  }

  lemma DifferenceOfSquares(x: nat, y: nat)
    requires y <= x
    ensures (x - y) * (x + y) == x * x - y * y
  {
  }

  /** Squares that are equal modulo n differ by a multiple of n. */
  lemma SquaresApart(n: nat, x: nat, y: nat)
    requires n > 0 && y < x && x * x % n == y * y % n
    ensures (x - y) * (x + y) % n == 0
  {
    var q, r := x * x / n, y * y / n;
    DivisionLaw(x * x, n);
    DivisionLaw(y * y, n);
    DifferenceOfSquares(x, y);
    if q < r { ProductStep(q, r, n); }
    DistributesOver(n, q, r);
    DivisionUnique((x - y) * (x + y), n, q - r, 0);
  }

  lemma SumIsModulus(n: nat, s: nat)
    requires 0 < s < 2 * n && s % n == 0
    ensures s == n
  {
    if s < n { DivisionUnique(s, n, 0, s); }
    if s > n { DivisionUnique(s, n, 1, s - n); }
  }

  /** Only opposite numbers have the same square. */
  lemma SameSquare(n: nat, g: nat, x: nat, y: nat)
    requires Generates(n, g) && y < x < n && Mul(n, x, x) == Mul(n, y, y)
    ensures x + y == n
  {
    SquaresApart(n, x, y);
    ModProduct(n, x + y, x - y);
    if (x + y) % n != 0 { NoZeroDivisors(n, g, x - y, (x + y) % n); }
    SumIsModulus(n, x + y);
  }

  // -------------------------------------------------------------------- Permute

  /** Square below half the modulus, negated square above; numbers out of range stay. */
  function Permuted(n: nat, x: nat): nat
    requires n > 0
  {
    if x >= n then x
    else
      var residue := Mul(n, x, x);
      if x <= n / 2 then residue else n - residue
  }

  function Permute(x: nat): nat { Permuted(P, x) }

  /** What Permute does, up to multiples of the prime: the square of a number up to half the
      prime, minus the square of one above it; the five numbers beyond the prime stay. */
  lemma PermuteIs(x: nat)
    requires x < TWO32
    ensures x >= 4294967291 ==> Permute(x) == x
    ensures 2 * x < 4294967291 ==>
      Permute(x) < 4294967291 && exists q: nat :: x * x == q * 4294967291 + Permute(x)
    ensures x < 4294967291 < 2 * x ==>
      0 < Permute(x) <= 4294967291 && exists q: nat :: x * x + Permute(x) == q * 4294967291
  {
    if x < P {
      var q := x * x / P;
      DivisionLaw(x * x, P);
      if x <= P / 2 {
        assert x * x == q * P + Permute(x);
      } else {
        assert x * x + Permute(x) == (q + 1) * P;
      }
    }
  }

  lemma SquareIsNotZero(n: nat, g: nat, x: nat)
    requires Generates(n, g) && x < n
    ensures Mul(n, x, x) == 0 <==> x == 0
  {
    MulZero(n, 0);
    if x > 0 { NoZeroDivisors(n, g, x, x); }
  }

  lemma PermutedInRange(n: nat, g: nat, x: nat)
    requires Generates(n, g) && x < n
    ensures Permuted(n, x) < n
  {
    SquareIsNotZero(n, g, x);
  }

  lemma PermutedDiffers(n: nat, g: nat, x: nat, y: nat)
    requires Generates(n, g) && n % 4 == 3 && y < x
    ensures Permuted(n, x) != Permuted(n, y)
  {
    if y < n { PermutedInRange(n, g, y); }
    if x < n {
      SquareIsNotZero(n, g, x);
      SquareIsNotZero(n, g, y);
      if Mul(n, x, x) == Mul(n, y, y) { SameSquare(n, g, x, y); }
      if y > 0 { SquaresDoNotCancel(n, g, x, y); }
    }
  }

  /** A modulus with a generator, 3 modulo 4. */
  datatype Pair = Pair(n: nat, g: nat)

  ghost predicate Suitable(m: Pair) { Generates(m.n, m.g) && m.n % 4 == 3 }

  type Field = m: Pair | Suitable(m) ghost witness Witness()

  ghost function Witness(): (m: Pair)
    ensures Suitable(m) && m.n == P
  {
    PIsSuitable(Pair(P, 2));
    Pair(P, 2)
  }

  lemma PIsSuitable(m: Pair)
    requires m.n == P && m.g == 2
    ensures Suitable(m)
  {
    TwoGenerates(m.n, m.g);
  }

  lemma FieldPermutes(m: Field, x: nat, y: nat)
    requires y < x
    ensures Permuted(m.n, x) != Permuted(m.n, y)
  {
    PermutedDiffers(m.n, m.g, x, y);
  }

  lemma FieldInRange(m: Field, x: nat)
    requires x < m.n
    ensures Permuted(m.n, x) < m.n
  {
    PermutedInRange(m.n, m.g, x);
  }

  /** Permute maps the 32-bit numbers one to one onto themselves. */
  lemma PermuteInjective(x: nat, y: nat)
    requires x != y
    ensures Permute(x) != Permute(y)
  {
    var m: Field := Witness();
    if x < y { FieldPermutes(m, y, x); } else { FieldPermutes(m, x, y); }
  }

  lemma PermuteInRange(x: nat)
    requires x < TWO32
    ensures Permute(x) < TWO32
  {
    if x < P { FieldInRange(Witness(), x); }
  }

  lemma PermuteOnto(y: nat) returns (x: nat)
    requires y < TWO32
    ensures x < TWO32 && Permute(x) == y
  {
    forall v: nat | v < TWO32 ensures Permute(v) < TWO32 { PermuteInRange(v); }
    forall v: nat, w: nat | v < w < TWO32 ensures Permute(v) != Permute(w) { PermuteInjective(v, w); }
    x := Onto(Permute, TWO32, y);
  }

  // ------------------------------------------------------------------ the sequence

  lemma Pow32()
    ensures Pow2(32) == TWO32
  {
    assert Pow2(8) == 256;
    assert Pow2(16) == 65536;
    assert Pow2(24) == 16777216;
  }

  const MASK: Bits := BitsOf(0x5b, 8) + BitsOf(0xf0, 8) + BitsOf(0x36, 8) + BitsOf(0x35, 8)

  function Flip(bits: Bits): Bits
    requires |bits| == 32
  {
    seq(32, i requires 0 <= i < 32 => bits[i] != MASK[i])
  }

  /** x ^ 0x5bf03635. */
  function Mask(x: nat): (y: nat)
    requires x < TWO32
    ensures y < TWO32
  {
    Pow32();
    ValueOf(Flip(BitsOf(x, 32)))
  }

  /** The mask is an exclusive or. */
  lemma MaskIsXor(x: bv32)
    ensures x as nat < TWO32 && Mask(x as nat) == (x ^ 0x5bf03635) as nat
  {
    Pow32();
    WordBits(x);
    WordValue(x ^ 0x5bf03635);
    FlipIs(x);
  }

  lemma FlipIs(x: bv32)
    ensures Flip(WordOf(Reg(x))) == WordOf(Reg(x ^ 0x5bf03635))
  {
    MaskBits();
    forall i | 0 <= i < 32 ensures Flip(WordOf(Reg(x)))[i] == WordOf(Reg(x ^ 0x5bf03635))[i] {
      XorAt(Reg(x), Reg(0x5bf03635), i);
    }
  }

  lemma MaskBits()
    ensures MASK == WordOf(Reg(0x5bf03635))
  {
    OctetIs(0x5b);
    OctetIs(0xf0);
    OctetIs(0x36);
    OctetIs(0x35);
    JoinIs(0x5b, 0xf0, 0x36, 0x35);
    assert Join(0x5b, 0xf0, 0x36, 0x35) == 0x5bf03635;
  }

  lemma MaskInvolution(x: nat)
    requires x < TWO32
    ensures Mask(Mask(x)) == x
  {
    Pow32();
    var bits := BitsOf(x, 32);
    BitsOfValueOf(Flip(bits));
    assert Flip(Flip(bits)) == bits;
    ValueOfBitsOf(x, 32);
  }

  /** What Next returns when the counter stands at index. */
  function Output(mid: nat, index: nat): nat
    requires index < TWO32
  {
    PermuteInRange(index);
    Permute(Mask((Permute(index) + mid) % TWO32))
  }

  lemma SumDiffers(x: nat, y: nat, mid: nat)
    requires x < TWO32 && y < TWO32 && x != y
    ensures (x + mid) % TWO32 != (y + mid) % TWO32
  {
  }

  lemma OutputsDiffer(mid: nat, i: nat, j: nat)
    requires i < TWO32 && j < TWO32 && i != j
    ensures Output(mid, i) != Output(mid, j)
  {
    PermuteInRange(i);
    PermuteInRange(j);
    PermuteInjective(i, j);
    var x, y := (Permute(i) + mid) % TWO32, (Permute(j) + mid) % TWO32;
    SumDiffers(Permute(i), Permute(j), mid);
    MaskInvolution(x);
    MaskInvolution(y);
    PermuteInjective(Mask(x), Mask(y));
  }

  class Sequence {
    var midOffset: nat
    var index: nat

    ghost predicate Valid()
      reads this
    {
      midOffset < TWO32 && index < TWO32
    }

    constructor (seed: nat, base: nat, offset: nat)
      requires seed < TWO32 && base < TWO32 && offset < TWO32
      ensures Valid()
      ensures index == (Permute((Permute(base) + 0x682f0161) % TWO32) + offset) % TWO32
      ensures midOffset == Permute((Permute(seed) + 0x46790905) % TWO32)
    {
      PermuteInRange((Permute(seed) + 0x46790905) % TWO32);
      index := (Permute((Permute(base) + 0x682f0161) % TWO32) + offset) % TWO32;
      midOffset := Permute((Permute(seed) + 0x46790905) % TWO32);
    }

    method Skip(n: nat)
      requires Valid() && n < TWO32
      modifies this`index
      ensures Valid() && index == (old(index) + n) % TWO32
    {
      index := (index + n) % TWO32;
    }

    method Next() returns (r: nat)
      requires Valid()
      modifies this`index
      ensures Valid() && index == (old(index) + 1) % TWO32 && r == Output(midOffset, old(index)) && r < TWO32
    {
      r := Output(midOffset, index);
      PermuteInRange(index);
      PermuteInRange(Mask((Permute(index) + midOffset) % TWO32));
      index := (index + 1) % TWO32;
    }

    /** The outputs of n calls: the same output comes again after 2^32 calls and not before. */
    method Draw(n: nat) returns (out: seq<nat>)
      requires Valid()
      modifies this`index
      ensures Valid() && index == Later(old(index), n) && |out| == n
      ensures forall i, j :: 0 <= i < n && 0 <= j < n ==> (out[i] == out[j] <==> i % TWO32 == j % TWO32)
    {
      out := [];
      ghost var start := index;
      while |out| < n
        invariant Valid() && |out| <= n && index == Later(start, |out|) && Drawn(midOffset, start, out)
      {
        LaterStep(start, |out|);
        var r := Next();
        out := out + [r];
      }
      DrawnRepeat(midOffset, start, out);
    }
  }

  /** The index n calls later. */
  function Later(start: nat, n: nat): nat { (start + n) % TWO32 }

  lemma LaterStep(start: nat, n: nat)
    ensures Later(start, n + 1) == (Later(start, n) + 1) % TWO32
  {
  }

  lemma LaterSame(start: nat, i: nat, j: nat)
    ensures Later(start, i) == Later(start, j) <==> i % TWO32 == j % TWO32
  {
  }

  ghost predicate Drawn(mid: nat, start: nat, out: seq<nat>) {
    forall k :: 0 <= k < |out| ==> out[k] == Output(mid, Later(start, k))
  }

  lemma DrawnRepeat(mid: nat, start: nat, out: seq<nat>)
    requires Drawn(mid, start, out)
    ensures forall i, j :: 0 <= i < |out| && 0 <= j < |out| ==> (out[i] == out[j] <==> i % TWO32 == j % TWO32)
  {
    forall i, j | 0 <= i < |out| && 0 <= j < |out| ensures out[i] == out[j] <==> i % TWO32 == j % TWO32 {
      OutputsRepeat(mid, start, i, j);
    }
  }

  /** The outputs repeat with period 2^32 and never sooner, across the wrap of the index. */
  lemma OutputsRepeat(mid: nat, start: nat, i: nat, j: nat)
    ensures Output(mid, Later(start, i)) == Output(mid, Later(start, j)) <==> i % TWO32 == j % TWO32
  {
    LaterSame(start, i, j);
    if Later(start, i) != Later(start, j) {
      OutputsDiffer(mid, Later(start, i), Later(start, j));
    }
  }
}
