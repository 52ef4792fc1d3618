/** Numbers as bit strings, most significant bit first. */
module Binary {

  type Bits = seq<bool>

  function Zeros(n: nat): (z: Bits)
    ensures |z| == n && forall i :: 0 <= i < n ==> !z[i]
  {
    seq(n, i => false)
  }

  function Pow2(n: nat): (p: nat)
    ensures p >= 1
  {
    if n == 0 then 1 else 2 * Pow2(n - 1)
  }

  /** The k low bits of v. */
  function BitsOf(v: nat, k: nat): (bits: Bits)
    requires v < Pow2(k)
    ensures |bits| == k
  {
    if k == 0 then []
    else if v < Pow2(k - 1) then [false] + BitsOf(v, k - 1)
    else [true] + BitsOf(v - Pow2(k - 1), k - 1)
  }

  function ValueOf(bits: Bits): (v: nat)
    ensures v < Pow2(|bits|)
  {
    if bits == [] then 0 else (if bits[0] then Pow2(|bits| - 1) else 0) + ValueOf(bits[1..])
  }

  lemma {:induction false} ValueOfBitsOf(v: nat, k: nat)
    requires v < Pow2(k)
    ensures ValueOf(BitsOf(v, k)) == v
  {
    if k > 0 {
      var high := v >= Pow2(k - 1);
      var low := if high then v - Pow2(k - 1) else v;
      ValueOfBitsOf(low, k - 1);
      assert BitsOf(v, k)[0] == high && BitsOf(v, k)[1..] == BitsOf(low, k - 1);
    }
  }

  lemma {:induction false} BitsOfValueOf(bits: Bits)
    ensures BitsOf(ValueOf(bits), |bits|) == bits
  {
    if bits != [] { BitsOfValueOf(bits[1..]); }
  }

  /** Leading zeros do not count. */
  lemma {:induction false} ValueOfZeros(n: nat, bits: Bits)
    ensures ValueOf(seq(n, i => false) + bits) == ValueOf(bits)
  {
    var all := seq(n, i => false) + bits;
    if n == 0 {
      assert all == bits;
    } else {
      ValueOfZeros(n - 1, bits);
      assert all[1..] == seq(n - 1, i => false) + bits;
    }
  }

  lemma {:induction false} Pow2Add(a: nat, b: nat)
    ensures Pow2(a + b) == Pow2(a) * Pow2(b)
  {
    if b > 0 { Pow2Add(a, b - 1); }
  }

  lemma {:induction false} Pow2Monotone(a: nat, b: nat)
    requires a <= b
    ensures Pow2(a) <= Pow2(b)
    decreases b
  {
    if a < b { Pow2Monotone(a, b - 1); }
  }

  /** The number of bits up to the highest set one. */
  function BitLength(m: nat): nat {
    if m == 0 then 0 else 1 + BitLength(m / 2)
  }

  lemma {:induction false} BitLengthBounds(m: nat)
    requires m > 0
    ensures BitLength(m) > 0 && Pow2(BitLength(m) - 1) <= m < Pow2(BitLength(m))
  {
    if m > 1 { BitLengthBounds(m / 2); }
  }

  lemma {:induction false} BitLengthLimit(m: nat, k: nat)
    requires m < Pow2(k)
    ensures BitLength(m) <= k
  {
    if m > 0 { BitLengthLimit(m / 2, k - 1); }
  }
}
