/** The bits of a byte and of a string of bytes, the lowest bit of the first byte first. */
module ByteBits {
  import opened Binary
  import opened Coding

  lemma EightBits()
    ensures Pow2(8) == 256
  {
  }

  /** A machine byte as a number. */
  lemma SumOfBits(b: bv8)
    ensures b as nat == (if b & 1 != 0 then 1 else 0) + (if b & 2 != 0 then 2 else 0)
      + (if b & 4 != 0 then 4 else 0) + (if b & 8 != 0 then 8 else 0) + (if b & 16 != 0 then 16 else 0)
      + (if b & 32 != 0 then 32 else 0) + (if b & 64 != 0 then 64 else 0) + (if b & 128 != 0 then 128 else 0)
  {
  }

  /** Bit k of a byte: b & kBits[k]. */
  function TestByte(b: byte, k: nat): bool
    requires k < 8
  {
    EightBits();
    BitsOf(b, 8)[7 - k]
  }

  function FromBits(bits: Bits): (b: byte)
    requires |bits| == 8
    ensures forall k :: 0 <= k < 8 ==> TestByte(b, k) == bits[7 - k]
  {
    EightBits();
    BitsOfValueOf(bits);
    ValueOf(bits)
  }

  function OrByte(a: byte, b: byte): (c: byte)
    ensures forall k :: 0 <= k < 8 ==> TestByte(c, k) == (TestByte(a, k) || TestByte(b, k))
  {
    EightBits();
    FromBits(seq(8, i requires 0 <= i < 8 => BitsOf(a, 8)[i] || BitsOf(b, 8)[i]))
  }

  /** kBits[k]. */
  function Mask(k: nat): (b: byte)
    requires k < 8
    ensures forall j :: 0 <= j < 8 ==> TestByte(b, j) == (j == k)
  {
    FromBits(seq(8, i requires 0 <= i < 8 => i == 7 - k))
  }

  lemma ZeroByte(k: nat)
    requires k < 8
    ensures !TestByte(0, k)
  {
    EightBits();
    var zeros := seq(8, i => false);
    BitsOfValueOf(zeros);
    ValueOfZeros(8, []);
    assert zeros + [] == zeros;
  }

  lemma AllZero(b: byte)
    requires forall k :: 0 <= k < 8 ==> !TestByte(b, k)
    ensures b == 0
  {
    EightBits();
    var bits := BitsOf(b, 8);
    forall i | 0 <= i < 8 ensures !bits[i] { assert bits[i] == TestByte(b, 7 - i); }
    ValueOfBitsOf(b, 8);
    ValueOfZeros(8, []);
    assert seq(8, i => false) + [] == bits;
  }

  lemma NonZeroByte(b: byte) returns (k: nat)
    requires b != 0
    ensures k < 8 && TestByte(b, k) && forall j :: k < j < 8 ==> !TestByte(b, j)
  {
    k := 7;
    while !TestByte(b, k)
      invariant k < 8 && forall j :: k < j < 8 ==> !TestByte(b, j)
      decreases k
    {
      if k == 0 { AllZero(b); }
      k := k - 1;
    }
  }

  /** Bit i of a bitmap. */
  predicate TestBit(bitmap: Bytes, i: nat) {
    i < 8 * |bitmap| && TestByte(bitmap[i / 8], i % 8)
  }

  ghost function BitSet(bitmap: Bytes): set<nat> {
    set i: nat | i < 8 * |bitmap| && TestBit(bitmap, i)
  }

  lemma SetBit(bitmap: Bytes, i: nat)
    requires i < 8 * |bitmap|
    ensures BitSet(bitmap[i / 8 := OrByte(bitmap[i / 8], Mask(i % 8))]) == BitSet(bitmap) + {i}
  {
    var after := bitmap[i / 8 := OrByte(bitmap[i / 8], Mask(i % 8))];
    forall j: nat | j < 8 * |bitmap| ensures TestBit(after, j) == (TestBit(bitmap, j) || j == i) {
      assert j == 8 * (j / 8) + j % 8 && i == 8 * (i / 8) + i % 8;
    }
  }

  /** Appending zero bytes sets no bit. */
  lemma ZerosAppended(bitmap: Bytes, zeros: Bytes)
    requires forall k :: 0 <= k < |zeros| ==> zeros[k] == 0
    ensures BitSet(bitmap + zeros) == BitSet(bitmap)
  {
    forall j: nat | j < 8 * |bitmap + zeros| ensures TestBit(bitmap + zeros, j) == TestBit(bitmap, j) {
      if j >= 8 * |bitmap| { ZeroByte(j % 8); }
    }
  }
}
