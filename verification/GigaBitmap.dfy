/** From a hash to an index: ComputeIndexFromHash. */
module GigaHash {
  import opened Arithmetic
  import opened Binary
  import opened GigaIndex
  import ByteBits

  /** The value of a bit string with the lowest bit first. */
  function LowFirst(bits: Bits): nat {
    if bits == [] then 0 else (if bits[0] then 1 else 0) + 2 * LowFirst(bits[1..])
  }

  /** v << k. */
  function Shifted(v: nat, k: nat): nat {
    if k == 0 then v else 2 * Shifted(v, k - 1)
  }

  lemma {:induction false} LowFirstJoin(a: Bits, b: Bits)
    ensures LowFirst(a + b) == LowFirst(a) + Shifted(LowFirst(b), |a|)
  {
    if a == [] {
      assert a + b == b;
    } else {
      LowFirstJoin(a[1..], b);
      assert (a + b)[1..] == a[1..] + b;
    }
  }

  lemma FirstBit(bits: Bits)
    requires bits != []
    ensures LowFirst(bits) % 2 == (if bits[0] then 1 else 0) && LowFirst(bits) / 2 == LowFirst(bits[1..])
  {
  }

  lemma {:induction false} LowOfPrefix(bits: Bits, n: nat)
    requires n <= |bits|
    ensures Low(LowFirst(bits), n) == LowFirst(bits[..n])
    decreases n
  {
    if n > 0 {
      FirstBit(bits);
      LowOfPrefix(bits[1..], n - 1);
      FirstBit(bits[..n]);
      assert bits[..n][1..] == bits[1..][..n - 1];
    }
  }

  /** Bit k of a number. */
  predicate BitAt(v: nat, k: nat) { v / Pow2(k) % 2 == 1 }

  lemma BitStep(v: nat, k: nat)
    ensures BitAt(v, k + 1) == BitAt(v / 2, k)
  {
    HalveFirst(v, Pow2(k));
  }

  lemma BitOfNothing(k: nat)
    ensures !BitAt(0, k)
  {
  }

  lemma HalveFirst(v: nat, p: nat)
    requires p > 0
    ensures v / (2 * p) == v / 2 / p
  {
    var q, r := v / 2 / p, v / 2 % p;
    DivisionLaw(v / 2, p);
    assert v == 2 * p * q + (2 * r + v % 2) by { assert 2 * (p * q) == 2 * p * q; }
    DivisionUnique(v, 2 * p, q, 2 * r + v % 2);
  }

  /** Bit k of a bit string with the lowest bit first is bit k of its value. */
  lemma {:induction false} BitOfLowFirst(bits: Bits, k: nat)
    ensures BitAt(LowFirst(bits), k) <==> k < |bits| && bits[k]
    decreases k
  {
    if bits == [] {
      BitOfNothing(k);
    } else {
      FirstBit(bits);
      if k > 0 {
        BitStep(LowFirst(bits), k - 1);
        BitOfLowFirst(bits[1..], k - 1);
      }
    }
  }

  /** The n low bits of a number are its bits below n. */
  lemma {:induction false} BitOfLow(h: nat, n: nat, k: nat)
    ensures BitAt(Low(h, n), k) <==> k < n && BitAt(h, k)
    decreases k
  {
    if n == 0 {
      BitOfNothing(k);
    } else if k > 0 {
      BitStep(Low(h, n), k - 1);
      BitStep(h, k - 1);
      assert Low(h, n) / 2 == Low(h / 2, n - 1);
      BitOfLow(h / 2, n - 1, k - 1);
    }
  }

  // ------------------------------------------------------------------ reversing a byte

  /** The multiplication trick that reverses a byte. */
  function ReverseTrick(b: bv64): (r: bv64)
    ensures r < 256
  {
    (((b * 0x80200802) & 0x0884422110) * 0x0101010101 >> 32) & 0xff
  }

  /** Reverse: the highest bit becomes the lowest. */
  function Reverse(b: bv8): bv8 { ReverseTrick(b as bv64) as bv8 }

  /** The bits of a byte, the lowest first. */
  function LowToHigh(b: bv8): (bits: Bits)
    ensures |bits| == 8
  {
    [b & 1 != 0, b & 2 != 0, b & 4 != 0, b & 8 != 0, b & 16 != 0, b & 32 != 0, b & 64 != 0, b & 128 != 0]
  }

  /** The bits of a byte, the highest first. */
  function HighToLow(b: bv8): (bits: Bits)
    ensures |bits| == 8
  {
    [b & 128 != 0, b & 64 != 0, b & 32 != 0, b & 16 != 0, b & 8 != 0, b & 4 != 0, b & 2 != 0, b & 1 != 0]
  }

  lemma ReverseTrickReverses(b: bv8)
    ensures LowToHigh(Reverse(b)) == HighToLow(b)
  {
  }

  lemma ByteValue(b: bv8)
    ensures b as nat == LowFirst(LowToHigh(b))
  {
    EightBitsSum(LowToHigh(b));
    ByteBits.SumOfBits(b);
  }

  lemma EightBitsSum(bits: Bits)
    requires |bits| == 8
    ensures LowFirst(bits) == (if bits[0] then 1 else 0) + (if bits[1] then 2 else 0)
      + (if bits[2] then 4 else 0) + (if bits[3] then 8 else 0) + (if bits[4] then 16 else 0)
      + (if bits[5] then 32 else 0) + (if bits[6] then 64 else 0) + (if bits[7] then 128 else 0)
  {
    assert bits[0..] == bits && bits[8..] == [];
    FourBits(bits, 4);
    FourBits(bits, 0);
  }

  lemma FourBits(bits: Bits, k: nat)
    requires k + 4 <= |bits|
    ensures LowFirst(bits[k..]) == (if bits[k] then 1 else 0) + (if bits[k + 1] then 2 else 0)
      + (if bits[k + 2] then 4 else 0) + (if bits[k + 3] then 8 else 0) + 16 * LowFirst(bits[k + 4..])
  {
    TopBit(bits, k + 3);
    TopBit(bits, k + 2);
    TopBit(bits, k + 1);
    TopBit(bits, k);
  }

  lemma TopBit(bits: Bits, k: nat)
    requires k < |bits|
    ensures LowFirst(bits[k..]) == (if bits[k] then 1 else 0) + 2 * LowFirst(bits[k + 1..])
  {
    assert bits[k..][1..] == bits[k + 1..];
  }

  /** Reversed, a byte has the value of its bits with the highest taken as the lowest. */
  lemma ReversedValue(b: bv8)
    ensures Reverse(b) as nat == LowFirst(HighToLow(b))
  {
    ReverseTrickReverses(b);
    ByteValue(Reverse(b));
  }

  lemma BitOfByte(b: bv8, j: nat)
    requires j < 8
    ensures HighToLow(b)[j] <==> (b >> (7 - j)) & 1 == 1
  {
    if j == 0 {
    } else if j == 1 {
    } else if j == 2 {
    } else if j == 3 {
    } else if j == 4 {
    } else if j == 5 {
    } else if j == 6 {
    }
  }

  // ------------------------------------------------------------- from hash to index

  type Hash = h: seq<bv8> | |h| == 8 witness [0, 0, 0, 0, 0, 0, 0, 0]

  function Joined(hash: seq<bv8>, k: nat): (bits: Bits)
    requires k <= |hash|
    ensures |bits| == 8 * k
  {
    if k == 0 then [] else Joined(hash, k - 1) + HighToLow(hash[k - 1])
  }

  /** The hash as a number: its first bit is the lowest. */
  function Number(hash: Hash): nat { LowFirst(Joined(hash, 8)) }

  lemma {:induction false} JoinedPrefix(hash: seq<bv8>, k: nat, m: nat)
    requires k <= m <= |hash|
    ensures Joined(hash, k) == Joined(hash, m)[..8 * k]
    decreases m
  {
    if k < m { JoinedPrefix(hash, k, m - 1); }
  }

  lemma JoinedBit(hash: Hash, k: nat)
    requires k < 64
    ensures Joined(hash, 8)[k] <==> (hash[k / 8] >> (7 - k % 8)) & 1 == 1
  {
    var m := k / 8;
    JoinedPrefix(hash, m + 1, 8);
    assert Joined(hash, 8)[k] == Joined(hash, m + 1)[k] == HighToLow(hash[m])[k % 8];
    BitOfByte(hash[m], k % 8);
  }

  /** Bit k of the number is bit 7 - k % 8 of byte k / 8. */
  lemma NumberBits(hash: Hash, k: nat)
    ensures BitAt(Number(hash), k) <==> k < 64 && (hash[k / 8] >> (7 - k % 8)) & 1 == 1
  {
    BitOfLowFirst(Joined(hash, 8), k);
    if k < 64 { JoinedBit(hash, k); }
  }

  /** The n low bits of the number are the first n bits of the hash. */
  lemma FirstBitsOf(hash: Hash, n: nat, i: nat)
    requires n <= 64 && i == Low(Number(hash), n)
    ensures forall k: nat {:trigger BitAt(i, k)} ::
      BitAt(i, k) <==> k < n && (hash[k / 8] >> (7 - k % 8)) & 1 == 1
  {
    forall k: nat ensures BitAt(i, k) <==> k < n && (hash[k / 8] >> (7 - k % 8)) & 1 == 1 {
      BitOfLow(Number(hash), n, k);
      NumberBits(hash, k);
    }
  }

  /** ComputeIndexFromHash: the first n bits of the hash, the first as the lowest. */
  method ComputeIndex(hash: Hash, n: nat) returns (result: nat)
    requires n <= MAX_RADIX
    ensures result == Low(Number(hash), n)
    ensures forall k: nat {:trigger BitAt(result, k)} ::
      BitAt(result, k) <==> k < n && (hash[k / 8] >> (7 - k % 8)) & 1 == 1
  {
    result := SumBytes(hash, n);
    FirstBitsOf(hash, n, result);
  }

  method SumBytes(hash: Hash, n: nat) returns (result: nat)
    requires n <= MAX_RADIX
    ensures result == Low(Number(hash), n)
  {
    var whole := n / 8;
    var idx := 0;
    result := 0;
    while idx < whole
      invariant idx <= whole && result == LowFirst(Joined(hash, idx))
    {
      result := AddByte(hash, idx, result);
      idx := idx + 1;
    }
    var part := n % 8;
    FirstBits(hash, whole, part);
    if part > 0 {
      result := AddBits(hash, idx, part, result);
    }
  }

  method AddBits(hash: Hash, idx: nat, part: nat, sum: nat) returns (result: nat)
    requires idx < 8
    ensures result == sum + Shifted(Low(LowFirst(HighToLow(hash[idx])), part), idx * 8)
  {
    ReversedValue(hash[idx]);
    result := sum + Shifted(Low(Reverse(hash[idx]) as nat, part), idx * 8);
  }

  method AddByte(hash: Hash, idx: nat, sum: nat) returns (result: nat)
    requires idx < 8 && sum == LowFirst(Joined(hash, idx))
    ensures result == LowFirst(Joined(hash, idx + 1))
  {
    LowFirstJoin(Joined(hash, idx), HighToLow(hash[idx]));
    ReversedValue(hash[idx]);
    result := sum + Shifted(Reverse(hash[idx]) as nat, idx * 8);
  }

  lemma FirstBits(hash: Hash, whole: nat, part: nat)
    requires whole <= 2 && part < 8
    ensures Low(Number(hash), 8 * whole + part) == LowFirst(Joined(hash, whole))
      + (if part > 0 then Shifted(Low(LowFirst(HighToLow(hash[whole])), part), whole * 8) else 0)
  {
    var all, n := Joined(hash, 8), 8 * whole + part;
    LowOfPrefix(all, n);
    if part == 0 {
      JoinedPrefix(hash, whole, 8);
    } else {
      JoinedPrefix(hash, whole + 1, 8);
      assert all[..n] == Joined(hash, whole + 1)[..n] == Joined(hash, whole) + HighToLow(hash[whole])[..part];
      LowFirstJoin(Joined(hash, whole), HighToLow(hash[whole])[..part]);
      LowOfPrefix(HighToLow(hash[whole]), part);
    }
  }
}

/** The in-memory and encoded forms of an index, and the operations of DirIndex. */
module GigaDirIndex {
  import opened Binary
  import opened ByteBits
  import opened Coding
  import opened GigaIndex
  import opened GigaRouting
  import opened GigaSplits
  import opened GigaClients
  import opened GigaHash

  const MAX_BYTES: nat := 8192

  function BytesFor(radix: nat): nat { (Pow2(radix) + 7) / 8 }

  lemma SixteenBits()
    ensures Pow2(16) == 65536 && BytesFor(16) == MAX_BYTES
  {
    assert Pow2(8) == 256;
  }

  /** A member of a set is below the set's radix in powers of two. */
  lemma MemberBelow(set_: set<nat>, r: nat, i: nat)
    requires IsRadix(set_, r) && i in set_
    ensures i < Pow2(r) <= 8 * BytesFor(r)
  {
    RadixBound(i, r);
  }

  /** The highest set bit has the radix of the set. */
  lemma RadixOfHighest(set_: set<nat>, top: nat)
    requires top in set_ && forall i :: i in set_ ==> i <= top
    ensures IsRadix(set_, ToRadix(top))
  {
    forall i | i in set_ ensures ToRadix(i) <= ToRadix(top) {
      RadixBound(top, ToRadix(top));
      BitLengthLimit(i, ToRadix(top));
    }
  }

  lemma RadixIsUnique(set_: set<nat>, r: nat, s: nat)
    requires IsRadix(set_, r) && IsRadix(set_, s)
    ensures r == s
  {
  }

  /** HighestBit: the two loops, over a bitmap whose first size bytes hold its bits. */
  method HighestBit(bitmap: Bytes, size: nat) returns (top: nat)
    requires 0 < size <= |bitmap| && 0 in BitSet(bitmap) && forall i :: i in BitSet(bitmap) ==> i < 8 * size
    ensures top in BitSet(bitmap) && forall i :: i in BitSet(bitmap) ==> i <= top
  {
    assert TestBit(bitmap, 0);
    var i := size - 1;
    while bitmap[i] == 0
      invariant i < size && forall j :: j in BitSet(bitmap) ==> j < 8 * (i + 1)
      decreases i
    {
      forall j | j in BitSet(bitmap) ensures j < 8 * i { ByteOfBit(bitmap, j, i); }
      i := i - 1;
    }
    var off := 7;
    ghost var last := NonZeroByte(bitmap[i]);
    while !TestByte(bitmap[i], off)
      invariant last <= off < 8
      decreases off
    {
      off := off - 1;
    }
    top := off + i * 8;
    assert top / 8 == i && top % 8 == off;
    assert TestBit(bitmap, top);
    forall j | j in BitSet(bitmap) ensures j <= top { BitBelow(bitmap, j, i, off); }
  }

  lemma ByteOfBit(bitmap: Bytes, j: nat, i: nat)
    requires j in BitSet(bitmap) && i < |bitmap| && bitmap[i] == 0 && j < 8 * (i + 1)
    ensures j < 8 * i
  {
    ZeroByte(j % 8);
  }

  lemma BitBelow(bitmap: Bytes, j: nat, i: nat, off: nat)
    requires j in BitSet(bitmap) && i < |bitmap| && j < 8 * (i + 1) && off < 8
    requires forall k :: off < k < 8 ==> !TestByte(bitmap[i], k)
    ensures j <= off + i * 8
  {
    if j >= 8 * i { assert j / 8 == i; }
  }

  // ---------------------------------------------------------------- encoded indices

  datatype View = View(zerothServer: nat, radix: nat, bitmap: Bytes)

  /** A header of two 16-bit numbers, then the bitmap. */
  function ViewOf(input: Bytes): View
    requires |input| >= 4
  {
    View(FixedValue(input[..2]), FixedValue(input[2..4]), input[4..])
  }

  function Image(zerothServer: nat, radix: nat, bitmap: Bytes): Bytes {
    Fixed(zerothServer, 2) + Fixed(radix, 2) + bitmap
  }

  lemma ViewOfImage(zerothServer: nat, radix: nat, bitmap: Bytes)
    requires zerothServer < 65536 && radix < 65536
    ensures |Image(zerothServer, radix, bitmap)| >= 4
    ensures ViewOf(Image(zerothServer, radix, bitmap)) == View(zerothServer, radix, bitmap)
  {
    FixedWidths();
    FixedRoundTrip(zerothServer, 2);
    FixedRoundTrip(radix, 2);
    var image := Image(zerothServer, radix, bitmap);
    assert image[..2] == Fixed(zerothServer, 2) && image[2..4] == Fixed(radix, 2) && image[4..] == bitmap;
  }

  /** The radix in the header is that of the highest bit. */
  ghost predicate Consistent(v: View) { IsRadix(BitSet(v.bitmap), v.radix) }

  /** What ParseDirIndex accepts. */
  ghost predicate Accepts(input: Bytes, paranoid: bool) {
    && |input| >= 4
    && var v := ViewOf(input);
      && BytesFor(v.radix) <= |v.bitmap| && TestBit(v.bitmap, 0)
      && (paranoid ==> Consistent(v))
  }

  method ParseDirIndex(input: Bytes, paranoid: bool) returns (ok: bool, v: View)
    ensures ok <==> Accepts(input, paranoid)
    ensures ok ==> v == ViewOf(input)
  {
    v := View(0, 0, []);
    if |input| < 4 {
      return false, v;
    }
    v := ViewOf(input);
    if |v.bitmap| < BytesFor(v.radix) || !TestBit(v.bitmap, 0) {
      return false, v;
    }
    ok := true;
    if paranoid {
      assert 0 in BitSet(v.bitmap);
      var top := HighestBit(v.bitmap, |v.bitmap|);
      RadixOfHighest(BitSet(v.bitmap), top);
      ok := v.radix == ToRadix(top);
      if Consistent(v) { RadixIsUnique(BitSet(v.bitmap), v.radix, ToRadix(top)); }
    }
  }

  // ----------------------------------------------------------------------- merging

  function ByteAt(bitmap: Bytes, i: nat): byte {
    if i < |bitmap| then bitmap[i] else 0
  }

  lemma UnionOfBytes(a: Bytes, b: Bytes, c: Bytes, n: nat)
    requires |c| == |a| && |b| <= n <= |a|
    requires forall j :: 0 <= j < n ==> c[j] == OrByte(a[j], ByteAt(b, j))
    requires forall j :: n <= j < |a| ==> c[j] == a[j]
    ensures BitSet(c) == BitSet(a) + BitSet(b)
  {
    forall i: nat | i < 8 * |a| ensures TestBit(c, i) == (TestBit(a, i) || TestBit(b, i)) {
      if i >= 8 * |b| { ZeroByte(i % 8); }
    }
  }

  lemma RadixOfUnion(a: set<nat>, b: set<nat>, r: nat, s: nat)
    requires IsRadix(a, r) && IsRadix(b, s)
    ensures IsRadix(a + b, if r > s then r else s)
  {
    var i :| i in a && ToRadix(i) == r;
    var j :| j in b && ToRadix(j) == s;
    assert i in a + b && j in a + b;
  }

  // ------------------------------------------------------------- the in-memory form

  lemma CapacityDoubles(k: nat)
    requires Pow2(k) < MAX_BYTES
    ensures Pow2(k + 1) <= MAX_BYTES
  {
    assert Pow2(5) == 32 && Pow2(13) == 8192 by { assert Pow2(8) == 256; }
    if k >= 13 { Pow2Monotone(13, k); }
    Pow2Monotone(k + 1, 13);
  }

  class Rep {
    var zerothServer: nat
    var radix: nat
    var bitmap: array<byte>
    ghost var logCapacity: nat

    ghost predicate Valid()
      reads this, bitmap
    {
      && zerothServer < 65536 && radix <= MAX_RADIX
      && bitmap.Length == Pow2(logCapacity) <= MAX_BYTES && BytesFor(radix) <= bitmap.Length
      && 0 in Set() && IsRadix(Set(), radix)
    }

    /** The partitions whose bits are on. */
    ghost function Set(): set<nat>
      reads this, bitmap
    {
      BitSet(bitmap[..])
    }

    constructor (server: nat)
      requires server < 65536
      ensures Valid() && fresh(bitmap) && zerothServer == server && Set() == {0}
    {
      zerothServer, radix, logCapacity := server, 0, 4;
      bitmap := new byte[16](i => 0);
      new;
      ZerosAppended([], bitmap[..]);
      assert [] + bitmap[..] == bitmap[..];
      SetBit(bitmap[..], 0);
      bitmap[0] := OrByte(bitmap[0], Mask(0));
      assert 0 in Set() && ToRadix(0) == 0;
      assert Pow2(4) == 16;
    }

    method Bit(index: nat) returns (b: bool)
      requires Valid()
      ensures b == (index in Set())
    {
      if index in Set() { MemberBelow(Set(), radix, index); }
      b := index < BytesFor(radix) * 8 && TestByte(bitmap[index / 8], index % 8);
      assert b ==> TestBit(bitmap[..], index);
    }

    /** ScaleUp: more capacity, the same bits. */
    method ScaleUp(capacity: nat, ghost k: nat)
      requires Valid() && bitmap.Length <= capacity == Pow2(k) <= MAX_BYTES
      modifies this`bitmap, this`logCapacity
      ensures Valid() && fresh(bitmap) && Set() == old(Set()) && bitmap.Length == capacity
    {
      ghost var bytes, zeros := bitmap[..], seq(capacity - bitmap.Length, i => 0);
      var buf := new byte[capacity](i => 0);
      forall i | 0 <= i < bitmap.Length { buf[i] := bitmap[i]; }
      ZerosAppended(bytes, zeros);
      bitmap, logCapacity := buf, k;
      assert bitmap[..] == bytes + zeros;
    }

    /** ScaleToSize: double until the capacity is enough. */
    method ScaleToSize(capacity: nat)
      requires Valid() && capacity <= MAX_BYTES
      modifies this`bitmap, this`logCapacity
      ensures Valid() && (bitmap == old(bitmap) || fresh(bitmap)) && Set() == old(Set())
      ensures capacity <= bitmap.Length && bitmap.Length >= old(bitmap.Length)
    {
      var c := bitmap.Length;
      ghost var k := logCapacity;
      while c < capacity
        invariant c == Pow2(k) <= MAX_BYTES && bitmap.Length <= c
        modifies {}
        decreases capacity - c
      {
        CapacityDoubles(k);
        c, k := 2 * c, k + 1;
      }
      if c > bitmap.Length {
        ScaleUp(c, k);
      }
    }

    /** Turn a bit on; it may be one radix above the others. */
    method TurnOnBit(index: nat)
      requires Valid() && ToRadix(index) <= radix + 1 && ToRadix(index) <= MAX_RADIX
      modifies this, bitmap
      ensures Valid() && (bitmap == old(bitmap) || fresh(bitmap)) && zerothServer == old(zerothServer)
      ensures Set() == old(Set()) + {index}
      ensures radix == if ToRadix(index) > old(radix) then ToRadix(index) else old(radix)
    {
      var r := ToRadix(index);
      RoomFor(index, bitmap.Length, radix, logCapacity);
      if index >= bitmap.Length * 8 {
        ScaleUp(2 * bitmap.Length, logCapacity + 1);
      }
      RadixWith(Set(), index, radix);
      if radix < r {
        radix := r;
      }
      SetBit(bitmap[..], index);
      bitmap[index / 8] := OrByte(bitmap[index / 8], Mask(index % 8));
    }

    /** DoMerge: take over the bits of another index of the same directory. */
    method Merge(v: View)
      requires Valid() && v.radix <= MAX_RADIX && BytesFor(v.radix) <= |v.bitmap| <= MAX_BYTES && Consistent(v)
      modifies this, bitmap
      ensures Valid() && (bitmap == old(bitmap) || fresh(bitmap)) && zerothServer == old(zerothServer)
      ensures Set() == old(Set()) + BitSet(v.bitmap)
      ensures radix == if old(radix) > v.radix then old(radix) else v.radix
    {
      var size := BytesFor(radix);
      var n := if size > |v.bitmap| then size else |v.bitmap|;
      ScaleToSize(n);
      RadixOfUnion(Set(), BitSet(v.bitmap), radix, v.radix);
      radix := if radix > v.radix then radix else v.radix;
      OrInto(bitmap, v.bitmap, n);
    }

    /** The bits within the encoded size are all there are. */
    ghost predicate Encodes(v: View)
      reads this, bitmap
    {
      && v.zerothServer == zerothServer && v.radix == radix && BitSet(v.bitmap) == Set()
      && |v.bitmap| == BytesFor(radix)
    }

    /** Encode. */
    method ToSlice() returns (image: Bytes)
      requires Valid()
      ensures |image| >= 4 && Encodes(ViewOf(image)) && Accepts(image, true)
    {
      image := Image(zerothServer, radix, bitmap[..BytesFor(radix)]);
      ViewOfImage(zerothServer, radix, bitmap[..BytesFor(radix)]);
      forall i | i in Set() ensures i < 8 * BytesFor(radix) { MemberBelow(Set(), radix, i); }
      PrefixHoldsAll(bitmap[..], BytesFor(radix));
      assert bitmap[..][..BytesFor(radix)] == bitmap[..BytesFor(radix)];
      assert TestBit(bitmap[..BytesFor(radix)], 0);
    }
  }

  lemma PrefixHoldsAll(bitmap: Bytes, n: nat)
    requires n <= |bitmap| && forall i :: i in BitSet(bitmap) ==> i < 8 * n
    ensures BitSet(bitmap[..n]) == BitSet(bitmap)
  {
    forall i: nat | i < 8 * |bitmap| ensures TestBit(bitmap[..n], i) == TestBit(bitmap, i) {
      if TestBit(bitmap, i) { assert i in BitSet(bitmap); }
    }
  }

  /** The loop of DoMerge. */
  method OrInto(bitmap: array<byte>, other: Bytes, n: nat)
    requires |other| <= n <= bitmap.Length
    modifies bitmap
    ensures BitSet(bitmap[..]) == old(BitSet(bitmap[..])) + BitSet(other)
  {
    ghost var a := bitmap[..];
    for i := 0 to n
      invariant forall j :: 0 <= j < i ==> bitmap[j] == OrByte(a[j], ByteAt(other, j))
      invariant forall j :: i <= j < |a| ==> bitmap[j] == a[j]
    {
      bitmap[i] := OrByte(bitmap[i], ByteAt(other, i));
    }
    UnionOfBytes(a, other, bitmap[..], n);
  }

  /** Doubling the capacity once is enough for a new bit, and only done below the maximum. */
  lemma RoomFor(index: nat, capacity: nat, radix: nat, k: nat)
    requires ToRadix(index) <= radix + 1 && ToRadix(index) <= MAX_RADIX
    requires BytesFor(radix) <= capacity == Pow2(k) <= MAX_BYTES
    ensures index >= capacity * 8 ==> 2 * capacity == Pow2(k + 1) <= MAX_BYTES
    ensures index < 16 * capacity
    ensures index < 8 * capacity ==> BytesFor(ToRadix(index)) <= capacity
    ensures BytesFor(ToRadix(index)) <= 2 * capacity
  {
    var r := ToRadix(index);
    RadixBound(index, r);
    Pow2Monotone(r, radix + 1);
    Pow2Monotone(r, MAX_RADIX);
    SixteenBits();
    if index >= capacity * 8 { CapacityDoubles(k); }
    if index < 8 * capacity { BytesOfIndex(index, k); }
  }

  /** A capacity that is a power of two holds all indices of a radix if it holds one. */
  lemma BytesOfIndex(index: nat, k: nat)
    requires index < 8 * Pow2(k)
    ensures BytesFor(ToRadix(index)) <= Pow2(k)
  {
    assert Pow2(k + 3) == 2 * Pow2(k + 2) && Pow2(k + 2) == 2 * Pow2(k + 1);
    BitLengthLimit(index, k + 3);
    Pow2Monotone(ToRadix(index), k + 3);
  }

  // ----------------------------------------------------------------------- DirIndex

  class DirIndex {
    const servers: nat
    const paranoid: bool
    var rep: Rep

    ghost predicate Valid()
      reads this, rep, rep.bitmap
    {
      servers <= Pow2(MAX_RADIX) && rep.Valid()
    }

    constructor (zerothServer: nat, servers: nat, paranoid: bool)
      requires zerothServer < 65536 && 1 <= servers <= Pow2(MAX_RADIX)
      ensures Valid() && fresh(rep) && fresh(rep.bitmap) && this.servers == servers && rep.Set() == {0}
      ensures rep.zerothServer == zerothServer && this.paranoid == paranoid
    {
      this.servers, this.paranoid := servers, paranoid;
      rep := new Rep(zerothServer);
    }

    /** Route a hash to the one partition that owns it: its bits are the first of the hash. */
    method HashToIndex(hash: Hash) returns (i: nat)
      requires Valid()
      ensures Owns(rep.Set(), i, Number(hash))
      ensures forall k: nat {:trigger BitAt(i, k)} ::
        BitAt(i, k) <==> k < ToRadix(i) && (hash[k / 8] >> (7 - k % 8)) & 1 == 1
    {
      i := Walk(hash, rep.Set());
      RouteIsOwner(rep.Set(), Number(hash), rep.radix);
      FirstBitsOf(hash, ToRadix(i), i);
    }

    /** The walk from the index a hash gives, to the first ancestor that exists. */
    method Walk(hash: Hash, ghost s: set<nat>) returns (i: nat)
      requires Valid() && s == rep.Set()
      ensures i == Route(s, Number(hash), rep.radix)
    {
      ghost var h: nat, k: nat := Number(hash), rep.radix;
      ghost var goal := Route(s, h, k);
      i := ComputeIndex(hash, rep.radix);
      var found := rep.Bit(i);
      while !found
        invariant i == Low(h, k) && found == (i in s) && Route(s, h, k) == goal
        decreases i
      {
        Climb(s, h, k, i);
        k := ToRadix(i) - 1;
        i := ToParent(i);
        found := rep.Bit(i);
      }
    }

    method IsSplittable(index: nat) returns (b: bool)
      requires Valid() && index < Pow2(MAX_RADIX)
      ensures b <==> Splittable(rep.Set(), index, servers)
    {
      b := rep.Bit(index);
      if !b {
        return;
      }
      BitLengthLimit(index, MAX_RADIX);
      var r := ToRadix(index);
      ghost var f := FreeRadix(rep.Set(), index, r);
      while r < MAX_RADIX
        invariant ToRadix(index) <= r <= MAX_RADIX && FreeRadix(rep.Set(), index, r) == f
      {
        var i := ToChild(index, r);
        var taken := rep.Bit(i);
        if !taken {
          return i < servers;
        }
        r := r + 1;
      }
      return false;
    }

    method NewIndexForSplitting(index: nat) returns (i: nat)
      requires Valid() && Splittable(rep.Set(), index, servers)
      ensures i == NewIndex(rep.Set(), index)
    {
      i := FindFree(index, rep.Set(), FreeRadix(rep.Set(), index, ToRadix(index)));
    }

    /** The loop of NewIndexForSplitting; f is the radix it ends at. */
    method FindFree(index: nat, ghost s: set<nat>, ghost f: nat) returns (i: nat)
      requires Valid() && s == rep.Set() && ToRadix(index) <= f && ToChild(index, f) !in s
      requires forall m :: ToRadix(index) <= m < f ==> ToChild(index, m) in s
      ensures i == ToChild(index, f)
    {
      i := index;
      var r := ToRadix(index);
      var taken := true;
      while taken
        invariant ToRadix(index) <= r <= f + 1
        invariant taken ==> r <= f
        invariant !taken ==> r == f + 1 && i == ToChild(index, f)
        decreases f + 1 - r
      {
        i := ToChild(index, r);
        taken := rep.Bit(i);
        r := r + 1;
      }
    }

    /** Split a partition: turn on the bit of its next child. */
    method Split(index: nat) returns (child: nat)
      requires Valid() && Splittable(rep.Set(), index, servers) && Inv(rep.Set(), servers)
      modifies rep, rep.bitmap
      ensures Valid() && rep == old(rep) && (rep.bitmap == old(rep.bitmap) || fresh(rep.bitmap))
      ensures child == old(NewIndex(rep.Set(), index)) && rep.Set() == old(rep.Set()) + {child}
      ensures Inv(rep.Set(), servers) && rep.radix <= old(rep.radix) + 1
    {
      SplitInv(rep.Set(), index, servers, rep.radix);
      child := NewIndexForSplitting(index);
      BitLengthLimit(child, MAX_RADIX);
      rep.TurnOnBit(child);
    }

    /** Update: merge an encoded index of the same directory. */
    method Update(other: Bytes) returns (ok: bool)
      requires Valid() && |other| <= 4 + MAX_BYTES
      requires Accepts(other, false) && !paranoid ==> Consistent(ViewOf(other))
      modifies rep, rep.bitmap
      ensures Valid() && rep == old(rep) && (rep.bitmap == old(rep.bitmap) || fresh(rep.bitmap))
      ensures rep.zerothServer == old(rep.zerothServer)
      ensures ok <==> Accepts(other, paranoid) && ViewOf(other).zerothServer == rep.zerothServer
      ensures rep.Set() == if ok then old(rep.Set()) + BitSet(ViewOf(other).bitmap) else old(rep.Set())
    {
      var v;
      ok, v := ParseDirIndex(other, paranoid);
      if ok && rep.zerothServer == v.zerothServer {
        RadixFits(v);
        rep.Merge(v);
      } else {
        ok := false;
      }
    }
  }

  /** A client takes over the server's encoded index. */
  method Refresh(client: DirIndex, server: DirIndex)
    requires client.Valid() && server.Valid() && client.rep != server.rep && client.rep.bitmap != server.rep.bitmap
    requires client.rep.zerothServer == server.rep.zerothServer
    modifies client.rep, client.rep.bitmap
    ensures client.Valid() && server.Valid() && client.rep == old(client.rep)
    ensures client.rep.bitmap == old(client.rep.bitmap) || fresh(client.rep.bitmap)
    ensures server.rep.Set() == old(server.rep.Set())
    ensures client.rep.Set() == old(client.rep.Set()) + server.rep.Set()
  {
    var image := Fetch(server);
    Take(client, image);
  }

  /** What the server sends. */
  method Fetch(server: DirIndex) returns (image: Bytes)
    requires server.Valid()
    ensures Accepts(image, true) && |image| <= 4 + MAX_BYTES
    ensures ViewOf(image).zerothServer == server.rep.zerothServer && BitSet(ViewOf(image).bitmap) == server.rep.Set()
  {
    image := server.rep.ToSlice();
    SliceFits(image, server.rep.radix);
  }

  /** What the client makes of it. */
  method Take(client: DirIndex, image: Bytes)
    requires client.Valid() && Accepts(image, true) && |image| <= 4 + MAX_BYTES
    requires ViewOf(image).zerothServer == client.rep.zerothServer
    modifies client.rep, client.rep.bitmap
    ensures client.Valid() && client.rep == old(client.rep)
    ensures client.rep.bitmap == old(client.rep.bitmap) || fresh(client.rep.bitmap)
    ensures client.rep.Set() == old(client.rep.Set()) + BitSet(ViewOf(image).bitmap)
  {
    var _ := client.Update(image);
  }

  lemma SliceFits(image: Bytes, radix: nat)
    requires |image| >= 4 && |ViewOf(image).bitmap| == BytesFor(radix) && radix <= MAX_RADIX
    ensures |image| <= 4 + MAX_BYTES
  {
    Pow2Monotone(radix, MAX_RADIX);
    SixteenBits();
  }

  /** A client that lags behind asks the server for its index, and then finds the partition
      of any hash as the server does. */
  method RefreshAndRoute(client: DirIndex, server: DirIndex, hash: Hash) returns (stale: nat, i: nat, j: nat)
    requires client.Valid() && server.Valid() && client.rep != server.rep && client.rep.bitmap != server.rep.bitmap
    requires client.rep.zerothServer == server.rep.zerothServer && client.rep.Set() <= server.rep.Set()
    modifies client.rep, client.rep.bitmap
    ensures client.Valid() && client.rep.Set() == server.rep.Set() == old(server.rep.Set())
    ensures i == j && Owns(server.rep.Set(), j, Number(hash))
    ensures Low(j, ToRadix(stale)) == stale && (stale == j <==> j in old(client.rep.Set()))
  {
    ghost var before := client.rep.Set();
    stale := client.HashToIndex(hash);
    Refresh(client, server);
    i, j := RouteBoth(client, server, hash, before, stale);
  }

  method RouteBoth(client: DirIndex, server: DirIndex, hash: Hash, ghost before: set<nat>, ghost stale: nat)
    returns (i: nat, j: nat)
    requires client.Valid() && server.Valid() && before <= server.rep.Set()
    requires client.rep.Set() == before + server.rep.Set() && Owns(before, stale, Number(hash))
    ensures i == j && Owns(server.rep.Set(), j, Number(hash))
    ensures Low(j, ToRadix(stale)) == stale && (stale == j <==> j in before)
  {
    i := client.HashToIndex(hash);
    j := server.HashToIndex(hash);
    MergedRoute(before, server.rep.Set(), i, j, Number(hash));
    StaleRouteIsAncestor(before, server.rep.Set(), stale, j, Number(hash));
    RightIffKnown(before, server.rep.Set(), stale, j, Number(hash));
  }

  lemma Climb(s: set<nat>, h: nat, k: nat, i: nat)
    requires i == Low(h, k) && i !in s && 0 in s
    ensures 0 < i && ToParent(i) < i && ToRadix(i) > 0
    ensures ToParent(i) == Low(h, ToRadix(i) - 1) && Route(s, h, k) == Route(s, h, ToRadix(i) - 1)
  {
    RouteToParent(s, h, k);
    ChildOfParent(i);
  }

  /** A consistent view of at most 8192 bytes has a radix of at most 16. */
  lemma RadixFits(v: View)
    requires Consistent(v) && |v.bitmap| <= MAX_BYTES
    ensures v.radix <= MAX_RADIX
  {
    var i :| i in BitSet(v.bitmap) && ToRadix(i) == v.radix;
    assert TestBit(v.bitmap, i);
    SixteenBits();
    BitLengthLimit(i, 16);
  }
}
