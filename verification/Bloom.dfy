/** The Bloom filter of src/leveldb/bloom.cc, over any hash function. */
module Bloom {
  import opened ByteBits
  import opened Coding
  import opened Rotations

  type Word = h: int | 0 <= h < TWO32

  /** Hash(key, seed); nothing is assumed of it. */
  type Hash = Bytes -> Word

  /** Rotate right by 17 bits. */
  function Delta(h: Word): Word { h / 0x2_0000 + h % 0x2_0000 * 0x8000 }

  /** Delta is the rotation of a machine word by 17 bits to the right. */
  lemma DeltaRotates(x: bv32)
    ensures Delta(x as int) == ((x >> 17) | (x << 15)) as int
  {
    RotateRight17(x);
  }

  /** The value that probe j is taken from. */
  function Probe(h: Word, j: nat): Word {
    if j == 0 then h else (Probe(h, j - 1) + Delta(h)) % TWO32
  }

  /** The bit that probe j of a hash falls on, in a filter of n bytes. */
  function Position(h: Word, j: nat, n: nat): (i: nat)
    requires n > 0
    ensures i < 8 * n
  {
    Probe(h, j) % (8 * n)
  }

  function Raise(bits: Bytes, i: nat): (r: Bytes)
    requires i < 8 * |bits|
    ensures |r| == |bits|
  {
    bits[i / 8 := OrByte(bits[i / 8], Mask(i % 8))]
  }

  lemma RaiseIs(bits: Bytes, i: nat, j: nat)
    requires i < 8 * |bits|
    ensures TestBit(Raise(bits, i), j) <==> TestBit(bits, j) || j == i
  {
    SetBit(bits, i);
    assert j in BitSet(Raise(bits, i)) <==> j in BitSet(bits) + {i};
  }

  /** The bits of one key, k probes. */
  function RaiseKey(bits: Bytes, h: Word, k: nat): (r: Bytes)
    requires |bits| > 0
    ensures |r| == |bits|
  {
    if k == 0 then bits else Raise(RaiseKey(bits, h, k - 1), Position(h, k - 1, |bits|))
  }

  function RaiseAll(bits: Bytes, hash: Hash, keys: seq<Bytes>, k: nat): (r: Bytes)
    requires |bits| > 0
    ensures |r| == |bits|
  {
    if keys == [] then bits
    else RaiseKey(RaiseAll(bits, hash, keys[..|keys| - 1], k), hash(keys[|keys| - 1]), k)
  }

  /** Bit i is one of the k probes of a hash. */
  ghost predicate Probed(h: Word, k: nat, n: nat, i: nat)
    requires n > 0
  {
    exists j :: 0 <= j < k && i == Position(h, j, n)
  }

  lemma ProbedStep(h: Word, k: nat, n: nat, i: nat)
    requires n > 0 && k > 0
    ensures Probed(h, k, n, i) <==> Probed(h, k - 1, n, i) || i == Position(h, k - 1, n)
  {
  }

  lemma {:induction false} RaiseKeyIs(bits: Bytes, h: Word, k: nat, i: nat)
    requires |bits| > 0
    ensures TestBit(RaiseKey(bits, h, k), i) <==> TestBit(bits, i) || Probed(h, k, |bits|, i)
  {
    if k > 0 {
      RaiseKeyIs(bits, h, k - 1, i);
      RaiseIs(RaiseKey(bits, h, k - 1), Position(h, k - 1, |bits|), i);
      ProbedStep(h, k, |bits|, i);
    }
  }

  /** Bit i is probed by one of the keys. */
  ghost predicate Covered(hash: Hash, keys: seq<Bytes>, k: nat, n: nat, i: nat)
    requires n > 0
  {
    exists x :: x in keys && Probed(hash(x), k, n, i)
  }

  lemma CoveredStep(hash: Hash, keys: seq<Bytes>, k: nat, n: nat, i: nat)
    requires n > 0 && keys != []
    ensures Covered(hash, keys, k, n, i) <==>
            Covered(hash, keys[..|keys| - 1], k, n, i) || Probed(hash(keys[|keys| - 1]), k, n, i)
  {
    assert keys == keys[..|keys| - 1] + [keys[|keys| - 1]];
  }

  /** A filter has exactly the bits that are probed by one of its keys. */
  lemma {:induction false} RaiseAllIs(bits: Bytes, hash: Hash, keys: seq<Bytes>, k: nat, i: nat)
    requires |bits| > 0
    ensures TestBit(RaiseAll(bits, hash, keys, k), i) <==>
            TestBit(bits, i) || Covered(hash, keys, k, |bits|, i)
  {
    if keys != [] {
      var n := |keys| - 1;
      RaiseAllIs(bits, hash, keys[..n], k, i);
      RaiseKeyIs(RaiseAll(bits, hash, keys[..n], k), hash(keys[n]), k, i);
      CoveredStep(hash, keys, k, |bits|, i);
    }
  }

  /** The number of probes of a policy; 0.69 is about ln 2. */
  function Probes(bitsPerKey: nat): (k: nat)
    ensures 1 <= k <= 30
  {
    var k := (bitsPerKey as real * 0.69).Floor;
    if k < 1 then 1 else if k > 30 then 30 else k
  }

  function FilterBytes(bitsPerKey: nat, n: nat): (bytes: nat)
    ensures bytes >= 8
  {
    var bits := n * bitsPerKey;
    ((if bits < 64 then 64 else bits) + 7) / 8
  }

  /** A filter has the bits asked for, at least 64, rounded up to whole bytes; the number of
      probes is 0.69 times the bits per key, rounded down and kept between 1 and 30. */
  lemma FilterSizes(bitsPerKey: nat, n: nat)
    ensures 8 * FilterBytes(bitsPerKey, n) >= n * bitsPerKey && FilterBytes(bitsPerKey, n) >= 8
    ensures FilterBytes(bitsPerKey, n) > 8 ==> 8 * FilterBytes(bitsPerKey, n) < n * bitsPerKey + 8
    ensures var k := Probes(bitsPerKey);
      && 1 <= k <= 30 && (k > 1 ==> 100 * k <= 69 * bitsPerKey) && (k < 30 ==> 69 * bitsPerKey < 100 * (k + 1))
  {
    var k := (bitsPerKey as real * 0.69).Floor;
    assert k as real <= bitsPerKey as real * 0.69 < (k + 1) as real;
    assert 100.0 * (k as real) <= 69.0 * (bitsPerKey as real) < 100.0 * ((k + 1) as real);
  }

  function Filter(hash: Hash, bitsPerKey: nat, keys: seq<Bytes>): (r: Bytes)
    ensures |r| >= 9 && r[|r| - 1] == Probes(bitsPerKey)
  {
    RaiseAll(ZeroBytes(FilterBytes(bitsPerKey, |keys|)), hash, keys, Probes(bitsPerKey)) + [Probes(bitsPerKey)]
  }

  /** CreateFilter. */
  method CreateFilter(hash: Hash, bitsPerKey: nat, keys: seq<Bytes>) returns (filter: Bytes)
    ensures filter == Filter(hash, bitsPerKey, keys)
  {
    var k := Probes(bitsPerKey);
    var bits := ZeroBytes(FilterBytes(bitsPerKey, |keys|));
    for i := 0 to |keys|
      invariant |bits| == FilterBytes(bitsPerKey, |keys|)
      invariant bits == RaiseAll(ZeroBytes(FilterBytes(bitsPerKey, |keys|)), hash, keys[..i], k)
    {
      bits := MarkKey(bits, hash(keys[i]), k);
      assert keys[..i + 1][..i] == keys[..i];
    }
    assert keys[..|keys|] == keys;
    filter := bits + [k];
  }

  method MarkKey(before: Bytes, hash: Word, k: nat) returns (bits: Bytes)
    requires |before| > 0
    ensures bits == RaiseKey(before, hash, k)
  {
    bits := before;
    var h, delta := hash, Delta(hash);
    for j := 0 to k
      invariant h == Probe(hash, j) && bits == RaiseKey(before, hash, j)
    {
      var bitpos := h % (8 * |bits|);
      bits := Raise(bits, bitpos);
      h := (h + delta) % TWO32;
    }
  }

  /** All k probes of a hash fall on set bits. */
  predicate Marked(bits: Bytes, h: Word, k: nat) {
    |bits| > 0 && forall j :: 0 <= j < k ==> TestBit(bits, Position(h, j, |bits|))
  }

  predicate MayMatch(hash: Hash, key: Bytes, filter: Bytes) {
    var n := |filter| - 1;
    n >= 1 && (filter[n] > 30 || Marked(filter[..n], hash(key), filter[n]))
  }

  /** KeyMayMatch. */
  method KeyMayMatch(hash: Hash, key: Bytes, filter: Bytes) returns (may: bool)
    ensures may == MayMatch(hash, key, filter)
  {
    var len := |filter|;
    if len < 2 { return false; }
    var bits := filter[..len - 1];
    var k := filter[len - 1];
    if k > 30 { return true; }
    var h := hash(key);
    var delta := Delta(h);
    for j := 0 to k
      invariant h == Probe(hash(key), j) && Marked(bits, hash(key), j)
    {
      var bitpos := h % (8 * (len - 1));
      assert bitpos == Position(hash(key), j, |bits|);
      if !TestBit(bits, bitpos) { return false; }
      h := (h + delta) % TWO32;
    }
    return true;
  }

  /** No false negatives: a key of the filter may match. */
  lemma NoFalseNegative(hash: Hash, bitsPerKey: nat, keys: seq<Bytes>, key: Bytes)
    requires key in keys
    ensures MayMatch(hash, key, Filter(hash, bitsPerKey, keys))
  {
    var zeros, k := ZeroBytes(FilterBytes(bitsPerKey, |keys|)), Probes(bitsPerKey);
    var bits := RaiseAll(zeros, hash, keys, k);
    forall j | 0 <= j < k ensures TestBit(bits, Position(hash(key), j, |bits|)) {
      var i := Position(hash(key), j, |bits|);
      assert Probed(hash(key), k, |zeros|, i);
      RaiseAllIs(zeros, hash, keys, k, i);
    }
    assert Filter(hash, bitsPerKey, keys)[..|bits|] == bits;
  }

  /** And nothing is set for other keys: a key that matches has all its bits from keys of the filter. */
  lemma MatchIsCovered(hash: Hash, bitsPerKey: nat, keys: seq<Bytes>, key: Bytes, j: nat)
    requires MayMatch(hash, key, Filter(hash, bitsPerKey, keys)) && j < Probes(bitsPerKey)
    ensures var n := FilterBytes(bitsPerKey, |keys|);
      Covered(hash, keys, Probes(bitsPerKey), n, Position(hash(key), j, n))
  {
    var zeros, k := ZeroBytes(FilterBytes(bitsPerKey, |keys|)), Probes(bitsPerKey);
    var bits := RaiseAll(zeros, hash, keys, k);
    assert Filter(hash, bitsPerKey, keys)[..|bits|] == bits;
    var i := Position(hash(key), j, |bits|);
    RaiseAllIs(zeros, hash, keys, k, i);
    ZeroByte(i % 8);
  }

  /** A key with a probe that no key of the filter sets is denied. */
  lemma UncoveredIsDenied(hash: Hash, bitsPerKey: nat, keys: seq<Bytes>, key: Bytes, j: nat, n: nat, k: nat)
    requires n == FilterBytes(bitsPerKey, |keys|) && k == Probes(bitsPerKey) && j < k
    requires !Covered(hash, keys, k, n, Position(hash(key), j, n))
    ensures !MayMatch(hash, key, Filter(hash, bitsPerKey, keys))
  {
    if MayMatch(hash, key, Filter(hash, bitsPerKey, keys)) { MatchIsCovered(hash, bitsPerKey, keys, key, j); }
  }
}
