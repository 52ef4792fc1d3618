/** The index of src/ect.cc: sorted byte keys in, ranks out. */
module TrieKeys {
  import opened Binary
  import opened Coding
  import opened TrieCode
  import SignInterleave

  /** The bits of a key, the highest bit of its first byte first. */
  function KeyBits(key: Bytes): (bits: Bits)
    ensures |bits| == 8 * |key|
  {
    if key == [] then [] else
      assert key[0] < Pow2(8);
      BitsOf(key[0], 8) + KeyBits(key[1..])
  }

  /** The order of memcmp on keys of one length. */
  predicate BytesLess(a: Bytes, b: Bytes) {
    a != [] && b != [] && (a[0] < b[0] || (a[0] == b[0] && BytesLess(a[1..], b[1..])))
  }

  lemma {:induction false} NumberOrder(x: nat, y: nat, k: nat)
    requires x < Pow2(k) && y < Pow2(k)
    ensures Less(BitsOf(x, k), BitsOf(y, k)) <==> x < y
  {
    if k > 0 {
      var h := Pow2(k - 1);
      var x', y' := if x < h then x else x - h, if y < h then y else y - h;
      NumberOrder(x', y', k - 1);
      assert BitsOf(x, k)[0] == (x >= h) && BitsOf(x, k)[1..] == BitsOf(x', k - 1);
      assert BitsOf(y, k)[0] == (y >= h) && BitsOf(y, k)[1..] == BitsOf(y', k - 1);
    }
  }

  /** Order of strings by their first parts, then by their second. */
  lemma {:induction false} OrderOfJoins(a: Bits, b: Bits, s: Bits, t: Bits)
    requires |a| == |b|
    ensures Less(a + s, b + t) <==> Less(a, b) || (a == b && Less(s, t))
  {
    if a == [] {
      assert a + s == s && b + t == t;
    } else {
      OrderOfJoins(a[1..], b[1..], s, t);
      assert (a + s)[1..] == a[1..] + s && (b + t)[1..] == b[1..] + t;
      assert a == [a[0]] + a[1..] && b == [b[0]] + b[1..];
      Irreflexive(a);
    }
  }

  lemma {:induction false} Irreflexive(a: Bits)
    ensures !Less(a, a)
  {
    if a != [] { Irreflexive(a[1..]); }
  }

  /** Sorting keys by memcmp sorts their bit strings. */
  lemma {:induction false} KeyOrder(a: Bytes, b: Bytes)
    requires |a| == |b|
    ensures Less(KeyBits(a), KeyBits(b)) <==> BytesLess(a, b)
  {
    if a != [] {
      assert a[0] < Pow2(8) && b[0] < Pow2(8);
      KeyOrder(a[1..], b[1..]);
      NumberOrder(a[0], b[0], 8);
      NumberOrder(b[0], a[0], 8);
      OrderOfJoins(BitsOf(a[0], 8), BitsOf(b[0], 8), KeyBits(a[1..]), KeyBits(b[1..]));
      ValueOfBitsOf(a[0], 8);
      ValueOfBitsOf(b[0], 8);
    }
  }

  lemma {:induction false} KeyBitsInjective(a: Bytes, b: Bytes)
    requires |a| == |b| && KeyBits(a) == KeyBits(b)
    ensures a == b
  {
    if a != [] {
      assert a[0] < Pow2(8) && b[0] < Pow2(8);
      assert KeyBits(a)[..8] == BitsOf(a[0], 8) && KeyBits(b)[..8] == BitsOf(b[0], 8);
      assert KeyBits(a)[8..] == KeyBits(a[1..]) && KeyBits(b)[8..] == KeyBits(b[1..]);
      ValueOfBitsOf(a[0], 8);
      ValueOfBitsOf(b[0], 8);
      KeyBitsInjective(a[1..], b[1..]);
      assert a == [a[0]] + a[1..] && b == [b[0]] + b[1..];
    }
  }

  /** What InsertKeys expects: keys of one length, sorted and distinct. */
  ghost predicate SortedBytes(keys: seq<Bytes>, len: nat) {
    && |keys| < SignInterleave.TWO63
    && (forall i :: 0 <= i < |keys| ==> |keys[i]| == len)
    && (forall i, j :: 0 <= i < j < |keys| ==> BytesLess(keys[i], keys[j]))
  }

  function AllBits(keys: seq<Bytes>): (bits: seq<Bits>)
    ensures |bits| == |keys| && forall i :: 0 <= i < |keys| ==> bits[i] == KeyBits(keys[i])
  {
    seq(|keys|, i requires 0 <= i < |keys| => KeyBits(keys[i]))
  }

  lemma SortedBits(keys: seq<Bytes>, len: nat)
    requires SortedBytes(keys, len)
    ensures SortedKeys(AllBits(keys), 8 * len)
  {
    forall i, j | 0 <= i < j < |keys| ensures Less(AllBits(keys)[i], AllBits(keys)[j]) {
      KeyOrder(keys[i], keys[j]);
    }
  }
}

module TrieIndex {
  import opened BitVectors
  import opened Coding
  import opened TrieCode
  import opened TrieKeys
  import opened TrieLocate
  import opened TrieMethods

  /** The number of stored keys that come before the given one. */
  ghost function BytesRank(keys: seq<Bytes>, key: Bytes): nat {
    if keys == [] then 0
    else BytesRank(keys[..|keys| - 1], key) + if BytesLess(keys[|keys| - 1], key) then 1 else 0
  }

  lemma {:induction false} RankOfBits(keys: seq<Bytes>, key: Bytes, all: seq<Bytes>)
    requires keys <= all && forall i :: 0 <= i < |keys| ==> |keys[i]| == |key|
    ensures Rank(AllBits(all), KeyBits(key), 0, |keys|) == BytesRank(keys, key)
  {
    if keys != [] {
      RankOfBits(keys[..|keys| - 1], key, all);
      KeyOrder(keys[|keys| - 1], key);
    }
  }

  const LIMIT: nat := 16

  class Index {
    const keyLength: nat
    const coder: Coder
    var bits: BitVector
    var n: nat
    ghost var keys: seq<Bytes>
    ghost var trie: Trie

    ghost predicate Valid()
      reads this, bits, bits.buf
    {
      && bits.Valid() && coder.f == Standard(LIMIT, 0, 1)
      && n == |keys| && SortedBytes(keys, keyLength)
      && IsTrie(coder.f, trie, AllBits(keys), 0, n, 0, 8 * keyLength)
      && bits.Bits() == Write(coder.f, trie, n)
    }

    constructor (keyLength: nat)
      ensures Valid() && fresh(bits) && fresh(bits.buf) && this.keyLength == keyLength && keys == []
    {
      var tables := BuildBuffer(LIMIT);
      StandardDescribes(tables, 0, 1);
      this.keyLength, coder := keyLength, Parts(tables, 0, 1, Standard(LIMIT, 0, 1));
      bits := new BitVector();
      n, keys, trie := 0, [], Cut;
    }

    method InsertKeys(newKeys: seq<Bytes>)
      requires Valid() && n == 0 && SortedBytes(newKeys, keyLength)
      modifies this, bits, bits.buf
      ensures Valid() && keys == newKeys && bits == old(bits) && fresh(bits.buf)
    {
      SortedBits(newKeys, keyLength);
      ghost var t := TrieExists(coder.f, AllBits(newKeys), 8 * keyLength, 0, |newKeys|, 0, 8 * keyLength);
      EncodeRec(bits, coder, AllBits(newKeys), 0, |newKeys|, 0, t, 8 * keyLength);
      bits.Resize(bits.size);
      n, keys, trie := |newKeys|, newKeys, t;
    }

    /** A stored key's rank exactly; for any other key, its rank or one less. */
    method Find(key: Bytes) returns (rank: nat)
      requires Valid() && |key| == keyLength
      ensures forall i :: 0 <= i < |keys| && keys[i] == key ==> rank == i
      ensures rank <= BytesRank(keys, key) <= rank + 1
    {
      assert bits.Bits()[0..] == Write(coder.f, trie, n) + [];
      var pos;
      TrieIsSized(coder.f, trie, AllBits(keys), 0, n, 0, 8 * keyLength);
      rank, pos := LocateRec(bits, 0, coder, KeyBits(key), 0, n, 0, Place(coder.f, trie, 0, n, 8 * keyLength), []);
      FindIsRight(trie, keys, key, keyLength);
    }
  }

  lemma FindIsRight(t: Trie, keys: seq<Bytes>, key: Bytes, len: nat)
    requires SortedBytes(keys, len) && |key| == len
    requires IsTrie(Standard(LIMIT, 0, 1), t, AllBits(keys), 0, |keys|, 0, 8 * len)
    ensures var rank := Descend(t, KeyBits(key), 0);
      && (forall i :: 0 <= i < |keys| && keys[i] == key ==> rank == i)
      && rank <= BytesRank(keys, key) <= rank + 1
  {
    var f, all, bits := Standard(LIMIT, 0, 1), AllBits(keys), KeyBits(key);
    var m := DescendLands(f, t, all, bits, 0, |keys|, 0, 8 * len);
    RankOfBits(keys, key, keys);
    assert Unwritten(0, 1, Descend(t, bits, 0), m);
    assert m <= 1;
  }
}
