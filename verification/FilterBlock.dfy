/**
  The filter block of src/leveldb/filter_block.cc: one filter for the keys of all data blocks
  that start in the same 2 KB of the file.
 */
module FilterBlocks {
  import opened Guards
  import opened Binary
  import opened Coding
  import Bloom

  const BASE_LG: nat := 11
  const BASE: nat := 2048

  /** A filter policy: a filter for a list of keys, and whether a key may be in a filter. */
  datatype Policy = Policy(create: seq<Bytes> -> Bytes, may: (Bytes, Bytes) -> bool)

  ghost predicate NeverMisses(p: Policy) {
    forall keys, k :: k in keys ==> p.may(k, p.create(keys))
  }

  type GoodPolicy = p: Policy | NeverMisses(p) ghost witness Policy(keys => [], (k, f) => true)

  function BloomPolicy(hash: Bloom.Hash, bitsPerKey: nat): Policy {
    Policy((keys: seq<Bytes>) => Bloom.Filter(hash, bitsPerKey, keys),
      (k: Bytes, f: Bytes) => Bloom.MayMatch(hash, k, f))
  }

  lemma BloomNeverMisses(hash: Bloom.Hash, bitsPerKey: nat)
    ensures NeverMisses(BloomPolicy(hash, bitsPerKey))
  {
    var p := BloomPolicy(hash, bitsPerKey);
    forall keys, k | k in keys ensures p.may(k, p.create(keys)) { Bloom.NoFalseNegative(hash, bitsPerKey, keys, k); }
  }

  function FilterOf(p: Policy, keys: seq<Bytes>): Bytes { if keys == [] then [] else p.create(keys) }

  /** The filters of all groups, one after another. */
  function Data(p: Policy, groups: seq<seq<Bytes>>): Bytes {
    if groups == [] then [] else Data(p, groups[..|groups| - 1]) + FilterOf(p, groups[|groups| - 1])
  }

  function Offset(p: Policy, groups: seq<seq<Bytes>>, i: nat): nat
    requires i <= |groups|
  {
    |Data(p, groups[..i])|
  }

  function Offsets(p: Policy, groups: seq<seq<Bytes>>): (r: seq<nat>)
    ensures |r| == |groups|
  {
    seq(|groups|, i requires 0 <= i < |groups| => Offset(p, groups, i))
  }

  /** Filters, where they are, where the offsets are, and the base. */
  function Sealed(d: Bytes, points: seq<nat>): Bytes {
    d + Fixed32s(points) + Fixed(|d|, 4) + [BASE_LG]
  }

  function Contents(p: Policy, groups: seq<seq<Bytes>>): Bytes { Sealed(Data(p, groups), Offsets(p, groups)) }

  /** Filter i lies between two offsets. */
  lemma {:induction false} FilterAt(p: Policy, groups: seq<seq<Bytes>>, i: nat)
    requires i < |groups|
    ensures Offset(p, groups, i) <= Offset(p, groups, i + 1) <= |Data(p, groups)|
    ensures Data(p, groups)[Offset(p, groups, i)..Offset(p, groups, i + 1)] == FilterOf(p, groups[i])
  {
    var n := |groups| - 1;
    var front := groups[..n];
    if i < n {
      FilterAt(p, front, i);
      assert front[..i] == groups[..i] && front[..i + 1] == groups[..i + 1];
    } else {
      assert groups[..i + 1] == groups;
    }
  }

  lemma OffsetsExtend(p: Policy, groups: seq<seq<Bytes>>, g: seq<Bytes>)
    ensures Offsets(p, groups + [g]) == Offsets(p, groups) + [|Data(p, groups)|]
  {
    var after := groups + [g];
    forall i | 0 <= i < |groups| ensures Offset(p, after, i) == Offset(p, groups, i) {
      assert after[..i] == groups[..i];
    }
    assert after[..|groups|] == groups;
  }

  // ------------------------------------------------------------- the flattened keys

  function Flat(keys: seq<Bytes>): Bytes {
    if keys == [] then [] else Flat(keys[..|keys| - 1]) + keys[|keys| - 1]
  }

  ghost predicate Flattened(flat: Bytes, start: seq<nat>, keys: seq<Bytes>) {
    && flat == Flat(keys) && |start| == |keys|
    && forall i {:trigger StartAt(start, keys, i)} :: 0 <= i < |keys| ==> StartAt(start, keys, i)
  }

  ghost predicate StartAt(start: seq<nat>, keys: seq<Bytes>, i: nat)
    requires i < |keys| && |start| == |keys|
  {
    start[i] == |Flat(keys[..i])|
  }

  lemma {:induction false} FlatAt(keys: seq<Bytes>, i: nat)
    requires i < |keys|
    ensures |Flat(keys[..i])| + |keys[i]| == |Flat(keys[..i + 1])| <= |Flat(keys)|
    ensures Flat(keys)[|Flat(keys[..i])|..|Flat(keys[..i + 1])|] == keys[i]
  {
    var n := |keys| - 1;
    var front := keys[..n];
    assert keys[..i + 1][..i] == keys[..i];
    if i < n {
      FlatAt(front, i);
      assert front[..i] == keys[..i] && front[..i + 1] == keys[..i + 1];
    } else {
      assert keys[..i + 1] == keys;
    }
  }

  lemma FlatExtends(flat: Bytes, start: seq<nat>, keys: seq<Bytes>, key: Bytes)
    requires Flattened(flat, start, keys)
    ensures Flattened(flat + key, start + [|flat|], keys + [key])
  {
    var after := keys + [key];
    assert after[..|keys|] == keys;
    forall i | 0 <= i < |after| ensures StartAt(start + [|flat|], after, i) {
      if i < |keys| {
        assert StartAt(start, keys, i);
        assert after[..i] == keys[..i];
      }
    }
  }

  // --------------------------------------------------------------------- the builder

  /** The groups once a block starts at filter number index: the keys so far are the next group. */
  ghost function Started(groups: seq<seq<Bytes>>, pending: seq<Bytes>, index: nat): seq<seq<Bytes>>
    decreases index - |groups|
  {
    if index <= |groups| then groups else Started(groups + [pending], [], index)
  }

  class FilterBlockBuilder {
    const policy: Policy
    var keys: Bytes
    var start: seq<nat>
    var result: Bytes
    var filterOffsets: seq<nat>
    ghost var groups: seq<seq<Bytes>>
    ghost var pending: seq<Bytes>

    ghost predicate Valid()
      reads this
    {
      forall i {:trigger Asked(i)} :: Asked(i) ==> Consistent()
    }

    ghost predicate Consistent()
      reads this
    {
      && result == Data(policy, groups) && filterOffsets == Offsets(policy, groups)
      && Flattened(keys, start, pending)
    }

    constructor (policy: Policy)
      ensures Valid() && this.policy == policy && groups == [] && pending == []
    {
      this.policy := policy;
      keys, start, result, filterOffsets := [], [], [], [];
      groups, pending := [], [];
    }

    method AddKey(key: Bytes)
      requires Valid()
      modifies this
      ensures Valid() && groups == old(groups) && pending == old(pending) + [key]
    {
      assert Asked(0);
      FlatExtends(keys, start, pending, key);
      start := start + [|keys|];
      keys := keys + key;
      pending := pending + [key];
    }

    method StartBlock(blockOffset: nat)
      requires Valid() && |groups| <= blockOffset / BASE
      modifies this
      ensures Valid() && |groups| == blockOffset / BASE
      ensures groups == Started(old(groups), old(pending), blockOffset / BASE)
      ensures pending == if |old(groups)| == blockOffset / BASE then old(pending) else []
    {
      assert Asked(0);
      var filterIndex := blockOffset / BASE;
      while filterIndex > |filterOffsets|
        invariant Valid() && |groups| <= filterIndex
        invariant Started(groups, pending, filterIndex) == Started(old(groups), old(pending), filterIndex)
        invariant pending == if |groups| == |old(groups)| then old(pending) else []
        invariant |groups| >= |old(groups)|
      {
        GenerateFilter();
      }
    }

    method GenerateFilter()
      requires Valid()
      modifies this
      ensures Valid() && groups == old(groups) + [old(pending)] && pending == []
    {
      assert Asked(0);
      OffsetsExtend(policy, groups, pending);
      assert (groups + [pending])[..|groups|] == groups;
      var numKeys := |start|;
      filterOffsets := filterOffsets + [|result|];
      if numKeys != 0 {
        var list := Unflatten();
        result := result + policy.create(list);
        keys, start := [], [];
      }
      groups, pending := groups + [pending], [];
    }

    /** The list of keys, from the flattened key structure. */
    method Unflatten() returns (list: seq<Bytes>)
      requires Flattened(keys, start, pending)
      ensures list == pending
    {
      list := [];
      var ends := start + [|keys|];
      assert pending[..|pending|] == pending;
      for i := 0 to |start|
        invariant list == pending[..i]
      {
        FlatAt(pending, i);
        assert StartAt(start, pending, i) && (i + 1 < |pending| ==> StartAt(start, pending, i + 1));
        assert ends[i + 1] == |Flat(pending[..i + 1])|;
        list := list + [keys[ends[i]..ends[i + 1]]];
      }
    }

    method Finish() returns (contents: Bytes)
      requires Valid()
      modifies this
      ensures groups == if old(pending) == [] then old(groups) else old(groups) + [old(pending)]
      ensures contents == result == Contents(policy, groups)
    {
      assert Asked(0);
      if start != [] {
        GenerateFilter();
      }
      Seal();
      contents := result;
    }

    /** Append the array of per-filter offsets, its offset and the encoding parameter. */
    method Seal()
      modifies this`result
      ensures result == Sealed(old(result), filterOffsets)
    {
      var arrayOffset := |result|;
      for i := 0 to |filterOffsets|
        invariant result == old(result) + Fixed32s(filterOffsets[..i])
      {
        result := result + Fixed(filterOffsets[i], 4);
        assert filterOffsets[..i + 1][..i] == filterOffsets[..i];
      }
      assert filterOffsets[..|filterOffsets|] == filterOffsets;
      result := result + Fixed(arrayOffset, 4);
      result := result + [BASE_LG];
    }
  }

  // ---------------------------------------------------------------------- the reader

  /** What the reader finds in the last bytes. */
  lemma TailReads(d: Bytes, points: seq<nat>)
    requires |d| < TWO32
    ensures var c := Sealed(d, points);
      var n := |c|;
      n == |d| + 4 * |points| + 5 && c[n - 1] == BASE_LG && Word(c, n - 5, |d|)
  {
    var c := Sealed(d, points);
    assert c[|c| - 5..|c| - 1] == Fixed(|d|, 4);
    Fixed32RoundTrip(|d|);
  }

  /** The 32-bit number at an offset. */
  ghost predicate Word(c: Bytes, at: nat, v: nat) {
    at + 4 <= |c| && FixedValue(c[at..at + 4]) == v
  }

  lemma WordReads(d: Bytes, points: seq<nat>, i: nat)
    requires i < |points| && points[i] < TWO32
    ensures Word(Sealed(d, points), |d| + 4 * i, points[i])
  {
    var c := Sealed(d, points);
    Fixed32At(points, i);
    assert c[|d| + 4 * i..|d| + 4 * i + 4] == Fixed32s(points)[4 * i..4 * i + 4];
    Fixed32RoundTrip(points[i]);
  }

  /** The word after the offsets is the end of the last filter. */
  lemma LastWordReads(d: Bytes, points: seq<nat>)
    requires |d| < TWO32
    ensures Word(Sealed(d, points), |d| + 4 * |points|, |d|)
  {
    var c := Sealed(d, points);
    assert c[|d| + 4 * |points|..|d| + 4 * |points| + 4] == Fixed(|d|, 4);
    Fixed32RoundTrip(|d|);
  }

  lemma Slice(d: Bytes, points: seq<nat>, i: nat, j: nat)
    requires i <= j <= |d|
    ensures |d| <= |Sealed(d, points)| && Sealed(d, points)[i..j] == d[i..j]
  {
  }

  lemma BaseIs(lg: nat)
    requires lg == BASE_LG
    ensures Pow2(lg) == BASE
  {
    assert Pow2(lg) == 2048;
  }

  method ReadWord(contents: Bytes, at: nat) returns (v: nat)
    requires at + 4 <= |contents|
    ensures Word(contents, at, v)
  {
    v := FixedValue(contents[at..at + 4]);
  }

  /** FilterBlockReader: the base, where the offsets are and how many; none in a malformed block. */
  datatype Reader = Reader(contents: Bytes, baseLg: nat, lastWord: nat, num: nat)

  method OpenFilter(contents: Bytes) returns (r: Reader)
    ensures forall d, points :: contents == Sealed(d, points) && |d| < TWO32 ==>
      r == Reader(contents, BASE_LG, |d|, |points|)
  {
    r := Reader(contents, 0, 0, 0);
    var n := |contents|;
    if n >= 5 {
      r := Reader(contents, contents[n - 1], 0, 0);
      var lastWord := ReadWord(contents, n - 5);
      if lastWord <= n - 5 {
        r := Reader(contents, contents[n - 1], lastWord, (n - 5 - lastWord) / 4);
      }
    }
    forall d, points | contents == Sealed(d, points) && |d| < TWO32
      ensures r == Reader(contents, BASE_LG, |d|, |points|)
    {
      TailReads(d, points);
    }
  }

  ghost function ReaderOf(p: Policy, groups: seq<seq<Bytes>>): Reader {
    Reader(Contents(p, groups), BASE_LG, |Data(p, groups)|, |groups|)
  }

  /** Filter i is where its two offsets say. */
  ghost predicate Lies(c: Bytes, at: nat, i: nat, a: nat, b: nat, f: Bytes) {
    && Word(c, at + 4 * i, a) && Word(c, at + 4 * (i + 1), b)
    && a <= b <= at <= |c| && c[a..b] == f
  }

  function EndPoint(d: Bytes, points: seq<nat>, i: nat): nat {
    if i < |points| then points[i] else |d|
  }

  lemma WordAt(d: Bytes, points: seq<nat>, i: nat)
    requires |d| < TWO32 && i <= |points| && EndPoint(d, points, i) <= |d|
    ensures Word(Sealed(d, points), |d| + 4 * i, EndPoint(d, points, i))
  {
    if i < |points| { WordReads(d, points, i); } else { LastWordReads(d, points); }
  }

  lemma FilterLies(d: Bytes, points: seq<nat>, i: nat)
    requires |d| < TWO32 && i < |points| && EndPoint(d, points, i) <= EndPoint(d, points, i + 1) <= |d|
    ensures Lies(Sealed(d, points), |d|, i, EndPoint(d, points, i), EndPoint(d, points, i + 1),
      d[EndPoint(d, points, i)..EndPoint(d, points, i + 1)])
  {
    WordAt(d, points, i);
    WordAt(d, points, i + 1);
    Slice(d, points, EndPoint(d, points, i), EndPoint(d, points, i + 1));
  }

  /** What lies between the ends of filter i is filter i. */
  lemma FilterBetween(p: Policy, groups: seq<seq<Bytes>>, i: nat)
    requires i < |groups|
    ensures var d, points := Data(p, groups), Offsets(p, groups);
      && EndPoint(d, points, i) <= EndPoint(d, points, i + 1) <= |d|
      && d[EndPoint(d, points, i)..EndPoint(d, points, i + 1)] == FilterOf(p, groups[i])
  {
    FilterAt(p, groups, i);
    if i + 1 == |groups| { assert groups[..i + 1] == groups; }
  }

  /** KeyMayMatch: whether a key may be in the data block that starts at an offset. */
  method KeyMayMatch(policy: Policy, r: Reader, blockOffset: nat, key: Bytes, ghost groups: seq<seq<Bytes>>)
    returns (may: bool)
    requires r == ReaderOf(policy, groups) && |Data(policy, groups)| < TWO32
    ensures may == (blockOffset / BASE < |groups| ==> policy.may(key, FilterOf(policy, groups[blockOffset / BASE])))
  {
    BaseIs(r.baseLg);
    may := true;
    var index := blockOffset / Pow2(r.baseLg);
    if index < r.num {
      ghost var d, points := Data(policy, groups), Offsets(policy, groups);
      FilterBetween(policy, groups, index);
      FilterLies(d, points, index);
      may := FilterMayMatch(policy, r.contents, r.lastWord, index, key, EndPoint(d, points, index),
        EndPoint(d, points, index + 1), FilterOf(policy, groups[index]));
    }
  }

  /** The filter of a block never denies a key that was added for it. */
  lemma GroupMayMatch(p: GoodPolicy, group: seq<Bytes>, key: Bytes)
    requires key in group
    ensures p.may(key, FilterOf(p, group))
  {
  }

  /** Match against the filter f between the offsets a and b. */
  method FilterMayMatch(policy: Policy, contents: Bytes, lastWord: nat, index: nat, key: Bytes, ghost a: nat,
      ghost b: nat, ghost f: Bytes)
    returns (may: bool)
    requires Lies(contents, lastWord, index, a, b, f)
    ensures may == policy.may(key, f)
  {
    var start := ReadWord(contents, lastWord + 4 * index);
    var limit := ReadWord(contents, lastWord + 4 * index + 4);
    may := true;
    if start <= limit && limit <= lastWord {
      may := policy.may(key, contents[start..limit]);
    } else if start == limit {
      may := false;
    }
  }
}
