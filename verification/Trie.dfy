/**
  The entropy-coded trie of src/ectrie/trie.h.

  A sorted array of equally long keys is written as nothing but the sizes of left
  subtrees, in depth-first order.  Looking a key up walks those bits, skipping the
  encodings of the subtrees it does not enter, and gives the key's rank.
 */
module TrieCode {
  import opened Binary
  import HuffmanTrees
  import HuffmanCodes
  import HuffmanTables
  import ExpGolomb
  import SignInterleave

  // ------------------------------------------------------------ left subtree sizes

  /** Binomial weights: how often a random split of n keys puts k of them left. */
  function SplitFreqs(n: nat): (w: seq<nat>)
    ensures |w| == n + 1
  {
    seq(n + 1, k requires 0 <= k <= n => HuffmanTables.Choose(n, k))
  }

  function SizeTree(n: nat): HuffmanTrees.Tree {
    HuffmanTrees.Huffman(SplitFreqs(n))
  }

  datatype Parsed = Short | Size(left: nat, rest: Bits)

  /** The code of a node's left size; Huffman codes serve the nodes of up to limit keys. */
  function SizeCode(limit: nat, n: nat, left: nat): Bits {
    if left > n then []
    else if n <= limit then
      HuffmanCodes.HuffmanTreeOk(SplitFreqs(n));
      HuffmanCodes.Code(SizeTree(n), left)
    else
      ExpGolomb.Code(SignInterleave.Encode(SignInterleave.Minus(left, n / 2)))
  }

  function ParseSize(limit: nat, n: nat, bits: Bits): Parsed {
    if n <= limit then
      if bits == [] then Short
      else
        match HuffmanCodes.Walk(SizeTree(n), bits)
        case Stuck => Short
        case Symbol(left, rest) => Size(left, rest)
    else
      match ExpGolomb.Parse(bits)
      case Short => Short
      case Number(v, rest) =>
        if v < SignInterleave.TWO64 then Size(SignInterleave.Plus(SignInterleave.Decode(v), n / 2), rest) else Short
  }

  /** Only a tree of one leaf can be walked without reading a bit. */
  lemma SizeTreeIsJoin(n: nat)
    requires n >= 1
    ensures SizeTree(n).Join?
  {
    HuffmanCodes.HuffmanTreeOk(SplitFreqs(n));
    assert 0 in HuffmanCodes.Symbols(SizeTree(n)) && 1 in HuffmanCodes.Symbols(SizeTree(n));
  }

  lemma SizeRoundTrip(limit: nat, n: nat, left: nat, rest: Bits)
    requires 1 <= n < SignInterleave.TWO63 && left <= n
    ensures ParseSize(limit, n, SizeCode(limit, n, left) + rest) == Size(left, rest)
  {
    if n <= limit {
      HuffmanCodes.HuffmanTreeOk(SplitFreqs(n));
      HuffmanCodes.CodeRoundTrip(SizeTree(n), left, rest);
      SizeTreeIsJoin(n);
    } else {
      SignInterleave.OffsetRoundTrip(left, n);
      ExpGolomb.RoundTrip(SignInterleave.Encode(SignInterleave.Minus(left, n / 2)), rest);
    }
  }

  // ------------------------------------------------------------------------- keys

  /** Keys are bit strings of one length; this is their lexicographic order. */
  predicate Less(a: Bits, b: Bits) {
    a != [] && b != [] && if a[0] == b[0] then Less(a[1..], b[1..]) else b[0]
  }

  /** The first d bits of two keys are the same. */
  ghost predicate Agree(a: Bits, b: Bits, d: nat) {
    d <= |a| && d <= |b| && forall k :: 0 <= k < d ==> a[k] == b[k]
  }

  /** Where two keys part: they agree on the first d bits, and a has 0 where b has 1. */
  ghost predicate PartAt(a: Bits, b: Bits, d: nat) {
    Agree(a, b, d) && d < |a| && d < |b| && !a[d] && b[d]
  }

  lemma {:induction false} LessParts(a: Bits, b: Bits) returns (d: nat)
    requires Less(a, b)
    ensures PartAt(a, b, d)
  {
    if a[0] == b[0] {
      d := LessParts(a[1..], b[1..]);
      forall k | 0 <= k < d + 1 ensures a[k] == b[k] {
        if k > 0 { assert a[1..][k - 1] == b[1..][k - 1]; }
      }
      d := d + 1;
    } else {
      d := 0;
    }
  }

  lemma {:induction false} PartsLess(a: Bits, b: Bits, d: nat)
    requires PartAt(a, b, d)
    ensures Less(a, b)
  {
    if d > 0 {
      PartsLess(a[1..], b[1..], d - 1);
    }
  }

  /** A sorted array of distinct keys of the given length. */
  ghost predicate SortedKeys(keys: seq<Bits>, len: nat) {
    && |keys| < SignInterleave.TWO63
    && (forall i :: 0 <= i < |keys| ==> |keys[i]| == len)
    && (forall i, j :: 0 <= i < j < |keys| ==> Less(keys[i], keys[j]))
  }

  /** The keys off..off+n all begin with the same depth bits. */
  ghost predicate Group(keys: seq<Bits>, len: nat, off: nat, n: nat, depth: nat) {
    && off + n <= |keys| && depth <= len
    && forall i, j :: off <= i < off + n && off <= j < off + n ==> Agree(keys[i], keys[j], depth)
  }

  /** Keys of a group that lie in order do so by their bits from depth on. */
  lemma GroupOrder(keys: seq<Bits>, len: nat, off: nat, n: nat, depth: nat, i: nat, j: nat)
    requires SortedKeys(keys, len) && Group(keys, len, off, n, depth) && off <= i < j < off + n
    ensures depth < len && (keys[i][depth] ==> keys[j][depth])
  {
    var d := LessParts(keys[i], keys[j]);
    assert Agree(keys[i], keys[j], depth);
  }

  /** Two distinct keys cannot agree on all their bits: encode_rec's assertion. */
  lemma DepthInRange(keys: seq<Bits>, len: nat, off: nat, n: nat, depth: nat)
    requires SortedKeys(keys, len) && Group(keys, len, off, n, depth) && n >= 2
    ensures depth < len
  {
    GroupOrder(keys, len, off, n, depth, off, off + 1);
  }

  /** Of the keys off..off+n, the first left ones have a 0 at this depth and the others a 1. */
  ghost predicate SplitAt(keys: seq<Bits>, off: nat, n: nat, left: nat, depth: nat) {
    && left <= n && off + n <= |keys|
    && (forall i :: off <= i < off + left ==> depth < |keys[i]| && !keys[i][depth])
    && (forall i :: off + left <= i < off + n ==> depth < |keys[i]| && keys[i][depth])
  }

  /** Where the first key with a 1 stands, the group splits into two groups one bit deeper. */
  lemma SplitGroup(keys: seq<Bits>, len: nat, off: nat, n: nat, depth: nat, left: nat)
    requires SortedKeys(keys, len) && Group(keys, len, off, n, depth) && depth < len
    requires left <= n && (forall i :: off <= i < off + left ==> !keys[i][depth])
    requires left < n ==> keys[off + left][depth]
    ensures SplitAt(keys, off, n, left, depth)
    ensures Group(keys, len, off, left, depth + 1) && Group(keys, len, off + left, n - left, depth + 1)
  {
    forall i | off + left <= i < off + n ensures keys[i][depth] {
      if i > off + left { GroupOrder(keys, len, off, n, depth, off + left, i); }
    }
    assert forall i, j :: off <= i < off + n && off <= j < off + n ==> Agree(keys[i], keys[j], depth);
  }

  /** The left and right halves are groups again, one bit deeper. */
  lemma Halves(keys: seq<Bits>, len: nat, off: nat, n: nat, depth: nat) returns (left: nat)
    requires SortedKeys(keys, len) && Group(keys, len, off, n, depth) && depth < len
    ensures SplitAt(keys, off, n, left, depth)
    ensures Group(keys, len, off, left, depth + 1) && Group(keys, len, off + left, n - left, depth + 1)
  {
    left := 0;
    while left < n && !keys[off + left][depth]
      invariant left <= n && forall i :: off <= i < off + left ==> !keys[i][depth]
    {
      left := left + 1;
    }
    SplitGroup(keys, len, off, n, depth, left);
  }

  // --------------------------------------------------------------------- encoding

  /** A subtree is not written when it holds at most one key, or only keys of one block. */
  predicate Unwritten(base: nat, perBlock: nat, off: nat, n: nat) {
    n <= 1 || (n <= perBlock && (base + off) / perBlock == (base + off + n - 1) / perBlock)
  }

  /** How sizes are coded, and which subtrees (off, n) are left out. */
  datatype Format = Format(code: (nat, nat) -> Bits, parse: (nat, Bits) -> Parsed, cut: (nat, nat) -> bool)

  /** The format of the source: Huffman codes up to limit keys, key i in block (base + i) / perBlock. */
  function Standard(limit: nat, base: nat, perBlock: nat): Format {
    Format((n: nat, left: nat) => SizeCode(limit, n, left), (n: nat, bits: Bits) => ParseSize(limit, n, bits),
           (off: nat, n: nat) => Unwritten(base, perBlock, off, n))
  }

  /** Sizes of 1 to 2^63 - 1 keys can be read back, and only subtrees of two keys or more are written. */
  ghost predicate Lawful(f: Format) {
    && (forall n: nat, left: nat, rest ::
          left <= n && 1 <= n < SignInterleave.TWO63 ==> f.parse(n, f.code(n, left) + rest) == Size(left, rest))
    && (forall off: nat, n: nat :: n <= 1 ==> f.cut(off, n))
  }

  lemma StandardIsLawful(limit: nat, base: nat, perBlock: nat)
    ensures Lawful(Standard(limit, base, perBlock))
  {
    var f := Standard(limit, base, perBlock);
    forall n: nat, left: nat, rest | left <= n && 1 <= n < SignInterleave.TWO63
      ensures f.parse(n, f.code(n, left) + rest) == Size(left, rest)
    {
      SizeRoundTrip(limit, n, left, rest);
    }
  }

  /** The part of the trie that is written: each node holds the size of its left subtree. */
  datatype Trie = Cut | Node(left: nat, lo: Trie, hi: Trie)

  /** t is the trie of the keys off..off+n by their d bits from depth on. */
  ghost predicate IsTrie(f: Format, t: Trie, keys: seq<Bits>, off: nat, n: nat, depth: nat, d: nat) {
    match t
    case Cut => f.cut(off, n)
    case Node(left, lo, hi) =>
      && !f.cut(off, n) && d > 0 && n < SignInterleave.TWO63
      && SplitAt(keys, off, n, left, depth)
      && IsTrie(f, lo, keys, off, left, depth + 1, d - 1)
      && IsTrie(f, hi, keys, off + left, n - left, depth + 1, d - 1)
  }

  /** The sizes of t add up to n keys from off, at most d bits deep, and t is cut where it should be. */
  ghost predicate Sized(f: Format, t: Trie, off: nat, n: nat, d: nat) {
    match t
    case Cut => f.cut(off, n)
    case Node(left, lo, hi) =>
      && !f.cut(off, n) && d > 0 && left <= n < SignInterleave.TWO63
      && Sized(f, lo, off, left, d - 1) && Sized(f, hi, off + left, n - left, d - 1)
  }

  lemma {:induction false} TrieIsSized(f: Format, t: Trie, keys: seq<Bits>, off: nat, n: nat, depth: nat, d: nat)
    requires IsTrie(f, t, keys, off, n, depth, d)
    ensures Sized(f, t, off, n, d)
    decreases t
  {
    match t
    case Cut =>
    case Node(left, lo, hi) =>
      TrieIsSized(f, lo, keys, off, left, depth + 1, d - 1);
      TrieIsSized(f, hi, keys, off + left, n - left, depth + 1, d - 1);
  }

  /** Sorted distinct keys of any length have a trie: the assertion of encode_rec never fails. */
  lemma {:induction false} TrieExists(f: Format, keys: seq<Bits>, len: nat, off: nat, n: nat, depth: nat, d: nat)
    returns (t: Trie)
    requires Lawful(f) && SortedKeys(keys, len) && Group(keys, len, off, n, depth) && depth + d == len
    ensures IsTrie(f, t, keys, off, n, depth, d)
    decreases d
  {
    if f.cut(off, n) {
      t := Cut;
    } else {
      DepthInRange(keys, len, off, n, depth);
      var left := Halves(keys, len, off, n, depth);
      var lo := TrieExists(f, keys, len, off, left, depth + 1, d - 1);
      var hi := TrieExists(f, keys, len, off + left, n - left, depth + 1, d - 1);
      t := Node(left, lo, hi);
    }
  }

  /** The bits of a trie over n keys: a node's left size, its left subtree, its right one. */
  ghost function Write(f: Format, t: Trie, n: nat): Bits {
    match t
    case Cut => []
    case Node(left, lo, hi) =>
      if left <= n then f.code(n, left) + (Write(f, lo, left) + Write(f, hi, n - left)) else []
  }

  datatype Walked = Lost | Found(rank: nat, rest: Bits)

  /** skip_rec: pass over the encoding of a subtree at most d bits deep.  Lost if the bits are not one. */
  function Skip(f: Format, bits: Bits, off: nat, n: nat, d: nat): Walked
    decreases d
  {
    if f.cut(off, n) then Found(0, bits)
    else if d == 0 then Lost
    else
      match f.parse(n, bits)
      case Short => Lost
      case Size(left, rest) =>
        if left > n then Lost
        else
          match Skip(f, rest, off, left, d - 1)
          case Lost => Lost
          case Found(_, rest') => Skip(f, rest', off + left, n - left, d - 1)
  }

  /** locate_rec: the rank of the key among the n keys of a subtree. */
  function Locate(f: Format, bits: Bits, key: Bits, off: nat, n: nat, depth: nat): Walked
    requires depth <= |key|
    decreases |key| - depth
  {
    if f.cut(off, n) then Found(0, bits)
    else if depth == |key| then Lost
    else
      match f.parse(n, bits)
      case Short => Lost
      case Size(left, rest) =>
        if left > n then Lost
        else if !key[depth] then Locate(f, rest, key, off, left, depth + 1)
        else
          match Skip(f, rest, off, left, |key| - depth - 1)
          case Lost => Lost
          case Found(_, rest') =>
            match Locate(f, rest', key, off + left, n - left, depth + 1)
            case Lost => Lost
            case Found(rank, rest'') => Found(left + rank, rest'')
  }
}

/** Decoding undoes encoding: skipping is exact and lookups give the right rank. */
module TrieLocate {
  import opened Binary
  import opened TrieCode
  import SignInterleave

  /** How many of the keys off..off+n are less than the given one: its true rank. */
  ghost function Rank(keys: seq<Bits>, key: Bits, off: nat, n: nat): nat
    requires off + n <= |keys|
  {
    if n == 0 then 0 else Rank(keys, key, off, n - 1) + if Less(keys[off + n - 1], key) then 1 else 0
  }

  lemma {:induction false} RankSplit(keys: seq<Bits>, key: Bits, off: nat, n: nat, left: nat)
    requires off + n <= |keys| && left <= n
    ensures Rank(keys, key, off, n) == Rank(keys, key, off, left) + Rank(keys, key, off + left, n - left)
  {
    if left < n { RankSplit(keys, key, off, n - 1, left); }
  }

  lemma {:induction false} RankBound(keys: seq<Bits>, key: Bits, off: nat, n: nat)
    requires off + n <= |keys|
    ensures Rank(keys, key, off, n) <= n
    ensures (forall i :: off <= i < off + n ==> Less(keys[i], key)) ==> Rank(keys, key, off, n) == n
    ensures (forall i :: off <= i < off + n ==> !Less(keys[i], key)) ==> Rank(keys, key, off, n) == 0
  {
    if n > 0 { RankBound(keys, key, off, n - 1); }
  }

  /** The key agrees with every key of the group as far as the group does with itself. */
  ghost predicate Joins(keys: seq<Bits>, off: nat, n: nat, depth: nat, key: Bits) {
    off + n <= |keys| && depth <= |key| && forall i :: off <= i < off + n ==> Agree(keys[i], key, depth)
  }

  lemma LessAsymmetric(a: Bits, b: Bits, d: nat)
    requires PartAt(b, a, d)
    ensures !Less(a, b)
  {
    if Less(a, b) { var _ := LessParts(a, b); }
  }

  /** A key with a 0 at this depth is not above any key of the right half. */
  lemma RightIsAbove(keys: seq<Bits>, key: Bits, off: nat, n: nat, depth: nat)
    requires Joins(keys, off, n, depth, key) && depth < |key| && !key[depth]
    requires forall i :: off <= i < off + n ==> depth < |keys[i]| && keys[i][depth]
    ensures Rank(keys, key, off, n) == 0
  {
    forall i | off <= i < off + n ensures !Less(keys[i], key) { LessAsymmetric(keys[i], key, depth); }
    RankBound(keys, key, off, n);
  }

  /** A key with a 1 at this depth is above all keys of the left half. */
  lemma LeftIsBelow(keys: seq<Bits>, key: Bits, off: nat, n: nat, depth: nat)
    requires Joins(keys, off, n, depth, key) && depth < |key| && key[depth]
    requires forall i :: off <= i < off + n ==> depth < |keys[i]| && !keys[i][depth]
    ensures Rank(keys, key, off, n) == n
  {
    forall i | off <= i < off + n ensures Less(keys[i], key) { PartsLess(keys[i], key, depth); }
    RankBound(keys, key, off, n);
  }

  // ------------------------------------------------------------- reading the bits

  lemma ParseFirst(f: Format, n: nat, left: nat, a: Bits, b: Bits, rest: Bits)
    requires Lawful(f) && 1 <= n < SignInterleave.TWO63 && left <= n
    ensures f.parse(n, f.code(n, left) + (a + b) + rest) == Size(left, a + (b + rest))
  {
    assert f.code(n, left) + (a + b) + rest == f.code(n, left) + (a + (b + rest));
  }

  lemma SkipJoin(f: Format, a: Bits, b: Bits, off: nat, n: nat, d: nat, left: nat, rest: Bits)
    requires Lawful(f) && !f.cut(off, n) && left <= n < SignInterleave.TWO63
    requires Skip(f, a + (b + rest), off, left, d) == Found(0, b + rest)
    requires Skip(f, b + rest, off + left, n - left, d) == Found(0, rest)
    ensures Skip(f, f.code(n, left) + (a + b) + rest, off, n, d + 1) == Found(0, rest)
  {
    ParseFirst(f, n, left, a, b, rest);
  }

  /** Skipping a subtree consumes exactly the bits that writing it produced. */
  lemma {:induction false} SkipIsExact(f: Format, t: Trie, off: nat, n: nat, d: nat, rest: Bits)
    requires Lawful(f) && Sized(f, t, off, n, d)
    ensures Skip(f, Write(f, t, n) + rest, off, n, d) == Found(0, rest)
    decreases t
  {
    if t.Cut? {
      assert [] + rest == rest;
    } else {
      var b := Write(f, t.hi, n - t.left);
      SkipIsExact(f, t.lo, off, t.left, d - 1, b + rest);
      SkipIsExact(f, t.hi, off + t.left, n - t.left, d - 1, rest);
      SkipJoin(f, Write(f, t.lo, t.left), b, off, n, d - 1, t.left, rest);
    }
  }

  /** The walk of a lookup, on the trie instead of its bits. */
  ghost function Descend(t: Trie, key: Bits, depth: nat): nat {
    match t
    case Cut => 0
    case Node(left, lo, hi) =>
      if depth < |key| && key[depth] then left + Descend(hi, key, depth + 1) else Descend(lo, key, depth + 1)
  }

  /** Found at this rank, without touching the bits after the encoding. */
  predicate Locates(w: Walked, rank: nat, rest: Bits) {
    w.Found? && w.rank == rank && |rest| <= |w.rest|
  }

  lemma LocateLeft(f: Format, a: Bits, b: Bits, key: Bits, off: nat, n: nat, depth: nat, left: nat, rank: nat,
      rest: Bits)
    requires Lawful(f) && !f.cut(off, n) && left <= n < SignInterleave.TWO63 && depth < |key| && !key[depth]
    requires Locates(Locate(f, a + (b + rest), key, off, left, depth + 1), rank, b + rest)
    ensures Locates(Locate(f, f.code(n, left) + (a + b) + rest, key, off, n, depth), rank, rest)
  {
    ParseFirst(f, n, left, a, b, rest);
  }

  lemma LocateRight(f: Format, a: Bits, b: Bits, key: Bits, off: nat, n: nat, depth: nat, left: nat, rank: nat,
      rest: Bits)
    requires Lawful(f) && !f.cut(off, n) && left <= n < SignInterleave.TWO63 && depth < |key| && key[depth]
    requires Skip(f, a + (b + rest), off, left, |key| - depth - 1) == Found(0, b + rest)
    requires Locates(Locate(f, b + rest, key, off + left, n - left, depth + 1), rank, rest)
    ensures Locates(Locate(f, f.code(n, left) + (a + b) + rest, key, off, n, depth), left + rank, rest)
  {
    ParseFirst(f, n, left, a, b, rest);
  }

  /** A lookup reads only bits of the encoding, and does what the walk on the trie does. */
  lemma {:induction false} LocateDescends(f: Format, t: Trie, key: Bits, off: nat, n: nat, depth: nat, d: nat,
      rest: Bits)
    requires Lawful(f) && depth + d == |key| && Sized(f, t, off, n, d)
    ensures Locates(Locate(f, Write(f, t, n) + rest, key, off, n, depth), Descend(t, key, depth), rest)
    decreases t
  {
    if t.Cut? {
      assert [] + rest == rest;
    } else {
      var left := t.left;
      var a, b := Write(f, t.lo, left), Write(f, t.hi, n - left);
      if key[depth] {
        SkipIsExact(f, t.lo, off, left, d - 1, b + rest);
        LocateDescends(f, t.hi, key, off + left, n - left, depth + 1, d - 1, rest);
        LocateRight(f, a, b, key, off, n, depth, left, Descend(t.hi, key, depth + 1), rest);
      } else {
        LocateDescends(f, t.lo, key, off, left, depth + 1, d - 1, b + rest);
        LocateLeft(f, a, b, key, off, n, depth, left, Descend(t.lo, key, depth + 1), rest);
      }
    }
  }

  // ------------------------------------------------------------ what the walk finds

  /**
    The walk ends at an unwritten subtree, of m keys.  Its answer r is the number of keys
    before that subtree; the key's true rank, and the key itself if it is stored, lie in it.
   */
  ghost predicate Lands(f: Format, r: nat, keys: seq<Bits>, key: Bits, off: nat, n: nat, m: nat)
    requires off + n <= |keys|
  {
    && r + m <= n && f.cut(off + r, m)
    && r <= Rank(keys, key, off, n) <= r + m
    && (forall i :: off <= i < off + n && keys[i] == key ==> r <= i - off < r + m)
  }

  lemma LandsLeft(f: Format, r: nat, keys: seq<Bits>, key: Bits, off: nat, n: nat, left: nat, depth: nat, m: nat)
    requires SplitAt(keys, off, n, left, depth) && Joins(keys, off, n, depth, key) && depth < |key| && !key[depth]
    requires Lands(f, r, keys, key, off, left, m)
    ensures Lands(f, r, keys, key, off, n, m)
  {
    RightIsAbove(keys, key, off + left, n - left, depth);
    RankSplit(keys, key, off, n, left);
  }

  lemma LandsRight(f: Format, r: nat, keys: seq<Bits>, key: Bits, off: nat, n: nat, left: nat, depth: nat, m: nat)
    requires SplitAt(keys, off, n, left, depth) && Joins(keys, off, n, depth, key) && depth < |key| && key[depth]
    requires Lands(f, r, keys, key, off + left, n - left, m)
    ensures Lands(f, left + r, keys, key, off, n, m)
  {
    LeftIsBelow(keys, key, off, left, depth);
    RankSplit(keys, key, off, n, left);
  }

  /** Taking the side of its own bit, the key joins the half it enters. */
  lemma JoinsHalf(keys: seq<Bits>, off: nat, n: nat, left: nat, depth: nat, key: Bits)
    requires SplitAt(keys, off, n, left, depth) && Joins(keys, off, n, depth, key) && depth < |key|
    ensures key[depth] ==> Joins(keys, off + left, n - left, depth + 1, key)
    ensures !key[depth] ==> Joins(keys, off, left, depth + 1, key)
  {
  }

  lemma {:induction false} DescendLands(f: Format, t: Trie, keys: seq<Bits>, key: Bits, off: nat, n: nat, depth: nat,
      d: nat)
    returns (m: nat)
    requires IsTrie(f, t, keys, off, n, depth, d) && Joins(keys, off, n, depth, key) && depth + d == |key|
    ensures Lands(f, Descend(t, key, depth), keys, key, off, n, m)
    decreases t
  {
    match t
    case Cut =>
      m := n;
      RankBound(keys, key, off, n);
    case Node(left, lo, hi) =>
      JoinsHalf(keys, off, n, left, depth, key);
      if key[depth] {
        m := DescendLands(f, hi, keys, key, off + left, n - left, depth + 1, d - 1);
        LandsRight(f, Descend(hi, key, depth + 1), keys, key, off, n, left, depth, m);
      } else {
        m := DescendLands(f, lo, keys, key, off, left, depth + 1, d - 1);
        LandsLeft(f, Descend(lo, key, depth + 1), keys, key, off, n, left, depth, m);
      }
  }
}

/** What a trie index promises its users. */
module TrieTheorems {
  import opened Arithmetic
  import opened Binary
  import opened TrieCode
  import opened TrieLocate

  /** The block a key position falls into; blocks of 0 or 1 keys are the positions themselves. */
  function Block(x: nat, perBlock: nat): nat {
    if perBlock == 0 then x else x / perBlock
  }

  /** Subtrees of one key, and those that stay within a block, are not written. */
  ghost predicate CutByBlocks(f: Format, base: nat, perBlock: nat) {
    forall off: nat, n: nat {:trigger f.cut(off, n)} :: f.cut(off, n) == Unwritten(base, perBlock, off, n)
  }

  /** The source's format meets the assumptions of the theorems below. */
  lemma StandardCuts(limit: nat, base: nat, perBlock: nat)
    ensures Lawful(Standard(limit, base, perBlock)) && CutByBlocks(Standard(limit, base, perBlock), base, perBlock)
  {
    StandardIsLawful(limit, base, perBlock);
  }

  lemma SizeCodeNotEmpty(limit: nat, n: nat, left: nat)
    requires 1 <= n && left <= n
    ensures SizeCode(limit, n, left) != []
  {
    if n <= limit {
      HuffmanCodes.HuffmanTreeOk(SplitFreqs(n));
      SizeTreeIsJoin(n);
    }
  }

  lemma OneBlockIsShort(x: nat, n: nat, perBlock: nat)
    requires perBlock > 0 && n >= 1 && x / perBlock == (x + n - 1) / perBlock
    ensures n <= perBlock
  {
    var q := x / perBlock;
    assert x == q * perBlock + x % perBlock && x + n - 1 == q * perBlock + (x + n - 1) % perBlock;
  }

  /** The keys of a subtree take no bits exactly if they all lie in one block. */
  lemma NoBitsForOneBlock(limit: nat, base: nat, perBlock: nat, t: Trie, keys: seq<Bits>, off: nat, n: nat, depth: nat,
      d: nat)
    requires perBlock > 0 && n >= 1 && IsTrie(Standard(limit, base, perBlock), t, keys, off, n, depth, d)
    ensures Write(Standard(limit, base, perBlock), t, n) == []
      <==> (base + off) / perBlock == (base + off + n - 1) / perBlock
  {
    var f := Standard(limit, base, perBlock);
    assert f.cut(off, n) == Unwritten(base, perBlock, off, n);
    if (base + off) / perBlock == (base + off + n - 1) / perBlock {
      OneBlockIsShort(base + off, n, perBlock);
    } else if t.Node? {
      assert f.code(n, t.left) == SizeCode(limit, n, t.left);
      SizeCodeNotEmpty(limit, n, t.left);
    }
  }

  lemma UnwrittenIsOneBlock(base: nat, perBlock: nat, off: nat, n: nat, i: nat)
    requires Unwritten(base, perBlock, off, n) && i < n
    ensures Block(base + off + i, perBlock) == Block(base + off, perBlock)
    ensures perBlock <= 1 ==> n == 1
  {
    if n > 1 { QuotientBetween(base + off, base + off + i, base + off + n - 1, perBlock); }
  }

  lemma QuotientBetween(a: nat, b: nat, c: nat, k: nat)
    requires a <= b <= c && 0 < k && a / k == c / k
    ensures b / k == a / k
    ensures c - a < k
  {
    QuotientMonotone(a, b, k);
    QuotientMonotone(b, c, k);
    DivisionLaw(a, k);
    DivisionLaw(c, k);
  }

  /** Every lookup succeeds and lands at an unwritten subtree. */
  lemma LocateLands(f: Format, t: Trie, keys: seq<Bits>, key: Bits, off: nat, n: nat, depth: nat, d: nat, rest: Bits)
    returns (w: Walked, m: nat)
    requires Lawful(f) && depth + d == |key| && off + n <= |keys|
    requires IsTrie(f, t, keys, off, n, depth, d) && Joins(keys, off, n, depth, key)
    ensures w == Locate(f, Write(f, t, n) + rest, key, off, n, depth) && w.Found? && |rest| <= |w.rest|
    ensures Lands(f, w.rank, keys, key, off, n, m)
  {
    w := Locate(f, Write(f, t, n) + rest, key, off, n, depth);
    TrieIsSized(f, t, keys, off, n, depth, d);
    LocateDescends(f, t, key, off, n, depth, d, rest);
    m := DescendLands(f, t, keys, key, off, n, depth, d);
  }

  /**
    Every stored key is found: the answer is a position in the key's own block, and the
    key's exact rank when a block holds one key.
   */
  lemma StoredKeyIsFound(f: Format, base: nat, perBlock: nat, t: Trie, keys: seq<Bits>, off: nat, n: nat, depth: nat,
      d: nat, i: nat, rest: Bits)
    returns (w: Walked)
    requires Lawful(f) && CutByBlocks(f, base, perBlock) && off <= i < off + n <= |keys| && depth + d == |keys[i]|
    requires IsTrie(f, t, keys, off, n, depth, d) && Joins(keys, off, n, depth, keys[i])
    ensures w == Locate(f, Write(f, t, n) + rest, keys[i], off, n, depth)
    ensures && w.Found? && |rest| <= |w.rest|
      && Block(base + off + w.rank, perBlock) == Block(base + i, perBlock) && (perBlock <= 1 ==> w.rank == i - off)
  {
    var m;
    w, m := LocateLands(f, t, keys, keys[i], off, n, depth, d, rest);
    LandsOnKey(f, base, perBlock, w.rank, keys, off, n, m, i);
  }

  lemma LandsOnKey(f: Format, base: nat, perBlock: nat, r: nat, keys: seq<Bits>, off: nat, n: nat, m: nat, i: nat)
    requires off <= i < off + n <= |keys| && CutByBlocks(f, base, perBlock) && Lands(f, r, keys, keys[i], off, n, m)
    ensures Block(base + off + r, perBlock) == Block(base + i, perBlock) && (perBlock <= 1 ==> r == i - off)
  {
    UnwrittenIsOneBlock(base, perBlock, off + r, m, i - off - r);
  }

  /**
    Any key of the right length can be looked up: with blocks of one key the answer is its
    rank or one less, and in general a position in the block of its predecessor.
   */
  lemma AnyKeyIsPlaced(f: Format, base: nat, perBlock: nat, t: Trie, keys: seq<Bits>, key: Bits, off: nat, n: nat,
      depth: nat, d: nat, rest: Bits)
    returns (w: Walked)
    requires Lawful(f) && CutByBlocks(f, base, perBlock) && depth + d == |key| && off + n <= |keys|
    requires IsTrie(f, t, keys, off, n, depth, d) && Joins(keys, off, n, depth, key)
    ensures w == Locate(f, Write(f, t, n) + rest, key, off, n, depth)
    ensures var rank := Rank(keys, key, off, n);
      && w.Found? && w.rank <= rank && |rest| <= |w.rest|
      && (perBlock <= 1 ==> rank <= w.rank + 1)
      && (w.rank < rank ==> Block(base + off + w.rank, perBlock) == Block(base + off + rank - 1, perBlock))
  {
    var m;
    w, m := LocateLands(f, t, keys, key, off, n, depth, d, rest);
    LandsNear(f, base, perBlock, w.rank, keys, key, off, n, m);
  }

  lemma LandsNear(f: Format, base: nat, perBlock: nat, r: nat, keys: seq<Bits>, key: Bits, off: nat, n: nat, m: nat)
    requires off + n <= |keys| && CutByBlocks(f, base, perBlock) && Lands(f, r, keys, key, off, n, m)
    ensures var rank := Rank(keys, key, off, n);
      && r <= rank && (perBlock <= 1 ==> rank <= r + 1)
      && (r < rank ==> Block(base + off + r, perBlock) == Block(base + off + rank - 1, perBlock))
  {
    var rank := Rank(keys, key, off, n);
    if r < rank { UnwrittenIsOneBlock(base, perBlock, off + r, m, rank - 1 - r); }
  }
}

/** encode_rec, locate_rec and skip_rec over a bit vector. */
module TrieMethods {
  import opened Binary
  import opened BitVectors
  import opened TrieCode
  import opened TrieLocate
  import opened TrieTheorems
  import HuffmanCodes
  import HuffmanTables
  import HuffmanMessages
  import ExpGolomb
  import SignInterleave

  // ------------------------------------------------------------- the Huffman buffer

  /** What huffman_buffer keeps for nodes of one size: the tree's array and its codes. */
  datatype Table = Table(nodes: seq<nat>, codes: seq<Bits>)

  ghost predicate TableOk(table: Table, n: nat) {
    && HuffmanTables.Built(table.nodes, n + 1, n)
    && HuffmanTables.TreeAt(table.nodes, SplitFreqs(n), n, 2 * n) == SizeTree(n)
    && table.codes == HuffmanCodes.HuffmanCode(SplitFreqs(n))
  }

  /** One table for every size from 2 to the limit. */
  ghost predicate BufferOk(tables: seq<Table>) {
    forall k :: 0 <= k < |tables| ==> TableOk(tables[k], k + 2)
  }

  function Limit(tables: seq<Table>): nat { |tables| + 1 }

  method BuildTable(n: nat) returns (table: Table)
    requires n >= 1
    ensures TableOk(table, n)
  {
    var w := HuffmanTables.SplitWeights(n);
    assert w == SplitFreqs(n);
    var freqs, nodes := new nat[2 * n + 1], new nat[2 * n];
    forall k | 0 <= k <= n { freqs[k] := w[k]; }
    assert freqs[..n + 1] == w;
    HuffmanTables.Generate(freqs, nodes, n + 1);
    var codes := HuffmanTables.CodeTable(nodes[..], w);
    table := Table(nodes[..], codes[..]);
  }

  method BuildBuffer(limit: nat) returns (tables: seq<Table>)
    requires limit >= 1
    ensures BufferOk(tables) && Limit(tables) == limit
  {
    tables := [];
    for n := 2 to limit + 1
      invariant BufferOk(tables) && |tables| == n - 2
    {
      var table := BuildTable(n);
      tables := tables + [table];
    }
  }

  // --------------------------------------------------------------------- one size

  lemma SizeCodeInTable(table: Table, n: nat, left: nat, limit: nat)
    requires TableOk(table, n) && left <= n <= limit
    ensures table.codes[left] == SizeCode(limit, n, left)
  {
    HuffmanCodes.AllSymbolsAt(n + 1, left);
  }

  method EncodeSize(out: BitVector, tables: seq<Table>, n: nat, left: nat)
    requires out.Valid() && BufferOk(tables) && left <= n && 2 <= n < SignInterleave.TWO63
    modifies out, out.buf
    ensures out.Valid() && (out.buf == old(out.buf) || fresh(out.buf))
    ensures out.Bits() == old(out.Bits()) + SizeCode(Limit(tables), n, left)
  {
    if n <= Limit(tables) {
      var code := tables[n - 2].codes[left];
      SizeCodeInTable(tables[n - 2], n, left, Limit(tables));
      HuffmanMessages.AppendCode(out, code);
    } else {
      SignInterleave.OffsetRoundTrip(left, n);
      ExpGolomb.Encode(out, SignInterleave.Encode(SignInterleave.Minus(left, n / 2)));
    }
  }

  lemma GolombZeros(v: nat, rest: Bits)
    requires v < SignInterleave.TWO64 - 1
    ensures ExpGolomb.CountZeros(ExpGolomb.Code(v) + rest) < 64
  {
    BitLengthBounds(v + 1);
    ExpGolomb.Pow64();
    BitLengthLimit(v + 1, 64);
    var len := BitLength(v + 1);
    ExpGolomb.FirstBit(v + 1, len);
    ExpGolomb.CountZerosIs(ExpGolomb.Code(v) + rest, len - 1);
  }

  method DecodeSize(in_: BitVector, pos: nat, tables: seq<Table>, n: nat, ghost left: nat, ghost rest: Bits)
    returns (size: nat, pos': nat)
    requires in_.Valid() && pos <= in_.size && BufferOk(tables) && left <= n && 2 <= n < SignInterleave.TWO63
    requires in_.Bits()[pos..] == SizeCode(Limit(tables), n, left) + rest
    ensures size == left && pos' <= in_.size && in_.Bits()[pos'..] == rest
  {
    SizeRoundTrip(Limit(tables), n, left, rest);
    if n <= Limit(tables) {
      SizeTreeIsJoin(n);
      var ended;
      size, pos', ended := HuffmanTables.Decode(tables[n - 2].nodes, SplitFreqs(n), n + 1, in_, pos);
    } else {
      var v: nat;
      SignInterleave.OffsetRoundTrip(left, n);
      GolombZeros(SignInterleave.Encode(SignInterleave.Minus(left, n / 2)), rest);
      v, pos' := ExpGolomb.Decode(in_, pos);
      size := SignInterleave.Plus(SignInterleave.Decode(v), n / 2);
    }
  }

  // ------------------------------------------------------------------ whole tries

  /** A trie coder: the Huffman buffer, the block layout, and the format they give. */
  datatype Parts = Parts(tables: seq<Table>, base: nat, perBlock: nat, ghost f: Format)

  type Coder = c: Parts | Describes(c) ghost witness Example()

  ghost predicate Describes(c: Parts) {
    && BufferOk(c.tables) && Lawful(c.f)
    && (forall n: nat, left: nat {:trigger SizeCode(Limit(c.tables), n, left)} ::
          c.f.code(n, left) == SizeCode(Limit(c.tables), n, left))
    && (forall off: nat, n: nat {:trigger Unwritten(c.base, c.perBlock, off, n)} ::
          c.f.cut(off, n) == Unwritten(c.base, c.perBlock, off, n))
  }

  ghost function Example(): (c: Parts)
    ensures Describes(c)
  {
    StandardDescribes([], 0, 0);
    Parts([], 0, 0, Standard(1, 0, 0))
  }

  lemma StandardDescribes(tables: seq<Table>, base: nat, perBlock: nat)
    requires BufferOk(tables)
    ensures Describes(Parts(tables, base, perBlock, Standard(Limit(tables), base, perBlock)))
  {
    StandardIsLawful(Limit(tables), base, perBlock);
  }

  /** Where a subtree stands: the keys off..off+n, d bits deep, written as t. */
  datatype Place = Place(f: Format, t: Trie, off: nat, n: nat, d: nat)

  ghost predicate Fits(p: Place) { Sized(p.f, p.t, p.off, p.n, p.d) }

  type Subtree = p: Place | Fits(p) ghost witness Place(Format((n: nat, left: nat) => [], (n: nat, bits: Bits) => Short,
    (off: nat, n: nat) => true), Cut, 0, 0, 0)

  ghost function Lo(p: Subtree): (q: Subtree)
    requires p.t.Node?
    ensures q == Place(p.f, p.t.lo, p.off, p.t.left, p.d - 1) && p.t.left <= p.n < SignInterleave.TWO63 && p.d > 0
  {
    Place(p.f, p.t.lo, p.off, p.t.left, p.d - 1)
  }

  ghost function Hi(p: Subtree): (q: Subtree)
    requires p.t.Node?
    ensures p.t.left <= p.n && q == Place(p.f, p.t.hi, p.off + p.t.left, p.n - p.t.left, p.d - 1)
  {
    Place(p.f, p.t.hi, p.off + p.t.left, p.n - p.t.left, p.d - 1)
  }

  ghost predicate At(p: Subtree, c: Coder, off: nat, n: nat) {
    p.f == c.f && p.off == off && p.n == n
  }

  ghost function Bitstring(p: Place): Bits { Write(p.f, p.t, p.n) }

  lemma CutIsOmitted(p: Subtree)
    ensures p.f.cut(p.off, p.n) == p.t.Cut?
    ensures p.t.Cut? ==> Bitstring(p) == []
  {
  }

  /** The two tests that end a recursion. */
  method Omits(c: Coder, off: nat, n: nat) returns (b: bool)
    ensures b == c.f.cut(off, n) && (!b ==> n >= 2)
  {
    b := Unwritten(c.base, c.perBlock, off, n);
  }

  method EmitSize(out: BitVector, c: Coder, n: nat, left: nat)
    requires out.Valid() && left <= n && 2 <= n < SignInterleave.TWO63
    modifies out, out.buf
    ensures out.Valid() && (out.buf == old(out.buf) || fresh(out.buf))
    ensures out.Bits() == old(out.Bits()) + c.f.code(n, left)
  {
    EncodeSize(out, c.tables, n, left);
  }

  method ReadSize(in_: BitVector, pos: nat, c: Coder, n: nat, ghost p: Subtree, ghost rest: Bits)
    returns (left: nat, pos': nat)
    requires in_.Valid() && pos <= in_.size && 2 <= n && p.t.Node? && At(p, c, p.off, n)
    requires in_.Bits()[pos..] == Bitstring(p) + rest
    ensures left == p.t.left && pos' <= in_.size
    ensures in_.Bits()[pos'..] == Bitstring(Lo(p)) + (Bitstring(Hi(p)) + rest)
  {
    ghost var tail := Bitstring(Lo(p)) + (Bitstring(Hi(p)) + rest);
    WriteParts(c, p.t, n, rest);
    left, pos' := DecodeSize(in_, pos, c.tables, n, p.t.left, tail);
  }

  lemma WriteParts(c: Coder, t: Trie, n: nat, rest: Bits)
    requires t.Node? && t.left <= n
    ensures Write(c.f, t, n) + rest
      == SizeCode(Limit(c.tables), n, t.left) + (Write(c.f, t.lo, t.left) + (Write(c.f, t.hi, n - t.left) + rest))
  {
    assert c.f.code(n, t.left) == SizeCode(Limit(c.tables), n, t.left);
  }

  /** The loop of encode_rec: the number of keys on the left. */
  method CountLeft(keys: seq<Bits>, off: nat, n: nat, depth: nat, ghost split: nat) returns (left: nat)
    requires SplitAt(keys, off, n, split, depth)
    ensures left == split
  {
    left := 0;
    while left < n && !keys[off + left][depth]
      invariant left <= split
    {
      left := left + 1;
    }
  }

  /** encode_rec; t is the trie of the keys. */
  method EncodeRec(out: BitVector, c: Coder, keys: seq<Bits>, off: nat, n: nat, depth: nat, ghost t: Trie, ghost d: nat)
    requires out.Valid() && IsTrie(c.f, t, keys, off, n, depth, d)
    modifies out, out.buf
    ensures out.Valid() && (out.buf == old(out.buf) || fresh(out.buf))
    ensures out.Bits() == old(out.Bits()) + Write(c.f, t, n)
    decreases t, 1
  {
    ghost var before := out.Bits();
    var omit := Omits(c, off, n);
    if omit {
      assert before + [] == before;
      return;
    }
    var left := CountLeft(keys, off, n, depth, t.left);
    assert t == Node(left, t.lo, t.hi);
    EmitSize(out, c, n, left);
    EncodeHalves(out, c, keys, off, n, depth, t, d, left);
    WriteNode(c.f, left, t.lo, t.hi, n, before);
  }

  method EncodeHalves(out: BitVector, c: Coder, keys: seq<Bits>, off: nat, n: nat, depth: nat, ghost t: Trie,
      ghost d: nat, left: nat)
    requires out.Valid() && IsTrie(c.f, t, keys, off, n, depth, d) && t.Node? && left == t.left
    modifies out, out.buf
    ensures out.Valid() && (out.buf == old(out.buf) || fresh(out.buf))
    ensures out.Bits() == old(out.Bits()) + Write(c.f, t.lo, left) + Write(c.f, t.hi, n - left)
    decreases t, 0
  {
    EncodeRec(out, c, keys, off, left, depth + 1, t.lo, d - 1);
    EncodeRec(out, c, keys, off + left, n - left, depth + 1, t.hi, d - 1);
  }

  lemma WriteNode(f: Format, left: nat, lo: Trie, hi: Trie, n: nat, before: Bits)
    requires left <= n
    ensures before + f.code(n, left) + Write(f, lo, left) + Write(f, hi, n - left)
      == before + Write(f, Node(left, lo, hi), n)
  {
    FourParts(before, f.code(n, left), Write(f, lo, left), Write(f, hi, n - left));
  }

  lemma FourParts(a: Bits, b: Bits, c: Bits, d: Bits)
    ensures a + b + c + d == a + (b + (c + d))
  {
  }

  /** skip_rec, called where the encoding of a subtree stands. */
  method SkipRec(in_: BitVector, pos: nat, c: Coder, off: nat, n: nat, depth: nat, ghost p: Subtree, ghost rest: Bits)
    returns (pos': nat)
    requires in_.Valid() && pos <= in_.size && At(p, c, off, n) && in_.Bits()[pos..] == Bitstring(p) + rest
    ensures pos' <= in_.size && in_.Bits()[pos'..] == rest
    decreases p.t
  {
    pos' := pos;
    var omit := Omits(c, off, n);
    CutIsOmitted(p);
    if omit {
      assert [] + rest == rest;
      return;
    }
    var left;
    left, pos' := ReadSize(in_, pos', c, n, p, rest);
    pos' := SkipRec(in_, pos', c, off, left, depth + 1, Lo(p), Bitstring(Hi(p)) + rest);
    pos' := SkipRec(in_, pos', c, off + left, n - left, depth + 1, Hi(p), rest);
  }

  /** locate_rec. */
  method LocateRec(in_: BitVector, pos: nat, c: Coder, key: Bits, off: nat, n: nat, depth: nat, ghost p: Subtree,
      ghost rest: Bits)
    returns (rank: nat, pos': nat)
    requires in_.Valid() && pos <= in_.size && depth + p.d == |key| && At(p, c, off, n)
    requires in_.Bits()[pos..] == Bitstring(p) + rest
    ensures rank == Descend(p.t, key, depth) && pos' <= in_.size
    decreases p.t
  {
    rank, pos' := 0, pos;
    var omit := Omits(c, off, n);
    CutIsOmitted(p);
    if omit {
      return;
    }
    var left;
    left, pos' := ReadSize(in_, pos', c, n, p, rest);
    ghost var lo, hi := Lo(p), Hi(p);
    if !key[depth] {
      rank, pos' := LocateRec(in_, pos', c, key, off, left, depth + 1, lo, Bitstring(hi) + rest);
    } else {
      pos' := SkipRec(in_, pos', c, off, left, depth + 1, lo, Bitstring(hi) + rest);
      rank, pos' := LocateRec(in_, pos', c, key, off + left, n - left, depth + 1, hi, rest);
      rank := left + rank;
    }
  }

  /** Where the walk for a key ends, for keys laid out in blocks. */
  ghost predicate Placed(keys: seq<Bits>, key: Bits, base: nat, perBlock: nat, r: nat) {
    && (forall i :: 0 <= i < |keys| && keys[i] == key ==>
          Block(base + r, perBlock) == Block(base + i, perBlock) && (perBlock <= 1 ==> r == i))
    && var rank := Rank(keys, key, 0, |keys|);
      && r <= rank && (perBlock <= 1 ==> rank <= r + 1)
      && (r < rank ==> Block(base + r, perBlock) == Block(base + rank - 1, perBlock))
  }

  lemma KeyPlaced(f: Format, base: nat, perBlock: nat, keys: seq<Bits>, r: nat, m: nat, i: nat)
    requires CutByBlocks(f, base, perBlock) && i < |keys| && Lands(f, r, keys, keys[i], 0, |keys|, m)
    ensures Block(base + r, perBlock) == Block(base + i, perBlock) && (perBlock <= 1 ==> r == i)
  {
    LandsOnKey(f, base, perBlock, r, keys, 0, |keys|, m, i);
    assert base + 0 + r == base + r;
  }

  lemma LandingIsPlaced(f: Format, base: nat, perBlock: nat, keys: seq<Bits>, key: Bits, r: nat, m: nat)
    requires CutByBlocks(f, base, perBlock) && Lands(f, r, keys, key, 0, |keys|, m)
    ensures Placed(keys, key, base, perBlock, r)
  {
    LandsNear(f, base, perBlock, r, keys, key, 0, |keys|, m);
    assert base + 0 + r == base + r;
    forall i | 0 <= i < |keys| && keys[i] == key
      ensures Block(base + r, perBlock) == Block(base + i, perBlock) && (perBlock <= 1 ==> r == i)
    {
      KeyPlaced(f, base, perBlock, keys, r, m, i);
    }
  }

  lemma WalkIsPlaced(f: Format, base: nat, perBlock: nat, t: Trie, keys: seq<Bits>, key: Bits)
    requires CutByBlocks(f, base, perBlock) && IsTrie(f, t, keys, 0, |keys|, 0, |key|)
    ensures Placed(keys, key, base, perBlock, Descend(t, key, 0))
  {
    var m := DescendLands(f, t, keys, key, 0, |keys|, 0, |key|);
    LandingIsPlaced(f, base, perBlock, keys, key, Descend(t, key, 0), m);
  }

  /** Encode any sorted keys for any block size, and locate any key: a stored key is placed in its own block, at its
      rank when blocks hold one key; any other key in the block of the last smaller key, its rank or one less. */
  method EncodeAndLocate(keys: seq<Bits>, len: nat, limit: nat, base: nat, perBlock: nat, key: Bits) returns (rank: nat)
    requires SortedKeys(keys, len) && |keys| < SignInterleave.TWO63 && |key| == len && limit >= 1
    ensures Placed(keys, key, base, perBlock, rank)
  {
    var n := |keys|;
    var tables := BuildBuffer(limit);
    StandardDescribes(tables, base, perBlock);
    var coder: Coder := Parts(tables, base, perBlock, Standard(limit, base, perBlock));
    ghost var t := TrieExists(coder.f, keys, len, 0, n, 0, len);
    var out := new BitVector();
    EncodeRec(out, coder, keys, 0, n, 0, t, len);
    assert out.Bits()[0..] == Write(coder.f, t, n) + [];
    TrieIsSized(coder.f, t, keys, 0, n, 0, len);
    var pos;
    rank, pos := LocateRec(out, 0, coder, key, 0, n, 0, Place(coder.f, t, 0, n, len), []);
    StandardCuts(limit, base, perBlock);
    WalkIsPlaced(coder.f, base, perBlock, t, keys, key);
  }
}
