/**
  The packed bit vector of src/ectrie: bit_access.h and bit_vector.h.

  An unsigned word is its bits, most significant first, so a bit vector's bit i is bit
  i % W of block i / W, and the shifts below drop bits exactly as the machine's do.
 */
module BitAccess {
  import opened Arithmetic
  import opened Binary

  type Word = seq<bool>

  function ShiftLeft(w: Word, k: nat): (r: Word)
    requires k <= |w|
    ensures |r| == |w|
  {
    w[k..] + Zeros(k)
  }

  function ShiftRight(w: Word, k: nat): (r: Word)
    requires k <= |w|
    ensures |r| == |w|
  {
    Zeros(k) + w[..|w| - k]
  }

  /** Conversion to an unsigned type of another width. */
  function Cast(w: Word, width: nat): (r: Word)
    ensures |r| == width
  {
    if width <= |w| then w[|w| - width..] else Zeros(width - |w|) + w
  }

  function Or(a: Word, b: Word): (r: Word)
    requires |a| == |b|
    ensures |r| == |a|
  {
    seq(|a|, i requires 0 <= i < |a| => a[i] || b[i])
  }

  // ------------------------------------------------------------ bits of a vector

  ghost predicate Words(v: seq<Word>, width: nat) {
    width > 0 && forall i :: 0 <= i < |v| ==> |v[i]| == width
  }

  /** The bits of the first d blocks, in order. */
  ghost function Before(v: seq<Word>, d: nat): seq<bool>
    requires d <= |v|
  {
    if d == 0 then [] else Before(v, d - 1) + v[d - 1]
  }

  /** The bits of the blocks from d on. */
  ghost function From(v: seq<Word>, d: nat): seq<bool>
    requires d <= |v|
    decreases |v| - d
  {
    if d == |v| then [] else v[d] + From(v, d + 1)
  }

  /** All bits of a block array. */
  ghost function Flat(v: seq<Word>): seq<bool> {
    Before(v, |v|)
  }

  lemma {:induction false} FlatSplit(v: seq<Word>, d: nat)
    requires d <= |v|
    ensures Flat(v) == Before(v, d) + From(v, d)
    decreases |v| - d
  {
    if d < |v| {
      FlatSplit(v, d + 1);
      Assoc(Before(v, d), v[d], From(v, d + 1));
    }
  }

  lemma Assoc(x: seq<bool>, y: seq<bool>, z: seq<bool>)
    ensures (x + y) + z == x + (y + z)
  {
  }

  lemma {:induction false} SameBefore(v: seq<Word>, v': seq<Word>, d: nat)
    requires d <= |v| && d <= |v'| && forall i :: 0 <= i < d ==> v'[i] == v[i]
    ensures Before(v', d) == Before(v, d)
  {
    if d > 0 { SameBefore(v, v', d - 1); }
  }

  lemma {:induction false} SameFrom(v: seq<Word>, v': seq<Word>, d: nat)
    requires d <= |v| == |v'| && forall i :: d <= i < |v| ==> v'[i] == v[i]
    ensures From(v', d) == From(v, d)
    decreases |v| - d
  {
    if d < |v| { SameFrom(v, v', d + 1); }
  }

  lemma FlatOne(w: Word)
    ensures Flat([w]) == w
  {
    assert Before([w], 1) == Before([w], 0) + w;
  }

  lemma {:induction false} BeforeLength(v: seq<Word>, width: nat, d: nat)
    requires Words(v, width) && d <= |v|
    ensures |Before(v, d)| == d * width
  {
    if d > 0 {
      BeforeLength(v, width, d - 1);
      assert d * width == (d - 1) * width + width;
    }
  }

  /** Block d, offset di is bit i of the vector. */
  ghost predicate At(v: seq<Word>, d: nat, di: nat, i: nat) {
    d <= |v| && |Before(v, d)| + di == i
  }

  /** block_index and in_block_offset. */
  method Locate(ghost v: seq<Word>, width: nat, i: nat) returns (d: nat, di: nat)
    requires Words(v, width) && i <= |Flat(v)|
    ensures di < width && At(v, d, di, i)
  {
    d, di := i / width, i % width;
    DivisionLaw(i, width);
    BeforeLength(v, width, |v|);
    PrefixAt(v, width, d, di, i);
  }

  lemma PrefixAt(v: seq<Word>, width: nat, q: nat, r: nat, i: nat)
    requires Words(v, width) && i <= |v| * width && i == q * width + r && r < width
    ensures At(v, q, r, i)
  {
    ProductMonotone(|v|, |v|, width);
    if q > |v| {
      ProductMonotone(|v| + 1, q, width);
    }
    BeforeLength(v, width, q);
  }

  lemma ProductMonotone(a: nat, b: nat, width: nat)
    requires a <= b
    ensures a * width <= b * width && (a + 1) * width == a * width + width
  {
  }

  lemma BlockInRange(v: seq<Word>, d: nat, di: nat, i: nat)
    requires At(v, d, di, i) && i < |Flat(v)|
    ensures d < |v| && Flat(v) == Before(v, d) + v[d] + From(v, d + 1)
  {
    FlatSplit(v, d);
    Assoc(Before(v, d), v[d], From(v, d + 1));
  }

  // --------------------------------------------------------------------- copy_set

  /** The value merged into one destination block: `len` bits of a source block from offset
      si on, moved to offset di. */
  function Piece(src: Word, si: nat, len: nat, width: nat, di: nat): (r: Word)
    requires 0 < len && si + len <= |src| && di + len <= width
    ensures |r| == width
  {
    var aligned := ShiftRight(ShiftLeft(src, si), |src| - len);
    ShiftLeft(Cast(aligned, width), width - di - len)
  }

  lemma PieceBits(src: Word, si: nat, len: nat, width: nat, di: nat)
    requires 0 < len && si + len <= |src| && di + len <= width
    ensures Piece(src, si, len, width, di) == Zeros(di) + src[si..si + len] + Zeros(width - di - len)
  {
    var shifted := ShiftLeft(src, si);
    assert shifted[..len] == src[si..si + len];
    var aligned := ShiftRight(shifted, |src| - len);
    assert aligned == Zeros(|src| - len) + src[si..si + len];
    assert Cast(aligned, width) == Zeros(width - len) + src[si..si + len];
  }

  /** Merging a piece over zeros writes it. */
  lemma OrOverZeros(dest: Word, di: nat, bits: seq<bool>)
    requires di + |bits| <= |dest| && forall i :: di <= i < di + |bits| ==> !dest[i]
    ensures Or(dest, Zeros(di) + bits + Zeros(|dest| - di - |bits|)) == dest[..di] + bits + dest[di + |bits|..]
  {
  }

  /** c is a with the bits from di on replaced by count source bits from si on. */
  ghost predicate Copied(a: seq<bool>, c: seq<bool>, di: nat, src: seq<bool>, si: nat, count: nat) {
    && di + count <= |a| == |c| && si + count <= |src|
    && forall k :: 0 <= k < |a| ==> c[k] == if di <= k < di + count then src[si + (k - di)] else a[k]
  }

  ghost predicate Clear(bits: seq<bool>, from: nat, to: nat) {
    to <= |bits| && forall i :: from <= i < to ==> !bits[i]
  }

  lemma CopiedInside(a: seq<bool>, w: Word, b: seq<bool>, di: nat, src: seq<bool>, j: nat, len: nat)
    requires di + len <= |w| && j + len <= |src|
    ensures Copied(a + w + b, a + (w[..di] + src[j..j + len] + w[di + len..]) + b, |a| + di, src, j, len)
  {
  }

  lemma BlockSlice(a: seq<bool>, w: Word, b: seq<bool>, si: nat, len: nat)
    requires si + len <= |w|
    ensures (a + w + b)[|a| + si..|a| + si + len] == w[si..si + len]
  {
  }

  lemma FlatUpdate(v: seq<Word>, d: nat, w: Word)
    requires d < |v|
    ensures Flat(v[d := w]) == Before(v, d) + w + From(v, d + 1)
  {
    var v' := v[d := w];
    FlatSplit(v', d);
    SameBefore(v, v', d);
    SameFrom(v, v', d + 1);
    Assoc(Before(v, d), w, From(v, d + 1));
  }

  /** Merging a piece into one block of a + w + b copies it there. */
  lemma MergeBlock(a: seq<bool>, w: Word, b: seq<bool>, di: nat, src: seq<bool>, j: nat, len: nat, piece: Word)
    requires di + len <= |w| == |piece| && j + len <= |src|
    requires piece == Zeros(di) + src[j..j + len] + Zeros(|w| - di - len)
    requires Clear(a + w + b, |a| + di, |a| + di + len)
    ensures Copied(a + w + b, a + Or(w, piece) + b, |a| + di, src, j, len)
  {
    ClearBlock(a, w, b, di, len);
    OrOverZeros(w, di, src[j..j + len]);
    CopiedInside(a, w, b, di, src, j, len);
  }

  /** One turn of copy_set's loop copies the bits it can. */
  lemma MergePiece(dest: seq<Word>, d: nat, di: nat, i: nat, src: seq<Word>, s: nat, si: nat, j: nat, len: nat,
      piece: Word)
    requires d < |dest| && At(dest, d, di, i) && s < |src| && At(src, s, si, j)
    requires 0 < len && si + len <= |src[s]| && di + len <= |dest[d]| && |piece| == |dest[d]|
    requires piece == Zeros(di) + src[s][si..si + len] + Zeros(|dest[d]| - di - len)
    requires Clear(Flat(dest), i, i + len)
    ensures j + len <= |Flat(src)|
    ensures Copied(Flat(dest), Flat(dest[d := Or(dest[d], piece)]), i, Flat(src), j, len)
  {
    var a, w, b, bits := Before(dest, d), dest[d], From(dest, d + 1), Flat(src);
    FlatSplit(dest, d);
    Assoc(a, w, b);
    FlatUpdate(dest, d, Or(w, piece));
    SourceSlice(src, s, si, len, j);
    MergeBlock(a, w, b, di, bits, j, len, piece);
  }

  lemma SourceSlice(src: seq<Word>, s: nat, si: nat, len: nat, j: nat)
    requires s < |src| && At(src, s, si, j) && si + len <= |src[s]|
    ensures j + len <= |Flat(src)| && Flat(src)[j..j + len] == src[s][si..si + len]
  {
    FlatSplit(src, s);
    Assoc(Before(src, s), src[s], From(src, s + 1));
    BlockSlice(Before(src, s), src[s], From(src, s + 1), si, len);
  }

  lemma ClearBlock(a: seq<bool>, w: Word, b: seq<bool>, di: nat, len: nat)
    requires di + len <= |w| && Clear(a + w + b, |a| + di, |a| + di + len)
    ensures forall k :: di <= k < di + len ==> !w[k]
  {
    forall k | di <= k < di + len ensures !w[k] {
      assert w[k] == (a + w + b)[|a| + k];
    }
  }

  lemma CopiedThen(a: seq<bool>, b: seq<bool>, c: seq<bool>, di: nat, src: seq<bool>, si: nat, m: nat, n: nat)
    requires Copied(a, b, di, src, si, m) && Copied(b, c, di + m, src, si + m, n)
    ensures Copied(a, c, di, src, si, m + n)
  {
  }

  function Min(a: nat, b: nat): nat {
    if a < b then a else b
  }

  /** The position len bits further on, as copy_set computes it. */
  function Advance(width: nat, d: nat, di: nat, len: nat): (nat, nat)
    requires di + len <= width
  {
    if di + len == width then (d + 1, 0) else (d, di + len)
  }

  lemma AdvanceAt(v: seq<Word>, width: nat, d: nat, di: nat, len: nat, i: nat)
    requires Words(v, width) && d < |v| && At(v, d, di, i) && 0 < len && di + len <= width
    ensures var (d', di') := Advance(width, d, di, len); di' < width && At(v, d', di', i + len)
  {
  }

  /** One turn of copy_set's loop. */
  method CopyPiece(dest: array<Word>, width: nat, d: nat, di: nat, src: seq<Word>, srcWidth: nat, s: nat, si: nat,
      len: nat, ghost b: seq<bool>, ghost i: nat, ghost bits: seq<bool>, ghost j: nat)
    returns (d': nat, di': nat, s': nat, si': nat, ghost c: seq<bool>)
    requires Words(dest[..], width) && At(dest[..], d, di, i) && 0 < len && di + len <= width
    requires Words(src, srcWidth) && At(src, s, si, j) && si + len <= srcWidth
    requires b == Flat(dest[..]) && bits == Flat(src) && j + len <= |bits| && Clear(b, i, i + len)
    modifies dest
    ensures Words(dest[..], width) && c == Flat(dest[..]) && Copied(b, c, i, bits, j, len)
    ensures di' < width && At(dest[..], d', di', i + len) && si' < srcWidth && At(src, s', si', j + len)
  {
    BlockInRange(dest[..], d, di, i);
    BlockInRange(src, s, si, j);
    PieceBits(src[s], si, len, width, di);
    MergePiece(dest[..], d, di, i, src, s, si, j, len, Piece(src[s], si, len, width, di));
    dest[d] := Or(dest[d], Piece(src[s], si, len, width, di));
    assert dest[..] == old(dest[..])[d := dest[d]];
    SameBefore(old(dest[..]), dest[..], d);
    c := Flat(dest[..]);
    AdvanceAt(dest[..], width, d, di, len, i);
    AdvanceAt(src, srcWidth, s, si, len, j);
    var to, from := Advance(width, d, di, len), Advance(srcWidth, s, si, len);
    d', di', s', si' := to.0, to.1, from.0, from.1;
  }

  /** bit_access::copy_set; it merges, so the destination bits must be clear. */
  method CopySet(dest: array<Word>, width: nat, destI: nat, src: seq<Word>, srcWidth: nat, srcI: nat, count: nat)
    requires Words(dest[..], width) && Words(src, srcWidth)
    requires Clear(Flat(dest[..]), destI, destI + count) && srcI + count <= |Flat(src)|
    modifies dest
    ensures Words(dest[..], width)
    ensures Copied(old(Flat(dest[..])), Flat(dest[..]), destI, Flat(src), srcI, count)
  {
    var d: nat, di: nat := Locate(dest[..], width, destI);
    var s: nat, si: nat := Locate(src, srcWidth, srcI);
    var left: nat := count;
    ghost var start, bits, done: nat := Flat(dest[..]), Flat(src), 0;
    ghost var now := start;
    while left != 0
      invariant done + left == count && di < width && si < srcWidth && Words(dest[..], width)
      invariant At(dest[..], d, di, destI + done) && At(src, s, si, srcI + done)
      invariant now == Flat(dest[..]) && Copied(start, now, destI, bits, srcI, done)
      decreases left
    {
      var len := Min(Min(width - di, srcWidth - si), left);
      ghost var before := now;
      d, di, s, si, now := CopyPiece(dest, width, d, di, src, srcWidth, s, si, len, now, destI + done, bits,
        srcI + done);
      CopiedThen(start, before, now, destI, bits, srcI, done, len);
      left, done := left - len, done + len;
    }
  }
}

/** bit_vector<uint32_t>. */
module BitVectors {
  import opened Binary
  import opened BitAccess

  const WIDTH: nat := 32

  function BlockCount(n: nat): nat {
    (n + WIDTH - 1) / WIDTH
  }

  lemma {:induction false} ZerosFrom(v: seq<Word>, d: nat)
    requires d <= |v| && forall k :: d <= k < |v| ==> v[k] == Zeros(WIDTH)
    ensures forall i :: 0 <= i < |From(v, d)| ==> !From(v, d)[i]
    decreases |v| - d
  {
    if d < |v| { ZerosFrom(v, d + 1); }
  }

  /** Setting one bit of one block sets that bit of the whole. */
  lemma SetOneBit(v: seq<Word>, d: nat, di: nat, i: nat)
    requires d < |v| && di < |v[d]| && At(v, d, di, i)
    ensures i < |Flat(v)| && Flat(v[d := v[d][di := true]]) == Flat(v)[i := true]
  {
    FlatSplit(v, d);
    Assoc(Before(v, d), v[d], From(v, d + 1));
    FlatUpdate(v, d, v[d][di := true]);
    SetInside(Before(v, d), v[d], From(v, d + 1), di);
  }

  lemma SetInside(a: seq<bool>, w: Word, b: seq<bool>, di: nat)
    requires di < |w|
    ensures a + w[di := true] + b == (a + w + b)[|a| + di := true]
  {
  }

  /** The first blocks of a buffer, padded with clear ones. */
  function Padded(v: seq<Word>, used: nat, blocks: nat): (r: seq<Word>)
    requires used <= |v| && used <= blocks
    ensures |r| == blocks
  {
    v[..used] + seq(blocks - used, i => Zeros(WIDTH))
  }

  lemma PaddedBits(v: seq<Word>, used: nat, blocks: nat, size: nat)
    requires Words(v, WIDTH) && used <= |v| && used <= blocks && size <= used * WIDTH
    requires Clear(Flat(v), size, |Flat(v)|)
    ensures Words(Padded(v, used, blocks), WIDTH) && |Flat(Padded(v, used, blocks))| == blocks * WIDTH
    ensures size <= |Flat(v)| && Flat(Padded(v, used, blocks))[..size] == Flat(v)[..size]
    ensures Clear(Flat(Padded(v, used, blocks)), size, blocks * WIDTH)
  {
    var v' := Padded(v, used, blocks);
    FlatSplit(v, used);
    FlatSplit(v', used);
    SameBefore(v, v', used);
    BeforeLength(v, WIDTH, used);
    BeforeLength(v', WIDTH, blocks);
    ZerosFrom(v', used);
    forall i | size <= i < used * WIDTH ensures !Before(v, used)[i] {
      assert Before(v, used)[i] == Flat(v)[i];
    }
  }

  class BitVector {
    var buf: array<Word>
    var size: nat
    var capacity: nat

    /** Every bit behind the last is clear: appending merges into the buffer. */
    ghost predicate Valid()
      reads this, buf
    {
      && Words(buf[..], WIDTH) && buf.Length == BlockCount(capacity)
      && size <= capacity <= |Flat(buf[..])|
      && Clear(Flat(buf[..]), size, |Flat(buf[..])|)
    }

    ghost function Bits(): (bits: seq<bool>)
      reads this, buf
      requires Valid()
      ensures |bits| == size
    {
      Flat(buf[..])[..size]
    }

    constructor ()
      ensures Valid() && Bits() == [] && fresh(buf)
    {
      size, capacity := 0, 8;
      buf := new Word[1](i => Zeros(WIDTH));
      new;
      FlatOne(Zeros(WIDTH));
      assert buf[..] == [Zeros(WIDTH)];
    }

    /** resize: room for capacity bits, the new blocks cleared. */
    method Resize(newCapacity: nat)
      requires Valid() && size <= newCapacity
      modifies this
      ensures Valid() && fresh(buf) && Bits() == old(Bits()) && capacity == newCapacity && size == old(size)
    {
      var used, blocks := BlockCount(size), BlockCount(newCapacity);
      BeforeLength(buf[..], WIDTH, buf.Length);
      PaddedBits(buf[..], used, blocks, size);
      var blocksNow := Padded(buf[..], used, blocks);
      var newBuf := new Word[blocks](i requires 0 <= i < blocks => blocksNow[i]);
      assert newBuf[..] == blocksNow;
      buf, capacity := newBuf, newCapacity;
    }

    /** Double the capacity until it holds target bits. */
    method Reserve(target: nat)
      requires Valid()
      modifies this
      ensures Valid() && (buf == old(buf) || fresh(buf)) && Bits() == old(Bits()) && size == old(size)
      ensures target <= capacity
    {
      if target > capacity {
        var c := if capacity == 0 then 1 else capacity;
        while target > c
          invariant c >= 1 && c >= capacity
          decreases target - c
        {
          c := 2 * c;
        }
        Resize(c);
      }
    }

    method PushBack(b: bool)
      requires Valid()
      modifies this, buf
      ensures Valid() && (buf == old(buf) || fresh(buf)) && Bits() == old(Bits()) + [b]
    {
      Reserve(size + 1);
      if b {
        var d: nat, di: nat := Locate(buf[..], WIDTH, size);
        BlockInRange(buf[..], d, di, size);
        SetOneBit(buf[..], d, di, size);
        ghost var before := buf[..];
        buf[d] := buf[d][di := true];
        assert buf[..] == before[d := before[d][di := true]];
      }
      size := size + 1;
    }

    /** append(r, i, len): len bits of a block array. */
    method AppendBlocks(src: seq<Word>, width: nat, i: nat, len: nat)
      requires Valid() && Words(src, width) && i + len <= |Flat(src)|
      modifies this, buf
      ensures Valid() && (buf == old(buf) || fresh(buf)) && Bits() == old(Bits()) + Flat(src)[i..i + len]
    {
      Reserve(size + len);
      CopySet(buf, WIDTH, size, src, width, i, len);
      size := size + len;
    }

    /** append(v, len): the len low bits of a word. */
    method AppendLow(v: Word, len: nat)
      requires Valid() && len <= |v| && 0 < |v|
      modifies this, buf
      ensures Valid() && (buf == old(buf) || fresh(buf)) && Bits() == old(Bits()) + v[|v| - len..]
    {
      FlatOne(v);
      AppendBlocks([v], |v|, |v| - len, len);
      assert v[|v| - len..|v| - len + len] == v[|v| - len..];
    }

    method Get(i: nat) returns (b: bool)
      requires Valid() && i < size
      ensures b == Bits()[i]
    {
      var d: nat, di: nat := Locate(buf[..], WIDTH, i);
      BlockInRange(buf[..], d, di, i);
      b := buf[d][di];
    }

    /** get<T>(i, len): len bits as a word of the given width. */
    method GetWord(i: nat, len: nat, width: nat) returns (w: Word)
      requires Valid() && i + len <= size && len <= width && 0 < width
      ensures w == Zeros(width - len) + Bits()[i..i + len]
    {
      var v := new Word[1](k => Zeros(width));
      assert v[..] == [Zeros(width)];
      FlatOne(Zeros(width));
      CopySet(v, width, width - len, buf[..], WIDTH, i, len);
      FlatOne(v[0]);
      assert v[..] == [v[0]];
      w := v[0];
      assert Flat(buf[..])[i..i + len] == Bits()[i..i + len];
    }
  }
}
