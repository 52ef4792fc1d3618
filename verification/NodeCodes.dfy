/**
  How a trie node's left size is written: sign_interleave.h and exp_golomb.h for large
  nodes, Huffman codes for small ones.  Numbers are 64-bit.
 */
module SignInterleave {

  const TWO63: nat := 0x8000_0000_0000_0000
  const TWO64: nat := 0x1_0000_0000_0000_0000

  /** Bitwise complement of a 64-bit number. */
  function Not(v: nat): nat
    requires v < TWO64
  {
    TWO64 - 1 - v
  }

  /** Doubles non-negative numbers; maps -1, -2, ... to 1, 3, ... */
  function Encode(v: nat): (r: nat)
    requires v < TWO64
    ensures r < TWO64
  {
    if v < TWO63 then 2 * v else 2 * Not(v) % TWO64 + 1
  }

  function Decode(v: nat): (r: nat)
    requires v < TWO64
    ensures r < TWO64
  {
    if v % 2 == 0 then v / 2 else Not(v / 2)
  }

  /** A bijection of the 64-bit numbers. */
  lemma RoundTrip(v: nat)
    requires v < TWO64
    ensures Decode(Encode(v)) == v && Encode(Decode(v)) == v
  {
    Forward(v);
    Backward(v);
  }

  lemma Forward(v: nat)
    requires v < TWO64
    ensures Decode(Encode(v)) == v
  {
    if v >= TWO63 {
      assert Encode(v) == 2 * Not(v) + 1;
    }
  }

  lemma Backward(v: nat)
    requires v < TWO64
    ensures Encode(Decode(v)) == v
  {
    if v % 2 == 1 {
      assert v / 2 < TWO63;
    }
  }

  /** Distances from zero, up and down, take turns: small ones get small codes. */
  lemma EncodeIs(d: nat)
    requires d < TWO63
    ensures Encode(d) == 2 * d && Encode(TWO64 - 1 - d) == 2 * d + 1
  {
  }

  /** a - b, and back, in 64-bit arithmetic. */
  function Minus(a: nat, b: nat): (r: nat)
    ensures r < TWO64
  {
    (a - b) % TWO64
  }

  function Plus(a: nat, b: nat): (r: nat)
    ensures r < TWO64
  {
    (a + b) % TWO64
  }

  /** The code of a left size relative to half the node; its range stays clear of the all-ones word. */
  lemma OffsetRoundTrip(left: nat, n: nat)
    requires left <= n < TWO63
    ensures Encode(Minus(left, n / 2)) < TWO64 - 1
    ensures Plus(Decode(Encode(Minus(left, n / 2))), n / 2) == left
  {
    RoundTrip(Minus(left, n / 2));
  }
}

module ExpGolomb {
  import opened Binary
  import opened BitAccess
  import opened BitVectors
  import opened SignInterleave

  /** Order 0: as many zeros as n + 1 has bits behind its highest, then n + 1. */
  function Code(n: nat): (c: Bits)
    ensures |c| >= 1
  {
    BitLengthBounds(n + 1);
    Zeros(BitLength(n + 1) - 1) + BitsOf(n + 1, BitLength(n + 1))
  }

  datatype Parsed = Short | Number(n: nat, rest: Bits)

  function CountZeros(bits: Bits): (z: nat)
    ensures z <= |bits| && (forall i :: 0 <= i < z ==> !bits[i]) && (z < |bits| ==> bits[z])
  {
    if bits == [] || bits[0] then 0 else 1 + CountZeros(bits[1..])
  }

  /** Count zeros up to the first one, then read as many bits again. */
  function Parse(bits: Bits): Parsed {
    var z := CountZeros(bits);
    if 2 * z + 1 > |bits| then Short
    else Number(ValueOf([true] + bits[z + 1..2 * z + 1]) - 1, bits[2 * z + 1..])
  }

  lemma CountZerosIs(bits: Bits, z: nat)
    requires z < |bits| && bits[z] && forall i :: 0 <= i < z ==> !bits[i]
    ensures CountZeros(bits) == z
  {
  }

  lemma FirstBit(m: nat, k: nat)
    requires k > 0 && Pow2(k - 1) <= m < Pow2(k)
    ensures BitsOf(m, k)[0]
  {
  }

  lemma LengthIs(m: nat, k: nat)
    requires Pow2(k) <= m < Pow2(k + 1)
    ensures BitLength(m) == k + 1
  {
    BitLengthBounds(m);
    var len := BitLength(m);
    if len <= k { Pow2Monotone(len, k); } else if len > k + 1 { Pow2Monotone(k + 1, len - 1); }
  }

  lemma TopBit(m: nat) returns (k: nat)
    requires m > 0
    ensures Pow2(k) <= m < Pow2(k + 1)
  {
    BitLengthBounds(m);
    k := BitLength(m) - 1;
  }

  /** A number n with 2^k <= n + 1 < 2^(k + 1) takes k zeros, a one and the k other bits of n + 1. */
  lemma CodeIs(n: nat, k: nat)
    requires Pow2(k) <= n + 1 < Pow2(k + 1)
    ensures Code(n) == Zeros(k) + [true] + BitsOf(n + 1 - Pow2(k), k)
  {
    LengthIs(n + 1, k);
    assert BitsOf(n + 1, k + 1) == [true] + BitsOf(n + 1 - Pow2(k), k);
  }

  lemma RoundTrip(n: nat, rest: Bits)
    ensures Parse(Code(n) + rest) == Number(n, rest)
  {
    var k := TopBit(n + 1);
    CodeIs(n, k);
    CodeParses(Code(n), n + 1 - Pow2(k), k, rest);
  }

  lemma CodeParses(code: Bits, low: nat, k: nat, rest: Bits)
    requires low < Pow2(k) && code == Zeros(k) + [true] + BitsOf(low, k)
    ensures Parse(code + rest) == Number(Pow2(k) + low - 1, rest)
  {
    ValueOfBitsOf(low, k);
    ParseIs(k, BitsOf(low, k), rest);
  }

  lemma ParseIs(k: nat, low: Bits, rest: Bits)
    requires |low| == k
    ensures Parse(Zeros(k) + [true] + low + rest) == Number(Pow2(k) + ValueOf(low) - 1, rest)
  {
    var bits := Zeros(k) + [true] + low + rest;
    CountZerosIs(bits, k);
    assert bits[k + 1..2 * k + 1] == low && bits[2 * k + 1..] == rest;
    assert ([true] + low)[1..] == low;
  }

  /** encode's first loop. */
  method LengthOf(m: nat) returns (len: nat)
    ensures len == BitLength(m)
  {
    len := 0;
    var p: nat := m;
    while p != 0
      invariant len + BitLength(p) == BitLength(m)
    {
      len, p := len + 1, p / 2;
    }
  }

  /** encode's second loop. */
  method PushZeros(out: BitVector, count: nat)
    requires out.Valid()
    modifies out, out.buf
    ensures out.Valid() && (out.buf == old(out.buf) || fresh(out.buf)) && out.Bits() == old(out.Bits()) + Zeros(count)
  {
    ghost var before := out.Bits();
    for i := 0 to count
      invariant out.Valid() && (out.buf == old(out.buf) || fresh(out.buf)) && out.Bits() == before + Zeros(i)
    {
      out.PushBack(false);
      assert Zeros(i) + [false] == Zeros(i + 1);
    }
  }

  /** exp_golomb<0>::encode. */
  method Encode(out: BitVector, n: nat)
    requires out.Valid() && n < TWO64 - 1
    modifies out, out.buf
    ensures out.Valid() && (out.buf == old(out.buf) || fresh(out.buf)) && out.Bits() == old(out.Bits()) + Code(n)
  {
    var m := n + 1;
    var len := LengthOf(m);
    BitLengthBounds(m);
    Pow64();
    BitLengthLimit(m, 64);
    LowBits(m, 64, len);
    CodeParts(n, out.Bits(), len, BitsOf(m, 64)[64 - (len - 1)..]);
    Emit(out, BitsOf(m, 64), len);
  }

  method Emit(out: BitVector, word: Word, len: nat)
    requires out.Valid() && |word| == 64 && 0 < len <= 64
    modifies out, out.buf
    ensures out.Valid() && (out.buf == old(out.buf) || fresh(out.buf))
    ensures out.Bits() == old(out.Bits()) + Zeros(len - 1) + [true] + word[64 - (len - 1)..]
  {
    PushZeros(out, len - 1);
    out.PushBack(true);
    out.AppendLow(word, len - 1);
  }

  lemma CodeParts(n: nat, before: Bits, len: nat, low: Bits)
    requires len == BitLength(n + 1) > 0 && n + 1 < Pow2(len) && low == BitsOf(n + 1, len)[1..]
    ensures before + Zeros(len - 1) + [true] + low == before + Code(n)
  {
    BitLengthBounds(n + 1);
    FirstBit(n + 1, len);
    assert [true] + low == BitsOf(n + 1, len);
  }

  lemma Pow64()
    ensures Pow2(64) == TWO64
  {
    assert Pow2(4) == 16;
    Pow2Add(4, 4);
    assert Pow2(8) == 0x100;
    Pow2Add(8, 8);
    assert Pow2(16) == 0x1_0000;
    Pow2Add(16, 16);
    assert Pow2(32) == 0x1_0000_0000;
    Pow2Add(32, 32);
  }

  lemma LeadingZero(m: nat, k: nat)
    requires m < Pow2(k)
    ensures m < Pow2(k + 1) && BitsOf(m, k + 1) == [false] + BitsOf(m, k)
  {
  }

  lemma MoreZeros(n: nat, bits: Bits)
    ensures [false] + (Zeros(n) + bits) == Zeros(n + 1) + bits
  {
  }

  /** A wide word begins with zeros. */
  lemma {:induction false} Padded(m: nat, n: nat, len: nat)
    requires m < Pow2(len)
    ensures m < Pow2(len + n) && BitsOf(m, len + n) == Zeros(n) + BitsOf(m, len)
    decreases n
  {
    if n == 0 {
      assert Zeros(0) + BitsOf(m, len) == BitsOf(m, len);
    } else {
      Padded(m, n - 1, len);
      LeadingZero(m, len + n - 1);
      MoreZeros(n - 1, BitsOf(m, len));
    }
  }

  /** The low bits of a wide word are those of a narrow one. */
  lemma LowBits(m: nat, wide: nat, len: nat)
    requires 0 < len <= wide && Pow2(len - 1) <= m < Pow2(len)
    ensures m < Pow2(wide) && BitsOf(m, wide)[wide - (len - 1)..] == BitsOf(m, len)[1..]
  {
    Padded(m, wide - len, len);
  }

  /** decode's loop: the number of bits up to and including the first one. */
  method FindOne(in_: BitVector, pos: nat, ghost bits: Bits) returns (len: nat)
    requires in_.Valid() && pos <= in_.size && bits == in_.Bits()[pos..] && CountZeros(bits) < |bits|
    ensures len == CountZeros(bits) + 1
  {
    len := 1;
    while true
      invariant 1 <= len <= CountZeros(bits) + 1
      decreases |bits| - len
    {
      var b := in_.Get(pos + len - 1);
      assert b == bits[len - 1];
      if b {
        return;
      }
      len := len + 1;
    }
  }

  /** exp_golomb<0>::decode. */
  method Decode(in_: BitVector, pos: nat) returns (n: nat, pos': nat)
    requires in_.Valid() && pos <= in_.size
    requires Parse(in_.Bits()[pos..]).Number? && CountZeros(in_.Bits()[pos..]) < 64
    ensures pos' <= in_.size && Parse(in_.Bits()[pos..]) == Number(n, in_.Bits()[pos'..])
  {
    var len := FindOne(in_, pos, in_.Bits()[pos..]);
    var low := in_.GetWord(pos + len, len - 1, 64);
    ParseParts(in_.Bits(), pos, len, low);
    n := Pow2(len - 1) + ValueOf(low) - 1;
    pos' := pos + len + (len - 1);
  }

  lemma ParseParts(all: Bits, pos: nat, len: nat, low: Word)
    requires pos <= |all| && len == CountZeros(all[pos..]) + 1 <= 64 && pos + 2 * len - 1 <= |all|
    requires low == Zeros(64 - (len - 1)) + all[pos + len..pos + len + (len - 1)]
    ensures Parse(all[pos..]) == Number(Pow2(len - 1) + ValueOf(low) - 1, all[pos + len + (len - 1)..])
  {
    var bits := all[pos..];
    var body := bits[len..2 * len - 1];
    assert all[pos + len..pos + len + (len - 1)] == body && all[pos + len + (len - 1)..] == bits[2 * len - 1..];
    PaddedValue(64 - (len - 1), body);
    ParseAt(bits, len - 1);
  }

  lemma ParseAt(bits: Bits, z: nat)
    requires z == CountZeros(bits) && 2 * z + 1 <= |bits|
    ensures Parse(bits) == Number(Pow2(z) + ValueOf(bits[z + 1..2 * z + 1]) - 1, bits[2 * z + 1..])
  {
    LedValue(bits[z + 1..2 * z + 1]);
  }

  lemma PaddedValue(n: nat, body: Bits)
    ensures ValueOf(Zeros(n) + body) == ValueOf(body)
  {
    assert Zeros(n) == seq(n, i => false);
    ValueOfZeros(n, body);
  }

  lemma LedValue(body: Bits)
    ensures ValueOf([true] + body) == Pow2(|body|) + ValueOf(body)
  {
    assert ([true] + body)[1..] == body;
  }
}

/** The codes of any order: all but the low bits of a number in the code of order 0, then its low bits. */
module ExpGolombOrders {
  import opened Arithmetic
  import opened Binary
  import opened BitAccess
  import opened BitVectors
  import opened ExpGolomb
  import SignInterleave

  function Quotient(n: nat, p: nat): nat
    requires p > 0
  {
    n / p
  }

  function Remainder(n: nat, p: nat): (r: nat)
    requires p > 0
    ensures r < p
  {
    n % p
  }

  /** n >> k. */
  function High(n: nat, k: nat): nat { Quotient(n, Pow2(k)) }

  /** The k low bits of n. */
  function Low(n: nat, k: nat): (low: nat)
    ensures low < Pow2(k)
  {
    Remainder(n, Pow2(k))
  }

  /** m << k. */
  function Raised(m: nat, k: nat): nat { m * Pow2(k) }

  lemma HighAndLow(n: nat, k: nat)
    ensures Raised(High(n, k), k) + Low(n, k) == n && High(n, k) <= n
    ensures k > 0 && n > 0 ==> High(n, k) < n
  {
    DivisionLaw(n, Pow2(k));
    if k > 0 { HighIsSmaller(n, Pow2(k)); }
  }

  /** Order k: the code of all but the k low bits, then those. */
  function OrderCode(order: nat, n: nat): (c: Bits) {
    Code(High(n, order)) + BitsOf(Low(n, order), order)
  }

  function OrderParse(order: nat, bits: Bits): Parsed {
    match Parse(bits)
    case Short => Short
    case Number(m, rest) =>
      if |rest| < order then Short else Number(Raised(m, order) + ValueOf(rest[..order]), rest[order..])
  }

  lemma OrderRoundTrip(order: nat, n: nat, rest: Bits)
    ensures OrderParse(order, OrderCode(order, n) + rest) == Number(n, rest)
  {
    HighAndLow(n, order);
    var low := BitsOf(Low(n, order), order);
    assert OrderCode(order, n) + rest == Code(High(n, order)) + (low + rest);
    RoundTrip(High(n, order), low + rest);
    assert (low + rest)[..order] == low && (low + rest)[order..] == rest;
    ValueOfBitsOf(Low(n, order), order);
  }

  lemma HighIsSmaller(n: nat, p: nat)
    requires p >= 2
    ensures n > 0 ==> Quotient(n, p) < n
  {
  }

  lemma SmallRemainder(n: nat, p: nat)
    requires n < p
    ensures Remainder(n, p) == n
  {
  }

  lemma SameRemainder(n: nat, p: nat, q: nat)
    requires p > 0 && p * q <= n
    ensures Remainder(n - p * q, p) == Remainder(n, p)
  {
    ModPlusMultiple(p, q, n - p * q);
  }

  /** The k low bits of a word are those of the number. */
  lemma {:induction false} LowBitsAre(n: nat, wide: nat, k: nat)
    requires k <= wide && n < Pow2(wide)
    ensures BitsOf(n, wide)[wide - k..] == BitsOf(Low(n, k), k)
  {
    if k == wide {
      SmallRemainder(n, Pow2(k));
    } else if n < Pow2(wide - 1) {
      LowBitsAre(n, wide - 1, k);
      assert BitsOf(n, wide)[1..] == BitsOf(n, wide - 1);
    } else {
      var rest := n - Pow2(wide - 1);
      LowBitsAre(rest, wide - 1, k);
      assert BitsOf(n, wide)[1..] == BitsOf(rest, wide - 1);
      LowOfRest(n, wide - 1, k);
    }
  }

  lemma LowOfRest(n: nat, wide: nat, k: nat)
    requires k <= wide && Pow2(wide) <= n
    ensures Low(n - Pow2(wide), k) == Low(n, k)
  {
    Pow2Add(k, wide - k);
    SameRemainder(n, Pow2(k), Pow2(wide - k));
  }

  /** exp_golomb<order>::encode. */
  method EncodeOrder(out: BitVector, order: nat, n: nat)
    requires out.Valid() && order < 64 && n < SignInterleave.TWO64 && (order == 0 ==> n < SignInterleave.TWO64 - 1)
    modifies out, out.buf
    ensures out.Valid() && (out.buf == old(out.buf) || fresh(out.buf))
    ensures out.Bits() == old(out.Bits()) + OrderCode(order, n)
  {
    HighAndLow(n, order);
    Pow64();
    LowBitsAre(n, 64, order);
    EncodeParts(out, High(n, order), BitsOf(n, 64), order);
    assert out.Bits() == old(out.Bits()) + OrderCode(order, n);
  }

  method EncodeParts(out: BitVector, high: nat, word: Word, order: nat)
    requires out.Valid() && high < SignInterleave.TWO64 - 1 && order <= |word| && 0 < |word|
    modifies out, out.buf
    ensures out.Valid() && (out.buf == old(out.buf) || fresh(out.buf))
    ensures out.Bits() == old(out.Bits()) + (Code(high) + word[|word| - order..])
  {
    ghost var before := out.Bits();
    Encode(out, high);
    if order != 0 {
      out.AppendLow(word, order);
    }
    assert out.Bits() == before + (Code(high) + word[|word| - order..]);
  }

  /** exp_golomb<order>::decode, of a number that fits its type. */
  method DecodeOrder(in_: BitVector, pos: nat, order: nat) returns (n: nat, pos': nat)
    requires in_.Valid() && pos <= in_.size && order < 64
    requires var p := OrderParse(order, in_.Bits()[pos..]);
      p.Number? && p.n < SignInterleave.TWO64 && CountZeros(in_.Bits()[pos..]) < 64
    ensures pos' <= in_.size && OrderParse(order, in_.Bits()[pos..]) == Number(n, in_.Bits()[pos'..])
  {
    var m, mid := Decode(in_, pos);
    if order == 0 {
      n, pos' := m, mid;
      NoLowBits(m, in_.Bits()[mid..]);
    } else {
      var low := DecodeLow(in_, mid, order);
      Modulo(Raised(m, order), low);
      n, pos' := Raised(m, order) % SignInterleave.TWO64 + low, mid + order;
    }
  }

  lemma NoLowBits(m: nat, rest: Bits)
    ensures Raised(m, 0) + ValueOf(rest[..0]) == m && rest[0..] == rest
  {
    assert rest[..0] == [];
  }

  method DecodeLow(in_: BitVector, mid: nat, order: nat) returns (low: nat)
    requires in_.Valid() && mid + order <= in_.size && order < 64
    ensures low == ValueOf(in_.Bits()[mid..][..order]) && in_.Bits()[mid + order..] == in_.Bits()[mid..][order..]
  {
    var word := in_.GetWord(mid, order, 64);
    assert in_.Bits()[mid..mid + order] == in_.Bits()[mid..][..order];
    LowWord(word, in_.Bits()[mid..mid + order]);
    low := ValueOf(word);
  }

  lemma LowWord(low: Word, bits: Bits)
    requires |bits| <= 64 && low == Zeros(64 - |bits|) + bits
    ensures ValueOf(low) == ValueOf(bits)
  {
    assert Zeros(64 - |bits|) == seq(64 - |bits|, i => false);
    ValueOfZeros(64 - |bits|, bits);
  }

  lemma Modulo(high: nat, low: nat)
    requires high + low < SignInterleave.TWO64
    ensures high % SignInterleave.TWO64 == high
  {
  }
}
