/**
  CRC-32C as src/crc32c/crc32c_sse42.cc computes it: whole words at a time, on three
  streams at once, put together with tables that apply many zero bytes in one step.
  Words are bit strings, the most significant bit first.
 */
module Crc32cSpec {
  import opened Binary

  type Word = w: Bits | |w| == 32 witness Zeros(32)

  type Byte = b: Bits | |b| == 8 witness Zeros(8)

  type Data = seq<Byte>

  const ZERO: Word := Zeros(32)

  function XorBits(x: Bits, y: Bits): (z: Bits)
    requires |x| == |y|
    ensures |z| == |x| && forall i :: 0 <= i < |x| ==> z[i] == (x[i] != y[i])
  {
    seq(|x|, i requires 0 <= i < |x| => x[i] != y[i])
  }

  function Xor(x: Word, y: Word): Word { XorBits(x, y) }

  /** A byte as a word. */
  function Wide(b: Byte): Word { Zeros(24) + b }

  // ---------------------------------------------------------------- byte by byte

  /** What one zero bit does to a crc. */
  type Step = Word -> Word

  function Steps(f: Step, x: Word, n: nat): Word
    decreases n
  {
    if n == 0 then x else Steps(f, f(x), n - 1)
  }

  /** The crc of one more byte, and of a byte string: the definition everything is measured by. */
  function AddByte(f: Step, crc: Word, b: Byte): Word {
    Steps(f, Xor(crc, Wide(b)), |b|)
  }

  function Crc(f: Step, crc: Word, data: Data): Word
    decreases data
  {
    if data == [] then crc else Crc(f, AddByte(f, crc, data[0]), data[1..])
  }

  /** The polynomial 0x82f63b78. */
  const POLY: Word := BitsOf(0x82, 8) + BitsOf(0xf6, 8) + BitsOf(0x3b, 8) + BitsOf(0x78, 8)

  function Shr(x: Bits): (y: Bits)
    requires |x| > 0
    ensures |y| == |x|
  {
    [false] + x[..|x| - 1]
  }

  /** Divide by x modulo the polynomial, bits in reversed order. */
  function Castagnoli(x: Word): Word {
    if x[31] then Xor(Shr(x), POLY) else Shr(x)
  }

  // ------------------------------------------------------------------ linearity

  ghost predicate Linear(f: Step) {
    && f(ZERO) == ZERO
    && forall x: Word, y: Word {:trigger f(Xor(x, y))} :: f(Xor(x, y)) == Xor(f(x), f(y))
  }

  lemma ShiftXor(x: Bits, y: Bits)
    requires |x| == |y| > 0
    ensures Shr(XorBits(x, y)) == XorBits(Shr(x), Shr(y))
  {
  }

  lemma XorMoves(x: Bits, y: Bits, p: Bits)
    requires |x| == |y| == |p|
    ensures XorBits(XorBits(x, p), XorBits(y, p)) == XorBits(x, y)
    ensures XorBits(XorBits(x, p), y) == XorBits(XorBits(x, y), p) == XorBits(x, XorBits(y, p))
  {
  }

  lemma CastagnoliAdds(x: Word, y: Word)
    ensures Castagnoli(Xor(x, y)) == Xor(Castagnoli(x), Castagnoli(y))
  {
    ShiftXor(x, y);
    XorMoves(Shr(x), Shr(y), POLY);
  }

  lemma CastagnoliLinear()
    ensures Linear(Castagnoli)
  {
    assert Shr(ZERO) == ZERO;
    forall x: Word, y: Word ensures Castagnoli(Xor(x, y)) == Xor(Castagnoli(x), Castagnoli(y)) { CastagnoliAdds(x, y); }
  }

  lemma {:induction false} StepsLinear(f: Step, x: Word, y: Word, n: nat)
    requires Linear(f)
    ensures Steps(f, Xor(x, y), n) == Xor(Steps(f, x, n), Steps(f, y, n))
    decreases n
  {
    if n > 0 { StepsLinear(f, f(x), f(y), n - 1); }
  }

  lemma {:induction false} StepsOfZero(f: Step, n: nat)
    requires Linear(f)
    ensures Steps(f, ZERO, n) == ZERO
  {
    if n > 0 { StepsOfZero(f, n - 1); }
  }

  lemma {:induction false} StepsAdd(f: Step, x: Word, m: nat, n: nat)
    ensures Steps(f, x, m + n) == Steps(f, Steps(f, x, m), n)
    decreases m
  {
    if m > 0 { StepsAdd(f, f(x), m - 1, n); }
  }

  lemma {:induction false} CrcConcat(f: Step, crc: Word, a: Data, b: Data)
    ensures Crc(f, crc, a + b) == Crc(f, Crc(f, crc, a), b)
    decreases a
  {
    if a == [] {
      assert a + b == b;
    } else {
      CrcConcat(f, AddByte(f, crc, a[0]), a[1..], b);
      assert (a + b)[1..] == a[1..] + b;
    }
  }

  lemma ZeroIsNeutral(x: Word)
    ensures Xor(ZERO, x) == x && Xor(x, ZERO) == x
  {
  }

  lemma XorAssociates(x: Word, y: Word, z: Word)
    ensures Xor(Xor(x, y), z) == Xor(x, Xor(y, z))
  {
  }

  /** The value before a byte, run on for n more bits, comes out beside the byte's own crc. */
  lemma ByteSplits(f: Step, crc: Word, b: Byte, n: nat, m: nat)
    requires Linear(f) && m == 8 + n
    ensures Steps(f, AddByte(f, crc, b), n) == Xor(Steps(f, crc, m), Steps(f, AddByte(f, ZERO, b), n))
  {
    StepsLinear(f, crc, Wide(b), 8);
    ZeroIsNeutral(Wide(b));
    StepsLinear(f, Steps(f, crc, 8), Steps(f, Wide(b), 8), n);
    StepsAdd(f, crc, 8, n);
  }

  /** The starting value contributes as if only zeros followed; the data as if it started at 0. */
  lemma {:induction false} CrcSplits(f: Step, crc: Word, data: Data, m: nat)
    requires Linear(f) && m == 8 * |data|
    ensures Crc(f, crc, data) == Xor(Steps(f, crc, m), Crc(f, ZERO, data))
    decreases data
  {
    if data == [] {
      ZeroIsNeutral(crc);
    } else {
      var b, rest := data[0], data[1..];
      var n := m - 8;
      var c, c0 := AddByte(f, crc, b), AddByte(f, ZERO, b);
      CrcSplits(f, c, rest, n);
      CrcSplits(f, c0, rest, n);
      ByteSplits(f, crc, b, n, m);
      XorAssociates(Steps(f, crc, m), Steps(f, c0, n), Crc(f, ZERO, rest));
    }
  }

  /** Three pieces of one length: how the streams of crc32c_hw are put together. */
  lemma ThreeStreams(f: Step, crc: Word, a: Data, b: Data, c: Data)
    requires Linear(f) && |b| == |c|
    ensures Crc(f, crc, a + b + c)
      == Xor(Steps(f, Xor(Steps(f, Crc(f, crc, a), 8 * |b|), Crc(f, ZERO, b)), 8 * |b|), Crc(f, ZERO, c))
  {
    CrcConcat(f, crc, a + b, c);
    CrcConcat(f, crc, a, b);
    CrcSplits(f, Crc(f, crc, a), b, 8 * |b|);
    CrcSplits(f, Crc(f, Crc(f, crc, a), b), c, 8 * |b|);
  }
}

/** The crc32b and crc32q instructions: division in a register as wide as the data. */
module Crc32cInstructions {
  import opened Binary
  import opened Crc32cSpec

  /** A crc in the low end of a register of n bits. */
  function Pad(c: Word, n: nat): (r: Bits)
    requires n >= 32
    ensures |r| == n
  {
    Zeros(n - 32) + c
  }

  /** One division step; registers have at least 32 bits. */
  function Divide(r: Bits): (q: Bits)
    ensures |q| == |r|
  {
    if |r| < 32 then r else if r[|r| - 1] then XorBits(Shr(r), Pad(POLY, |r|)) else Shr(r)
  }

  function Run(g: Bits -> Bits, r: Bits, k: nat): Bits
    decreases k
  {
    if k == 0 then r else Run(g, g(r), k - 1)
  }

  /** Data bytes as they stand in a register: the first byte lowest. */
  function Little(data: Data): (r: Bits)
    ensures |r| == 8 * |data|
  {
    if data == [] then [] else Little(data[1..]) + data[0]
  }

  function Place(data: Data, n: nat): (r: Bits)
    requires 8 * |data| <= n
    ensures |r| == n
  {
    Zeros(n - 8 * |data|) + Little(data)
  }

  /** A crc instruction on a register of n bits: 32 for crc32b, 64 for crc32q. */
  function Instruction(crc: Word, data: Data, n: nat): (r: Bits)
    requires n >= 32 && 8 * |data| <= n
    ensures |r| == n
  {
    RunLength(Divide, XorBits(Pad(crc, n), Place(data, n)), 8 * |data|);
    Run(Divide, XorBits(Pad(crc, n), Place(data, n)), 8 * |data|)
  }

  function Crc32b(crc: Word, b: Byte): Word { Instruction(crc, [b], 32) }

  function Crc32q(crc: Word, data: Data): Word
    requires |data| == 8
  {
    Instruction(crc, data, 64)[32..]
  }

  // ------------------------------------------------- laws of a division step

  ghost predicate KeepsLength(g: Bits -> Bits) {
    forall r :: |g(r)| == |r|
  }

  ghost predicate Additive(g: Bits -> Bits) {
    && KeepsLength(g)
    && forall x, y {:trigger g(XorBits(x, y))} :: |x| == |y| ==> g(XorBits(x, y)) == XorBits(g(x), g(y))
  }

  ghost predicate Shifts(g: Bits -> Bits, n: nat) {
    n > 0 && forall r {:trigger g(r)} :: |r| == n && !r[n - 1] ==> g(r) == Shr(r)
  }

  ghost predicate Extends(g: Bits -> Bits, f: Step, n: nat)
    requires n >= 32
  {
    forall c: Word {:trigger g(Pad(c, n))} :: g(Pad(c, n)) == Pad(f(c), n)
  }

  lemma PadXor(x: Word, y: Word, n: nat)
    requires n >= 32
    ensures XorBits(Pad(x, n), Pad(y, n)) == Pad(Xor(x, y), n)
  {
  }

  lemma DividePad(c: Word, n: nat)
    requires n >= 32
    ensures Divide(Pad(c, n)) == Pad(Castagnoli(c), n)
  {
    assert Shr(Pad(c, n)) == Pad(Shr(c), n);
    PadXor(Shr(c), POLY, n);
  }

  lemma DivideAdds(x: Bits, y: Bits)
    requires |x| == |y|
    ensures Divide(XorBits(x, y)) == XorBits(Divide(x), Divide(y))
  {
    if |x| >= 32 {
      ShiftXor(x, y);
      XorMoves(Shr(x), Shr(y), Pad(POLY, |x|));
    }
  }

  lemma DivideLaws(n: nat)
    requires n >= 32
    ensures Additive(Divide) && Shifts(Divide, n) && Extends(Divide, Castagnoli, n)
  {
    forall x, y | |x| == |y| ensures Divide(XorBits(x, y)) == XorBits(Divide(x), Divide(y)) { DivideAdds(x, y); }
    forall c: Word ensures Divide(Pad(c, n)) == Pad(Castagnoli(c), n) { DividePad(c, n); }
  }

  // --------------------------------------------------------- runs of division steps

  lemma {:induction false} RunLength(g: Bits -> Bits, r: Bits, k: nat)
    requires KeepsLength(g)
    ensures |Run(g, r, k)| == |r|
    decreases k
  {
    if k > 0 { RunLength(g, g(r), k - 1); }
  }

  lemma {:induction false} RunPad(g: Bits -> Bits, f: Step, c: Word, n: nat, k: nat)
    requires n >= 32 && Extends(g, f, n)
    ensures Run(g, Pad(c, n), k) == Pad(Steps(f, c, k), n)
    decreases k
  {
    if k > 0 { RunPad(g, f, f(c), n, k - 1); }
  }

  lemma {:induction false} RunAdds(g: Bits -> Bits, x: Bits, y: Bits, k: nat)
    requires Additive(g) && |x| == |y|
    ensures |Run(g, x, k)| == |Run(g, y, k)| == |x|
    ensures Run(g, XorBits(x, y), k) == XorBits(Run(g, x, k), Run(g, y, k))
    decreases k
  {
    if k > 0 { RunAdds(g, g(x), g(y), k - 1); }
  }

  lemma ShiftOne(h: Bits, k: nat)
    requires k > 0
    ensures Shr(h + Zeros(k)) == ([false] + h) + Zeros(k - 1)
    ensures Zeros(k - 1) + ([false] + h) == Zeros(k) + h
  {
  }

  /** While the low bits are zero, division only shifts. */
  lemma {:induction false} RunShifts(g: Bits -> Bits, h: Bits, k: nat)
    requires Shifts(g, |h| + k)
    ensures Run(g, h + Zeros(k), k) == Zeros(k) + h
    decreases k
  {
    if k == 0 {
      assert h + Zeros(0) == h == Zeros(0) + h;
    } else {
      ShiftOne(h, k);
      RunShifts(g, [false] + h, k - 1);
    }
  }

  lemma {:induction false} RunAdd(g: Bits -> Bits, r: Bits, j: nat, k: nat)
    ensures Run(g, r, j + k) == Run(g, Run(g, r, j), k)
    decreases j
  {
    if j > 0 { RunAdd(g, g(r), j - 1, k); }
  }

  lemma XorRegroups(x: Bits, y: Bits, z: Bits)
    requires |x| == |y| == |z|
    ensures XorBits(x, XorBits(y, z)) == XorBits(XorBits(x, y), z)
  {
  }

  lemma PlaceParts(data: Data, n: nat, h: Bits)
    requires n >= 32 && data != [] && 8 * |data| <= n && h == Zeros(n - 8 * |data|) + Little(data[1..])
    ensures Place(data, n) == XorBits(Pad(Wide(data[0]), n), h + Zeros(8)) && Place(data[1..], n) == Zeros(8) + h
  {
    var little, k := Little(data[1..]), n - 8 * |data|;
    assert Little(data) == little + data[0];
    PlaceBits(little, data[0], k, n);
  }

  lemma PlaceBits(little: Bits, b: Byte, k: nat, n: nat)
    requires n >= 32 && n == k + |little| + 8
    ensures Zeros(k) + (little + b) == XorBits(Pad(Wide(b), n), Zeros(k) + little + Zeros(8))
    ensures Zeros(k + 8) + little == Zeros(8) + (Zeros(k) + little)
  {
  }

  /** Eight divisions take the lowest byte into the crc and bring the others down. */
  lemma OneByteDown(g: Bits -> Bits, f: Step, c: Word, data: Data, n: nat, e: nat)
    requires n >= 32 && data != [] && 8 * |data| <= n && Additive(g) && Shifts(g, n) && Extends(g, f, n) && e == 8
    ensures Run(g, XorBits(Pad(c, n), Place(data, n)), e)
      == XorBits(Pad(Steps(f, Xor(c, Wide(data[0])), e), n), Place(data[1..], n))
  {
    var b, h := Wide(data[0]), Zeros(n - 8 * |data|) + Little(data[1..]);
    PlaceParts(data, n, h);
    XorRegroups(Pad(c, n), Pad(b, n), h + Zeros(e));
    PadXor(c, b, n);
    RunAdds(g, Pad(Xor(c, b), n), h + Zeros(e), e);
    RunPad(g, f, Xor(c, b), n, e);
    RunShifts(g, h, e);
  }

  /** Dividing out all bytes in one register gives the byte-serial crc. */
  lemma {:induction false} RegisterIsSerial(g: Bits -> Bits, f: Step, c: Word, data: Data, n: nat, k: nat)
    requires n >= 32 && 8 * |data| == k <= n && Additive(g) && Shifts(g, n) && Extends(g, f, n)
    ensures Run(g, XorBits(Pad(c, n), Place(data, n)), k) == Pad(Crc(f, c, data), n)
    decreases data
  {
    if data == [] {
      assert XorBits(Pad(c, n), Place(data, n)) == Pad(c, n);
    } else {
      OneByteDown(g, f, c, data, n, 8);
      RunAdd(g, XorBits(Pad(c, n), Place(data, n)), 8, k - 8);
      RegisterIsSerial(g, f, AddByte(f, c, data[0]), data[1..], n, k - 8);
    }
  }

  lemma InstructionIsSerial(crc: Word, data: Data, n: nat)
    requires n >= 32 && 8 * |data| <= n
    ensures Instruction(crc, data, n) == Pad(Crc(Castagnoli, crc, data), n)
  {
    DivideLaws(n);
    RegisterIsSerial(Divide, Castagnoli, crc, data, n, 8 * |data|);
  }

  lemma Crc32bIsSerial(crc: Word, b: Byte)
    ensures Crc32b(crc, b) == Crc(Castagnoli, crc, [b])
  {
    InstructionIsSerial(crc, [b], 32);
  }

  lemma Crc32qIsSerial(crc: Word, data: Data)
    requires |data| == 8
    ensures Crc32q(crc, data) == Crc(Castagnoli, crc, data)
  {
    InstructionIsSerial(crc, data, 64);
  }
}

/** Matrices over GF(2) and the tables made from them. */
module Crc32cTables {
  import opened Binary
  import opened Crc32cSpec

  function Shl(x: Word): Word { x[1..] + [false] }

  function Shls(x: Word, k: nat): Word
    decreases k
  {
    if k == 0 then x else Shls(Shl(x), k - 1)
  }

  /** The word 1 << i. */
  function Bit(i: nat): Word
    requires i < 32
  {
    Zeros(31 - i) + [true] + Zeros(i)
  }

  lemma {:induction false} ShlsBit(i: nat, k: nat)
    requires i + k < 32
    ensures Shls(Bit(i), k) == Bit(i + k)
    decreases k
  {
    if k > 0 {
      assert Shl(Bit(i)) == Bit(i + 1);
      ShlsBit(i + 1, k - 1);
    }
  }

  lemma {:induction false} ShlsZero(k: nat)
    ensures Shls(ZERO, k) == ZERO
    decreases k
  {
    if k > 0 {
      assert Shl(ZERO) == ZERO;
      ShlsZero(k - 1);
    }
  }

  lemma {:induction false} ShlsXor(x: Word, y: Word, k: nat)
    ensures Shls(Xor(x, y), k) == Xor(Shls(x, k), Shls(y, k))
    decreases k
  {
    if k > 0 {
      assert Shl(Xor(x, y)) == Xor(Shl(x), Shl(y));
      ShlsXor(Shl(x), Shl(y), k - 1);
    }
  }

  function LowBit(v: Word): Word { if v[31] then Bit(0) else ZERO }

  lemma LowAndHigh(v: Word)
    ensures v == Xor(LowBit(v), Shl(Shr(v)))
  {
  }

  /** Row k times the lowest bit, row k + 1 times the next, and so on: gf2_matrix_times. */
  function Times(mat: seq<Word>, v: Word, k: nat): Word
    requires |mat| == 32 && k <= 32
    decreases 32 - k
  {
    if v == ZERO || k == 32 then ZERO
    else Xor(if v[31] then mat[k] else ZERO, Times(mat, Shr(v), k + 1))
  }

  /** The matrix of n zero bits: its rows are what n zero bits make of the single bits. */
  ghost predicate Represents(mat: seq<Word>, f: Step, n: nat) {
    |mat| == 32 && forall i :: 0 <= i < 32 ==> mat[i] == Steps(f, Bit(i), n)
  }

  ghost predicate Within(v: Word, k: nat)
    requires k <= 32
  {
    forall j :: 0 <= j < k ==> !v[j]
  }

  lemma ShrWithin(v: Word, k: nat)
    requires k < 32 && Within(v, k)
    ensures Within(Shr(v), k + 1)
  {
  }

  lemma WithinAll(v: Word)
    requires Within(v, 32)
    ensures v == ZERO
  {
  }

  lemma TimesRow(mat: seq<Word>, f: Step, n: nat, v: Word, k: nat)
    requires Represents(mat, f, n) && Linear(f) && k < 32
    ensures (if v[31] then mat[k] else ZERO) == Steps(f, Shls(LowBit(v), k), n)
  {
    ShlsBit(0, k);
    ShlsZero(k);
    StepsOfZero(f, n);
  }

  lemma TimesParts(f: Step, n: nat, v: Word, k: nat)
    requires Linear(f)
    ensures Steps(f, Shls(v, k), n) == Xor(Steps(f, Shls(LowBit(v), k), n), Steps(f, Shls(Shr(v), k + 1), n))
  {
    LowAndHigh(v);
    ShlsXor(LowBit(v), Shl(Shr(v)), k);
    StepsLinear(f, Shls(LowBit(v), k), Shls(Shl(Shr(v)), k), n);
  }

  /** Multiplying by the matrix of n zero bits feeds n zero bits. */
  lemma {:induction false} TimesIsSteps(mat: seq<Word>, f: Step, n: nat, v: Word, k: nat)
    requires Represents(mat, f, n) && Linear(f) && k <= 32 && Within(v, k)
    ensures Times(mat, v, k) == Steps(f, Shls(v, k), n)
    decreases 32 - k
  {
    if k == 32 { WithinAll(v); }
    if v == ZERO {
      ShlsZero(k);
      StepsOfZero(f, n);
    } else {
      TimesRow(mat, f, n, v, k);
      TimesParts(f, n, v, k);
      ShrWithin(v, k);
      TimesIsSteps(mat, f, n, Shr(v), k + 1);
    }
  }

  lemma TimesApplies(mat: seq<Word>, f: Step, n: nat, v: Word)
    requires Represents(mat, f, n) && Linear(f)
    ensures Times(mat, v, 0) == Steps(f, v, n)
  {
    TimesIsSteps(mat, f, n, v, 0);
  }

  /** gf2_matrix_times. */
  method MatrixTimes(mat: array<Word>, vec: Word) returns (sum: Word)
    requires mat.Length == 32
    ensures sum == Times(mat[..], vec, 0)
  {
    sum := ZERO;
    var v, k := vec, 0;
    ZeroIsNeutral(Times(mat[..], v, 0));
    while v != ZERO
      invariant k <= 32 && Within(v, k) && Xor(sum, Times(mat[..], v, k)) == Times(mat[..], vec, 0)
      decreases 32 - k
    {
      if k == 32 { WithinAll(v); }
      ghost var rest := Times(mat[..], Shr(v), k + 1);
      XorAssociates(sum, if v[31] then mat[k] else ZERO, rest);
      ZeroIsNeutral(sum);
      if v[31] { sum := Xor(sum, mat[k]); }
      ShrWithin(v, k);
      v, k := Shr(v), k + 1;
    }
    ZeroIsNeutral(sum);
  }

  /** gf2_matrix_square: twice as many zero bits. */
  method MatrixSquare(square: array<Word>, mat: array<Word>, ghost f: Step, ghost n: nat)
    requires square != mat && square.Length == 32 && Represents(mat[..], f, n) && Linear(f)
    modifies square
    ensures Represents(square[..], f, 2 * n) && Represents(mat[..], f, n)
  {
    assert mat.Length == |mat[..]|;
    for i := 0 to 32
      invariant mat[..] == old(mat[..]) && forall j :: 0 <= j < i ==> square[j] == Steps(f, Bit(j), 2 * n)
    {
      assert mat[i] == mat[..][i];
      TimesApplies(mat[..], f, n, mat[i]);
      StepsAdd(f, Bit(i), n, n);
      square[i] := MatrixTimes(mat, mat[i]);
    }
  }

  /** m doubled for every halving of len: the largest power of two not above len, times m. */
  function Scaled(m: nat, len: nat): nat
    decreases len
  {
    if len <= 1 then m else Scaled(2 * m, len / 2)
  }

  lemma {:induction false} ScaledPower(a: nat, k: nat)
    ensures Scaled(Pow2(a), Pow2(k)) == Pow2(a + k)
    decreases k
  {
    if k > 0 { ScaledPower(a + 1, k - 1); }
  }

  lemma CastagnoliOfBits(n: nat)
    requires 1 <= n < 32
    ensures Castagnoli(Bit(n)) == Bit(n - 1)
  {
  }

  lemma CastagnoliOfOne()
    ensures Castagnoli(Bit(0)) == POLY
  {
    assert Shr(Bit(0)) == ZERO;
    ZeroIsNeutral(POLY);
  }

  lemma ShlBit(n: nat)
    requires n < 31
    ensures Shl(Bit(n)) == Bit(n + 1)
  {
  }

  /** The matrix of a single zero bit. */
  method OneZeroBit(odd: array<Word>, ghost f: Step)
    requires odd.Length == 32 && f(Bit(0)) == POLY && forall n {:trigger f(Bit(n))} :: 1 <= n < 32 ==>
      f(Bit(n)) == Bit(n - 1)
    modifies odd
    ensures Represents(odd[..], f, 1)
  {
    odd[0] := POLY;
    var row := Bit(0);
    for n := 1 to 32
      invariant n < 32 ==> row == Bit(n - 1)
      invariant forall i :: 0 <= i < n ==> odd[i] == f(Bit(i))
    {
      odd[n] := row;
      row := Shl(row);
      if n < 31 { ShlBit(n - 1); }
    }
    forall i | 0 <= i < 32 ensures odd[i] == Steps(f, Bit(i), 1) {
      assert Steps(f, f(Bit(i)), 0) == f(Bit(i));
    }
  }

  /** crc32c_zeros_op: the matrix of len zero bytes, len rounded down to a power of two. */
  method ZerosOp(even: array<Word>, len: nat)
    requires even.Length == 32
    modifies even
    ensures Represents(even[..], Castagnoli, Scaled(8, len))
  {
    var odd := new Word[32](i => ZERO);
    CastagnoliLinear();
    CastagnoliOfOne();
    forall n | 1 <= n < 32 ensures Castagnoli(Bit(n)) == Bit(n - 1) { CastagnoliOfBits(n); }
    OneZeroBit(odd, Castagnoli);
    MatrixSquare(even, odd, Castagnoli, 1);
    MatrixSquare(odd, even, Castagnoli, 2);
    Doubling(even, odd, len, Castagnoli);
  }

  /** The loop of crc32c_zeros_op. */
  method Doubling(even: array<Word>, odd: array<Word>, len: nat, ghost f: Step)
    requires even != odd && even.Length == odd.Length == 32 && Linear(f) && Represents(odd[..], f, 4)
    modifies even, odd
    ensures Represents(even[..], f, Scaled(8, len))
  {
    ghost var m: nat := 4;
    var l := len;
    while true
      invariant Represents(odd[..], f, m) && Scaled(2 * m, l) == Scaled(8, len)
      decreases l
    {
      MatrixSquare(even, odd, f, m);
      l := l / 2;
      if l == 0 { return; }
      MatrixSquare(odd, even, f, 2 * m);
      l := l / 2;
      m := 4 * m;
      if l == 0 { break; }
    }
    forall n | 0 <= n < 32 { even[n] := odd[n]; }
    assert even[..] == odd[..];
  }
}

/** crc32c_zeros, crc32c_shift and crc32c_hw. */
module Crc32cHardware {
  import opened Binary
  import opened Crc32cSpec
  import opened Crc32cInstructions
  import opened Crc32cTables

  // ------------------------------------------------------------------ the tables

  /** A byte moved to position j of a word: n << (8 * j). */
  function Slot(j: nat, b: Byte): Word
    requires j < 4
  {
    Zeros(24 - 8 * j) + b + Zeros(8 * j)
  }

  function Index(b: Byte): (i: nat)
    ensures i < 256
  {
    assert Pow2(8) == 256;
    ValueOf(b)
  }

  function ByteOf(n: nat): Byte
    requires n < 256
  {
    assert Pow2(8) == 256;
    BitsOf(n, 8)
  }

  lemma ByteOfIndex(b: Byte)
    ensures ByteOf(Index(b)) == b
  {
    BitsOfValueOf(b);
  }

  /** The four tables of n zero bits. */
  ghost predicate Shifts(zeros: array2<Word>, f: Step, n: nat)
    reads zeros
  {
    && zeros.Length0 == 4 && zeros.Length1 == 256
    && forall j, k :: 0 <= j < 4 && 0 <= k < 256 ==> zeros[j, k] == Steps(f, Slot(j, ByteOf(k)), n)
  }

  /** crc32c_zeros. */
  method ZerosTables(zeros: array2<Word>, len: nat)
    requires zeros.Length0 == 4 && zeros.Length1 == 256
    modifies zeros
    ensures Shifts(zeros, Castagnoli, Scaled(8, len))
  {
    var op := new Word[32](i => ZERO);
    ZerosOp(op, len);
    CastagnoliLinear();
    FillTables(zeros, op, Castagnoli, Scaled(8, len));
  }

  method FillTables(zeros: array2<Word>, op: array<Word>, ghost f: Step, ghost n: nat)
    requires zeros.Length0 == 4 && zeros.Length1 == 256 && op.Length == 32 && Represents(op[..], f, n) && Linear(f)
    modifies zeros
    ensures Shifts(zeros, f, n)
  {
    for k := 0 to 256
      invariant op[..] == old(op[..])
      invariant forall j, i :: 0 <= j < 4 && 0 <= i < k ==> zeros[j, i] == Steps(f, Slot(j, ByteOf(i)), n)
    {
      FillEntry(zeros, op, 0, k, f, n);
      FillEntry(zeros, op, 1, k, f, n);
      FillEntry(zeros, op, 2, k, f, n);
      FillEntry(zeros, op, 3, k, f, n);
    }
  }

  method FillEntry(zeros: array2<Word>, op: array<Word>, j: nat, k: nat, ghost f: Step, ghost n: nat)
    requires zeros.Length0 == 4 && zeros.Length1 == 256 && op.Length == 32 && Represents(op[..], f, n) && Linear(f)
    requires j < 4 && k < 256
    modifies zeros
    ensures zeros[j, k] == Steps(f, Slot(j, ByteOf(k)), n)
    ensures forall i, m :: 0 <= i < 4 && 0 <= m < 256 && !(i == j && m == k) ==> zeros[i, m] == old(zeros[i, m])
  {
    TimesApplies(op[..], f, n, Slot(j, ByteOf(k)));
    zeros[j, k] := MatrixTimes(op, Slot(j, ByteOf(k)));
  }

  lemma FourBytes(crc: Word)
    ensures crc == Xor(Xor(Xor(Slot(0, crc[24..]), Slot(1, crc[16..24])), Slot(2, crc[8..16])), Slot(3, crc[..8]))
  {
  }

  lemma StepsOfFour(f: Step, a: Word, b: Word, c: Word, d: Word, n: nat)
    requires Linear(f)
    ensures Steps(f, Xor(Xor(Xor(a, b), c), d), n)
      == Xor(Xor(Xor(Steps(f, a, n), Steps(f, b, n)), Steps(f, c, n)), Steps(f, d, n))
  {
    StepsLinear(f, Xor(Xor(a, b), c), d, n);
    StepsLinear(f, Xor(a, b), c, n);
    StepsLinear(f, a, b, n);
  }

  lemma Lookup(zeros: array2<Word>, f: Step, n: nat, j: nat, b: Byte)
    requires Shifts(zeros, f, n) && j < 4
    ensures zeros[j, Index(b)] == Steps(f, Slot(j, b), n)
  {
    ByteOfIndex(b);
  }

  /** crc32c_shift: four lookups feed as many zeros as the tables stand for. */
  method Shift(zeros: array2<Word>, crc: Word, ghost f: Step, ghost n: nat) returns (r: Word)
    requires Shifts(zeros, f, n) && Linear(f)
    ensures r == Steps(f, crc, n)
  {
    Lookup(zeros, f, n, 0, crc[24..]);
    Lookup(zeros, f, n, 1, crc[16..24]);
    Lookup(zeros, f, n, 2, crc[8..16]);
    Lookup(zeros, f, n, 3, crc[..8]);
    FourBytes(crc);
    StepsOfFour(f, Slot(0, crc[24..]), Slot(1, crc[16..24]), Slot(2, crc[8..16]), Slot(3, crc[..8]), n);
    r := Xor(Xor(Xor(zeros[0, Index(crc[24..])], zeros[1, Index(crc[16..24])]), zeros[2, Index(crc[8..16])]),
      zeros[3, Index(crc[..8])]);
  }

  // --------------------------------------------------------------------- the loops

  /** The crc of buf[from..end]. */
  ghost function CrcOf(f: Step, init: Word, buf: Data, from: nat, end: nat): Word
    requires from <= end <= |buf|
    decreases end
  {
    if from == end then init else AddByte(f, CrcOf(f, init, buf, from, end - 1), buf[end - 1])
  }

  lemma {:induction false} CrcOfSlice(f: Step, init: Word, buf: Data, from: nat, end: nat)
    requires from <= end <= |buf|
    ensures CrcOf(f, init, buf, from, end) == Crc(f, init, buf[from..end])
    decreases end
  {
    if from < end {
      CrcOfSlice(f, init, buf, from, end - 1);
      assert buf[from..end] == buf[from..end - 1] + [buf[end - 1]];
      CrcConcat(f, init, buf[from..end - 1], [buf[end - 1]]);
    }
  }

  lemma CrcOfExtended(f: Step, init: Word, buf: Data, from: nat, mid: nat, end: nat)
    requires from <= mid <= end <= |buf|
    ensures CrcOf(f, init, buf, from, end) == Crc(f, CrcOf(f, init, buf, from, mid), buf[mid..end])
  {
    CrcOfSlice(f, init, buf, from, mid);
    CrcOfSlice(f, init, buf, from, end);
    assert buf[from..end] == buf[from..mid] + buf[mid..end];
    CrcConcat(f, init, buf[from..mid], buf[mid..end]);
  }

  /** A buffer, with the crc of each of its stretches. */
  datatype Track = Track(buf: Data, ghost f: Step, ghost at: (Word, nat, nat) -> Word)

  type Tracked = t: Track | Follows(t) ghost witness Example()

  ghost predicate Follows(t: Track) {
    && Linear(t.f)
    && (forall init: Word, from: nat, end: nat {:trigger CrcOf(t.f, init, t.buf, from, end)} ::
          from <= end <= |t.buf| ==> t.at(init, from, end) == CrcOf(t.f, init, t.buf, from, end))
    && (forall crc: Word, b: Byte {:trigger Crc32b(crc, b)} :: Crc32b(crc, b) == Crc(t.f, crc, [b]))
    && (forall crc: Word, data: Data {:trigger Crc32q(crc, data)} :: |data| == 8 ==>
      Crc32q(crc, data) == Crc(t.f, crc, data))
  }

  ghost function TrackOf(buf: Data): (t: Track)
    ensures Follows(t) && t.buf == buf && t.f == Castagnoli
  {
    CastagnoliLinear();
    InstructionsAreSerial();
    Track(buf, Castagnoli,
          (init: Word, from: nat, end: nat) => if from <= end <= |buf| then CrcOf(Castagnoli, init, buf, from, end)
            else init)
  }

  ghost function Example(): (t: Track)
    ensures Follows(t)
  {
    TrackOf([])
  }

  lemma InstructionsAreSerial()
    ensures forall crc: Word, b: Byte {:trigger Crc32b(crc, b)} :: Crc32b(crc, b) == Crc(Castagnoli, crc, [b])
    ensures forall crc: Word, data: Data {:trigger Crc32q(crc, data)} ::
      |data| == 8 ==> Crc32q(crc, data) == Crc(Castagnoli, crc, data)
  {
    forall crc: Word, b: Byte ensures Crc32b(crc, b) == Crc(Castagnoli, crc, [b]) { Crc32bIsSerial(crc, b); }
    forall crc: Word, data: Data | |data| == 8 ensures Crc32q(crc, data) == Crc(Castagnoli, crc, data) {
      Crc32qIsSerial(crc, data);
    }
  }

  lemma AtIsCrc(t: Tracked, init: Word, from: nat, end: nat)
    requires from <= end <= |t.buf|
    ensures t.at(init, from, end) == Crc(t.f, init, t.buf[from..end])
  {
    CrcOfSlice(t.f, init, t.buf, from, end);
  }

  lemma AtExtends(t: Tracked, init: Word, from: nat, mid: nat, end: nat)
    requires from <= mid <= end <= |t.buf|
    ensures t.at(init, from, end) == Crc(t.f, t.at(init, from, mid), t.buf[mid..end])
  {
    CrcOfExtended(t.f, init, t.buf, from, mid, end);
  }

  method Execute(t: Tracked, crc: Word, data: Data) returns (r: Word)
    requires |data| == 8
    ensures r == Crc(t.f, crc, data)
  {
    r := Crc32q(crc, data);
  }

  /** One crc32q: a stream that has come to next goes on by eight bytes. */
  method FeedWord(crc: Word, t: Tracked, next: nat, ghost init: Word, ghost from: nat) returns (r: Word)
    requires from <= next <= next + 8 <= |t.buf| && crc == t.at(init, from, next)
    ensures r == t.at(init, from, next + 8)
  {
    AtExtends(t, init, from, next, next + 8);
    r := Execute(t, crc, t.buf[next..next + 8]);
  }

  /** One crc32b. */
  method FeedByte(crc: Word, t: Tracked, next: nat, ghost init: Word) returns (r: Word)
    requires next < |t.buf| && crc == t.at(init, 0, next)
    ensures r == t.at(init, 0, next + 1)
  {
    CrcOfExtended(t.f, init, t.buf, 0, next, next + 1);
    assert t.buf[next..next + 1] == [t.buf[next]];
    r := Crc32b(crc, t.buf[next]);
  }

  lemma EmptyStretch(t: Tracked, init: Word, p: nat)
    requires p <= |t.buf|
    ensures t.at(init, p, p) == init
  {
    assert CrcOf(t.f, init, t.buf, p, p) == init;
  }

  /** Three crc32q at a time, on three stretches of the given number of words. */
  method ThreeWays(crc: Word, t: Tracked, next: nat, words: nat) returns (crc0: Word, crc1: Word, crc2: Word)
    requires next + 24 * words <= |t.buf|
    ensures crc0 == t.at(crc, next, next + 8 * words)
    ensures crc1 == t.at(ZERO, next + 8 * words, next + 16 * words)
    ensures crc2 == t.at(ZERO, next + 16 * words, next + 24 * words)
  {
    crc0, crc1, crc2 := crc, ZERO, ZERO;
    var p0, p1, p2 := next, next + 8 * words, next + 16 * words;
    EmptyStretch(t, crc, p0);
    EmptyStretch(t, ZERO, p1);
    EmptyStretch(t, ZERO, p2);
    for i := 0 to words
      invariant p0 == next + 8 * i && p1 == next + 8 * words + 8 * i && p2 == next + 16 * words + 8 * i
      invariant crc0 == t.at(crc, next, p0)
      invariant crc1 == t.at(ZERO, next + 8 * words, p1)
      invariant crc2 == t.at(ZERO, next + 16 * words, p2)
    {
      crc0 := FeedWord(crc0, t, p0, crc, next);
      crc1 := FeedWord(crc1, t, p1, ZERO, next + 8 * words);
      crc2 := FeedWord(crc2, t, p2, ZERO, next + 16 * words);
      p0, p1, p2 := p0 + 8, p1 + 8, p2 + 8;
    }
  }

  lemma ThreeStretches(t: Tracked, init: Word, p0: nat, p1: nat, p2: nat, p3: nat, n: nat, crc: Word)
    requires p0 <= p1 <= p2 <= p3 <= |t.buf| && n == 8 * (p2 - p1) == 8 * (p3 - p2) && crc == t.at(init, 0, p0)
    ensures t.at(init, 0, p3) == Xor(Steps(t.f, Xor(Steps(t.f, t.at(crc, p0, p1), n), t.at(ZERO, p1, p2)), n),
      t.at(ZERO, p2, p3))
  {
    var a, b, c := t.buf[p0..p1], t.buf[p1..p2], t.buf[p2..p3];
    AtExtends(t, init, 0, p0, p3);
    assert t.buf[p0..p3] == a + b + c;
    AtIsCrc(t, crc, p0, p1);
    AtIsCrc(t, ZERO, p1, p2);
    AtIsCrc(t, ZERO, p2, p3);
    ThreeStreams(t.f, crc, a, b, c);
  }

  /** One round of the loops over LONG * 3 and SHORT * 3 bytes. */
  method Round(zeros: array2<Word>, crc: Word, t: Tracked, next: nat, words: nat, ghost init: Word) returns (r: Word)
    requires Shifts(zeros, t.f, 64 * words) && next + 24 * words <= |t.buf| && crc == t.at(init, 0, next)
    ensures r == t.at(init, 0, next + 24 * words)
  {
    var crc0, crc1, crc2 := ThreeWays(crc, t, next, words);
    ThreeStretches(t, init, next, next + 8 * words, next + 16 * words, next + 24 * words, 64 * words, crc);
    crc0 := Shift(zeros, crc0, t.f, 64 * words);
    crc0 := Shift(zeros, Xor(crc0, crc1), t.f, 64 * words);
    r := Xor(crc0, crc2);
  }

  method Blocks(zeros: array2<Word>, crc: Word, t: Tracked, start: nat, words: nat, ghost init: Word)
    returns (crc0: Word, next: nat)
    requires words > 0 && Shifts(zeros, t.f, 64 * words) && start <= |t.buf| && crc == t.at(init, 0, start)
    ensures start <= next <= |t.buf| && crc0 == t.at(init, 0, next)
  {
    crc0, next := crc, start;
    while |t.buf| - next >= 24 * words
      invariant start <= next <= |t.buf| && crc0 == t.at(init, 0, next)
      decreases |t.buf| - next
    {
      crc0 := Round(zeros, crc0, t, next, words, init);
      next := next + 24 * words;
    }
  }

  const LONG: nat := 8192
  const SHORT: nat := 256

  /** crc32c_init_hw. */
  method InitTables() returns (long: array2<Word>, short: array2<Word>)
    ensures Shifts(long, Castagnoli, 8 * LONG) && Shifts(short, Castagnoli, 8 * SHORT)
  {
    long, short := new Word[4, 256]((i, j) => ZERO), new Word[4, 256]((i, j) => ZERO);
    ScaledSizes();
    ZerosTables(long, LONG);
    ZerosTables(short, SHORT);
  }

  lemma ScaledSizes()
    ensures Scaled(8, LONG) == 8 * LONG && Scaled(8, SHORT) == 8 * SHORT
  {
    assert Pow2(3) == 8;
    assert Pow2(8) == SHORT;
    assert Pow2(11) == 2048 && Pow2(13) == LONG;
    assert Pow2(16) == 65536;
    ScaledPower(3, 13);
    ScaledPower(3, 8);
  }

  function Not(x: Word): Word { Xor(x, seq(32, i => true)) }

  /** What Extend promises: the crc of a string, from the crc of what comes before it. */
  function Extend(crc: Word, data: Data): Word { Not(Crc(Castagnoli, Not(crc), data)) }

  /** Up to seven bytes to reach an eight-byte boundary, addr being the address of the buffer. */
  method Leading(crc: Word, t: Tracked, addr: nat) returns (crc0: Word, next: nat)
    ensures next <= |t.buf| && (next < |t.buf| ==> (addr + next) % 8 == 0) && crc0 == t.at(crc, 0, next)
  {
    crc0, next := crc, 0;
    EmptyStretch(t, crc, 0);
    while next < |t.buf| && (addr + next) % 8 != 0
      invariant next <= |t.buf| && crc0 == t.at(crc, 0, next)
    {
      crc0 := FeedByte(crc0, t, next, crc);
      next := next + 1;
    }
  }

  /** The remaining eight-byte units and up to seven trailing bytes. */
  method Trailing(crc: Word, t: Tracked, start: nat, ghost init: Word) returns (crc0: Word)
    requires start <= |t.buf| && crc == t.at(init, 0, start)
    ensures crc0 == t.at(init, 0, |t.buf|)
  {
    crc0 := crc;
    var next, units := start, (|t.buf| - start) / 8;
    for i := 0 to units
      invariant next == start + 8 * i && crc0 == t.at(init, 0, next)
    {
      crc0 := FeedWord(crc0, t, next, init, 0);
      next := next + 8;
    }
    while next < |t.buf|
      invariant next <= |t.buf| && crc0 == t.at(init, 0, next)
    {
      crc0 := FeedByte(crc0, t, next, init);
      next := next + 1;
    }
  }

  lemma WholeBuffer(t: Tracked, init: Word)
    ensures t.at(init, 0, |t.buf|) == Crc(t.f, init, t.buf)
  {
    CrcOfSlice(t.f, init, t.buf, 0, |t.buf|);
    assert t.buf[0..|t.buf|] == t.buf;
  }

  /** crc32c_hw computes the byte-serial crc of any buffer at any address. */
  method Crc32cHw(long: array2<Word>, short: array2<Word>, crc: Word, buf: Data, addr: nat) returns (r: Word)
    requires Shifts(long, Castagnoli, 8 * LONG) && Shifts(short, Castagnoli, 8 * SHORT)
    ensures r == Extend(crc, buf)
  {
    ghost var o := TrackOf(buf);
    var t: Tracked := Track(buf, o.f, o.at);
    var init := Not(crc);
    var crc0, next := Leading(init, t, addr);
    crc0, next := Blocks(long, crc0, t, next, LONG / 8, init);
    crc0, next := Blocks(short, crc0, t, next, SHORT / 8, init);
    crc0 := Trailing(crc0, t, next, init);
    WholeBuffer(t, init);
    r := Not(crc0);
  }

  /** The crc of a string can be computed piece by piece. */
  lemma ExtendConcat(crc: Word, a: Data, b: Data)
    ensures Extend(Extend(crc, a), b) == Extend(crc, a + b)
  {
    var c := Crc(Castagnoli, Not(crc), a);
    assert Not(Not(c)) == c;
    CrcConcat(Castagnoli, Not(crc), a, b);
  }
}
