/** Machine words of 32 bits, and the bit strings that stand for them. */
module Registers {
  import opened Arithmetic
  import opened Binary
  import opened Guards
  import ByteBits

  // ---------------------------------------------------- words as machine words

  datatype Reg = Reg(x: bv32)

  function Half(r: Reg): Reg { Reg(r.x >> 1) }

  predicate Odd(r: Reg) { r.x & 1 == 1 }

  function XorReg(r: Reg, s: Reg): Reg { Reg(r.x ^ s.x) }

  function Widened(b: bv8): Reg { Reg(b as bv32) }

  /** Bit k of a machine word. */
  predicate BitAt(r: Reg, k: nat)
    decreases k
  {
    if k == 0 then Odd(r) else BitAt(Half(r), k - 1)
  }

  function WordOf(r: Reg): (w: Bits)
    ensures |w| == 32 && forall i :: 0 <= i < 32 ==> w[i] == BitAt(r, 31 - i)
  {
    seq(32, i requires 0 <= i < 32 => BitAt(r, 31 - i))
  }

  function Octet(b: bv8): (o: Bits)
    ensures |o| == 8 && forall i :: 0 <= i < 8 ==> o[i] == BitAt(Widened(b), 7 - i)
  {
    var r := Widened(b);
    seq(8, i requires 0 <= i < 8 => BitAt(r, 7 - i))
  }

  lemma HalfXor(r: Reg, s: Reg)
    ensures Half(XorReg(r, s)) == XorReg(Half(r), Half(s)) && Odd(XorReg(r, s)) == (Odd(r) != Odd(s))
  {
  }

  lemma {:induction false} XorBit(r: Reg, s: Reg, k: nat)
    ensures BitAt(XorReg(r, s), k) == (BitAt(r, k) != BitAt(s, k))
    decreases k
  {
    HalfXor(r, s);
    if k > 0 { XorBit(Half(r), Half(s), k - 1); }
  }

  lemma XorAt(r: Reg, s: Reg, i: nat)
    requires i < 32
    ensures WordOf(XorReg(r, s))[i] == (WordOf(r)[i] != WordOf(s)[i])
  {
    XorBit(r, s, 31 - i);
  }

  // ------------------------------------------------------------------ bytes of a word

  function Down4(r: Reg): Reg { Half(Half(Half(Half(r)))) }

  lemma Dropped(r: Reg, k: nat)
    ensures BitAt(r, k + 4) == BitAt(Down4(r), k)
  {
    assert BitAt(r, k + 4) == BitAt(Half(r), k + 3) == BitAt(Half(Half(r)), k + 2) == BitAt(Half(Half(Half(r))), k + 1);
  }

  /** Locked, since solvers get lost in nested shifts. */
  ghost predicate Below(r: Reg, s: Reg) {
    forall i {:trigger Asked(i)} :: Asked(i) ==> s == Down4(Down4(r))
  }

  /** s is r shifted down by a byte. */
  lemma ByteDown(r: Reg, s: Reg, k: nat)
    requires Below(r, s)
    ensures BitAt(r, k + 8) == BitAt(s, k)
  {
    assert Asked(0);
    Dropped(r, k + 4);
    Dropped(Down4(r), k);
  }

  lemma ShiftIsBelow(x: bv32)
    ensures Below(Reg(x), Reg(x >> 8))
  {
  }

  lemma {:induction false} ZeroBit(k: nat)
    ensures !BitAt(Reg(0), k)
  {
    HalfOfZero();
    if k > 0 { ZeroBit(k - 1); }
  }

  lemma HalfOfZero()
    ensures Half(Reg(0)) == Reg(0) && !Odd(Reg(0))
  {
  }

  lemma Shifts32(x: bv32)
    ensures (((x >> 8) >> 8) >> 8) >> 8 == 0
  {
  }

  lemma TopBit(x: bv32, k: nat)
    ensures !BitAt(Reg(x), k + 32)
  {
    var y := x >> 8;
    var z := y >> 8;
    var t := z >> 8;
    ShiftIsBelow(x);
    ShiftIsBelow(y);
    ShiftIsBelow(z);
    ShiftIsBelow(t);
    Shifts32(x);
    FourDown(Reg(x), Reg(y), Reg(z), Reg(t), Reg(0), k);
    ZeroBit(k);
  }

  lemma FourDown(r: Reg, s: Reg, t: Reg, u: Reg, v: Reg, k: nat)
    requires Below(r, s) && Below(s, t) && Below(t, u) && Below(u, v)
    ensures BitAt(r, k + 32) == BitAt(v, k)
  {
    ByteDown(r, s, k + 24);
    ByteDown(s, t, k + 16);
    ByteDown(t, u, k + 8);
    ByteDown(u, v, k);
  }

  lemma OctetTop(b: bv8, k: nat)
    requires k >= 8
    ensures !BitAt(Widened(b), k)
  {
    OctetShifts(b);
    ShiftIsBelow(b as bv32);
    ByteDown(Widened(b), Reg(0), k - 8);
    ZeroBit(k - 8);
  }

  lemma OctetShifts(b: bv8)
    ensures (b as bv32) >> 8 == 0
  {
  }

  /** No bit below n. */
  predicate Clear(r: Reg, n: nat)
    decreases n
  {
    n > 0 ==> !Odd(r) && Clear(Half(r), n - 1)
  }

  lemma {:induction false} NoBitBelow(r: Reg, n: nat, k: nat)
    requires Clear(r, n) && k < n
    ensures !BitAt(r, k)
    decreases k
  {
    if k > 0 { NoBitBelow(Half(r), n - 1, k - 1); }
  }

  ghost predicate FourEven(r: Reg) {
    forall i {:trigger Asked(i)} :: Asked(i) ==>
      !Odd(r) && !Odd(Half(r)) && !Odd(Half(Half(r))) && !Odd(Half(Half(Half(r))))
  }

  lemma ClearFour(r: Reg, n: nat)
    requires FourEven(r) && Clear(Down4(r), n)
    ensures Clear(r, n + 4)
  {
    assert Asked(0);
    assert Clear(Half(Half(Half(r))), n + 1);
    assert Clear(Half(Half(r)), n + 2);
    assert Clear(Half(r), n + 3);
  }

  lemma LowByte(r: Reg, b: bv8, k: nat)
    requires r.x & 0xff == b as bv32 && k < 8
    ensures BitAt(r, k) == BitAt(Widened(b), k)
  {
    var x := r.x ^ (b as bv32);
    Cleared(r.x, b);
    ClearBelow(x);
    LowAgree(r, Widened(b), Reg(x), k);
  }

  lemma LowAgree(r: Reg, s: Reg, t: Reg, k: nat)
    requires t == XorReg(r, s) && Clear(t, 8) && k < 8
    ensures BitAt(r, k) == BitAt(s, k)
  {
    NoBitBelow(t, 8, k);
    XorBit(r, s, k);
  }

  lemma ClearEight(r: Reg)
    requires FourEven(r) && FourEven(Down4(r))
    ensures Clear(r, 8)
  {
    var n: nat := 0;
    ClearFour(Down4(r), n);
    ClearFour(r, n + 4);
  }

  lemma Cleared(x: bv32, b: bv8)
    requires x & 0xff == b as bv32
    ensures (x ^ (b as bv32)) & 0xff == 0
  {
  }

  lemma ClearBelow(x: bv32)
    requires x & 0xff == 0
    ensures Clear(Reg(x), 8)
  {
    LowEven(x);
    HighEven(x);
    ClearEight(Reg(x));
  }

  lemma LowEven(x: bv32)
    requires x & 0xff == 0
    ensures FourEven(Reg(x))
  {
  }

  lemma HighEven(x: bv32)
    requires x & 0xff == 0
    ensures FourEven(Down4(Reg(x)))
  {
  }

  /** Four bytes one above the other. */
  ghost predicate InBytes(r: Reg, a: bv8, b: bv8, c: bv8, d: bv8) {
    exists s, t, u :: Stacked(r, s, t, u, a, b, c, d)
  }

  ghost predicate Stacked(r: Reg, s: Reg, t: Reg, u: Reg, a: bv8, b: bv8, c: bv8, d: bv8) {
    && Below(r, s) && Below(s, t) && Below(t, u)
    && r.x & 0xff == d as bv32 && s.x & 0xff == c as bv32 && t.x & 0xff == b as bv32 && u.x & 0xff == a as bv32
  }

  function Join(a: bv8, b: bv8, c: bv8, d: bv8): bv32 {
    ((a as bv32) << 24) | ((b as bv32) << 16) | ((c as bv32) << 8) | (d as bv32)
  }

  lemma JoinedBytes(a: bv8, b: bv8, c: bv8, d: bv8)
    ensures var x := Join(a, b, c, d);
      && x & 0xff == d as bv32 && (x >> 8) & 0xff == c as bv32
      && ((x >> 8) >> 8) & 0xff == b as bv32 && (((x >> 8) >> 8) >> 8) & 0xff == a as bv32
  {
  }

  lemma JoinedStacks(a: bv8, b: bv8, c: bv8, d: bv8)
    ensures InBytes(Reg(Join(a, b, c, d)), a, b, c, d)
  {
    var x := Join(a, b, c, d);
    var y := x >> 8;
    var z := y >> 8;
    var t := z >> 8;
    JoinedBytes(a, b, c, d);
    ShiftIsBelow(x);
    ShiftIsBelow(y);
    ShiftIsBelow(z);
    assert Stacked(Reg(x), Reg(y), Reg(z), Reg(t), a, b, c, d);
  }

  lemma StackedBits(r: Reg, s: Reg, t: Reg, u: Reg, a: bv8, b: bv8, c: bv8, d: bv8, k: nat)
    requires Stacked(r, s, t, u, a, b, c, d) && k < 8
    ensures BitAt(r, k) == BitAt(Widened(d), k) && BitAt(r, k + 8) == BitAt(Widened(c), k)
    ensures BitAt(r, k + 16) == BitAt(Widened(b), k) && BitAt(r, k + 24) == BitAt(Widened(a), k)
  {
    LowByte(r, d, k);
    LowByte(s, c, k);
    LowByte(t, b, k);
    LowByte(u, a, k);
    ByteDown(r, s, k);
    ByteDown(r, s, k + 8);
    ByteDown(r, s, k + 16);
    ByteDown(s, t, k);
    ByteDown(s, t, k + 8);
    ByteDown(t, u, k);
  }

  lemma InBytesIs(r: Reg, a: bv8, b: bv8, c: bv8, d: bv8)
    requires InBytes(r, a, b, c, d)
    ensures WordOf(r) == Octet(a) + Octet(b) + Octet(c) + Octet(d)
  {
    var s, t, u :| Stacked(r, s, t, u, a, b, c, d);
    forall i | 0 <= i < 32 ensures WordOf(r)[i] == (Octet(a) + Octet(b) + Octet(c) + Octet(d))[i] {
      StackedBit(r, s, t, u, a, b, c, d, i);
    }
  }

  lemma StackedBit(r: Reg, s: Reg, t: Reg, u: Reg, a: bv8, b: bv8, c: bv8, d: bv8, i: nat)
    requires Stacked(r, s, t, u, a, b, c, d) && i < 32
    ensures WordOf(r)[i] == (Octet(a) + Octet(b) + Octet(c) + Octet(d))[i]
  {
    if i < 8 {
      StackedBits(r, s, t, u, a, b, c, d, 7 - i);
    } else if i < 16 {
      StackedBits(r, s, t, u, a, b, c, d, 15 - i);
    } else if i < 24 {
      StackedBits(r, s, t, u, a, b, c, d, 23 - i);
    } else {
      StackedBits(r, s, t, u, a, b, c, d, 31 - i);
    }
  }

  lemma JoinIs(a: bv8, b: bv8, c: bv8, d: bv8)
    ensures WordOf(Reg(Join(a, b, c, d))) == Octet(a) + Octet(b) + Octet(c) + Octet(d)
  {
    JoinedStacks(a, b, c, d);
    InBytesIs(Reg(Join(a, b, c, d)), a, b, c, d);
  }

  // ----------------------------------------------------------------- bytes as numbers

  /** A byte of data is the number it stands for. */
  lemma OctetIs(b: bv8)
    ensures b as nat < Pow2(8) && Octet(b) == BitsOf(b as nat, 8)
  {
    OctetValue(b);
    BitsOfValueOf(Octet(b));
  }

  lemma OctetValue(b: bv8)
    ensures ValueOf(Octet(b)) == b as nat
  {
    var o := Octet(b);
    LowBits(b);
    HighBits(b);
    assert o == [o[0], o[1], o[2], o[3]] + [o[4], o[5], o[6], o[7]];
    EightValue(o[0], o[1], o[2], o[3], o[4], o[5], o[6], o[7]);
    ByteBits.SumOfBits(b);
  }

  lemma LowBits(b: bv8)
    ensures Octet(b)[7] == (b & 1 != 0) && Octet(b)[6] == (b & 2 != 0)
    ensures Octet(b)[5] == (b & 4 != 0) && Octet(b)[4] == (b & 8 != 0)
  {
    var r := Widened(b);
    FourOdds(r);
    assert BitAt(r, 1) == BitAt(Half(r), 0) && BitAt(r, 2) == BitAt(Half(r), 1) == BitAt(Half(Half(r)), 0);
    assert BitAt(r, 3) == BitAt(Half(r), 2) == BitAt(Half(Half(r)), 1) == BitAt(Half(Half(Half(r))), 0);
  }

  lemma HighBits(b: bv8)
    ensures Octet(b)[3] == (b & 16 != 0) && Octet(b)[2] == (b & 32 != 0)
    ensures Octet(b)[1] == (b & 64 != 0) && Octet(b)[0] == (b & 128 != 0)
  {
    var r, o := Widened(b), Octet(b >> 4);
    LowBits(b >> 4);
    NibbleDown(b);
    Dropped(r, 0);
    Dropped(r, 1);
    Dropped(r, 2);
    Dropped(r, 3);
    assert o[7] == BitAt(Widened(b >> 4), 0) && o[6] == BitAt(Widened(b >> 4), 1);
    assert o[5] == BitAt(Widened(b >> 4), 2) && o[4] == BitAt(Widened(b >> 4), 3);
  }

  lemma NibbleDown(b: bv8)
    ensures Down4(Widened(b)) == Widened(b >> 4)
    ensures ((b >> 4) & 1 != 0) == (b & 16 != 0) && ((b >> 4) & 2 != 0) == (b & 32 != 0)
    ensures ((b >> 4) & 4 != 0) == (b & 64 != 0) && ((b >> 4) & 8 != 0) == (b & 128 != 0)
  {
  }

  lemma FourOdds(r: Reg)
    ensures Odd(r) == (r.x & 1 != 0) && Odd(Half(r)) == (r.x & 2 != 0)
    ensures Odd(Half(Half(r))) == (r.x & 4 != 0) && Odd(Half(Half(Half(r)))) == (r.x & 8 != 0)
  {
  }

  lemma EightValue(a: bool, b: bool, c: bool, d: bool, e: bool, f: bool, g: bool, h: bool)
    ensures ValueOf([a, b, c, d] + [e, f, g, h]) == (if a then 128 else 0) + (if b then 64 else 0)
      + (if c then 32 else 0) + (if d then 16 else 0) + (if e then 8 else 0) + (if f then 4 else 0)
      + (if g then 2 else 0) + (if h then 1 else 0)
  {
    FourValue(e, f, g, h, [], 1);
    assert [e, f, g, h] + [] == [e, f, g, h];
    FourValue(a, b, c, d, [e, f, g, h], 16);
  }

  lemma FourValue(a: bool, b: bool, c: bool, d: bool, rest: Bits, p: nat)
    requires p == Pow2(|rest|)
    ensures ValueOf([a, b, c, d] + rest) == (if a then 8 * p else 0) + (if b then 4 * p else 0)
      + (if c then 2 * p else 0) + (if d then p else 0) + ValueOf(rest)
  {
    var s := [a, b, c, d] + rest;
    TopValue(s, 3, p);
    TopValue(s, 2, 2 * p);
    TopValue(s, 1, 4 * p);
    TopValue(s, 0, 8 * p);
    assert s[4..] == rest && s[0..] == s;
  }

  lemma TopValue(s: Bits, k: nat, p: nat)
    requires k < |s| && p == Pow2(|s| - k - 1)
    ensures ValueOf(s[k..]) == (if s[k] then p else 0) + ValueOf(s[k + 1..])
  {
    assert s[k..][1..] == s[k + 1..];
  }

  lemma BytesValue(a: bv8, b: bv8, c: bv8, d: bv8)
    ensures ValueOf(Octet(a) + Octet(b) + Octet(c) + Octet(d))
      == 0x1000000 * (a as nat) + 0x10000 * (b as nat) + 0x100 * (c as nat) + (d as nat)
  {
    FourParts(Octet(a), Octet(b), Octet(c), Octet(d));
    OctetValue(a);
    OctetValue(b);
    OctetValue(c);
    OctetValue(d);
  }

  lemma FourParts(a: Bits, b: Bits, c: Bits, d: Bits)
    requires |a| == |b| == |c| == |d| == 8
    ensures ValueOf(a + b + c + d)
      == 0x1000000 * ValueOf(a) + 0x10000 * ValueOf(b) + 0x100 * ValueOf(c) + ValueOf(d)
  {
    assert Pow2(8) == 0x100;
    ValueAbove(a, b, 0x100);
    ValueAbove(a + b, c, 0x100);
    ValueAbove(a + b + c, d, 0x100);
  }

  lemma {:induction false} ValueAbove(high: Bits, low: Bits, p: nat)
    requires p == Pow2(|low|)
    ensures ValueOf(high + low) == p * ValueOf(high) + ValueOf(low)
    decreases high
  {
    if high == [] {
      assert high + low == low;
    } else {
      var top := if high[0] then Pow2(|high| - 1) else 0;
      ValueAbove(high[1..], low, p);
      assert (high + low)[1..] == high[1..] + low;
      TopAbove(high[0], |high| - 1, |low|, p);
      Distributes(p, top, ValueOf(high[1..]));
    }
  }

  lemma TopAbove(bit: bool, m: nat, n: nat, p: nat)
    requires p == Pow2(n)
    ensures (if bit then Pow2(m + n) else 0) == p * (if bit then Pow2(m) else 0)
  {
    Pow2Add(m, n);
  }

  /** A machine word as a number: built in, and by its bits. */
  lemma WordValue(x: bv32)
    ensures ValueOf(WordOf(Reg(x))) == x as nat && x as nat < Pow2(32)
  {
    Parted(x);
    var a, b, c, d := ((x >> 24) & 0xff) as bv8, ((x >> 16) & 0xff) as bv8, ((x >> 8) & 0xff) as bv8, (x & 0xff) as bv8;
    JoinIs(a, b, c, d);
    BytesValue(a, b, c, d);
    JoinValue(a, b, c, d);
  }

  lemma Parted(x: bv32)
    ensures Join(((x >> 24) & 0xff) as bv8, ((x >> 16) & 0xff) as bv8, ((x >> 8) & 0xff) as bv8, (x & 0xff) as bv8) == x
  {
  }

  lemma JoinValue(a: bv8, b: bv8, c: bv8, d: bv8)
    ensures (((a as bv32) << 24) | ((b as bv32) << 16) | ((c as bv32) << 8) | (d as bv32)) as nat
      == 0x1000000 * (a as nat) + 0x10000 * (b as nat) + 0x100 * (c as nat) + (d as nat)
  {
  }

  lemma WordBits(x: bv32)
    ensures x as nat < Pow2(32) && BitsOf(x as nat, 32) == WordOf(Reg(x))
  {
    WordValue(x);
    BitsOfValueOf(WordOf(Reg(x)));
  }
}
