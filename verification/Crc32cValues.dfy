/** Values of the crc that the standard prints: section B.4 of RFC 3720. */
module Crc32cValues {
  import opened Binary
  import opened Crc32cHardware
  import opened Crc32cSpec
  import opened Guards
  import opened Registers

  lemma XorIs(r: Reg, s: Reg)
    ensures WordOf(XorReg(r, s)) == Xor(WordOf(r), WordOf(s))
  {
    forall i | 0 <= i < 32 ensures WordOf(XorReg(r, s))[i] == Xor(WordOf(r), WordOf(s))[i] { XorAt(r, s, i); }
  }

  lemma ShrIs(r: Reg)
    ensures WordOf(Half(r)) == Shr(WordOf(r))
  {
    TopBit(r.x, 0);
    forall i | 0 <= i < 32 ensures WordOf(Half(r))[i] == Shr(WordOf(r))[i] {
      assert BitAt(Half(r), 31 - i) == BitAt(r, 32 - i);
    }
  }

  lemma WideIs(b: bv8)
    ensures Wide(Octet(b)) == WordOf(Widened(b))
  {
    forall i | 0 <= i < 32 ensures Wide(Octet(b))[i] == WordOf(Widened(b))[i] {
      if i < 24 { OctetTop(b, 31 - i); }
    }
  }

  // ------------------------------------------------------------ the crc on machine words

  function StepBv(x: bv32): bv32 { if x & 1 == 1 then (x >> 1) ^ 0x82f63b78 else x >> 1 }

  function StepsBv(x: bv32): bv32 { StepBv(StepBv(StepBv(StepBv(x)))) }

  function ByteBv(x: bv32, b: bv8): bv32 { StepsBv(StepsBv(x ^ (b as bv32))) }

  lemma StepIs(x: bv32)
    ensures Castagnoli(WordOf(Reg(x))) == WordOf(Reg(StepBv(x)))
  {
    ShrIs(Reg(x));
    XorIs(Half(Reg(x)), Reg(0x82f63b78));
    PolyIs();
    assert WordOf(Reg(x))[31] == BitAt(Reg(x), 0);
  }

  lemma PolyIs()
    ensures POLY == WordOf(Reg(0x82f63b78))
  {
    OctetIs(0x82);
    OctetIs(0xf6);
    OctetIs(0x3b);
    OctetIs(0x78);
    JoinIs(0x82, 0xf6, 0x3b, 0x78);
    assert Join(0x82, 0xf6, 0x3b, 0x78) == 0x82f63b78;
  }

  lemma StepsAre(x: bv32)
    ensures Steps(Castagnoli, WordOf(Reg(x)), 4) == WordOf(Reg(StepsBv(x)))
  {
    var x1 := StepBv(x);
    var x2 := StepBv(x1);
    var x3 := StepBv(x2);
    StepIs(x);
    StepIs(x1);
    StepIs(x2);
    StepIs(x3);
    assert Steps(Castagnoli, WordOf(Reg(x)), 4) == Steps(Castagnoli, WordOf(Reg(x1)), 3);
    assert Steps(Castagnoli, WordOf(Reg(x1)), 3) == Steps(Castagnoli, WordOf(Reg(x2)), 2);
    assert Steps(Castagnoli, WordOf(Reg(x2)), 2) == Steps(Castagnoli, WordOf(Reg(x3)), 1);
  }

  lemma ByteIs(x: bv32, b: bv8)
    ensures AddByte(Castagnoli, WordOf(Reg(x)), Octet(b)) == WordOf(Reg(ByteBv(x, b)))
  {
    WideIs(b);
    XorIs(Reg(x), Widened(b));
    var y := x ^ (b as bv32);
    StepsAre(y);
    StepsAre(StepsBv(y));
    StepsAdd(Castagnoli, WordOf(Reg(y)), 4, 4);
  }

  const ALL_ONES := Reg(0xffffffff)

  /** The data have this crc before the last inversion. */
  ghost predicate Reaches(data: Data, r: Reg) {
    forall i {:trigger Asked(i)} :: Asked(i) ==> Crc(Castagnoli, WordOf(ALL_ONES), data) == WordOf(r)
  }

  /** A byte takes one register to another; to be taken up only where asked. */
  ghost predicate Leads(r: Reg, b: bv8, s: Reg) {
    forall i {:trigger Asked(i)} :: Asked(i) ==> s.x == ByteBv(r.x, b)
  }

  lemma OneMore(data: Data, r: Reg, v: nat, b: bv8, s: Reg)
    requires Reaches(data, r) && v < 256 && b as nat == v && Leads(r, b, s)
    ensures Reaches(data + [ByteOf(v)], s)
  {
    assert Crc(Castagnoli, WordOf(ALL_ONES), data) == WordOf(r) by { assert Asked(0); }
    OctetIs(b);
    CrcConcat(Castagnoli, WordOf(ALL_ONES), data, [Octet(b)]);
    OneByte(r, b, s);
  }

  lemma OneByte(r: Reg, b: bv8, s: Reg)
    requires Leads(r, b, s)
    ensures Crc(Castagnoli, WordOf(r), [Octet(b)]) == WordOf(s)
  {
    assert Asked(0);
    assert [Octet(b)][1..] == [];
    ByteIs(r.x, b);
  }

  lemma NotIs(r: Reg)
    ensures Not(WordOf(r)) == WordOf(XorReg(r, ALL_ONES))
  {
    XorIs(r, ALL_ONES);
    OnesAre();
  }

  lemma OnesAre()
    ensures WordOf(ALL_ONES) == seq(32, i => true)
  {
    JoinIs(255, 255, 255, 255);
    assert Join(255, 255, 255, 255) == 0xffffffff;
    LowBits(255);
    HighBits(255);
  }

  lemma ZeroIs()
    ensures WordOf(Reg(0)) == ZERO
  {
    forall i | 0 <= i < 32 ensures !WordOf(Reg(0))[i] { ZeroBit(31 - i); }
  }

  /** From the crc before inversion to what is printed. */
  lemma Printed(data: Data, r: Reg, a: bv8, b: bv8, c: bv8, d: bv8, v: nat)
    requires Reaches(data, r) && XorReg(r, ALL_ONES) == Reg(Join(a, b, c, d))
    requires v == 0x1000000 * (a as nat) + 0x10000 * (b as nat) + 0x100 * (c as nat) + (d as nat)
    ensures ValueOf(Extend(ZERO, data)) == v
  {
    assert Crc(Castagnoli, WordOf(ALL_ONES), data) == WordOf(r) by { assert Asked(0); }
    ZeroIs();
    NotIs(Reg(0));
    assert XorReg(Reg(0), ALL_ONES) == ALL_ONES;
    NotIs(r);
    JoinIs(a, b, c, d);
    BytesValue(a, b, c, d);
  }

  // ---------------------------------------------------------------------- the values

  function Repeat(v: nat, n: nat): Data
    requires v < 256
  {
    if n == 0 then [] else Repeat(v, n - 1) + [ByteOf(v)]
  }

  function CountUp(n: nat): Data
    requires n <= 256
  {
    if n == 0 then [] else CountUp(n - 1) + [ByteOf(n - 1)]
  }

  lemma OneRepeated(v: nat, n: nat, b: bv8, r: Reg, s: Reg)
    requires v < 256 && b as nat == v && Reaches(Repeat(v, n), r) && Leads(r, b, s)
    ensures Reaches(Repeat(v, n + 1), s)
  {
    OneMore(Repeat(v, n), r, v, b, s);
  }

  lemma OneCounted(n: nat, b: bv8, r: Reg, s: Reg)
    requires n < 256 && b as nat == n && Reaches(CountUp(n), r) && Leads(r, b, s)
    ensures Reaches(CountUp(n + 1), s)
  {
    OneMore(CountUp(n), r, n, b, s);
  }

  lemma NothingYet(v: nat, n: nat)
    requires n == 0 && v < 256
    ensures Reaches(Repeat(v, n), ALL_ONES) && Reaches(CountUp(n), ALL_ONES)
  {
  }

  lemma ZerosFirst(n: nat)
    requires n == 0 && Reaches(Repeat(0, n), Reg(0xffffffff))
    ensures Reaches(Repeat(0, n + 8), Reg(0x73d74d75))
  {
    OneRepeated(0, n, 0, Reg(0xffffffff), Reg(0xad82acae));
    OneRepeated(0, n + 1, 0, Reg(0xad82acae), Reg(0x0e9e882d));
    OneRepeated(0, n + 2, 0, Reg(0x0e9e882d), Reg(0x9f9b5c85));
    OneRepeated(0, n + 3, 0, Reg(0x9f9b5c85), Reg(0xb798b438));
    OneRepeated(0, n + 4, 0, Reg(0xb798b438), Reg(0xba8d89ca));
    OneRepeated(0, n + 5, 0, Reg(0xba8d89ca), Reg(0xa8d58375));
    OneRepeated(0, n + 6, 0, Reg(0xa8d58375), Reg(0x44c19592));
    OneRepeated(0, n + 7, 0, Reg(0x44c19592), Reg(0x73d74d75));
  }

  lemma ZerosSecond(n: nat)
    requires n == 8 && Reaches(Repeat(0, n), Reg(0x73d74d75))
    ensures Reaches(Repeat(0, n + 8), Reg(0xbd8f6515))
  {
    OneRepeated(0, n, 0, Reg(0x73d74d75), Reg(0x441a975c));
    OneRepeated(0, n + 1, 0, Reg(0x441a975c), Reg(0x1c220f94));
    OneRepeated(0, n + 2, 0, Reg(0x1c220f94), Reg(0x552e4907));
    OneRepeated(0, n + 3, 0, Reg(0x552e4907), Reg(0xd49f4aa2));
    OneRepeated(0, n + 4, 0, Reg(0xd49f4aa2), Reg(0x43a45a1b));
    OneRepeated(0, n + 5, 0, Reg(0x43a45a1b), Reg(0x8994c80e));
    OneRepeated(0, n + 6, 0, Reg(0x8994c80e), Reg(0xacf12bef));
    OneRepeated(0, n + 7, 0, Reg(0xacf12bef), Reg(0xbd8f6515));
  }

  lemma ZerosThird(n: nat)
    requires n == 16 && Reaches(Repeat(0, n), Reg(0xbd8f6515))
    ensures Reaches(Repeat(0, n + 8), Reg(0x7b041311))
  {
    OneRepeated(0, n, 0, Reg(0xbd8f6515), Reg(0x25125c16));
    OneRepeated(0, n + 1, 0, Reg(0x25125c16), Reg(0x36da32db));
    OneRepeated(0, n + 2, 0, Reg(0x36da32db), Reg(0x4a6c90a2));
    OneRepeated(0, n + 3, 0, Reg(0x4a6c90a2), Reg(0x433aa9c1));
    OneRepeated(0, n + 4, 0, Reg(0x433aa9c1), Reg(0x31a59f6e));
    OneRepeated(0, n + 5, 0, Reg(0x31a59f6e), Reg(0xcd8f89da));
    OneRepeated(0, n + 6, 0, Reg(0xcd8f89da), Reg(0xb8fc461a));
    OneRepeated(0, n + 7, 0, Reg(0xb8fc461a), Reg(0x7b041311));
  }

  lemma ZerosLast(n: nat)
    requires n == 24 && Reaches(Repeat(0, n), Reg(0x7b041311))
    ensures Reaches(Repeat(0, n + 8), Reg(0x756ec955))
  {
    OneRepeated(0, n, 0, Reg(0x7b041311), Reg(0xe24e407f));
    OneRepeated(0, n + 1, 0, Reg(0xe24e407f), Reg(0x2f692669));
    OneRepeated(0, n + 2, 0, Reg(0x2f692669), Reg(0x195b2188));
    OneRepeated(0, n + 3, 0, Reg(0x195b2188), Reg(0x08363896));
    OneRepeated(0, n + 4, 0, Reg(0x08363896), Reg(0xb4012dc7));
    OneRepeated(0, n + 5, 0, Reg(0xb4012dc7), Reg(0x17f34302));
    OneRepeated(0, n + 6, 0, Reg(0x17f34302), Reg(0xe12c83b4));
    OneRepeated(0, n + 7, 0, Reg(0xe12c83b4), Reg(0x756ec955));
  }

  lemma ZerosReach(n: nat, m: nat)
    requires n == 0 && m == 32
    ensures Reaches(Repeat(0, m), Reg(0x756ec955))
  {
    NothingYet(0, n);
    ZerosFirst(n);
    ZerosSecond(n + 8);
    ZerosThird(n + 16);
    ZerosLast(n + 24);
  }

  lemma ZerosBytes(a: bv8, b: bv8, c: bv8, d: bv8)
    requires a == 0x8a && b == 0x91 && c == 0x36 && d == 0xaa
    ensures XorReg(Reg(0x756ec955), ALL_ONES) == Reg(Join(a, b, c, d))
    ensures 0x1000000 * (a as nat) + 0x10000 * (b as nat) + 0x100 * (c as nat) + (d as nat) == 0x8a9136aa
  {
  }

  lemma ZerosCrc(data: Data)
    requires Reaches(data, Reg(0x756ec955))
    ensures ValueOf(Extend(ZERO, data)) == 0x8a9136aa
  {
    var a: bv8, b: bv8, c: bv8, d: bv8 := 0x8a, 0x91, 0x36, 0xaa;
    ZerosBytes(a, b, c, d);
    Printed(data, Reg(0x756ec955), a, b, c, d, 0x8a9136aa);
  }

  /** The crc of 32 zero bytes is 0x8a9136aa. */
  lemma ZerosValue(n: nat)
    requires n == 32
    ensures ValueOf(Extend(ZERO, Repeat(0, n))) == 0x8a9136aa
  {
    ZerosReach(n - 32, n);
    ZerosCrc(Repeat(0, n));
  }

  lemma OnesFirst(n: nat)
    requires n == 0 && Reaches(Repeat(255, n), Reg(0xffffffff))
    ensures Reaches(Repeat(255, n + 8), Reg(0xb798b438))
  {
    OneRepeated(255, n, 255, Reg(0xffffffff), Reg(0x00ffffff));
    OneRepeated(255, n + 1, 255, Reg(0x00ffffff), Reg(0x0000ffff));
    OneRepeated(255, n + 2, 255, Reg(0x0000ffff), Reg(0x000000ff));
    OneRepeated(255, n + 3, 255, Reg(0x000000ff), Reg(0x00000000));
    OneRepeated(255, n + 4, 255, Reg(0x00000000), Reg(0xad7d5351));
    OneRepeated(255, n + 5, 255, Reg(0xad7d5351), Reg(0x0e9e77d2));
    OneRepeated(255, n + 6, 255, Reg(0x0e9e77d2), Reg(0x9f9b5c7a));
    OneRepeated(255, n + 7, 255, Reg(0x9f9b5c7a), Reg(0xb798b438));
  }

  lemma OnesSecond(n: nat)
    requires n == 8 && Reaches(Repeat(255, n), Reg(0xb798b438))
    ensures Reaches(Repeat(255, n + 8), Reg(0x10d0b3ef))
  {
    OneRepeated(255, n, 255, Reg(0xb798b438), Reg(0x17f0da9b));
    OneRepeated(255, n + 1, 255, Reg(0x17f0da9b), Reg(0xa64bf4a7));
    OneRepeated(255, n + 2, 255, Reg(0xa64bf4a7), Reg(0xdb5ac9e8));
    OneRepeated(255, n + 3, 255, Reg(0xdb5ac9e8), Reg(0xc44ff94d));
    OneRepeated(255, n + 4, 255, Reg(0xc44ff94d), Reg(0x53ea4dc7));
    OneRepeated(255, n + 5, 255, Reg(0x53ea4dc7), Reg(0xba69fb33));
    OneRepeated(255, n + 6, 255, Reg(0xba69fb33), Reg(0x8e7480ef));
    OneRepeated(255, n + 7, 255, Reg(0x8e7480ef), Reg(0x10d0b3ef));
  }

  lemma OnesThird(n: nat)
    requires n == 16 && Reaches(Repeat(255, n), Reg(0x10d0b3ef))
    ensures Reaches(Repeat(255, n + 8), Reg(0xee657f3b))
  {
    OneRepeated(255, n, 255, Reg(0x10d0b3ef), Reg(0x104e17dc));
    OneRepeated(255, n + 1, 255, Reg(0x104e17dc), Reg(0x33fd333d));
    OneRepeated(255, n + 2, 255, Reg(0x33fd333d), Reg(0x2285ab00));
    OneRepeated(255, n + 3, 255, Reg(0x2285ab00), Reg(0xad5fd6fa));
    OneRepeated(255, n + 4, 255, Reg(0xad5fd6fa), Reg(0x355c4bca));
    OneRepeated(255, n + 5, 255, Reg(0x355c4bca), Reg(0x052701e6));
    OneRepeated(255, n + 6, 255, Reg(0x052701e6), Reg(0x68e93ba2));
    OneRepeated(255, n + 7, 255, Reg(0x68e93ba2), Reg(0xee657f3b));
  }

  lemma OnesLast(n: nat)
    requires n == 24 && Reaches(Repeat(255, n), Reg(0xee657f3b))
    ensures Reaches(Repeat(255, n + 8), Reg(0x9d5754bc))
  {
    OneRepeated(255, n, 255, Reg(0xee657f3b), Reg(0x04f9d4a4));
    OneRepeated(255, n + 1, 255, Reg(0x04f9d4a4), Reg(0xc8a8883c));
    OneRepeated(255, n + 2, 255, Reg(0xc8a8883c), Reg(0xd0157db8));
    OneRepeated(255, n + 3, 255, Reg(0xd0157db8), Reg(0x95616c2a));
    OneRepeated(255, n + 4, 255, Reg(0x95616c2a), Reg(0xe6b794db));
    OneRepeated(255, n + 5, 255, Reg(0xe6b794db), Reg(0xe7c1ae55));
    OneRepeated(255, n + 6, 255, Reg(0xe7c1ae55), Reg(0xc94e5c30));
    OneRepeated(255, n + 7, 255, Reg(0xc94e5c30), Reg(0x9d5754bc));
  }

  lemma OnesReach(n: nat, m: nat)
    requires n == 0 && m == 32
    ensures Reaches(Repeat(255, m), Reg(0x9d5754bc))
  {
    NothingYet(255, n);
    OnesFirst(n);
    OnesSecond(n + 8);
    OnesThird(n + 16);
    OnesLast(n + 24);
  }

  lemma OnesBytes(a: bv8, b: bv8, c: bv8, d: bv8)
    requires a == 0x62 && b == 0xa8 && c == 0xab && d == 0x43
    ensures XorReg(Reg(0x9d5754bc), ALL_ONES) == Reg(Join(a, b, c, d))
    ensures 0x1000000 * (a as nat) + 0x10000 * (b as nat) + 0x100 * (c as nat) + (d as nat) == 0x62a8ab43
  {
  }

  lemma OnesCrc(data: Data)
    requires Reaches(data, Reg(0x9d5754bc))
    ensures ValueOf(Extend(ZERO, data)) == 0x62a8ab43
  {
    var a: bv8, b: bv8, c: bv8, d: bv8 := 0x62, 0xa8, 0xab, 0x43;
    OnesBytes(a, b, c, d);
    Printed(data, Reg(0x9d5754bc), a, b, c, d, 0x62a8ab43);
  }

  /** The crc of 32 bytes of 0xff is 0x62a8ab43. */
  lemma OnesValue(n: nat)
    requires n == 32
    ensures ValueOf(Extend(ZERO, Repeat(255, n))) == 0x62a8ab43
  {
    OnesReach(n - 32, n);
    OnesCrc(Repeat(255, n));
  }

  lemma RisingFirst(n: nat)
    requires n == 0 && Reaches(CountUp(n), Reg(0xffffffff))
    ensures Reaches(CountUp(n + 8), Reg(0x75d343c4))
  {
    OneCounted(n, 0, Reg(0xffffffff), Reg(0xad82acae));
    OneCounted(n + 1, 1, Reg(0xad82acae), Reg(0xfcf50b2e));
    OneCounted(n + 2, 2, Reg(0xfcf50b2e), Reg(0x6d02b405));
    OneCounted(n + 3, 3, Reg(0x6d02b405), Reg(0x26cce55c));
    OneCounted(n + 4, 4, Reg(0x26cce55c), Reg(0xdbda4ef9));
    OneCounted(n + 5, 5, Reg(0xdbda4ef9), Reg(0xbef67aeb));
    OneCounted(n + 6, 6, Reg(0xbef67aeb), Reg(0x5ca612b3));
    OneCounted(n + 7, 7, Reg(0x5ca612b3), Reg(0x75d343c4));
  }

  lemma RisingSecond(n: nat)
    requires n == 8 && Reaches(CountUp(n), Reg(0x75d343c4))
    ensures Reaches(CountUp(n + 8), Reg(0x2636f714))
  {
    OneCounted(n, 8, Reg(0x75d343c4), Reg(0x8ebb3a57));
    OneCounted(n + 1, 9, Reg(0x8ebb3a57), Reg(0xfdd3dece));
    OneCounted(n + 2, 10, Reg(0xfdd3dece), Reg(0x04ea6205));
    OneCounted(n + 3, 11, Reg(0x04ea6205), Reg(0xac7c5545));
    OneCounted(n + 4, 12, Reg(0xac7c5545), Reg(0x3965ba25));
    OneCounted(n + 5, 13, Reg(0x3965ba25), Reg(0xaa5db3ab));
    OneCounted(n + 6, 14, Reg(0xaa5db3ab), Reg(0x9710fc09));
    OneCounted(n + 7, 15, Reg(0x9710fc09), Reg(0x2636f714));
  }

  lemma RisingThird(n: nat)
    requires n == 16 && Reaches(CountUp(n), Reg(0x2636f714))
    ensures Reaches(CountUp(n + 8), Reg(0xd643786a))
  {
    OneCounted(n, 16, Reg(0x2636f714), Reg(0xc7bca1e8));
    OneCounted(n + 1, 17, Reg(0xc7bca1e8), Reg(0x8b1b0818));
    OneCounted(n + 2, 18, Reg(0x8b1b0818), Reg(0x6b693330));
    OneCounted(n + 3, 19, Reg(0x6b693330), Reg(0x33861419));
    OneCounted(n + 4, 20, Reg(0x33861419), Reg(0xbf1bcac7));
    OneCounted(n + 5, 21, Reg(0xbf1bcac7), Reg(0x32578a96));
    OneCounted(n + 6, 22, Reg(0x32578a96), Reg(0x82c46cf2));
    OneCounted(n + 7, 23, Reg(0x82c46cf2), Reg(0xd643786a));
  }

  lemma RisingLast(n: nat)
    requires n == 24 && Reaches(CountUp(n), Reg(0xd643786a))
    ensures Reaches(CountUp(n + 8), Reg(0xb92286b1))
  {
    OneCounted(n, 24, Reg(0xd643786a), Reg(0x90756782));
    OneCounted(n + 1, 25, Reg(0x90756782), Reg(0x0bb1224b));
    OneCounted(n + 2, 26, Reg(0x0bb1224b), Reg(0xa345e8f2));
    OneCounted(n + 3, 27, Reg(0xa345e8f2), Reg(0x9b21363e));
    OneCounted(n + 4, 28, Reg(0x9b21363e), Reg(0xc11ddf1f));
    OneCounted(n + 5, 29, Reg(0xc11ddf1f), Reg(0xe1fa6d28));
    OneCounted(n + 6, 30, Reg(0xe1fa6d28), Reg(0x16a35434));
    OneCounted(n + 7, 31, Reg(0x16a35434), Reg(0xb92286b1));
  }

  lemma RisingReach(n: nat, m: nat)
    requires n == 0 && m == 32
    ensures Reaches(CountUp(m), Reg(0xb92286b1))
  {
    NothingYet(0, n);
    RisingFirst(n);
    RisingSecond(n + 8);
    RisingThird(n + 16);
    RisingLast(n + 24);
  }

  lemma RisingBytes(a: bv8, b: bv8, c: bv8, d: bv8)
    requires a == 0x46 && b == 0xdd && c == 0x79 && d == 0x4e
    ensures XorReg(Reg(0xb92286b1), ALL_ONES) == Reg(Join(a, b, c, d))
    ensures 0x1000000 * (a as nat) + 0x10000 * (b as nat) + 0x100 * (c as nat) + (d as nat) == 0x46dd794e
  {
  }

  lemma RisingCrc(data: Data)
    requires Reaches(data, Reg(0xb92286b1))
    ensures ValueOf(Extend(ZERO, data)) == 0x46dd794e
  {
    var a: bv8, b: bv8, c: bv8, d: bv8 := 0x46, 0xdd, 0x79, 0x4e;
    RisingBytes(a, b, c, d);
    Printed(data, Reg(0xb92286b1), a, b, c, d, 0x46dd794e);
  }

  /** The crc of the bytes 0 to 31 is 0x46dd794e. */
  lemma RisingValue(n: nat)
    requires n == 32
    ensures ValueOf(Extend(ZERO, CountUp(n))) == 0x46dd794e
  {
    RisingReach(n - 32, n);
    RisingCrc(CountUp(n));
  }
}
