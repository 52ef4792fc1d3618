/** Polynomials over GF(2), as the sets of their exponents. */
module Polynomials {

  type Poly = set<nat>

  function Add(a: Poly, b: Poly): (c: Poly)
    ensures forall e: nat {:trigger e in c} :: e in c <==> (e in a) != (e in b)
  {
    (a - b) + (b - a)
  }

  /** a times the n-th power of x. */
  function Raise(a: Poly, n: nat): (c: Poly)
    ensures forall e: nat {:trigger e in c} :: e in c <==> e >= n && e - n in a
  {
    set e | e in a :: e + n
  }

  /** q times p, the coefficients of q given from the constant on. */
  function Product(q: seq<bool>, p: Poly): Poly {
    if q == [] then {} else Add(if q[0] then p else {}, Raise(Product(q[1..], p), 1))
  }

  ghost predicate Multiple(m: Poly, p: Poly) {
    exists q :: m == Product(q, p)
  }

  ghost predicate Below(a: Poly, n: nat) {
    forall e :: e in a ==> e < n
  }

  /** r is what division of m by p, of degree n, leaves. */
  ghost predicate Remainder(m: Poly, p: Poly, n: nat, r: Poly) {
    Below(r, n) && Multiple(Add(m, r), p)
  }

  // ------------------------------------------------------------------------ laws

  lemma AddLaws(a: Poly, b: Poly, c: Poly)
    ensures Add(a, b) == Add(b, a) && Add(Add(a, b), c) == Add(a, Add(b, c))
    ensures Add(a, a) == {} && Add(a, {}) == a && Add({}, a) == a
  {
  }

  lemma RaiseAdds(a: Poly, b: Poly, n: nat)
    ensures Raise(Add(a, b), n) == Add(Raise(a, n), Raise(b, n))
  {
  }

  lemma RaiseTwice(a: Poly, m: nat, n: nat)
    ensures Raise(Raise(a, m), n) == Raise(a, m + n) && Raise(a, 0) == a && Raise({}, n) == {}
  {
  }

  /** Coefficient by coefficient; the longer one counts on. */
  function Sum(q: seq<bool>, r: seq<bool>): seq<bool> {
    if q == [] then r else if r == [] then q else [q[0] != r[0]] + Sum(q[1..], r[1..])
  }

  lemma FourTerms(a: Poly, b: Poly, c: Poly, d: Poly)
    ensures Add(Add(a, b), Add(c, d)) == Add(Add(a, c), Add(b, d))
  {
  }

  lemma {:induction false} ProductAdds(q: seq<bool>, r: seq<bool>, p: Poly)
    ensures Product(Sum(q, r), p) == Add(Product(q, p), Product(r, p))
  {
    if q == [] || r == [] {
      AddLaws(Product(q, p), Product(r, p), {});
    } else {
      var x, y := if q[0] then p else {}, if r[0] then p else {};
      ProductAdds(q[1..], r[1..], p);
      RaiseAdds(Product(q[1..], p), Product(r[1..], p), 1);
      FourTerms(x, Raise(Product(q[1..], p), 1), y, Raise(Product(r[1..], p), 1));
      assert Add(x, y) == if q[0] != r[0] then p else {};
      assert Sum(q, r)[1..] == Sum(q[1..], r[1..]);
    }
  }

  lemma MultiplesAdd(a: Poly, b: Poly, p: Poly)
    requires Multiple(a, p) && Multiple(b, p)
    ensures Multiple(Add(a, b), p)
  {
    var q :| a == Product(q, p);
    var r :| b == Product(r, p);
    ProductAdds(q, r, p);
  }

  lemma MultiplesRaise(a: Poly, p: Poly, n: nat)
    requires Multiple(a, p)
    ensures Multiple(Raise(a, n), p)
  {
    var q :| a == Product(q, p);
    var q' := ProductRaised(q, p, n);
  }

  lemma {:induction false} ProductRaised(q: seq<bool>, p: Poly, n: nat) returns (q': seq<bool>)
    ensures Product(q', p) == Raise(Product(q, p), n)
  {
    var a := Product(q, p);
    if n == 0 {
      q' := q;
      RaiseTwice(a, 0, 0);
    } else {
      var r := ProductRaised(q, p, n - 1);
      q' := [false] + r;
      assert q'[1..] == r;
      AddLaws(Raise(Product(r, p), 1), {}, {});
      RaiseTwice(a, n - 1, 1);
    }
  }

  lemma Trivial(p: Poly)
    ensures Multiple({}, p) && Multiple(p, p)
  {
    assert Product([], p) == {};
    RaiseTwice({}, 0, 1);
    AddLaws(p, {}, {});
    assert [true][1..] == [];
    assert Product([true], p) == p;
  }

  /** A product that is not zero has a term of degree n or more. */
  lemma {:induction false} Degree(q: seq<bool>, p: Poly, n: nat) returns (d: nat)
    requires n in p && Below(p, n + 1) && Product(q, p) != {}
    ensures d >= n && d in Product(q, p)
    decreases q
  {
    var rest := Product(q[1..], p);
    if rest == {} {
      d := n;
    } else {
      d := Degree(q[1..], p, n);
      d := d + 1;
    }
  }

  /** There is one remainder. */
  lemma RemainderIsUnique(m: Poly, p: Poly, n: nat, r: Poly, s: Poly)
    requires n in p && Below(p, n + 1) && Remainder(m, p, n, r) && Remainder(m, p, n, s)
    ensures r == s
  {
    MultiplesAdd(Add(m, r), Add(m, s), p);
    assert Add(Add(m, r), Add(m, s)) == Add(r, s);
    var q :| Add(r, s) == Product(q, p);
    if r != s {
      assert Add(r, s) != {} by {
        if Add(r, s) == {} { SameIfNoDifference(r, s); }
      }
      var d := Degree(q, p, n);
    }
  }

  lemma SameIfNoDifference(r: Poly, s: Poly)
    requires Add(r, s) == {}
    ensures r == s
  {
    forall e: nat ensures e in r <==> e in s { assert e !in Add(r, s); }
  }
}

/**
  CRC-32C is a remainder.  The coefficient of the j-th power of x is bit j of a word from the
  top, so the lowest bit stands for the highest power, and the data start with the highest.
 */
module Crc32cPolynomial {
  import opened Binary
  import opened Crc32cHardware
  import opened Crc32cSpec
  import opened Polynomials

  /** The Castagnoli polynomial, by its exponents. */
  const CASTAGNOLI: Poly := {32, 28, 27, 26, 25, 23, 22, 20, 19, 18, 14, 13, 11, 10, 9, 8, 6, 0}

  function PolyOf(w: Bits): (p: Poly)
    ensures forall e: nat {:trigger e in p} :: e in p <==> e < |w| && w[e]
  {
    set e: nat | e < |w| && w[e]
  }

  /** All powers below the 32nd. */
  function Ones(): (p: Poly)
    ensures forall e: nat {:trigger e in p} :: e in p <==> e < 32
  {
    PolyOf(seq(32, i => true))
  }

  /** The first bit of the data, the lowest of the first byte, has the highest power. */
  function DataPoly(data: Data): (p: Poly)
    ensures forall e: nat {:trigger e in p} :: e in p <==> e < 8 * |data| && data[|data| - 1 - e / 8][e % 8]
  {
    set e: nat | e < 8 * |data| && data[|data| - 1 - e / 8][e % 8]
  }

  lemma PolyOfXor(x: Bits, y: Bits)
    requires |x| == |y|
    ensures PolyOf(XorBits(x, y)) == Add(PolyOf(x), PolyOf(y))
  {
  }

  lemma HighBytes()
    ensures BitsOf(0x82, 8) == [true, false, false, false, false, false, true, false]
    ensures BitsOf(0xf6, 8) == [true, true, true, true, false, true, true, false]
  {
  }

  lemma LowBytes()
    ensures BitsOf(0x3b, 8) == [false, false, true, true, true, false, true, true]
    ensures BitsOf(0x78, 8) == [false, true, true, true, true, false, false, false]
  {
  }

  /** The constant of the program lists the coefficients below the highest. */
  lemma PolyBits(e: nat)
    requires e < 32
    ensures POLY[e] <==> e in CASTAGNOLI
  {
    HighBytes();
    LowBytes();
    PolyBytes(BitsOf(0x82, 8), BitsOf(0xf6, 8), BitsOf(0x3b, 8), BitsOf(0x78, 8), e);
  }

  lemma PolyBytes(a: Bits, b: Bits, c: Bits, d: Bits, e: nat)
    requires a == [true, false, false, false, false, false, true, false]
    requires b == [true, true, true, true, false, true, true, false]
    requires c == [false, false, true, true, true, false, true, true]
    requires d == [false, true, true, true, true, false, false, false] && e < 32
    ensures (a + b + c + d)[e] <==> e in CASTAGNOLI
  {
  }

  /** One step multiplies by x and subtracts the polynomial if that takes the degree to 32. */
  lemma StepIs(w: Word)
    ensures PolyOf(Castagnoli(w)) == Add(Raise(PolyOf(w), 1), if w[31] then CASTAGNOLI else {})
  {
    var cut: Poly := if w[31] then CASTAGNOLI else {};
    forall e: nat ensures e in PolyOf(Castagnoli(w)) <==> e in Add(Raise(PolyOf(w), 1), cut) {
      if e < 32 { StepBit(w, e); }
    }
  }

  lemma StepBit(w: Word, e: nat)
    requires e < 32
    ensures Castagnoli(w)[e] <==> ((e > 0 && w[e - 1]) != (w[31] && e in CASTAGNOLI))
  {
    PolyBits(e);
    assert Shr(w)[e] <==> e > 0 && w[e - 1];
  }

  lemma {:induction false} StepsAre(w: Word, n: nat)
    ensures Multiple(Add(Raise(PolyOf(w), n), PolyOf(Steps(Castagnoli, w, n))), CASTAGNOLI)
    decreases n
  {
    Trivial(CASTAGNOLI);
    if n == 0 {
      RaiseTwice(PolyOf(w), 0, 0);
      AddLaws(PolyOf(w), {}, {});
    } else {
      var v := Castagnoli(w);
      StepsAre(v, n - 1);
      StepIs(w);
      OneStepMore(PolyOf(w), PolyOf(v), if w[31] then CASTAGNOLI else {}, PolyOf(Steps(Castagnoli, v, n - 1)), n);
    }
  }

  lemma OneStepMore(w: Poly, v: Poly, cut: Poly, last: Poly, n: nat)
    requires n > 0 && v == Add(Raise(w, 1), cut) && Multiple(cut, CASTAGNOLI)
    requires Multiple(Add(Raise(v, n - 1), last), CASTAGNOLI)
    ensures Multiple(Add(Raise(w, n), last), CASTAGNOLI)
  {
    MultiplesRaise(cut, CASTAGNOLI, n - 1);
    MultiplesAdd(Raise(cut, n - 1), Add(Raise(v, n - 1), last), CASTAGNOLI);
    StepTerms(w, v, cut, last, n);
  }

  lemma StepTerms(w: Poly, v: Poly, cut: Poly, last: Poly, n: nat)
    requires n > 0 && v == Add(Raise(w, 1), cut)
    ensures Add(Raise(cut, n - 1), Add(Raise(v, n - 1), last)) == Add(Raise(w, n), last)
  {
    RaiseAdds(Raise(w, 1), cut, n - 1);
    RaiseTwice(w, 1, n - 1);
    AddLaws(Raise(cut, n - 1), Raise(w, n), last);
  }

  lemma WideIs(b: Byte)
    ensures PolyOf(Wide(b)) == Raise(PolyOf(b), 24)
  {
  }

  /** One more byte: what was there moves up by eight, the byte comes in at the top. */
  lemma ByteIs(crc: Word, b: Byte)
    ensures Multiple(Add(Add(Raise(PolyOf(crc), 8), Raise(PolyOf(b), 32)), PolyOf(AddByte(Castagnoli, crc, b))),
                     CASTAGNOLI)
  {
    StepsAre(Xor(crc, Wide(b)), 8);
    PolyOfXor(crc, Wide(b));
    WideIs(b);
    RaiseAdds(PolyOf(crc), PolyOf(Wide(b)), 8);
    RaiseTwice(PolyOf(b), 24, 8);
  }

  lemma DataIs(data: Data)
    requires data != []
    ensures DataPoly(data) == Add(Raise(PolyOf(data[0]), 8 * (|data| - 1)), DataPoly(data[1..]))
  {
    var n := |data|;
    forall e: nat
      ensures e in DataPoly(data) <==> e in Add(Raise(PolyOf(data[0]), 8 * (n - 1)), DataPoly(data[1..]))
    {
      if e < 8 * (n - 1) {
        assert data[1..][n - 2 - e / 8] == data[n - 1 - e / 8];
      } else if e < 8 * n {
        assert e / 8 == n - 1 && e % 8 == e - 8 * (n - 1);
      }
    }
  }

  /** The polynomial whose remainder a crc is: the start value above the data, then 32 zeros. */
  function Message(crc: Poly, data: Data): Poly {
    Add(Raise(crc, 8 * |data|), Raise(DataPoly(data), 32))
  }

  /** The serial crc is a remainder of division by the polynomial. */
  lemma {:induction false} CrcIsRemainder(crc: Word, data: Data)
    ensures Remainder(Message(PolyOf(crc), data), CASTAGNOLI, 32, PolyOf(Crc(Castagnoli, crc, data)))
    decreases data
  {
    if data == [] {
      EmptyMessage(PolyOf(crc));
      Trivial(CASTAGNOLI);
      AddLaws(PolyOf(crc), {}, {});
    } else {
      var next := AddByte(Castagnoli, crc, data[0]);
      var k := 8 * (|data| - 1);
      CrcIsRemainder(next, data[1..]);
      ByteIs(crc, data[0]);
      var step := Add(Add(Raise(PolyOf(crc), 8), Raise(PolyOf(data[0]), 32)), PolyOf(next));
      MultiplesRaise(step, CASTAGNOLI, k);
      DataIs(data);
      var last := PolyOf(Crc(Castagnoli, crc, data));
      MultiplesAdd(Raise(step, k), Add(Message(PolyOf(next), data[1..]), last), CASTAGNOLI);
      ByteTerms(PolyOf(crc), PolyOf(data[0]), PolyOf(next), DataPoly(data[1..]), last, k);
    }
  }

  lemma EmptyMessage(crc: Poly)
    ensures Message(crc, []) == crc
  {
    assert DataPoly([]) == {};
    RaiseTwice(crc, 0, 0);
    RaiseTwice({}, 0, 32);
    AddLaws(crc, {}, {});
  }

  lemma ByteTerms(crc: Poly, b: Poly, next: Poly, rest: Poly, last: Poly, k: nat)
    ensures Add(Raise(Add(Add(Raise(crc, 8), Raise(b, 32)), next), k), Add(Add(Raise(next, k), Raise(rest, 32)), last))
      == Add(Add(Raise(crc, 8 + k), Raise(Add(Raise(b, k), rest), 32)), last)
  {
    RaiseAdds(Add(Raise(crc, 8), Raise(b, 32)), next, k);
    RaiseAdds(Raise(crc, 8), Raise(b, 32), k);
    RaiseTwice(crc, 8, k);
    RaiseTwice(b, 32, k);
    RaiseTwice(b, k, 32);
    RaiseAdds(Raise(b, k), rest, 32);
    Cancel(Raise(crc, 8 + k), Raise(b, 32 + k), Raise(next, k), Raise(rest, 32), last);
  }

  lemma Cancel(a: Poly, b: Poly, n: Poly, r: Poly, l: Poly)
    ensures Add(Add(Add(a, b), n), Add(Add(n, r), l)) == Add(Add(a, Add(b, r)), l)
  {
  }

  lemma NotIs(w: Word)
    ensures PolyOf(Not(w)) == Add(PolyOf(w), Ones())
  {
  }

  /** What Extend computes, with both inversions: the remainder, and the only one, of the
      inverted start value above the data, inverted. */
  lemma ExtendIsRemainder(crc: Word, data: Data)
    ensures Remainder(Message(Add(PolyOf(crc), Ones()), data), CASTAGNOLI, 32, Add(PolyOf(Extend(crc, data)), Ones()))
    ensures forall w: Word {:trigger PolyOf(w)} ::
      Remainder(Message(Add(PolyOf(crc), Ones()), data), CASTAGNOLI, 32, Add(PolyOf(w), Ones())) ==>
      w == Extend(crc, data)
  {
    var m := Message(Add(PolyOf(crc), Ones()), data);
    var r := Crc(Castagnoli, Not(crc), data);
    NotIs(crc);
    CrcIsRemainder(Not(crc), data);
    NotIs(r);
    AddLaws(PolyOf(r), Ones(), Ones());
    AddLaws(PolyOf(r), {}, {});
    forall w: Word | Remainder(m, CASTAGNOLI, 32, Add(PolyOf(w), Ones())) ensures w == Extend(crc, data) {
      RemainderIsUnique(m, CASTAGNOLI, 32, Add(PolyOf(w), Ones()), PolyOf(r));
      SameWord(w, Extend(crc, data));
    }
  }

  lemma SameWord(v: Word, w: Word)
    requires Add(PolyOf(v), Ones()) == Add(PolyOf(w), Ones())
    ensures v == w
  {
    forall e: nat | e < 32 ensures v[e] == w[e] {
      assert e in Add(PolyOf(v), Ones()) <==> e in Add(PolyOf(w), Ones());
      assert e in PolyOf(v) <==> v[e];
      assert e in PolyOf(w) <==> w[e];
    }
  }
}
