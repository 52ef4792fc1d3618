/** The modulus of src/random.cc is prime, and 2 generates its residues. */
module Modulus {
  import opened Arithmetic
  import opened Residues

  const P: nat := 4294967291

  /** The large prime in P - 1 == 2 * 5 * 19 * Q; and Q - 1 == 2 * 3 * 5 * 23 * 181 * 181. */
  const Q: nat := 22605091

  /** Trial division up to the square root. */
  lemma SmallPrime(n: nat, b: nat)
    requires n > 1 && n < b * b && forall d :: 2 <= d < b ==> n % d != 0
    ensures Prime(n)
  {
    forall d | 1 < d < n ensures n % d != 0 {
      if n % d == 0 {
        var k := n / d;
        DivisionLaw(n, d);
        FactorIsSmall(n, d, k);
        Commutes(d, k);
        DivisionUnique(n, k, d, 0);
        if d >= b && k >= b { Squares(b, d, k); }
      }
    }
  }

  lemma Squares(b: nat, d: nat, k: nat)
    requires b <= d && b <= k
    ensures b * b <= d * k
  {
    assert b * b <= b * k;
    assert b * k <= d * k;
  }

  lemma SmallPrimes()
    ensures Prime(2) && Prime(3) && Prime(5) && Prime(19) && Prime(23) && Prime(181)
  {
    SmallPrime(2, 2);
    SmallPrime(3, 2);
    assert 5 % 2 != 0;
    SmallPrime(5, 3);
    assert 19 % 2 != 0 && 19 % 3 != 0 && 19 % 4 != 0;
    SmallPrime(19, 5);
    assert 23 % 2 != 0 && 23 % 3 != 0 && 23 % 4 != 0;
    SmallPrime(23, 5);
    assert 181 % 2 != 0 && 181 % 3 != 0 && 181 % 5 != 0 && 181 % 7 != 0 && 181 % 11 != 0 && 181 % 13 != 0;
    SmallPrime(181, 14);
  }

  ghost predicate Splits(all: nat, q: nat, e: nat) {
    q * e == all
  }

  /** A certificate given by exponents: each es[i] is (n - 1) / qs[i]. */
  lemma CertificateByRow(p: PowerRow, qs: seq<nat>, es: seq<nat>, all: nat)
    requires Product(qs) == p.n - 1 == all && AllPrime(qs) && |es| == |qs| && p.at(all) == 1
    requires forall i :: 0 <= i < |qs| ==> Splits(all, qs[i], es[i]) && p.at(es[i]) != 1
    ensures Generates(p.n, p.g)
  {
    forall i | 0 <= i < |qs| ensures Quotient(p.n, p.g, qs[i]) != 1 {
      assert Prime(qs[i]);
      DivisionUnique(all, qs[i], es[i], 0);
    }
    Certificate(p.n, p.g, qs);
  }

  // ------------------------------------------------------- powers of 11 modulo Q

  lemma Q181(p: PowerRow, one: nat) returns (e: nat)
    requires p.n == Q && p.at(one) == 11
    ensures e == 181 * one && p.at(e) == 1559941
  {
    e := one;
    e := Add(p, e, 11, e, 11, 0, 121);
    e := Add(p, e, 121, e, 121, 0, 14641);
    e := Add(p, e, 14641, one, 11, 0, 161051);
    e := Add(p, e, 161051, e, 161051, 1147, 9385224);
    e := Add(p, e, 9385224, one, 11, 4, 12817100);
    e := Add(p, e, 12817100, e, 12817100, 7267303, 6770427);
    e := Add(p, e, 6770427, e, 6770427, 2027803, 10417256);
    e := Add(p, e, 10417256, one, 11, 5, 1564361);
    e := Add(p, e, 1564361, e, 1564361, 108259, 20791752);
    e := Add(p, e, 20791752, e, 20791752, 19123875, 16581879);
    e := Add(p, e, 16581879, one, 11, 8, 1559941);
  }

  lemma Q690(p: PowerRow, k: nat) returns (e: nat)
    requires p.n == Q && p.at(k) == 1559941
    ensures e == 690 * k && p.at(e) == 16340705
  {
    e := k;
    e := Add(p, e, 1559941, e, 1559941, 107649, 482422);
    e := Add(p, e, 482422, e, 482422, 10295, 11574239);
    e := Add(p, e, 11574239, k, 1559941, 798719, 14281470);
    e := Add(p, e, 14281470, e, 14281470, 9022763, 6674467);
    e := Add(p, e, 6674467, e, 6674467, 1970729, 1352750);
    e := Add(p, e, 1352750, k, 1559941, 93351, 2337809);
    e := Add(p, e, 2337809, e, 2337809, 241775, 5043956);
    e := Add(p, e, 5043956, k, 1559941, 348075, 6716771);
    e := Add(p, e, 6716771, e, 6716771, 1995789, 20704642);
    e := Add(p, e, 20704642, e, 20704642, 18963967, 592167);
    e := Add(p, e, 592167, e, 592167, 15512, 11584297);
    e := Add(p, e, 11584297, k, 1559941, 799413, 16234894);
    e := Add(p, e, 16234894, e, 16234894, 11659841, 16340705);
  }

  lemma Q32761(p: PowerRow, k: nat) returns (e: nat)
    requires p.n == Q && p.at(k) == 1559941
    ensures e == 181 * k && p.at(e) == 1595915
  {
    e := k;
    e := Add(p, e, 1559941, e, 1559941, 107649, 482422);
    e := Add(p, e, 482422, e, 482422, 10295, 11574239);
    e := Add(p, e, 11574239, k, 1559941, 798719, 14281470);
    e := Add(p, e, 14281470, e, 14281470, 9022763, 6674467);
    e := Add(p, e, 6674467, k, 1559941, 460594, 5442393);
    e := Add(p, e, 5442393, e, 5442393, 1310308, 9988421);
    e := Add(p, e, 9988421, e, 9988421, 4413543, 12925828);
    e := Add(p, e, 12925828, k, 1559941, 891990, 13935058);
    e := Add(p, e, 13935058, e, 13935058, 8590358, 17150786);
    e := Add(p, e, 17150786, e, 17150786, 13012531, 13022475);
    e := Add(p, e, 13022475, k, 1559941, 898660, 1595915);
  }

  lemma QMultiples(p: PowerRow, k: nat) returns (k30: nat, k138: nat, k230: nat, k345: nat, k690: nat)
    requires p.n == Q && p.at(k) == 1595915
    ensures k30 == 30 * k && k138 == 138 * k && k230 == 230 * k && k345 == 345 * k && k690 == 690 * k
    ensures p.at(k30) == 13266577 && p.at(k138) == 18020114 && p.at(k230) == 14127152 && p.at(k345) == 22605090
    ensures p.at(k690) == 1
  {
    var k2 := Add(p, k, 1595915, k, 1595915, 112671, 6479164);
    var k3 := Add(p, k2, 6479164, k, 1595915, 457427, 16054203);
    var k5 := Add(p, k3, 16054203, k2, 6479164, 4601521, 13182881);
    var k10 := Add(p, k5, 13182881, k5, 13182881, 7688018, 4960523);
    var k15 := Add(p, k10, 4960523, k5, 13182881, 2892887, 10519046);
    var k20 := Add(p, k10, 4960523, k10, 4960523, 1088550, 16625479);
    var k23 := Add(p, k20, 16625479, k3, 16054203, 11807464, 16639013);
    k30 := Add(p, k15, 10519046, k15, 10519046, 4894929, 13266577);
    var k46 := Add(p, k23, 16639013, k23, 16639013, 12247539, 19993120);
    var k69 := Add(p, k46, 19993120, k23, 16639013, 14716409, 18952341);
    k138 := Add(p, k69, 18952341, k69, 18952341, 15889837, 18020114);
    var k92 := Add(p, k46, 19993120, k46, 19993120, 17682956, 17805404);
    var k115 := Add(p, k92, 17805404, k23, 16639013, 13106089, 14127153);
    k230 := Add(p, k115, 14127153, k115, 14127153, 8828827, 14127152);
    k345 := Add(p, k230, 14127152, k115, 14127153, 8828826, 22605090);
    k690 := Add(p, k345, 22605090, k345, 22605090, 22605089, 1);
  }


  // -------------------------------------------------------- powers of 2 modulo P

  lemma P190(p: PowerRow, one: nat) returns (e: nat)
    requires p.n == P && p.at(one) == 2
    ensures e == 190 * one && p.at(e) == 1073745729
  {
    e := one;
    e := Add(p, e, 2, e, 2, 0, 4);
    e := Add(p, e, 4, e, 4, 0, 16);
    e := Add(p, e, 16, one, 2, 0, 32);
    e := Add(p, e, 32, e, 32, 0, 1024);
    e := Add(p, e, 1024, one, 2, 0, 2048);
    e := Add(p, e, 2048, e, 2048, 0, 4194304);
    e := Add(p, e, 4194304, one, 2, 0, 8388608);
    e := Add(p, e, 8388608, e, 8388608, 16384, 81920);
    e := Add(p, e, 81920, one, 2, 0, 163840);
    e := Add(p, e, 163840, e, 163840, 6, 1073741854);
    e := Add(p, e, 1073741854, one, 2, 0, 2147483708);
    e := Add(p, e, 2147483708, e, 2147483708, 1073741885, 1073745729);
  }

  lemma PTimesQ(p: PowerRow, one: nat) returns (e: nat)
    requires p.n == P && p.at(one) == 2
    ensures e == 22605091 * one && p.at(e) == 3079820090
  {
    e := one;
    e := Add(p, e, 2, e, 2, 0, 4);
    e := Add(p, e, 4, e, 4, 0, 16);
    e := Add(p, e, 16, one, 2, 0, 32);
    e := Add(p, e, 32, e, 32, 0, 1024);
    e := Add(p, e, 1024, e, 1024, 0, 1048576);
    e := Add(p, e, 1048576, one, 2, 0, 2097152);
    e := Add(p, e, 2097152, e, 2097152, 1024, 5120);
    e := Add(p, e, 5120, one, 2, 0, 10240);
    e := Add(p, e, 10240, e, 10240, 0, 104857600);
    e := Add(p, e, 104857600, e, 104857600, 2560000, 12800000);
    e := Add(p, e, 12800000, e, 12800000, 38146, 4177717514);
    e := Add(p, e, 4177717514, e, 4177717514, 4063668578, 2807857998);
    e := Add(p, e, 2807857998, one, 2, 1, 1320748705);
    e := Add(p, e, 1320748705, e, 1320748705, 406144453, 703090202);
    e := Add(p, e, 703090202, one, 2, 0, 1406180404);
    e := Add(p, e, 1406180404, e, 1406180404, 460386120, 1963202296);
    e := Add(p, e, 1963202296, one, 2, 0, 3926404592);
    e := Add(p, e, 3926404592, e, 3926404592, 3589469249, 3573352005);
    e := Add(p, e, 3573352005, e, 3573352005, 2972978299, 579702016);
    e := Add(p, e, 579702016, one, 2, 0, 1159404032);
    e := Add(p, e, 1159404032, e, 1159404032, 312975074, 3689552490);
    e := Add(p, e, 3689552490, one, 2, 1, 3084137689);
    e := Add(p, e, 3084137689, e, 3084137689, 2214663032, 1683374409);
    e := Add(p, e, 1683374409, e, 1683374409, 659783697, 3126044454);
    e := Add(p, e, 3126044454, one, 2, 1, 1957121617);
    e := Add(p, e, 1957121617, e, 1957121617, 891817041, 3077288758);
    e := Add(p, e, 3077288758, e, 3077288758, 2204837769, 296768785);
    e := Add(p, e, 296768785, e, 296768785, 20505793, 1539359462);
    e := Add(p, e, 1539359462, one, 2, 0, 3078718924);
    e := Add(p, e, 3078718924, e, 3078718924, 2206887636, 1463403700);
    e := Add(p, e, 1463403700, e, 1463403700, 498618556, 468038204);
    e := Add(p, e, 468038204, e, 468038204, 51003825, 312657541);
    e := Add(p, e, 312657541, e, 312657541, 22760298, 2500753963);
    e := Add(p, e, 2500753963, one, 2, 1, 706540635);
    e := Add(p, e, 706540635, e, 706540635, 116228980, 1539910045);
    e := Add(p, e, 1539910045, one, 2, 0, 3079820090);
  }

  lemma PMultiples(p: PowerRow, k: nat) returns (k10: nat, k38: nat, k95: nat, k190: nat)
    requires p.n == P && p.at(k) == 3079820090
    ensures k10 == 10 * k && k38 == 38 * k && k95 == 95 * k && k190 == 190 * k
    ensures p.at(k10) == 81549662 && p.at(k38) == 149005400 && p.at(k95) == 4294967290 && p.at(k190) == 1
  {
    var k2 := Add(p, k, 3079820090, k, 3079820090, 2208466594, 2271431246);
    var k4 := Add(p, k2, 2271431246, k2, 2271431246, 1201266402, 937855534);
    var k5 := Add(p, k4, 937855534, k, 3079820090, 672514158, 3786472082);
    var k9 := Add(p, k5, 3786472082, k4, 937855534, 826819753, 1752502665);
    k10 := Add(p, k5, 3786472082, k5, 3786472082, 3338179282, 81549662);
    var k19 := Add(p, k10, 81549662, k9, 1752502665, 33275224, 1304151046);
    k38 := Add(p, k19, 1304151046, k19, 1304151046, 396000676, 149005400);
    var k76 := Add(p, k38, 149005400, k38, 149005400, 5169447, 3451601923);
    k95 := Add(p, k76, 3451601923, k19, 1304151046, 1048066248, 4294967290);
    k190 := Add(p, k95, 4294967290, k95, 4294967290, 4294967289, 1);
  }

  lemma QProduct()
    ensures Product([2, 3, 5, 23, 181, 181]) == Q - 1
  {
    assert Product([181]) == 181;
    assert [181, 181][1..] == [181] && Product([181, 181]) == 32761;
    assert [23, 181, 181][1..] == [181, 181] && Product([23, 181, 181]) == 753503;
    assert [5, 23, 181, 181][1..] == [23, 181, 181] && Product([5, 23, 181, 181]) == 3767515;
    assert [3, 5, 23, 181, 181][1..] == [5, 23, 181, 181] && Product([3, 5, 23, 181, 181]) == 11302545;
    assert [2, 3, 5, 23, 181, 181][1..] == [3, 5, 23, 181, 181];
  }

  lemma PProduct()
    ensures Product([2, 5, 19, Q]) == P - 1
  {
    assert Product([Q]) == Q;
    assert [19, Q][1..] == [Q] && Product([19, Q]) == 429496729;
    assert [5, 19, Q][1..] == [19, Q] && Product([5, 19, Q]) == 2147483645;
    assert [2, 5, 19, Q][1..] == [5, 19, Q];
  }

  lemma QIsPrime(n: nat, g: nat)
    requires n == Q && g == 11
    ensures Prime(n)
  {
    var p := RowOf(n, g);
    var one := First(p);
    var k := Q181(p, one);
    var e181 := Q690(p, k);
    var r := Q32761(p, k);
    var e23, e5, e3, e2, all := QMultiples(p, r);
    QProduct();
    SmallPrimes();
    assert Splits(all, 2, e2) && Splits(all, 3, e3) && Splits(all, 5, e5) && Splits(all, 23, e23)
      && Splits(all, 181, e181);
    CertificateByRow(p, [2, 3, 5, 23, 181, 181], [e2, e3, e5, e23, e181, e181], all);
    GeneratorMeansPrime(n, g);
  }

  /** Every residue modulo P but 0 is a power of 2. */
  lemma TwoGenerates(n: nat, g: nat)
    requires n == P && g == 2
    ensures Generates(n, g)
  {
    var p := RowOf(n, g);
    var one := First(p);
    var eQ := P190(p, one);
    var k := PTimesQ(p, one);
    var e19, e5, e2, all := PMultiples(p, k);
    PProduct();
    SmallPrimes();
    QIsPrime(Q, 11);
    assert Splits(all, 2, e2) && Splits(all, 5, e5) && Splits(all, 19, e19) && Splits(all, Q, eQ);
    CertificateByRow(p, [2, 5, 19, Q], [e2, e5, e19, eQ], all);
  }
}
