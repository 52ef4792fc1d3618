/**
  Huffman's construction of src/ectrie/huffman.h, on trees: repeatedly take the two
  lightest trees off a queue ordered by weight and put their join back.

  The tree it ends with has the least weighted path length of all codes.  The bound is
  proved against every assignment of code lengths that satisfies Kraft's inequality,
  and every prefix-free code does.
 */
module HuffmanTrees {

  datatype Tree = Leaf(symbol: nat, freq: nat) | Join(left: Tree, right: Tree) {

    function Weight(): nat {
      match this
      case Leaf(_, freq) => freq
      case Join(l, r) => l.Weight() + r.Weight()
    }

    /** Weighted path length, counted as the sum of the weights of all joins. */
    function Cost(): nat {
      match this
      case Leaf(_, _) => 0
      case Join(l, r) => l.Cost() + r.Cost() + Weight()
    }
  }

  /** multimap::insert: behind every element whose key is not greater. */
  function Insert(t: Tree, q: seq<Tree>): (r: seq<Tree>)
    ensures |r| == |q| + 1
  {
    if q == [] || q[0].Weight() > t.Weight() then [t] + q else [q[0]] + Insert(t, q[1..])
  }

  /** The queue after the first loop of generate: one leaf per symbol. */
  function Leaves(freqs: seq<nat>): (q: seq<Tree>)
    ensures |q| == |freqs|
  {
    if freqs == [] then []
    else var n := |freqs| - 1; Insert(Leaf(n, freqs[n]), Leaves(freqs[..n]))
  }

  /** The second loop of generate. */
  function Merge(q: seq<Tree>): Tree
    requires q != []
    decreases |q|
  {
    if |q| == 1 then q[0] else Merge(Insert(Join(q[0], q[1]), q[2..]))
  }

  function Huffman(freqs: seq<nat>): Tree
    requires freqs != []
  {
    Merge(Leaves(freqs))
  }

  function Weights(q: seq<Tree>): (ws: seq<nat>)
    ensures |ws| == |q|
  {
    seq(|q|, i requires 0 <= i < |q| => q[i].Weight())
  }

  ghost predicate Sorted(q: seq<Tree>) {
    forall i, j :: 0 <= i < j < |q| ==> q[i].Weight() <= q[j].Weight()
  }

  lemma {:induction false} InsertSorted(t: Tree, q: seq<Tree>)
    requires Sorted(q)
    ensures Sorted(Insert(t, q))
    ensures forall x :: x in Insert(t, q) ==> x == t || x in q
  {
    if q != [] && q[0].Weight() <= t.Weight() {
      InsertSorted(t, q[1..]);
      forall x | x in Insert(t, q[1..]) ensures q[0].Weight() <= x.Weight() {
        if x != t { assert x in q[1..]; }
      }
    }
  }

  lemma {:induction false} LeavesSorted(freqs: seq<nat>)
    ensures Sorted(Leaves(freqs))
  {
    if freqs != [] {
      var n := |freqs| - 1;
      LeavesSorted(freqs[..n]);
      InsertSorted(Leaf(n, freqs[n]), Leaves(freqs[..n]));
    }
  }

  /** Insert only makes room for the new element. */
  lemma {:induction false} InsertSplits(t: Tree, q: seq<Tree>) returns (k: nat)
    ensures k <= |q| && Insert(t, q) == q[..k] + [t] + q[k..]
  {
    if q == [] || q[0].Weight() > t.Weight() {
      k := 0;
    } else {
      k := InsertSplits(t, q[1..]);
      k := k + 1;
    }
  }
}

module HuffmanOptimal {
  import opened Binary
  import opened HuffmanTrees

  function Sum(s: seq<nat>): nat {
    if s == [] then 0 else s[0] + Sum(s[1..])
  }

  function Products(ws: seq<nat>, ls: seq<nat>): (s: seq<nat>)
    requires |ws| == |ls|
    ensures |s| == |ws|
  {
    seq(|ws|, i requires 0 <= i < |ws| => ws[i] * ls[i])
  }

  /** Weighted length of a code. */
  function Dot(ws: seq<nat>, ls: seq<nat>): nat
    requires |ws| == |ls|
  {
    Sum(Products(ws, ls))
  }

  predicate Bounded(ls: seq<nat>, d: nat) {
    forall i :: 0 <= i < |ls| ==> ls[i] <= d
  }

  function Powers(ls: seq<nat>, d: nat): (s: seq<nat>)
    requires Bounded(ls, d)
    ensures |s| == |ls|
  {
    seq(|ls|, i requires 0 <= i < |ls| => Pow2(d - ls[i]))
  }

  /** Kraft's sum of the lengths, in units of 2^-d. */
  function Kraft(ls: seq<nat>, d: nat): nat
    requires Bounded(ls, d)
  {
    Sum(Powers(ls, d))
  }

  /** The lengths of some binary code: Kraft's inequality. */
  ghost predicate CodeLengths(ls: seq<nat>, d: nat) {
    Bounded(ls, d) && Kraft(ls, d) <= Pow2(d)
  }

  /** No code for these weights costs less than c. */
  ghost predicate LowerBound(ws: seq<nat>, c: int) {
    forall ls: seq<nat>, d: nat :: |ls| == |ws| && CodeLengths(ls, d) ==> Dot(ws, ls) >= c
  }

  // ----------------------------------------------------------------- arithmetic

  lemma {:induction false} SumConcat(a: seq<nat>, b: seq<nat>)
    ensures Sum(a + b) == Sum(a) + Sum(b)
  {
    if a == [] {
      assert a + b == b;
    } else {
      SumConcat(a[1..], b);
      assert (a + b)[1..] == a[1..] + b;
    }
  }

  lemma SumSmall(x: nat, y: nat)
    ensures Sum([x]) == x && Sum([x, y]) == x + y
  {
    assert [x][1..] == [] && [x, y][1..] == [y] && [y][1..] == [];
  }

  lemma {:induction false} SumUpdate(s: seq<nat>, i: nat, v: nat)
    requires i < |s|
    ensures Sum(s[i := v]) == Sum(s) + v - s[i]
  {
    if i == 0 {
      assert s[i := v][1..] == s[1..];
    } else {
      SumUpdate(s[1..], i - 1, v);
      assert s[i := v][1..] == s[1..][i - 1 := v];
    }
  }

  lemma {:induction false} SumDouble(s: seq<nat>, t: seq<nat>)
    requires |s| == |t| && forall i :: 0 <= i < |s| ==> t[i] == 2 * s[i]
    ensures Sum(t) == 2 * Sum(s)
  {
    if s != [] { SumDouble(s[1..], t[1..]); }
  }

  lemma DotConcat(a: seq<nat>, b: seq<nat>, la: seq<nat>, lb: seq<nat>)
    requires |a| == |la| && |b| == |lb|
    ensures Dot(a + b, la + lb) == Dot(a, la) + Dot(b, lb)
  {
    assert Products(a + b, la + lb) == Products(a, la) + Products(b, lb);
    SumConcat(Products(a, la), Products(b, lb));
  }

  lemma KraftConcat(a: seq<nat>, b: seq<nat>, d: nat)
    requires Bounded(a, d) && Bounded(b, d)
    ensures Bounded(a + b, d) && Kraft(a + b, d) == Kraft(a, d) + Kraft(b, d)
  {
    assert Powers(a + b, d) == Powers(a, d) + Powers(b, d);
    SumConcat(Powers(a, d), Powers(b, d));
  }

  lemma DotUpdate(ws: seq<nat>, ls: seq<nat>, i: nat, v: nat)
    requires i < |ws| == |ls|
    ensures Dot(ws, ls[i := v]) == Dot(ws, ls) + ws[i] * v - ws[i] * ls[i]
  {
    assert Products(ws, ls[i := v]) == Products(ws, ls)[i := ws[i] * v];
    SumUpdate(Products(ws, ls), i, ws[i] * v);
  }

  lemma KraftUpdate(ls: seq<nat>, d: nat, i: nat, v: nat)
    requires Bounded(ls, d) && i < |ls| && v <= d
    ensures Bounded(ls[i := v], d)
    ensures Kraft(ls[i := v], d) == Kraft(ls, d) + Pow2(d - v) - Pow2(d - ls[i])
  {
    assert Powers(ls[i := v], d) == Powers(ls, d)[i := Pow2(d - v)];
    SumUpdate(Powers(ls, d), i, Pow2(d - v));
  }

  lemma KraftDeeper(ls: seq<nat>, d: nat)
    requires Bounded(ls, d)
    ensures Bounded(ls, d + 1) && Kraft(ls, d + 1) == 2 * Kraft(ls, d)
  {
    SumDouble(Powers(ls, d), Powers(ls, d + 1));
  }

  lemma {:induction false} KraftAtZero(ls: seq<nat>)
    requires Bounded(ls, 0)
    ensures Kraft(ls, 0) == |ls|
  {
    if ls != [] {
      KraftAtZero(ls[1..]);
      assert Powers(ls, 0)[1..] == Powers(ls[1..], 0);
    }
  }

  // ------------------------------------------------------------------ reordering

  /** The order of the weights does not matter: neighbouring blocks may change places. */
  lemma BoundMoves(p: seq<nat>, a: seq<nat>, b: seq<nat>, r: seq<nat>, c: int)
    requires LowerBound(p + a + b + r, c)
    ensures LowerBound(p + b + a + r, c)
  {
    forall ls: seq<nat>, d: nat | |ls| == |p + b + a + r| && CodeLengths(ls, d) ensures Dot(p + b + a + r, ls) >= c {
      var i, j, k := |p|, |p| + |b|, |p| + |b| + |a|;
      var lp, lb, la, lr := ls[..i], ls[i..j], ls[j..k], ls[k..];
      assert ls == lp + lb + la + lr;
      MovedLengths(lp, lb, la, lr, d);
      DotBlocks(p, b, a, r, lp, lb, la, lr);
      DotBlocks(p, a, b, r, lp, la, lb, lr);
      assert Dot(p + a + b + r, lp + la + lb + lr) >= c;
    }
  }

  lemma MovedLengths(lp: seq<nat>, lb: seq<nat>, la: seq<nat>, lr: seq<nat>, d: nat)
    requires CodeLengths(lp + lb + la + lr, d)
    ensures CodeLengths(lp + la + lb + lr, d)
  {
    var all := lp + lb + la + lr;
    assert forall i :: 0 <= i < |lp| ==> lp[i] == all[i];
    assert forall i :: 0 <= i < |lb| ==> lb[i] == all[|lp| + i];
    assert forall i :: 0 <= i < |la| ==> la[i] == all[|lp| + |lb| + i];
    assert forall i :: 0 <= i < |lr| ==> lr[i] == all[|lp| + |lb| + |la| + i];
    KraftBlocks(lp, lb, la, lr, d);
    KraftBlocks(lp, la, lb, lr, d);
  }

  lemma KraftBlocks(p: seq<nat>, a: seq<nat>, b: seq<nat>, r: seq<nat>, d: nat)
    requires Bounded(p, d) && Bounded(a, d) && Bounded(b, d) && Bounded(r, d)
    ensures Bounded(p + a + b + r, d)
    ensures Kraft(p + a + b + r, d) == Kraft(p, d) + Kraft(a, d) + Kraft(b, d) + Kraft(r, d)
  {
    KraftConcat(p, a, d);
    KraftConcat(p + a, b, d);
    KraftConcat(p + a + b, r, d);
  }

  lemma DotBlocks(p: seq<nat>, a: seq<nat>, b: seq<nat>, r: seq<nat>, lp: seq<nat>, la: seq<nat>, lb: seq<nat>,
      lr: seq<nat>)
    requires |p| == |lp| && |a| == |la| && |b| == |lb| && |r| == |lr|
    ensures Dot(p + a + b + r, lp + la + lb + lr) == Dot(p, lp) + Dot(a, la) + Dot(b, lb) + Dot(r, lr)
  {
    DotConcat(p, a, lp, la);
    DotConcat(p + a, b, lp + la, lb);
    DotConcat(p + a + b, r, lp + la + lb, lr);
  }

  // -------------------------------------------------------------------- exchange

  /** Giving the deepest length to the lighter of two weights never costs more. */
  lemma SwapDeepest(ws: seq<nat>, ls: seq<nat>, d: nat, k: nat, i: nat) returns (ls': seq<nat>)
    requires |ws| == |ls| && k < |ws| && i < |ws|
    requires CodeLengths(ls, d) && ls[i] == d && ws[k] <= ws[i]
    ensures |ls'| == |ls| && CodeLengths(ls', d) && ls' == ls[i := ls[k]][k := d]
    ensures Dot(ws, ls') <= Dot(ws, ls)
  {
    ls' := ls[i := ls[k]][k := d];
    var mid := ls[i := ls[k]];
    KraftUpdate(ls, d, i, ls[k]);
    KraftUpdate(mid, d, k, d);
    DotUpdate(ws, ls, i, ls[k]);
    DotUpdate(ws, mid, k, d);
    assert mid[k] == ls[k];
    Exchange(ws[k], ws[i], ls[k], d);
  }

  lemma Exchange(light: nat, heavy: nat, shallow: nat, deep: nat)
    requires light <= heavy && shallow <= deep
    ensures heavy * shallow + light * deep <= light * shallow + heavy * deep
  {
    var gap := deep - shallow;
    assert light * deep == light * shallow + light * gap;
    assert heavy * deep == heavy * shallow + heavy * gap;
    assert light * gap <= heavy * gap;
  }

  /** A deepest length can be shortened by one unless another one is as deep. */
  lemma ShortenLonely(ls: seq<nat>, d: nat, i: nat)
    requires d > 0 && CodeLengths(ls, d) && i < |ls| && ls[i] == d
    requires forall j :: 0 <= j < |ls| && j != i ==> ls[j] < d
    ensures Bounded(ls[i := d - 1], d - 1) && CodeLengths(ls[i := d - 1], d - 1)
  {
    var ls' := ls[i := d - 1];
    KraftUpdate(ls, d, i, d - 1);
    KraftDeeper(ls', d - 1);
    assert Pow2(0) == 1 && Pow2(1) == 2 * Pow2(0);
  }

  ghost predicate TwoLightest(ws: seq<nat>) {
    |ws| >= 2 && ws[0] <= ws[1] && forall i :: 2 <= i < |ws| ==> ws[1] <= ws[i]
  }

  /** The lengths that remain when the two lightest, both deepest, become one symbol. */
  lemma MergeDeepest(ws: seq<nat>, ls: seq<nat>, d: nat, c: int)
    requires |ws| == |ls| >= 2 && d > 0 && CodeLengths(ls, d) && ls[0] == d && ls[1] == d
    requires LowerBound([ws[0] + ws[1]] + ws[2..], c)
    ensures Dot(ws, ls) >= c + ws[0] + ws[1]
  {
    var ls' := [d - 1] + ls[2..];
    var ws' := [ws[0] + ws[1]] + ws[2..];
    assert ls == [d, d] + ls[2..];
    KraftConcat([d - 1], ls[2..], d);
    KraftConcat([d, d], ls[2..], d);
    SumSmall(Pow2(0), Pow2(0));
    SumSmall(Pow2(1), 0);
    assert Powers([d, d], d) == [Pow2(0), Pow2(0)] && Powers([d - 1], d) == [Pow2(1)] && Pow2(1) == 2 * Pow2(0);
    assert CodeLengths(ls', d);
    assert Dot(ws', ls') >= c;
    MergedDot(ws, ls, d);
  }

  lemma MergedDot(ws: seq<nat>, ls: seq<nat>, d: nat)
    requires |ws| == |ls| >= 2 && d > 0 && ls[0] == d && ls[1] == d
    ensures Dot(ws, ls) == Dot([ws[0] + ws[1]] + ws[2..], [d - 1] + ls[2..]) + ws[0] + ws[1]
  {
    assert ls == [d, d] + ls[2..] && ws == ws[..2] + ws[2..];
    DotConcat(ws[..2], ws[2..], [d, d], ls[2..]);
    DotConcat([ws[0] + ws[1]], ws[2..], [d - 1], ls[2..]);
    SumSmall(ws[0] * d, ws[1] * d);
    SumSmall((ws[0] + ws[1]) * (d - 1), 0);
    assert Products(ws[..2], [d, d]) == [ws[0] * d, ws[1] * d];
    assert Products([ws[0] + ws[1]], [d - 1]) == [(ws[0] + ws[1]) * (d - 1)];
    assert (ws[0] + ws[1]) * (d - 1) == ws[0] * d + ws[1] * d - ws[0] - ws[1];
  }

  /** Huffman's greedy choice: joining the two lightest weights loses nothing. */
  lemma {:induction false} GreedyChoice(ws: seq<nat>, ls: seq<nat>, d: nat, c: int)
    requires TwoLightest(ws) && |ls| == |ws| && CodeLengths(ls, d)
    requires LowerBound([ws[0] + ws[1]] + ws[2..], c)
    ensures Dot(ws, ls) >= c + ws[0] + ws[1]
    decreases d
  {
    if d == 0 {
      KraftAtZero(ls);
      assert false;
    } else if i :| 0 <= i < |ls| && ls[i] == d {
      if j :| 0 <= j < |ls| && j != i && ls[j] == d {
        DeepestPair(ws, ls, d, c, i, j);
      } else {
        ShortenLonely(ls, d, i);
        DotUpdate(ws, ls, i, d - 1);
        assert ws[i] * (d - 1) <= ws[i] * d;
        GreedyChoice(ws, ls[i := d - 1], d - 1, c);
      }
    } else {
      assert Bounded(ls, d - 1);
      KraftDeeper(ls, d - 1);
      GreedyChoice(ws, ls, d - 1, c);
    }
  }

  lemma DeepestPair(ws: seq<nat>, ls: seq<nat>, d: nat, c: int, i: nat, j: nat)
    requires TwoLightest(ws) && |ls| == |ws| && d > 0 && CodeLengths(ls, d)
    requires i < |ls| && j < |ls| && i != j && ls[i] == d && ls[j] == d
    requires LowerBound([ws[0] + ws[1]] + ws[2..], c)
    ensures Dot(ws, ls) >= c + ws[0] + ws[1]
  {
    // one deepest length goes to position 0; another is then found at some k > 0 and goes to 1
    var ls1 := ls;
    if ls[0] != d {
      ls1 := SwapDeepest(ws, ls, d, 0, i);
    }
    var k := if i == 0 then j else if j == 0 then i else j;
    assert k > 0 && ls1[0] == d && ls1[k] == d;
    var ls2 := ls1;
    if ls1[1] != d {
      ls2 := SwapDeepest(ws, ls1, d, 1, k);
    }
    MergeDeepest(ws, ls2, d, c);
  }

  // ------------------------------------------------------------------ the result

  function Costs(q: seq<Tree>): nat {
    if q == [] then 0 else q[0].Cost() + Costs(q[1..])
  }

  lemma {:induction false} CostsConcat(a: seq<Tree>, b: seq<Tree>)
    ensures Costs(a + b) == Costs(a) + Costs(b)
  {
    if a == [] {
      assert a + b == b;
    } else {
      CostsConcat(a[1..], b);
      assert (a + b)[1..] == a[1..] + b;
    }
  }

  lemma InsertCosts(t: Tree, q: seq<Tree>)
    ensures Costs(Insert(t, q)) == t.Cost() + Costs(q)
  {
    var k := InsertSplits(t, q);
    CostsConcat(q[..k], [t]);
    CostsConcat(q[..k] + [t], q[k..]);
    CostsConcat(q[..k], q[k..]);
    assert q[..k] + q[k..] == q;
  }

  lemma InsertWeights(t: Tree, q: seq<Tree>) returns (a: seq<nat>, b: seq<nat>)
    ensures Weights(q) == a + b && Weights(Insert(t, q)) == a + [t.Weight()] + b
  {
    var k := InsertSplits(t, q);
    a, b := Weights(q[..k]), Weights(q[k..]);
  }

  /** A bound for the queue after an insertion is one for the old queue with the new weight behind it ... */
  lemma InsertBoundLast(t: Tree, q: seq<Tree>, r: seq<nat>, c: int)
    requires LowerBound(Weights(Insert(t, q)) + r, c)
    ensures LowerBound(Weights(q) + [t.Weight()] + r, c)
  {
    var a, b := InsertWeights(t, q);
    BoundMoves(a, [t.Weight()], b, r, c);
  }

  /** ... and one with the new weight in front. */
  lemma InsertBoundFirst(t: Tree, q: seq<Tree>, c: int)
    requires LowerBound(Weights(Insert(t, q)), c)
    ensures LowerBound([t.Weight()] + Weights(q), c)
  {
    var a, b := InsertWeights(t, q);
    var v := [t.Weight()];
    assert [] + a + v + b == a + v + b;
    BoundMoves([], a, v, b, c);
    assert [] + v + a + b == v + (a + b);
  }

  /** Merging a sorted queue spends no more than any code for its weights must. */
  lemma {:induction false} MergeOptimal(q: seq<Tree>)
    requires q != [] && Sorted(q)
    ensures LowerBound(Weights(q), Merge(q).Cost() - Costs(q))
    decreases |q|
  {
    if |q| == 1 {
    } else {
      var t, rest := Join(q[0], q[1]), q[2..];
      var ws, c := Weights(q), Merge(q).Cost() - Costs(Insert(t, rest));
      InsertSorted(t, rest);
      MergeOptimal(Insert(t, rest));
      InsertBoundFirst(t, rest, c);
      assert [t.Weight()] + Weights(rest) == [ws[0] + ws[1]] + ws[2..];
      InsertCosts(t, rest);
      assert Costs(q) == q[0].Cost() + q[1].Cost() + Costs(rest) by { assert q[1..][1..] == rest; }
      forall ls: seq<nat>, d: nat | |ls| == |ws| && CodeLengths(ls, d) ensures Dot(ws, ls) >= c + ws[0] + ws[1] {
        GreedyChoice(ws, ls, d, c);
      }
    }
  }

  /** The same for the leaf queue, back in symbol order. */
  lemma {:induction false} LeavesBound(freqs: seq<nat>, r: seq<nat>, c: int)
    requires LowerBound(Weights(Leaves(freqs)) + r, c)
    ensures LowerBound(freqs + r, c)
  {
    if freqs == [] {
      assert Weights([]) + r == freqs + r;
    } else {
      var n := |freqs| - 1;
      var q := Leaves(freqs[..n]);
      InsertBoundLast(Leaf(n, freqs[n]), q, r, c);
      assert Weights(q) + [freqs[n]] + r == Weights(q) + ([freqs[n]] + r);
      LeavesBound(freqs[..n], [freqs[n]] + r, c);
      assert freqs[..n] + ([freqs[n]] + r) == freqs + r;
    }
  }

  lemma {:induction false} LeavesCostNothing(freqs: seq<nat>)
    ensures Costs(Leaves(freqs)) == 0
  {
    if freqs != [] {
      var n := |freqs| - 1;
      LeavesCostNothing(freqs[..n]);
      InsertCosts(Leaf(n, freqs[n]), Leaves(freqs[..n]));
    }
  }

  /** No assignment of code lengths beats Huffman's tree. */
  lemma HuffmanBeatsLengths(freqs: seq<nat>)
    requires freqs != []
    ensures LowerBound(freqs, Huffman(freqs).Cost())
  {
    LeavesSorted(freqs);
    MergeOptimal(Leaves(freqs));
    LeavesCostNothing(freqs);
    assert Weights(Leaves(freqs)) + [] == Weights(Leaves(freqs)) && freqs + [] == freqs;
    LeavesBound(freqs, [], Huffman(freqs).Cost());
  }

  // ---------------------------------------------------------- prefix-free codes

  predicate Comparable(a: Bits, b: Bits) {
    a <= b || b <= a
  }

  /** No codeword is a prefix of another. */
  predicate PrefixFree(code: seq<Bits>) {
    code == [] || ((forall x :: x in code[1..] ==> !Comparable(code[0], x)) && PrefixFree(code[1..]))
  }

  function Lengths(code: seq<Bits>): (ls: seq<nat>)
    ensures |ls| == |code|
  {
    seq(|code|, i requires 0 <= i < |code| => |code[i]|)
  }

  /** The rests of the codewords that start with b. */
  function Tails(code: seq<Bits>, b: bool): seq<Bits> {
    if code == [] then []
    else (if code[0] != [] && code[0][0] == b then [code[0][1..]] else []) + Tails(code[1..], b)
  }

  lemma {:induction false} TailsMembers(code: seq<Bits>, b: bool, x: Bits)
    requires x in Tails(code, b)
    ensures [b] + x in code
  {
    if code[0] != [] && code[0][0] == b && x == code[0][1..] {
      assert code[0] == [b] + x;
    } else {
      TailsMembers(code[1..], b, x);
    }
  }

  lemma {:induction false} TailsPrefixFree(code: seq<Bits>, b: bool)
    requires PrefixFree(code)
    ensures PrefixFree(Tails(code, b))
  {
    if code != [] {
      TailsPrefixFree(code[1..], b);
      if code[0] != [] && code[0][0] == b {
        forall x | x in Tails(code[1..], b) ensures !Comparable(code[0][1..], x) {
          TailsMembers(code[1..], b, x);
          assert !Comparable(code[0], [b] + x);
        }
        assert Tails(code, b)[1..] == Tails(code[1..], b);
      } else {
        assert Tails(code, b) == Tails(code[1..], b);
      }
    }
  }

  predicate Within(code: seq<Bits>, d: nat) {
    forall x :: x in code ==> |x| <= d
  }

  /** Kraft's sum of a code, in units of 2^-d. */
  function KraftSum(code: seq<Bits>, d: nat): nat
    requires Within(code, d)
  {
    if code == [] then 0 else Pow2(d - |code[0]|) + KraftSum(code[1..], d)
  }

  lemma {:induction false} KraftSumIsKraft(code: seq<Bits>, d: nat)
    requires Within(code, d)
    ensures Bounded(Lengths(code), d) && Kraft(Lengths(code), d) == KraftSum(code, d)
  {
    if code != [] {
      KraftSumIsKraft(code[1..], d);
      assert Lengths(code) == [|code[0]|] + Lengths(code[1..]);
      KraftConcat([|code[0]|], Lengths(code[1..]), d);
      SumSmall(Pow2(d - |code[0]|), 0);
      assert Powers([|code[0]|], d) == [Pow2(d - |code[0]|)];
    }
  }

  lemma TailsWithin(code: seq<Bits>, b: bool, d: nat)
    requires d > 0 && Within(code, d)
    ensures Within(Tails(code, b), d - 1)
  {
    forall x | x in Tails(code, b) ensures |x| <= d - 1 {
      TailsMembers(code, b, x);
    }
  }

  lemma {:induction false} KraftSplits(code: seq<Bits>, d: nat)
    requires d > 0 && [] !in code && Within(code, d)
    ensures Within(Tails(code, false), d - 1) && Within(Tails(code, true), d - 1)
    ensures KraftSum(code, d) == KraftSum(Tails(code, false), d - 1) + KraftSum(Tails(code, true), d - 1)
  {
    TailsWithin(code, false, d);
    TailsWithin(code, true, d);
    if code != [] {
      var b := code[0][0];
      KraftSplits(code[1..], d);
      assert Tails(code, !b) == Tails(code[1..], !b);
      assert Tails(code, b)[0] == code[0][1..] && Tails(code, b)[1..] == Tails(code[1..], b);
    }
  }

  lemma {:induction false} NeverComparable(code: seq<Bits>, i: nat, j: nat)
    requires PrefixFree(code) && i < j < |code|
    ensures !Comparable(code[i], code[j])
  {
    if i == 0 {
      assert code[j] == code[1..][j - 1];
    } else {
      NeverComparable(code[1..], i - 1, j - 1);
    }
  }

  lemma EmptyWordIsAlone(code: seq<Bits>)
    requires PrefixFree(code) && [] in code
    ensures code == [[]]
  {
    var i :| 0 <= i < |code| && code[i] == [];
    if i > 0 {
      NeverComparable(code, 0, i);
    } else if |code| > 1 {
      NeverComparable(code, 0, 1);
    }
  }

  /** Kraft's inequality. */
  lemma {:induction false} KraftInequality(code: seq<Bits>, d: nat)
    requires PrefixFree(code) && Within(code, d)
    ensures KraftSum(code, d) <= Pow2(d)
    decreases d
  {
    if [] in code {
      EmptyWordIsAlone(code);
    } else if code != [] {
      assert code[0] in code && |code[0]| > 0;
      KraftSplits(code, d);
      TailsPrefixFree(code, false);
      TailsPrefixFree(code, true);
      KraftInequality(Tails(code, false), d - 1);
      KraftInequality(Tails(code, true), d - 1);
    }
  }

  function Longest(code: seq<Bits>): (d: nat)
    ensures Within(code, d)
  {
    if code == [] then 0
    else
      var d := Longest(code[1..]);
      if |code[0]| > d then |code[0]| else d
  }

  /** Huffman's tree has the least weighted path length of all prefix-free codes. */
  lemma HuffmanIsOptimal(freqs: seq<nat>, code: seq<Bits>)
    requires freqs != [] && |code| == |freqs| && PrefixFree(code)
    ensures Huffman(freqs).Cost() <= Dot(freqs, Lengths(code))
  {
    HuffmanBeatsLengths(freqs);
    KraftInequality(code, Longest(code));
    KraftSumIsKraft(code, Longest(code));
    assert CodeLengths(Lengths(code), Longest(code));
  }
}
