/**
  The code tables of src/ectrie/huffman.h: codewords are the paths of the tree, decoding
  walks it, and the reverse table answers the same question by one look-up.
 */
module HuffmanCodes {
  import opened Binary
  import opened HuffmanTrees
  import opened HuffmanOptimal

  function Symbols(t: Tree): set<nat> {
    match t
    case Leaf(s, _) => {s}
    case Join(l, r) => Symbols(l) + Symbols(r)
  }

  /** No symbol on two leaves. */
  predicate Distinct(t: Tree) {
    match t
    case Leaf(_, _) => true
    case Join(l, r) => Distinct(l) && Distinct(r) && Symbols(l) !! Symbols(r)
  }

  /** The codeword of a symbol: its path, false to the left and true to the right. */
  function Code(t: Tree, s: nat): Bits
    requires s in Symbols(t)
  {
    match t
    case Leaf(_, _) => []
    case Join(l, r) => if s in Symbols(l) then [false] + Code(l, s) else [true] + Code(r, s)
  }

  datatype Decoded = Stuck | Symbol(symbol: nat, rest: Bits)

  /** huffman::decode: follow the bits from the root to a leaf. */
  function Walk(t: Tree, bits: Bits): Decoded {
    match t
    case Leaf(s, _) => Symbol(s, bits)
    case Join(l, r) => if bits == [] then Stuck else Walk(if bits[0] then r else l, bits[1..])
  }

  /** Decoding a codeword gives back its symbol and leaves the bits that follow. */
  lemma {:induction false} CodeRoundTrip(t: Tree, s: nat, rest: Bits)
    requires s in Symbols(t)
    ensures Walk(t, Code(t, s) + rest) == Symbol(s, rest)
  {
    match t
    case Leaf(_, _) => assert Code(t, s) + rest == rest;
    case Join(l, r) =>
      var next := if s in Symbols(l) then l else r;
      assert (Code(t, s) + rest)[1..] == Code(next, s) + rest;
      CodeRoundTrip(next, s, rest);
  }

  /** The codewords of two symbols are never prefixes of each other. */
  lemma CodesPrefixFree(t: Tree, a: nat, b: nat)
    requires a in Symbols(t) && b in Symbols(t) && Code(t, a) <= Code(t, b)
    ensures a == b
  {
    var rest := Code(t, b)[|Code(t, a)|..];
    CodeRoundTrip(t, a, rest);
    CodeRoundTrip(t, b, []);
    assert Code(t, a) + rest == Code(t, b) == Code(t, b) + [];
  }

  // ------------------------------------------------- the code of a symbol list

  /** ss lists every symbol of t exactly once. */
  ghost predicate Lists(ss: seq<nat>, t: Tree) {
    && (forall s :: s in ss <==> s in Symbols(t))
    && (forall i, j :: 0 <= i < j < |ss| ==> ss[i] != ss[j])
  }

  /** The codewords of the listed symbols, in that order. */
  function Table(t: Tree, ss: seq<nat>): (code: seq<Bits>)
    requires forall s :: s in ss ==> s in Symbols(t)
    ensures |code| == |ss|
  {
    seq(|ss|, i requires 0 <= i < |ss| => assert ss[i] in ss; Code(t, ss[i]))
  }

  lemma {:induction false} TablePrefixFree(t: Tree, ss: seq<nat>)
    requires forall s :: s in ss ==> s in Symbols(t)
    requires forall i, j :: 0 <= i < j < |ss| ==> ss[i] != ss[j]
    ensures PrefixFree(Table(t, ss))
  {
    if ss != [] {
      var code := Table(t, ss);
      TablePrefixFree(t, ss[1..]);
      assert code[1..] == Table(t, ss[1..]);
      forall x | x in code[1..] ensures !Comparable(code[0], x) {
        var i :| 1 <= i < |code| && code[i] == x;
        assert ss[0] in ss && ss[i] in ss && ss[0] != ss[i];
        if code[0] <= x {
          CodesPrefixFree(t, ss[0], ss[i]);
        } else if x <= code[0] {
          CodesPrefixFree(t, ss[i], ss[0]);
        }
      }
    }
  }

  /** The listed symbols that belong to one side of a join. */
  function Side(ss: seq<nat>, side: set<nat>): seq<nat> {
    if ss == [] then [] else (if ss[0] in side then [ss[0]] else []) + Side(ss[1..], side)
  }

  lemma {:induction false} SideMembers(ss: seq<nat>, side: set<nat>)
    ensures forall s :: s in Side(ss, side) <==> s in ss && s in side
  {
    if ss != [] {
      SideMembers(ss[1..], side);
      assert forall s :: s in ss <==> s == ss[0] || s in ss[1..];
    }
  }

  lemma {:induction false} SideDistinct(ss: seq<nat>, side: set<nat>)
    requires forall i, j :: 0 <= i < j < |ss| ==> ss[i] != ss[j]
    ensures forall i, j :: 0 <= i < j < |Side(ss, side)| ==> Side(ss, side)[i] != Side(ss, side)[j]
  {
    if ss != [] {
      SideDistinct(ss[1..], side);
      SideMembers(ss[1..], side);
      assert ss[0] !in ss[1..];
    }
  }

  lemma SideLists(ss: seq<nat>, t: Tree)
    requires t.Join? && Distinct(t) && Lists(ss, t)
    ensures Lists(Side(ss, Symbols(t.left)), t.left) && Lists(Side(ss, Symbols(t.right)), t.right)
  {
    SideMembers(ss, Symbols(t.left));
    SideMembers(ss, Symbols(t.right));
    SideDistinct(ss, Symbols(t.left));
    SideDistinct(ss, Symbols(t.right));
  }

  // ------------------------------------------------------- sums over symbols

  function SumOver(f: nat -> nat, ss: seq<nat>): nat {
    if ss == [] then 0 else f(ss[0]) + SumOver(f, ss[1..])
  }

  lemma {:induction false} SumSplits(f: nat -> nat, ss: seq<nat>, a: set<nat>, b: set<nat>)
    requires a !! b && forall s :: s in ss ==> s in a || s in b
    ensures SumOver(f, ss) == SumOver(f, Side(ss, a)) + SumOver(f, Side(ss, b))
  {
    if ss != [] {
      SumSplits(f, ss[1..], a, b);
      assert ss[0] in ss;
      var here, there := if ss[0] in a then a else b, if ss[0] in a then b else a;
      assert Side(ss, there) == Side(ss[1..], there);
      assert Side(ss, here)[0] == ss[0] && Side(ss, here)[1..] == Side(ss[1..], here);
    }
  }

  lemma {:induction false} SumAdds(f: nat -> nat, g: nat -> nat, h: nat -> nat, ss: seq<nat>)
    requires forall s :: s in ss ==> f(s) == g(s) + h(s)
    ensures SumOver(f, ss) == SumOver(g, ss) + SumOver(h, ss)
  {
    if ss != [] {
      assert ss[0] in ss;
      SumAdds(f, g, h, ss[1..]);
    }
  }

  lemma {:induction false} SumSame(f: nat -> nat, g: nat -> nat, ss: seq<nat>)
    requires forall s :: s in ss ==> f(s) == g(s)
    ensures SumOver(f, ss) == SumOver(g, ss)
  {
    if ss != [] {
      assert ss[0] in ss;
      SumSame(f, g, ss[1..]);
    }
  }

  lemma OneSymbol(ss: seq<nat>, t: Tree)
    requires t.Leaf? && Lists(ss, t)
    ensures ss == [t.symbol]
  {
    assert t.symbol in ss;
    assert |ss| > 1 ==> ss[0] != ss[1] && ss[1] in ss;
    forall i | 0 <= i < |ss| ensures ss[i] == t.symbol { assert ss[i] in ss; }
  }

  // ------------------------------------------------------- cost of the code

  /** Every leaf carries the weight of its symbol. */
  predicate Weighs(t: Tree, freqs: seq<nat>) {
    match t
    case Leaf(s, f) => s < |freqs| && freqs[s] == f
    case Join(l, r) => Weighs(l, freqs) && Weighs(r, freqs)
  }

  function Freq(freqs: seq<nat>): nat -> nat {
    (s: nat) => if s < |freqs| then freqs[s] else 0
  }

  /** w * k, as k additions. */
  function Times(w: nat, k: nat): nat {
    if k == 0 then 0 else w + Times(w, k - 1)
  }

  lemma {:induction false} TimesIsProduct(w: nat, k: nat)
    ensures Times(w, k) == w * k
  {
    if k > 0 { TimesIsProduct(w, k - 1); }
  }

  /** The weighted length of a symbol's codeword. */
  function Term(t: Tree, freqs: seq<nat>): nat -> nat {
    (s: nat) => if s in Symbols(t) && s < |freqs| then Times(freqs[s], |Code(t, s)|) else 0
  }

  lemma TermOfJoin(t: Tree, freqs: seq<nat>, s: nat)
    requires t.Join? && Distinct(t) && s in Symbols(t)
    ensures Term(t, freqs)(s) == Term(if s in Symbols(t.left) then t.left else t.right, freqs)(s) + Freq(freqs)(s)
  {
    assert |Code(t, s)| == 1 + |Code(if s in Symbols(t.left) then t.left else t.right, s)|;
  }

  lemma TotalOfSide(t: Tree, side: Tree, freqs: seq<nat>, ss: seq<nat>)
    requires t.Join? && Distinct(t) && (side == t.left || side == t.right)
    requires forall s :: s in ss ==> s in Symbols(side)
    ensures SumOver(Term(t, freqs), ss) == SumOver(Term(side, freqs), ss) + SumOver(Freq(freqs), ss)
  {
    forall s | s in ss ensures Term(t, freqs)(s) == Term(side, freqs)(s) + Freq(freqs)(s) {
      TermOfJoin(t, freqs, s);
    }
    SumAdds(Term(t, freqs), Term(side, freqs), Freq(freqs), ss);
  }

  lemma SumOne(f: nat -> nat, s: nat)
    ensures SumOver(f, [s]) == f(s)
  {
    assert [s][1..] == [];
  }

  lemma LeafTotal(t: Tree, freqs: seq<nat>, ss: seq<nat>)
    requires t.Leaf? && Weighs(t, freqs) && Lists(ss, t)
    ensures SumOver(Term(t, freqs), ss) == t.Cost() && SumOver(Freq(freqs), ss) == t.Weight()
  {
    OneSymbol(ss, t);
    SumOne(Term(t, freqs), t.symbol);
    SumOne(Freq(freqs), t.symbol);
  }

  /** The weighted length of the whole code is the tree's cost. */
  lemma {:induction false} CostIsTotal(t: Tree, freqs: seq<nat>, ss: seq<nat>)
    requires Distinct(t) && Weighs(t, freqs) && Lists(ss, t)
    ensures SumOver(Term(t, freqs), ss) == t.Cost()
    ensures SumOver(Freq(freqs), ss) == t.Weight()
    decreases t, 1
  {
    if t.Leaf? {
      LeafTotal(t, freqs, ss);
    } else {
      SideTotal(t, t.left, freqs, ss);
      SideTotal(t, t.right, freqs, ss);
      SumSplits(Freq(freqs), ss, Symbols(t.left), Symbols(t.right));
      SumSplits(Term(t, freqs), ss, Symbols(t.left), Symbols(t.right));
    }
  }

  lemma {:induction false} SideTotal(t: Tree, side: Tree, freqs: seq<nat>, ss: seq<nat>)
    requires t.Join? && (side == t.left || side == t.right)
    requires Distinct(t) && Weighs(t, freqs) && Lists(ss, t)
    ensures SumOver(Term(t, freqs), Side(ss, Symbols(side))) == side.Cost() + side.Weight()
    ensures SumOver(Freq(freqs), Side(ss, Symbols(side))) == side.Weight()
    decreases t, 0
  {
    SideLists(ss, t);
    CostIsTotal(side, freqs, Side(ss, Symbols(side)));
    TotalOfSide(t, side, freqs, Side(ss, Symbols(side)));
  }

  // ----------------------------------------------------- Kraft's sum is exact

  /** share gives every symbol the part of the code space its codeword takes, in units of 2^-d. */
  ghost predicate IsShare(share: nat -> nat, t: Tree, d: nat) {
    forall s :: s in Symbols(t) ==> |Code(t, s)| <= d && share(s) == Pow2(d - |Code(t, s)|)
  }

  lemma ShareOfSide(share: nat -> nat, t: Tree, side: Tree, d: nat)
    requires t.Join? && Distinct(t) && (side == t.left || side == t.right) && IsShare(share, t, d)
    ensures d > 0 && IsShare(share, side, d - 1)
  {
    AnySymbol(side);
    forall s | s in Symbols(side) ensures |Code(t, s)| == 1 + |Code(side, s)| && s in Symbols(t) {}
  }

  lemma {:induction false} AnySymbol(t: Tree)
    ensures Symbols(t) != {}
  {
    if t.Join? { AnySymbol(t.left); }
  }

  lemma LeafFillsSpace(share: nat -> nat, t: Tree, d: nat, ss: seq<nat>)
    requires t.Leaf? && Lists(ss, t) && IsShare(share, t, d)
    ensures SumOver(share, ss) == Pow2(d)
  {
    OneSymbol(ss, t);
    SumOne(share, t.symbol);
    assert t.symbol in Symbols(t) && Code(t, t.symbol) == [];
  }

  lemma HalvesFillSpace(share: nat -> nat, t: Tree, d: nat, ss: seq<nat>)
    requires t.Join? && Distinct(t) && Lists(ss, t) && d > 0
    requires SumOver(share, Side(ss, Symbols(t.left))) == Pow2(d - 1)
    requires SumOver(share, Side(ss, Symbols(t.right))) == Pow2(d - 1)
    ensures SumOver(share, ss) == Pow2(d)
  {
    SumSplits(share, ss, Symbols(t.left), Symbols(t.right));
  }

  /** Kraft's sum of the code is exactly 1: the codewords use up the code space. */
  lemma {:induction false} SharesFillSpace(share: nat -> nat, t: Tree, d: nat, ss: seq<nat>)
    requires Distinct(t) && Lists(ss, t) && IsShare(share, t, d)
    ensures SumOver(share, ss) == Pow2(d)
    decreases t, 1
  {
    if t.Leaf? {
      LeafFillsSpace(share, t, d, ss);
    } else {
      SideFillsHalf(share, t, t.left, d, ss);
      SideFillsHalf(share, t, t.right, d, ss);
      HalvesFillSpace(share, t, d, ss);
    }
  }

  lemma {:induction false} SideFillsHalf(share: nat -> nat, t: Tree, side: Tree, d: nat, ss: seq<nat>)
    requires t.Join? && (side == t.left || side == t.right)
    requires Distinct(t) && Lists(ss, t) && IsShare(share, t, d)
    ensures d > 0 && SumOver(share, Side(ss, Symbols(side))) == Pow2(d - 1)
    decreases t, 0
  {
    SideLists(ss, t);
    ShareOfSide(share, t, side, d);
    SharesFillSpace(share, side, d - 1, Side(ss, Symbols(side)));
  }

  // --------------------------------------------------- the tree that is built

  function QueueSymbols(q: seq<Tree>): set<nat> {
    if q == [] then {} else Symbols(q[0]) + QueueSymbols(q[1..])
  }

  /** Every tree in the queue is a proper code tree, and no symbol is in two of them. */
  predicate QueueOk(q: seq<Tree>, freqs: seq<nat>) {
    q != [] ==>
      && Distinct(q[0]) && Weighs(q[0], freqs)
      && Symbols(q[0]) !! QueueSymbols(q[1..])
      && QueueOk(q[1..], freqs)
  }

  lemma {:induction false} InsertOk(t: Tree, q: seq<Tree>, freqs: seq<nat>)
    requires QueueOk(q, freqs) && Distinct(t) && Weighs(t, freqs) && Symbols(t) !! QueueSymbols(q)
    ensures QueueOk(Insert(t, q), freqs)
    ensures QueueSymbols(Insert(t, q)) == Symbols(t) + QueueSymbols(q)
  {
    var r := Insert(t, q);
    if q == [] || q[0].Weight() > t.Weight() {
      assert r[1..] == q;
    } else {
      InsertOk(t, q[1..], freqs);
      assert r[0] == q[0] && r[1..] == Insert(t, q[1..]);
    }
  }

  lemma {:induction false} LeavesOk(freqs: seq<nat>, n: nat)
    requires n <= |freqs|
    ensures QueueOk(Leaves(freqs[..n]), freqs)
    ensures forall s: nat :: s in QueueSymbols(Leaves(freqs[..n])) <==> s < n
  {
    if n > 0 {
      LeavesOk(freqs, n - 1);
      assert freqs[..n][..n - 1] == freqs[..n - 1];
      InsertOk(Leaf(n - 1, freqs[n - 1]), Leaves(freqs[..n - 1]), freqs);
    } else {
      assert freqs[..n] == [];
    }
  }

  lemma {:induction false} MergeOk(q: seq<Tree>, freqs: seq<nat>)
    requires q != [] && QueueOk(q, freqs)
    ensures Distinct(Merge(q)) && Weighs(Merge(q), freqs) && Symbols(Merge(q)) == QueueSymbols(q)
    decreases |q|
  {
    if |q| == 1 {
      assert q[1..] == [];
    } else {
      assert q[1..][0] == q[1] && q[1..][1..] == q[2..];
      InsertOk(Join(q[0], q[1]), q[2..], freqs);
      MergeOk(Insert(Join(q[0], q[1]), q[2..]), freqs);
    }
  }

  /** The tree has one leaf for every symbol, carrying its weight. */
  lemma HuffmanTreeOk(freqs: seq<nat>)
    requires freqs != []
    ensures Distinct(Huffman(freqs)) && Weighs(Huffman(freqs), freqs)
    ensures forall s: nat :: s in Symbols(Huffman(freqs)) <==> s < |freqs|
  {
    assert freqs[..|freqs|] == freqs;
    LeavesOk(freqs, |freqs|);
    MergeOk(Leaves(freqs), freqs);
  }

  function AllSymbols(n: nat): (ss: seq<nat>)
    ensures |ss| == n && forall s :: s in ss <==> 0 <= s < n
  {
    if n == 0 then [] else AllSymbols(n - 1) + [n - 1]
  }

  lemma {:induction false} AllSymbolsAt(n: nat, i: nat)
    requires i < n
    ensures AllSymbols(n)[i] == i
  {
    if i < n - 1 { AllSymbolsAt(n - 1, i); }
  }

  /** The table of generate: the codeword of every symbol. */
  function HuffmanCode(freqs: seq<nat>): (code: seq<Bits>)
    requires freqs != []
    ensures |code| == |freqs|
  {
    HuffmanTreeOk(freqs);
    Table(Huffman(freqs), AllSymbols(|freqs|))
  }

  lemma AllSymbolsDistinct(n: nat)
    ensures forall i, j :: 0 <= i < j < n ==> AllSymbols(n)[i] != AllSymbols(n)[j]
  {
    forall i, j | 0 <= i < j < n ensures AllSymbols(n)[i] != AllSymbols(n)[j] {
      AllSymbolsAt(n, i);
      AllSymbolsAt(n, j);
    }
  }

  lemma AllSymbolsListed(freqs: seq<nat>)
    requires freqs != []
    ensures Lists(AllSymbols(|freqs|), Huffman(freqs))
  {
    HuffmanTreeOk(freqs);
    AllSymbolsListedIn(Huffman(freqs), |freqs|);
  }

  lemma AllSymbolsListedIn(t: Tree, n: nat)
    requires forall s: nat :: s in Symbols(t) <==> s < n
    ensures Lists(AllSymbols(n), t)
  {
    AllSymbolsDistinct(n);
  }

  lemma {:induction false} SumOverIsSum(f: nat -> nat, ss: seq<nat>, terms: seq<nat>)
    requires |terms| == |ss| && forall i :: 0 <= i < |ss| ==> terms[i] == f(ss[i])
    ensures SumOver(f, ss) == Sum(terms)
  {
    if ss != [] { SumOverIsSum(f, ss[1..], terms[1..]); }
  }

  lemma HuffmanCodeCost(freqs: seq<nat>)
    requires freqs != []
    ensures Dot(freqs, Lengths(HuffmanCode(freqs))) == Huffman(freqs).Cost()
  {
    var t, n, ss := Huffman(freqs), |freqs|, AllSymbols(|freqs|);
    HuffmanTreeOk(freqs);
    AllSymbolsListed(freqs);
    CostIsTotal(t, freqs, ss);
    forall i | 0 <= i < n ensures Products(freqs, Lengths(HuffmanCode(freqs)))[i] == Term(t, freqs)(ss[i]) {
      AllSymbolsAt(n, i);
      TimesIsProduct(freqs[i], |Code(t, i)|);
    }
    SumOverIsSum(Term(t, freqs), ss, Products(freqs, Lengths(HuffmanCode(freqs))));
  }

  /** The code of generate is prefix-free, and no prefix-free code is cheaper. */
  lemma HuffmanCodeIsOptimal(freqs: seq<nat>, other: seq<Bits>)
    requires freqs != [] && |other| == |freqs| && PrefixFree(other)
    ensures PrefixFree(HuffmanCode(freqs))
    ensures Dot(freqs, Lengths(HuffmanCode(freqs))) <= Dot(freqs, Lengths(other))
  {
    HuffmanTreeOk(freqs);
    AllSymbolsListed(freqs);
    TablePrefixFree(Huffman(freqs), AllSymbols(|freqs|));
    HuffmanCodeCost(freqs);
    HuffmanIsOptimal(freqs, other);
  }

  lemma {:induction false} KraftSumOfTable(share: nat -> nat, t: Tree, ss: seq<nat>, d: nat)
    requires (forall s :: s in ss ==> s in Symbols(t)) && IsShare(share, t, d)
    ensures Within(Table(t, ss), d) && KraftSum(Table(t, ss), d) == SumOver(share, ss)
  {
    if ss != [] {
      KraftSumOfTable(share, t, ss[1..], d);
      assert ss[0] in ss;
      assert Table(t, ss)[0] == Code(t, ss[0]) && Table(t, ss)[1..] == Table(t, ss[1..]);
      WithinFront(Table(t, ss), d);
    }
  }

  lemma WithinFront(code: seq<Bits>, d: nat)
    requires code != [] && |code[0]| <= d && Within(code[1..], d)
    ensures Within(code, d) && KraftSum(code, d) == Pow2(d - |code[0]|) + KraftSum(code[1..], d)
  {
  }

  /** The code of generate is complete: its Kraft sum is exactly 1. */
  lemma HuffmanCodeIsComplete(freqs: seq<nat>, d: nat)
    requires freqs != [] && Within(HuffmanCode(freqs), d)
    ensures KraftSum(HuffmanCode(freqs), d) == Pow2(d)
  {
    var t, ss := Huffman(freqs), AllSymbols(|freqs|);
    HuffmanTreeOk(freqs);
    AllSymbolsListed(freqs);
    forall s | s in Symbols(t) ensures |Code(t, s)| <= d {
      AllSymbolsAt(|freqs|, s);
      assert HuffmanCode(freqs)[s] in HuffmanCode(freqs);
    }
    var share := SomeShare(t, d);
    SharesFillSpace(share, t, d, ss);
    KraftSumOfTable(share, t, ss, d);
  }

  lemma SomeShare(t: Tree, d: nat) returns (share: nat -> nat)
    requires forall s :: s in Symbols(t) ==> |Code(t, s)| <= d
    ensures IsShare(share, t, d)
  {
    share := (s: nat) => if s in Symbols(t) && |Code(t, s)| <= d then Pow2(d - |Code(t, s)|) else 0;
  }
}
