/** The arrays of src/ectrie/huffman.h and the loops that fill and read them. */
module HuffmanTables {
  import opened Binary
  import opened BitVectors
  import opened HuffmanTrees
  import opened HuffmanCodes

  // -------------------------------------------------------- the tree as an array

  /** m joins have been written: the children of reference n + k are nodes[2k] and nodes[2k+1]. */
  ghost predicate Built(nodes: seq<nat>, n: nat, m: nat) {
    && 2 * m <= |nodes|
    && forall k :: 0 <= k < m ==> nodes[2 * k] < n + k && nodes[2 * k + 1] < n + k
  }

  /** The tree a reference stands for; references below n are symbols. */
  ghost function TreeAt(nodes: seq<nat>, freqs: seq<nat>, m: nat, ref: nat): Tree
    requires Built(nodes, |freqs|, m) && ref < |freqs| + m
    decreases ref
  {
    if ref < |freqs| then Leaf(ref, freqs[ref])
    else
      var k := ref - |freqs|;
      Join(TreeAt(nodes, freqs, m, nodes[2 * k]), TreeAt(nodes, freqs, m, nodes[2 * k + 1]))
  }

  lemma {:induction false} TreeAtStable(nodes: seq<nat>, nodes': seq<nat>, freqs: seq<nat>, m: nat, m': nat, ref: nat)
    requires Built(nodes, |freqs|, m) && Built(nodes', |freqs|, m') && m <= m' && ref < |freqs| + m
    requires nodes[..2 * m] == nodes'[..2 * m]
    ensures TreeAt(nodes', freqs, m', ref) == TreeAt(nodes, freqs, m, ref)
    decreases ref
  {
    if ref >= |freqs| {
      var k := ref - |freqs|;
      assert nodes[2 * k] == nodes[..2 * m][2 * k] && nodes[2 * k + 1] == nodes[..2 * m][2 * k + 1];
      TreeAtStable(nodes, nodes', freqs, m, m', nodes[2 * k]);
      TreeAtStable(nodes, nodes', freqs, m, m', nodes[2 * k + 1]);
    }
  }

  // -------------------------------------------------------------------- generate

  /** One entry of the multimap: weight and reference. */
  type Entry = (nat, nat)

  function InsertEntry(e: Entry, q: seq<Entry>): (r: seq<Entry>)
    ensures |r| == |q| + 1
  {
    if q == [] || q[0].0 > e.0 then [e] + q else [q[0]] + InsertEntry(e, q[1..])
  }

  /** The queue's references stand for these trees. */
  ghost predicate Stands(q: seq<Entry>, trees: seq<Tree>, nodes: seq<nat>, freqs: seq<nat>, m: nat)
    requires Built(nodes, |freqs|, m)
  {
    && |q| == |trees|
    && forall i :: 0 <= i < |q| ==>
         q[i].1 < |freqs| + m && TreeAt(nodes, freqs, m, q[i].1) == trees[i] && q[i].0 == trees[i].Weight()
  }

  lemma {:induction false} InsertStands(e: Entry, t: Tree, q: seq<Entry>, trees: seq<Tree>,
                                        nodes: seq<nat>, freqs: seq<nat>, m: nat)
    requires Built(nodes, |freqs|, m) && Stands(q, trees, nodes, freqs, m)
    requires e.1 < |freqs| + m && TreeAt(nodes, freqs, m, e.1) == t && e.0 == t.Weight()
    ensures Stands(InsertEntry(e, q), Insert(t, trees), nodes, freqs, m)
    decreases |q|
  {
    if q != [] && q[0].0 <= e.0 {
      InsertStands(e, t, q[1..], trees[1..], nodes, freqs, m);
    }
  }

  lemma StandsStable(q: seq<Entry>, trees: seq<Tree>, nodes: seq<nat>, nodes': seq<nat>, freqs: seq<nat>, m: nat,
      m': nat)
    requires Built(nodes, |freqs|, m) && Built(nodes', |freqs|, m') && m <= m' && nodes[..2 * m] == nodes'[..2 * m]
    requires Stands(q, trees, nodes, freqs, m)
    ensures Stands(q, trees, nodes', freqs, m')
  {
    forall i | 0 <= i < |q| ensures TreeAt(nodes', freqs, m', q[i].1) == trees[i] {
      TreeAtStable(nodes, nodes', freqs, m, m', q[i].1);
    }
  }

  /** generate's second loop body: the two lightest trees become the children of a new reference. */
  lemma JoinStands(q: seq<Entry>, trees: seq<Tree>, nodes: seq<nat>, nodes': seq<nat>, freqs: seq<nat>, m: nat)
    requires Built(nodes, |freqs|, m) && Stands(q, trees, nodes, freqs, m) && |q| >= 2
    requires |nodes'| >= 2 * m + 2 && nodes'[..2 * m] == nodes[..2 * m]
    requires nodes'[2 * m] == q[0].1 && nodes'[2 * m + 1] == q[1].1
    ensures Built(nodes', |freqs|, m + 1)
    ensures Stands(InsertEntry((q[0].0 + q[1].0, |freqs| + m), q[2..]), Insert(Join(trees[0], trees[1]), trees[2..]),
                   nodes', freqs, m + 1)
  {
    forall k | 0 <= k < m ensures nodes'[2 * k] == nodes[2 * k] && nodes'[2 * k + 1] == nodes[2 * k + 1] {
      assert nodes'[..2 * m][2 * k] == nodes[..2 * m][2 * k];
      assert nodes'[..2 * m][2 * k + 1] == nodes[..2 * m][2 * k + 1];
    }
    StandsStable(q, trees, nodes, nodes', freqs, m, m + 1);
    InsertStands((q[0].0 + q[1].0, |freqs| + m), Join(trees[0], trees[1]), q[2..], trees[2..], nodes', freqs, m + 1);
  }

  /** The state of generate between two turns of its second loop, with m joins made. */
  ghost predicate Merging(q: seq<Entry>, trees: seq<Tree>, nodes: seq<nat>, freqs: seq<nat>, n: nat, m: nat) {
    && 1 <= n <= |freqs| && m < n && |q| == |trees| == n - m
    && Built(nodes, n, m) && Stands(q, trees, nodes, freqs[..n], m)
    && (forall i :: 0 <= i < |q| ==> q[i].1 < |freqs| && freqs[q[i].1] == q[i].0)
    && Has(q, n + m - 1)
  }

  /** The newest reference is in the queue. */
  ghost predicate Has(q: seq<Entry>, ref: int) {
    exists i :: 0 <= i < |q| && q[i].1 == ref
  }

  lemma {:induction false} InsertHas(e: Entry, q: seq<Entry>)
    ensures Has(InsertEntry(e, q), e.1)
  {
    if q == [] || q[0].0 > e.0 {
      assert InsertEntry(e, q)[0] == e;
    } else {
      InsertHas(e, q[1..]);
      var i :| 0 <= i <= |q[1..]| && InsertEntry(e, q[1..])[i].1 == e.1;
      assert InsertEntry(e, q)[i + 1].1 == e.1;
    }
  }

  lemma MergingStep(q: seq<Entry>, trees: seq<Tree>, nodes: seq<nat>, nodes': seq<nat>,
                    freqs: seq<nat>, freqs': seq<nat>, n: nat, m: nat)
    requires m + 1 < n && |freqs| == 2 * n - 1 && Merging(q, trees, nodes, freqs, n, m)
    requires |nodes'| >= 2 * m + 2 && nodes'[..2 * m] == nodes[..2 * m]
    requires nodes'[2 * m] == q[0].1 && nodes'[2 * m + 1] == q[1].1
    requires freqs' == freqs[n + m := q[0].0 + q[1].0]
    ensures Merging(InsertEntry((q[0].0 + q[1].0, n + m), q[2..]), Insert(Join(trees[0], trees[1]), trees[2..]),
                    nodes', freqs', n, m + 1)
  {
    var e := (q[0].0 + q[1].0, n + m);
    assert freqs'[..n] == freqs[..n];
    JoinStands(q, trees, nodes, nodes', freqs[..n], m);
    EntriesKeep(freqs', e, q[2..]);
    InsertHas(e, q[2..]);
  }

  /** One turn: the two lightest trees come off the queue, their join goes back. */
  method JoinLightest(freqs: array<nat>, nodes: array<nat>, n: nat, m: nat, q: seq<Entry>, ghost trees: seq<Tree>)
    returns (q': seq<Entry>)
    requires freqs.Length == 2 * n - 1 && nodes.Length == 2 * (n - 1) && freqs != nodes
    requires m + 1 < n && Merging(q, trees, nodes[..], freqs[..], n, m)
    modifies freqs, nodes
    ensures freqs[..n] == old(freqs[..n])
    ensures Merging(q', Insert(Join(trees[0], trees[1]), trees[2..]), nodes[..], freqs[..], n, m + 1)
  {
    var left, right := q[0].1, q[1].1;
    var freq := freqs[left] + freqs[right];
    freqs[n + m] := freq;
    nodes[2 * m] := left;
    nodes[2 * m + 1] := right;
    q' := InsertEntry((freq, n + m), q[2..]);
    assert nodes[..][..2 * m] == old(nodes[..])[..2 * m];
    MergingStep(q, trees, old(nodes[..]), nodes[..], old(freqs[..]), freqs[..], n, m);
  }

  /** huffman_tree_generator::generate. */
  method Generate(freqs: array<nat>, nodes: array<nat>, n: nat)
    requires n >= 1 && freqs.Length == 2 * n - 1 && nodes.Length == 2 * (n - 1) && freqs != nodes
    modifies freqs, nodes
    ensures freqs[..n] == old(freqs[..n])
    ensures Built(nodes[..], n, n - 1)
    ensures TreeAt(nodes[..], freqs[..n], n - 1, 2 * n - 2) == Huffman(freqs[..n])
  {
    ghost var w := freqs[..n];
    var q := FirstLoop(freqs, nodes, n);
    ghost var trees := Leaves(w);
    assert freqs[..][..n] == w;
    for m := 0 to n - 1
      invariant freqs[..n] == w && Merging(q, trees, nodes[..], freqs[..], n, m) && Merge(trees) == Huffman(w)
    {
      q := JoinLightest(freqs, nodes, n, m, q, trees);
      trees := Insert(Join(trees[0], trees[1]), trees[2..]);
    }
    assert freqs[..][..n] == w;
    LastStands(q, trees, nodes[..], w, n);
  }

  lemma LastStands(q: seq<Entry>, trees: seq<Tree>, nodes: seq<nat>, w: seq<nat>, n: nat)
    requires n == |w| >= 1 && |q| == 1 && Has(q, 2 * n - 2) && Built(nodes, n, n - 1)
    requires Stands(q, trees, nodes, w, n - 1)
    ensures TreeAt(nodes, w, n - 1, 2 * n - 2) == Merge(trees)
  {
  }

  lemma {:induction false} EntriesKeep(freqs: seq<nat>, e: Entry, q: seq<Entry>)
    requires e.1 < |freqs| && freqs[e.1] == e.0
    requires forall i :: 0 <= i < |q| ==> q[i].1 < |freqs| && freqs[q[i].1] == q[i].0
    ensures forall i :: 0 <= i <= |q| ==>
      InsertEntry(e, q)[i].1 < |freqs| && freqs[InsertEntry(e, q)[i].1] == InsertEntry(e, q)[i].0
  {
    if q != [] && q[0].0 <= e.0 { EntriesKeep(freqs, e, q[1..]); }
  }

  method FirstLoop(freqs: array<nat>, nodes: array<nat>, n: nat) returns (q: seq<Entry>)
    requires n >= 1 && freqs.Length == 2 * n - 1
    ensures Built(nodes[..], n, 0) && Stands(q, Leaves(freqs[..n]), nodes[..], freqs[..n], 0)
    ensures forall i :: 0 <= i < |q| ==> q[i].1 < n && freqs[q[i].1] == q[i].0
    ensures |q| == n && Has(q, n - 1)
  {
    q := [];
    var ref := 0;
    ghost var w := freqs[..n];
    while ref < n
      invariant 0 <= ref <= n && |q| == ref
      invariant Stands(q, Leaves(w[..ref]), nodes[..], w, 0)
      invariant forall i :: 0 <= i < |q| ==> q[i].1 < n && freqs[q[i].1] == q[i].0
      invariant ref > 0 ==> Has(q, ref - 1)
    {
      InsertHas((freqs[ref], ref), q);
      assert w[..ref + 1][..ref] == w[..ref];
      InsertStands((freqs[ref], ref), Leaf(ref, w[ref]), q, Leaves(w[..ref]), nodes[..], w, 0);
      EntriesKeep(freqs[..n], (freqs[ref], ref), q);
      q := InsertEntry((freqs[ref], ref), q);
      ref := ref + 1;
    }
    assert w[..n] == w;
  }

  // --------------------------------------------------------------- code table

  function Height(t: Tree): nat {
    match t
    case Leaf(_, _) => 0
    case Join(l, r) => 1 + if Height(l) > Height(r) then Height(l) else Height(r)
  }

  lemma {:induction false} HeightBound(t: Tree)
    requires Distinct(t)
    ensures Height(t) < |Symbols(t)|
  {
    if t.Join? {
      HeightBound(t.left);
      HeightBound(t.right);
      assert |Symbols(t.left) + Symbols(t.right)| == |Symbols(t.left)| + |Symbols(t.right)|;
    }
  }

  lemma {:induction false} CountBelow(s: set<nat>, n: nat)
    requires forall x :: x in s ==> x < n
    ensures |s| <= n
  {
    if n > 0 {
      CountBelow(s - {n - 1}, n - 1);
    } else {
      assert s == {};
    }
  }

  lemma {:induction false} TreeAtSymbols(nodes: seq<nat>, w: seq<nat>, m: nat, ref: nat)
    requires Built(nodes, |w|, m) && ref < |w| + m
    ensures forall s :: s in Symbols(TreeAt(nodes, w, m, ref)) ==> s < |w|
    decreases ref
  {
    if ref >= |w| {
      TreeAtSymbols(nodes, w, m, nodes[2 * (ref - |w|)]);
      TreeAtSymbols(nodes, w, m, nodes[2 * (ref - |w|) + 1]);
    }
  }

  /** The code table after the codewords of t, reached along prefix, have been filled in. */
  ghost function Filled(codes: seq<Bits>, t: Tree, prefix: Bits): (r: seq<Bits>)
    ensures |r| == |codes|
  {
    seq(|codes|, s requires 0 <= s < |codes| => if s in Symbols(t) then prefix + Code(t, s) else codes[s])
  }

  lemma FilledJoin(codes: seq<Bits>, t: Tree, prefix: Bits)
    requires t.Join? && Distinct(t)
    ensures Filled(codes, t, prefix) == Filled(Filled(codes, t.left, prefix + [false]), t.right, prefix + [true])
  {
    forall s | 0 <= s < |codes|
      ensures Filled(codes, t, prefix)[s] == Filled(Filled(codes, t.left, prefix + [false]), t.right,
        prefix + [true])[s]
    {
      if s in Symbols(t.left) {
        assert prefix + ([false] + Code(t.left, s)) == (prefix + [false]) + Code(t.left, s);
      } else if s in Symbols(t.right) {
        assert prefix + ([true] + Code(t.right, s)) == (prefix + [true]) + Code(t.right, s);
      }
    }
  }

  /** huffman_table::generate: prefix[..depth] is the path to p. */
  method GenerateCodes(nodes: seq<nat>, ghost w: seq<nat>, n: nat, p: nat, prefix: array<bool>, depth: nat,
      codes: array<Bits>)
    requires n == |w| >= 1 && Built(nodes, n, n - 1) && p < 2 * n - 1 && codes.Length == n
    requires Distinct(TreeAt(nodes, w, n - 1, p)) && depth + Height(TreeAt(nodes, w, n - 1, p)) <= prefix.Length
    modifies prefix, codes
    ensures prefix[..depth] == old(prefix[..depth])
    ensures codes[..] == Filled(old(codes[..]), TreeAt(nodes, w, n - 1, p), old(prefix[..depth]))
    decreases p
  {
    ghost var t, path := TreeAt(nodes, w, n - 1, p), prefix[..depth];
    if p < n {
      codes[p] := prefix[..depth];
      assert path + [] == path;
    } else {
      FilledJoin(codes[..], t, path);
      prefix[depth] := false;
      assert prefix[..depth + 1] == path + [false];
      GenerateCodes(nodes, w, n, nodes[2 * (p - n)], prefix, depth + 1, codes);
      assert prefix[..depth] == prefix[..depth + 1][..depth] == path;
      prefix[depth] := true;
      assert prefix[..depth + 1] == path + [true];
      GenerateCodes(nodes, w, n, nodes[2 * (p - n) + 1], prefix, depth + 1, codes);
      assert prefix[..depth] == prefix[..depth + 1][..depth] == path;
    }
  }

  /** The constructor of huffman_table, on the tree of generate. */
  method CodeTable(nodes: seq<nat>, w: seq<nat>) returns (codes: array<Bits>)
    requires w != [] && Built(nodes, |w|, |w| - 1) && TreeAt(nodes, w, |w| - 1, 2 * |w| - 2) == Huffman(w)
    ensures codes[..] == HuffmanCode(w)
  {
    var n := |w|;
    codes := new Bits[n];
    var prefix := new bool[n];
    HuffmanTreeOk(w);
    HeightBound(Huffman(w));
    CountBelow(Symbols(Huffman(w)), n);
    GenerateCodes(nodes, w, n, 2 * n - 2, prefix, 0, codes);
    forall s | 0 <= s < n ensures codes[s] == HuffmanCode(w)[s] {
      AllSymbolsAt(n, s);
      assert codes[s] == codes[..][s] == [] + Code(Huffman(w), s);
    }
  }

  // ------------------------------------------------------------- reverse table

  /** What the table holds for the k bits of v below a tree at the given depth: symbol and code length. */
  function RevEntry(t: Tree, v: nat, k: nat, depth: nat): (nat, nat)
    requires v < Pow2(k) && Height(t) <= k
  {
    match t
    case Leaf(s, _) => (s, depth)
    case Join(l, r) =>
      if v < Pow2(k - 1) then RevEntry(l, v, k - 1, depth + 1) else RevEntry(r, v - Pow2(k - 1), k - 1, depth + 1)
  }

  /** One look-up gives what the walk over the same bits gives, on every bit pattern. */
  lemma {:induction false} RevEntryIsWalk(t: Tree, v: nat, k: nat, depth: nat)
    requires v < Pow2(k) && Height(t) <= k
    ensures depth <= RevEntry(t, v, k, depth).1 <= depth + k
    ensures Walk(t, BitsOf(v, k)) ==
      Symbol(RevEntry(t, v, k, depth).0, BitsOf(v, k)[RevEntry(t, v, k, depth).1 - depth..])
  {
    if t.Join? {
      var high := v >= Pow2(k - 1);
      var t', v' := if high then t.right else t.left, if high then v - Pow2(k - 1) else v;
      RevEntryIsWalk(t', v', k - 1, depth + 1);
      assert BitsOf(v, k)[0] == high && BitsOf(v, k)[1..] == BitsOf(v', k - 1);
      var used := RevEntry(t, v, k, depth).1 - depth;
      assert BitsOf(v, k)[used..] == BitsOf(v', k - 1)[used - 1..];
    }
  }

  /** refs and lengths hold the entries of t from base on. */
  ghost predicate HoldsEntries(refs: seq<nat>, lengths: seq<nat>, t: Tree, base: nat, k: nat, depth: nat) {
    && Height(t) <= k && base + Pow2(k) <= |refs| == |lengths|
    && forall v :: 0 <= v < Pow2(k) ==> (refs[base + v], lengths[base + v]) == RevEntry(t, v, k, depth)
  }

  ghost predicate SameOutside(s: seq<nat>, s': seq<nat>, base: nat, len: nat) {
    |s| == |s'| && forall i :: 0 <= i < |s| && !(base <= i < base + len) ==> s[i] == s'[i]
  }

  lemma JoinEntries(refs: seq<nat>, lengths: seq<nat>, t: Tree, base: nat, k: nat, depth: nat)
    requires t.Join? && k > 0
    requires HoldsEntries(refs, lengths, t.left, base, k - 1, depth + 1)
    requires HoldsEntries(refs, lengths, t.right, base + Pow2(k - 1), k - 1, depth + 1)
    ensures HoldsEntries(refs, lengths, t, base, k, depth)
  {
    forall v | 0 <= v < Pow2(k) ensures (refs[base + v], lengths[base + v]) == RevEntry(t, v, k, depth) {
      if v >= Pow2(k - 1) {
        var v' := v - Pow2(k - 1);
        assert (refs[base + Pow2(k - 1) + v'], lengths[base + Pow2(k - 1) + v'])
          == RevEntry(t.right, v', k - 1, depth + 1);
      }
    }
  }

  lemma EntriesStay(refs: seq<nat>, lengths: seq<nat>, refs': seq<nat>, lengths': seq<nat>,
                    t: Tree, base: nat, k: nat, depth: nat)
    requires HoldsEntries(refs, lengths, t, base, k, depth)
    requires SameOutside(refs, refs', base + Pow2(k), Pow2(k))
    requires SameOutside(lengths, lengths', base + Pow2(k), Pow2(k))
    ensures HoldsEntries(refs', lengths', t, base, k, depth)
  {
  }

  lemma ShiftLeft(prefix: nat, k: nat)
    requires k > 0
    ensures (prefix * 2) * Pow2(k - 1) == prefix * Pow2(k)
    ensures (prefix * 2 + 1) * Pow2(k - 1) == prefix * Pow2(k) + Pow2(k - 1)
  {
  }

  /** huffman_rev_table::fill_table's loop at a leaf. */
  method FillLeaf(symbol: nat, base: nat, count: nat, depth: nat, refs: array<nat>, lengths: array<nat>)
    requires base + count <= refs.Length == lengths.Length && refs != lengths
    modifies refs, lengths
    ensures forall v :: base <= v < base + count ==> refs[v] == symbol && lengths[v] == depth
    ensures SameOutside(old(refs[..]), refs[..], base, count) && SameOutside(old(lengths[..]), lengths[..], base, count)
  {
    for k := 0 to count
      invariant forall v :: base <= v < base + k ==> refs[v] == symbol && lengths[v] == depth
      invariant forall v :: 0 <= v < refs.Length && !(base <= v < base + k) ==>
        refs[v] == old(refs[v]) && lengths[v] == old(lengths[v])
    {
      refs[base + k] := symbol;
      lengths[base + k] := depth;
    }
  }

  /** 1 << padding. */
  method ShiftOne(padding: nat) returns (r: nat)
    ensures r == Pow2(padding)
  {
    r := 1;
    for i := 0 to padding
      invariant r == Pow2(i)
    {
      r := 2 * r;
    }
  }

  /** What fill_table leaves behind: the entries of t from base on, and nothing else changed. */
  ghost predicate Entered(t: Tree, base: nat, k: nat, depth: nat,
                          refs: seq<nat>, lengths: seq<nat>, refs': seq<nat>, lengths': seq<nat>) {
    && HoldsEntries(refs', lengths', t, base, k, depth)
    && SameOutside(refs, refs', base, Pow2(k)) && SameOutside(lengths, lengths', base, Pow2(k))
  }

  lemma EnteredJoin(t: Tree, base: nat, k: nat, depth: nat, refs: seq<nat>, lengths: seq<nat>,
                    refs1: seq<nat>, lengths1: seq<nat>, refs2: seq<nat>, lengths2: seq<nat>)
    requires t.Join? && k > 0
    requires Entered(t.left, base, k - 1, depth + 1, refs, lengths, refs1, lengths1)
    requires Entered(t.right, base + Pow2(k - 1), k - 1, depth + 1, refs1, lengths1, refs2, lengths2)
    ensures Entered(t, base, k, depth, refs, lengths, refs2, lengths2)
  {
    EntriesStay(refs1, lengths1, refs2, lengths2, t.left, base, k - 1, depth + 1);
    JoinEntries(refs2, lengths2, t, base, k, depth);
  }

  /** huffman_rev_table::fill_table; base is where the entries of p begin. */
  method FillTable(nodes: seq<nat>, ghost w: seq<nat>, n: nat, p: nat, prefix: nat, depth: nat, maxLength: nat,
                   refs: array<nat>, lengths: array<nat>, ghost base: nat, ghost k: nat)
    requires n == |w| >= 1 && Built(nodes, n, n - 1) && p < 2 * n - 1 && refs != lengths
    requires maxLength == depth + k && Height(TreeAt(nodes, w, n - 1, p)) <= k
    requires base == prefix * Pow2(k) && base + Pow2(k) <= refs.Length == lengths.Length
    modifies refs, lengths
    ensures Entered(TreeAt(nodes, w, n - 1, p), base, k, depth, old(refs[..]), old(lengths[..]), refs[..], lengths[..])
    decreases p
  {
    if p < n {
      var count := ShiftOne(maxLength - depth);
      FillLeaf(p, prefix * count, count, depth, refs, lengths);
    } else {
      ghost var t, half := TreeAt(nodes, w, n - 1, p), Pow2(k - 1);
      ShiftLeft(prefix, k);
      FillTable(nodes, w, n, nodes[2 * (p - n)], prefix * 2, depth + 1, maxLength, refs, lengths, base, k - 1);
      ghost var refs1, lengths1 := refs[..], lengths[..];
      FillTable(nodes, w, n, nodes[2 * (p - n) + 1], prefix * 2 + 1, depth + 1, maxLength, refs, lengths, base + half,
        k - 1);
      EnteredJoin(t, base, k, depth, old(refs[..]), old(lengths[..]), refs1, lengths1, refs[..], lengths[..]);
    }
  }

  /** huffman_rev_table::find_max_length. */
  method FindMaxLength(nodes: seq<nat>, ghost w: seq<nat>, n: nat, p: nat, depth: nat, soFar: nat)
    returns (maxLength: nat)
    requires n == |w| >= 1 && Built(nodes, n, n - 1) && p < 2 * n - 1
    ensures maxLength == var d := depth + Height(TreeAt(nodes, w, n - 1, p)); if d > soFar then d else soFar
    decreases p
  {
    if p < n {
      maxLength := if soFar < depth then depth else soFar;
    } else {
      maxLength := FindMaxLength(nodes, w, n, nodes[2 * (p - n)], depth + 1, soFar);
      maxLength := FindMaxLength(nodes, w, n, nodes[2 * (p - n) + 1], depth + 1, maxLength);
    }
  }

  /** The constructor of huffman_rev_table: look up any maxLength bits and get what the
      tree walk over them gives. */
  method ReverseTable(nodes: seq<nat>, ghost w: seq<nat>, n: nat)
    returns (maxLength: nat, refs: array<nat>, lengths: array<nat>)
    requires n == |w| >= 1 && Built(nodes, n, n - 1)
    ensures refs.Length == lengths.Length == Pow2(maxLength)
    ensures forall v: nat :: v < Pow2(maxLength) ==>
      && lengths[v] <= maxLength
      && Walk(TreeAt(nodes, w, n - 1, 2 * n - 2), BitsOf(v, maxLength))
        == Symbol(refs[v], BitsOf(v, maxLength)[lengths[v]..])
  {
    maxLength := FindMaxLength(nodes, w, n, 2 * n - 2, 0, 0);
    var size := ShiftOne(maxLength);
    refs, lengths := new nat[size], new nat[size];
    FillTable(nodes, w, n, 2 * n - 2, 0, 0, maxLength, refs, lengths, 0, maxLength);
    ghost var t := TreeAt(nodes, w, n - 1, 2 * n - 2);
    forall v: nat | v < Pow2(maxLength)
      ensures lengths[v] <= maxLength
      ensures Walk(t, BitsOf(v, maxLength)) == Symbol(refs[v], BitsOf(v, maxLength)[lengths[v]..])
    {
      assert (refs[..][0 + v], lengths[..][0 + v]) == RevEntry(t, v, maxLength, 0);
      RevEntryIsWalk(t, v, maxLength, 0);
    }
  }

  // -------------------------------------------------------------------- decoding

  /** huffman::decode; None when the buffer is already used up. */
  method Decode(nodes: seq<nat>, ghost w: seq<nat>, n: nat, buf: BitVector, pos: nat)
    returns (symbol: nat, pos': nat, ended: bool)
    requires buf.Valid() && n == |w| >= 1 && Built(nodes, n, n - 1) && pos <= buf.size
    requires pos < buf.size ==> Walk(TreeAt(nodes, w, n - 1, 2 * n - 2), buf.Bits()[pos..]).Symbol?
    ensures ended <==> pos == buf.size
    ensures !ended ==>
      pos' <= buf.size
        && Walk(TreeAt(nodes, w, n - 1, 2 * n - 2), buf.Bits()[pos..]) == Symbol(symbol, buf.Bits()[pos'..])
  {
    if pos == buf.size {
      return 0, pos, true;
    }
    var p: nat := 2 * n - 2;
    pos' := pos;
    ghost var bits := buf.Bits();
    ghost var goal := Walk(TreeAt(nodes, w, n - 1, 2 * n - 2), bits[pos..]);
    while p >= n
      invariant p < 2 * n - 1 && pos' <= |bits|
      invariant Walk(TreeAt(nodes, w, n - 1, p), bits[pos'..]) == goal
    {
      assert bits[pos'..] != [] && bits[pos'..][0] == bits[pos'] && bits[pos'..][1..] == bits[pos' + 1..];
      var bit := buf.Get(pos');
      p := if !bit then nodes[2 * (p - n)] else nodes[2 * (p - n) + 1];
      pos' := pos' + 1;
    }
    return p, pos', false;
  }

  // --------------------------------------------------------- huffman_buffer

  /** Binomial coefficients, by Pascal's rule. */
  function Choose(n: nat, k: nat): nat {
    if k == 0 then 1 else if n == 0 then 0 else Choose(n - 1, k - 1) + Choose(n - 1, k)
  }

  lemma {:induction false} ChooseRatio(n: nat, k: nat)
    requires 1 <= k
    ensures k * Choose(n, k) == (n - k + 1) * Choose(n, k - 1)
    decreases n
  {
    if n == 0 {
      if k == 1 { assert Choose(0, 0) == 1; }
    } else if k == 1 {
      ChooseRatio(n - 1, 1);
    } else {
      ChooseRatio(n - 1, k);
      ChooseRatio(n - 1, k - 1);
      RatioStep(n, k, Choose(n - 1, k - 2), Choose(n - 1, k - 1), Choose(n - 1, k));
    }
  }

  lemma RatioStep(n: int, k: int, a: int, b: int, c: int)
    requires k * c == (n - k) * b && (k - 1) * b == (n - k + 1) * a
    ensures k * (b + c) == (n - k + 1) * (a + b)
  {
    assert k * (b + c) == k * b + k * c;
    assert k * b + (n - k) * b == (k + (n - k)) * b;
    assert (n - k + 1) * (a + b) == (n - k + 1) * a + (n - k + 1) * b;
    assert (k - 1) * b + (n - k + 1) * b == ((k - 1) + (n - k + 1)) * b;
  }

  /** The weights huffman_buffer gives the n + 1 possible sizes of a left subtree. */
  method SplitWeights(n: nat) returns (w: seq<nat>)
    ensures |w| == n + 1 && forall k :: 0 <= k <= n ==> w[k] == Choose(n, k)
  {
    var v := 1;
    w := [v];
    for k := 1 to n + 1
      invariant |w| == k && v == Choose(n, k - 1) && forall j :: 0 <= j < k ==> w[j] == Choose(n, j)
    {
      ChooseRatio(n, k);
      ExactDivision(v * (n - k + 1), k, Choose(n, k));
      v := v * (n - k + 1) / k;
      w := w + [v];
    }
  }

  lemma ExactDivision(a: nat, k: nat, q: nat)
    requires k > 0 && a == k * q
    ensures a / k == q
  {
    QuotientUnique(k, q, a / k, a % k);
  }

  lemma QuotientUnique(k: int, q: int, d: int, r: int)
    requires k > 0 && k * q == k * d + r && 0 <= r < k
    ensures q == d
  {
    if q > d {
      MultipleAtLeast(k, q - d);
    } else if q < d {
      MultipleAtLeast(k, d - q);
    }
  }

  lemma MultipleAtLeast(k: int, x: int)
    requires k > 0 && x >= 1
    ensures k * x >= k
  {
  }
}

/** Strings of symbols, written to a bit vector and read back. */
module HuffmanMessages {
  import opened Binary
  import opened BitAccess
  import opened BitVectors
  import opened HuffmanTrees
  import opened HuffmanCodes
  import HuffmanTables

  /** huffman::encode. */
  method AppendCode(out: BitVector, code: Bits)
    requires out.Valid()
    modifies out, out.buf
    ensures out.Valid() && (out.buf == old(out.buf) || fresh(out.buf)) && out.Bits() == old(out.Bits()) + code
  {
    if code != [] {
      FlatOne(code);
      out.AppendBlocks([code], |code|, 0, |code|);
      assert code[0..|code|] == code;
    } else {
      assert out.Bits() + [] == out.Bits();
    }
  }

  /** The codewords of a message, one after another. */
  ghost function CodeAll(t: Tree, message: seq<nat>): Bits
    requires InAlphabet(t, message)
  {
    if message == [] then [] else Code(t, message[0]) + CodeAll(t, message[1..])
  }

  lemma {:induction false} CodeAllAppend(t: Tree, message: seq<nat>, s: nat)
    requires s in Symbols(t) && InAlphabet(t, message)
    ensures CodeAll(t, message + [s]) == CodeAll(t, message) + Code(t, s)
  {
    var after := message + [s];
    if message == [] {
      assert after[1..] == [] && Code(t, s) + [] == Code(t, s);
    } else {
      assert after[1..] == message[1..] + [s];
      CodeAllAppend(t, message[1..], s);
      assert Code(t, message[0]) + (CodeAll(t, message[1..]) + Code(t, s))
        == Code(t, message[0]) + CodeAll(t, message[1..]) + Code(t, s);
    }
  }

  lemma OneMore(t: Tree, message: seq<nat>, i: nat, before: Bits)
    requires i < |message| && InAlphabet(t, message)
    ensures before + CodeAll(t, message[..i]) + Code(t, message[i]) == before + CodeAll(t, message[..i + 1])
  {
    CodeAllAppend(t, message[..i], message[i]);
    assert message[..i] + [message[i]] == message[..i + 1];
  }

  method EncodeAll(out: BitVector, codes: seq<Bits>, message: seq<nat>, ghost t: Tree)
    requires out.Valid() && forall s: nat :: s in Symbols(t) <==> s < |codes|
    requires forall s :: 0 <= s < |codes| ==> codes[s] == Code(t, s)
    requires forall i :: 0 <= i < |message| ==> message[i] < |codes|
    modifies out, out.buf
    ensures out.Valid() && (out.buf == old(out.buf) || fresh(out.buf))
    ensures out.Bits() == old(out.Bits()) + CodeAll(t, message)
  {
    ghost var before := out.Bits();
    assert before + [] == before;
    assert InAlphabet(t, message);
    for i := 0 to |message|
      invariant out.Valid() && (out.buf == old(out.buf) || fresh(out.buf))
      invariant out.Bits() == before + CodeAll(t, message[..i])
    {
      AppendCode(out, codes[message[i]]);
      OneMore(t, message, i, before);
    }
    assert message[..|message|] == message;
  }

  ghost predicate InAlphabet(t: Tree, message: seq<nat>) {
    forall i :: 0 <= i < |message| ==> message[i] in Symbols(t)
  }

  /** One symbol at the front of the remaining bits; none if nothing remains. */
  method DecodeOne(nodes: seq<nat>, ghost w: seq<nat>, n: nat, buf: BitVector, pos: nat, ghost t: Tree, ghost s: nat,
      ghost tail: Bits)
    returns (symbol: nat, pos': nat, ended: bool)
    requires buf.Valid() && n == |w| >= 1 && HuffmanTables.Built(nodes, n, n - 1) && pos <= buf.size
    requires t == HuffmanTables.TreeAt(nodes, w, n - 1, 2 * n - 2) && s in Symbols(t)
    requires buf.Bits()[pos..] == Code(t, s) + tail
    ensures ended <==> n == 1 && tail == []
    ensures !ended ==> symbol == s && pos' <= buf.size && buf.Bits()[pos'..] == tail
  {
    CodeRoundTrip(t, s, tail);
    CodeLength(t, s);
    symbol, pos', ended := HuffmanTables.Decode(nodes, w, n, buf, pos);
  }

  /** Reading a message back, one symbol at a time. A decoder that stands at the end of its buffer returns no
      symbol, so an alphabet of one symbol, whose codeword is empty, cannot be read there. */
  method DecodeAll(nodes: seq<nat>, ghost w: seq<nat>, n: nat, buf: BitVector, pos: nat, count: nat,
      ghost t: Tree, ghost message: seq<nat>, ghost rest: Bits)
    returns (ss: seq<nat>, pos': nat, ended: bool)
    requires buf.Valid() && n == |w| >= 1 && HuffmanTables.Built(nodes, n, n - 1) && pos <= buf.size
    requires |message| == count
    requires t == HuffmanTables.TreeAt(nodes, w, n - 1, 2 * n - 2) && InAlphabet(t, message)
    requires buf.Bits()[pos..] == CodeAll(t, message) + rest
    ensures !ended <==> n >= 2 || count == 0 || rest != []
    ensures !ended ==> ss == message && pos' <= buf.size && buf.Bits()[pos'..] == rest
  {
    ss, pos', ended := [], pos, false;
    ghost var todo := message;
    for i := 0 to count
      invariant |todo| == count - i && ss + todo == message && InAlphabet(t, todo) && !ended
      invariant pos' <= buf.size && buf.Bits()[pos'..] == CodeAll(t, todo) + rest
      invariant i > 0 ==> n >= 2 || rest != []
    {
      ghost var s, tail := todo[0], CodeAll(t, todo[1..]) + rest;
      FrontFirst(t, todo, rest);
      if n == 1 { OneSymbolCodes(t, todo[1..]); }
      var symbol;
      symbol, pos', ended := DecodeOne(nodes, w, n, buf, pos', t, s, tail);
      if ended { return; }
      ss := ss + [symbol];
      todo := todo[1..];
    }
  }

  lemma FrontFirst(t: Tree, message: seq<nat>, rest: Bits)
    requires message != [] && InAlphabet(t, message)
    ensures CodeAll(t, message) + rest == Code(t, message[0]) + (CodeAll(t, message[1..]) + rest)
  {
  }

  lemma CodeLength(t: Tree, s: nat)
    requires s in Symbols(t)
    ensures Code(t, s) == [] <==> t.Leaf?
  {
  }

  lemma {:induction false} OneSymbolCodes(t: Tree, message: seq<nat>)
    requires t.Leaf? && InAlphabet(t, message)
    ensures CodeAll(t, message) == []
  {
    if message != [] { OneSymbolCodes(t, message[1..]); }
  }

  /** The table holds the codeword of every symbol. */
  lemma TableHolds(w: seq<nat>, codes: seq<Bits>)
    requires w != [] && codes == HuffmanCode(w)
    ensures forall s: nat :: s in Symbols(Huffman(w)) <==> s < |codes|
    ensures forall s :: 0 <= s < |codes| ==> codes[s] == Code(Huffman(w), s)
  {
    HuffmanTreeOk(w);
    forall s | 0 <= s < |codes| ensures codes[s] == Code(Huffman(w), s) { AllSymbolsAt(|w|, s); }
  }

  /** From weights to the message read back: a message comes through exactly when the alphabet has two symbols
      or more, or the message is empty. */
  method Transmit(w: seq<nat>, message: seq<nat>) returns (back: seq<nat>, ended: bool)
    requires w != [] && forall i :: 0 <= i < |message| ==> message[i] < |w|
    ensures !ended <==> |w| >= 2 || message == []
    ensures !ended ==> back == message
  {
    var n := |w|;
    var nodes, codes := Prepare(w);
    TableHolds(w, codes);
    var out := new BitVector();
    EncodeAll(out, codes, message, Huffman(w));
    ghost var bits := CodeAll(Huffman(w), message);
    assert [] + bits == bits && bits + [] == bits && out.Bits()[0..] == out.Bits();
    var pos';
    back, pos', ended := DecodeAll(nodes, w, n, out, 0, |message|, Huffman(w), message, []);
  }

  method Prepare(w: seq<nat>) returns (nodes: seq<nat>, codes: seq<Bits>)
    requires w != []
    ensures HuffmanTables.Built(nodes, |w|, |w| - 1)
    ensures HuffmanTables.TreeAt(nodes, w, |w| - 1, 2 * |w| - 2) == Huffman(w)
    ensures codes == HuffmanCode(w)
  {
    var n := |w|;
    var freqs := new nat[2 * n - 1](i requires i >= 0 => if i < n then w[i] else 0);
    var tree := new nat[2 * (n - 1)];
    assert freqs[..n] == w;
    HuffmanTables.Generate(freqs, tree, n);
    nodes := tree[..];
    var table := HuffmanTables.CodeTable(nodes, w);
    codes := table[..];
  }
}
