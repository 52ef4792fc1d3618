/**
  Tables: src/leveldb/table_builder.cc writes data blocks, a filter block, a metaindex block,
  an index block and a footer; src/leveldb/table.cc finds a key again.
 */
module TableFormat {
  import opened Coding
  import LogFormat

  const TRAILER: nat := 5
  const FOOTER: nat := 48
  const MAGIC: nat := 0xdb4775248b80fb57

  // --------------------------------------------------------------------- handles

  datatype Handle = Handle(offset: nat, size: nat)

  /** The two numbers are 64-bit. */
  function HandleBytes(h: Handle): Bytes { Varint(h.offset % TWO64) + Varint(h.size % TWO64) }

  function ParseHandle(s: Bytes): Parsed<Handle> {
    match ParseVarint64(s)
    case Fail => Fail
    case Ok(offset, s1) =>
      match ParseVarint64(s1)
      case Fail => Fail
      case Ok(size, s2) => Ok(Handle(offset, size), s2)
  }

  predicate Small(h: Handle) { h.offset < TWO64 && h.size < TWO64 }

  lemma HandleRoundTrip(h: Handle, rest: Bytes)
    requires Small(h)
    ensures ParseHandle(HandleBytes(h) + rest) == Ok(h, rest)
  {
    assert HandleBytes(h) + rest == Varint(h.offset) + (Varint(h.size) + rest);
    Varint64RoundTrip(h.offset, Varint(h.size) + rest);
    Varint64RoundTrip(h.size, rest);
  }

  lemma {:induction false} VarintLength(v: nat, k: nat)
    requires k > 0 && v < Pow128(k)
    ensures |Varint(v)| <= k
  {
    if v >= 128 {
      assert Pow128(1) == 128;
      VarintLength(v / 128, k - 1);
    }
  }

  lemma HandleLength(h: Handle)
    ensures |HandleBytes(h)| <= 20
  {
    PowersOf128();
    VarintLength(h.offset % TWO64, 10);
    VarintLength(h.size % TWO64, 10);
  }

  // ---------------------------------------------------------------- stored blocks

  /** The checksum of a string; only its being a function matters. */
  type Checksum = LogFormat.Checksum

  /** The type of an uncompressed block and the masked checksum of contents and type. */
  function Trailer(sum: Checksum, contents: Bytes): (r: Bytes)
    ensures |r| == TRAILER && r[0] == 0
  {
    [0] + Fixed(LogFormat.Mask(sum(contents + [0]) % TWO32), 4)
  }

  /** What follows the contents of a block. */
  type Seal = f: Bytes -> Bytes | Seals(f) ghost witness SealOf(b => 0)

  ghost predicate Seals(f: Bytes -> Bytes) {
    forall c {:trigger f(c)} :: |f(c)| == TRAILER
  }

  function SealOf(sum: Checksum): Bytes -> Bytes { (contents: Bytes) => Trailer(sum, contents) }

  ghost predicate StoredAt(file: Bytes, h: Handle, contents: Bytes, seal: Seal) {
    && h.size == |contents| && h.offset + h.size + TRAILER <= |file|
    && file[h.offset..h.offset + h.size + TRAILER] == contents + seal(contents)
  }

  lemma StoredGrows(file: Bytes, more: Bytes, h: Handle, contents: Bytes, seal: Seal)
    requires StoredAt(file, h, contents, seal)
    ensures StoredAt(file + more, h, contents, seal)
  {
    assert (file + more)[h.offset..h.offset + h.size + TRAILER] == file[h.offset..h.offset + h.size + TRAILER];
  }

  lemma StoredKept(file: Bytes, file': Bytes, h: Handle, contents: Bytes, seal: Seal)
    requires StoredAt(file, h, contents, seal) && file <= file'
    ensures StoredAt(file', h, contents, seal)
  {
    assert file' == file + file'[|file|..];
    StoredGrows(file, file'[|file|..], h, contents, seal);
  }

  lemma StoredLast(file: Bytes, contents: Bytes, seal: Seal)
    ensures StoredAt(file + contents + seal(contents), Handle(|file|, |contents|), contents, seal)
  {
    var after := file + contents + seal(contents);
    assert after[|file|..] == contents + seal(contents);
    assert after[|file|..|file| + |contents| + TRAILER] == after[|file|..];
  }

  datatype BlockRead = Corrupt | Block(contents: Bytes)

  /** The trailer of what is stored passes the checks. */
  lemma TrailerReads(sum: Checksum, contents: Bytes)
    ensures var s := contents + Trailer(sum, contents);
      var n := |contents|;
      && s[..n] == contents && s[n] == 0 && s[..n + 1] == contents + [0]
      && LogFormat.Unmask(FixedValue(s[n + 1..n + 5])) == sum(s[..n + 1]) % TWO32
  {
    var s, n := contents + Trailer(sum, contents), |contents|;
    var crc := sum(contents + [0]) % TWO32;
    assert s[..n + 1] == contents + [0];
    assert s[n + 1..n + 5] == Fixed(LogFormat.Mask(crc), 4);
    Fixed32RoundTrip(LogFormat.Mask(crc));
    LogFormat.UnmaskMask(crc);
  }

  /** What ReadBlock makes of the bytes it read: n of contents and the trailer. */
  function CheckBlock(s: Bytes, n: nat, sum: Checksum, verify: bool): BlockRead {
    if |s| != n + TRAILER then Corrupt
    else if verify && sum(s[..n + 1]) % TWO32 != LogFormat.Unmask(FixedValue(s[n + 1..n + 5])) then Corrupt
    else if s[n] == 0 then Block(s[..n])
    else Corrupt
  }

  lemma StoredPasses(contents: Bytes, sum: Checksum, verify: bool)
    ensures CheckBlock(contents + Trailer(sum, contents), |contents|, sum, verify) == Block(contents)
  {
    TrailerReads(sum, contents);
  }

  /** ReadBlock; a read past the end of the file comes back short. */
  method ReadBlock(file: Bytes, h: Handle, sum: Checksum, verify: bool) returns (r: BlockRead)
    ensures forall contents :: StoredAt(file, h, contents, SealOf(sum)) ==> r == Block(contents)
  {
    var n := h.size;
    var from := if h.offset <= |file| then h.offset else |file|;
    var upto := if h.offset + n + TRAILER <= |file| then h.offset + n + TRAILER else |file|;
    var s := file[from..upto];
    r := CheckBlock(s, n, sum, verify);
    forall contents | StoredAt(file, h, contents, SealOf(sum)) ensures r == Block(contents) {
      assert s == contents + Trailer(sum, contents);
      StoredPasses(contents, sum, verify);
    }
  }

  // ---------------------------------------------------------------------- the footer

  /** Cut or pad to n bytes. */
  function Resized(s: Bytes, n: nat): (r: Bytes)
    ensures |r| == n
  {
    if |s| <= n then s + ZeroBytes(n - |s|) else s[..n]
  }

  function FooterBytes(metaindex: Handle, index: Handle): (r: Bytes)
    ensures |r| == FOOTER
  {
    Resized(HandleBytes(metaindex) + HandleBytes(index), 40) + Fixed(MAGIC % TWO32, 4) + Fixed(MAGIC / TWO32, 4)
  }

  /** Footer::DecodeFrom: the metaindex and the index handle. */
  function ParseFooter(s: Bytes): Parsed<(Handle, Handle)>
    requires |s| == FOOTER
  {
    if FixedValue(s[40..44]) + TWO32 * FixedValue(s[44..48]) != MAGIC then Fail
    else
      match ParseHandle(s)
      case Fail => Fail
      case Ok(metaindex, s1) =>
        match ParseHandle(s1)
        case Fail => Fail
        case Ok(index, s2) => Ok((metaindex, index), s2)
  }

  lemma FooterMagic(metaindex: Handle, index: Handle)
    ensures var s := FooterBytes(metaindex, index);
      FixedValue(s[40..44]) + TWO32 * FixedValue(s[44..48]) == MAGIC
  {
    var s := FooterBytes(metaindex, index);
    var lo, hi := MAGIC % TWO32, MAGIC / TWO32;
    assert s[40..44] == Fixed(lo, 4) && s[44..48] == Fixed(hi, 4);
    Fixed32RoundTrip(lo);
    Fixed32RoundTrip(hi);
  }

  lemma FooterRoundTrip(metaindex: Handle, index: Handle)
    requires Small(metaindex) && Small(index)
    ensures ParseFooter(FooterBytes(metaindex, index)).Ok?
    ensures ParseFooter(FooterBytes(metaindex, index)).value == (metaindex, index)
  {
    HandleLength(metaindex);
    HandleLength(index);
    FooterMagic(metaindex, index);
    var s := FooterBytes(metaindex, index);
    var m, i := HandleBytes(metaindex), HandleBytes(index);
    var rest := s[|m| + |i|..];
    assert s == m + (i + rest);
    HandleRoundTrip(metaindex, i + rest);
    HandleRoundTrip(index, rest);
  }
}

/** What the data blocks and the index of a table hold. */
module TablePlans {
  import opened Coding
  import opened KeyOrder
  import opened BlockFormat
  import opened BlockImages
  import opened BlockIterators
  import opened TableFormat

  /** Data block j is stored at handles[j]; seps[j] is the index key for it; all lists the entries. */
  datatype Plan = Plan(o: GoodOrder, seal: Seal, file: Bytes, handles: seq<Handle>, blocks: seq<Image>,
    seps: seq<Bytes>, all: seq<Entry>)

  ghost predicate Rising(o: Order, es: seq<Entry>) {
    forall i {:trigger RisingAt(o, es, i)} :: 0 < i < |es| ==> RisingAt(o, es, i)
  }

  ghost predicate RisingAt(o: Order, es: seq<Entry>, i: nat)
    requires 0 < i < |es|
  {
    Less(o, es[i - 1].key, es[i].key)
  }

  ghost function FirstKey(b: Image): Bytes { if b.entries == [] then [] else b.entries[0].key }

  ghost function FinalKey(b: Image): Bytes { if b.entries == [] then [] else b.entries[|b.entries| - 1].key }

  /** The index keys so far cover all blocks, or all but one. */
  ghost predicate Shape(p: Plan) {
    |p.handles| == |p.blocks| && |p.seps| <= |p.blocks| <= |p.seps| + 1
  }

  ghost predicate BlockAt(p: Plan, j: nat)
    requires Shape(p) && j < |p.blocks|
  {
    && ImageOk(p.blocks[j]) && StoredAt(p.file, p.handles[j], Contents(p.blocks[j]), p.seal)
    && p.blocks[j].entries != [] && Rising(p.o, p.blocks[j].entries)
  }

  /** A separator lies between a block and the next one. */
  ghost predicate SepAt(p: Plan, j: nat)
    requires Shape(p) && j < |p.seps|
  {
    && p.o.cmp(FinalKey(p.blocks[j]), p.seps[j]) <= 0
    && (j + 1 < |p.blocks| ==> p.o.cmp(p.seps[j], FirstKey(p.blocks[j + 1])) < 0)
  }

  /** Entry q of block j is there. */
  ghost predicate Here(p: Plan, j: nat, q: nat) { j < |p.blocks| && q < |p.blocks[j].entries| }

  ghost predicate IsAt(p: Plan, e: Entry, j: nat, q: nat) { Here(p, j, q) && p.blocks[j].entries[q] == e }

  /** A listed entry is in some block. */
  ghost predicate HomeAt(p: Plan, i: nat)
    requires i < |p.all|
  {
    exists j, q :: IsAt(p, p.all[i], j, q)
  }

  /** What is in a block is listed. */
  ghost predicate ListedAt(p: Plan, j: nat, q: nat)
    requires Here(p, j, q)
  {
    p.blocks[j].entries[q] in p.all
  }

  ghost predicate PlanOk(p: Plan) {
    && Shape(p)
    && (forall i {:trigger HomeAt(p, i)} :: 0 <= i < |p.all| ==> HomeAt(p, i))
    && (forall j, q {:trigger ListedAt(p, j, q)} :: 0 <= j && 0 <= q && Here(p, j, q) ==> ListedAt(p, j, q))
    && (forall j {:trigger BlockAt(p, j)} :: 0 <= j < |p.blocks| ==> BlockAt(p, j))
    && (forall j {:trigger SepAt(p, j)} :: 0 <= j < |p.seps| ==> SepAt(p, j))
  }

  ghost function NoBlocks(o: GoodOrder, seal: Seal): Plan { Plan(o, seal, [], [], [], [], []) }

  type GoodPlan = p: Plan | PlanOk(p) ghost witness NoBlocks(Order((a, b) => 0, (a, b) => a, a => a), SealOf(b => 0))

  // -------------------------------------------------------------------------- order

  lemma {:induction false} RisingPairs(o: GoodOrder, es: seq<Entry>, i: nat, j: nat)
    requires Rising(o, es) && i < j < |es|
    ensures o.cmp(es[i].key, es[j].key) < 0
  {
    assert RisingAt(o, es, j);
    if i < j - 1 {
      RisingPairs(o, es, i, j - 1);
      Chain(o, es[i].key, es[j - 1].key, es[j].key);
    }
  }

  lemma RisingFrom(o: GoodOrder, es: seq<Entry>, i: nat, j: nat)
    requires Rising(o, es) && i <= j < |es|
    ensures o.cmp(es[i].key, es[j].key) <= 0
  {
    if i < j { RisingPairs(o, es, i, j); } else { Chain(o, es[i].key, es[i].key, es[i].key); }
  }

  lemma RisingInOrder(o: GoodOrder, es: seq<Entry>)
    requires Rising(o, es)
    ensures InOrder(o.cmp, es)
  {
    forall i | 0 < i < |es| ensures o.cmp(es[i].key, es[i - 1].key) >= 0 {
      assert RisingAt(o, es, i);
      Chain(o, es[i - 1].key, es[i].key, es[i].key);
    }
  }

  /** A lawful order is one that a block can be searched by. */
  lemma OrderSeeks(o: GoodOrder)
    ensures Orders(o.cmp)
  {
    forall a, b, t | o.cmp(a, b) >= 0 && o.cmp(a, t) < 0 ensures o.cmp(b, t) < 0 {
      Chain(o, a, b, t);
      Chain(o, b, a, t);
    }
  }

  // -------------------------------------------------------------------------- the index

  ghost function IndexEntries(seps: seq<Bytes>, handles: seq<Handle>): (r: seq<Entry>)
    requires |seps| <= |handles|
    ensures |r| == |seps|
  {
    seq(|seps|, j requires 0 <= j < |seps| => Entry(seps[j], HandleBytes(handles[j])))
  }

  /** Keys of one block lie up to its separator. */
  lemma UpToSep(p: GoodPlan, j: nat, q: nat)
    requires j < |p.seps| && q < |p.blocks[j].entries|
    ensures p.o.cmp(p.blocks[j].entries[q].key, p.seps[j]) <= 0
  {
    assert BlockAt(p, j) && SepAt(p, j);
    var es := p.blocks[j].entries;
    RisingFrom(p.o, es, q, |es| - 1);
    Chain(p.o, es[q].key, FinalKey(p.blocks[j]), p.seps[j]);
  }

  /** Keys of a later block lie beyond the separator. */
  lemma {:induction false} BeyondSep(p: GoodPlan, i: nat, j: nat, q: nat)
    requires i < |p.seps| && i < j < |p.blocks| && q < |p.blocks[j].entries|
    ensures p.o.cmp(p.seps[i], p.blocks[j].entries[q].key) < 0
    decreases j - i
  {
    assert BlockAt(p, j) && SepAt(p, i);
    var es := p.blocks[j].entries;
    RisingFrom(p.o, es, 0, q);
    if i + 1 == j {
      Chain(p.o, p.seps[i], es[0].key, es[q].key);
    } else {
      assert BlockAt(p, i + 1);
      BeyondSep(p, i, i + 1, 0);
      UpToSep(p, i + 1, 0);
      BeyondSep(p, i + 1, j, q);
      var mid := p.blocks[i + 1].entries[0].key;
      Chain(p.o, p.seps[i], mid, p.seps[i + 1]);
      Chain(p.o, p.seps[i], p.seps[i + 1], es[q].key);
    }
  }

  lemma SepsRise(p: GoodPlan)
    ensures InOrder(p.o.cmp, IndexEntries(p.seps, p.handles))
  {
    var ix := IndexEntries(p.seps, p.handles);
    forall i | 0 < i < |ix| ensures p.o.cmp(ix[i].key, ix[i - 1].key) >= 0 {
      assert BlockAt(p, i);
      BeyondSep(p, i - 1, i, 0);
      UpToSep(p, i, 0);
      var mid := p.blocks[i].entries[0].key;
      Chain(p.o, p.seps[i - 1], mid, p.seps[i]);
      Chain(p.o, p.seps[i - 1], p.seps[i], mid);
    }
  }

  // -------------------------------------------------------------------------- search

  /** Entry q of block j goes before entry s of block i. */
  predicate Earlier(j: nat, q: nat, i: nat, s: nat) { j < i || (j == i && q < s) }

  /** The block that the index names for k, and the place in it, split all keys of the table. */
  lemma SearchSplits(p: GoodPlan, k: Bytes, j: nat, q: nat, i: nat, s: nat)
    requires |p.seps| == |p.blocks| && j == Lead(p.o.cmp, IndexEntries(p.seps, p.handles), k)
    requires j < |p.blocks| ==> q == Lead(p.o.cmp, p.blocks[j].entries, k)
    requires Here(p, i, s)
    ensures p.o.cmp(p.blocks[i].entries[s].key, k) < 0 <==> Earlier(i, s, j, q)
  {
    var ix := IndexEntries(p.seps, p.handles);
    var x := p.blocks[i].entries[s].key;
    assert BlockAt(p, i);
    if i < j {
      assert ix[i].key == p.seps[i];
      UpToSep(p, i, s);
      Chain(p.o, x, p.seps[i], k);
    } else if i == j {
      OrderSeeks(p.o);
      RisingInOrder(p.o, p.blocks[j].entries);
      LeadSplits(p.o.cmp, p.blocks[j].entries, k, s);
    } else {
      assert ix[j].key == p.seps[j];
      BeyondSep(p, j, i, s);
      Chain(p.o, k, p.seps[j], x);
      Chain(p.o, p.seps[j], k, x);
      Chain(p.o, x, k, k);
      Chain(p.o, k, x, x);
    }
  }

  /** A stored key is where the search ends. */
  lemma SearchFinds(p: GoodPlan, k: Bytes, j: nat, q: nat, i: nat, s: nat)
    requires |p.seps| == |p.blocks| && j == Lead(p.o.cmp, IndexEntries(p.seps, p.handles), k)
    requires j < |p.blocks| ==> q == Lead(p.o.cmp, p.blocks[j].entries, k)
    requires Here(p, i, s) && p.o.cmp(p.blocks[i].entries[s].key, k) == 0
    ensures j == i && q == s
  {
    SearchSplits(p, k, j, q, i, s);
    var x := p.blocks[i].entries[s].key;
    assert !Earlier(i, s, j, q);
    if j < i {
      StoredBefore(p, k, j, i, s);
    } else if q < s {
      SearchSplits(p, k, j, q, j, q);
      var es := p.blocks[j].entries;
      assert BlockAt(p, j);
      RisingPairs(p.o, es, q, s);
      Chain(p.o, es[q].key, x, k);
    }
  }

  /** The index does not stop at a block before the one that holds the key. */
  lemma StoredBefore(p: GoodPlan, k: Bytes, j: nat, i: nat, s: nat)
    requires |p.seps| == |p.blocks| && j < i && Here(p, i, s) && p.o.cmp(p.blocks[i].entries[s].key, k) == 0
    ensures j != Lead(p.o.cmp, IndexEntries(p.seps, p.handles), k)
  {
    var ix := IndexEntries(p.seps, p.handles);
    assert ix[j].key == p.seps[j];
    BeyondSep(p, j, i, s);
    Chain(p.o, p.seps[j], p.blocks[i].entries[s].key, k);
  }
}

/** How each step of the builder extends the plan. */
module TableSteps {
  import opened Coding
  import opened KeyOrder
  import opened BlockFormat
  import opened BlockImages
  import opened TableFormat
  import opened TablePlans
  import FilterBlocks

  /** The entries and their list are the same. */
  lemma SameEntries(p: GoodPlan, x: Plan)
    requires x.all == p.all && x.blocks == p.blocks
    ensures forall i {:trigger HomeAt(x, i)} :: 0 <= i < |x.all| ==> HomeAt(x, i)
    ensures forall j, q {:trigger ListedAt(x, j, q)} :: 0 <= j && 0 <= q && Here(x, j, q) ==> ListedAt(x, j, q)
  {
    forall i | 0 <= i < |x.all| ensures HomeAt(x, i) {
      assert HomeAt(p, i);
      var j, q :| IsAt(p, p.all[i], j, q);
      assert IsAt(x, x.all[i], j, q);
    }
    forall j, q | 0 <= j && 0 <= q && Here(x, j, q) ensures ListedAt(x, j, q) { assert ListedAt(p, j, q); }
  }

  lemma MoreEntries(p: GoodPlan, b: Image)
    ensures var x := WithBlock(p, b);
      && (forall i {:trigger HomeAt(x, i)} :: 0 <= i < |x.all| ==> HomeAt(x, i))
      && (forall j, q {:trigger ListedAt(x, j, q)} :: 0 <= j && 0 <= q && Here(x, j, q) ==> ListedAt(x, j, q))
  {
    var x := WithBlock(p, b);
    forall i | 0 <= i < |x.all| ensures HomeAt(x, i) {
      if i < |p.all| {
        assert HomeAt(p, i);
        var j, q :| IsAt(p, p.all[i], j, q);
        assert IsAt(x, x.all[i], j, q);
      } else {
        assert IsAt(x, x.all[i], |p.blocks|, i - |p.all|);
      }
    }
    forall j, q | 0 <= j && 0 <= q && Here(x, j, q) ensures ListedAt(x, j, q) {
      if j < |p.blocks| { assert ListedAt(p, j, q); } else { assert x.all[|p.all| + q] == b.entries[q]; }
    }
  }

  lemma WritesMore(p: GoodPlan, more: Bytes) returns (p': GoodPlan)
    ensures p' == p.(file := p.file + more)
  {
    var x := p.(file := p.file + more);
    forall j | 0 <= j < |x.blocks| ensures BlockAt(x, j) {
      assert BlockAt(p, j);
      StoredGrows(p.file, more, p.handles[j], Contents(p.blocks[j]), p.seal);
    }
    forall j | 0 <= j < |x.seps| ensures SepAt(x, j) { assert SepAt(p, j); }
    SameEntries(p, x);
    p' := x;
  }

  /** The plan with one more block, written at the end of the file. */
  ghost function WithBlock(p: Plan, b: Image): Plan {
    Plan(p.o, p.seal, p.file + Contents(b) + p.seal(Contents(b)), p.handles + [Handle(|p.file|, |Contents(b)|)],
      p.blocks + [b], p.seps, p.all + b.entries)
  }

  lemma WritesBlock(p: GoodPlan, b: GoodImage) returns (p': GoodPlan)
    requires |p.seps| == |p.blocks| && b.entries != [] && Rising(p.o, b.entries)
    requires p.blocks != [] ==> p.o.cmp(p.seps[|p.seps| - 1], FirstKey(b)) < 0
    ensures p' == WithBlock(p, b)
  {
    var x := WithBlock(p, b);
    forall j | 0 <= j < |x.blocks| ensures BlockAt(x, j) { BlockKept(p, b, j); }
    forall j | 0 <= j < |x.seps| ensures SepAt(x, j) { assert SepAt(p, j); }
    MoreEntries(p, b);
    p' := x;
  }

  lemma BlockKept(p: GoodPlan, b: GoodImage, j: nat)
    requires |p.seps| == |p.blocks| && b.entries != [] && Rising(p.o, b.entries) && j <= |p.blocks|
    ensures BlockAt(WithBlock(p, b), j)
  {
    var c := Contents(b);
    if j < |p.blocks| {
      assert BlockAt(p, j);
      assert p.file + c + p.seal(c) == p.file + (c + p.seal(c));
      StoredGrows(p.file, c + p.seal(c), p.handles[j], Contents(p.blocks[j]), p.seal);
    } else {
      StoredLast(p.file, c, p.seal);
    }
  }

  lemma WritesSep(p: GoodPlan, sep: Bytes) returns (p': GoodPlan)
    requires |p.blocks| == |p.seps| + 1 && p.o.cmp(FinalKey(p.blocks[|p.seps|]), sep) <= 0
    ensures p' == p.(seps := p.seps + [sep])
    ensures IndexEntries(p'.seps, p'.handles) == IndexEntries(p.seps, p.handles)
      + [Entry(sep, HandleBytes(p.handles[|p.seps|]))]
  {
    var x := p.(seps := p.seps + [sep]);
    forall j | 0 <= j < |x.blocks| ensures BlockAt(x, j) { assert BlockAt(p, j); }
    forall j | 0 <= j < |x.seps| ensures SepAt(x, j) { if j < |p.seps| { assert SepAt(p, j); } }
    SameEntries(p, x);
    p' := x;
  }

  // --------------------------------------------------------------- the builder's state

  /** Where the builder stands between the blocks written so far and the one being filled. */
  ghost predicate Stands(p: GoodPlan, es: seq<Entry>, lastKey: Bytes, pending: bool, h: Handle) {
    && |p.blocks| == |p.seps| + (if pending then 1 else 0) && Rising(p.o, es)
    && (pending ==> es == [] && h == p.handles[|p.seps|] && lastKey == FinalKey(p.blocks[|p.seps|]))
    && (es != [] ==> lastKey == es[|es| - 1].key)
    && (!pending && p.blocks != [] ==> es != [] && p.o.cmp(p.seps[|p.seps| - 1], es[0].key) < 0)
  }

  /** A longer file changes nothing. */
  lemma StandsKept(p: GoodPlan, file: Bytes, lastKey: Bytes, pending: bool, h: Handle, p': GoodPlan)
    requires Stands(p, [], lastKey, pending, h) && p' == p.(file := file)
    ensures Stands(p', [], lastKey, pending, h)
  {
  }

  ghost predicate SomeKey(p: Plan, es: seq<Entry>) { p.blocks != [] || es != [] }

  /** The index entry of a finished block, once the next key is known. */
  lemma SepStep(p: GoodPlan, lastKey: Bytes, h: Handle, key: Bytes) returns (p': GoodPlan)
    requires Stands(p, [], lastKey, true, h) && Less(p.o, lastKey, key)
    ensures var sep := p.o.sep(lastKey, key);
      && p' == p.(seps := p.seps + [sep]) && p'.o.cmp(sep, key) < 0
      && IndexEntries(p'.seps, p'.handles) == IndexEntries(p.seps, p.handles) + [Entry(sep, HandleBytes(h))]
  {
    Chain(p.o, lastKey, key, key);
    p' := WritesSep(p, p.o.sep(lastKey, key));
  }

  /** The index entry of the last block. */
  lemma LastSepStep(p: GoodPlan, lastKey: Bytes, h: Handle) returns (p': GoodPlan)
    requires Stands(p, [], lastKey, true, h)
    ensures var sep := p.o.succ(lastKey);
      && p' == p.(seps := p.seps + [sep])
      && IndexEntries(p'.seps, p'.handles) == IndexEntries(p.seps, p.handles) + [Entry(sep, HandleBytes(h))]
  {
    Chain(p.o, lastKey, lastKey, lastKey);
    p' := WritesSep(p, p.o.succ(lastKey));
  }

  lemma AddStep(p: GoodPlan, es: seq<Entry>, lastKey: Bytes, h: Handle, e: Entry)
    requires Stands(p, es, lastKey, false, h)
    requires SomeKey(p, es) ==> Less(p.o, lastKey, e.key)
    ensures Stands(p, es + [e], e.key, false, h)
  {
    var after := es + [e];
    forall i | 0 < i < |after| ensures RisingAt(p.o, after, i) {
      if i < |es| { assert RisingAt(p.o, es, i); }
    }
  }

  /** The first key after a separator. */
  lemma AddAfterSep(p: GoodPlan, h: Handle, e: Entry)
    requires |p.seps| == |p.blocks| > 0 && p.o.cmp(p.seps[|p.seps| - 1], e.key) < 0
    ensures Stands(p, [e], e.key, false, h)
  {
  }

  lemma FlushStep(p: GoodPlan, b: GoodImage, lastKey: Bytes, h: Handle) returns (p': GoodPlan)
    requires Stands(p, b.entries, lastKey, false, h) && b.entries != []
    ensures p' == WithBlock(p, b)
    ensures Stands(p', [], lastKey, true, Handle(|p.file|, |Contents(b)|))
    ensures IndexEntries(p'.seps, p'.handles) == IndexEntries(p.seps, p.handles)
  {
    p' := WritesBlock(p, b);
  }

  /** Blocks that are written have entries. */
  lemma SomeListed(p: GoodPlan)
    requires p.blocks != []
    ensures p.all != []
  {
    var n := |p.blocks| - 1;
    assert BlockAt(p, n);
    assert ListedAt(p, n, 0);
  }

  // ------------------------------------------------------------------- filter coverage

  ghost predicate Grouped(groups: seq<seq<Bytes>>, pending: seq<Bytes>, i: nat, key: Bytes) {
    if i < |groups| then key in groups[i] else i == |groups| && key in pending
  }

  ghost predicate KeyCovered(p: Plan, groups: seq<seq<Bytes>>, pending: seq<Bytes>, j: nat, q: nat)
    requires Shape(p) && Here(p, j, q)
  {
    Grouped(groups, pending, p.handles[j].offset / FilterBlocks.BASE, p.blocks[j].entries[q].key)
  }

  /** Every stored key is in the filter group of its block. */
  ghost predicate Covers(p: GoodPlan, groups: seq<seq<Bytes>>, pending: seq<Bytes>) {
    forall j, q {:trigger KeyCovered(p, groups, pending, j, q)} :: 0 <= j && 0 <= q && Here(p, j, q) ==>
      KeyCovered(p, groups, pending, j, q)
  }

  ghost predicate AllPending(es: seq<Entry>, pending: seq<Bytes>) {
    forall i {:trigger PendingAt(es, pending, i)} :: 0 <= i < |es| ==> PendingAt(es, pending, i)
  }

  ghost predicate PendingAt(es: seq<Entry>, pending: seq<Bytes>, i: nat)
    requires i < |es|
  {
    es[i].key in pending
  }

  lemma {:induction false} StartedKeeps(groups: seq<seq<Bytes>>, pending: seq<Bytes>, index: nat, i: nat, key: Bytes)
    requires |groups| <= index && Grouped(groups, pending, i, key)
    ensures Grouped(FilterBlocks.Started(groups, pending, index), if |groups| == index then pending else [], i, key)
    decreases index - |groups|
  {
    if |groups| < index {
      StartedRest(groups + [pending], index, i, key);
    }
  }

  lemma {:induction false} StartedRest(groups: seq<seq<Bytes>>, index: nat, i: nat, key: Bytes)
    requires |groups| <= index && i < |groups| && key in groups[i]
    ensures Grouped(FilterBlocks.Started(groups, [], index), [], i, key)
    decreases index - |groups|
  {
    if |groups| < index { StartedRest(groups + [[]], index, i, key); }
  }

  lemma CoversStart(p: GoodPlan, groups: seq<seq<Bytes>>, pending: seq<Bytes>, index: nat)
    requires Covers(p, groups, pending) && |groups| <= index
    ensures Covers(p, FilterBlocks.Started(groups, pending, index), if |groups| == index then pending else [])
  {
    var g', p' := FilterBlocks.Started(groups, pending, index), if |groups| == index then pending else [];
    forall j, q | 0 <= j && 0 <= q && Here(p, j, q) ensures KeyCovered(p, g', p', j, q) {
      assert KeyCovered(p, groups, pending, j, q);
      StartedKeeps(groups, pending, index, p.handles[j].offset / FilterBlocks.BASE, p.blocks[j].entries[q].key);
    }
  }

  lemma CoversAdd(p: GoodPlan, groups: seq<seq<Bytes>>, pending: seq<Bytes>, key: Bytes)
    requires Covers(p, groups, pending)
    ensures Covers(p, groups, pending + [key])
  {
    forall j, q | 0 <= j && 0 <= q && Here(p, j, q) ensures KeyCovered(p, groups, pending + [key], j, q) {
      assert KeyCovered(p, groups, pending, j, q);
    }
  }

  /** Every group lists its keys in rising order. */
  ghost predicate GroupsRise(o: Order, groups: seq<seq<Bytes>>) {
    forall i {:trigger GroupAt(o, groups, i)} :: 0 <= i < |groups| ==> GroupAt(o, groups, i)
  }

  ghost predicate GroupAt(o: Order, groups: seq<seq<Bytes>>, i: nat)
    requires i < |groups|
  {
    RisingKeys(o, groups[i])
  }

  lemma GroupsAdd(o: Order, groups: seq<seq<Bytes>>, keys: seq<Bytes>)
    requires GroupsRise(o, groups) && RisingKeys(o, keys)
    ensures GroupsRise(o, groups + [keys])
  {
    forall i | 0 <= i < |groups + [keys]| ensures GroupAt(o, groups + [keys], i) {
      if i < |groups| { assert GroupAt(o, groups, i); }
    }
  }

  lemma {:induction false} StartedRise(o: Order, groups: seq<seq<Bytes>>, pending: seq<Bytes>, index: nat)
    requires GroupsRise(o, groups) && RisingKeys(o, pending)
    ensures GroupsRise(o, FilterBlocks.Started(groups, pending, index))
    decreases index - |groups|
  {
    if |groups| < index {
      GroupsAdd(o, groups, pending);
      StartedRise(o, groups + [pending], [], index);
    }
  }

  /** The keys that wait for their filter rise, up to the last key added. */
  ghost predicate PendingRise(o: Order, pending: seq<Bytes>, added: seq<Entry>) {
    RisingKeys(o, pending) && (pending != [] ==> added != [] && pending[|pending| - 1] == added[|added| - 1].key)
  }

  /** The first filter is for these keys, written or still waiting. */
  ghost predicate Heads(groups: seq<seq<Bytes>>, pending: seq<Bytes>, keys: seq<Bytes>) {
    if groups == [] then pending == keys else groups[0] == keys
  }

  lemma {:induction false} StartedHead(groups: seq<seq<Bytes>>, pending: seq<Bytes>, index: nat)
    requires groups != []
    ensures var g := FilterBlocks.Started(groups, pending, index); g != [] && g[0] == groups[0]
    decreases index - |groups|
  {
    if |groups| < index { StartedHead(groups + [pending], [], index); }
  }

  lemma StartedHeads(pending: seq<Bytes>, index: nat)
    ensures Heads(FilterBlocks.Started([], pending, index), if index == 0 then pending else [], pending)
  {
    if index > 0 {
      assert [] + [pending] == [pending];
      StartedHead([pending], [], index);
    }
  }

  lemma PendingAdd(es: seq<Entry>, pending: seq<Bytes>, e: Entry)
    requires AllPending(es, pending)
    ensures AllPending(es + [e], pending + [e.key])
  {
    forall i | 0 <= i < |es + [e]| ensures PendingAt(es + [e], pending + [e.key], i) {
      if i < |es| { assert PendingAt(es, pending, i); }
    }
  }

  /** Coverage is about handles and blocks only. */
  lemma CoversSame(p: GoodPlan, p': GoodPlan, groups: seq<seq<Bytes>>, pending: seq<Bytes>)
    requires Covers(p, groups, pending) && p'.handles == p.handles && p'.blocks == p.blocks
    ensures Covers(p', groups, pending)
  {
    forall j, q | 0 <= j && 0 <= q && Here(p', j, q) ensures KeyCovered(p', groups, pending, j, q) {
      assert KeyCovered(p, groups, pending, j, q);
    }
  }

  lemma CoversBlock(p: GoodPlan, b: Image, p': GoodPlan, groups: seq<seq<Bytes>>, pending: seq<Bytes>)
    requires Covers(p, groups, pending) && AllPending(b.entries, pending) && |groups| == |p.file| / FilterBlocks.BASE
    requires p' == WithBlock(p, b)
    ensures Covers(p', groups, pending)
  {
    forall j, q | 0 <= j && 0 <= q && Here(p', j, q) ensures KeyCovered(p', groups, pending, j, q) {
      if j < |p.blocks| {
        assert KeyCovered(p, groups, pending, j, q);
      } else {
        assert PendingAt(b.entries, pending, q);
      }
    }
  }

  /** The last keys become the last group. */
  lemma CoversFinish(p: GoodPlan, groups: seq<seq<Bytes>>, pending: seq<Bytes>)
    requires Covers(p, groups, pending)
    ensures Covers(p, if pending == [] then groups else groups + [pending], [])
  {
    var groups' := if pending == [] then groups else groups + [pending];
    forall j, q | 0 <= j && 0 <= q && Here(p, j, q) ensures KeyCovered(p, groups', [], j, q) {
      assert KeyCovered(p, groups, pending, j, q);
    }
  }

  // ------------------------------------------------------------------ the finished file

  /** Blocks, order and entries stay; the file and the index keys may have grown. */
  ghost predicate Follows(p: Plan, p': Plan) {
    p'.o == p.o && p'.seal == p.seal && p'.handles == p.handles && p'.blocks == p.blocks && p'.all == p.all
  }

  /** "table.properties". */
  function PropertiesKey(): Bytes {
    [116, 97, 98, 108, 101, 46, 112, 114, 111, 112, 101, 114, 116, 105, 101, 115]
  }

  ghost function MetaEntries(hasFilter: bool, filterKey: Bytes, filterHandle: Handle, propsHandle: Handle): seq<Entry> {
    (if hasFilter then [Entry(filterKey, HandleBytes(filterHandle))] else [])
      + [Entry(PropertiesKey(), HandleBytes(propsHandle))]
  }

  /** A table file: its data blocks, and where its other blocks are. */
  datatype TableImage = TableImage(plan: GoodPlan, index: GoodImage, indexHandle: Handle, meta: GoodImage,
    metaHandle: Handle, hasFilter: bool, filterHandle: Handle, filterContents: Bytes, propsHandle: Handle)

  ghost predicate TableOk(t: TableImage, filterKey: Bytes) {
    var file, seal := t.plan.file, t.plan.seal;
    && |t.plan.seps| == |t.plan.blocks| && t.index.entries == IndexEntries(t.plan.seps, t.plan.handles)
    && t.meta.entries == MetaEntries(t.hasFilter, filterKey, t.filterHandle, t.propsHandle)
    && StoredAt(file, t.indexHandle, Contents(t.index), seal) && StoredAt(file, t.metaHandle, Contents(t.meta), seal)
    && (t.hasFilter ==> StoredAt(file, t.filterHandle, t.filterContents, seal))
    && |file| >= FOOTER && file[|file| - FOOTER..] == FooterBytes(t.metaHandle, t.indexHandle)
  }
}

/** Everything a table builder knows between two calls, as one value. */
module TableProgress {
  import opened Guards
  import opened Coding
  import opened KeyOrder
  import opened BlockFormat
  import opened BlockImages
  import opened TableFormat
  import opened TablePlans
  import opened TableSteps
  import FilterBlocks

  /** es is in the block being filled, pending and h are the index entry that waits for the next key, and waiting are
      the keys whose filter is not made yet. */
  datatype Progress = Progress(hasFilter: bool, plan: Plan, es: seq<Entry>, lastKey: Bytes, pending: bool, h: Handle,
    index: seq<Entry>, groups: seq<seq<Bytes>>, waiting: seq<Bytes>, added: seq<Entry>)

  ghost predicate FilterOk(s: Progress)
    requires PlanOk(s.plan)
  {
    && |s.groups| == |s.plan.file| / FilterBlocks.BASE && AllPending(s.es, s.waiting)
    && Covers(s.plan, s.groups, s.waiting)
    && GroupsRise(s.plan.o, s.groups) && PendingRise(s.plan.o, s.waiting, s.added)
  }

  ghost predicate Consistent(s: Progress) {
    && PlanOk(s.plan) && Stands(s.plan, s.es, s.lastKey, s.pending, s.h)
    && s.index == IndexEntries(s.plan.seps, s.plan.handles)
    && s.added == s.plan.all + s.es && (s.added != [] ==> s.lastKey == s.added[|s.added| - 1].key)
    && (s.hasFilter ==> FilterOk(s))
  }

  ghost predicate ProgressOk(s: Progress) {
    forall i {:trigger Asked(i)} :: Asked(i) ==> Consistent(s)
  }

  ghost function NoProgress(hasFilter: bool, o: GoodOrder, seal: Seal): Progress {
    Progress(hasFilter, NoBlocks(o, seal), [], [], false, Handle(0, 0), [], [], [], [])
  }

  type GoodProgress = s: Progress | ProgressOk(s)
    ghost witness NoProgress(false, Order((a, b) => 0, (a, b) => a, a => a), SealOf(b => 0))

  lemma Begun(hasFilter: bool, o: GoodOrder, seal: Seal) returns (s: GoodProgress)
    ensures s == NoProgress(hasFilter, o, seal)
  {
    s := NoProgress(hasFilter, o, seal);
  }

  // ------------------------------------------------------------------------------ one more key

  ghost function IndexAfter(s: Progress, key: Bytes): seq<Entry> {
    if s.pending then s.index + [Entry(s.plan.o.sep(s.lastKey, key), HandleBytes(s.h))] else s.index
  }

  lemma PlanTakes(s: GoodProgress, e: Entry) returns (p: GoodPlan)
    requires s.added != [] ==> Less(s.plan.o, s.lastKey, e.key)
    ensures Stands(p, s.es + [e], e.key, false, s.h) && IndexAfter(s, e.key) == IndexEntries(p.seps, p.handles)
    ensures p == s.plan.(seps := p.seps) && (!s.pending ==> p == s.plan)
  {
    assert Asked(0);
    if s.plan.blocks != [] { SomeListed(s.plan); }
    if s.pending {
      p := SepStep(s.plan, s.lastKey, s.h, e.key);
      AddAfterSep(p, s.h, e);
    } else {
      p := s.plan;
      AddStep(p, s.es, s.lastKey, s.h, e);
    }
  }

  lemma FilterTakes(s: GoodProgress, p: GoodPlan, e: Entry)
    requires s.hasFilter && (s.added != [] ==> Less(s.plan.o, s.lastKey, e.key)) && p == s.plan.(seps := p.seps)
    ensures AllPending(s.es + [e], s.waiting + [e.key]) && Covers(p, s.groups, s.waiting + [e.key])
    ensures |s.groups| == |p.file| / FilterBlocks.BASE && GroupsRise(p.o, s.groups)
    ensures PendingRise(p.o, s.waiting + [e.key], s.added + [e])
  {
    assert Asked(0);
    PendingAdd(s.es, s.waiting, e);
    CoversSame(s.plan, p, s.groups, s.waiting);
    CoversAdd(p, s.groups, s.waiting, e.key);
    RisingKeysAdd(p.o, s.waiting, e.key);
  }

  ghost function Taken(s: Progress, p: Plan, e: Entry): Progress {
    Progress(s.hasFilter, p, s.es + [e], e.key, false, s.h, IndexAfter(s, e.key), s.groups,
             if s.hasFilter then s.waiting + [e.key] else s.waiting, s.added + [e])
  }

  lemma Takes(s: GoodProgress, e: Entry) returns (s': GoodProgress)
    requires s.added != [] ==> Less(s.plan.o, s.lastKey, e.key)
    ensures s' == Taken(s, s'.plan, e) && (!s.pending ==> s'.plan == s.plan)
    ensures s'.plan.o == s.plan.o && s'.plan.seal == s.plan.seal && s'.plan.file == s.plan.file
  {
    var p := PlanTakes(s, e);
    if s.hasFilter { FilterTakes(s, p, e); }
    var x := Taken(s, p, e);
    assert Consistent(x) by { assert Asked(0); }
    s' := x;
  }

  // ------------------------------------------------------------------------------ one more block

  /** The filters after a block that ends at an offset. */
  ghost function GroupsAt(s: Progress, end: nat): seq<seq<Bytes>> {
    if s.hasFilter then FilterBlocks.Started(s.groups, s.waiting, end / FilterBlocks.BASE) else s.groups
  }

  ghost function WaitingAt(s: Progress, end: nat): seq<Bytes> {
    if s.hasFilter && |s.groups| != end / FilterBlocks.BASE then [] else s.waiting
  }

  ghost function Flushed(s: Progress, p: Plan): Progress {
    Progress(s.hasFilter, p, [], s.lastKey, true, if p.handles == [] then s.h else p.handles[|p.handles| - 1], s.index,
             GroupsAt(s, |p.file|), WaitingAt(s, |p.file|), s.added)
  }

  lemma FilterStarts(s: GoodProgress, b: Image, p: GoodPlan)
    requires s.hasFilter && b.entries == s.es && p == WithBlock(s.plan, b)
    ensures |s.groups| <= |p.file| / FilterBlocks.BASE
    ensures Covers(p, GroupsAt(s, |p.file|), WaitingAt(s, |p.file|)) && GroupsRise(p.o, GroupsAt(s, |p.file|))
    ensures PendingRise(p.o, WaitingAt(s, |p.file|), s.added)
  {
    assert Asked(0);
    CoversBlock(s.plan, b, p, s.groups, s.waiting);
    CoversStart(p, s.groups, s.waiting, |p.file| / FilterBlocks.BASE);
    StartedRise(p.o, s.groups, s.waiting, |p.file| / FilterBlocks.BASE);
  }

  lemma {:induction false} StartedCount(groups: seq<seq<Bytes>>, pending: seq<Bytes>, index: nat)
    requires |groups| <= index
    ensures |FilterBlocks.Started(groups, pending, index)| == index
    decreases index - |groups|
  {
    if |groups| < index { StartedCount(groups + [pending], [], index); }
  }

  lemma Flushes(s: GoodProgress, b: Image) returns (s': GoodProgress)
    requires ImageOk(b) && b.entries == s.es != []
    ensures s' == Flushed(s, s'.plan) && s'.plan.file == s.plan.file + Contents(b) + s.plan.seal(Contents(b))
    ensures s'.h == Handle(|s.plan.file|, |Contents(b)|) && s'.plan.handles == s.plan.handles + [s'.h]
    ensures s'.plan.blocks == s.plan.blocks + [b] && s'.plan.o == s.plan.o && s'.plan.seal == s.plan.seal
    ensures s.hasFilter ==> |s.groups| <= |s'.plan.file| / FilterBlocks.BASE
  {
    assert Asked(0);
    var p := FlushStep(s.plan, b, s.lastKey, s.h);
    if s.hasFilter {
      FilterStarts(s, b, p);
      StartedCount(s.groups, s.waiting, |p.file| / FilterBlocks.BASE);
    }
    var x := Flushed(s, p);
    assert s.added == p.all + [];
    s' := x;
  }

  /** The groups once the keys that still wait have theirs. */
  ghost function LastGroups(groups: seq<seq<Bytes>>, waiting: seq<Bytes>): seq<seq<Bytes>> {
    if waiting == [] then groups else groups + [waiting]
  }

  /** The finished filter covers every key of every block, and its groups rise. */
  lemma FilterEnds(s: GoodProgress, p: GoodPlan)
    requires s.hasFilter && Follows(s.plan, p)
    ensures Covers(p, LastGroups(s.groups, s.waiting), []) && GroupsRise(p.o, LastGroups(s.groups, s.waiting))
  {
    assert Asked(0);
    CoversSame(s.plan, p, s.groups, s.waiting);
    CoversFinish(p, s.groups, s.waiting);
    GroupsAdd(p.o, s.groups, s.waiting);
  }

  /** The state once the last data block, of image b, is written. */
  ghost predicate Ends(s: Progress, b: Image, last: Progress) {
    && (s.es == [] ==> last == s)
    && (s.es != [] ==> last == Flushed(s, last.plan) && last.plan.blocks == s.plan.blocks + [b])
    && (s.es != [] ==> last.plan.handles == s.plan.handles + [Handle(|s.plan.file|, |Contents(b)|)])
  }

  // ------------------------------------------------------------------------------ after the last data block

  datatype Closing = Closing(plan: Plan, lastKey: Bytes, pending: bool, h: Handle, index: seq<Entry>)

  ghost predicate ClosingOk(c: Closing) {
    forall i {:trigger Asked(i)} :: Asked(i) ==>
      PlanOk(c.plan) && Stands(c.plan, [], c.lastKey, c.pending, c.h)
        && c.index == IndexEntries(c.plan.seps, c.plan.handles)
  }

  type GoodClosing = c: Closing | ClosingOk(c)
    ghost witness Closing(NoBlocks(Order((a, b) => 0, (a, b) => a, a => a), SealOf(b => 0)), [], false,
                          Handle(0, 0), [])

  lemma Closes(s: GoodProgress) returns (c: GoodClosing)
    requires s.es == []
    ensures c == Closing(s.plan, s.lastKey, s.pending, s.h, s.index) && c.plan.all == s.added
  {
    assert Asked(0);
    assert s.plan.all + [] == s.plan.all;
    c := Closing(s.plan, s.lastKey, s.pending, s.h, s.index);
  }

  lemma ClosingGrows(c: GoodClosing, more: Bytes) returns (c': GoodClosing)
    ensures c' == c.(plan := c'.plan) && c'.plan == c.plan.(file := c.plan.file + more)
  {
    assert Asked(0);
    var p := WritesMore(c.plan, more);
    StandsKept(c.plan, p.file, c.lastKey, c.pending, c.h, p);
    var x := c.(plan := p);
    c' := x;
  }

  /** The last index entry. */
  lemma ClosingEnds(c: GoodClosing) returns (p: GoodPlan, index: seq<Entry>)
    ensures |p.seps| == |p.blocks| && index == IndexEntries(p.seps, p.handles) && p == c.plan.(seps := p.seps)
    ensures index == if c.pending then c.index + [Entry(c.plan.o.succ(c.lastKey), HandleBytes(c.h))] else c.index
  {
    assert Asked(0);
    p, index := c.plan, c.index;
    if c.pending {
      p := LastSepStep(c.plan, c.lastKey, c.h);
      index := c.index + [Entry(c.plan.o.succ(c.lastKey), HandleBytes(c.h))];
    }
  }
}
