/** src/leveldb/table.cc: open a table that a builder wrote, and get a key from it. */
module TableReading {
  import opened Coding
  import opened KeyOrder
  import opened BlockFormat
  import opened BlockImages
  import opened BlockIterators
  import opened TableFormat
  import opened TablePlans
  import opened TableSteps
  import ByteOrder
  import FilterBlocks
  import TableBuilding
  import TableProgress

  datatype FilterRep = NoFilter | Filter(reader: FilterBlocks.Reader)

  /** What is kept of an open table. */
  datatype Rep = Unopened | Rep(index: Bytes, filter: FilterRep)

  /** A table that can be read: its file and its blocks are of sizes that the handles can hold. */
  ghost predicate Readable(t: TableImage, filterKey: Bytes, sum: Checksum) {
    && TableOk(t, filterKey) && |t.plan.file| < TWO64 && t.plan.seal == SealOf(sum)
    && ByteOrder.Compare(filterKey, PropertiesKey()) < 0
  }

  lemma StoredSmall(file: Bytes, h: Handle, contents: Bytes, seal: Seal)
    requires StoredAt(file, h, contents, seal) && |file| < TWO64
    ensures Small(h)
  {
  }

  /** The filter block covers the keys of every data block. */
  ghost predicate Filtered(t: TableImage, policy: FilterBlocks.Policy, groups: seq<seq<Bytes>>) {
    t.hasFilter ==>
      && t.filterContents == FilterBlocks.Contents(policy, groups) && |FilterBlocks.Data(policy, groups)| < TWO32
      && Covers(t.plan, groups, []) && GroupsRise(t.plan.o, groups)
  }

  /** The policy ignores what the order ignores: no filter of rising keys denies a key that
      compares equal to one of them. */
  ghost predicate Respects(policy: FilterBlocks.Policy, o: Order) {
    forall keys, x, k {:trigger Missed(policy, keys, x, k)} :: RisingKeys(o, keys) && o.cmp(x, k) == 0 ==>
      !Missed(policy, keys, x, k)
  }

  /** The filter of a list that has x denies k. */
  ghost predicate Missed(policy: FilterBlocks.Policy, keys: seq<Bytes>, x: Bytes, k: Bytes) {
    x in keys && !policy.may(k, policy.create(keys))
  }

  ghost predicate RepOk(r: Rep, t: TableImage, policy: FilterBlocks.Policy, groups: seq<seq<Bytes>>) {
    && r.Rep? && r.index == Contents(t.index)
    && (r.filter.Filter? ==> t.hasFilter && r.filter.reader == FilterBlocks.ReaderOf(policy, groups))
  }

  method OpenFilter(contents: Bytes, ghost policy: FilterBlocks.Policy, ghost groups: seq<seq<Bytes>>)
    returns (r: FilterBlocks.Reader)
    requires contents == FilterBlocks.Contents(policy, groups) && |FilterBlocks.Data(policy, groups)| < TWO32
    ensures r == FilterBlocks.ReaderOf(policy, groups)
  {
    r := FilterBlocks.OpenFilter(contents);
    assert contents == FilterBlocks.Sealed(FilterBlocks.Data(policy, groups), FilterBlocks.Offsets(policy, groups));
  }

  method DecodeHandle(value: Bytes, ghost h: Handle) returns (r: Parsed<Handle>)
    requires value == HandleBytes(h) && Small(h)
    ensures r == Ok(h, [])
  {
    HandleRoundTrip(h, []);
    assert value + [] == value;
    r := ParseHandle(value);
  }

  lemma BytewiseSeeks()
    ensures Orders(ByteOrder.Compare)
  {
    forall a, b, t | ByteOrder.Compare(a, b) >= 0 && ByteOrder.Compare(a, t) < 0 ensures ByteOrder.Compare(b, t) < 0 {
      ByteOrder.Reversed(a, b);
      ByteOrder.Reversed(b, a);
      ByteOrder.Transitive(b, a, t);
    }
  }

  lemma MetaInOrder(t: TableImage, filterKey: Bytes, sum: Checksum)
    requires Readable(t, filterKey, sum)
    ensures InOrder(ByteOrder.Compare, t.meta.entries)
  {
    ByteOrder.Reversed(filterKey, PropertiesKey());
  }

  /** Where a Seek for the filter's key lands in the metaindex. */
  lemma MetaLead(t: TableImage, filterKey: Bytes, sum: Checksum)
    requires Readable(t, filterKey, sum)
    ensures Lead(ByteOrder.Compare, t.meta.entries, filterKey) == 0 && |t.meta.entries| > 0
    ensures t.meta.entries[0].key == filterKey <==> t.hasFilter
    ensures t.hasFilter ==> t.meta.entries[0].value == HandleBytes(t.filterHandle)
  {
    ByteOrder.Reversed(filterKey, PropertiesKey());
    assert ByteOrder.Compare(filterKey, filterKey) == 0;
  }

  /** Table::Open; a filter is read only under a filter policy. */
  method Open(file: Bytes, sum: Checksum, verify: bool, usePolicy: bool, filterKey: Bytes,
              ghost t: TableImage, ghost policy: FilterBlocks.Policy, ghost groups: seq<seq<Bytes>>) returns (r: Rep)
    requires Readable(t, filterKey, sum) && file == t.plan.file && Filtered(t, policy, groups)
    ensures RepOk(r, t, policy, groups) && (r.filter.Filter? <==> usePolicy && t.hasFilter)
  {
    r := Unopened;
    if |file| >= FOOTER {
      StoredSmall(file, t.indexHandle, Contents(t.index), SealOf(sum));
      StoredSmall(file, t.metaHandle, Contents(t.meta), SealOf(sum));
      FooterRoundTrip(t.metaHandle, t.indexHandle);
      match ParseFooter(file[|file| - FOOTER..])
      case Fail =>
      case Ok(handles, _) =>
        var index := ReadBlock(file, handles.1, sum, verify);
        if index.Block? {
          var filter := NoFilter;
          if usePolicy {
            filter := ReadMeta(file, handles.0, sum, verify, filterKey, t, policy, groups);
          }
          r := Rep(index.contents, filter);
        }
    }
  }

  /** ReadMeta: look the filter up in the metaindex block. */
  method ReadMeta(file: Bytes, metaHandle: Handle, sum: Checksum, verify: bool, filterKey: Bytes,
      ghost t: TableImage, ghost policy: FilterBlocks.Policy, ghost groups: seq<seq<Bytes>>)
    returns (filter: FilterRep)
    requires Readable(t, filterKey, sum) && file == t.plan.file && metaHandle == t.metaHandle
    requires Filtered(t, policy, groups)
    ensures filter.Filter? <==> t.hasFilter
    ensures filter.Filter? ==> filter.reader == FilterBlocks.ReaderOf(policy, groups)
  {
    filter := NoFilter;
    var meta := ReadBlock(file, metaHandle, sum, verify);
    if meta.Block? {
      var found, value := FindMeta(meta.contents, filterKey, sum, t);
      if found {
        filter := ReadFilter(file, value, sum, verify, t, policy, groups);
      }
    }
  }

  /** The metaindex entry with the filter's key. */
  method FindMeta(contents: Bytes, filterKey: Bytes, ghost sum: Checksum, ghost t: TableImage)
    returns (found: bool, value: Bytes)
    requires Readable(t, filterKey, sum) && contents == Contents(t.meta)
    ensures found <==> t.hasFilter
    ensures found ==> value == HandleBytes(t.filterHandle)
  {
    var it := BlockIterators.Open(ByteOrder.Compare, contents, t.meta);
    BytewiseSeeks();
    MetaInOrder(t, filterKey, sum);
    MetaLead(t, filterKey, sum);
    it.Seek(filterKey);
    var valid, key;
    valid, key, value := it.Read();
    found := valid && key == filterKey;
  }

  method ReadFilter(file: Bytes, handleValue: Bytes, sum: Checksum, verify: bool,
      ghost t: TableImage, ghost policy: FilterBlocks.Policy, ghost groups: seq<seq<Bytes>>)
    returns (filter: FilterRep)
    requires t.hasFilter && StoredAt(file, t.filterHandle, t.filterContents, SealOf(sum)) && |file| < TWO64
    requires handleValue == HandleBytes(t.filterHandle) && Filtered(t, policy, groups)
    ensures filter == Filter(FilterBlocks.ReaderOf(policy, groups))
  {
    filter := NoFilter;
    StoredSmall(file, t.filterHandle, t.filterContents, SealOf(sum));
    var h := DecodeHandle(handleValue, t.filterHandle);
    if h.Ok? {
      var block := ReadBlock(file, h.value, sum, verify);
      if block.Block? {
        var reader := OpenFilter(block.contents, policy, groups);
        filter := Filter(reader);
      }
    }
  }

  // ------------------------------------------------------------------------------ get

  /** A stored key answers a request for k: the same bytes or, when a filter may be trusted with it, an equal key. */
  predicate Sought(o: Order, wide: bool, x: Bytes, k: Bytes) { x == k || (wide && o.cmp(x, k) == 0) }

  /** What InternalGet may hand back: the first entry of the table from k on, if anything,
      and surely one sought by k. */
  ghost predicate Answers(p: GoodPlan, wide: bool, k: Bytes, found: bool, e: Entry) {
    && (found ==> exists j, q :: IsAt(p, e, j, q) && SplitsAt(p, k, j, q))
    && (forall j, q {:trigger Here(p, j, q)} :: 0 <= j && 0 <= q && Here(p, j, q) ==>
          Sought(p.o, wide, p.blocks[j].entries[q].key, k) ==> found && e == p.blocks[j].entries[q])
  }

  /** The keys below k are exactly those before entry q of block j. */
  ghost predicate SplitsAt(p: GoodPlan, k: Bytes, j: nat, q: nat) {
    forall i, s {:trigger Here(p, i, s)} :: 0 <= i && 0 <= s && Here(p, i, s) ==>
      (p.o.cmp(p.blocks[i].entries[s].key, k) < 0 <==> Earlier(i, s, j, q))
  }

  lemma SoughtIsEqual(o: GoodOrder, wide: bool, x: Bytes, k: Bytes)
    requires Sought(o, wide, x, k)
    ensures o.cmp(x, k) == 0
  {
    Chain(o, k, k, k);
  }

  lemma Found(p: GoodPlan, wide: bool, k: Bytes, j: nat, q: nat, e: Entry)
    requires |p.seps| == |p.blocks| && j == Lead(p.o.cmp, IndexEntries(p.seps, p.handles), k) < |p.blocks|
    requires q == Lead(p.o.cmp, p.blocks[j].entries, k) && IsAt(p, e, j, q)
    ensures Answers(p, wide, k, true, e)
  {
    forall i, s | 0 <= i && 0 <= s && Here(p, i, s)
      ensures p.o.cmp(p.blocks[i].entries[s].key, k) < 0 <==> Earlier(i, s, j, q)
    {
      SearchSplits(p, k, j, q, i, s);
    }
    forall i, s | 0 <= i && 0 <= s && Here(p, i, s) && Sought(p.o, wide, p.blocks[i].entries[s].key, k)
      ensures e == p.blocks[i].entries[s]
    {
      SoughtIsEqual(p.o, wide, p.blocks[i].entries[s].key, k);
      SearchFinds(p, k, j, q, i, s);
    }
    assert SplitsAt(p, k, j, q);
  }

  /** Nothing from k on in the block that the index names, or no such block. */
  lemma NotFound(p: GoodPlan, wide: bool, k: Bytes, j: nat, q: nat, e: Entry)
    requires |p.seps| == |p.blocks| && j == Lead(p.o.cmp, IndexEntries(p.seps, p.handles), k)
    requires j < |p.blocks| ==> q == Lead(p.o.cmp, p.blocks[j].entries, k) == |p.blocks[j].entries|
    ensures Answers(p, wide, k, false, e)
  {
    forall i, s | 0 <= i && 0 <= s && Here(p, i, s) ensures !Sought(p.o, wide, p.blocks[i].entries[s].key, k) {
      if Sought(p.o, wide, p.blocks[i].entries[s].key, k) {
        SoughtIsEqual(p.o, wide, p.blocks[i].entries[s].key, k);
        SearchFinds(p, k, j, q, i, s);
      }
    }
  }

  /** The filter of the block that the index names for k denies k. */
  ghost predicate Denies(p: GoodPlan, policy: FilterBlocks.Policy, groups: seq<seq<Bytes>>, k: Bytes) {
    var j := Lead(p.o.cmp, IndexEntries(p.seps, p.handles), k);
    j < |p.blocks| && var i := p.handles[j].offset / FilterBlocks.BASE;
      i < |groups| && !policy.may(k, FilterBlocks.FilterOf(policy, groups[i]))
  }

  /** A filter that denies k does so only when nothing in the table is sought by k. */
  lemma Denied(p: GoodPlan, wide: bool, k: Bytes, e: Entry, policy: FilterBlocks.GoodPolicy, groups: seq<seq<Bytes>>)
    requires |p.seps| == |p.blocks| && Denies(p, policy, groups, k)
    requires Covers(p, groups, []) && GroupsRise(p.o, groups) && (wide ==> Respects(policy, p.o))
    ensures Answers(p, wide, k, false, e)
  {
    var j := Lead(p.o.cmp, IndexEntries(p.seps, p.handles), k);
    forall i, s | 0 <= i && 0 <= s && Here(p, i, s) ensures !Sought(p.o, wide, p.blocks[i].entries[s].key, k) {
      if Sought(p.o, wide, p.blocks[i].entries[s].key, k) {
        SoughtIsEqual(p.o, wide, p.blocks[i].entries[s].key, k);
        SearchFinds(p, k, j, Lead(p.o.cmp, p.blocks[j].entries, k), i, s);
        StoredMayMatch(p, wide, i, s, k, policy, groups);
      }
    }
  }

  /** The filter for a block does not deny a key that seeks a key of the block. */
  lemma StoredMayMatch(p: GoodPlan, wide: bool, j: nat, q: nat, k: Bytes, policy: FilterBlocks.GoodPolicy,
      groups: seq<seq<Bytes>>)
    requires Here(p, j, q) && Covers(p, groups, []) && GroupsRise(p.o, groups) && (wide ==> Respects(policy, p.o))
    requires Sought(p.o, wide, p.blocks[j].entries[q].key, k)
    ensures var i := p.handles[j].offset / FilterBlocks.BASE;
      i < |groups| && policy.may(k, FilterBlocks.FilterOf(policy, groups[i]))
  {
    assert KeyCovered(p, groups, [], j, q);
    var i := p.handles[j].offset / FilterBlocks.BASE;
    var x := p.blocks[j].entries[q].key;
    FilterBlocks.GroupMayMatch(policy, groups[i], x);
    assert GroupAt(p.o, groups, i);
    if x != k { assert !Missed(policy, groups[i], x, k); }
  }

  /** Block j is the one that the index keys assign to k. */
  ghost predicate Spans(p: Plan, k: Bytes, j: nat) {
    && |p.seps| == |p.blocks| && j < |p.blocks|
    && (j > 0 ==> p.o.cmp(p.seps[j - 1], k) < 0) && p.o.cmp(k, p.seps[j]) <= 0
  }

  /** An entry from k on in the block of k. */
  ghost predicate Stops(p: Plan, k: Bytes, j: nat, q: nat) {
    Spans(p, k, j) && Here(p, j, q) && p.o.cmp(p.blocks[j].entries[q].key, k) >= 0
  }

  /** k lies between an entry and the one before it in the same block, or before the very first. */
  ghost predicate JustBelow(p: Plan, k: Bytes, j: nat, q: nat) {
    && Here(p, j, q) && p.o.cmp(p.blocks[j].entries[q].key, k) >= 0
    && (if q > 0 then p.o.cmp(p.blocks[j].entries[q - 1].key, k) < 0 else j == 0)
  }

  /** When something is handed back, whether k is stored or not: exactly if the block of k has
      a key from k on, and so surely the next key if it is in the block of the one before. */
  ghost predicate Decides(p: Plan, k: Bytes, found: bool, e: Entry) {
    && (found <==> exists j: nat, q: nat :: Stops(p, k, j, q))
    && (forall j: nat, q: nat {:trigger JustBelow(p, k, j, q)} :: JustBelow(p, k, j, q) ==>
          found && e == p.blocks[j].entries[q])
  }

  lemma SpansIsLead(p: GoodPlan, k: Bytes, j: nat)
    requires |p.seps| == |p.blocks|
    ensures Spans(p, k, j) <==> j == Lead(p.o.cmp, IndexEntries(p.seps, p.handles), k) < |p.blocks|
  {
    var ix := IndexEntries(p.seps, p.handles);
    if j < |p.blocks| {
      OrderSeeks(p.o);
      SepsRise(p);
      Chain(p.o, p.seps[j], k, k);
      Chain(p.o, k, p.seps[j], k);
      assert ix[j].key == p.seps[j];
      LeadSplits(p.o.cmp, ix, k, j);
      if j > 0 {
        assert ix[j - 1].key == p.seps[j - 1];
        LeadSplits(p.o.cmp, ix, k, j - 1);
      }
    }
  }

  lemma JustBelowSpans(p: GoodPlan, k: Bytes, j: nat, q: nat)
    requires |p.seps| == |p.blocks| && JustBelow(p, k, j, q)
    ensures Spans(p, k, j)
  {
    var x := p.blocks[j].entries[q].key;
    UpToSep(p, j, q);
    Chain(p.o, x, k, k);
    Chain(p.o, k, x, p.seps[j]);
    if j > 0 {
      BeyondSep(p, j - 1, j, q - 1);
      Chain(p.o, p.seps[j - 1], p.blocks[j].entries[q - 1].key, k);
    }
  }

  lemma JustBelowLeads(p: GoodPlan, k: Bytes, j: nat, q: nat)
    requires JustBelow(p, k, j, q)
    ensures Lead(p.o.cmp, p.blocks[j].entries, k) == q
  {
    EntryLeads(p, k, j, q);
    if q > 0 { EntryLeads(p, k, j, q - 1); }
  }

  lemma EntryLeads(p: GoodPlan, k: Bytes, j: nat, q: nat)
    requires Here(p, j, q)
    ensures p.o.cmp(p.blocks[j].entries[q].key, k) < 0 <==> q < Lead(p.o.cmp, p.blocks[j].entries, k)
  {
    assert BlockAt(p, j);
    OrderSeeks(p.o);
    RisingInOrder(p.o, p.blocks[j].entries);
    LeadSplits(p.o.cmp, p.blocks[j].entries, k, q);
  }

  /** The search through index and block finds something exactly where it should. */
  lemma SearchDecides(p: GoodPlan, k: Bytes, j: nat, q: nat, e: Entry)
    requires |p.seps| == |p.blocks| && j == Lead(p.o.cmp, IndexEntries(p.seps, p.handles), k)
    requires j < |p.blocks| ==> q == Lead(p.o.cmp, p.blocks[j].entries, k)
    requires Here(p, j, q) ==> e == p.blocks[j].entries[q]
    ensures Decides(p, k, Here(p, j, q), e)
  {
    SpansIsLead(p, k, j);
    if Here(p, j, q) { assert Stops(p, k, j, q); }
    forall i: nat, s: nat | Stops(p, k, i, s) ensures Here(p, j, q) {
      SpansIsLead(p, k, i);
      EntryLeads(p, k, i, s);
    }
    forall i: nat, s: nat | JustBelow(p, k, i, s) ensures Here(p, j, q) && e == p.blocks[i].entries[s] {
      JustBelowSpans(p, k, i, s);
      JustBelowLeads(p, k, i, s);
      SpansIsLead(p, k, i);
    }
  }

  /** The index entry for k. */
  method SeekIndex(index: Bytes, o: GoodOrder, k: Bytes, ghost t: TableImage)
    returns (valid: bool, value: Bytes, ghost j: nat)
    requires index == Contents(t.index) && o == t.plan.o && |t.plan.seps| == |t.plan.blocks|
    requires t.index.entries == IndexEntries(t.plan.seps, t.plan.handles)
    ensures j == Lead(o.cmp, IndexEntries(t.plan.seps, t.plan.handles), k) && valid == (j < |t.plan.blocks|)
    ensures valid ==> value == HandleBytes(t.plan.handles[j])
  {
    j := Lead(o.cmp, t.index.entries, k);
    var it := BlockIterators.Open(o.cmp, index, t.index);
    OrderSeeks(o);
    SepsRise(t.plan);
    it.Seek(k);
    var key;
    valid, key, value := it.Read();
  }

  /** The data block at a handle, searched for k. */
  method SeekBlock(file: Bytes, o: GoodOrder, sum: Checksum, verify: bool, handleValue: Bytes, k: Bytes,
      ghost p: GoodPlan, ghost j: nat)
    returns (found: bool, e: Entry)
    requires file == p.file && o == p.o && p.seal == SealOf(sum) && |file| < TWO64
    requires j < |p.blocks| && handleValue == HandleBytes(p.handles[j])
    ensures found == (Lead(o.cmp, p.blocks[j].entries, k) < |p.blocks[j].entries|)
    ensures found ==> e == p.blocks[j].entries[Lead(o.cmp, p.blocks[j].entries, k)]
  {
    found, e := false, Entry([], []);
    assert BlockAt(p, j);
    StoredSmall(file, p.handles[j], Contents(p.blocks[j]), p.seal);
    var h := DecodeHandle(handleValue, p.handles[j]);
    if h.Ok? {
      var block := ReadBlock(file, h.value, sum, verify);
      if block.Block? {
        var it := BlockIterators.Open(o.cmp, block.contents, p.blocks[j]);
        OrderSeeks(o);
        RisingInOrder(o, p.blocks[j].entries);
        it.Seek(k);
        var key, value;
        found, key, value := it.Read();
        e := Entry(key, value);
      }
    }
  }

  /** InternalGet: what is handed to the saver, if it is called. */
  method InternalGet(r: Rep, file: Bytes, o: GoodOrder, sum: Checksum, verify: bool, policy: FilterBlocks.GoodPolicy,
      k: Bytes, ghost t: TableImage, ghost filterKey: Bytes, ghost groups: seq<seq<Bytes>>)
    returns (found: bool, e: Entry)
    requires Readable(t, filterKey, sum) && Filtered(t, policy, groups) && RepOk(r, t, policy, groups)
    requires file == t.plan.file && o == t.plan.o
    ensures Answers(t.plan, r.filter.Filter? ==> Respects(policy, o), k, found, e)
    ensures r.filter.Filter? && Denies(t.plan, policy, groups, k) ==> !found
    ensures !(r.filter.Filter? && Denies(t.plan, policy, groups, k)) ==> Decides(t.plan, k, found, e)
  {
    ghost var wide := r.filter.Filter? ==> Respects(policy, o);
    found, e := false, Entry([], []);
    var valid, value, j := SeekIndex(r.index, o, k, t);
    if !valid {
      NotFound(t.plan, wide, k, j, 0, e);
      SearchDecides(t.plan, k, j, 0, e);
    } else {
      var skip := Skips(r.filter, policy, value, k, t.plan, j, groups);
      if skip {
        Denied(t.plan, wide, k, e, policy, groups);
      } else {
        found, e := SeekBlock(file, o, sum, verify, value, k, t.plan, j);
        ghost var q := Lead(o.cmp, t.plan.blocks[j].entries, k);
        if found { Found(t.plan, wide, k, j, q, e); } else { NotFound(t.plan, wide, k, j, q, e); }
        SearchDecides(t.plan, k, j, q, e);
      }
    }
  }

  /** The filter, if there is one and the handle can be decoded, denies k. */
  method Skips(filter: FilterRep, policy: FilterBlocks.Policy, handleValue: Bytes, k: Bytes, ghost p: GoodPlan,
      ghost j: nat, ghost groups: seq<seq<Bytes>>)
    returns (skip: bool)
    requires j < |p.blocks| && handleValue == HandleBytes(p.handles[j]) && |p.file| < TWO64
    requires filter.Filter? ==>
      filter.reader == FilterBlocks.ReaderOf(policy, groups) && |FilterBlocks.Data(policy, groups)| < TWO32
    ensures skip <==> filter.Filter? && var i := p.handles[j].offset / FilterBlocks.BASE;
      i < |groups| && !policy.may(k, FilterBlocks.FilterOf(policy, groups[i]))
  {
    skip := false;
    assert BlockAt(p, j);
    if filter.Filter? {
      var h := DecodeHandle(handleValue, p.handles[j]);
      if h.Ok? {
        var may := FilterBlocks.KeyMayMatch(policy, filter.reader, h.value.offset, k, groups);
        skip := !may;
      }
    }
  }

  /** "filter." and the name of the policy. */
  function FilterKey(name: Bytes): Bytes { [102, 105, 108, 116, 101, 114, 46] + name }

  /** The filter's key comes first in the metaindex. */
  lemma FilterKeyFirst(name: Bytes)
    ensures ByteOrder.Compare(FilterKey(name), PropertiesKey()) < 0
  {
  }

  /** What is said of places in blocks, said of the list of all entries. */
  lemma AnswersListed(p: GoodPlan, wide: bool, k: Bytes, found: bool, e: Entry)
    requires Answers(p, wide, k, found, e)
    ensures forall x :: x in p.all && Sought(p.o, wide, x.key, k) ==> found && e == x
    ensures found ==> e in p.all && p.o.cmp(e.key, k) >= 0
    ensures found ==> forall x :: x in p.all && p.o.cmp(x.key, k) >= 0 ==> p.o.cmp(e.key, x.key) <= 0
  {
    forall x | x in p.all && Sought(p.o, wide, x.key, k) ensures found && e == x {
      var j, q := Home(p, x);
      assert Here(p, j, q);
    }
    if found {
      var j, q :| IsAt(p, e, j, q) && SplitsAt(p, k, j, q);
      assert ListedAt(p, j, q) && Here(p, j, q);
      forall x | x in p.all && p.o.cmp(x.key, k) >= 0 ensures p.o.cmp(e.key, x.key) <= 0 {
        var i, s := Home(p, x);
        assert Here(p, i, s);
        LaterIsAbove(p, j, q, i, s);
      }
    }
  }

  lemma Home(p: GoodPlan, x: Entry) returns (j: nat, q: nat)
    requires x in p.all
    ensures IsAt(p, x, j, q)
  {
    var i :| 0 <= i < |p.all| && p.all[i] == x;
    assert HomeAt(p, i);
    j, q :| IsAt(p, p.all[i], j, q);
  }

  /** Keys rise from block to block. */
  lemma LaterIsAbove(p: GoodPlan, j: nat, q: nat, i: nat, s: nat)
    requires |p.seps| <= |p.blocks| && Here(p, j, q) && Here(p, i, s) && !Earlier(i, s, j, q)
    ensures p.o.cmp(p.blocks[j].entries[q].key, p.blocks[i].entries[s].key) <= 0
  {
    if i == j {
      assert BlockAt(p, j);
      RisingFrom(p.o, p.blocks[j].entries, q, s);
    } else {
      UpToSep(p, j, q);
      BeyondSep(p, j, i, s);
      Chain(p.o, p.blocks[j].entries[q].key, p.seps[j], p.blocks[i].entries[s].key);
    }
  }

  /** Open a finished table and get a key. An added key is handed back with its value, and so is one that compares equal
      to the key asked for, if no filter is used or its policy ignores what the order ignores. For any other key, if
      anything is handed back, it is the least added key above it. */
  method Lookup(file: Bytes, o: GoodOrder, sum: Checksum, verify: bool, policy: FilterBlocks.GoodPolicy,
      usePolicy: bool, name: Bytes, k: Bytes, ghost t: TableImage, ghost groups: seq<seq<Bytes>>)
    returns (found: bool, e: Entry)
    requires TableOk(t, FilterKey(name)) && |file| < TWO64 && file == t.plan.file && t.plan.seal == SealOf(sum)
    requires Filtered(t, policy, groups) && o == t.plan.o
    ensures forall x :: x in t.plan.all && x.key == k ==> found && e == x
    ensures (usePolicy && t.hasFilter ==> Respects(policy, o)) ==>
      forall x :: x in t.plan.all && o.cmp(x.key, k) == 0 ==> found && e == x
    ensures found ==> e in t.plan.all && o.cmp(e.key, k) >= 0
    ensures found ==> forall x :: x in t.plan.all && o.cmp(x.key, k) >= 0 ==> o.cmp(e.key, x.key) <= 0
    ensures usePolicy && t.hasFilter && Denies(t.plan, policy, groups, k) ==> !found
    ensures !(usePolicy && t.hasFilter && Denies(t.plan, policy, groups, k)) ==> Decides(t.plan, k, found, e)
  {
    FilterKeyFirst(name);
    var r := Open(file, sum, verify, usePolicy, FilterKey(name), t, policy, groups);
    found, e := InternalGet(r, file, o, sum, verify, policy, k, t, FilterKey(name), groups);
    AnswersListed(t.plan, r.filter.Filter? ==> Respects(policy, o), k, found, e);
  }

  /** A table that is finished and read back, unless it outgrows its 64-bit handles or its filter the 32-bit
      offsets: every key that was added is handed back with its value. */
  method FinishAndLookup(b: TableBuilding.TableBuilder, sum: Checksum, verify: bool, policy: FilterBlocks.GoodPolicy,
                         usePolicy: bool, name: Bytes, props: Bytes, k: Bytes)
    returns (done: bool, found: bool, e: Entry, ghost t: TableImage, ghost last: TableProgress.GoodProgress)
    requires b.Valid() && !b.closed && b.FinishFits() && |FilterKey(name)| + 100 < TWO32
    requires b.seal == SealOf(sum) && b.filter.policy == policy
    modifies b, b.data, b.index, b.filter
    ensures done == (|b.file| < TWO64 && (b.hasFilter ==> |b.filter.result| < TWO32))
    ensures done ==> forall x :: x in old(b.Added()) && x.key == k ==> found && e == x
    ensures done && (usePolicy && b.hasFilter ==> Respects(policy, b.o)) ==>
      forall x :: x in old(b.Added()) && b.o.cmp(x.key, k) == 0 ==> found && e == x
    ensures done && found ==> e in old(b.Added()) && b.o.cmp(e.key, k) >= 0
    ensures done && found ==> forall x :: x in old(b.Added()) && b.o.cmp(x.key, k) >= 0 ==> b.o.cmp(e.key, x.key) <= 0
    ensures TableOk(t, FilterKey(name)) && t.plan.file == b.file && t.plan.all == old(b.Added()) && t.plan.o == b.o
    ensures TableProgress.Ends(old(b.s), old(b.data.b), last) && Follows(last.plan, t.plan)
    ensures t.hasFilter == b.hasFilter
    ensures b.hasFilter ==> b.filter.groups == TableProgress.LastGroups(last.groups, last.waiting)
    ensures b.hasFilter ==> t.filterContents == b.filter.result
    ensures done && usePolicy && b.hasFilter && Denies(t.plan, policy, b.filter.groups, k) ==> !found
    ensures done && !(usePolicy && b.hasFilter && Denies(t.plan, policy, b.filter.groups, k)) ==>
      Decides(t.plan, k, found, e)
  {
    found, e := false, Entry([], []);
    t, last := b.Finish(FilterKey(name), props);
    done := |b.file| < TWO64 && (b.hasFilter ==> |b.filter.result| < TWO32);
    if done {
      if b.hasFilter { FilterSmall(b.filter.policy, b.filter.groups); }
      found, e := Lookup(b.file, b.o, sum, verify, policy, usePolicy, name, k, t, b.filter.groups);
    }
  }

  lemma FilterSmall(policy: FilterBlocks.Policy, groups: seq<seq<Bytes>>)
    ensures |FilterBlocks.Data(policy, groups)| <= |FilterBlocks.Contents(policy, groups)|
  {
  }
}

/**
  When a filter may be used. include/pdlfs-common/leveldb/filter_policy.h asks that a policy ignore what the comparator
  ignores; this is exactly what it takes for every key that compares equal to an added one to be found.
 */
module TableFilters {
  import opened Coding
  import opened KeyOrder
  import opened BlockFormat
  import opened BlockImages
  import opened BlockIterators
  import opened TableFormat
  import opened TablePlans
  import opened TableSteps
  import opened TableProgress
  import opened TableBuilding
  import opened TableReading
  import Bloom
  import FilterBlocks

  /** An order that tells different strings apart is respected by every policy. */
  lemma ExactOrderIsRespected(policy: FilterBlocks.GoodPolicy, o: Order)
    requires forall a, b :: o.cmp(a, b) == 0 ==> a == b
    ensures Respects(policy, o)
  {
    forall keys, x, k | RisingKeys(o, keys) && o.cmp(x, k) == 0 ensures !Missed(policy, keys, x, k) {
      assert x == k;
    }
  }

  /** The bytewise comparator goes with any policy. */
  lemma BytewiseIsRespected(policy: FilterBlocks.GoodPolicy)
    ensures Respects(policy, Bytewise())
  {
    ExactOrderIsRespected(policy, Bytewise());
  }

  // ---------------------------------------------------------------------- a key that is lost

  ghost function EntriesOf(keys: seq<Bytes>): seq<Entry> {
    seq(|keys|, i requires 0 <= i < |keys| => Entry(keys[i], []))
  }

  /** A bound on the bytes of a block that holds these keys without values. */
  function Bulk(keys: seq<Bytes>): nat {
    if keys == [] then 0 else Bulk(keys[..|keys| - 1]) + |keys[|keys| - 1]| + HEADER_LIMIT
  }

  lemma {:induction false} BulkGrows(keys: seq<Bytes>, i: nat)
    requires i <= |keys|
    ensures Bulk(keys[..i]) <= Bulk(keys)
  {
    if i == |keys| {
      assert keys[..i] == keys;
    } else {
      BulkGrows(keys[..|keys| - 1], i);
      assert keys[..|keys| - 1][..i] == keys[..i];
    }
  }

  lemma BulkStep(keys: seq<Bytes>, i: nat)
    requires i < |keys|
    ensures Bulk(keys[..i]) + |keys[i]| + HEADER_LIMIT == Bulk(keys[..i + 1]) <= Bulk(keys)
  {
    assert keys[..i + 1][..i] == keys[..i];
    BulkGrows(keys, i + 1);
  }

  /** A builder that holds the keys in one unwritten block. */
  ghost predicate OneBlock(b: TableBuilder, keys: seq<Bytes>)
    reads b, b.data, b.index, b.filter
  {
    && b.Valid() && !b.closed && b.hasFilter && b.blockSize > BLOCK_LIMIT && b.index.buffer == []
    && b.s.plan == NoBlocks(b.o, b.seal) && !b.s.pending && b.s.groups == [] && b.s.waiting == keys
    && b.s.es == b.s.added == EntriesOf(keys) && |b.data.buffer| <= Bulk(keys)
  }

  /** Rising keys, put into one block. */
  method FillBlock(o: GoodOrder, seal: Seal, policy: FilterBlocks.Policy, keys: seq<Bytes>) returns (b: TableBuilder)
    requires RisingKeys(o, keys) && Bulk(keys) < TWO32
    ensures fresh(b) && fresh(b.data) && fresh(b.index) && fresh(b.filter) && OneBlock(b, keys)
    ensures b.o == o && b.seal == seal && b.filter.policy == policy
    ensures keys != [] ==> b.lastKey == keys[|keys| - 1]
  {
    b := new TableBuilder(o, seal, BLOCK_LIMIT + 1, 16, 1, true, policy);
    assert EntriesOf(keys[..0]) == [];
    for i := 0 to |keys|
      invariant fresh(b) && fresh(b.data) && fresh(b.index) && fresh(b.filter) && OneBlock(b, keys[..i])
      invariant i > 0 ==> b.lastKey == keys[i - 1]
    {
      BulkStep(keys, i);
      if i > 0 { assert RisingKeyAt(o, keys, i); }
      b.data.RoomFor(keys[i], []);
      b.Add(keys[i], []);
      assert keys[..i] + [keys[i]] == keys[..i + 1];
      assert EntriesOf(keys[..i]) + [Entry(keys[i], [])] == EntriesOf(keys[..i + 1]);
    }
    assert keys[..|keys|] == keys;
  }

  /** The first filter of a table with one block is that of its keys. */
  lemma HeadGroup(s: Progress, keys: seq<Bytes>, end: nat)
    requires s.hasFilter && s.groups == [] && s.waiting == keys != []
    ensures var g := LastGroups(GroupsAt(s, end), WaitingAt(s, end)); g != [] && g[0] == keys
  {
    StartedHeads(keys, end / FilterBlocks.BASE);
  }

  /** In a table of one block at the start of the file, whose first filter is that of its keys, that filter decides. */
  lemma OneBlockDenies(p: GoodPlan, keys: seq<Bytes>, i: nat, k: Bytes, policy: FilterBlocks.Policy,
      groups: seq<seq<Bytes>>)
    requires |p.seps| == |p.blocks| == 1 && p.blocks[0].entries == EntriesOf(keys) && p.handles[0].offset == 0
    requires groups != [] && groups[0] == keys && i < |keys| && p.o.cmp(keys[i], k) == 0
    requires !policy.may(k, policy.create(keys))
    ensures Denies(p, policy, groups, k)
  {
    var j := Lead(p.o.cmp, IndexEntries(p.seps, p.handles), k);
    var q := if j < 1 then Lead(p.o.cmp, p.blocks[0].entries, k) else 0;
    assert Here(p, 0, i);
    SearchFinds(p, k, j, q, 0, i);
  }

  /** The converse: if the filter of some rising keys denies a key that compares equal to one
      of them, the table of these keys loses it.  The keys must fit one block, the index key
      above them the index, and file and filter their offsets. */
  method LoseKey(o: GoodOrder, sum: Checksum, verify: bool, policy: FilterBlocks.GoodPolicy, name: Bytes, props: Bytes,
                 keys: seq<Bytes>, i: nat, k: Bytes)
    returns (file: Bytes, filter: Bytes, found: bool, ghost t: TableImage)
    requires RisingKeys(o, keys) && i < |keys| && o.cmp(keys[i], k) == 0 && !policy.may(k, policy.create(keys))
    requires Bulk(keys) < TWO32 && |o.succ(keys[|keys| - 1])| + 100 < TWO32 && |FilterKey(name)| + 100 < TWO32
    ensures TableOk(t, FilterKey(name)) && t.plan.file == file && t.plan.all == EntriesOf(keys)
    ensures t.hasFilter && t.filterContents == filter && t.plan.o == o
    ensures |file| < TWO64 && |filter| < TWO32 ==> !found
  {
    var b := FillBlock(o, SealOf(sum), policy, keys);
    ghost var s := b.s;
    HandleLength(Handle(|b.file|, |Contents(b.data.b)|));
    b.index.RoomFor(o.succ(keys[|keys| - 1]), HandleBytes(Handle(|b.file|, |Contents(b.data.b)|)));
    var done, e;
    ghost var last;
    done, found, e, t, last := FinishAndLookup(b, sum, verify, policy, true, name, props, k);
    file, filter := b.file, b.filter.result;
    HeadGroup(s, keys, |last.plan.file|);
    OneBlockDenies(t.plan, keys, i, k, policy, b.filter.groups);
  }

  // ------------------------------------------------------------------------------- an input

  /** An order that looks at nothing but the length. */
  function ByLength(): Order {
    Order((a: Bytes, b: Bytes) => |a| - |b|, (a: Bytes, b: Bytes) => a, (a: Bytes) => a)
  }

  lemma ByLengthIsLawful()
    ensures Lawful(ByLength())
  {
    forall a, b, c | Triple(a, b, c) ensures LawsAt(ByLength(), a, b, c) { }
  }

  /** For keys compared by length, a Bloom filter with "A" denies "a" as soon as their hashes are 0 and 1. */
  lemma BloomCanMiss(hash: Bloom.Hash, bitsPerKey: nat)
    requires hash([65]) == 0 && hash([97]) == 1
    ensures RisingKeys(ByLength(), [[65]]) && ByLength().cmp([65], [97]) == 0
    ensures Missed(FilterBlocks.BloomPolicy(hash, bitsPerKey), [[65]], [65], [97])
    ensures !Respects(FilterBlocks.BloomPolicy(hash, bitsPerKey), ByLength())
  {
    var policy := FilterBlocks.BloomPolicy(hash, bitsPerKey);
    OneBitApart(hash, bitsPerKey, [65], [97], [[65]]);
    assert Missed(policy, [[65]], [65], [97]);
  }

  /** Every probe of hash 0 is bit 0. */
  lemma OnlyBitZero(zero: Bloom.Word, k: nat, n: nat, i: nat)
    requires zero == 0 && n > 0 && i > 0
    ensures !Bloom.Probed(zero, k, n, i)
  {
    forall j: nat ensures Bloom.Position(zero, j, n) == 0 { ProbesOfZero(zero, j); }
  }

  lemma NotCovered(hash: Bloom.Hash, keys: seq<Bytes>, x: Bytes, k: nat, n: nat, i: nat)
    requires keys == [x] && hash(x) == 0 && n > 0 && i > 0
    ensures !Bloom.Covered(hash, keys, k, n, i)
  {
    OnlyBitZero(hash(x), k, n, i);
  }

  /** The first probe of hash 1 is bit 1, which a key of hash 0 does not set. */
  lemma OneBitApart(hash: Bloom.Hash, bitsPerKey: nat, x: Bytes, y: Bytes, keys: seq<Bytes>)
    requires hash(x) == 0 && hash(y) == 1 && keys == [x]
    ensures !Bloom.MayMatch(hash, y, Bloom.Filter(hash, bitsPerKey, keys))
  {
    var n, k := Bloom.FilterBytes(bitsPerKey, |keys|), Bloom.Probes(bitsPerKey);
    NotCovered(hash, keys, x, k, n, 1);
    FirstProbe(hash(y), 0, n);
    Bloom.UncoveredIsDenied(hash, bitsPerKey, keys, y, 0, n, k);
  }

  lemma FirstProbe(one: Bloom.Word, j: nat, n: nat)
    requires one == 1 && j == 0 && n >= 8
    ensures Bloom.Position(one, j, n) == 1
  {
  }

  lemma {:induction false} ProbesOfZero(zero: Bloom.Word, j: nat)
    requires zero == 0
    ensures Bloom.Probe(zero, j) == 0
  {
    if j > 0 { ProbesOfZero(zero, j - 1); }
  }
}
