/** src/leveldb/table_builder.cc and src/leveldb/index_block.cc; the file takes every append. */
module TableBuilding {
  import opened Coding
  import opened KeyOrder
  import opened BlockFormat
  import opened BlockImages
  import opened BlockBuilding
  import opened TableFormat
  import opened TablePlans
  import opened TableSteps
  import opened TableProgress
  import FilterBlocks

  /** No block is larger: its data and the number of its restart points are below 2^32. */
  const BLOCK_LIMIT: nat := 5 * TWO32 + 4

  lemma ContentsLimit(b: GoodImage)
    ensures |Contents(b)| <= BLOCK_LIMIT
  {
    CountReads(b);
  }

  class TableBuilder {
    const o: GoodOrder
    const seal: Seal
    const blockSize: nat
    const hasFilter: bool
    const data: BlockBuilder
    const index: BlockBuilder
    const filter: FilterBlocks.FilterBlockBuilder
    var file: Bytes
    var offset: nat
    var lastKey: Bytes
    var numEntries: nat
    var pendingIndexEntry: bool
    var pendingHandle: Handle
    var closed: bool
    ghost var s: GoodProgress

    /** The block builders are in working order. */
    ghost predicate Parts()
      reads this, data, index, filter
    {
      && data != index && data.Valid() && !data.finished && index.Valid() && !index.finished && filter.Valid()
    }

    /** The fields are those of the ghost state. */
    ghost predicate Shows()
      reads this, data, index, filter
    {
      && s.hasFilter == hasFilter && s.plan.o == o && s.plan.seal == seal && s.plan.file == file && offset == |file|
      && s.es == data.b.entries && s.index == index.b.entries && numEntries == |s.added|
      && s.lastKey == lastKey && s.pending == pendingIndexEntry && s.h == pendingHandle
      && s.groups == filter.groups && s.waiting == filter.pending
    }

    ghost predicate Valid()
      reads this, data, index, filter
    {
      Parts() && Shows()
    }

    /** The entries added so far. */
    ghost function Added(): seq<Entry>
      reads this
    {
      s.added
    }

    constructor (o: GoodOrder, seal: Seal, blockSize: nat, interval: int, indexInterval: int, hasFilter: bool,
                 policy: FilterBlocks.Policy)
      ensures Valid() && !closed && s == NoProgress(hasFilter, o, seal)
      ensures this.o == o && this.seal == seal && this.hasFilter == hasFilter && this.blockSize == blockSize
      ensures filter.policy == policy && fresh(data) && fresh(index) && fresh(filter)
      ensures data.buffer == index.buffer == []
    {
      this.o, this.seal, this.blockSize, this.hasFilter := o, seal, blockSize, hasFilter;
      var d := new BlockBuilder(interval);
      var x := new BlockBuilder(indexInterval);
      var f := new FilterBlocks.FilterBlockBuilder(policy);
      data, index, filter := d, x, f;
      file, offset, lastKey, numEntries := [], 0, [], 0;
      pendingIndexEntry, pendingHandle, closed := false, Handle(0, 0), false;
      ghost var begun := Begun(hasFilter, o, seal);
      s := begun;
      new;
      if hasFilter { filter.StartBlock(0); }
    }

    /** The new key still fits the data block, and the index entry that it completes fits the index. */
    ghost predicate Fits(key: Bytes, value: Bytes)
      reads this, data, index
    {
      data.Room(key, value) && (pendingIndexEntry ==> index.Room(o.sep(lastKey, key), HandleBytes(pendingHandle)))
    }

    method Add(key: Bytes, value: Bytes)
      requires Valid() && !closed && Fits(key, value)
      requires numEntries > 0 ==> Less(o, lastKey, key)
      modifies this, data, index, filter
      ensures Valid() && !closed && Added() == old(Added()) + [Entry(key, value)] && lastKey == key
      ensures data.b.entries == [] || |Contents(data.b)| < blockSize
      ensures blockSize > BLOCK_LIMIT && !old(pendingIndexEntry) ==>
        && s == Taken(old(s), old(s.plan), Entry(key, value)) && index.buffer == old(index.buffer)
        && |data.buffer| <= |old(data.buffer)| + |key| + |value| + HEADER_LIMIT
    {
      TakeKey(key, value);
      data.IsGood();
      ContentsLimit(data.b);
      FlushIfFull();
    }

    /** The key and its value go into the builders; a pending index entry is completed first. */
    method TakeKey(key: Bytes, value: Bytes)
      requires Valid() && !closed && Fits(key, value)
      requires numEntries > 0 ==> Less(o, lastKey, key)
      modifies this, data, index, filter
      ensures Valid() && !closed && s == Taken(old(s), s.plan, Entry(key, value))
      ensures !old(s.pending) ==> s.plan == old(s.plan) && index.buffer == old(index.buffer)
      ensures |data.buffer| <= |old(data.buffer)| + |key| + |value| + HEADER_LIMIT
    {
      ghost var s' := Takes(s, Entry(key, value));
      Feed(key, value);
      Count(key, s');
    }

    /** The rest of Add's bookkeeping, once the builders have taken the key. */
    method Count(key: Bytes, ghost s': GoodProgress)
      requires Parts() && numEntries + 1 == |s'.added| && s'.lastKey == key && offset == |file|
      requires s'.hasFilter == hasFilter && s'.plan.o == o && s'.plan.seal == seal && s'.plan.file == file
      requires s'.es == data.b.entries && s'.index == index.b.entries
      requires s'.pending == pendingIndexEntry && s'.h == pendingHandle
      requires s'.groups == filter.groups && s'.waiting == filter.pending
      modifies this`lastKey, this`numEntries, this`s
      ensures Valid() && s == s'
    {
      lastKey := key;
      numEntries := numEntries + 1;
      s := s';
    }

    method Feed(key: Bytes, value: Bytes)
      requires Parts() && Fits(key, value)
      modifies this`lastKey, this`pendingIndexEntry, data, index, filter
      ensures Parts() && !pendingIndexEntry
      ensures old(pendingIndexEntry) ==>
        index.b.entries == old(index.b.entries) + [Entry(o.sep(old(lastKey), key), HandleBytes(pendingHandle))]
      ensures !old(pendingIndexEntry) ==> index.b == old(index.b) && index.buffer == old(index.buffer)
      ensures filter.groups == old(filter.groups)
      ensures filter.pending == if hasFilter then old(filter.pending) + [key] else old(filter.pending)
      ensures data.b.entries == old(data.b.entries) + [Entry(key, value)]
      ensures |data.buffer| <= |old(data.buffer)| + |key| + |value| + HEADER_LIMIT
    {
      AddIndexEntry(key);
      NoteKey(key);
      data.Add(key, value);
    }

    method NoteKey(key: Bytes)
      requires filter.Valid()
      modifies filter
      ensures filter.Valid() && filter.groups == old(filter.groups)
      ensures filter.pending == if hasFilter then old(filter.pending) + [key] else old(filter.pending)
    {
      if hasFilter {
        filter.AddKey(key);
      }
    }

    /** The index entry of the last block, if it still waits for the next key. */
    method AddIndexEntry(key: Bytes)
      requires index.Valid() && !index.finished
      requires pendingIndexEntry ==> index.Room(o.sep(lastKey, key), HandleBytes(pendingHandle))
      modifies this`lastKey, this`pendingIndexEntry, index
      ensures index.Valid() && !index.finished && !pendingIndexEntry
      ensures old(pendingIndexEntry) ==>
        index.b.entries == old(index.b.entries) + [Entry(o.sep(old(lastKey), key), HandleBytes(pendingHandle))]
      ensures !old(pendingIndexEntry) ==> index.b == old(index.b) && index.buffer == old(index.buffer)
    {
      if pendingIndexEntry {
        lastKey := o.sep(lastKey, key);
        index.Add(lastKey, HandleBytes(pendingHandle));
        pendingIndexEntry := false;
      }
    }

    method FlushIfFull()
      requires Valid() && !closed
      modifies this`file, this`offset, this`pendingIndexEntry, this`pendingHandle, this`s, data, filter
      ensures Valid() && !closed && s.added == old(s.added) && lastKey == old(lastKey)
      ensures data.b.entries == [] || |Contents(data.b)| < blockSize
      ensures |Contents(old(data.b))| < blockSize ==>
        s == old(s) && data.buffer == old(data.buffer) && data.b == old(data.b)
    {
      var estimate := data.CurrentSizeEstimate();
      if estimate >= blockSize {
        Flush();
      }
    }

    /** Write the data block, whatever is in it; nothing if it is empty. */
    method Flush()
      requires Valid() && !closed
      modifies this`file, this`offset, this`pendingIndexEntry, this`pendingHandle, this`s, data, filter
      ensures Valid() && !closed && s.es == [] && s.added == old(s.added)
      ensures old(s.es) == [] ==> s == old(s)
      ensures old(s.es) != [] ==>
        && s == Flushed(old(s), s.plan) && s.h == Handle(|old(file)|, |Contents(old(data.b))|)
        && s.plan.blocks == old(s.plan.blocks) + [old(data.b)] && s.plan.handles == old(s.plan.handles) + [s.h]
    {
      data.EmptyMeans();
      if data.Empty() { return; }
      data.IsGood();
      ghost var s' := Flushes(s, data.b);
      WriteData(s');
      s := s';
    }

    /** The data block goes to the file, and the filter moves on. */
    method WriteData(ghost s': GoodProgress)
      requires Valid() && s' == Flushed(s, s'.plan)
      requires s'.plan.file == s.plan.file + Contents(data.b) + s.plan.seal(Contents(data.b))
      requires s.hasFilter ==> |s.groups| <= |s'.plan.file| / FilterBlocks.BASE
      modifies this`file, this`offset, this`pendingIndexEntry, this`pendingHandle, data, filter
      ensures Parts() && data.b.entries == [] && file == s'.plan.file && offset == |file| && pendingIndexEntry
      ensures pendingHandle == Handle(|old(file)|, |Contents(old(data.b))|)
      ensures filter.groups == s'.groups && filter.pending == s'.waiting
    {
      pendingHandle := AddBlock();
      pendingIndexEntry := true;
      if hasFilter {
        filter.StartBlock(offset);
      }
    }

    method AddBlock() returns (h: Handle)
      requires offset == |file| && data.Valid() && !data.finished
      modifies this`file, this`offset, data
      ensures data.Valid() && !data.finished && data.b.entries == [] && offset == |file|
      ensures var c := Contents(old(data.b)); file == old(file) + c + seal(c) && h == Handle(|old(file)|, |c|)
    {
      var contents := data.Finish();
      h := WriteRawBlock(contents);
      data.Reset();
    }

    method WriteRawBlock(contents: Bytes) returns (h: Handle)
      requires offset == |file|
      modifies this`file, this`offset
      ensures file == old(file) + contents + seal(contents) && offset == |file|
      ensures h == Handle(|old(file)|, |contents|)
    {
      h := Handle(offset, |contents|);
      file := file + contents;
      file := file + seal(contents);
      offset := offset + |contents| + TRAILER;
    }

    // ------------------------------------------------------------------------- Finish

    /** The index entry that Finish adds still fits the index. */
    ghost predicate FinishFits()
      reads this, data, index
    {
      pendingIndexEntry || data.b.entries != [] ==>
        index.Room(o.succ(lastKey),
          HandleBytes(if pendingIndexEntry then pendingHandle else Handle(|file|, |Contents(data.b)|)))
    }

    /** All data blocks are written; the index lacks at most one entry. */
    ghost predicate At(c: GoodClosing)
      reads this, index
    {
      && index.Valid() && !index.finished && c.index == index.b.entries
      && c.plan.o == o && c.plan.seal == seal && c.plan.file == file && offset == |file|
      && c.lastKey == lastKey && c.pending == pendingIndexEntry && c.h == pendingHandle
      && (pendingIndexEntry ==> index.Room(o.succ(lastKey), HandleBytes(pendingHandle)))
    }

    /** A block between the data blocks and the index. */
    method Emit(contents: Bytes, ghost c: GoodClosing) returns (h: Handle, ghost c': GoodClosing)
      requires At(c)
      modifies this`file, this`offset
      ensures At(c') && Follows(c.plan, c'.plan) && old(file) <= file && StoredAt(file, h, contents, seal)
    {
      c' := ClosingGrows(c, contents + seal(contents));
      StoredLast(file, contents, seal);
      assert file + contents + seal(contents) == file + (contents + seal(contents));
      h := WriteRawBlock(contents);
    }

    method WriteFilter(ghost c: GoodClosing) returns (h: Handle, contents: Bytes, ghost c': GoodClosing)
      requires At(c) && filter.Valid()
      modifies this`file, this`offset, filter
      ensures At(c') && Follows(c.plan, c'.plan) && old(file) <= file && StoredAt(file, h, contents, seal)
      ensures contents == filter.result == FilterBlocks.Contents(filter.policy, filter.groups)
      ensures filter.groups == LastGroups(old(filter.groups), old(filter.pending))
    {
      contents := filter.Finish();
      h, c' := Emit(contents, c);
    }

    /** The metaindex block. */
    method WriteMeta(filterKey: Bytes, filterHandle: Handle, propsHandle: Handle, ghost c: GoodClosing)
      returns (h: Handle, ghost meta: GoodImage, ghost c': GoodClosing)
      requires At(c) && |filterKey| + 100 < TWO32
      modifies this`file, this`offset
      ensures At(c') && Follows(c.plan, c'.plan) && old(file) <= file && StoredAt(file, h, Contents(meta), seal)
      ensures meta.entries == MetaEntries(hasFilter, filterKey, filterHandle, propsHandle)
    {
      var contents;
      contents, meta := MetaContents(filterKey, filterHandle, propsHandle);
      h, c' := Emit(contents, c);
    }

    method MetaContents(filterKey: Bytes, filterHandle: Handle, propsHandle: Handle)
      returns (contents: Bytes, ghost meta: GoodImage)
      requires |filterKey| + 100 < TWO32
      ensures contents == Contents(meta) && meta.entries == MetaEntries(hasFilter, filterKey, filterHandle, propsHandle)
    {
      var builder := new BlockBuilder(1);
      HandleLength(filterHandle);
      HandleLength(propsHandle);
      if hasFilter {
        builder.RoomFor(filterKey, HandleBytes(filterHandle));
        builder.Add(filterKey, HandleBytes(filterHandle));
      }
      builder.RoomFor(PropertiesKey(), HandleBytes(propsHandle));
      builder.Add(PropertiesKey(), HandleBytes(propsHandle));
      builder.IsGood();
      meta := builder.b;
      contents := builder.Finish();
    }

    /** The last index entry and the index block. */
    method WriteIndex(ghost c: GoodClosing) returns (h: Handle, ghost image: GoodImage, ghost p: GoodPlan)
      requires At(c)
      modifies this`file, this`offset, this`lastKey, this`pendingIndexEntry, index
      ensures p.file == file && old(file) <= file && offset == |file| && Follows(c.plan, p)
      ensures |p.seps| == |p.blocks| && image.entries == IndexEntries(p.seps, p.handles)
      ensures StoredAt(file, h, Contents(image), seal)
    {
      ghost var p0, entries := ClosingEnds(c);
      if pendingIndexEntry {
        lastKey := o.succ(lastKey);
        index.Add(lastKey, HandleBytes(pendingHandle));
        pendingIndexEntry := false;
      }
      index.IsGood();
      image := index.b;
      var contents := index.Finish();
      StoredLast(file, contents, seal);
      assert file + contents + seal(contents) == file + (contents + seal(contents));
      p := WritesMore(p0, contents + seal(contents));
      h := WriteRawBlock(contents);
    }

    /** The index block and the footer. */
    method WriteTail(metaHandle: Handle, ghost c: GoodClosing)
      returns (h: Handle, ghost image: GoodImage, ghost p: GoodPlan)
      requires At(c)
      modifies this`file, this`offset, this`lastKey, this`pendingIndexEntry, index
      ensures p.file == file && old(file) <= file && Follows(c.plan, p)
      ensures |p.seps| == |p.blocks| && image.entries == IndexEntries(p.seps, p.handles)
      ensures StoredAt(file, h, Contents(image), seal)
      ensures |file| >= FOOTER && file[|file| - FOOTER..] == FooterBytes(metaHandle, h)
    {
      ghost var p0;
      h, image, p0 := WriteIndex(c);
      ghost var file0 := file;
      var footer := FooterBytes(metaHandle, h);
      p := WritesMore(p0, footer);
      file := file + footer;
      offset := offset + |footer|;
      StoredKept(file0, file, h, Contents(image), seal);
    }

    /** Everything after the filter block. */
    method WriteRest(filterKey: Bytes, filterHandle: Handle, ghost filterContents: Bytes, props: Bytes,
        ghost c: GoodClosing)
      returns (ghost t: TableImage)
      requires At(c) && |filterKey| + 100 < TWO32
      requires hasFilter ==> StoredAt(file, filterHandle, filterContents, seal)
      modifies this`file, this`offset, this`lastKey, this`pendingIndexEntry, index
      ensures TableOk(t, filterKey) && t.plan.file == file && Follows(c.plan, t.plan)
      ensures t.hasFilter == hasFilter && t.filterContents == filterContents
    {
      ghost var file0 := file;
      var propsHandle, c1 := Emit(props, c);
      var metaHandle, meta, c2 := WriteMeta(filterKey, filterHandle, propsHandle, c1);
      ghost var file1 := file;
      var indexHandle, image, p := WriteTail(metaHandle, c2);
      if hasFilter { StoredKept(file0, file, filterHandle, filterContents, seal); }
      StoredKept(file1, file, metaHandle, Contents(meta), seal);
      t := TableImage(p, image, indexHandle, meta, metaHandle, hasFilter, filterHandle, filterContents, propsHandle);
    }

    /** The last data block and the filter block; last is the state after the data block. */
    method FinishData() returns (h: Handle, contents: Bytes, ghost c: GoodClosing, ghost last: GoodProgress)
      requires Valid() && !closed && FinishFits()
      modifies this, data, filter
      ensures closed && At(c) && c.plan.all == old(s.added) && Ends(old(s), old(data.b), last)
      ensures Follows(last.plan, c.plan)
      ensures hasFilter ==> StoredAt(file, h, contents, seal) && filter.groups == LastGroups(last.groups, last.waiting)
      ensures hasFilter ==> contents == filter.result == FilterBlocks.Contents(filter.policy, filter.groups)
    {
      Flush();
      closed := true;
      last := s;
      c := Closes(s);
      h, contents := Handle(0, 0), [];
      if hasFilter {
        h, contents, c := WriteFilter(c);
      }
    }

    method Finish(filterKey: Bytes, props: Bytes) returns (ghost t: TableImage, ghost last: GoodProgress)
      requires Valid() && !closed && FinishFits() && |filterKey| + 100 < TWO32
      modifies this, data, index, filter
      ensures closed && TableOk(t, filterKey) && t.plan.file == file && t.plan.all == old(Added())
      ensures t.plan.o == o && t.plan.seal == seal && t.hasFilter == hasFilter
      ensures hasFilter ==> t.filterContents == filter.result == FilterBlocks.Contents(filter.policy, filter.groups)
      ensures hasFilter ==> Covers(t.plan, filter.groups, []) && GroupsRise(o, filter.groups)
      ensures Ends(old(s), old(data.b), last) && Follows(last.plan, t.plan)
      ensures hasFilter ==> filter.groups == LastGroups(last.groups, last.waiting)
    {
      var filterHandle, filterContents;
      ghost var c;
      filterHandle, filterContents, c, last := FinishData();
      t := WriteRest(filterKey, filterHandle, filterContents, props, c);
      if hasFilter { FilterEnds(last, t.plan); }
    }
  }
}
