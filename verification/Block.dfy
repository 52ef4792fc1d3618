/**
  The blocks of a table: src/leveldb/block_builder.cc writes them, src/leveldb/block.cc reads
  them. A block is a run of entries, each with the bytes of its key that the previous key does
  not share, then the offsets of the restart points, where nothing is shared, and their number.
 */
module BlockFormat {
  import opened Coding

  datatype Entry = Entry(key: Bytes, value: Bytes)

  // ------------------------------------------------------------------ one entry

  function HeaderBytes(shared: nat, nonShared: nat, valueLength: nat): Bytes {
    Varint(shared) + Varint(nonShared) + Varint(valueLength)
  }

  function EntryBytes(shared: nat, e: Entry): (r: Bytes)
    requires shared <= |e.key|
    ensures |r| >= 3
  {
    HeaderBytes(shared, |e.key| - shared, |e.value|) + e.key[shared..] + e.value
  }

  /** Three varints of five bytes. */
  const HEADER_LIMIT: nat := 15

  lemma HeaderLength(shared: nat, nonShared: nat, valueLength: nat)
    requires shared < TWO32 && nonShared < TWO32 && valueLength < TWO32
    ensures |HeaderBytes(shared, nonShared, valueLength)| <= HEADER_LIMIT
  {
    EncodeVarint32IsVarint(shared);
    EncodeVarint32IsVarint(nonShared);
    EncodeVarint32IsVarint(valueLength);
  }

  datatype Header = Bad | Header(shared: nat, nonShared: nat, valueLength: nat, size: nat)

  /** The three varints of a header that does not fit in three bytes. */
  function DecodeLong(s: Bytes): Header {
    match ParseVarint32(s)
    case Fail => Bad
    case Ok(shared, s1) =>
      match ParseVarint32(s1)
      case Fail => Bad
      case Ok(nonShared, s2) =>
        match ParseVarint32(s2)
        case Fail => Bad
        case Ok(valueLength, s3) => if |s3| <= |s| then Header(shared, nonShared, valueLength, |s| - |s3|) else Bad
  }

  function DecodeSizes(s: Bytes): Header {
    if |s| < 3 then Bad
    else if s[0] < 128 && s[1] < 128 && s[2] < 128 then Header(s[0], s[1], s[2], 3)
    else DecodeLong(s)
  }

  /** DecodeEntry; the two lengths are added in 32 bits. */
  function DecodeEntry(s: Bytes): Header {
    var h := DecodeSizes(s);
    if h.Bad? || h.size > |s| || (|s| - h.size) % TWO32 < (h.nonShared + h.valueLength) % TWO32 then Bad else h
  }

  lemma OneDigit(v: nat)
    ensures Varint(v)[0] < 128 <==> v < 128
    ensures v < 128 ==> Varint(v) == [v]
  {
  }

  lemma ParseOne(v: nat, rest: Bytes)
    requires v < TWO32
    ensures ParseVarint32(Varint(v) + rest) == Ok(v, rest)
  {
    EncodeVarint32IsVarint(v);
    Varint32RoundTrip(v, rest);
  }

  lemma LongSteps(s: Bytes, a: nat, s1: Bytes, b: nat, s2: Bytes, c: nat, s3: Bytes)
    requires ParseVarint32(s) == Ok(a, s1) && ParseVarint32(s1) == Ok(b, s2) && ParseVarint32(s2) == Ok(c, s3)
    requires |s3| <= |s|
    ensures DecodeLong(s) == Header(a, b, c, |s| - |s3|)
  {
  }

  lemma Joined(a: Bytes, b: Bytes, c: Bytes, rest: Bytes)
    ensures a + b + c + rest == a + (b + (c + rest))
  {
  }

  lemma LongReads(shared: nat, nonShared: nat, valueLength: nat, rest: Bytes)
    requires shared < TWO32 && nonShared < TWO32 && valueLength < TWO32
    ensures DecodeLong(HeaderBytes(shared, nonShared, valueLength) + rest) ==
            Header(shared, nonShared, valueLength, |HeaderBytes(shared, nonShared, valueLength)|)
  {
    var s2 := Varint(valueLength) + rest;
    var s1 := Varint(nonShared) + s2;
    Joined(Varint(shared), Varint(nonShared), Varint(valueLength), rest);
    ParseOne(shared, s1);
    ParseOne(nonShared, s2);
    ParseOne(valueLength, rest);
    LongSteps(Varint(shared) + s1, shared, s1, nonShared, s2, valueLength, rest);
  }

  lemma ShortReads(shared: nat, nonShared: nat, valueLength: nat, rest: Bytes)
    requires shared < 128 && nonShared < 128 && valueLength < 128
    ensures HeaderBytes(shared, nonShared, valueLength) + rest == [shared, nonShared, valueLength] + rest
  {
    OneDigit(shared);
    OneDigit(nonShared);
    OneDigit(valueLength);
  }

  /** Only a short header looks like one. */
  lemma LooksShort(shared: nat, nonShared: nat, valueLength: nat, rest: Bytes)
    ensures var s := HeaderBytes(shared, nonShared, valueLength) + rest;
      |s| >= 3 && (s[0] < 128 && s[1] < 128 && s[2] < 128 ==> shared < 128 && nonShared < 128 && valueLength < 128)
  {
    OneDigit(shared);
    OneDigit(nonShared);
    OneDigit(valueLength);
    var s := HeaderBytes(shared, nonShared, valueLength) + rest;
    assert s[0] == Varint(shared)[0];
    if s[0] < 128 {
      assert s[1] == Varint(nonShared)[0];
      if s[1] < 128 { assert s[2] == Varint(valueLength)[0]; }
    }
  }

  lemma SizesRead(shared: nat, nonShared: nat, valueLength: nat, rest: Bytes)
    requires shared < TWO32 && nonShared < TWO32 && valueLength < TWO32
    ensures DecodeSizes(HeaderBytes(shared, nonShared, valueLength) + rest) ==
            Header(shared, nonShared, valueLength, |HeaderBytes(shared, nonShared, valueLength)|)
  {
    LooksShort(shared, nonShared, valueLength, rest);
    if shared < 128 && nonShared < 128 && valueLength < 128 {
      ShortReads(shared, nonShared, valueLength, rest);
    } else {
      LongReads(shared, nonShared, valueLength, rest);
    }
  }

  /** A header at offset at of d leads to the rest of e's key and to its value, up to end. */
  ghost predicate Tells(d: Bytes, at: nat, h: Header, shared: nat, e: Entry, end: nat) {
    && h.Header? && h.shared == shared <= |e.key| && end <= |d|
    && at + h.size + h.nonShared + h.valueLength == end
    && d[at + h.size..at + h.size + h.nonShared] == e.key[shared..]
    && d[at + h.size + h.nonShared..end] == e.value
  }

  /** What the builder writes for an entry is what the reader takes from it. */
  lemma EntryRoundTrip(shared: nat, e: Entry, rest: Bytes)
    requires shared <= |e.key| && shared < TWO32 && |EntryBytes(shared, e) + rest| < TWO32
    ensures Tells(EntryBytes(shared, e) + rest, 0, DecodeEntry(EntryBytes(shared, e) + rest), shared, e,
      |EntryBytes(shared, e)|)
  {
    var ns, vl := |e.key| - shared, |e.value|;
    var head := HeaderBytes(shared, ns, vl);
    var s := EntryBytes(shared, e) + rest;
    var tail := e.key[shared..] + e.value + rest;
    assert s == head + tail;
    assert |s| == |head| + ns + vl + |rest|;
    SizesRead(shared, ns, vl, tail);
    assert s[|head|..|head| + ns] == e.key[shared..];
    assert s[|head| + ns..|head| + ns + vl] == e.value;
  }
}

/** How the entries of a block lie in its bytes. */
module BlockImages {
  import opened Coding
  import opened BlockFormat

  /** Entry i lies at off[i]..off[i + 1] without the first shared[i] bytes of its key; entry
      marks[j] is restart point j. */
  datatype Image = Image(entries: seq<Entry>, off: seq<nat>, shared: seq<nat>, marks: seq<nat>, data: Bytes)

  ghost predicate Sizes(b: Image) {
    && |b.off| == |b.entries| + 1 && |b.shared| == |b.entries| && |b.marks| >= 1
    && b.off[0] == 0 && b.off[|b.entries|] == |b.data| && |b.data| < TWO32
    && b.marks[0] == 0 && (b.entries == [] ==> |b.marks| == 1)
  }

  /** The next key can drop its first n bytes. */
  ghost predicate Shares(last: Bytes, n: nat, key: Bytes) {
    n <= |last| && n <= |key| && last[..n] == key[..n]
  }

  ghost function LastKey(entries: seq<Entry>, i: nat): Bytes
    requires i <= |entries|
  {
    if i == 0 then [] else entries[i - 1].key
  }

  ghost predicate EntryAt(b: Image, i: nat)
    requires Sizes(b) && i < |b.entries|
  {
    && Shares(LastKey(b.entries, i), b.shared[i], b.entries[i].key)
    && b.off[i] < b.off[i + 1] <= |b.data|
    && b.data[b.off[i]..b.off[i + 1]] == EntryBytes(b.shared[i], b.entries[i])
  }

  ghost predicate MarkAt(b: Image, j: nat)
    requires Sizes(b) && j < |b.marks|
  {
    && (b.entries != [] ==> b.marks[j] < |b.entries| && b.shared[b.marks[j]] == 0)
    && (j > 0 ==> b.marks[j - 1] < b.marks[j])
  }

  ghost predicate ImageOk(b: Image) {
    && Sizes(b)
    && (forall i {:trigger EntryAt(b, i)} :: 0 <= i < |b.entries| ==> EntryAt(b, i))
    && (forall j {:trigger MarkAt(b, j)} :: 0 <= j < |b.marks| ==> MarkAt(b, j))
  }

  ghost function NoEntries(): Image { Image([], [0], [], [0], []) }

  type GoodImage = b: Image | ImageOk(b) ghost witness NoEntries()

  lemma {:induction false} OffRises(b: GoodImage, i: nat, j: nat)
    requires i < j <= |b.entries|
    ensures b.off[i] < b.off[j] <= |b.data|
    decreases j - i
  {
    assert EntryAt(b, i);
    if i + 1 < j { OffRises(b, i + 1, j); }
  }

  /** Offsets order entries. */
  lemma OffOrder(b: GoodImage, i: nat, j: nat)
    requires i <= |b.entries| && j <= |b.entries|
    ensures b.off[i] < b.off[j] <==> i < j
    ensures b.off[i] <= |b.data|
  {
    if i < j { OffRises(b, i, j); }
    if j < i { OffRises(b, j, i); }
    if i < |b.entries| { OffRises(b, i, |b.entries|); }
  }

  lemma MarkIn(b: GoodImage, j: nat)
    requires j < |b.marks|
    ensures b.marks[j] <= |b.entries| && (b.entries != [] ==> b.marks[j] < |b.entries|)
    ensures b.entries == [] ==> b.marks[j] == 0
  {
    assert MarkAt(b, j);
  }

  lemma {:induction false} MarksRise(b: GoodImage, i: nat, j: nat)
    requires i < j < |b.marks|
    ensures b.marks[i] < b.marks[j]
  {
    assert MarkAt(b, j);
    if i < j - 1 { MarksRise(b, i, j - 1); }
  }

  lemma {:induction false} MarksGap(b: GoodImage, j: nat)
    requires j < |b.marks|
    ensures j <= b.marks[j]
  {
    if j > 0 { MarksGap(b, j - 1); MarksRise(b, j - 1, j); }
  }

  lemma {:induction false} OffGap(b: GoodImage, i: nat)
    requires i <= |b.entries|
    ensures i <= b.off[i]
  {
    if i > 0 { OffGap(b, i - 1); OffRises(b, i - 1, i); }
  }

  /** The number of restart points fits its field. */
  lemma FewMarks(b: GoodImage)
    ensures |b.marks| < TWO32
  {
    var j := |b.marks| - 1;
    MarksGap(b, j);
    MarkIn(b, j);
    OffGap(b, |b.entries|);
  }

  /** A key is no longer than the bytes up to its end, however much it shares. */
  lemma {:induction false} KeyBound(b: GoodImage, i: nat)
    requires i < |b.entries|
    ensures |b.entries[i].key| <= b.off[i + 1]
  {
    assert EntryAt(b, i);
    if i > 0 { KeyBound(b, i - 1); }
  }

  /** Decoding at the offset of entry i. */
  lemma EntryReads(b: GoodImage, i: nat)
    requires i < |b.entries|
    ensures b.off[i] < b.off[i + 1] <= |b.data|
    ensures Tells(b.data, b.off[i], DecodeEntry(b.data[b.off[i]..]), b.shared[i], b.entries[i], b.off[i + 1])
  {
    assert EntryAt(b, i);
    KeyBound(b, i);
    var e := b.entries[i];
    var rest := b.data[b.off[i + 1]..];
    var s := b.data[b.off[i]..];
    assert s == EntryBytes(b.shared[i], e) + rest;
    EntryRoundTrip(b.shared[i], e, rest);
    Shifted(b.data, b.off[i], DecodeEntry(s), b.shared[i], e, |EntryBytes(b.shared[i], e)|);
  }

  lemma Shifted(d: Bytes, at: nat, h: Header, shared: nat, e: Entry, n: nat)
    requires at <= |d| && Tells(d[at..], 0, h, shared, e, n)
    ensures Tells(d, at, h, shared, e, at + n)
  {
    assert d[at..][h.size..h.size + h.nonShared] == d[at + h.size..at + h.size + h.nonShared];
    assert d[at..][h.size + h.nonShared..n] == d[at + h.size + h.nonShared..at + n];
  }

  // ------------------------------------------------------------------ the trailer

  ghost function Points(b: Image): (r: seq<nat>)
    ensures |r| == |b.marks|
  {
    seq(|b.marks|, j requires 0 <= j < |b.marks| => Point(b, j))
  }

  ghost function Point(b: Image, j: nat): nat
    requires j < |b.marks|
  {
    if b.marks[j] < |b.off| then b.off[b.marks[j]] else 0
  }

  ghost function Contents(b: Image): Bytes {
    b.data + Fixed32s(Points(b)) + Fixed(|b.marks|, 4)
  }

  /** GetRestartPoint finds the offset of the entry at the mark. */
  lemma PointReads(b: GoodImage, j: nat)
    requires j < |b.marks|
    ensures |Contents(b)| == |b.data| + 4 * |b.marks| + 4
    ensures FixedValue(Contents(b)[|b.data| + 4 * j..|b.data| + 4 * j + 4]) == Point(b, j) <= |b.data|
  {
    var points := Points(b);
    Fixed32At(points, j);
    assert Contents(b)[|b.data| + 4 * j..|b.data| + 4 * j + 4] == Fixed32s(points)[4 * j..4 * j + 4];
    MarkIn(b, j);
    OffOrder(b, b.marks[j], 0);
    Fixed32RoundTrip(Point(b, j));
  }

  /** NumRestarts finds the number of marks. */
  lemma CountReads(b: GoodImage)
    ensures |b.marks| < TWO32
    ensures |Contents(b)| == |b.data| + 4 * |b.marks| + 4
    ensures FixedValue(Contents(b)[|Contents(b)| - 4..]) == |b.marks|
    ensures Contents(b)[..|b.data|] == b.data
  {
    assert Contents(b)[|Contents(b)| - 4..] == Fixed(|b.marks|, 4);
    FewMarks(b);
    Fixed32RoundTrip(|b.marks|);
  }
}

/** src/leveldb/block_builder.cc. */
module BlockBuilding {
  import opened Guards
  import opened ByteOrder
  import opened Coding
  import opened BlockFormat
  import opened BlockImages

  ghost function Extended(b: GoodImage, e: Entry, shared: nat, mark: bool): Image
    requires shared <= |e.key|
  {
    Image(b.entries + [e], b.off + [|b.data| + |EntryBytes(shared, e)|], b.shared + [shared],
          if mark then b.marks + [|b.entries|] else b.marks, b.data + EntryBytes(shared, e))
  }

  ghost predicate Extends(b: GoodImage, e: Entry, shared: nat, mark: bool) {
    && Shares(LastKey(b.entries, |b.entries|), shared, e.key)
    && |b.data| + |EntryBytes(shared, e)| < TWO32
    && (mark ==> shared == 0 && b.entries != [])
  }

  lemma ExtendedEntry(b: GoodImage, e: Entry, shared: nat, mark: bool, i: nat)
    requires Extends(b, e, shared, mark) && i <= |b.entries|
    ensures var b' := Extended(b, e, shared, mark);
      Sizes(b') && EntryAt(b', i)
  {
    var b' := Extended(b, e, shared, mark);
    if i < |b.entries| {
      assert EntryAt(b, i);
      assert b'.data[b.off[i]..b.off[i + 1]] == b.data[b.off[i]..b.off[i + 1]];
    } else {
      assert b'.data[b'.off[i]..b'.off[i + 1]] == EntryBytes(shared, e);
    }
  }

  lemma ExtendedMark(b: GoodImage, e: Entry, shared: nat, mark: bool, j: nat)
    requires Extends(b, e, shared, mark) && j < |Extended(b, e, shared, mark).marks|
    ensures var b' := Extended(b, e, shared, mark);
      Sizes(b') && MarkAt(b', j)
  {
    if j < |b.marks| {
      assert MarkAt(b, j);
    } else {
      MarkIn(b, j - 1);
    }
  }

  lemma ExtendedOk(b: GoodImage, e: Entry, shared: nat, mark: bool) returns (b': GoodImage)
    requires Extends(b, e, shared, mark)
    ensures b' == Extended(b, e, shared, mark)
    ensures Points(b') == if mark then Points(b) + [|b.data|] else Points(b)
  {
    var x := Extended(b, e, shared, mark);
    forall i | 0 <= i < |x.entries| ensures Sizes(x) && EntryAt(x, i) { ExtendedEntry(b, e, shared, mark, i); }
    forall j | 0 <= j < |x.marks| ensures Sizes(x) && MarkAt(x, j) { ExtendedMark(b, e, shared, mark, j); }
    assert Sizes(x) by { ExtendedEntry(b, e, shared, mark, 0); }
    b' := x;
    SamePoints(b, b', mark);
  }

  lemma SamePoints(b: GoodImage, b': GoodImage, mark: bool)
    requires |b'.entries| == |b.entries| + 1 && b'.off[..|b.off|] == b.off
    requires b'.marks == if mark then b.marks + [|b.entries|] else b.marks
    ensures Points(b') == if mark then Points(b) + [|b.data|] else Points(b)
  {
    forall j | 0 <= j < |b.marks| ensures Point(b', j) == Point(b, j) {
      MarkIn(b, j);
      assert b'.off[..|b.off|][b.marks[j]] == b.off[b.marks[j]];
    }
    if mark {
      assert b'.off[..|b.off|][|b.entries|] == b.off[|b.entries|];
      assert Point(b', |b.marks|) == |b.data|;
    }
  }

  /** There is a restart point at every interval-th entry and nowhere else. */
  ghost predicate Spaced(b: Image, interval: nat, counter: nat) {
    && |b.marks| >= 1 && |b.entries| == b.marks[|b.marks| - 1] + counter
    && forall j {:trigger SpacedAt(b, interval, j)} :: 0 <= j < |b.marks| ==> SpacedAt(b, interval, j)
  }

  ghost predicate SpacedAt(b: Image, interval: nat, j: nat)
    requires j < |b.marks|
  {
    j > 0 ==> b.marks[j] == b.marks[j - 1] + interval
  }

  lemma StaysSpaced(b: Image, b': Image, interval: nat, counter: nat)
    requires Spaced(b, interval, counter) && counter <= interval && |b'.entries| == |b.entries| + 1
    requires b'.marks == if counter < interval then b.marks else b.marks + [|b.entries|]
    ensures Spaced(b', interval, if counter < interval then counter + 1 else 1)
  {
    forall j | 0 <= j < |b'.marks| ensures SpacedAt(b', interval, j) {
      if j < |b.marks| { assert SpacedAt(b, interval, j); }
    }
  }

  lemma AddFits(b: GoodImage, lastKey: Bytes, e: Entry, shared: nat, mark: bool)
    requires lastKey == LastKey(b.entries, |b.entries|)
    requires shared == if mark then 0 else Common(lastKey, e.key)
    requires |b.data| + |EntryBytes(shared, e)| < TWO32
    requires mark ==> b.entries != []
    ensures Extends(b, e, shared, mark) && shared < TWO32 && |e.key| - shared < TWO32 && |e.value| < TWO32
  {
    if b.entries != [] { KeyBound(b, |b.entries| - 1); }
  }

  /** What an entry shares with the last key; nothing at a restart point. */
  function SharedAt(lastKey: Bytes, key: Bytes, interval: nat, counter: nat): (n: nat)
    ensures n <= |key|
  {
    if counter < interval then Common(lastKey, key) else 0
  }

  /** The entry ends below 2^32, so that offsets fit 32 bits. */
  ghost predicate HasRoom(size: nat, lastKey: Bytes, interval: nat, counter: nat, e: Entry) {
    forall i {:trigger Asked(i)} :: Asked(i) ==>
      size + |EntryBytes(SharedAt(lastKey, e.key, interval, counter), e)| < TWO32
  }

  lemma RoomIf(size: nat, lastKey: Bytes, interval: nat, counter: nat, e: Entry)
    requires size + |e.key| + |e.value| + HEADER_LIMIT < TWO32
    ensures HasRoom(size, lastKey, interval, counter, e)
  {
    var shared := SharedAt(lastKey, e.key, interval, counter);
    HeaderLength(shared, |e.key| - shared, |e.value|);
  }

  /** The image with one more entry, and what the builder writes for it. */
  lemma Grows(b: GoodImage, lastKey: Bytes, e: Entry, interval: nat, counter: nat) returns (b': GoodImage)
    requires lastKey == LastKey(b.entries, |b.entries|) && HasRoom(|b.data|, lastKey, interval, counter, e)
    requires Spaced(b, interval, counter) && 1 <= interval && counter <= interval
    ensures var mark := counter == interval;
      var shared := SharedAt(lastKey, e.key, interval, counter);
      && shared < TWO32 && |e.key| - shared < TWO32 && |e.value| < TWO32
      && b'.entries == b.entries + [e] && b'.data == b.data + EntryBytes(shared, e)
      && |b'.data| <= |b.data| + |e.key| + |e.value| + HEADER_LIMIT
      && Points(b') == (if mark then Points(b) + [|b.data|] else Points(b))
      && Spaced(b', interval, if mark then 1 else counter + 1)
  {
    var mark := counter == interval;
    var shared := SharedAt(lastKey, e.key, interval, counter);
    assert Asked(0);
    AddFits(b, lastKey, e, shared, mark);
    HeaderLength(shared, |e.key| - shared, |e.value|);
    b' := ExtendedOk(b, e, shared, mark);
    StaysSpaced(b, b', interval, counter);
  }

  /** The three varints, the key's rest and the value, appended one after another. */
  lemma Written(buffer: Bytes, shared: nat, e: Entry)
    requires shared <= |e.key| && shared < TWO32 && |e.key| - shared < TWO32 && |e.value| < TWO32
    ensures buffer + EncodeVarint32(shared) + EncodeVarint32(|e.key| - shared) + EncodeVarint32(|e.value|)
      + e.key[shared..] + e.value
            == buffer + EntryBytes(shared, e)
  {
    EncodeVarint32IsVarint(shared);
    EncodeVarint32IsVarint(|e.key| - shared);
    EncodeVarint32IsVarint(|e.value|);
    Appended(buffer, Varint(shared), Varint(|e.key| - shared), Varint(|e.value|), e.key[shared..], e.value);
  }

  lemma Appended(a: Bytes, b: Bytes, c: Bytes, d: Bytes, e: Bytes, f: Bytes)
    ensures a + b + c + d + e + f == a + (b + c + d + e + f)
  {
  }

  class BlockBuilder {
    const interval: nat
    var buffer: Bytes
    var restarts: seq<nat>
    var counter: nat
    var lastKey: Bytes
    var finished: bool
    ghost var b: Image

    ghost predicate Valid()
      reads this
    {
      forall i {:trigger Asked(i)} :: Asked(i) ==> Consistent()
    }

    ghost predicate Consistent()
      reads this
    {
      && ImageOk(b) && 1 <= interval && counter <= interval && Spaced(b, interval, counter)
      && buffer == (if finished then Contents(b) else b.data)
      && restarts == Points(b) && lastKey == LastKey(b.entries, |b.entries|)
    }

    constructor (restartInterval: int)
      ensures Valid() && !finished && b == NoEntries() && buffer == []
      ensures interval == if restartInterval < 1 then 1 else restartInterval
    {
      interval := if restartInterval < 1 then 1 else restartInterval;
      buffer, restarts, counter, lastKey, finished := [], [0], 0, [], false;
      b := NoEntries();
      new;
      assert Point(b, 0) == 0;
    }

    /** The entry still fits. */
    ghost predicate Room(key: Bytes, value: Bytes)
      reads this
    {
      HasRoom(|buffer|, lastKey, interval, counter, Entry(key, value))
    }

    method Add(key: Bytes, value: Bytes)
      requires Valid() && !finished && Room(key, value)
      modifies this
      ensures Valid() && !finished && b.entries == old(b.entries) + [Entry(key, value)]
      ensures |buffer| <= |old(buffer)| + |key| + |value| + HEADER_LIMIT
    {
      assert Asked(0);
      var shared, b' := Begin(key, Entry(key, value));
      Append(key, value, shared);
      counter := counter + 1;
      b := b';
    }

    /** See how much to share with the last key, or start over at a restart point. */
    method Begin(key: Bytes, ghost e: Entry) returns (shared: nat, ghost b': GoodImage)
      requires Valid() && !finished && e.key == key && Room(key, e.value)
      modifies this`restarts, this`counter
      ensures Shares(lastKey, shared, key) && shared < TWO32 && |key| - shared < TWO32 && |e.value| < TWO32
      ensures b'.entries == b.entries + [e] && b'.data == buffer + EntryBytes(shared, e)
      ensures |b'.data| <= |buffer| + |key| + |e.value| + HEADER_LIMIT
      ensures restarts == Points(b') && counter < interval && Spaced(b', interval, counter + 1)
    {
      assert Asked(0);
      b' := Grows(b, lastKey, e, interval, counter);
      shared := 0;
      if counter < interval {
        shared := ShareWith(key);
      } else {
        restarts := restarts + [|buffer|];
        counter := 0;
      }
    }

    method Append(key: Bytes, value: Bytes, shared: nat)
      requires shared <= |key| && shared < TWO32 && |key| - shared < TWO32 && |value| < TWO32
      requires Shares(lastKey, shared, key)
      modifies this`buffer, this`lastKey
      ensures buffer == old(buffer) + EntryBytes(shared, Entry(key, value)) && lastKey == key
    {
      var nonShared, valueLength := |key| - shared, |value|;
      buffer := buffer + EncodeVarint32(shared) + EncodeVarint32(nonShared) + EncodeVarint32(valueLength);
      buffer := buffer + key[shared..];
      buffer := buffer + value;
      lastKey := lastKey[..shared] + key[shared..];
      Written(old(buffer), shared, Entry(key, value));
    }

    lemma RoomFor(key: Bytes, value: Bytes)
      requires |buffer| + |key| + |value| + HEADER_LIMIT < TWO32
      ensures Room(key, value)
    {
      RoomIf(|buffer|, lastKey, interval, counter, Entry(key, value));
    }

    /** What the builder holds is the image of a block. */
    lemma IsGood()
      requires Valid()
      ensures ImageOk(b)
    {
      assert Asked(0);
    }

    /** No entry has been added since the last Reset. */
    predicate Empty()
      reads this
    {
      buffer == []
    }

    lemma EmptyMeans()
      requires Valid() && !finished
      ensures Empty() <==> b.entries == []
    {
      assert Asked(0);
      OffGap(b, |b.entries|);
    }

    method ShareWith(key: Bytes) returns (shared: nat)
      ensures shared == Common(lastKey, key)
    {
      var minLength := if |lastKey| <= |key| then |lastKey| else |key|;
      shared := 0;
      while shared < minLength && lastKey[shared] == key[shared]
        invariant shared <= minLength && lastKey[..shared] == key[..shared]
      {
        assert lastKey[..shared + 1] == lastKey[..shared] + [lastKey[shared]];
        shared := shared + 1;
      }
      CommonIs(lastKey, key, shared);
    }

    method Finish() returns (contents: Bytes)
      requires Valid() && !finished
      modifies this
      ensures Valid() && finished && b == old(b) && contents == Contents(b)
    {
      assert Asked(0);
      for i := 0 to |restarts|
        invariant restarts == old(restarts) && b == old(b) && counter == old(counter) && lastKey == old(lastKey)
        invariant buffer == b.data + Fixed32s(restarts[..i])
      {
        buffer := buffer + Fixed(restarts[i], 4);
        assert restarts[..i + 1][..i] == restarts[..i];
      }
      assert restarts[..|restarts|] == restarts;
      buffer := buffer + Fixed(|restarts|, 4);
      finished := true;
      contents := buffer;
    }

    /** The estimate is the size that Finish will return. */
    method CurrentSizeEstimate() returns (size: nat)
      requires Valid()
      ensures size == |Contents(b)|
    {
      assert Asked(0);
      size := |buffer|;
      if !finished {
        size := size + |restarts| * 4 + 4;
      }
    }

    method Reset()
      requires Valid()
      modifies this
      ensures Valid() && !finished && b == NoEntries() && buffer == []
    {
      assert Asked(0);
      buffer, finished, lastKey, restarts, counter := [], false, [], [0], 0;
      b := NoEntries();
      assert Point(b, 0) == 0;
    }
  }
}

/** src/leveldb/block.cc. */
module BlockIterators {
  import opened Coding
  import opened Cursors
  import opened BlockFormat
  import opened BlockImages
  import opened BlockBuilding

  /** A three-way comparison: negative, zero or positive. */
  type Comparator = (Bytes, Bytes) -> int

  /** What goes before a key below t is below t. */
  ghost predicate Orders(cmp: Comparator) {
    forall a, b, t :: cmp(a, b) >= 0 && cmp(a, t) < 0 ==> cmp(b, t) < 0
  }

  /** Keys as the builder asks for them: none is below the one before it. */
  ghost predicate InOrder(cmp: Comparator, entries: seq<Entry>) {
    forall i :: 0 < i < |entries| ==> cmp(entries[i].key, entries[i - 1].key) >= 0
  }

  /** The number of leading entries below t. */
  function Lead(cmp: Comparator, entries: seq<Entry>, t: Bytes): (n: nat)
    ensures n <= |entries|
    ensures forall i :: 0 <= i < n ==> cmp(entries[i].key, t) < 0
    ensures n < |entries| ==> cmp(entries[n].key, t) >= 0
  {
    if entries == [] || cmp(entries[0].key, t) >= 0 then 0 else 1 + Lead(cmp, entries[1..], t)
  }

  /** In ordered entries, what goes before an entry below t is below t. */
  lemma {:induction false} BelowSpreads(cmp: Comparator, entries: seq<Entry>, t: Bytes, i: nat, j: nat)
    requires Orders(cmp) && InOrder(cmp, entries) && i <= j < |entries| && cmp(entries[j].key, t) < 0
    ensures cmp(entries[i].key, t) < 0
  {
    if i < j {
      assert cmp(entries[j].key, entries[j - 1].key) >= 0;
      BelowSpreads(cmp, entries, t, i, j - 1);
    }
  }

  lemma LeadBeyond(cmp: Comparator, entries: seq<Entry>, t: Bytes, j: nat)
    requires Orders(cmp) && InOrder(cmp, entries) && j < |entries| && cmp(entries[j].key, t) < 0
    ensures j < Lead(cmp, entries, t)
  {
    var n := Lead(cmp, entries, t);
    if n <= j { BelowSpreads(cmp, entries, t, n, j); }
  }

  /** From the place a Seek lands on, no key is below the target. */
  lemma LeadSplits(cmp: Comparator, entries: seq<Entry>, t: Bytes, j: nat)
    requires Orders(cmp) && InOrder(cmp, entries) && j < |entries|
    ensures cmp(entries[j].key, t) < 0 <==> j < Lead(cmp, entries, t)
  {
    if cmp(entries[j].key, t) < 0 { LeadBeyond(cmp, entries, t, j); }
  }

  /** The fields of an iterator that stands at entry i. */
  ghost predicate Standing(b: GoodImage, i: nat, current: nat, r: nat, key: Bytes, start: nat, size: nat) {
    && i < |b.entries| && current == b.off[i] < |b.data| && key == b.entries[i].key
    && start + size == b.off[i + 1] <= |b.data| && b.data[start..start + size] == b.entries[i].value
    && r < |b.marks| && b.marks[r] <= i && (r + 1 < |b.marks| ==> i <= b.marks[r + 1])
  }

  /** The fields of an iterator that is about to read entry i. */
  ghost predicate Approaching(b: GoodImage, i: nat, r: nat, key: Bytes, end: nat) {
    && i <= |b.entries| && end == b.off[i] && (i < |b.entries| ==> Shares(key, b.shared[i], b.entries[i].key))
    && r < |b.marks| && b.marks[r] <= i
  }

  lemma AfterStanding(b: GoodImage, i: nat, current: nat, r: nat, key: Bytes, start: nat, size: nat)
    requires Standing(b, i, current, r, key, start, size)
    ensures Approaching(b, i + 1, r, key, start + size)
  {
    if i + 1 < |b.entries| { assert EntryAt(b, i + 1); }
  }

  lemma AtRestart(b: GoodImage, r: nat)
    requires r < |b.marks|
    ensures b.marks[r] <= |b.entries| && Approaching(b, b.marks[r], r, [], Point(b, r))
  {
    assert MarkAt(b, r);
    MarkIn(b, r);
  }

  /** Decoding at the offset of entry i, in the contents of the whole block. */
  lemma ContentsRead(b: GoodImage, i: nat)
    requires i < |b.entries|
    ensures b.off[i] < b.off[i + 1] <= |b.data| <= |Contents(b)|
    ensures Tells(Contents(b), b.off[i], DecodeEntry(Contents(b)[b.off[i]..|b.data|]), b.shared[i], b.entries[i],
      b.off[i + 1])
  {
    EntryReads(b, i);
    var d := Contents(b);
    CountReads(b);
    var h := DecodeEntry(b.data[b.off[i]..]);
    assert d[b.off[i]..|b.data|] == b.data[b.off[i]..];
    TellsIn(b.data, d, b.off[i], h, b.shared[i], b.entries[i], b.off[i + 1]);
  }

  lemma TellsIn(d: Bytes, d': Bytes, at: nat, h: Header, shared: nat, e: Entry, end: nat)
    requires Tells(d, at, h, shared, e, end) && d <= d'
    ensures Tells(d', at, h, shared, e, end)
  {
    var p := at + h.size;
    assert d'[p..p + h.nonShared] == d[p..p + h.nonShared];
    assert d'[p + h.nonShared..end] == d[p + h.nonShared..end];
  }

  /** Entry i has a header that does not decode. */
  ghost predicate BadEntry(b: GoodImage, i: nat)
    requires i < |b.entries|
  {
    b.off[i] <= |b.data| <= |Contents(b)| ==> DecodeEntry(Contents(b)[b.off[i]..|b.data|]).Bad?
  }

  /** There is no such entry. */
  lemma NoBadEntry(b: GoodImage, i: nat)
    requires i < |b.entries|
    ensures !BadEntry(b, i)
  {
    ContentsRead(b, i);
  }

  lemma Rebuilt(last: Bytes, shared: nat, key: Bytes)
    requires Shares(last, shared, key)
    ensures last[..shared] + key[shared..] == key
  {
  }

  lemma Shown(b: GoodImage, i: nat, start: nat, size: nat)
    requires i < |b.entries| && start + size == b.off[i + 1] <= |b.data| <= |Contents(b)|
    requires Contents(b)[start..start + size] == b.entries[i].value
    ensures b.data[start..start + size] == b.entries[i].value
  {
    assert Contents(b)[start..start + size] == b.data[start..start + size];
  }

  class Iter {
    const cmp: Comparator
    const data: Bytes
    const restarts: nat
    const numRestarts: nat
    var current: nat
    var restartIndex: nat
    var key: Bytes
    var start: nat
    var size: nat
    var corrupt: bool
    ghost const b: GoodImage
    ghost var place: Cursor

    /** The iterator reads the contents of a block that a builder made. */
    ghost predicate Reads()
    {
      data == Contents(b) && restarts == |b.data| && numRestarts == |b.marks|
    }

    ghost predicate Ok()
      reads this
    {
      && Reads() && !corrupt
      && match place
         case Off => current == restarts
         case At(i) => Standing(b, i, current, restartIndex, key, start, size)
    }

    predicate Valid()
      reads this
    {
      current < restarts
    }

    constructor (cmp: Comparator, data: Bytes, restarts: nat, numRestarts: nat, ghost b: GoodImage)
      requires data == Contents(b) && restarts == |b.data| && numRestarts == |b.marks|
      ensures Ok() && place == Off && this.b == b && this.cmp == cmp
    {
      this.cmp, this.data, this.restarts, this.numRestarts := cmp, data, restarts, numRestarts;
      current, restartIndex, key, start, size, corrupt := restarts, numRestarts, [], 0, 0, false;
      this.b, place := b, Off;
    }

    /** What a reader sees is the entry at the place. */
    method Read() returns (valid: bool, k: Bytes, v: Bytes)
      requires Ok()
      ensures valid == place.At?
      ensures place.At? ==> On(b.entries, place) && Entry(k, v) == b.entries[place.i]
    {
      valid, k, v := Valid(), [], [];
      PointReads(b, 0);
      if valid {
        k, v := key, data[start..start + size];
        assert data[start..start + size] == b.data[start..start + size];
      }
    }

    method GetRestartPoint(index: nat) returns (point: nat)
      requires Reads() && index < |b.marks|
      ensures point == Point(b, index)
    {
      PointReads(b, index);
      point := FixedValue(data[restarts + 4 * index..restarts + 4 * index + 4]);
    }

    method SeekToRestartPoint(index: nat)
      requires Reads() && index < |b.marks|
      modifies this`key, this`restartIndex, this`start, this`size
      ensures b.marks[index] <= |b.entries| && restartIndex == index
      ensures Approaching(b, b.marks[index], index, key, start + size)
    {
      key := [];
      restartIndex := index;
      start := GetRestartPoint(index);
      size := 0;
      AtRestart(b, index);
    }

    method CorruptionError()
      modifies this`current, this`restartIndex, this`key, this`start, this`size, this`corrupt
      ensures current == restarts && corrupt
    {
      current, restartIndex, corrupt, key, start, size := restarts, numRestarts, true, [], 0, 0;
    }

    /** Read the next entry, which is entry i if there is one. */
    method ParseNextKey(ghost i: nat) returns (more: bool)
      requires Reads() && !corrupt && Approaching(b, i, restartIndex, key, start + size)
      modifies this
      ensures Ok() && place == Normal(b.entries, i) && more == (i < |b.entries|)
    {
      OffOrder(b, i, |b.entries|);
      place := Normal(b.entries, i);
      current := start + size;
      if current >= restarts {
        current, restartIndex := restarts, numRestarts;
        return false;
      }
      more := ReadEntry(i);
      if more { AdvanceRestart(i); }
      NoBadEntry(b, i);
    }

    /** Decode entry i; a header that cannot be decoded is reported. */
    method ReadEntry(ghost i: nat) returns (more: bool)
      requires Reads() && !corrupt && i < |b.entries| && Approaching(b, i, restartIndex, key, current)
      modifies this`current, this`restartIndex, this`key, this`start, this`size, this`corrupt
      ensures !more ==> BadEntry(b, i)
      ensures more ==> !corrupt && current == b.off[i] && restartIndex == old(restartIndex) && key == b.entries[i].key
      ensures more ==> start + size == b.off[i + 1] <= |b.data| && b.data[start..start + size] == b.entries[i].value
    {
      var h := DecodeAt(current, i);
      more := h.Header? && h.shared <= |key|;
      if !more {
        CorruptionError();
      } else {
        var p := current + h.size;
        Rebuilt(key, h.shared, b.entries[i].key);
        key := key[..h.shared] + data[p..p + h.nonShared];
        start, size := p + h.nonShared, h.valueLength;
        Shown(b, i, start, size);
      }
    }

    method DecodeAt(p: nat, ghost i: nat) returns (h: Header)
      requires Reads() && i < |b.entries| && p == b.off[i]
      ensures h.Bad? ==> BadEntry(b, i)
      ensures h.Header? ==>
        Tells(data, p, h, b.shared[i], b.entries[i], b.off[i + 1]) && b.off[i + 1] <= |b.data| <= |data|
    {
      OffOrder(b, i, |b.entries|);
      CountReads(b);
      h := DecodeEntry(data[p..restarts]);
      if h.Header? { ContentsRead(b, i); }
    }

    method AdvanceRestart(ghost i: nat)
      requires Reads() && i < |b.entries| && current == b.off[i] && restartIndex < |b.marks|
      requires b.marks[restartIndex] <= i
      modifies this`restartIndex
      ensures restartIndex < |b.marks| && b.marks[restartIndex] <= i
      ensures restartIndex + 1 < |b.marks| ==> i <= b.marks[restartIndex + 1]
    {
      while restartIndex + 1 < numRestarts
        invariant restartIndex < |b.marks| && b.marks[restartIndex] <= i
      {
        var point := GetRestartPoint(restartIndex + 1);
        MarkIn(b, restartIndex + 1);
        OffOrder(b, b.marks[restartIndex + 1], i);
        if point >= current { break; }
        restartIndex := restartIndex + 1;
      }
    }

    method Next()
      requires Ok() && Valid()
      modifies this
      ensures Ok() && place == Cursors.Next(b.entries, old(place))
    {
      ghost var i := place.i;
      AfterStanding(b, i, current, restartIndex, key, start, size);
      var _ := ParseNextKey(i + 1);
    }

    method SeekToFirst()
      requires Ok()
      modifies this
      ensures Ok() && place == First(b.entries)
    {
      SeekToRestartPoint(0);
      var _ := ParseNextKey(0);
    }

    /** Read entries from i on while they end before the given offset, which is where entry n is. */
    method SkipTo(end: nat, ghost i: nat, ghost n: nat)
      requires Reads() && !corrupt && Approaching(b, i, restartIndex, key, start + size)
      requires n <= |b.entries| && end == b.off[n] && (i < n || i == |b.entries|)
      modifies this
      ensures Ok() && place == if i < n then At(n - 1) else Off
    {
      var more := ParseNextKey(i);
      ghost var j := i;
      while more && start + size < end
        invariant Ok() && place == Normal(b.entries, j) && more == (j < |b.entries|) && i <= j && (i < n ==> j < n)
        decreases |b.entries| - j
      {
        OffOrder(b, j + 1, n);
        AfterStanding(b, j, current, restartIndex, key, start, size);
        j := j + 1;
        more := ParseNextKey(j);
      }
      if more { OffOrder(b, j + 1, n); }
    }

    method SeekToLast()
      requires Ok()
      modifies this
      ensures Ok() && place == Last(b.entries)
    {
      ghost var r := numRestarts - 1;
      MarkIn(b, r);
      SeekToRestartPoint(numRestarts - 1);
      SkipTo(restarts, b.marks[r], |b.entries|);
    }

    method Prev()
      requires Ok() && Valid()
      modifies this
      ensures Ok() && place == Cursors.Prev(b.entries, old(place))
    {
      var original := current;
      ghost var i := place.i;
      var found := RestartBefore(i);
      if !found {
        current, restartIndex := restarts, numRestarts;
        place := Off;
        return;
      }
      ghost var r := restartIndex;
      SeekToRestartPoint(restartIndex);
      SkipTo(original, b.marks[r], i);
    }

    /** Go back to a restart point before entry i, if there is one. */
    method RestartBefore(ghost i: nat) returns (found: bool)
      requires Reads() && i < |b.entries| && current == b.off[i] && restartIndex < |b.marks|
      requires b.marks[restartIndex] <= i
      modifies this`restartIndex
      ensures found == (i > 0)
      ensures found ==> restartIndex < |b.marks| && b.marks[restartIndex] < i
    {
      while true
        invariant restartIndex < |b.marks| && b.marks[restartIndex] <= i
        decreases restartIndex
      {
        var point := GetRestartPoint(restartIndex);
        OffOrder(b, b.marks[restartIndex], i);
        if point < current { return true; }
        if restartIndex == 0 { return false; }
        MarksRise(b, restartIndex - 1, restartIndex);
        restartIndex := restartIndex - 1;
      }
    }

    /** Seek lands on the first key that is not below the target. */
    method Seek(target: Bytes)
      requires Ok() && Orders(cmp) && InOrder(cmp, b.entries)
      modifies this
      ensures Ok() && place == Normal(b.entries, Lead(cmp, b.entries, target))
    {
      var left, ok, j := FindRestart(target);
      if !ok {
        CorruptionError();
      } else {
        SeekToRestartPoint(left);
        SeekFrom(target, b.marks[left]);
      }
      if j < |b.entries| { NoBadEntry(b, j); }
    }

    /** The binary search: everything before the restart point it picks is below the target. */
    method FindRestart(target: Bytes) returns (left: nat, ok: bool, ghost j: nat)
      requires Ok() && Orders(cmp) && InOrder(cmp, b.entries)
      ensures left < |b.marks| && b.marks[left] <= Lead(cmp, b.entries, target)
      ensures !ok ==> j < |b.entries| && BadEntry(b, j)
    {
      left, ok, j := 0, true, 0;
      var right := numRestarts - 1;
      while left < right
        invariant ok && left <= right < |b.marks| && b.marks[left] <= Lead(cmp, b.entries, target)
      {
        var mid := (left + right + 1) / 2;
        var below;
        ok, below, j := RestartBelow(mid, target);
        if !ok { return; }
        if below {
          left := mid;
        } else {
          right := mid - 1;
        }
      }
    }

    method RestartBelow(mid: nat, target: Bytes) returns (ok: bool, below: bool, ghost i: nat)
      requires Reads() && 0 < mid < |b.marks| && Orders(cmp) && InOrder(cmp, b.entries)
      ensures i < |b.entries| && (!ok ==> BadEntry(b, i))
      ensures ok && below ==> b.marks[mid] <= Lead(cmp, b.entries, target)
    {
      assert MarkAt(b, mid);
      MarkIn(b, mid);
      i := b.marks[mid];
      var point := GetRestartPoint(mid);
      var h := DecodeAt(point, i);
      ok, below := h.Header? && h.shared == 0, false;
      if ok {
        var midKey := data[point + h.size..point + h.size + h.nonShared];
        below := cmp(midKey, target) < 0;
        if below { LeadBeyond(cmp, b.entries, target, i); }
      }
    }

    method SeekFrom(target: Bytes, ghost i: nat)
      requires Reads() && !corrupt && Approaching(b, i, restartIndex, key, start + size)
      requires i <= Lead(cmp, b.entries, target)
      modifies this
      ensures Ok() && place == Normal(b.entries, Lead(cmp, b.entries, target))
    {
      var more := ParseNextKey(i);
      ghost var j := i;
      while more && cmp(key, target) < 0
        invariant Ok() && place == Normal(b.entries, j) && more == (j < |b.entries|)
        invariant j <= Lead(cmp, b.entries, target)
        decreases |b.entries| - j
      {
        AfterStanding(b, j, current, restartIndex, key, start, size);
        j := j + 1;
        more := ParseNextKey(j);
      }
    }

    /** Any sequence of calls: the iterator answers as a cursor over the entries. */
    method Run(calls: seq<Call>)
      requires Ok() && Orders(cmp) && InOrder(cmp, b.entries)
      modifies this
      ensures Ok() && place == Answers(cmp, b.entries, old(place), calls)
    {
      for i := 0 to |calls|
        invariant Ok() && place == Answers(cmp, b.entries, old(place), calls[..i])
      {
        Serve(calls[i]);
        assert calls[..i + 1][..i] == calls[..i];
      }
      assert calls[..|calls|] == calls;
    }

    /** Next and Prev are asked only of a valid iterator. */
    method Serve(call: Call)
      requires Ok() && Orders(cmp) && InOrder(cmp, b.entries)
      modifies this
      ensures Ok() && place == Answer(cmp, b.entries, old(place), call)
    {
      match call
      case ToFirst => SeekToFirst();
      case ToLast => SeekToLast();
      case To(t) => Seek(t);
      case Forth => if Valid() { Next(); }
      case Back => if Valid() { Prev(); }
    }
  }

  /** What a caller may ask of an iterator. */
  datatype Call = ToFirst | ToLast | To(target: Bytes) | Forth | Back

  ghost function Answer(cmp: Comparator, entries: seq<Entry>, c: Cursor, call: Call): Cursor {
    match call
    case ToFirst => First(entries)
    case ToLast => Last(entries)
    case To(t) => Normal(entries, Lead(cmp, entries, t))
    case Forth => Next(entries, c)
    case Back => Prev(entries, c)
  }

  ghost function Answers(cmp: Comparator, entries: seq<Entry>, c: Cursor, calls: seq<Call>): Cursor {
    if calls == [] then c else Answer(cmp, entries, Answers(cmp, entries, c, calls[..|calls| - 1]), calls[|calls| - 1])
  }

  /** Block::Block and NewIterator, on the contents that a builder made. */
  method Open(cmp: Comparator, contents: Bytes, ghost b: GoodImage) returns (it: Iter)
    requires contents == Contents(b)
    ensures fresh(it) && it.Ok() && it.place == Off && it.b == b && it.cmp == cmp
  {
    CountReads(b);
    var numRestarts := FixedValue(contents[|contents| - 4..]);
    var restartOffset := |contents| - (1 + numRestarts) * 4;
    it := new Iter(cmp, contents, restartOffset, numRestarts, b);
  }

  /** A block that is finished and read back is a cursor over the entries that were added. */
  method FinishAndRead(builder: BlockBuilder, cmp: Comparator, calls: seq<Call>) returns (it: Iter)
    requires builder.Valid() && !builder.finished && Orders(cmp) && InOrder(cmp, builder.b.entries)
    modifies builder
    ensures it.Ok() && it.b.entries == old(builder.b.entries)
    ensures it.place == Answers(cmp, old(builder.b.entries), Off, calls)
  {
    var contents := builder.Finish();
    builder.IsGood();
    it := Open(cmp, contents, builder.b);
    it.Run(calls);
  }
}
