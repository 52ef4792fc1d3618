/**
  The record log of src/log_writer.cc and src/log_reader.cc.  A record is cut into
  fragments that fit into blocks of 32 KB; a fragment is a header of 7 bytes and a payload.
 */
module LogFormat {
  import opened Coding
  import opened Rotations

  const BLOCK: nat := 32768
  const HEADER: nat := 7

  datatype Kind = Full | First | Middle | Last

  function Code(k: Kind): byte {
    match k
    case Full => 1
    case First => 2
    case Middle => 3
    case Last => 4
  }

  /** A fragment and the offset at which it stands. */
  datatype Frag = Frag(kind: Kind, payload: Bytes, at: nat) {
    function End(): nat { at + HEADER + |payload| }
  }

  /** The checksum of a type and a payload; only its being a function matters. */
  type Checksum = Bytes -> nat

  const DELTA: nat := 0xa282ead8

  /** Rotate right by 15 bits and add a constant, in 32-bit arithmetic. */
  function Mask(crc: nat): nat { (crc / 0x8000 + crc % 0x8000 * 0x2_0000 + DELTA) % TWO32 }

  /** Masking, on machine words. */
  lemma MaskRotates(x: bv32)
    ensures Mask(x as nat) == (((x >> 15) | (x << 17)) as nat + 0xa282ead8) % TWO32
  {
    RotateRight15(x);
  }

  function Unmask(masked: nat): nat {
    var rot := (masked + TWO32 - DELTA) % TWO32;
    rot / 0x2_0000 + rot % 0x2_0000 * 0x8000
  }

  lemma AddBack(rot: nat)
    requires rot < TWO32
    ensures ((rot + DELTA) % TWO32 + TWO32 - DELTA) % TWO32 == rot
  {
  }

  lemma RotateBack(crc: nat)
    requires crc < TWO32
    ensures var rot := crc / 0x8000 + crc % 0x8000 * 0x2_0000;
      rot < TWO32 && rot / 0x2_0000 == crc % 0x8000 && rot % 0x2_0000 == crc / 0x8000
  {
  }

  lemma UnmaskMask(crc: nat)
    requires crc < TWO32
    ensures Unmask(Mask(crc)) == crc
  {
    RotateBack(crc);
    AddBack(crc / 0x8000 + crc % 0x8000 * 0x2_0000);
  }

  function Crc(sum: Checksum, kind: byte, payload: Bytes): nat { sum([kind] + payload) % TWO32 }

  function Header(sum: Checksum, kind: Kind, payload: Bytes): (h: Bytes)
    ensures |h| == HEADER
  {
    Fixed(Mask(Crc(sum, Code(kind), payload)), 4) + [|payload| % 256, |payload| / 256 % 256, Code(kind)]
  }

  /** A fragment as bytes. */
  function Stored(sum: Checksum, kind: Kind, payload: Bytes): (b: Bytes)
    ensures |b| == HEADER + |payload|
  {
    Header(sum, kind, payload) + payload
  }

  /** How fragments are stored. */
  type Store = st: (Kind, Bytes) -> Bytes | Framed(st) ghost witness StoreOf(b => 0)

  ghost predicate Framed(st: (Kind, Bytes) -> Bytes) {
    forall kind, payload {:trigger st(kind, payload)} :: |st(kind, payload)| == HEADER + |payload|
  }

  function StoreOf(sum: Checksum): (Kind, Bytes) -> Bytes {
    (kind: Kind, payload: Bytes) => Stored(sum, kind, payload)
  }

  /** Where the next fragment stands after one that ends at e: a trailer too small for a header is skipped. */
  function Next(e: nat): (at: nat)
    ensures e <= at < e + HEADER && at % BLOCK <= BLOCK - HEADER
  {
    if e % BLOCK > BLOCK - HEADER then e - e % BLOCK + BLOCK else e
  }

  predicate Fits(f: Frag) { f.at % BLOCK + HEADER + |f.payload| <= BLOCK }

  // ---------------------------------------------------------------------- writing

  function KindOf(begin: bool, end: bool): Kind {
    if begin && end then Full else if begin then First else if end then Last else Middle
  }

  /** The fragments of one record, the previous one ending at e. */
  function Fragments(data: Bytes, begin: bool, e: nat): (fs: seq<Frag>)
    ensures |fs| > 0
    decreases |data|, if e % BLOCK == BLOCK - HEADER then 1 else 0
  {
    var at := Next(e);
    var room := BLOCK - at % BLOCK - HEADER;
    if |data| <= room then [Frag(KindOf(begin, true), data, at)]
    else [Frag(KindOf(begin, false), data[..room], at)] + Fragments(data[room..], false, at + HEADER + room)
  }

  function LastEnd(fs: seq<Frag>, e: nat): nat { if fs == [] then e else fs[|fs| - 1].End() }

  /** All fragments of a list of records. */
  function Log(records: seq<Bytes>, e: nat): seq<Frag> {
    if records == [] then []
    else
      var fs := Fragments(records[0], true, e);
      fs + Log(records[1..], LastEnd(fs, e))
  }

  /** Fragments follow each other, each within its block. */
  ghost predicate Laid(fs: seq<Frag>, e: nat) {
    fs != [] ==> fs[0].at == Next(e) && Fits(fs[0]) && Laid(fs[1..], fs[0].End())
  }

  /** The bytes of the file from e on. */
  function Image(st: Store, fs: seq<Frag>, e: nat): Bytes
    decreases fs
  {
    if fs == [] then []
    else if fs[0].at < e then []
    else ZeroBytes(fs[0].at - e) + st(fs[0].kind, fs[0].payload) + Image(st, fs[1..], fs[0].End())
  }

  lemma {:induction false} FragmentsLaid(data: Bytes, begin: bool, e: nat)
    ensures Laid(Fragments(data, begin, e), e)
    decreases |data|, if e % BLOCK == BLOCK - HEADER then 1 else 0
  {
    var at := Next(e);
    var room := BLOCK - at % BLOCK - HEADER;
    if |data| > room { FragmentsLaid(data[room..], false, at + HEADER + room); }
  }

  function Payloads(fs: seq<Frag>): Bytes { if fs == [] then [] else fs[0].payload + Payloads(fs[1..]) }

  /** Fragment i of n is marked as first, last, both or neither, and ends its block unless it is the last. */
  ghost predicate Marked(f: Frag, begin: bool, i: nat, n: nat) {
    f.kind == KindOf(begin && i == 0, i + 1 == n) && (i + 1 < n ==> f.End() % BLOCK == 0)
  }

  /** The fragments of a record hold its bytes, are marked, and fill their blocks. */
  ghost predicate Carries(fs: seq<Frag>, data: Bytes, begin: bool) {
    Payloads(fs) == data && forall i :: 0 <= i < |fs| ==> Marked(fs[i], begin, i, |fs|)
  }

  lemma {:induction false} FragmentsCarry(data: Bytes, begin: bool, e: nat)
    ensures Carries(Fragments(data, begin, e), data, begin)
    decreases |data|, if e % BLOCK == BLOCK - HEADER then 1 else 0
  {
    var at := Next(e);
    var room := BLOCK - at % BLOCK - HEADER;
    if |data| > room {
      FragmentsCarry(data[room..], false, at + HEADER + room);
      BlockEnds(at, room);
      CarriesOn(Frag(KindOf(begin, false), data[..room], at), Fragments(data[room..], false, at + HEADER + room), data,
                begin, room);
    } else {
      CarriesAlone(Frag(KindOf(begin, true), data, at), data, begin);
    }
  }

  lemma BlockEnds(at: nat, room: nat)
    requires room == BLOCK - at % BLOCK - HEADER
    ensures (at + HEADER + room) % BLOCK == 0
  {
  }

  lemma CarriesAlone(f: Frag, data: Bytes, begin: bool)
    requires f.payload == data && f.kind == KindOf(begin, true)
    ensures Carries([f], data, begin)
  {
    assert data + [] == data && [f][1..] == [];
  }

  lemma CarriesOn(f: Frag, rest: seq<Frag>, data: Bytes, begin: bool, n: nat)
    requires n <= |data| && f.payload == data[..n] && f.kind == KindOf(begin, false) && f.End() % BLOCK == 0
    requires rest != [] && Carries(rest, data[n..], false)
    ensures Carries([f] + rest, data, begin)
  {
    var fs := [f] + rest;
    assert fs[1..] == rest && data[..n] + data[n..] == data;
    forall i | 0 <= i < |fs| ensures Marked(fs[i], begin, i, |fs|) {
      if i > 0 { assert Marked(rest[i - 1], false, i - 1, |rest|); }
    }
  }

  lemma {:induction false} LaidJoin(a: seq<Frag>, b: seq<Frag>, e: nat)
    requires Laid(a, e) && Laid(b, LastEnd(a, e))
    ensures Laid(a + b, e)
    decreases a
  {
    if a == [] {
      assert a + b == b;
    } else {
      LaidJoin(a[1..], b, a[0].End());
      assert (a + b)[1..] == a[1..] + b;
    }
  }

  lemma {:induction false} LogLaid(records: seq<Bytes>, e: nat)
    ensures Laid(Log(records, e), e)
    decreases records
  {
    if records != [] {
      var fs := Fragments(records[0], true, e);
      FragmentsLaid(records[0], true, e);
      LogLaid(records[1..], LastEnd(fs, e));
      LaidJoin(fs, Log(records[1..], LastEnd(fs, e)), e);
    }
  }

  /** No fragment stands before the end of the one in front of it. */
  ghost predicate Ascends(fs: seq<Frag>, e: nat) {
    fs != [] ==> e <= fs[0].at && Ascends(fs[1..], fs[0].End())
  }

  lemma {:induction false} LaidAscends(fs: seq<Frag>, e: nat)
    requires Laid(fs, e)
    ensures Ascends(fs, e)
    decreases fs
  {
    if fs != [] { LaidAscends(fs[1..], fs[0].End()); }
  }

  lemma {:induction false} ImageLength(st: Store, fs: seq<Frag>, e: nat)
    requires Ascends(fs, e)
    ensures e + |Image(st, fs, e)| == LastEnd(fs, e)
    decreases fs
  {
    if fs != [] { ImageLength(st, fs[1..], fs[0].End()); }
  }

  lemma {:induction false} ImageJoin(st: Store, a: seq<Frag>, b: seq<Frag>, e: nat)
    requires Ascends(a, e)
    ensures Image(st, a + b, e) == Image(st, a, e) + Image(st, b, LastEnd(a, e))
    decreases a
  {
    if a == [] {
      assert a + b == b;
    } else {
      var f := a[0];
      ImageJoin(st, a[1..], b, f.End());
      Tail(a, b, e);
      JoinStep(st, a, b, e, Image(st, a[1..], f.End()), Image(st, b, LastEnd(a, e)));
    }
  }

  lemma Tail(a: seq<Frag>, b: seq<Frag>, e: nat)
    requires a != []
    ensures (a + b)[0] == a[0] && (a + b)[1..] == a[1..] + b && LastEnd(a[1..], a[0].End()) == LastEnd(a, e)
  {
  }

  lemma JoinStep(st: Store, a: seq<Frag>, b: seq<Frag>, e: nat, x: Bytes, y: Bytes)
    requires a != [] && e <= a[0].at && x == Image(st, a[1..], a[0].End())
    requires (a + b)[0] == a[0] && Image(st, (a + b)[1..], a[0].End()) == x + y
    ensures Image(st, a + b, e) == Image(st, a, e) + y
  {
    FourParts(ZeroBytes(a[0].at - e), st(a[0].kind, a[0].payload), x, y);
  }

  /** The same with any way of cutting records into fragments. */
  function LogBy(cut: (Bytes, nat) -> seq<Frag>, records: seq<Bytes>, e: nat): seq<Frag>
    decreases records
  {
    if records == [] then [] else cut(records[0], e) + LogBy(cut, records[1..], LastEnd(cut(records[0], e), e))
  }

  function Cut(): (Bytes, nat) -> seq<Frag> { (data: Bytes, e: nat) => Fragments(data, true, e) }

  lemma {:induction false} LogIsBy(records: seq<Bytes>, e: nat)
    ensures Log(records, e) == LogBy(Cut(), records, e)
    decreases records
  {
    if records != [] { LogIsBy(records[1..], LastEnd(Fragments(records[0], true, e), e)); }
  }

  lemma EndOfJoin(a: seq<Frag>, b: seq<Frag>, e: nat)
    ensures LastEnd(a + b, e) == LastEnd(b, LastEnd(a, e))
  {
  }

  lemma {:induction false} LogByAppend(cut: (Bytes, nat) -> seq<Frag>, records: seq<Bytes>, record: Bytes, e: nat)
    ensures LogBy(cut, records + [record], e) == LogBy(cut, records, e)
      + cut(record, LastEnd(LogBy(cut, records, e), e))
    decreases records
  {
    var all := records + [record];
    if records == [] {
      assert all[0] == record && all[1..] == [];
      assert cut(record, e) + [] == cut(record, e) == [] + cut(record, e);
    } else {
      var fs := cut(records[0], e);
      var end := LastEnd(fs, e);
      var more := LogBy(cut, records[1..], end);
      LogByAppend(cut, records[1..], record, end);
      assert all[0] == records[0] && all[1..] == records[1..] + [record];
      EndOfJoin(fs, more, e);
      assert fs + (more + cut(record, LastEnd(more, end))) == fs + more + cut(record, LastEnd(more, end));
    }
  }

  /** Adding a record to a file that holds a log gives a file that holds the longer log. */
  lemma AddedRecord(st: Store, records: seq<Bytes>, record: Bytes, file: Bytes)
    requires file == Image(st, Log(records, 0), 0)
    ensures file + Image(st, Fragments(record, true, |file|), |file|) == Image(st, Log(records + [record], 0), 0)
  {
    LogLaid(records, 0);
    LaidAscends(Log(records, 0), 0);
    LogIsBy(records, 0);
    LogIsBy(records + [record], 0);
    AddedBy(st, Cut(), records, record, file);
  }

  lemma AddedBy(st: Store, cut: (Bytes, nat) -> seq<Frag>, records: seq<Bytes>, record: Bytes, file: Bytes)
    requires Ascends(LogBy(cut, records, 0), 0) && file == Image(st, LogBy(cut, records, 0), 0)
    ensures file + Image(st, cut(record, |file|), |file|) == Image(st, LogBy(cut, records + [record], 0), 0)
  {
    var fs := LogBy(cut, records, 0);
    ImageLength(st, fs, 0);
    LogByAppend(cut, records, record, 0);
    ImageJoin(st, fs, cut(record, |file|), 0);
  }

  /** The first fragment of what is left of a record, and the rest. */
  lemma FirstFragment(st: Store, data: Bytes, begin: bool, e: nat, room: nat, n: nat)
    requires room == BLOCK - Next(e) % BLOCK - HEADER && n == (if |data| < room then |data| else room)
    ensures var kind := KindOf(begin, |data| == n);
      var end := Next(e) + HEADER + n;
      Image(st, Fragments(data, begin, e), e) == ZeroBytes(Next(e) - e) + st(kind, data[..n])
        + (if |data| == n then [] else Image(st, Fragments(data[n..], false, end), end))
  {
    var f, end := Frag(KindOf(begin, |data| == n), data[..n], Next(e)), Next(e) + HEADER + n;
    FragmentsAre(data, begin, e, room, n);
    ImageCons(st, f, if |data| == n then [] else Fragments(data[n..], false, end), e);
  }

  lemma FragmentsAre(data: Bytes, begin: bool, e: nat, room: nat, n: nat)
    requires room == BLOCK - Next(e) % BLOCK - HEADER && n == (if |data| < room then |data| else room)
    ensures Fragments(data, begin, e) == [Frag(KindOf(begin, |data| == n), data[..n], Next(e))]
      + (if |data| == n then [] else Fragments(data[n..], false, Next(e) + HEADER + n))
  {
    if |data| == n { assert data[..n] == data; }
  }

  lemma ImageCons(st: Store, f: Frag, fs: seq<Frag>, e: nat)
    requires e <= f.at
    ensures Image(st, [f] + fs, e) == ZeroBytes(f.at - e) + st(f.kind, f.payload) + Image(st, fs, f.End())
  {
    assert ([f] + fs)[1..] == fs;
  }

  lemma FourParts(a: Bytes, b: Bytes, c: Bytes, d: Bytes)
    ensures a + b + (c + d) == a + b + c + d
  {
  }
}

/** Writer: appends to the file, block by block. */
module LogWriter {
  import opened Coding
  import opened LogFormat

  /** How fragments are stored, and the bytes a record, or the rest of one, becomes after offset e. */
  datatype Plan = Plan(st: (Kind, Bytes) -> Bytes, bytes: (Bytes, bool, nat) -> Bytes)

  type Format = p: Plan | Follows(p) ghost witness PlanOf(StoreOf(b => 0))

  ghost predicate Follows(p: Plan) {
    && Framed(p.st)
    && forall data, begin, e {:trigger Image(p.st, Fragments(data, begin, e), e)} ::
      p.bytes(data, begin, e) == Image(p.st, Fragments(data, begin, e), e)
  }

  ghost function PlanOf(st: Store): (p: Plan)
    ensures Follows(p) && p.st == st
  {
    Plan(st, (data: Bytes, begin: bool, e: nat) => Image(st, Fragments(data, begin, e), e))
  }

  class Writer {
    const sum: Checksum
    ghost const p: Format
    var dest: Bytes
    var blockOffset: nat

    /** The offset within the block; at the end of a block it may still stand at the block's size. */
    ghost predicate Valid()
      reads this
    {
      p.st == StoreOf(sum) && blockOffset <= BLOCK && |dest| % BLOCK == blockOffset % BLOCK
    }

    constructor (sum: Checksum, dest: Bytes)
      ensures Valid() && this.sum == sum && this.dest == dest
    {
      this.sum, this.dest, blockOffset := sum, dest, |dest| % BLOCK;
      p := PlanOf(StoreOf(sum));
    }

    /** The seven bytes of the header, then the payload. */
    method EmitPhysicalRecord(kind: Kind, payload: Bytes)
      requires Valid() && blockOffset + HEADER + |payload| <= BLOCK
      modifies this
      ensures Valid() && dest == old(dest) + p.st(kind, payload)
    {
      var buf := FormatHeader(sum, kind, payload);
      AdvancedAlike(|dest|, blockOffset, HEADER + |payload|);
      dest := dest + buf;
      dest := dest + payload;
      assert dest == old(dest) + (buf + payload);
      blockOffset := blockOffset + HEADER + |payload|;
    }

    /** AddRecord appends the fragments of the record. */
    method AddRecord(record: Bytes)
      requires Valid()
      modifies this
      ensures Valid() && dest == old(dest) + Image(p.st, Fragments(record, true, |old(dest)|), |old(dest)|)
    {
      assert p.bytes(record, true, |dest|) == Image(p.st, Fragments(record, true, |dest|), |dest|);
      AddFragments(record);
    }

    method AddFragments(record: Bytes)
      requires Valid()
      modifies this
      ensures Valid() && dest == old(dest) + p.bytes(record, true, |old(dest)|)
    {
      var left, begin, more := record, true, true;
      ghost var goal := dest + p.bytes(record, true, |dest|);
      while more
        invariant Valid()
        invariant more ==> dest + p.bytes(left, begin, |dest|) == goal
        invariant !more ==> dest == goal
        decreases more, |left|, if |dest| % BLOCK == BLOCK - HEADER then 1 else 0
      {
        left, more := AddFragment(left, begin, goal);
        begin := false;
      }
    }

    /** The trailer, if the block has no room for another header. */
    method FillTrailer()
      requires Valid()
      modifies this
      ensures Valid() && dest == old(dest) + ZeroBytes(Next(|old(dest)|) - |old(dest)|)
      ensures blockOffset == |dest| % BLOCK && blockOffset <= BLOCK - HEADER
    {
      Positions(|dest|, blockOffset);
      var leftover := BLOCK - blockOffset;
      if leftover < HEADER {
        dest := dest + ZeroBytes(leftover);
        blockOffset := 0;
      } else {
        assert dest + ZeroBytes(0) == dest;
      }
    }

    /** One round of the loop: a trailer if needed, then one fragment. */
    method AddFragment(left: Bytes, begin: bool, ghost goal: Bytes) returns (rest: Bytes, more: bool)
      requires Valid() && dest + p.bytes(left, begin, |dest|) == goal
      modifies this
      ensures Valid()
      ensures more ==> dest + p.bytes(rest, false, |dest|) == goal
      ensures !more ==> dest == goal
      ensures more ==>
        |rest| < |left| || (|rest| == |left| && old(|dest|) % BLOCK == BLOCK - HEADER && |dest| % BLOCK == 0)
    {
      ghost var before := dest;
      FillTrailer();
      ghost var at := |dest|;
      var room := BLOCK - blockOffset - HEADER;
      var n := if |left| < room then |left| else room;
      AfterRound(p, before, left, begin, room, n);
      Progress(|before|, at, |left|, n);
      EmitPhysicalRecord(KindOf(begin, |left| == n), left[..n]);
      rest, more := left[n..], |left| > n;
      assert !more ==> dest + [] == dest;
    }
  }

  lemma AdvancedAlike(length: nat, offset: nat, n: nat)
    requires length % BLOCK == offset % BLOCK
    ensures (length + n) % BLOCK == (offset + n) % BLOCK
  {
  }

  /** The header, byte by byte: the masked checksum of type and payload, the length, the type. */
  method FormatHeader(sum: Checksum, kind: Kind, payload: Bytes) returns (buf: Bytes)
    requires |payload| <= 0xffff
    ensures buf == Header(sum, kind, payload)
  {
    var crc := FourBytes(Mask(Crc(sum, Code(kind), payload)));
    var length := TwoBytes(|payload|);
    buf := crc + length + [Code(kind)];
  }

  method TwoBytes(n: nat) returns (r: Bytes)
    requires n <= 0xffff
    ensures r == [n % 256, n / 256 % 256]
  {
    r := [n % 256, n / 256];
  }

  /** EncodeFixed32. */
  method FourBytes(v: nat) returns (r: Bytes)
    ensures r == Fixed(v, 4)
  {
    var b := v / 256;
    var c := b / 256;
    var d := c / 256;
    r := [v % 256, b % 256, c % 256, d % 256];
    assert Fixed(c, 2) == [c % 256] + Fixed(d, 1) == r[2..];
    assert Fixed(b, 3) == [b % 256] + Fixed(c, 2) == r[1..];
    assert Fixed(v, 4) == [v % 256] + Fixed(b, 3);
  }

  /** The first fragment of what is to be written, and what then is left. */
  lemma FirstBytes(p: Format, data: Bytes, begin: bool, e: nat, room: nat, n: nat)
    requires room == BLOCK - Next(e) % BLOCK - HEADER && n == (if |data| < room then |data| else room)
    ensures p.bytes(data, begin, e) == ZeroBytes(Next(e) - e) + p.st(KindOf(begin, |data| == n), data[..n])
      + (if |data| == n then [] else p.bytes(data[n..], false, Next(e) + HEADER + n))
  {
    var end := Next(e) + HEADER + n;
    FirstFragment(p.st, data, begin, e, room, n);
    assert p.bytes(data, begin, e) == Image(p.st, Fragments(data, begin, e), e);
    assert p.bytes(data[n..], false, end) == Image(p.st, Fragments(data[n..], false, end), end);
  }

  /** The bytes after one round, followed by those of the rest of the record, are what was to be written. */
  lemma AfterRound(p: Format, before: Bytes, data: Bytes, begin: bool, room: nat, n: nat)
    requires room == BLOCK - Next(|before|) % BLOCK - HEADER && n == (if |data| < room then |data| else room)
    ensures var end := Next(|before|) + HEADER + n;
      before + p.bytes(data, begin, |before|)
      == before + ZeroBytes(Next(|before|) - |before|) + p.st(KindOf(begin, |data| == n), data[..n])
         + (if |data| == n then [] else p.bytes(data[n..], false, end))
  {
    var e := |before|;
    var tail := if |data| == n then [] else p.bytes(data[n..], false, Next(e) + HEADER + n);
    FirstBytes(p, data, begin, e, room, n);
    Regroup(before, ZeroBytes(Next(e) - e), p.st(KindOf(begin, |data| == n), data[..n]), tail, p.bytes(data, begin, e));
  }

  lemma Regroup(a: Bytes, b: Bytes, c: Bytes, d: Bytes, all: Bytes)
    requires all == b + c + d
    ensures a + all == a + b + c + d
  {
  }

  lemma Positions(length: nat, offset: nat)
    requires offset <= BLOCK && length % BLOCK == offset % BLOCK
    ensures if BLOCK - offset < HEADER then Next(length) == length + (BLOCK - offset) && Next(length) % BLOCK == 0
            else Next(length) == length && length % BLOCK == offset
  {
  }

  /** A round that takes no byte of the record ends exactly at the end of a block. */
  lemma Progress(e: nat, at: nat, left: nat, n: nat)
    requires at == Next(e) && n == (if left < BLOCK - at % BLOCK - HEADER then left else BLOCK - at % BLOCK - HEADER)
    ensures left > n ==> n > 0 || (e % BLOCK == BLOCK - HEADER && (at + HEADER + n) % BLOCK == 0)
  {
  }
}

/** What a reader makes of the fragments of a log: whole records. */
module LogAssembly {
  import opened Coding
  import opened LogFormat

  /** Between records, or within one: its bytes so far and where it started. */
  datatype Partial = Idle | Within(scratch: Bytes, first: nat)

  datatype Result = None | Got(record: Bytes, at: nat, rest: seq<Frag>)

  datatype Turn = Done(record: Bytes, at: nat) | Go(p: Partial)

  /** What a fragment adds to the record being read. */
  ghost function Take(p: Partial, f: Frag): Turn {
    match f.kind
    case Full => Done(f.payload, f.at)
    case First => Go(Within(f.payload, f.at))
    case Middle => Go(if p.Within? then Within(p.scratch + f.payload, p.first) else p)
    case Last => if p.Within? then Done(p.scratch + f.payload, p.first) else Go(p)
  }

  /**
    ReadRecord on fragments: only the first n bytes of the file exist, fragments before init
    do not count, and while resyncing the rest of a record whose start is missing is skipped.
   */
  ghost function Assemble(todo: seq<Frag>, n: nat, init: nat, p: Partial, resync: bool): Result
    decreases todo
  {
    if todo == [] || todo[0].End() > n then None
    else
      var f, rest := todo[0], todo[1..];
      if f.at < init then Assemble(rest, n, init, Idle, false)
      else if resync && f.kind == Middle then Assemble(rest, n, init, p, true)
      else if resync && f.kind == Last then Assemble(rest, n, init, p, false)
      else
        match Take(p, f)
        case Done(record, at) => Got(record, at, rest)
        case Go(p') => Assemble(rest, n, init, p', false)
  }

  /** The specification: the first record that starts at or after init, if it lies within n. */
  ghost function FirstFrom(records: seq<Bytes>, e: nat, n: nat, init: nat): Result
    decreases records
  {
    if records == [] then None
    else
      var fs := Fragments(records[0], true, e);
      var end := LastEnd(fs, e);
      if end > n then None
      else if fs[0].at >= init then Got(records[0], fs[0].at, Log(records[1..], end))
      else FirstFrom(records[1..], end, n, init)
  }

  /** The fragments hold the bytes of a record, or the rest of one, and their kinds say so. */
  ghost predicate Hold(fs: seq<Frag>, data: Bytes, begin: bool)
    decreases fs
  {
    && fs != [] && fs[0].payload <= data && fs[0].kind == KindOf(begin, |fs| == 1)
    && if |fs| == 1 then fs[0].payload == data else Hold(fs[1..], data[|fs[0].payload|..], false)
  }

  lemma HoldCons(f: Frag, fs: seq<Frag>, data: Bytes, begin: bool)
    requires f.payload <= data && f.kind == KindOf(begin, false) && Hold(fs, data[|f.payload|..], false)
    ensures Hold([f] + fs, data, begin)
  {
    assert ([f] + fs)[1..] == fs;
  }

  lemma {:induction false} FragmentsHold(data: Bytes, begin: bool, e: nat)
    ensures Hold(Fragments(data, begin, e), data, begin)
    decreases |data|, if e % BLOCK == BLOCK - HEADER then 1 else 0
  {
    var at := Next(e);
    var room := BLOCK - at % BLOCK - HEADER;
    if |data| > room {
      var fs := Fragments(data[room..], false, at + HEADER + room);
      FragmentsHold(data[room..], false, at + HEADER + room);
      HoldCons(Frag(KindOf(begin, false), data[..room], at), fs, data, begin);
    }
  }

  lemma {:induction false} EndsAfter(fs: seq<Frag>, e: nat)
    requires Ascends(fs, e)
    ensures e <= LastEnd(fs, e) && (fs != [] ==> fs[0].End() <= LastEnd(fs, e))
    decreases fs
  {
    if fs != [] { EndsAfter(fs[1..], fs[0].End()); }
  }

  /** The rest of a record whose start is missing is passed over. */
  lemma {:induction false} RestSkipped(fs: seq<Frag>, more: seq<Frag>, data: Bytes, e: nat, n: nat, init: nat,
      resync: bool)
    requires Hold(fs, data, false) && Ascends(fs, e)
    ensures Assemble(fs + more, n, init, Idle, resync)
      == if LastEnd(fs, e) <= n then Assemble(more, n, init, Idle, false) else None
    decreases fs
  {
    EndsAfter(fs, e);
    assert (fs + more)[0] == fs[0] && (fs + more)[1..] == fs[1..] + more;
    if |fs| > 1 {
      var f, rest := fs[0], data[|fs[0].payload|..];
      RestSkipped(fs[1..], more, rest, f.End(), n, init, false);
      RestSkipped(fs[1..], more, rest, f.End(), n, init, true);
    } else {
      assert fs[1..] + more == more;
    }
  }

  /** The rest of a record whose start is known completes it. */
  lemma {:induction false} RestRead(fs: seq<Frag>, more: seq<Frag>, data: Bytes, e: nat, n: nat, init: nat,
      scratch: Bytes, first: nat)
    requires Hold(fs, data, false) && Ascends(fs, e) && init <= e
    ensures Assemble(fs + more, n, init, Within(scratch, first), false)
      == if LastEnd(fs, e) <= n then Got(scratch + data, first, more) else None
    decreases fs
  {
    EndsAfter(fs, e);
    assert (fs + more)[0] == fs[0] && (fs + more)[1..] == fs[1..] + more;
    var f := fs[0];
    if |fs| > 1 {
      RestRead(fs[1..], more, data[|f.payload|..], f.End(), n, init, scratch + f.payload, first);
      assert scratch + f.payload + data[|f.payload|..] == scratch + data;
    } else {
      assert fs[1..] + more == more;
    }
  }

  /** A record is returned if it starts at or after init and lies within n; before init it is passed over. */
  lemma RecordRead(fs: seq<Frag>, more: seq<Frag>, data: Bytes, e: nat, n: nat, init: nat, resync: bool)
    requires Hold(fs, data, true) && Ascends(fs, e)
    ensures Assemble(fs + more, n, init, Idle, resync)
      == if LastEnd(fs, e) > n then None
         else if fs[0].at >= init then Got(data, fs[0].at, more)
         else Assemble(more, n, init, Idle, false)
  {
    EndsAfter(fs, e);
    assert (fs + more)[0] == fs[0] && (fs + more)[1..] == fs[1..] + more;
    var f := fs[0];
    if |fs| > 1 {
      var rest := data[|f.payload|..];
      if f.at >= init {
        RestRead(fs[1..], more, rest, f.End(), n, init, f.payload, f.at);
        assert f.payload + rest == data;
      } else {
        RestSkipped(fs[1..], more, rest, f.End(), n, init, false);
      }
    } else {
      assert fs[1..] + more == more;
    }
  }

  /** From the start of a record on, reading gives the first record from init that is wholly there. */
  lemma {:induction false} AssembleLog(records: seq<Bytes>, e: nat, n: nat, init: nat, resync: bool)
    ensures Assemble(Log(records, e), n, init, Idle, resync) == FirstFrom(records, e, n, init)
    decreases records
  {
    if records != [] {
      var fs := Fragments(records[0], true, e);
      FragmentsHold(records[0], true, e);
      FragmentsLaid(records[0], true, e);
      LaidAscends(fs, e);
      var end := LastEnd(fs, e);
      RecordRead(fs, Log(records[1..], end), records[0], e, n, init, resync);
      AssembleLog(records[1..], end, n, init, false);
    }
  }

  /** Also when reading starts in the middle of a record. */
  lemma AssembleFromMiddle(fs: seq<Frag>, data: Bytes, records: seq<Bytes>, e: nat, n: nat, init: nat, resync: bool)
    requires Hold(fs, data, false) && Ascends(fs, e)
    ensures Assemble(fs + Log(records, LastEnd(fs, e)), n, init, Idle, resync)
      == if LastEnd(fs, e) <= n then FirstFrom(records, LastEnd(fs, e), n, init) else None
  {
    RestSkipped(fs, Log(records, LastEnd(fs, e)), data, e, n, init, resync);
    AssembleLog(records, LastEnd(fs, e), n, init, false);
  }

  /** Between records it makes no difference whether the reader is resyncing. */
  lemma {:induction false} ResyncIrrelevant(todo: seq<Frag>, n: nat, init: nat)
    ensures Assemble(todo, n, init, Idle, true) == Assemble(todo, n, init, Idle, false)
    decreases todo
  {
    if todo != [] { ResyncIrrelevant(todo[1..], n, init); }
  }

  /** The records that start at or after init and end within n, in order. */
  ghost function Kept(records: seq<Bytes>, e: nat, n: nat, init: nat): seq<Bytes>
    decreases records
  {
    if records == [] then []
    else
      var fs := Fragments(records[0], true, e);
      (if fs[0].at >= init && LastEnd(fs, e) <= n then [records[0]] else [])
        + Kept(records[1..], LastEnd(fs, e), n, init)
  }

  lemma RecordEnds(data: Bytes, e: nat)
    ensures e <= LastEnd(Fragments(data, true, e), e)
  {
    FragmentsLaid(data, true, e);
    LaidAscends(Fragments(data, true, e), e);
    EndsAfter(Fragments(data, true, e), e);
  }

  lemma {:induction false} NoneKept(records: seq<Bytes>, e: nat, n: nat, init: nat)
    requires e > n
    ensures Kept(records, e, n, init) == []
    decreases records
  {
    if records != [] {
      RecordEnds(records[0], e);
      NoneKept(records[1..], LastEnd(Fragments(records[0], true, e), e), n, init);
    }
  }

  /** The first record found is the first of those kept, and the rest of them follow it. */
  lemma {:induction false} FirstIsKept(records: seq<Bytes>, e: nat, n: nat, init: nat)
    returns (rest: seq<Bytes>, e': nat)
    ensures match FirstFrom(records, e, n, init)
      case None => Kept(records, e, n, init) == []
      case Got(record, at, todo) =>
        todo == Log(rest, e') && |rest| < |records| && Kept(records, e, n, init) == [record] + Kept(rest, e', n, init)
    decreases records
  {
    rest, e' := [], e;
    if records != [] {
      var fs := Fragments(records[0], true, e);
      var end := LastEnd(fs, e);
      if end > n {
        NoneKept(records[1..], end, n, init);
      } else if fs[0].at >= init {
        rest, e' := records[1..], end;
      } else {
        rest, e' := FirstIsKept(records[1..], end, n, init);
        assert Kept(records, e, n, init) == [] + Kept(records[1..], end, n, init);
      }
    }
  }

  /** How many records, from the first on, lie wholly within n bytes. */
  ghost function Whole(records: seq<Bytes>, e: nat, n: nat): (k: nat)
    ensures k <= |records|
    decreases records
  {
    if records == [] then 0
    else
      var end := LastEnd(Fragments(records[0], true, e), e);
      if end <= n then 1 + Whole(records[1..], end, n) else 0
  }

  /** Read from the start, a cut log gives a prefix of its records: those that are whole. */
  lemma {:induction false} KeptIsPrefix(records: seq<Bytes>, e: nat, n: nat)
    ensures Kept(records, e, n, 0) == records[..Whole(records, e, n)]
    decreases records
  {
    if records != [] {
      var end := LastEnd(Fragments(records[0], true, e), e);
      if end <= n {
        KeptIsPrefix(records[1..], end, n);
        assert records[..1 + Whole(records[1..], end, n)] == [records[0]] + records[1..][..Whole(records[1..], end, n)];
      } else {
        NoneKept(records[1..], end, n, 0);
      }
    }
  }

  lemma {:induction false} LogEndsAfter(records: seq<Bytes>, e: nat)
    ensures e <= LastEnd(Log(records, e), e)
  {
    LogLaid(records, e);
    LaidAscends(Log(records, e), e);
    EndsAfter(Log(records, e), e);
  }

  /** The first k records are whole in any cut that holds the bytes they take. */
  lemma {:induction false} WholeAtLeast(records: seq<Bytes>, e: nat, n: nat, k: nat)
    requires k <= |records| && LastEnd(Log(records[..k], e), e) <= n
    ensures k <= Whole(records, e, n)
    decreases records
  {
    if k > 0 {
      var fs := Fragments(records[0], true, e);
      var end := LastEnd(fs, e);
      var rest := Log(records[1..][..k - 1], end);
      assert records[..k][1..] == records[1..][..k - 1];
      EndOfJoin(fs, rest, e);
      LogEndsAfter(records[1..][..k - 1], end);
      WholeAtLeast(records[1..], end, n, k - 1);
    }
  }

  // ------------------------------------------------------------------- corruption

  /** No fragment is out of place: what ReadRecord reports as corruption does not occur. */
  ghost predicate Clean(todo: seq<Frag>, within: bool)
    decreases todo
  {
    todo != [] ==>
      match todo[0].kind
      case Full => !within && Clean(todo[1..], false)
      case First => !within && Clean(todo[1..], true)
      case Middle => within && Clean(todo[1..], true)
      case Last => within && Clean(todo[1..], false)
  }

  lemma {:induction false} HoldClean(fs: seq<Frag>, data: Bytes, begin: bool, more: seq<Frag>)
    requires Hold(fs, data, begin) && Clean(more, false)
    ensures Clean(fs + more, !begin)
    decreases fs
  {
    assert (fs + more)[0] == fs[0] && (fs + more)[1..] == fs[1..] + more;
    if |fs| > 1 {
      HoldClean(fs[1..], data[|fs[0].payload|..], false, more);
    } else {
      assert fs[1..] + more == more;
    }
  }

  lemma {:induction false} LogClean(records: seq<Bytes>, e: nat)
    ensures Clean(Log(records, e), false)
    decreases records
  {
    if records != [] {
      var fs := Fragments(records[0], true, e);
      FragmentsHold(records[0], true, e);
      LogClean(records[1..], LastEnd(fs, e));
      HoldClean(fs, records[0], true, Log(records[1..], LastEnd(fs, e)));
    }
  }
}

/** Reader: blocks of the file in, records out. */
module LogReader {
  import opened Coding
  import opened LogFormat
  import opened LogAssembly

  // ----------------------------------------------------------------- one fragment

  function LengthIn(b: Bytes): nat
    requires |b| >= HEADER
  {
    var low: int, high: int := b[4], b[5];
    low + 256 * high
  }

  /** What a header and payload read back as. */
  lemma HeaderReads(sum: Checksum, kind: Kind, payload: Bytes, b: Bytes)
    requires |payload| < 65536 && b == Stored(sum, kind, payload)
    ensures LengthIn(b) == |payload| && b[6] == Code(kind)
    ensures Unmask(FixedValue(b[..4])) == Crc(sum, b[6], b[HEADER..]) && b[HEADER..] == payload
  {
    var crc := Crc(sum, Code(kind), payload);
    var h := Header(sum, kind, payload);
    assert b[..4] == Fixed(Mask(crc), 4) && b[4] == h[4] && b[5] == h[5] && b[6] == h[6] && b[HEADER..] == payload;
    FixedWidths();
    FixedRoundTrip(Mask(crc), 4);
    UnmaskMask(crc);
  }

  /** What is left of the file from e on is what the fragments put there, up to the cut. */
  ghost predicate Agrees(st: Store, file: Bytes, todo: seq<Frag>, e: nat) {
    && Laid(todo, e)
    && (e <= |file| ==> |file| - e <= |Image(st, todo, e)| && file[e..] == Image(st, todo, e)[..|file| - e])
  }

  /** The next fragment, if it is all there. */
  lemma FragmentThere(st: Store, file: Bytes, todo: seq<Frag>, e: nat)
    requires Agrees(st, file, todo, e) && todo != [] && todo[0].End() <= |file|
    ensures e <= todo[0].at && file[todo[0].at..todo[0].End()] == st(todo[0].kind, todo[0].payload)
    ensures Agrees(st, file, todo[1..], todo[0].End())
  {
    var f := todo[0];
    var image, rest := Image(st, todo, e), Image(st, todo[1..], f.End());
    var z, s := ZeroBytes(f.at - e), st(f.kind, f.payload);
    assert image == z + s + rest;
    var k := |file| - e;
    assert file[e..][f.at - e..f.End() - e] == image[..k][f.at - e..f.End() - e] == s;
    assert file[e..][f.at - e..f.End() - e] == file[f.at..f.End()];
    assert file[f.End()..] == file[e..][f.End() - e..] == image[..k][f.End() - e..] == rest[..|file| - f.End()];
  }

  /** At least its header, if that much is there. */
  lemma HeaderThere(st: Store, file: Bytes, todo: seq<Frag>, e: nat)
    requires Agrees(st, file, todo, e) && e + HEADER <= |file| && Next(e) == e
    ensures todo != [] && todo[0].at == e && file[e..e + HEADER] == st(todo[0].kind, todo[0].payload)[..HEADER]
  {
    var image := Image(st, todo, e);
    var f := todo[0];
    assert image == ZeroBytes(0) + st(f.kind, f.payload) + Image(st, todo[1..], f.End());
    assert file[e..e + HEADER] == file[e..][..HEADER] == image[..HEADER];
  }

  // -------------------------------------------------------------------- the reader

  const EOF: nat := 5
  const BAD: nat := 6

  /** The buffer is a stretch of one block of the file; eof once the file has been read to its end. */
  ghost predicate Buffered(file: Bytes, buffer: Bytes, end: nat, eof: bool) {
    && |buffer| <= end && (eof ==> end >= |file|) && (!eof ==> end % BLOCK == 0)
    && (buffer != [] ==>
      end <= |file| && file[end - |buffer|..end] == buffer && (end - |buffer|) % BLOCK + |buffer| <= BLOCK)
  }

  /** A reader's view of the log: the fragments still to come after position e. */
  datatype Cursor = Cursor(st: (Kind, Bytes) -> Bytes, file: Bytes, todo: seq<Frag>, e: nat)

  ghost predicate CursorOk(c: Cursor) { Framed(c.st) && Agrees(c.st, c.file, c.todo, c.e) }

  type Position = c: Cursor | CursorOk(c) ghost witness Cursor(StoreOf(b => 0), [], [], 0)

  lemma MoveOn(c: Position) returns (c': Position)
    requires c.todo != [] && c.todo[0].End() <= |c.file|
    ensures c' == Cursor(c.st, c.file, c.todo[1..], c.todo[0].End())
  {
    FragmentThere(c.st, c.file, c.todo, c.e);
    c' := Cursor(c.st, c.file, c.todo[1..], c.todo[0].End());
  }

  /** Too few bytes are left for a header: in the middle of the file they are a trailer. */
  lemma AtTrailer(c: Position, buffer: Bytes, end: nat, eof: bool)
    requires Buffered(c.file, buffer, end, eof) && end - |buffer| == c.e && |buffer| < HEADER
    ensures eof ==> c.todo == [] || c.todo[0].End() > |c.file|
    ensures !eof ==> Next(c.e) == end
  {
  }

  /** A trailer can be stepped over. */
  lemma StepOver(c: Position, end: nat) returns (c': Position)
    requires Next(c.e) == end
    ensures c' == Cursor(c.st, c.file, c.todo, end)
  {
    var f, k := c.todo, end - c.e;
    assert Laid(c.todo, end);
    if c.todo != [] && end <= |c.file| {
      var h := c.todo[0];
      var body := c.st(h.kind, h.payload) + Image(c.st, c.todo[1..], h.End());
      assert Image(c.st, c.todo, c.e) == ZeroBytes(k) + body;
      assert Image(c.st, c.todo, end) == ZeroBytes(0) + body == body;
      assert c.file[end..] == c.file[c.e..][k..] == body[..|c.file| - end];
    }
    c' := Cursor(c.st, c.file, c.todo, end);
  }

  /** Moving past the next fragment; past the cut, nothing is left to agree with. */
  lemma MovePast(c: Position) returns (c': Position)
    requires c.todo != []
    ensures c' == Cursor(c.st, c.file, c.todo[1..], c.todo[0].End())
  {
    if c.todo[0].End() <= |c.file| {
      c' := MoveOn(c);
    } else {
      c' := Cursor(c.st, c.file, c.todo[1..], c.todo[0].End());
    }
  }

  lemma Boundary(e: nat, s: nat)
    requires e <= s && s % BLOCK == 0 && Next(e) >= s
    ensures Next(e) == s
  {
  }

  lemma BeforeBoundary(f: Frag, s: nat)
    requires Fits(f) && f.at < s && s % BLOCK == 0
    ensures f.End() <= s
  {
  }

  /** The cursor at the start of a block further on; what is skipped would not have counted. */
  lemma {:induction false} JumpTo(c: Position, s: nat, init: nat) returns (c': Position)
    requires c.e <= s && s % BLOCK == 0 && (forall at :: at % BLOCK <= BLOCK - HEADER && at < s ==> at < init)
    ensures c'.st == c.st && c'.file == c.file && c'.e == s
    ensures Assemble(c'.todo, |c.file|, init, Idle, false) == Assemble(c.todo, |c.file|, init, Idle, false)
    decreases c.todo
  {
    if c.todo == [] {
      c' := Cursor(c.st, c.file, [], s);
    } else if c.todo[0].at >= s {
      Boundary(c.e, s);
      c' := StepOver(c, s);
    } else {
      BeforeBoundary(c.todo[0], s);
      var next := MovePast(c);
      c' := JumpTo(next, s, init);
      if c.todo[0].End() > |c.file| { NothingAfter(next, init); }
    }
  }

  /** Past the cut nothing can be read. */
  lemma NothingAfter(c: Position, init: nat)
    requires c.e > |c.file|
    ensures Assemble(c.todo, |c.file|, init, Idle, false) == None
  {
  }

  /** The block SkipToInitialBlock starts from. */
  function InitialBlock(init: nat): nat {
    if init % BLOCK > BLOCK - 6 then init - init % BLOCK + BLOCK else init - init % BLOCK
  }

  lemma InitialBlockIs(init: nat)
    ensures InitialBlock(init) % BLOCK == 0
    ensures forall at :: at % BLOCK <= BLOCK - HEADER && at < InitialBlock(init) ==> at < init
  {
  }

  class Reader {
    const file: Bytes
    const sum: Checksum
    const initialOffset: nat
    /** The file is a log, cut somewhere; c says how far it has been read. */
    ghost const intact: bool
    ghost var c: Position
    var buffer: Bytes
    var eof: bool
    var filePosition: nat
    var endOfBuffer: nat
    var lastRecordOffset: nat
    var resyncing: bool
    var drops: nat

    ghost predicate Valid()
      reads this
    {
      && filePosition == endOfBuffer && Buffered(file, buffer, endOfBuffer, eof)
      && (intact ==> c.st == StoreOf(sum) && c.file == file && c.e == endOfBuffer - |buffer|)
    }

    /** A reader of a file that holds the records, or what a cut has left of them. */
    constructor (file: Bytes, sum: Checksum, initialOffset: nat, ghost intact: bool, ghost records: seq<Bytes>)
      requires intact ==> file <= Image(StoreOf(sum), Log(records, 0), 0)
      ensures Valid() && Fresh() && this.file == file && this.intact == intact && this.initialOffset == initialOffset
      ensures drops == 0 && resyncing == (initialOffset > 0) && lastRecordOffset == 0
      ensures intact ==> c.todo == Log(records, 0)
    {
      this.file, this.sum, this.initialOffset, this.intact := file, sum, initialOffset, intact;
      buffer, eof, filePosition, endOfBuffer, lastRecordOffset, drops := [], false, 0, 0, 0, 0;
      resyncing := initialOffset > 0;
      ghost var start := Cursor(StoreOf(b => 0), [], [], 0);
      if intact {
        LogLaid(records, 0);
        assert file[0..] == file == Image(StoreOf(sum), Log(records, 0), 0)[..|file|];
        start := Cursor(StoreOf(sum), file, Log(records, 0), 0);
      }
      c := start;
    }

    /** Nothing has been read yet. */
    ghost predicate Fresh()
      reads this
    {
      buffer == [] && !eof && filePosition == 0 && endOfBuffer == 0
    }

    method SkipToInitialBlock()
      requires Valid() && Fresh()
      modifies this`filePosition, this`endOfBuffer, this`c
      ensures Valid()
      ensures intact ==>
        Assemble(c.todo, |file|, initialOffset, Idle, resyncing)
          == old(Assemble(c.todo, |file|, initialOffset, Idle, resyncing))
    {
      var start := InitialBlock(initialOffset);
      InitialBlockIs(initialOffset);
      if intact {
        ResyncIrrelevant(c.todo, |file|, initialOffset);
        c := JumpTo(c, start, initialOffset);
        ResyncIrrelevant(c.todo, |file|, initialOffset);
      }
      endOfBuffer := start;
      filePosition := filePosition + start;
    }

    /** ReadRecord: the first record that starts at or after the initial offset, then the next, and so on. */
    method ReadRecord() returns (ok: bool, record: Bytes)
      requires Valid() && (lastRecordOffset < initialOffset ==> Fresh())
      modifies this
      ensures Valid()
      ensures intact ==>
        Returns(old(Assemble(c.todo, |file|, initialOffset, Idle, resyncing)), ok, record, lastRecordOffset, c.todo)
      ensures ok ==> !resyncing && lastRecordOffset >= initialOffset
      ensures intact && initialOffset == 0 && !old(resyncing) && Clean(old(c.todo), false) ==>
        drops == old(drops) && (ok ==> Clean(c.todo, false))
    {
      if lastRecordOffset < initialOffset {
        SkipToInitialBlock();
      }
      ok, record := ReadOn();
    }

    /** Refill: the next block of the file, or what there is of it. */
    method ReadBlock()
      requires Valid() && |buffer| < HEADER && !eof
      modifies this`buffer, this`eof, this`filePosition, this`endOfBuffer, this`c
      ensures Valid() && c.todo == old(c.todo) && (eof || |buffer| == BLOCK)
      ensures old(endOfBuffer - |buffer|) <= endOfBuffer - |buffer|
    {
      if intact {
        AtTrailer(c, buffer, endOfBuffer, eof);
        c := StepOver(c, endOfBuffer);
      }
      var n := BlockSize(file, filePosition);
      BlockRead(file, filePosition);
      buffer := if n == 0 then [] else file[filePosition..filePosition + n];
      filePosition := filePosition + n;
      endOfBuffer := endOfBuffer + n;
      eof := n < BLOCK;
    }

    /** Read on until there is a header in the buffer; false at the end of the file. */
    method FillBuffer() returns (ok: bool)
      requires Valid()
      modifies this`buffer, this`eof, this`filePosition, this`endOfBuffer, this`c
      ensures Valid()
      ensures ok ==>
        |buffer| >= HEADER && c.todo == old(c.todo) && old(endOfBuffer - |buffer|) <= endOfBuffer - |buffer|
      ensures !ok && intact ==> c.todo == [] && NoneLeft(old(c.todo), file)
    {
      while |buffer| < HEADER
        invariant Valid() && c.todo == old(c.todo) && old(endOfBuffer - |buffer|) <= endOfBuffer - |buffer|
        decreases !eof, if |buffer| < HEADER then 1 else 0
      {
        if eof {
          if intact {
            AtTrailer(c, buffer, endOfBuffer, eof);
            c := Cursor(c.st, c.file, [], endOfBuffer);
          }
          buffer := [];
          return false;
        }
        ReadBlock();
      }
      return true;
    }

    /** ReadPhysicalRecord: the next fragment, or the end of the file. */
    method ReadPhysicalRecord() returns (kind: nat, result: Bytes)
      requires Valid()
      modifies this`buffer, this`eof, this`filePosition, this`endOfBuffer, this`c, this`drops
      ensures Valid() && (kind == EOF || Advanced(old(endOfBuffer - |buffer|), endOfBuffer - |buffer|, |file|))
      ensures kind != EOF && kind != BAD ==> endOfBuffer - |buffer| - HEADER - |result| >= initialOffset
      ensures intact ==>
        drops == old(drops) && Delivers(old(c), c, file, initialOffset, kind, result, endOfBuffer - |buffer|)
    {
      var ok := FillBuffer();
      if !ok {
        return EOF, [];
      }
      kind, result := ParseFragment();
    }

    /** The rest of ReadPhysicalRecord: a header is in the buffer. */
    method ParseFragment() returns (kind: nat, result: Bytes)
      requires Valid() && |buffer| >= HEADER
      modifies this`buffer, this`c, this`drops
      ensures Valid() && Advanced(old(endOfBuffer - |buffer|), endOfBuffer - |buffer|, |file|)
      ensures kind != EOF && kind != BAD ==> endOfBuffer - |buffer| - HEADER - |result| >= initialOffset
      ensures intact ==>
        drops == old(drops) && Delivers(old(c), c, file, initialOffset, kind, result, endOfBuffer - |buffer|)
    {
      if intact { HeaderSays(c, sum, buffer, endOfBuffer, eof); }
      var length, code := LengthIn(buffer), buffer[6];
      if HEADER + length > |buffer| {
        if !eof {
          drops := drops + 1;
        }
        Abandon();
        return if eof then EOF else BAD, [];
      }
      if code == 0 && length == 0 {
        Abandon();
        return BAD, [];
      }
      result := buffer[HEADER..HEADER + length];
      if Unmask(FixedValue(buffer[..4])) != Crc(sum, code, result) {
        drops := drops + 1;
        Abandon();
        return BAD, [];
      }
      Consume(length);
      kind := code;
      if endOfBuffer - |buffer| - HEADER - length < initialOffset {
        kind, result := BAD, [];
      }
    }

    /** The switch of ReadRecord, for all that is not the end of the file. */
    method Dispatch(kind: nat, fragment: Bytes, physical: int, p: Partial, ghost f: Frag)
      returns (done: bool, record: Bytes, at: nat, p': Partial)
      requires 1 <= kind <= 4 ==> physical >= 0
      modifies this`drops
      ensures kind == Code(f.kind) && fragment == f.payload && physical == f.at ==>
        && Take(p, f) == (if done then Turn.Done(record, at) else Go(p'))
        && (Fitting(f.kind, p.Within?) ==> drops == old(drops))
      ensures kind == BAD ==> !done && p' == Idle && (p.Idle? ==> drops == old(drops))
      ensures done ==> at == physical || (p.Within? && at == p.first)
      ensures p'.Within? ==> p'.first == physical || (p.Within? && p'.first == p.first)
    {
      done, record, at, p' := false, [], 0, p;
      if kind == 1 {
        if p.Within? && p.scratch != [] { drops := drops + 1; }
        done, record, at := true, fragment, physical;
      } else if kind == 2 {
        if p.Within? && p.scratch != [] { drops := drops + 1; }
        p' := Within(fragment, physical);
      } else if kind == 3 {
        if p.Idle? { drops := drops + 1; } else { p' := Within(p.scratch + fragment, p.first); }
      } else if kind == 4 {
        if p.Idle? {
          drops := drops + 1;
        } else {
          done, record, at := true, p.scratch + fragment, p.first;
        }
      } else {
        if p.Within? || kind != BAD { drops := drops + 1; }
        p' := Idle;
      }
    }

    /** One round of ReadRecord's loop. */
    method Round(p: Partial) returns (kind: nat, done: bool, record: Bytes, at: nat, p': Partial)
      requires Valid() && (p.Within? ==> p.first >= initialOffset)
      modifies this
      ensures Valid() && lastRecordOffset == old(lastRecordOffset)
      ensures kind == EOF || Advanced(old(endOfBuffer - |buffer|), endOfBuffer - |buffer|, |file|)
      ensures intact ==>
        Goes(old(c.todo), c.todo, file, initialOffset, p, old(resyncing), kind, done, record, at, p', resyncing)
      ensures (done ==> kind != EOF && !resyncing && at >= initialOffset) && (p'.Within? ==> p'.first >= initialOffset)
      ensures intact && initialOffset == 0 && !old(resyncing) ==>
        StaysClean(old(c.todo), c.todo, p, kind, done, p', resyncing, old(drops), drops)
    {
      var fragment: Bytes;
      done, record, at, p' := false, [], 0, p;
      kind, fragment := ReadPhysicalRecord();
      if kind != EOF {
        done, record, at, p' := Handle(kind, fragment, endOfBuffer - |buffer| - HEADER - |fragment|, p, old(c.todo),
          intact);
      }
    }

    /** Resynchronise, or dispatch on the kind of the fragment. */
    method Handle(kind: nat, fragment: Bytes, physical: int, p: Partial, ghost todo: seq<Frag>, ghost known: bool)
      returns (done: bool, record: Bytes, at: nat, p': Partial)
      requires kind != EOF && (kind != BAD ==> physical >= initialOffset) && (p.Within? ==> p.first >= initialOffset)
      requires known ==> !NoneLeft(todo, file) && Is(todo[0], initialOffset, kind, fragment, physical)
      modifies this`drops, this`resyncing
      ensures known ==>
        Goes(todo, todo[1..], file, initialOffset, p, old(resyncing), kind, done, record, at, p', resyncing)
      ensures (done ==> !resyncing && at >= initialOffset) && (p'.Within? ==> p'.first >= initialOffset)
      ensures known && initialOffset == 0 && !old(resyncing) ==>
        StaysClean(todo, todo[1..], p, kind, done, p', resyncing, old(drops), drops)
    {
      done, record, at, p' := false, [], 0, p;
      if resyncing {
        if kind == 3 {
          return;
        } else if kind == 4 {
          resyncing := false;
          return;
        }
        resyncing := false;
      }
      ghost var f := if known then todo[0] else Frag(Full, [], 0);
      done, record, at, p' := Dispatch(kind, fragment, physical, p, f);
    }

    /** ReadRecord, once the reader stands where it should. */
    method ReadOn() returns (ok: bool, record: Bytes)
      requires Valid()
      modifies this
      ensures Valid()
      ensures intact ==>
        Returns(old(Assemble(c.todo, |file|, initialOffset, Idle, resyncing)), ok, record, lastRecordOffset, c.todo)
      ensures ok ==> !resyncing && lastRecordOffset >= initialOffset
      ensures !ok ==> lastRecordOffset == old(lastRecordOffset)
      ensures intact && initialOffset == 0 && !old(resyncing) && Clean(old(c.todo), false) ==>
        drops == old(drops) && (ok ==> Clean(c.todo, false))
    {
      var p := Idle;
      ghost var goal := Assemble(c.todo, |file|, initialOffset, Idle, resyncing);
      ghost var clean := intact && initialOffset == 0 && !resyncing && Clean(c.todo, false);
      while true
        invariant Valid() && lastRecordOffset == old(lastRecordOffset) && (p.Within? ==> p.first >= initialOffset)
        invariant intact ==> Assemble(c.todo, |file|, initialOffset, p, resyncing) == goal
        invariant clean ==> drops == old(drops) && !resyncing && Clean(c.todo, p.Within?)
        decreases |file| - (endOfBuffer - |buffer|)
      {
        var kind, done, at;
        kind, done, record, at, p := Round(p);
        if kind == EOF {
          return false, [];
        }
        if done {
          lastRecordOffset := at;
          return true, record;
        }
      }
    }

    /** Step over a fragment. */
    method Consume(length: nat)
      requires Valid() && HEADER + length <= |buffer|
      requires intact ==>
        c.todo != [] && c.todo[0].at == c.e && |c.todo[0].payload| == length && c.todo[0].End() <= |file|
      modifies this`buffer, this`c
      ensures Valid() && |buffer| == |old(buffer)| - HEADER - length && (intact ==> c.todo == old(c.todo)[1..])
    {
      if intact { c := MoveOn(c); }
      BufferShrinks(file, buffer, endOfBuffer, eof, HEADER + length);
      buffer := buffer[HEADER + length..];
    }

    /** Drop the rest of the buffer; on an intact log this happens only at its end. */
    method Abandon()
      requires Valid() && (intact ==> endOfBuffer >= |file|)
      modifies this`buffer, this`c
      ensures Valid() && buffer == [] && (intact ==> c.todo == [])
    {
      if intact { c := Cursor(c.st, c.file, [], endOfBuffer); }
      buffer := [];
    }
  }

  function BlockSize(file: Bytes, position: nat): (n: nat)
    ensures n <= BLOCK && (position <= |file| ==> position + n <= |file|)
    ensures position >= |file| ==> n == 0
    ensures n < BLOCK ==> position + n >= |file|
  {
    if position >= |file| then 0 else if |file| - position < BLOCK then |file| - position else BLOCK
  }

  lemma BlockRead(file: Bytes, position: nat)
    requires position % BLOCK == 0
    ensures var n := BlockSize(file, position);
      Buffered(file, if n == 0 then [] else file[position..position + n], position + n, n < BLOCK)
  {
  }

  ghost predicate NoneLeft(todo: seq<Frag>, file: Bytes) { todo == [] || todo[0].End() > |file| }

  /** A fragment of this kind is in place here. */
  ghost predicate Fitting(kind: Kind, within: bool) {
    if kind == Full || kind == First then !within else within
  }

  ghost predicate Advanced(e: int, e': int, size: nat) { e < e' <= size }

  /** What has been read is this fragment, or says that it stands before init. */
  ghost predicate Is(f: Frag, init: nat, kind: nat, fragment: Bytes, physical: int) {
    if f.at < init then kind == BAD else kind == Code(f.kind) && fragment == f.payload && physical == f.at
  }

  /** Where fragments are in place, nothing is reported. */
  ghost predicate StaysClean(todo: seq<Frag>, todo': seq<Frag>, p: Partial, kind: nat, done: bool, p': Partial,
      resync: bool, drops: nat, drops': nat) {
    Clean(todo, p.Within?) ==> drops' == drops && !resync && (kind != EOF ==> Clean(todo', !done && p'.Within?))
  }

  /** One round moves on by one fragment, as Assemble does. */
  ghost predicate Goes(todo: seq<Frag>, todo': seq<Frag>, file: Bytes, init: nat, p: Partial, resync: bool,
                       kind: nat, done: bool, record: Bytes, at: nat, p': Partial, resync': bool) {
    var n := |file|;
    if kind == EOF then Assemble(todo, n, init, p, resync) == None
    else if done then Assemble(todo, n, init, p, resync) == Got(record, at, todo')
    else Assemble(todo, n, init, p, resync) == Assemble(todo', n, init, p', resync')
  }

  /** What ReadRecord gives back is what the fragments make. */
  ghost predicate Returns(r: Result, ok: bool, record: Bytes, at: nat, todo: seq<Frag>) {
    && ok == r.Got?
    && (ok ==> record == r.record && at == r.at && todo == r.rest)
  }

  /** The next fragment has been delivered, or passed over as too early; or there is none. */
  ghost predicate Delivers(c: Cursor, c': Cursor, file: Bytes, init: nat, kind: nat, result: Bytes, e: int) {
    if !NoneLeft(c.todo, file) then
      var f := c.todo[0];
      && c'.todo == c.todo[1..]
      && (if f.at < init then kind == BAD && result == []
          else kind == Code(f.kind) && result == f.payload && e - HEADER - |result| == f.at)
    else kind == EOF && c'.todo == []
  }

  /** What the header at the front of the buffer says of the next fragment. */
  lemma HeaderSays(c: Position, sum: Checksum, buffer: Bytes, end: nat, eof: bool)
    requires c.st == StoreOf(sum) && Buffered(c.file, buffer, end, eof) && end - |buffer| == c.e && |buffer| >= HEADER
    ensures c.todo != [] && c.todo[0].at == c.e && LengthIn(buffer) == |c.todo[0].payload|
    ensures buffer[6] == Code(c.todo[0].kind)
    ensures HEADER + |c.todo[0].payload| > |buffer| ==> eof && c.todo[0].End() > |c.file|
    ensures HEADER + |c.todo[0].payload| <= |buffer| ==>
      && c.todo[0].End() <= |c.file| && buffer[HEADER..HEADER + |c.todo[0].payload|] == c.todo[0].payload
      && Unmask(FixedValue(buffer[..4])) == Crc(sum, buffer[6], c.todo[0].payload)
  {
    HeaderThere(c.st, c.file, c.todo, c.e);
    var f := c.todo[0];
    var b := Stored(sum, f.kind, f.payload);
    HeaderReads(sum, f.kind, f.payload, b);
    assert buffer[..HEADER] == c.file[c.e..c.e + HEADER];
    SameHeader(buffer, b);
    if HEADER + |f.payload| <= |buffer| {
      FragmentThere(c.st, c.file, c.todo, c.e);
      assert buffer[..HEADER + |f.payload|] == c.file[c.e..f.End()];
      assert buffer[HEADER..HEADER + |f.payload|] == buffer[..HEADER + |f.payload|][HEADER..];
    } else {
      BlockEnds(c.e, |buffer|, end);
    }
  }

  lemma SameHeader(a: Bytes, b: Bytes)
    requires |a| >= HEADER && |b| >= HEADER && a[..HEADER] == b[..HEADER]
    ensures LengthIn(a) == LengthIn(b) && a[6] == b[6] && a[..4] == b[..4]
  {
    assert a[4] == a[..HEADER][4] && a[5] == a[..HEADER][5] && a[6] == a[..HEADER][6];
    assert b[4] == b[..HEADER][4] && b[5] == b[..HEADER][5] && b[6] == b[..HEADER][6];
    assert a[..4] == a[..HEADER][..4] && b[..4] == b[..HEADER][..4];
  }

  /** A buffer that was read in full reaches to the end of its block. */
  lemma BlockEnds(e: nat, n: nat, end: nat)
    requires e + n == end && n > 0 && e % BLOCK + n <= BLOCK
    ensures end % BLOCK == 0 ==> e % BLOCK + n == BLOCK
  {
  }

  lemma BufferShrinks(file: Bytes, buffer: Bytes, end: nat, eof: bool, n: nat)
    requires Buffered(file, buffer, end, eof) && n <= |buffer|
    ensures Buffered(file, buffer[n..], end, eof)
  {
    var b := buffer[n..];
    if b != [] { assert file[end - |b|..end] == file[end - |buffer|..end][n..]; }
  }

  /** One call of ReadRecord at the start of a record. */
  method ReadNext(r: Reader, ghost rs: seq<Bytes>, ghost e: nat, ghost kept: seq<Bytes>)
    returns (ok: bool, record: Bytes, ghost rest: seq<Bytes>, ghost e': nat, ghost kept': seq<Bytes>)
    requires r.Valid() && r.intact && r.c.todo == Log(rs, e) && (r.lastRecordOffset < r.initialOffset ==> r.Fresh())
    requires kept == Kept(rs, e, |r.file|, r.initialOffset)
    modifies r
    ensures r.Valid() && (ok ==> r.c.todo == Log(rest, e') && |rest| < |rs| && r.lastRecordOffset >= r.initialOffset)
    ensures ok ==> kept == [record] + kept' && kept' == Kept(rest, e', |r.file|, r.initialOffset)
    ensures !ok ==> kept == kept' == []
    ensures r.initialOffset == 0 && !old(r.resyncing) ==> r.drops == old(r.drops) && (ok ==> !r.resyncing)
  {
    AssembleLog(rs, e, |r.file|, r.initialOffset, r.resyncing);
    LogClean(rs, e);
    rest, e' := FirstIsKept(rs, e, |r.file|, r.initialOffset);
    ok, record := r.ReadRecord();
    kept' := if ok then Kept(rest, e', |r.file|, r.initialOffset) else [];
  }

  /**
    Reading a log to its end gives exactly the records that start at or after the initial
    offset and lie wholly within the file, in order; from offset 0 nothing is reported.
   */
  method ReadAll(file: Bytes, sum: Checksum, initialOffset: nat, ghost records: seq<Bytes>)
    returns (out: seq<Bytes>, drops: nat)
    requires file <= Image(StoreOf(sum), Log(records, 0), 0)
    ensures out == Kept(records, 0, |file|, initialOffset)
    ensures initialOffset == 0 ==> drops == 0
  {
    var r := new Reader(file, sum, initialOffset, true, records);
    out, drops := ReadRest(r, records, 0, Kept(records, 0, |file|, initialOffset));
  }

  /** The loop over ReadRecord. */
  method ReadRest(r: Reader, ghost records: seq<Bytes>, ghost start: nat, ghost goal: seq<Bytes>)
    returns (out: seq<Bytes>, drops: nat)
    requires r.Valid() && r.intact && r.c.todo == Log(records, start) && r.Fresh()
    requires goal == Kept(records, start, |r.file|, r.initialOffset)
    modifies r
    ensures out == goal
    ensures r.initialOffset == 0 && !old(r.resyncing) ==> drops == old(r.drops)
  {
    ghost var rs, e, kept := records, start, goal;
    out := [];
    var ok := true;
    while ok
      invariant r.Valid() && (ok ==> r.c.todo == Log(rs, e) && (r.lastRecordOffset < r.initialOffset ==> r.Fresh()))
      invariant (ok ==> kept == Kept(rs, e, |r.file|, r.initialOffset)) && (!ok ==> kept == []) && out + kept == goal
      invariant r.initialOffset == 0 && !old(r.resyncing) ==> r.drops == old(r.drops) && (ok ==> !r.resyncing)
      decreases ok, |rs|
    {
      var record;
      ghost var kept';
      ok, record, rs, e, kept' := ReadNext(r, rs, e, kept);
      if ok {
        Shift(out, record, kept');
        out := out + [record];
      }
      kept := kept';
    }
    assert out + [] == out;
    drops := r.drops;
  }

  lemma Shift(out: seq<Bytes>, record: Bytes, kept: seq<Bytes>)
    ensures out + ([record] + kept) == out + [record] + kept
  {
  }
}
