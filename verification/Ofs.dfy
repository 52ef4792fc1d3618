/**
  The write-ahead log of an object file set: src/ofs_impl.h and src/ofs_impl.cc.

  A file set maps file names to object names.  Every change is logged before it is
  made; a mount replays the newer of two logs, writes a snapshot to the other and
  collects garbage.  This module is the meaning of log records.
 */
module OfsRecords {
  import opened Coding

  type Name = Bytes

  /** FileSet::RecordType with its operands. */
  datatype Op =
    | NoOp
    | TryCreateObj(obj: Name)
    | UnlinkAndDel(name: Name, obj: Name)
    | DelObj(obj: Name)
    | Unlink(name: Name)
    | Link(name: Name, obj: Name)
    | ObjDeleted(obj: Name)

  datatype Record = Record(time: nat, ops: seq<Op>)

  /** What replay computes: the files of the set, and the objects to collect. */
  datatype Image = Image(files: map<Name, Name>, garbage: set<Name>) {

    /** The objects the image accounts for. */
    ghost function Known(): set<Name> {
      files.Values + garbage
    }
  }

  const EMPTY := Image(map[], {})

  /** Execute, after parsing. */
  function Execute(op: Op, im: Image): Image {
    match op
    case NoOp => im
    case TryCreateObj(obj) => im.(garbage := im.garbage + {obj})
    case DelObj(obj) => im.(garbage := im.garbage + {obj})
    case Link(name, obj) => Image(im.files[name := obj], im.garbage - {obj})
    case UnlinkAndDel(name, obj) => Image(im.files - {name}, im.garbage + {obj})
    case Unlink(name) => im.(files := im.files - {name})
    case ObjDeleted(obj) => im.(garbage := im.garbage - {obj})
  }

  function ExecuteAll(ops: seq<Op>, im: Image): Image {
    if ops == [] then im else ExecuteAll(ops[1..], Execute(ops[0], im))
  }

  /** The image a log stands for: its records redone in order. */
  function Replay(log: seq<Record>): Image {
    if log == [] then EMPTY else ExecuteAll(log[|log| - 1].ops, Replay(log[..|log| - 1]))
  }

  lemma ReplayOne(log: seq<Record>, r: Record)
    requires |r.ops| == 1
    ensures Replay(log + [r]) == Execute(r.ops[0], Replay(log))
  {
    assert (log + [r])[..|log|] == log;
    assert ExecuteAll(r.ops, Replay(log)) == ExecuteAll(r.ops[1..], Execute(r.ops[0], Replay(log)));
  }

  // ----------------------------------------------------------------- snapshots

  /** An order in which VisitAll may meet the elements of s. */
  ghost predicate Enumerates(order: seq<Name>, s: set<Name>) {
    && (forall x :: x in order <==> x in s)
    && (forall i, j :: 0 <= i < j < |order| ==> order[i] != order[j])
  }

  function Links(order: seq<Name>, files: map<Name, Name>): seq<Op>
    requires forall x :: x in order ==> x in files
  {
    seq(|order|, i requires 0 <= i < |order| => assert order[i] in order; Link(order[i], files[order[i]]))
  }

  function Deletions(order: seq<Name>): seq<Op> {
    seq(|order|, i requires 0 <= i < |order| => DelObj(order[i]))
  }

  /** MakeSnapshot: a Link for every file, then a DelObj for every piece of garbage. */
  function Snapshot(im: Image, fileOrder: seq<Name>, garbageOrder: seq<Name>): seq<Op>
    requires forall x :: x in fileOrder ==> x in im.files
  {
    Links(fileOrder, im.files) + Deletions(garbageOrder)
  }

  lemma {:induction false} ExecuteAllConcat(a: seq<Op>, b: seq<Op>, im: Image)
    ensures ExecuteAll(a + b, im) == ExecuteAll(b, ExecuteAll(a, im))
  {
    if a == [] {
      assert a + b == b;
    } else {
      assert (a + b)[1..] == a[1..] + b;
      ExecuteAllConcat(a[1..], b, Execute(a[0], im));
    }
  }

  lemma {:induction false} LinksReplay(order: seq<Name>, files: map<Name, Name>)
    requires forall x :: x in order ==> x in files
    ensures ExecuteAll(Links(order, files), EMPTY) == Image(map x | x in order :: files[x], {})
  {
    if order != [] {
      var n := |order| - 1;
      var front := order[..n];
      LinksReplay(front, files);
      assert Links(order, files) == Links(front, files) + [Link(order[n], files[order[n]])];
      ExecuteAllConcat(Links(front, files), [Link(order[n], files[order[n]])], EMPTY);
      assert forall x :: x in order <==> x in front || x == order[n];
    }
  }

  lemma {:induction false} DeletionsReplay(order: seq<Name>, im: Image)
    ensures ExecuteAll(Deletions(order), im) == im.(garbage := im.garbage + set x | x in order)
  {
    if order != [] {
      var n := |order| - 1;
      var front := order[..n];
      DeletionsReplay(front, im);
      assert Deletions(order) == Deletions(front) + [DelObj(order[n])];
      ExecuteAllConcat(Deletions(front), [DelObj(order[n])], im);
      assert forall x :: x in order <==> x in front || x == order[n];
    }
  }

  /** Replaying a snapshot gives back exactly the image it was made from, in whatever
      order the hash tables were visited, even when an object is both linked and garbage. */
  lemma SnapshotIdentity(im: Image, fileOrder: seq<Name>, garbageOrder: seq<Name>, time: nat)
    requires Enumerates(fileOrder, im.files.Keys) && Enumerates(garbageOrder, im.garbage)
    ensures Replay([Record(time, Snapshot(im, fileOrder, garbageOrder))]) == im
  {
    var ops := Snapshot(im, fileOrder, garbageOrder);
    assert [Record(time, ops)][..0] == [];
    ExecuteAllConcat(Links(fileOrder, im.files), Deletions(garbageOrder), EMPTY);
    LinksReplay(fileOrder, im.files);
    assert (map x | x in fileOrder :: im.files[x]) == im.files;
    DeletionsReplay(garbageOrder, Image(im.files, {}));
  }

  // ------------------------------------------------------------------ recovery

  /** Access: the time of a log's first record, 0 when the log is missing or has none. */
  function FirstTime(log: seq<Record>): nat {
    if log == [] then 0 else log[0].time
  }

  datatype Recovery = NotFound | Corruption | Recovered(image: Image, fromFirst: bool)

  /** RecoverFileSet: replay the log whose first record is newer. */
  function Recover(log1: seq<Record>, log2: seq<Record>): Recovery {
    var t1, t2 := FirstTime(log1), FirstTime(log2);
    if t1 == 0 && t2 == 0 then NotFound
    else if t1 == t2 then Corruption
    else Recovered(Replay(if t1 > t2 then log1 else log2), t1 > t2)
  }
}

/** Log records as bytes: PutOp, LogRecord and MakeSnapshot write them, RedoUndo reads them. */
module OfsBytes {
  import opened Coding
  import opened OfsRecords

  /** An op's type byte and its two names. */
  function Parts(op: Op): (byte, Name, Name) {
    match op
    case NoOp => (0x00, [], [])
    case TryCreateObj(obj) => (0x01, obj, [])
    case UnlinkAndDel(name, obj) => (0x02, name, obj)
    case DelObj(obj) => (0x03, obj, [])
    case Unlink(name) => (0xf0, name, [])
    case Link(name, obj) => (0xf1, name, obj)
    case ObjDeleted(obj) => (0xf2, obj, [])
  }

  /** Replay refuses an op whose names are missing. */
  predicate Named(op: Op) {
    match op
    case NoOp => true
    case UnlinkAndDel(name, obj) => name != [] && obj != []
    case Link(name, obj) => name != [] && obj != []
    case Unlink(name) => name != []
    case TryCreateObj(obj) => obj != []
    case DelObj(obj) => obj != []
    case ObjDeleted(obj) => obj != []
  }

  /** Lengths fit the 32-bit fields of the format. */
  predicate Fits(op: Op) {
    |Parts(op).1| < TWO32 && |Parts(op).2| < TWO32
  }

  function PutOp(op: Op): Bytes
    requires Fits(op)
  {
    var (kind, name1, name2) := Parts(op);
    [kind] + LengthPrefixed(name1) + LengthPrefixed(name2)
  }

  function PutOps(ops: seq<Op>): Bytes
    requires forall op :: op in ops ==> Fits(op)
  {
    if ops == [] then [] else PutOp(ops[0]) + PutOps(ops[1..])
  }

  predicate Encodable(r: Record) {
    r.time < TWO64 && |r.ops| < TWO32 && forall op :: op in r.ops ==> Fits(op)
  }

  function Encode(r: Record): Bytes
    requires Encodable(r)
  {
    Fixed(r.time, 8) + Fixed(|r.ops|, 4) + PutOps(r.ops)
  }

  /** The parsing half of Execute: type, two names, then the checks of each case. */
  function ParseOp(input: Bytes): Parsed<Op> {
    if input == [] then Fail
    else
      match ParseLengthPrefixed(input[1..])
      case Fail => Fail
      case Ok(name1, rest1) =>
        match ParseLengthPrefixed(rest1)
        case Fail => Fail
        case Ok(name2, rest) => Checked(input[0], name1, name2, rest)
  }

  function Checked(kind: byte, name1: Name, name2: Name, rest: Bytes): Parsed<Op> {
    var op := match kind
              case 0x01 => TryCreateObj(name1)
              case 0x02 => UnlinkAndDel(name1, name2)
              case 0x03 => DelObj(name1)
              case 0xf0 => Unlink(name1)
              case 0xf1 => Link(name1, name2)
              case 0xf2 => ObjDeleted(name1)
              case _ => NoOp;
    if (op == NoOp && kind != 0x00) || !Named(op) then Fail else Ok(op, rest)
  }

  /** Execute: one op taken from the front of input and carried out. */
  function ExecuteFront(input: Bytes, im: Image): Parsed<Image> {
    match ParseOp(input)
    case Fail => Fail
    case Ok(op, rest) => Ok(Execute(op, im), rest)
  }

  type Executor = (Bytes, Image) -> Parsed<Image>

  /** num ops executed from the front of input; what follows them is left over. */
  function RunOps(step: Executor, input: Bytes, num: nat, im: Image): Parsed<Image>
    decreases num
  {
    if num == 0 then Ok(im, input)
    else
      match RunOps(step, input, num - 1, im)
      case Fail => Fail
      case Ok(im', rest) => step(rest, im')
  }

  datatype Redone = Corrupt | Done(image: Image)

  function RedoSpec(record: Bytes, im: Image): Redone {
    if |record| < 12 then Corrupt
    else
      match RunOps(ExecuteFront, record[12..], FixedValue(record[8..12]), im)
      case Fail => Corrupt
      case Ok(im', _) => Done(im')
  }

  /** RedoUndo: skip the time, read the count, execute that many ops. */
  method RedoUndo(record: Bytes, im: Image) returns (r: Redone)
    ensures r == RedoSpec(record, im)
  {
    if |record| < 8 {
      return Corrupt;
    }
    var input := record[8..];
    if |input| < 4 {
      return Corrupt;
    }
    assert input[..4] == record[8..12] && input[4..] == record[12..];
    r := ExecuteOps(ExecuteFront, input[4..], FixedValue(input[..4]), im);
  }

  method ExecuteOps(step: Executor, ops: Bytes, count: nat, im: Image) returns (r: Redone)
    ensures r == match RunOps(step, ops, count, im) case Fail => Corrupt case Ok(im', _) => Done(im')
  {
    var input, num, image := ops, count, im;
    while num > 0
      invariant 0 <= num <= count && RunOps(step, ops, count - num, im) == Ok(image, input)
    {
      match step(input, image) {
        case Fail =>
          FailureStays(step, ops, count - num + 1, count, im);
          return Corrupt;
        case Ok(image', rest) =>
          input, num, image := rest, num - 1, image';
      }
    }
    return Done(image);
  }

  lemma {:induction false} FailureStays(step: Executor, ops: Bytes, m: nat, n: nat, im: Image)
    requires m <= n && RunOps(step, ops, m, im).Fail?
    ensures RunOps(step, ops, n, im).Fail?
    decreases n
  {
    if m < n { FailureStays(step, ops, m, n - 1, im); }
  }

  lemma {:induction false} RunOpsChain(step: Executor, inputs: seq<Bytes>, images: seq<Image>, k: nat)
    requires k < |inputs| == |images|
    requires forall i :: 0 <= i < k ==> step(inputs[i], images[i]) == Ok(images[i + 1], inputs[i + 1])
    ensures RunOps(step, inputs[0], k, images[0]) == Ok(images[k], inputs[k])
  {
    if k > 0 { RunOpsChain(step, inputs, images, k - 1); }
  }

  lemma PartsRoundTrip(kind: byte, name1: Name, name2: Name, rest: Bytes)
    requires |name1| < TWO32 && |name2| < TWO32
    ensures ParseOp([kind] + LengthPrefixed(name1) + LengthPrefixed(name2) + rest) == Checked(kind, name1, name2, rest)
  {
    var input := [kind] + LengthPrefixed(name1) + LengthPrefixed(name2) + rest;
    assert input[1..] == LengthPrefixed(name1) + (LengthPrefixed(name2) + rest);
    LengthPrefixedRoundTrip(name1, LengthPrefixed(name2) + rest);
    LengthPrefixedRoundTrip(name2, rest);
  }

  lemma CheckedParts(op: Op, rest: Bytes)
    ensures Checked(Parts(op).0, Parts(op).1, Parts(op).2, rest) == if Named(op) then Ok(op, rest) else Fail
  {
  }

  /** An op is read back from its bytes exactly when its names are not missing. */
  lemma PutOpRoundTrip(op: Op, rest: Bytes)
    requires Fits(op)
    ensures ParseOp(PutOp(op) + rest) == if Named(op) then Ok(op, rest) else Fail
  {
    PartsRoundTrip(Parts(op).0, Parts(op).1, Parts(op).2, rest);
    CheckedParts(op, rest);
  }

  lemma ExecuteOneMore(ops: seq<Op>, k: nat, im: Image)
    requires k < |ops|
    ensures ExecuteAll(ops[..k + 1], im) == Execute(ops[k], ExecuteAll(ops[..k], im))
  {
    var op, done := ops[k], ExecuteAll(ops[..k], im);
    assert ops[..k + 1] == ops[..k] + [op];
    ExecuteAllConcat(ops[..k], [op], im);
    assert ExecuteAll([op], done) == Execute(op, done);
  }

  lemma FrontRoundTrip(ops: seq<Op>, k: nat, im: Image)
    requires k < |ops| && forall op :: op in ops ==> Fits(op) && Named(op)
    ensures ExecuteFront(PutOps(ops[k..]), im) == Ok(Execute(ops[k], im), PutOps(ops[k + 1..]))
  {
    assert ops[k..][1..] == ops[k + 1..];
    PutOpRoundTrip(ops[k], PutOps(ops[k + 1..]));
  }

  lemma RunOpsRoundTrip(ops: seq<Op>, im: Image)
    requires forall op :: op in ops ==> Fits(op) && Named(op)
    ensures RunOps(ExecuteFront, PutOps(ops), |ops|, im) == Ok(ExecuteAll(ops, im), [])
  {
    var n := |ops|;
    var inputs := seq(n + 1, k requires 0 <= k <= n => PutOps(ops[k..]));
    var images := seq(n + 1, k requires 0 <= k <= n => ExecuteAll(ops[..k], im));
    forall k | 0 <= k < n ensures ExecuteFront(inputs[k], images[k]) == Ok(images[k + 1], inputs[k + 1]) {
      FrontRoundTrip(ops, k, images[k]);
      ExecuteOneMore(ops, k, im);
    }
    RunOpsChain(ExecuteFront, inputs, images, n);
    assert ops[0..] == ops && ops[..n] == ops && ops[..0] == [] && ops[n..] == [];
  }

  /** Redoing an encoded record executes its ops; Access reads back its time. */
  lemma RecordRoundTrip(r: Record, im: Image)
    requires Encodable(r) && forall op :: op in r.ops ==> Named(op)
    ensures RedoSpec(Encode(r), im) == Done(ExecuteAll(r.ops, im))
    ensures FixedValue(Encode(r)[..8]) == r.time
  {
    var bytes := Encode(r);
    assert bytes[..8] == Fixed(r.time, 8) && bytes[8..12] == Fixed(|r.ops|, 4) && bytes[12..] == PutOps(r.ops);
    FixedWidths();
    FixedRoundTrip(r.time, 8);
    FixedRoundTrip(|r.ops|, 4);
    RunOpsRoundTrip(r.ops, im);
  }

  /** Replay of a log file's records, as bytes. */
  function ReplayBytes(log: seq<Bytes>): Redone {
    if log == [] then Done(EMPTY)
    else
      match ReplayBytes(log[..|log| - 1])
      case Corrupt => Corrupt
      case Done(im) => RedoSpec(log[|log| - 1], im)
  }

  predicate Readable(log: seq<Record>) {
    forall r :: r in log ==> Encodable(r) && forall op :: op in r.ops ==> Named(op)
  }

  function EncodeLog(log: seq<Record>): seq<Bytes>
    requires Readable(log)
  {
    seq(|log|, i requires 0 <= i < |log| => assert log[i] in log; Encode(log[i]))
  }

  /** Replaying a log from its bytes and from its records are the same thing. */
  lemma {:induction false} ReplayFromBytes(log: seq<Record>)
    requires Readable(log)
    ensures ReplayBytes(EncodeLog(log)) == Done(Replay(log))
  {
    if log != [] {
      var n := |log| - 1;
      ReplayFromBytes(log[..n]);
      assert EncodeLog(log)[..n] == EncodeLog(log[..n]);
      assert log[n] in log;
      RecordRoundTrip(log[n], Replay(log[..n]));
    }
  }
}

/**
  The file set as a machine.  Each step makes one change outside memory: it appends a
  record, syncs the log, or calls the object store once, and a crash may come between
  any two steps.  A crash keeps of each log some prefix that holds all that was synced.
 */
module OfsMachine {
  import opened Coding
  import opened OfsRecords

  /** A log object; records[..synced] are known to be on storage. */
  datatype Log = Log(records: seq<Record>, synced: nat)

  /** Where the running operation stands. */
  datatype Pc =
    | Switching(garbage: set<Name>)          // mount: next log truncated, snapshot not yet written
    | Collecting(todo: seq<Name>)            // mount: garbage collection; at [] no operation is running
    | Collected(obj: Name, todo: seq<Name>)  // mount: obj deleted, not yet marked
    | Creating(name: Name, obj: Name)        // put, create, copy: about to write obj
    | Created(name: Name, obj: Name)         // put, create, copy: obj written, not yet linked
    | Renaming(source: Name, dest: Name)     // rename: dest linked, source not yet unlinked
    | Deleting(obj: Name)                    // delete: name unlinked, obj not yet deleted
    | Deleted(obj: Name)                     // delete: obj deleted, not yet marked
    | Syncing(op: Op, next: Pc)              // record of op appended, not yet synced or applied

  const READY := Collecting([])

  datatype Session = Unmounted | Mounted(files: map<Name, Name>, first: bool, pc: Pc)

  /** name is the set's internal name; objects are the data objects it has in the store. */
  datatype State = State(name: Name, log1: Log, log2: Log, clock: nat, objects: set<Name>, session: Session) {

    function Pick(first: bool): Log {
      if first then log1 else log2
    }

    function Put(first: bool, log: Log): State {
      if first then this.(log1 := log) else this.(log2 := log)
    }
  }

  /** The steps of a mounted set. */
  datatype Action =
    | WriteSnapshot(now: nat, fileOrder: seq<Name>, garbageOrder: seq<Name>)
    | CollectObject(ok: bool, gone: bool)
    | MarkCollected(now: nat)
    | Sync
    | Create(name: Name, now: nat)           // PutFile, NewWritableFile and CopyFile begin alike
    | WriteObject(ok: bool, there: bool)
    | CommitLink(now: nat)
    | Rename(source: Name, dest: Name, now: nat)
    | RenameUnlink(now: nat)
    | Delete(name: Name, now: nat)
    | DeleteObject(ok: bool, gone: bool)
    | MarkDeleted(now: nat)
    | Unmount(syncOnClose: bool)

  datatype Step = Mount | Crash(keep1: nat, keep2: nat) | Do(action: Action)

  /** The set's name, '_', the file's name. */
  function ObjName(setName: Name, base: Name): Name {
    setName + [UNDERSCORE] + base
  }

  const UNDERSCORE: byte := 95

  /** The file names whose objects would be the set's own logs, set_1 and set_2. */
  predicate NamesALog(base: Name) {
    base == [49] || base == [50]
  }

  /** The object a write to base goes to: the one it is linked to, or a new one. */
  function Target(setName: Name, files: map<Name, Name>, base: Name): Name {
    if base in files then files[base] else ObjName(setName, base)
  }

  /** Append a record and wait for it to be synced. */
  function Logged(s: State, op: Op, now: nat, next: Pc): State
    requires s.session.Mounted?
  {
    var log := s.Pick(s.session.first);
    s.Put(s.session.first, log.(records := log.records + [Record(now, [op])]))
     .(clock := now, session := s.session.(pc := Syncing(op, next)))
  }

  function After(s: State, objects: set<Name>, pc: Pc): State
    requires s.session.Mounted?
  {
    s.(objects := objects, session := s.session.(pc := pc))
  }

  ghost predicate CanDo(s: State, a: Action)
    requires s.session.Mounted?
  {
    var files, pc := s.session.files, s.session.pc;
    match a
    case WriteSnapshot(now, fileOrder, garbageOrder) =>
      pc.Switching? && now > s.clock && Enumerates(fileOrder, files.Keys) && Enumerates(garbageOrder, pc.garbage)
    case CollectObject(ok, gone) => pc.Collecting? && pc.todo != [] && (ok ==> gone)
    case MarkCollected(now) => pc.Collected? && now > s.clock
    case Sync => pc.Syncing?
    case Create(name, now) => pc == READY && now > s.clock && name != [] && !NamesALog(name)
    case WriteObject(ok, there) => pc.Creating? && (ok ==> there)
    case CommitLink(now) => pc.Created? && now > s.clock
    case Rename(source, dest, now) => pc == READY && now > s.clock && source in files && dest !in files && dest != []
    case RenameUnlink(now) => pc.Renaming? && now > s.clock
    case Delete(name, now) => pc == READY && now > s.clock && name in files
    case DeleteObject(ok, gone) => pc.Deleting? && (ok ==> gone)
    case MarkDeleted(now) => pc.Deleted? && now > s.clock
    case Unmount(_) => pc == READY
  }

  function Perform(s: State, a: Action): State
    requires s.session.Mounted? && CanDo(s, a)
  {
    var files, first, pc := s.session.files, s.session.first, s.session.pc;
    var log := s.Pick(first);
    match a
    case WriteSnapshot(now, fileOrder, garbageOrder) =>
      var record := Record(now, Snapshot(Image(files, pc.garbage), fileOrder, garbageOrder));
      s.Put(first, log.(records := log.records + [record]))
       .(clock := now, session := s.session.(pc := Collecting(garbageOrder)))
    case CollectObject(ok, gone) =>
      After(s, if gone then s.objects - {pc.todo[0]} else s.objects,
            if ok then Collected(pc.todo[0], pc.todo[1..]) else Collecting(pc.todo[1..]))
    case MarkCollected(now) => Logged(s, ObjDeleted(pc.obj), now, Collecting(pc.todo))
    case Sync =>
      s.Put(first, log.(synced := |log.records|))
       .(session := Mounted(Execute(pc.op, Image(files, {})).files, first, pc.next))
    case Create(name, now) =>
      var obj := Target(s.name, files, name);
      Logged(s, TryCreateObj(obj), now, Creating(name, obj))
    case WriteObject(ok, there) =>
      After(s, if there then s.objects + {pc.obj} else s.objects, if ok then Created(pc.name, pc.obj) else READY)
    case CommitLink(now) => Logged(s, Link(pc.name, pc.obj), now, READY)
    case Rename(source, dest, now) => Logged(s, Link(dest, files[source]), now, Renaming(source, dest))
    case RenameUnlink(now) => Logged(s, Unlink(pc.source), now, READY)
    case Delete(name, now) => Logged(s, UnlinkAndDel(name, files[name]), now, Deleting(files[name]))
    case DeleteObject(ok, gone) =>
      After(s, if gone then s.objects - {pc.obj} else s.objects, if ok then Deleted(pc.obj) else READY)
    case MarkDeleted(now) => Logged(s, ObjDeleted(pc.obj), now, READY)
    case Unmount(syncOnClose) =>
      s.Put(first, if syncOnClose then log.(synced := |log.records|) else log).(session := Unmounted)
  }

  /** How a recovery that finds no log is continued: with an empty set. */
  function RecoveredImage(r: Recovery): Image {
    if r.Recovered? then r.image else EMPTY
  }

  ghost predicate Enabled(s: State, step: Step) {
    match step
    case Mount => s.session.Unmounted? && !Recover(s.log1.records, s.log2.records).Corruption?
    case Crash(keep1, keep2) =>
      s.log1.synced <= keep1 <= |s.log1.records| && s.log2.synced <= keep2 <= |s.log2.records|
    case Do(a) => s.session.Mounted? && CanDo(s, a)
  }

  function Apply(s: State, step: Step): State
    requires Enabled(s, step)
  {
    match step
    case Mount =>
      var r := Recover(s.log1.records, s.log2.records);
      var next := !(r.Recovered? && r.fromFirst);
      s.Put(next, Log([], 0))
       .(session := Mounted(RecoveredImage(r).files, next, Switching(RecoveredImage(r).garbage)))
    case Crash(keep1, keep2) =>
      s.(log1 := Log(s.log1.records[..keep1], keep1), log2 := Log(s.log2.records[..keep2], keep2), session := Unmounted)
    case Do(a) => Perform(s, a)
  }

  function Initial(name: Name): State {
    State(name, Log([], 0), Log([], 0), 0, {}, Unmounted)
  }
}

/** Crash recovery: what holds at every crash point of every run. */
module OfsSafety {
  import opened OfsRecords
  import opened OfsMachine

  ghost predicate LogOk(l: Log, clock: nat) {
    && l.synced <= |l.records|
    && forall i :: 0 <= i < |l.records| ==> 0 < l.records[i].time <= clock
  }

  /** The log stands for these files and accounts for every object. */
  ghost predicate Accounts(log: seq<Record>, files: map<Name, Name>, objects: set<Name>) {
    Replay(log).files == files && objects <= Replay(log).Known()
  }

  /** What the operation under way relies on, given the image of its log. */
  ghost predicate PcOk(pc: Pc, im: Image, objects: set<Name>) {
    match pc
    case Collecting(_) => true
    case Collected(obj, _) => obj !in objects
    case Creating(name, obj) => obj in im.garbage && (name in im.files ==> im.files[name] == obj)
    case Created(name, obj) => obj in im.garbage && (name in im.files ==> im.files[name] == obj)
    case Renaming(source, dest) =>
      source != dest && source in im.files && dest in im.files && im.files[source] == im.files[dest]
    case Deleting(_) => true
    case Deleted(obj) => obj !in objects
    case Switching(_) => false
    case Syncing(_, _) => false
  }

  /** How much of the active log is on storage: all of the first `upto` records, or
      nothing at all, and then only a snapshot has been written and the other log
      still stands for the same files. */
  ghost predicate Backed(a: Log, upto: nat, b: Log, files: map<Name, Name>, objects: set<Name>) {
    || a.synced == upto
    || (a.synced == 0 && upto == 1 && Accounts(b.records, files, objects))
  }

  /** No crash can change what the log stands for. */
  ghost predicate Firm(l: Log) {
    l.synced == |l.records| || (|l.records| == 1 && Replay(l.records) == EMPTY)
  }

  ghost predicate LogsOk(a: Log, b: Log, clock: nat) {
    && LogOk(a, clock) && LogOk(b, clock) && Firm(b)
    && (a.records != [] ==> a.records[0].time > FirstTime(b.records))
  }

  /** No record of an operation is waiting to be synced. */
  ghost predicate Settled(a: Log, b: Log, objects: set<Name>, files: map<Name, Name>, pc: Pc) {
    && a.records != []
    && Backed(a, |a.records|, b, files, objects)
    && Accounts(a.records, files, objects)
    && PcOk(pc, Replay(a.records), objects)
    && (pc.Collecting? || pc.Collected? || a.synced == |a.records|)
  }

  /** The last record, of op, may or may not survive a crash. */
  ghost predicate Pending(a: Log, b: Log, objects: set<Name>, files: map<Name, Name>, op: Op, next: Pc) {
    var n := |a.records| - 1;
    && n >= 1 && a.records[n].ops == [op]
    && Backed(a, n, b, files, objects)
    && Accounts(a.records[..n], files, objects)
    && Accounts(a.records, Execute(op, Image(files, {})).files, objects)
    && PcOk(next, Replay(a.records), objects)
  }

  /** a is the active log, b the other. */
  ghost predicate Consistent(a: Log, b: Log, clock: nat, objects: set<Name>, files: map<Name, Name>, pc: Pc) {
    && LogsOk(a, b, clock)
    && match pc
       case Switching(garbage) =>
         a == Log([], 0) && Replay(b.records) == Image(files, garbage) && objects <= Replay(b.records).Known()
       case Syncing(op, next) => Pending(a, b, objects, files, op, next)
       case _ => Settled(a, b, objects, files, pc)
  }

  /** Unmounted, with the newer log chosen by `first`. */
  ghost predicate Dormant(s: State, first: bool) {
    Consistent(s.Pick(first), s.Pick(!first), s.clock, s.objects, Replay(s.Pick(first).records).files, READY)
  }

  ghost predicate Fresh(s: State) {
    s.log1 == Log([], 0) && s.log2 == Log([], 0) && s.objects == {}
  }

  ghost predicate Inv(s: State) {
    match s.session
    case Unmounted => Fresh(s) || Dormant(s, true) || Dormant(s, false)
    case Mounted(files, first, pc) => Consistent(s.Pick(first), s.Pick(!first), s.clock, s.objects, files, pc)
  }

  // ------------------------------------------------------------ one step each

  lemma LoggedPending(a: Log, b: Log, objects: set<Name>, files: map<Name, Name>, pc: Pc, op: Op, now: nat, next: Pc)
    requires Settled(a, b, objects, files, pc)
    requires objects <= Execute(op, Replay(a.records)).Known() && PcOk(next, Execute(op, Replay(a.records)), objects)
    ensures Pending(a.(records := a.records + [Record(now, [op])]), b, objects, files, op, next)
  {
    var r := Record(now, [op]);
    ReplayOne(a.records, r);
    assert (a.records + [r])[..|a.records|] == a.records;
    ExecuteFiles(op, Replay(a.records), Image(files, {}));
  }

  /** Logging an op keeps the invariant when the op keeps every object accounted for. */
  lemma LoggedInv(s: State, op: Op, now: nat, next: Pc)
    requires Inv(s) && s.session.Mounted? && now > s.clock
    requires !s.session.pc.Switching? && !s.session.pc.Syncing?
    requires var im := Replay(s.Pick(s.session.first).records);
      && s.objects <= Execute(op, im).Known()
      && PcOk(next, Execute(op, im), s.objects)
    ensures Inv(Logged(s, op, now, next))
  {
    var a, b := s.Pick(s.session.first), s.Pick(!s.session.first);
    LoggedPending(a, b, s.objects, s.session.files, s.session.pc, op, now, next);
  }

  lemma ExecuteFiles(op: Op, im: Image, im': Image)
    requires im.files == im'.files
    ensures Execute(op, im).files == Execute(op, im').files
  {
  }

  lemma WriteSnapshotInv(s: State, a: Action)
    requires Inv(s) && s.session.Mounted? && CanDo(s, a) && a.WriteSnapshot?
    ensures Inv(Perform(s, a))
  {
    SnapshotIdentity(Image(s.session.files, s.session.pc.garbage), a.fileOrder, a.garbageOrder, a.now);
    var r := Record(a.now, Snapshot(Image(s.session.files, s.session.pc.garbage), a.fileOrder, a.garbageOrder));
    assert [] + [r] == [r];
  }

  lemma StoreInv(s: State, a: Action)
    requires Inv(s) && s.session.Mounted? && CanDo(s, a)
    requires a.CollectObject? || a.WriteObject? || a.DeleteObject?
    ensures Inv(Perform(s, a))
  {
  }

  lemma SyncInv(s: State)
    requires Inv(s) && s.session.Mounted? && CanDo(s, Sync)
    ensures Inv(Perform(s, Sync))
  {
  }

  lemma UnmountInv(s: State, syncOnClose: bool)
    requires Inv(s) && s.session.Mounted? && CanDo(s, Unmount(syncOnClose))
    ensures Inv(Perform(s, Unmount(syncOnClose)))
  {
  }

  lemma LinkKnown(im: Image, name: Name, obj: Name, objects: set<Name>)
    requires objects <= im.Known() && (name in im.files ==> im.files[name] == obj)
    ensures objects <= Execute(Link(name, obj), im).Known()
  {
    var im' := Execute(Link(name, obj), im);
    assert name in im'.files && im'.files[name] == obj;
    forall o | o in objects ensures o in im'.Known() {
      if o in im.files.Values {
        var n :| n in im.files && im.files[n] == o;
        assert n in im'.files && im'.files[n] == o;
      }
    }
  }

  lemma UnlinkKnown(im: Image, source: Name, dest: Name, objects: set<Name>)
    requires objects <= im.Known() && source != dest
    requires source in im.files && dest in im.files && im.files[source] == im.files[dest]
    ensures objects <= Execute(Unlink(source), im).Known()
  {
    var im' := Execute(Unlink(source), im);
    forall o | o in objects ensures o in im'.Known() {
      if o in im.files.Values {
        var n :| n in im.files && im.files[n] == o;
        assert dest in im'.files && (n != source ==> n in im'.files);
      }
    }
  }

  lemma UnlinkAndDelKnown(im: Image, name: Name, objects: set<Name>)
    requires objects <= im.Known() && name in im.files
    ensures objects <= Execute(UnlinkAndDel(name, im.files[name]), im).Known()
  {
    var im' := Execute(UnlinkAndDel(name, im.files[name]), im);
    forall o | o in objects ensures o in im'.Known() {
      if o in im.files.Values {
        var n :| n in im.files && im.files[n] == o;
        assert n != name ==> n in im'.files && im'.files[n] == o;
      }
    }
  }

  lemma RecordInv(s: State, a: Action)
    requires Inv(s) && s.session.Mounted? && CanDo(s, a)
    requires a.MarkCollected? || a.Create? || a.CommitLink? || a.Rename? || a.RenameUnlink? || a.Delete?
      || a.MarkDeleted?
    ensures Inv(Perform(s, a))
  {
    var files, pc := s.session.files, s.session.pc;
    var im := Replay(s.Pick(s.session.first).records);
    match a
    case MarkCollected(now) => LoggedInv(s, ObjDeleted(pc.obj), now, Collecting(pc.todo));
    case Create(name, now) =>
      var obj := Target(s.name, files, name);
      LoggedInv(s, TryCreateObj(obj), now, Creating(name, obj));
    case CommitLink(now) =>
      LinkKnown(im, pc.name, pc.obj, s.objects);
      LoggedInv(s, Link(pc.name, pc.obj), now, READY);
    case Rename(source, dest, now) =>
      LinkKnown(im, dest, files[source], s.objects);
      LoggedInv(s, Link(dest, files[source]), now, Renaming(source, dest));
    case RenameUnlink(now) =>
      UnlinkKnown(im, pc.source, pc.dest, s.objects);
      LoggedInv(s, Unlink(pc.source), now, READY);
    case Delete(name, now) =>
      UnlinkAndDelKnown(im, name, s.objects);
      LoggedInv(s, UnlinkAndDel(name, files[name]), now, Deleting(files[name]));
    case MarkDeleted(now) => LoggedInv(s, ObjDeleted(pc.obj), now, READY);
  }

  // -------------------------------------------------------- crash and recovery

  /** The files of the set: those in memory, or, unmounted, those a mount would find. */
  ghost function Shown(s: State): map<Name, Name> {
    if s.session.Mounted? then s.session.files else RecoveredImage(Recover(s.log1.records, s.log2.records)).files
  }

  /** The files when the active log keeps `keep` of its `logged` records. */
  ghost function FilesAt(files: map<Name, Name>, pc: Pc, keep: nat, logged: nat): map<Name, Name> {
    if pc.Syncing? && keep == logged then Execute(pc.op, Image(files, {})).files else files
  }

  /** The files as of the last record that survives: those of the set, and with the record
      being synced, if it survives, applied. */
  ghost function FilesAsOf(s: State, keep1: nat, keep2: nat): map<Name, Name> {
    match s.session
    case Unmounted => Shown(s)
    case Mounted(files, first, pc) =>
      FilesAt(files, pc, if first then keep1 else keep2, |s.Pick(first).records|)
  }

  /** Which log recovery chooses when the active log keeps `keep` records, and what that log stands for. */
  lemma SurvivingLog(a: Log, b: Log, clock: nat, objects: set<Name>, files: map<Name, Name>, pc: Pc, keep: nat)
    requires Consistent(a, b, clock, objects, files, pc) && a.synced <= keep <= |a.records|
    ensures keep > 0 ==> FirstTime(a.records[..keep]) > FirstTime(b.records)
    ensures Accounts(if keep > 0 then a.records[..keep] else b.records, FilesAt(files, pc, keep, |a.records|), objects)
  {
    assert a.records[..|a.records|] == a.records;
  }

  lemma SettledAgain(a: Log, b: Log, clock: nat, objects: set<Name>, keep: nat, other: nat)
    requires LogsOk(a, b, clock) && 0 < keep <= |a.records| && b.synced <= other <= |b.records|
    requires objects <= Replay(a.records[..keep]).Known()
    ensures Consistent(Log(a.records[..keep], keep), Log(b.records[..other], other), clock, objects,
                       Replay(a.records[..keep]).files, READY)
  {
    FirmPrefix(b, clock, other);
  }

  lemma FirmPrefix(l: Log, clock: nat, keep: nat)
    requires LogOk(l, clock) && Firm(l) && l.synced <= keep <= |l.records|
    ensures Replay(l.records[..keep]) == Replay(l.records)
    ensures FirstTime(l.records[..keep]) <= FirstTime(l.records)
  {
    assert l.records[..|l.records|] == l.records;
    assert l.records[..0] == [];
  }

  lemma DormantAlone(b: seq<Record>, clock: nat, objects: set<Name>)
    requires LogOk(Log(b, |b|), clock) && objects <= Replay(b).Known()
    ensures b == [] ==> objects == {}
    ensures b != [] ==> Consistent(Log(b, |b|), Log([], 0), clock, objects, Replay(b).files, READY)
  {
  }

  lemma NewerIsRecovered(a: seq<Record>, b: seq<Record>)
    requires FirstTime(a) > FirstTime(b)
    ensures Recover(a, b) == Recovered(Replay(a), true) && Recover(b, a) == Recovered(Replay(a), false)
  {
  }

  lemma AloneIsRecovered(b: seq<Record>)
    requires forall i :: 0 <= i < |b| ==> b[i].time > 0
    ensures RecoveredImage(Recover([], b)) == Replay(b) == RecoveredImage(Recover(b, []))
    ensures !Recover([], b).Corruption? && !Recover(b, []).Corruption?
  {
    if b != [] { NewerIsRecovered(b, []); }
  }

  /** Recovery succeeds, gives these files, and accounts for every object. */
  ghost predicate Recovers(r: Recovery, files: map<Name, Name>, objects: set<Name>) {
    !r.Corruption? && RecoveredImage(r).files == files && objects <= RecoveredImage(r).Known()
  }

  /** What is recovered from what a crash leaves of the active log a and of the other, b. */
  lemma PairRecovers(
    a: Log, b: Log, clock: nat, objects: set<Name>, files: map<Name, Name>, pc: Pc, keep: nat, other: nat)
    requires Consistent(a, b, clock, objects, files, pc)
    requires a.synced <= keep <= |a.records| && b.synced <= other <= |b.records|
    ensures Recovers(Recover(a.records[..keep], b.records[..other]), FilesAt(files, pc, keep, |a.records|), objects)
    ensures Recovers(Recover(b.records[..other], a.records[..keep]), FilesAt(files, pc, keep, |a.records|), objects)
  {
    SurvivingLog(a, b, clock, objects, files, pc, keep);
    FirmPrefix(b, clock, other);
    if keep > 0 {
      NewerIsRecovered(a.records[..keep], b.records[..other]);
    } else {
      assert a.records[..keep] == [];
      AloneIsRecovered(b.records[..other]);
    }
  }

  /** Crash recovery, at any point of any operation and between sessions: whichever
      unsynced records survive, recovery succeeds, rebuilds exactly the files as of the
      last surviving record, and accounts for every object the set has in the store. */
  lemma CrashRecovers(s: State, keep1: nat, keep2: nat)
    requires Inv(s) && Enabled(s, Crash(keep1, keep2))
    ensures Recovers(Recover(s.log1.records[..keep1], s.log2.records[..keep2]), FilesAsOf(s, keep1, keep2), s.objects)
  {
    match s.session
    case Mounted(files, first, pc) =>
      var keep, other := if first then keep1 else keep2, if first then keep2 else keep1;
      PairRecovers(s.Pick(first), s.Pick(!first), s.clock, s.objects, files, pc, keep, other);
    case Unmounted =>
      if Dormant(s, true) {
        DormantRecovers(s, true, keep1, keep2);
      } else if Dormant(s, false) {
        DormantRecovers(s, false, keep2, keep1);
      } else {
        assert s.log1.records[..keep1] == [] == s.log2.records[..keep2];
      }
  }

  lemma DormantRecovers(s: State, first: bool, keep: nat, other: nat)
    requires s.session.Unmounted? && Dormant(s, first)
    requires s.Pick(first).synced <= keep <= |s.Pick(first).records|
    requires s.Pick(!first).synced <= other <= |s.Pick(!first).records|
    ensures var a, b := s.Pick(first).records[..keep], s.Pick(!first).records[..other];
      Recovers(if first then Recover(a, b) else Recover(b, a), Shown(s), s.objects)
  {
    var a, b := s.Pick(first), s.Pick(!first);
    PairRecovers(a, b, s.clock, s.objects, Replay(a.records).files, READY, keep, other);
    NewerIsRecovered(a.records, b.records);
  }

  lemma CrashSettles(s: State, first: bool, files: map<Name, Name>, pc: Pc, keep1: nat, keep2: nat)
    requires Consistent(s.Pick(first), s.Pick(!first), s.clock, s.objects, files, pc)
    requires Enabled(s, Crash(keep1, keep2))
    ensures Inv(Apply(s, Crash(keep1, keep2)))
  {
    var a, b := s.Pick(first), s.Pick(!first);
    var keep := if first then keep1 else keep2;
    var other := if first then keep2 else keep1;
    var s' := Apply(s, Crash(keep1, keep2));
    SurvivingLog(a, b, s.clock, s.objects, files, pc, keep);
    FirmPrefix(b, s.clock, other);
    assert s'.Pick(first) == Log(a.records[..keep], keep) && s'.Pick(!first) == Log(b.records[..other], other);
    if keep > 0 {
      SettledAgain(a, b, s.clock, s.objects, keep, other);
      assert Dormant(s', first);
    } else {
      assert a.records[..keep] == [];
      DormantAlone(b.records[..other], s.clock, s.objects);
      assert Fresh(s') || Dormant(s', !first);
    }
  }

  lemma CrashInv(s: State, keep1: nat, keep2: nat)
    requires Inv(s) && Enabled(s, Crash(keep1, keep2))
    ensures Inv(Apply(s, Crash(keep1, keep2)))
  {
    match s.session
    case Mounted(files, first, pc) => CrashSettles(s, first, files, pc, keep1, keep2);
    case Unmounted =>
      if Fresh(s) {
        assert Fresh(Apply(s, Crash(keep1, keep2)));
      } else if Dormant(s, true) {
        CrashSettles(s, true, Replay(s.log1.records).files, READY, keep1, keep2);
      } else {
        CrashSettles(s, false, Replay(s.log2.records).files, READY, keep1, keep2);
      }
  }

  // --------------------------------------------------------------------- mount

  /** The log a mount would replay. */
  function ChosenLog(s: State): Log {
    if FirstTime(s.log1.records) > FirstTime(s.log2.records) then s.log1 else s.log2
  }

  /** The guard under which a mount may truncate the other log: the snapshot that heads
      the chosen log is on storage, or there is nothing to lose. */
  predicate SafeToMount(s: State) {
    var log := ChosenLog(s);
    log.synced > 0 || Replay(log.records) == EMPTY
  }

  lemma DormantMountInv(s: State, first: bool)
    requires s.session.Unmounted? && Dormant(s, first) && SafeToMount(s)
    ensures Enabled(s, Mount) && Inv(Apply(s, Mount))
  {
    NewerIsRecovered(s.Pick(first).records, s.Pick(!first).records);
    var s' := Apply(s, Mount);
    assert ChosenLog(s) == s.Pick(first);
    assert s'.Pick(!first) == Log([], 0) && s'.Pick(first) == s.Pick(first);
  }

  lemma MountInv(s: State)
    requires Inv(s) && Enabled(s, Mount) && SafeToMount(s)
    ensures Inv(Apply(s, Mount))
  {
    if Dormant(s, true) {
      DormantMountInv(s, true);
    } else if Dormant(s, false) {
      DormantMountInv(s, false);
    }
  }

  /** Every step keeps the invariant, as long as mounts respect the guard. */
  lemma StepInv(s: State, step: Step)
    requires Inv(s) && Enabled(s, step) && (step.Mount? ==> SafeToMount(s))
    ensures Inv(Apply(s, step))
  {
    match step
    case Mount => MountInv(s);
    case Crash(keep1, keep2) => CrashInv(s, keep1, keep2);
    case Do(a) =>
      match a {
        case WriteSnapshot(_, _, _) => WriteSnapshotInv(s, a);
        case CollectObject(_, _) => StoreInv(s, a);
        case WriteObject(_, _) => StoreInv(s, a);
        case DeleteObject(_, _) => StoreInv(s, a);
        case Sync => SyncInv(s);
        case Unmount(syncOnClose) => UnmountInv(s, syncOnClose);
        case _ => RecordInv(s, a);
      }
  }

  // ----------------------------------------------------------------- whole runs

  ghost predicate IsRun(name: Name, states: seq<State>, steps: seq<Step>) {
    && |states| == |steps| + 1
    && states[0] == Initial(name)
    && forall i :: 0 <= i < |steps| ==> Enabled(states[i], steps[i]) && states[i + 1] == Apply(states[i], steps[i])
  }

  ghost predicate MountsAreSafe(states: seq<State>, steps: seq<Step>)
    requires |states| == |steps| + 1
  {
    forall i :: 0 <= i < |steps| && steps[i].Mount? ==> SafeToMount(states[i])
  }

  lemma {:induction false} RunInv(name: Name, states: seq<State>, steps: seq<Step>, i: nat)
    requires IsRun(name, states, steps) && MountsAreSafe(states, steps) && i < |states|
    ensures Inv(states[i])
  {
    if i > 0 {
      RunInv(name, states, steps, i - 1);
      StepInv(states[i - 1], steps[i - 1]);
    }
  }

  /** At every point of every run of mounts, puts, creates, copies, renames, deletes,
      unmounts and crashes, with store calls failing at will: a crash there recovers the
      files as of the last surviving record, and no object leaks. */
  lemma EveryCrashRecovers(name: Name, states: seq<State>, steps: seq<Step>, i: nat, keep1: nat, keep2: nat)
    requires IsRun(name, states, steps) && MountsAreSafe(states, steps) && i < |states|
    requires Enabled(states[i], Crash(keep1, keep2))
    ensures var s := states[i];
      Recovers(Recover(s.log1.records[..keep1], s.log2.records[..keep2]), FilesAsOf(s, keep1, keep2), s.objects)
  {
    RunInv(name, states, steps, i);
    CrashRecovers(states[i], keep1, keep2);
  }

  /** The files change only where a record is synced, or where a crash strikes while one is
      being synced: mounting, unmounting, a crash at any other time and every other step of
      an operation leave them as they were. */
  lemma OnlySyncChangesFiles(name: Name, states: seq<State>, steps: seq<Step>, i: nat)
    requires IsRun(name, states, steps) && MountsAreSafe(states, steps) && i < |steps|
    requires steps[i] != Do(Sync)
    requires steps[i].Crash? ==> !(states[i].session.Mounted? && states[i].session.pc.Syncing?)
    ensures Shown(states[i + 1]) == Shown(states[i])
  {
    RunInv(name, states, steps, i);
    match steps[i]
    case Mount =>
    case Crash(keep1, keep2) => CrashRecovers(states[i], keep1, keep2);
    case Do(a) => DoKeepsFiles(states[i], a);
  }

  lemma DoKeepsFiles(s: State, a: Action)
    requires Inv(s) && s.session.Mounted? && CanDo(s, a) && a != Sync
    ensures Shown(Perform(s, a)) == Shown(s)
  {
    if a.Unmount? {
      NewerIsRecovered(s.Pick(s.session.first).records, s.Pick(!s.session.first).records);
    }
  }

  // ------------------------------------------------- when a mount loses the set

  /** A mount puts the set at risk exactly when the guard fails: then, and only then,
      some crash right after it loses what the mount had just recovered. */
  lemma MountIsSafeIff(s: State)
    requires Inv(s) && Enabled(s, Mount)
    ensures SafeToMount(s) <==>
      forall keep1, keep2 :: Enabled(Apply(s, Mount), Crash(keep1, keep2)) ==>
        RecoveredAfter(Apply(s, Mount), keep1, keep2) == RecoveredImage(Recover(s.log1.records, s.log2.records))
  {
    var s' := Apply(s, Mount);
    if SafeToMount(s) {
      forall keep1, keep2 | Enabled(s', Crash(keep1, keep2))
        ensures RecoveredAfter(s', keep1, keep2) == RecoveredImage(Recover(s.log1.records, s.log2.records))
      {
        SafeMountKeeps(s, keep1, keep2);
      }
    } else {
      assert Enabled(s', Crash(0, 0)) && RecoveredAfter(s', 0, 0) == EMPTY;
      if Dormant(s, true) {
        NewerIsRecovered(s.log1.records, s.log2.records);
      } else {
        NewerIsRecovered(s.log2.records, s.log1.records);
      }
    }
  }

  function RecoveredAfter(s: State, keep1: nat, keep2: nat): Image
    requires keep1 <= |s.log1.records| && keep2 <= |s.log2.records|
  {
    RecoveredImage(Recover(s.log1.records[..keep1], s.log2.records[..keep2]))
  }

  lemma SafeMountKeeps(s: State, keep1: nat, keep2: nat)
    requires Inv(s) && Enabled(s, Mount) && SafeToMount(s)
    requires Enabled(Apply(s, Mount), Crash(keep1, keep2))
    ensures RecoveredAfter(Apply(s, Mount), keep1, keep2) == RecoveredImage(Recover(s.log1.records, s.log2.records))
  {
    MountInv(s);
    var s' := Apply(s, Mount);
    var first := s'.session.first;
    var other := if first then keep2 else keep1;
    FirmPrefix(s'.Pick(!first), s'.clock, other);
    AloneIsRecovered(s'.Pick(!first).records[..other]);
    if Dormant(s, true) {
      NewerIsRecovered(s.log1.records, s.log2.records);
    } else if Dormant(s, false) {
      NewerIsRecovered(s.log2.records, s.log1.records);
    }
  }

  /** With sync_log_on_close every mount is safe. */
  lemma {:induction false} SyncOnCloseIsSafe(name: Name, states: seq<State>, steps: seq<Step>, i: nat)
    requires IsRun(name, states, steps) && i < |states|
    requires forall k :: 0 <= k < |steps| ==> steps[k] != Do(Unmount(false))
    ensures Inv(states[i]) && (states[i].session.Unmounted? ==> SafeToMount(states[i]))
  {
    if i > 0 {
      SyncOnCloseIsSafe(name, states, steps, i - 1);
      StepInv(states[i - 1], steps[i - 1]);
      if states[i].session.Unmounted? { StaysSafe(states[i - 1], steps[i - 1]); }
    }
  }

  lemma StaysSafe(s: State, step: Step)
    requires Inv(s) && Enabled(s, step) && step != Do(Unmount(false)) && Apply(s, step).session.Unmounted?
    ensures SafeToMount(Apply(s, step))
  {
    match step
    case Mount =>
    case Crash(_, _) =>
    case Do(a) =>
      assert a == Unmount(true);
      var x, y := s.Pick(s.session.first).records, s.Pick(!s.session.first).records;
      assert FirstTime(x) > FirstTime(y);
  }

  /** Without it, a set holding a linked file can be lost: mount and unmount it twice
      with nothing logged in between, and crash. */
  lemma RemountCanLoseTheSet(name: Name)
    ensures exists states, steps :: IsRun(name, states, steps) && LosesTheSet(states[|steps|])
  {
    var states := seq(13, i requires 0 <= i < 13 => LosingState(name, i));
    var steps := seq(12, i requires 0 <= i < 12 => LosingStep(i));
    forall i | 0 <= i < |steps| ensures Enabled(states[i], steps[i]) && states[i + 1] == Apply(states[i], steps[i]) {
      LosingRun(name, i);
    }
    assert IsRun(name, states, steps);
    assert Enabled(states[12], Crash(0, 0));
    assert [97] in states[12].session.files && RecoveredAfter(states[12], 0, 0) == EMPTY;
    assert LosesTheSet(states[|steps|]);
  }

  function LosingStep(i: nat): Step
    requires i < 12
  {
    [Mount, Do(WriteSnapshot(1, [], [])), Do(Create([97], 2)), Do(Sync), Do(WriteObject(true, true)), Do(CommitLink(3)),
     Do(Sync), Do(Unmount(false)), Mount, Do(WriteSnapshot(4, [[97]], [])), Do(Unmount(false)), Mount][i]
  }

  function LosingState(name: Name, i: nat): State
    requires i <= 12
  {
    var obj := ObjName(name, [97]);
    var files, none, snap := map[[97] := obj], Log([], 0), Record(1, []);
    var create, link := Record(2, [TryCreateObj(obj)]), Record(3, [Link([97], obj)]);
    var full, bare := Log([snap, create, link], 3), Log([Record(4, [Link([97], obj)])], 0);
    match i
    case 0 => Initial(name)
    case 1 => State(name, none, none, 0, {}, Mounted(map[], true, Switching({})))
    case 2 => State(name, Log([snap], 0), none, 1, {}, Mounted(map[], true, READY))
    case 3 => State(name, Log([snap, create], 0), none, 2, {},
      Mounted(map[], true, Syncing(TryCreateObj(obj), Creating([97], obj))))
    case 4 => State(name, Log([snap, create], 2), none, 2, {}, Mounted(map[], true, Creating([97], obj)))
    case 5 => State(name, Log([snap, create], 2), none, 2, {obj}, Mounted(map[], true, Created([97], obj)))
    case 6 => State(name, Log([snap, create, link], 2), none, 3, {obj},
      Mounted(map[], true, Syncing(Link([97], obj), READY)))
    case 7 => State(name, full, none, 3, {obj}, Mounted(files, true, READY))
    case 8 => State(name, full, none, 3, {obj}, Unmounted)
    case 9 => State(name, full, none, 3, {obj}, Mounted(files, false, Switching({})))
    case 10 => State(name, full, bare, 4, {obj}, Mounted(files, false, READY))
    case 11 => State(name, full, bare, 4, {obj}, Unmounted)
    case 12 => State(name, none, bare, 4, {obj}, Mounted(files, true, Switching({})))
  }

  lemma LosingRun(name: Name, i: nat)
    requires i < 12
    ensures Enabled(LosingState(name, i), LosingStep(i))
    ensures LosingState(name, i + 1) == Apply(LosingState(name, i), LosingStep(i))
  {
    if i < 4 {
      LosingBegin(name, i);
    } else if i < 6 {
      LosingCreate(name, i);
    } else if i < 8 {
      LosingLink(name, i);
    } else {
      LosingEnd(name, i);
    }
  }

  lemma LosingBegin(name: Name, i: nat)
    requires i < 4
    ensures Enabled(LosingState(name, i), LosingStep(i))
    ensures LosingState(name, i + 1) == Apply(LosingState(name, i), LosingStep(i))
  {
    var snap, create := Record(1, []), Record(2, [TryCreateObj(ObjName(name, [97]))]);
    assert Snapshot(EMPTY, [], []) == [] && [] + [snap] == [snap] && [snap] + [create] == [snap, create];
  }

  lemma LosingCreate(name: Name, i: nat)
    requires 4 <= i < 6
    ensures Enabled(LosingState(name, i), LosingStep(i))
    ensures LosingState(name, i + 1) == Apply(LosingState(name, i), LosingStep(i))
  {
    var obj := ObjName(name, [97]);
    var snap, create, link := Record(1, []), Record(2, [TryCreateObj(obj)]), Record(3, [Link([97], obj)]);
    assert LosingState(name, 4).objects + {obj} == {obj};
    assert [snap, create] + [link] == [snap, create, link];
  }

  lemma LosingLink(name: Name, i: nat)
    requires 6 <= i < 8
    ensures Enabled(LosingState(name, i), LosingStep(i))
    ensures LosingState(name, i + 1) == Apply(LosingState(name, i), LosingStep(i))
  {
    var obj := ObjName(name, [97]);
    assert Execute(Link([97], obj), Image(LosingState(name, 6).session.files, {})).files
      == LosingState(name, 7).session.files;
  }

  lemma LosingEnd(name: Name, i: nat)
    requires 8 <= i < 12
    ensures Enabled(LosingState(name, i), LosingStep(i))
    ensures LosingState(name, i + 1) == Apply(LosingState(name, i), LosingStep(i))
  {
    LosingImages(name);
  }

  /** Files are linked, yet some crash recovers an empty set. */
  ghost predicate LosesTheSet(s: State) {
    && s.session.Mounted? && s.session.files != map[]
    && exists keep1, keep2 :: Enabled(s, Crash(keep1, keep2)) && RecoveredAfter(s, keep1, keep2) == EMPTY
  }

  lemma LosingImages(name: Name)
    ensures var obj := ObjName(name, [97]);
      && Replay([Record(1, []), Record(2, [TryCreateObj(obj)]), Record(3, [Link([97], obj)])])
        == Image(map[[97] := obj], {})
      && Replay([Record(4, [Link([97], obj)])]) == Image(map[[97] := obj], {})
      && Snapshot(Image(map[[97] := obj], {}), [[97]], []) == [Link([97], obj)]
  {
    var obj := ObjName(name, [97]);
    ReplayOne([Record(1, [])], Record(2, [TryCreateObj(obj)]));
    ReplayOne([Record(1, []), Record(2, [TryCreateObj(obj)])], Record(3, [Link([97], obj)]));
    ReplayOne([], Record(4, [Link([97], obj)]));
    assert [Record(1, [])][..0] == [];
    assert [Record(1, [])] + [Record(2, [TryCreateObj(obj)])] == [Record(1, []), Record(2, [TryCreateObj(obj)])];
    assert [Record(1, []), Record(2, [TryCreateObj(obj)])] + [Record(3, [Link([97], obj)])]
        == [Record(1, []), Record(2, [TryCreateObj(obj)]), Record(3, [Link([97], obj)])];
    assert [] + [Record(4, [Link([97], obj)])] == [Record(4, [Link([97], obj)])];
  }
}

/** The machine's records survive the trip through bytes: replay refuses an op with an
    empty name, and no run ever logs one. */
module OfsDisk {
  import opened OfsRecords
  import opened OfsBytes
  import opened OfsMachine
  import opened OfsSafety

  ghost predicate NamedLog(log: seq<Record>) {
    forall i, j :: 0 <= i < |log| && 0 <= j < |log[i].ops| ==> Named(log[i].ops[j])
  }

  ghost predicate NamedFiles(files: map<Name, Name>) {
    forall x :: x in files ==> x != [] && files[x] != []
  }

  ghost predicate NamedImage(im: Image) {
    NamedFiles(im.files) && [] !in im.garbage
  }

  ghost predicate NamedPc(pc: Pc)
    decreases pc
  {
    match pc
    case Switching(garbage) => [] !in garbage
    case Collecting(todo) => [] !in todo
    case Collected(obj, todo) => obj != [] && [] !in todo
    case Creating(name, obj) => name != [] && obj != []
    case Created(name, obj) => name != [] && obj != []
    case Renaming(source, dest) => source != [] && dest != []
    case Deleting(obj) => obj != []
    case Deleted(obj) => obj != []
    case Syncing(op, next) => Named(op) && NamedPc(next)
  }

  ghost predicate NamesInv(s: State) {
    && NamedLog(s.log1.records) && NamedLog(s.log2.records)
    && (s.session.Mounted? ==> NamedFiles(s.session.files) && NamedPc(s.session.pc))
  }

  lemma {:induction false} NamedOps(ops: seq<Op>, im: Image)
    requires NamedImage(im) && forall j :: 0 <= j < |ops| ==> Named(ops[j])
    ensures NamedImage(ExecuteAll(ops, im))
  {
    if ops != [] {
      assert Named(ops[0]);
      NamedOps(ops[1..], Execute(ops[0], im));
    }
  }

  lemma {:induction false} NamedReplay(log: seq<Record>)
    requires NamedLog(log)
    ensures NamedImage(Replay(log))
  {
    if log != [] {
      NamedReplay(log[..|log| - 1]);
      NamedOps(log[|log| - 1].ops, Replay(log[..|log| - 1]));
    }
  }

  lemma NamedAppend(log: seq<Record>, r: Record)
    requires NamedLog(log) && forall j :: 0 <= j < |r.ops| ==> Named(r.ops[j])
    ensures NamedLog(log + [r])
  {
  }

  lemma SnapshotNamed(im: Image, fileOrder: seq<Name>, garbageOrder: seq<Name>)
    requires NamedImage(im) && Enumerates(fileOrder, im.files.Keys) && Enumerates(garbageOrder, im.garbage)
    ensures forall j :: 0 <= j < |Snapshot(im, fileOrder, garbageOrder)| ==>
      Named(Snapshot(im, fileOrder, garbageOrder)[j])
    ensures [] !in garbageOrder
  {
    forall i | 0 <= i < |fileOrder| ensures fileOrder[i] in im.files { assert fileOrder[i] in fileOrder; }
    forall i | 0 <= i < |garbageOrder| ensures garbageOrder[i] in im.garbage { assert garbageOrder[i] in garbageOrder; }
  }

  lemma LoggedNames(s: State, op: Op, now: nat, next: Pc)
    requires NamesInv(s) && s.session.Mounted? && Named(op) && NamedPc(next)
    ensures NamesInv(Logged(s, op, now, next))
  {
    NamedAppend(s.Pick(s.session.first).records, Record(now, [op]));
  }

  lemma PerformNames(s: State, a: Action)
    requires NamesInv(s) && s.session.Mounted? && CanDo(s, a)
    ensures NamesInv(Perform(s, a))
  {
    var files, pc := s.session.files, s.session.pc;
    match a
    case WriteSnapshot(now, fileOrder, garbageOrder) =>
      SnapshotNamed(Image(files, pc.garbage), fileOrder, garbageOrder);
      NamedAppend(s.Pick(s.session.first).records, Record(now,
        Snapshot(Image(files, pc.garbage), fileOrder, garbageOrder)));
    case MarkCollected(now) => LoggedNames(s, ObjDeleted(pc.obj), now, Collecting(pc.todo));
    case Create(name, now) => LoggedNames(s, TryCreateObj(Target(s.name, files, name)), now,
      Creating(name, Target(s.name, files, name)));
    case CommitLink(now) => LoggedNames(s, Link(pc.name, pc.obj), now, READY);
    case Rename(source, dest, now) => LoggedNames(s, Link(dest, files[source]), now, Renaming(source, dest));
    case RenameUnlink(now) => LoggedNames(s, Unlink(pc.source), now, READY);
    case Delete(name, now) => LoggedNames(s, UnlinkAndDel(name, files[name]), now, Deleting(files[name]));
    case MarkDeleted(now) => LoggedNames(s, ObjDeleted(pc.obj), now, READY);
    case _ =>
  }

  lemma StepNames(s: State, step: Step)
    requires NamesInv(s) && Enabled(s, step)
    ensures NamesInv(Apply(s, step))
  {
    match step
    case Mount =>
      NamedReplay(s.log1.records);
      NamedReplay(s.log2.records);
    case Crash(_, _) =>
    case Do(a) => PerformNames(s, a);
  }

  lemma {:induction false} RunNames(name: Name, states: seq<State>, steps: seq<Step>, i: nat)
    requires IsRun(name, states, steps) && i < |states|
    ensures NamesInv(states[i])
  {
    if i > 0 {
      RunNames(name, states, steps, i - 1);
      StepNames(states[i - 1], steps[i - 1]);
    }
  }

  /** Whatever a crash leaves of a log of any run can be read back from its bytes, and
      gives the image the machine's recovery works with. */
  lemma EveryLogReadsBack(name: Name, states: seq<State>, steps: seq<Step>, i: nat, first: bool, keep: nat)
    requires IsRun(name, states, steps) && i < |states| && keep <= |states[i].Pick(first).records|
    requires forall r :: r in states[i].Pick(first).records ==> Encodable(r)
    ensures Readable(states[i].Pick(first).records[..keep])
    ensures ReplayBytes(EncodeLog(states[i].Pick(first).records[..keep]))
      == Done(Replay(states[i].Pick(first).records[..keep]))
  {
    RunNames(name, states, steps, i);
    ReplayFromBytes(states[i].Pick(first).records[..keep]);
  }
}
