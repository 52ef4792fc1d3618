/**
  The data of the files: when every file of a set is sure to have its object in the store,
  whatever crash comes and whatever the next mount collects.
 */
module OfsDurability {
  import opened OfsRecords
  import opened OfsMachine
  import opened OfsSafety
  import opened OfsOperations

  /** Every file has its object, and none of these is garbage. */
  ghost predicate Whole(im: Image, objects: set<Name>) {
    forall n :: n in im.files ==> im.files[n] in objects && im.files[n] !in im.garbage
  }

  /** What any crash leaves to be recovered is whole. */
  ghost predicate Durable(s: State) {
    forall keep1, keep2 :: Enabled(s, Crash(keep1, keep2)) ==> Whole(RecoveredAfter(s, keep1, keep2), s.objects)
  }

  predicate Unlinked(obj: Name, files: map<Name, Name>) {
    forall n :: n in files ==> files[n] != obj
  }

  /**
    A call that a caller can tell is harmless: the object that a put, create or copy goes to
    belongs to no file, and the object that a delete is about belongs to no other file.
   */
  predicate Gentle(s: State, a: Action)
    requires s.session.Mounted?
  {
    var files := s.session.files;
    match a
    case Create(base, _) => Unlinked(ObjectFor(s, files, base), files)
    case Delete(base, _) => base in files ==> Unlinked(files[base], files - {base})
    case _ => true
  }

  /** What the operation under way relies on. */
  ghost predicate Holds(pc: Pc, files: map<Name, Name>, objects: set<Name>)
    decreases pc
  {
    match pc
    case Switching(garbage) => Whole(Image(files, garbage), objects)
    case Collecting(todo) => forall o :: o in todo ==> Unlinked(o, files)
    case Collected(_, todo) => forall o :: o in todo ==> Unlinked(o, files)
    case Creating(_, _) => true
    case Created(_, obj) => obj in objects
    case Renaming(_, _) => true
    case Deleting(obj) => Unlinked(obj, files)
    case Deleted(_) => true
    case Syncing(op, next) => Holds(next, Execute(op, Image(files, {})).files, objects)
  }

  ghost predicate Safe(s: State) {
    Inv(s) && Durable(s) && (s.session.Mounted? ==> Holds(s.session.pc, s.session.files, s.objects))
  }

  // ------------------------------------------------------------ one step each

  /** Logging an op is durable exactly if the image with it is whole. */
  lemma LoggedDurable(s: State, op: Op, now: nat, next: Pc)
    requires Inv(s) && Durable(s) && s.session.Mounted? && !s.session.pc.Switching? && !s.session.pc.Syncing?
    ensures Durable(Logged(s, op, now, next))
      <==> Whole(Execute(op, Replay(s.Pick(s.session.first).records)), s.objects)
  {
    var s' := Logged(s, op, now, next);
    var whole := Whole(Execute(op, Replay(s.Pick(s.session.first).records)), s.objects);
    forall keep1: nat, keep2: nat | Enabled(s', Crash(keep1, keep2))
      ensures Whole(RecoveredAfter(s', keep1, keep2), s'.objects) || !whole
    {
      if (if s.session.first then keep1 else keep2) == |s'.Pick(s.session.first).records| {
        LastImage(s, op, now, next, keep1, keep2);
      } else {
        OldCrash(s, op, now, next, keep1, keep2);
      }
    }
    LastImage(s, op, now, next, |s'.log1.records|, |s'.log2.records|);
    assert Enabled(s', Crash(|s'.log1.records|, |s'.log2.records|));
  }

  lemma LastImage(s: State, op: Op, now: nat, next: Pc, keep1: nat, keep2: nat)
    requires Inv(s) && s.session.Mounted? && !s.session.pc.Switching? && !s.session.pc.Syncing?
    requires var s' := Logged(s, op, now, next);
      && Enabled(s', Crash(keep1, keep2))
      && (if s.session.first then keep1 else keep2) == |s'.Pick(s.session.first).records|
    ensures RecoveredAfter(Logged(s, op, now, next), keep1, keep2)
      == Execute(op, Replay(s.Pick(s.session.first).records))
  {
    var first := s.session.first;
    var a, b := s.Pick(first), s.Pick(!first);
    var other := if first then keep2 else keep1;
    var r := Record(now, [op]);
    ReplayOne(a.records, r);
    assert (a.records + [r])[..|a.records| + 1] == a.records + [r];
    FirmPrefix(b, s.clock, other);
    NewerIsRecovered(a.records + [r], b.records[..other]);
  }

  lemma OldCrash(s: State, op: Op, now: nat, next: Pc, keep1: nat, keep2: nat)
    requires s.session.Mounted?
    requires var s' := Logged(s, op, now, next);
      && Enabled(s', Crash(keep1, keep2))
      && (if s.session.first then keep1 else keep2) < |s'.Pick(s.session.first).records|
    ensures Enabled(s, Crash(keep1, keep2))
    ensures RecoveredAfter(Logged(s, op, now, next), keep1, keep2) == RecoveredAfter(s, keep1, keep2)
  {
    var a := s.Pick(s.session.first).records;
    var keep := if s.session.first then keep1 else keep2;
    assert (a + [Record(now, [op])])[..keep] == a[..keep];
  }

  /** The image of the active log, which a crash may leave as it is, is whole. */
  lemma ActiveIsWhole(s: State)
    requires Inv(s) && Durable(s) && s.session.Mounted? && !s.session.pc.Switching?
    ensures Whole(Replay(s.Pick(s.session.first).records), s.objects)
  {
    ActiveLogIsRecovered(s);
    assert s.log1.records[..|s.log1.records|] == s.log1.records;
    assert s.log2.records[..|s.log2.records|] == s.log2.records;
    assert Enabled(s, Crash(|s.log1.records|, |s.log2.records|));
  }

  /** The op that a gentle call logs keeps the image whole. */
  lemma GentleOp(s: State, a: Action)
    requires Safe(s) && s.session.Mounted? && CanDo(s, a) && Logs(a) && Gentle(s, a)
    ensures Perform(s, a).session.Mounted? && Perform(s, a).session.pc.Syncing?
    ensures Whole(Execute(Perform(s, a).session.pc.op, Replay(s.Pick(s.session.first).records)), s.objects)
    ensures Holds(Perform(s, a).session.pc, s.session.files, s.objects)
  {
    ActiveIsWhole(s);
  }

  lemma LogStep(s: State, a: Action)
    requires Safe(s) && s.session.Mounted? && CanDo(s, a) && Logs(a) && Gentle(s, a)
    ensures Safe(Perform(s, a))
  {
    GentleOp(s, a);
    StepInv(s, Do(a));
    var pc := Perform(s, a).session.pc;
    LoggedDurable(s, pc.op, Perform(s, a).clock, pc.next);
  }

  lemma SnapshotStep(s: State, a: Action)
    requires Safe(s) && s.session.Mounted? && CanDo(s, a) && a.WriteSnapshot?
    ensures Safe(Perform(s, a))
  {
    StepInv(s, Do(a));
    var s' := Perform(s, a);
    forall keep1: nat, keep2: nat | Enabled(s', Crash(keep1, keep2))
      ensures Whole(RecoveredAfter(s', keep1, keep2), s'.objects)
    {
      SnapshotCrash(s, a, keep1, keep2);
    }
  }

  lemma SnapshotCrash(s: State, a: Action, keep1: nat, keep2: nat)
    requires Safe(s) && s.session.Mounted? && CanDo(s, a) && a.WriteSnapshot?
    requires Enabled(Perform(s, a), Crash(keep1, keep2))
    ensures Whole(RecoveredAfter(Perform(s, a), keep1, keep2), s.objects)
  {
    var im := Image(s.session.files, s.session.pc.garbage);
    var r := Record(a.now, Snapshot(im, a.fileOrder, a.garbageOrder));
    assert [] + [r] == [r];
    SnapshotIdentity(im, a.fileOrder, a.garbageOrder, a.now);
    if s.session.first {
      NewHead(r, s.log2, s.clock, keep1, keep2);
    } else {
      NewHead(r, s.log1, s.clock, keep2, keep1);
    }
  }

  /** It does not matter whether the snapshot survives: it stands for what the other log does. */
  lemma NewHead(r: Record, b: Log, clock: nat, keep: nat, other: nat)
    requires LogOk(b, clock) && Firm(b) && r.time > clock && Replay([r]) == Replay(b.records)
    requires keep <= 1 && b.synced <= other <= |b.records|
    ensures RecoveredImage(Recover([r][..keep], b.records[..other])) == Replay(b.records)
    ensures RecoveredImage(Recover(b.records[..other], [r][..keep])) == Replay(b.records)
  {
    FirmPrefix(b, clock, other);
    if keep == 0 {
      assert [r][..keep] == [];
      AloneIsRecovered(b.records[..other]);
    } else {
      assert [r][..keep] == [r];
      NewerIsRecovered([r], b.records[..other]);
    }
  }

  /** Objects come and go in the store; those that go belong to no file. */
  lemma StoreStep(s: State, a: Action)
    requires Safe(s) && s.session.Mounted? && CanDo(s, a) && (a.CollectObject? || a.WriteObject? || a.DeleteObject?)
    ensures Safe(Perform(s, a))
  {
    StepInv(s, Do(a));
    var s' := Perform(s, a);
    StoreKeeps(s, a);
    forall keep1: nat, keep2: nat | Enabled(s', Crash(keep1, keep2))
      ensures Whole(RecoveredAfter(s', keep1, keep2), s'.objects)
    {
      assert Enabled(s, Crash(keep1, keep2));
      CrashRecovers(s, keep1, keep2);
      assert RecoveredAfter(s, keep1, keep2).files == s.session.files;
      assert Whole(RecoveredAfter(s, keep1, keep2), s.objects);
    }
  }

  lemma StoreKeeps(s: State, a: Action)
    requires Safe(s) && s.session.Mounted? && CanDo(s, a) && (a.CollectObject? || a.WriteObject? || a.DeleteObject?)
    ensures var s' := Perform(s, a);
      && s'.log1 == s.log1 && s'.log2 == s.log2 && s'.session.Mounted? && s'.session.files == s.session.files
      && Holds(s'.session.pc, s'.session.files, s'.objects)
    ensures forall o :: o in s.objects && o !in Perform(s, a).objects ==> Unlinked(o, s.session.files)
  {
  }

  /** After a sync, an unmount or a crash there are fewer ways to crash. */
  ghost predicate Calms(step: Step) {
    step.Crash? || step == Do(Sync) || (step.Do? && step.action.Unmount?)
  }

  lemma FewerCrashes(s: State, step: Step, keep1: nat, keep2: nat)
    requires Enabled(s, step) && Calms(step) && Enabled(Apply(s, step), Crash(keep1, keep2)) && Inv(s)
    ensures Enabled(s, Crash(keep1, keep2))
    ensures RecoveredAfter(Apply(s, step), keep1, keep2) == RecoveredAfter(s, keep1, keep2)
  {
    var s' := Apply(s, step);
    if step.Crash? {
      assert s'.log1.records[..keep1] == s.log1.records[..keep1] && s'.log2.records[..keep2] == s.log2.records[..keep2];
    } else {
      assert s'.log1.records == s.log1.records && s'.log2.records == s.log2.records;
    }
  }

  lemma CalmHolds(s: State, step: Step)
    requires Enabled(s, step) && Calms(step)
    requires s.session.Mounted? ==> Holds(s.session.pc, s.session.files, s.objects)
    ensures var s' := Apply(s, step);
      s'.objects == s.objects && (s'.session.Mounted? ==> Holds(s'.session.pc, s'.session.files, s'.objects))
  {
  }

  lemma CalmStep(s: State, step: Step)
    requires Safe(s) && Enabled(s, step) && Calms(step)
    ensures Safe(Apply(s, step))
  {
    CalmHolds(s, step);
    StepInv(s, step);
    CalmIsDurable(s, step);
  }

  lemma CalmIsDurable(s: State, step: Step)
    requires Inv(s) && Durable(s) && Enabled(s, step) && Calms(step) && Apply(s, step).objects == s.objects
    ensures Durable(Apply(s, step))
  {
    forall keep1: nat, keep2: nat | Enabled(Apply(s, step), Crash(keep1, keep2))
      ensures Whole(RecoveredAfter(Apply(s, step), keep1, keep2), s.objects)
    {
      FewerCrashes(s, step, keep1, keep2);
    }
  }

  lemma MountStep(s: State)
    requires Safe(s) && Enabled(s, Mount) && SafeToMount(s)
    ensures Safe(Apply(s, Mount))
  {
    StepInv(s, Mount);
    var s' := Apply(s, Mount);
    var full1, full2 := |s.log1.records|, |s.log2.records|;
    assert s.log1.records[..full1] == s.log1.records && s.log2.records[..full2] == s.log2.records;
    assert Enabled(s, Crash(full1, full2));
    forall keep1: nat, keep2: nat | Enabled(s', Crash(keep1, keep2))
      ensures Whole(RecoveredAfter(s', keep1, keep2), s'.objects)
    {
      SafeMountKeeps(s, keep1, keep2);
    }
  }

  /** A step that can be taken, and a safe mount or a gentle call if it is a mount or a call. */
  ghost predicate Harmless(s: State, step: Step) {
    Enabled(s, step) && (step.Mount? ==> SafeToMount(s)) && (step.Do? ==> Gentle(s, step.action))
  }

  lemma StepIsSafe(s: State, step: Step)
    requires Safe(s) && Harmless(s, step)
    ensures Safe(Apply(s, step))
  {
    match step
    case Mount => MountStep(s);
    case Crash(_, _) => CalmStep(s, step);
    case Do(a) =>
      match a {
        case WriteSnapshot(_, _, _) => SnapshotStep(s, a);
        case CollectObject(_, _) => StoreStep(s, a);
        case WriteObject(_, _) => StoreStep(s, a);
        case DeleteObject(_, _) => StoreStep(s, a);
        case Sync => CalmStep(s, step);
        case Unmount(_) => CalmStep(s, step);
        case _ => LogStep(s, a);
      }
  }

  // ----------------------------------------------------------------- whole runs

  ghost predicate CallsAreGentle(states: seq<State>, steps: seq<Step>)
    requires |states| == |steps| + 1
  {
    forall i :: 0 <= i < |steps| && steps[i].Do? && states[i].session.Mounted? ==> Gentle(states[i], steps[i].action)
  }

  lemma {:induction false} RunIsSafe(name: Name, states: seq<State>, steps: seq<Step>, i: nat)
    requires IsRun(name, states, steps) && MountsAreSafe(states, steps) && CallsAreGentle(states, steps) && i < |states|
    ensures Safe(states[i])
  {
    if i > 0 {
      RunIsSafe(name, states, steps, i - 1);
      StepIsSafe(states[i - 1], steps[i - 1]);
    }
  }

  /**
    In every run of gentle calls, with store calls failing at will: every file has its object in
    the store, and after a crash at any point every file that is recovered has its object, which
    the next mount leaves alone.
   */
  lemma NoFileIsLost(name: Name, states: seq<State>, steps: seq<Step>, i: nat)
    requires IsRun(name, states, steps) && MountsAreSafe(states, steps) && CallsAreGentle(states, steps) && i < |states|
    ensures forall n :: n in Shown(states[i]) ==> Shown(states[i])[n] in states[i].objects
    ensures forall keep1, keep2 :: Enabled(states[i], Crash(keep1, keep2)) ==>
      Whole(RecoveredAfter(states[i], keep1, keep2), states[i].objects)
  {
    RunIsSafe(name, states, steps, i);
    ShownIsRecoverable(states[i]);
  }

  lemma ShownIsRecoverable(s: State)
    requires Safe(s)
    ensures forall n :: n in Shown(s) ==> Shown(s)[n] in s.objects
  {
    var keep1, keep2 := |s.log1.records|, |s.log2.records|;
    if s.session.Mounted? && s.session.pc.Syncing? {
      if s.session.first { keep1 := keep1 - 1; } else { keep2 := keep2 - 1; }
    }
    assert Enabled(s, Crash(keep1, keep2));
    CrashRecovers(s, keep1, keep2);
  }

  // ------------------------------------------------------ how a file is lost

  /** Harmless steps lead from s to s'. */
  ghost predicate Leads(s: State, steps: seq<Step>, s': State)
    decreases |steps|
  {
    if steps == [] then s == s' else Harmless(s, steps[0]) && Leads(Apply(s, steps[0]), steps[1..], s')
  }

  /** A file is there, and its object is not. */
  ghost predicate Dangles(s: State, n: Name) {
    n in Shown(s) && Shown(s)[n] !in s.objects
  }

  lemma {:induction false} Enumeration(names: set<Name>) returns (order: seq<Name>)
    ensures Enumerates(order, names)
  {
    if names == {} {
      order := [];
    } else {
      var x :| x in names;
      var rest := Enumeration(names - {x});
      order := [x] + rest;
    }
  }

  lemma EnumerationFrom(names: set<Name>, x: Name) returns (order: seq<Name>)
    requires x in names
    ensures Enumerates(order, names) && order != [] && order[0] == x
  {
    var rest := Enumeration(names - {x});
    order := [x] + rest;
  }

  /** A mount collects garbage without asking whether it is linked. */
  lemma LinkedGarbageIsLost(s: State, n: Name) returns (steps: seq<Step>, s': State)
    requires s.session.Unmounted? && Enabled(s, Mount) && SafeToMount(s)
    requires var im := RecoveredImage(Recover(s.log1.records, s.log2.records));
      n in im.files && im.files[n] in im.garbage
    ensures Leads(s, steps, s') && Dangles(s', n)
  {
    var im := RecoveredImage(Recover(s.log1.records, s.log2.records));
    var fileOrder := Enumeration(im.files.Keys);
    var garbageOrder := EnumerationFrom(im.garbage, im.files[n]);
    var s1 := Apply(s, Mount);
    var snapshot := Do(WriteSnapshot(s.clock + 1, fileOrder, garbageOrder));
    var s2 := Apply(s1, snapshot);
    var collect := Do(CollectObject(true, true));
    s' := Apply(s2, collect);
    steps := [Mount, snapshot, collect];
    assert Leads(s2, [collect], s') && [snapshot, collect][1..] == [collect];
    assert Leads(s1, [snapshot, collect], s') && steps[1..] == [snapshot, collect];
  }

  /** A put, create or copy whose first record is all that a crash leaves of it. */
  lemma Interrupted(s: State, a: Action) returns (crash: Step, s': State)
    requires Inv(s) && s.session.Mounted? && CanDo(s, a) && a.Create?
    ensures crash.Crash? && Leads(Perform(s, a), [Do(Sync), crash], s')
    ensures s'.session.Unmounted? && Enabled(s', Mount) && SafeToMount(s')
    ensures RecoveredImage(Recover(s'.log1.records, s'.log2.records)) == Image(FilesBy(s, a), GarbageBy(s, a))
  {
    StepInv(s, Do(a));
    ActionLogs(s, a);
    crash, s' := SyncThenCrash(Perform(s, a));
  }

  lemma SyncThenCrash(s: State) returns (crash: Step, s': State)
    requires Inv(s) && s.session.Mounted? && s.session.pc.Syncing?
    ensures crash.Crash? && Leads(s, [Do(Sync), crash], s')
    ensures s'.session.Unmounted? && Enabled(s', Mount) && SafeToMount(s')
    ensures RecoveredImage(Recover(s'.log1.records, s'.log2.records)) == Replay(s.Pick(s.session.first).records)
  {
    var s2 := Perform(s, Sync);
    StepInv(s, Do(Sync));
    SyncedImage(s);
    crash := Crash(|s2.log1.records|, |s2.log2.records|);
    s' := Apply(s2, crash);
    CrashedWhole(s2);
    StaysSafe(s2, crash);
    LeadsOn(s2, crash, [], s');
    LeadsOn(s, Do(Sync), [crash], s');
  }

  /** If it goes to an object in use, a file is lost. */
  lemma CreateLoses(s: State, a: Action, m: Name) returns (steps: seq<Step>, s': State)
    requires Inv(s) && s.session.Mounted? && CanDo(s, a) && a.Create?
    requires m in s.session.files && s.session.files[m] == ObjectFor(s, s.session.files, a.name)
    ensures Leads(Perform(s, a), steps, s') && Dangles(s', m)
  {
    var crash, s1 := Interrupted(s, a);
    var rest;
    rest, s' := LinkedGarbageIsLost(s1, m);
    steps := [Do(Sync), crash] + rest;
    LeadsFurther(Perform(s, a), [Do(Sync), crash], s1, rest, s');
  }

  lemma {:induction false} LeadsFurther(s: State, steps: seq<Step>, s1: State, rest: seq<Step>, s': State)
    requires Leads(s, steps, s1) && Leads(s1, rest, s')
    ensures Leads(s, steps + rest, s')
    decreases |steps|
  {
    if steps == [] {
      assert steps + rest == rest;
    } else {
      LeadsFurther(Apply(s, steps[0]), steps[1..], s1, rest, s');
      assert [steps[0]] + (steps[1..] + rest) == steps + rest;
      LeadsOn(s, steps[0], steps[1..] + rest, s');
    }
  }

  lemma CrashedWhole(s: State)
    requires Inv(s)
    ensures var s' := Apply(s, Crash(|s.log1.records|, |s.log2.records|));
      Recover(s'.log1.records, s'.log2.records) == Recover(s.log1.records, s.log2.records)
      && !Recover(s'.log1.records, s'.log2.records).Corruption?
  {
    CrashRecovers(s, |s.log1.records|, |s.log2.records|);
    assert s.log1.records[..|s.log1.records|] == s.log1.records;
    assert s.log2.records[..|s.log2.records|] == s.log2.records;
  }

  lemma LeadsOn(s: State, step: Step, rest: seq<Step>, s': State)
    requires Harmless(s, step) && Leads(Apply(s, step), rest, s')
    ensures Leads(s, [step] + rest, s')
  {
    assert ([step] + rest)[1..] == rest;
  }

  /** Deleting a file whose object another one shares takes it from that one. */
  lemma DeleteLoses(s: State, a: Action, m: Name) returns (steps: seq<Step>, s': State)
    requires s.session.Mounted? && CanDo(s, a) && a.Delete?
    requires m in s.session.files && m != a.name && s.session.files[m] == s.session.files[a.name]
    ensures Leads(Perform(s, a), steps, s') && Dangles(s', m)
  {
    var s1 := Perform(s, a);
    var s2 := Perform(s1, Sync);
    var delete := Do(DeleteObject(true, true));
    s' := Apply(s2, delete);
    steps := [Do(Sync), delete];
    LeadsOn(s2, delete, [], s');
    LeadsOn(s1, Do(Sync), [delete], s');
  }

  /** Every call that is not gentle can lose a file. */
  lemma UngentleLoses(s: State, a: Action) returns (steps: seq<Step>, s': State, m: Name)
    requires Inv(s) && s.session.Mounted? && CanDo(s, a) && !Gentle(s, a)
    ensures Leads(Perform(s, a), steps, s') && m in Shown(s) && Dangles(s', m)
  {
    var files := s.session.files;
    if a.Create? {
      m :| m in files && files[m] == ObjectFor(s, files, a.name);
      steps, s' := CreateLoses(s, a, m);
    } else {
      m :| m in files - {a.name} && (files - {a.name})[m] == files[a.name];
      steps, s' := DeleteLoses(s, a, m);
    }
  }

  lemma {:induction false} LeadsToSafe(s: State, steps: seq<Step>, s': State)
    requires Safe(s) && Leads(s, steps, s')
    ensures Safe(s')
    decreases |steps|
  {
    if steps != [] {
      StepIsSafe(s, steps[0]);
      LeadsToSafe(Apply(s, steps[0]), steps[1..], s');
    }
  }

  ghost predicate CanDangle(s: State) {
    exists steps, s', n :: Leads(s, steps, s') && Dangles(s', n)
  }

  /** A call is gentle exactly if no harmless steps after it lead to a file without its object. */
  lemma GentleIff(s: State, a: Action)
    requires Safe(s) && s.session.Mounted? && CanDo(s, a)
    ensures Gentle(s, a) <==> !CanDangle(Perform(s, a))
  {
    if Gentle(s, a) {
      StepIsSafe(s, Do(a));
      forall steps, s', n | Leads(Perform(s, a), steps, s') ensures !Dangles(s', n) {
        LeadsToSafe(Perform(s, a), steps, s');
        ShownIsRecoverable(s');
      }
    } else {
      var steps, s', m := UngentleLoses(s, a);
      assert Leads(Perform(s, a), steps, s') && Dangles(s', m);
    }
  }

  /** A file that is renamed keeps the object named after its first name: creating a file of
      that name again is not gentle. */
  lemma RenamedNameIsTaken(name: Name, states: seq<State>, steps: seq<Step>, i: nat, source: Name, dest: Name, t1: nat,
      t2: nat, t3: nat)
    requires IsRun(name, states, steps) && MountsAreSafe(states, steps)
    requires i + 4 <= |steps|
    requires steps[i] == Do(Rename(source, dest, t1)) && steps[i + 1] == Do(Sync)
    requires steps[i + 2] == Do(RenameUnlink(t2)) && steps[i + 3] == Do(Sync)
    requires source in Shown(states[i]) && Shown(states[i])[source] == name + [95] + source
    ensures states[i + 4].session.Mounted? && !Gentle(states[i + 4], Create(source, t3))
  {
    RenameMoves(name, states, steps, i, source, dest, t1, t2);
    NameStays(name, states, steps, i + 4);
    var files := Shown(states[i + 4]);
    assert dest in files && files[dest] == ObjectFor(states[i + 4], files, source);
  }

  lemma RunOn(name: Name, states: seq<State>, steps: seq<Step>, step: Step)
    requires IsRun(name, states, steps) && MountsAreSafe(states, steps)
    requires Enabled(states[|steps|], step) && (step.Mount? ==> SafeToMount(states[|steps|]))
    ensures IsRun(name, states + [Apply(states[|steps|], step)], steps + [step])
    ensures MountsAreSafe(states + [Apply(states[|steps|], step)], steps + [step])
  {
  }

  lemma {:induction false} RunToTheEnd(name: Name, states: seq<State>, steps: seq<Step>, rest: seq<Step>, s': State)
    returns (states': seq<State>, steps': seq<Step>)
    requires IsRun(name, states, steps) && MountsAreSafe(states, steps) && Leads(states[|steps|], rest, s')
    ensures IsRun(name, states', steps') && MountsAreSafe(states', steps') && states'[|steps'|] == s'
    decreases |rest|
  {
    if rest == [] {
      states', steps' := states, steps;
    } else {
      RunOn(name, states, steps, rest[0]);
      states', steps' :=
        RunToTheEnd(name, states + [Apply(states[|steps|], rest[0])], steps + [rest[0]], rest[1..], s');
    }
  }

  /** A run that loses a file: it is written, then overwritten, and the set crashes during that. */
  lemma OverwritingCanLose(name: Name) returns (states: seq<State>, steps: seq<Step>)
    ensures IsRun(name, states, steps) && MountsAreSafe(states, steps) && Dangles(states[|steps|], [97])
  {
    states := seq(8, i requires 0 <= i < 8 => LosingState(name, i));
    steps := seq(7, i requires 0 <= i < 7 => LosingStep(i));
    forall i | 0 <= i < |steps| ensures Enabled(states[i], steps[i]) && states[i + 1] == Apply(states[i], steps[i]) {
      LosingRun(name, i);
    }
    RunInv(name, states, steps, 7);
    var a := Create([97], 4);
    var rest, s' := CreateLoses(states[7], a, [97]);
    RunOn(name, states, steps, Do(a));
    states, steps := RunToTheEnd(name, states + [Perform(states[7], a)], steps + [Do(a)], rest, s');
  }
}
