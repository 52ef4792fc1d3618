/**
  What the operations of a file set do to its files and its garbage, over whole runs: the
  calls of PutFile, NewWritableFile, CopyFile, Rename and DeleteFile, and what survives of
  them when a crash comes in between.
 */
module OfsOperations {
  import opened OfsRecords
  import opened OfsMachine
  import opened OfsSafety

  /** The objects that a mount would collect. */
  ghost function Garbage(s: State): set<Name> {
    RecoveredImage(Recover(s.log1.records, s.log2.records)).garbage
  }

  /** The actions that append a record of one op. */
  predicate Logs(a: Action) {
    a.MarkCollected? || a.Create? || a.CommitLink? || a.Rename? || a.RenameUnlink? || a.Delete? || a.MarkDeleted?
  }

  /** The object a new file gets: the one its name is linked to, or the set's name, '_' and the file's. */
  function ObjectFor(s: State, files: map<Name, Name>, base: Name): Name {
    if base in files then files[base] else s.name + [95] + base
  }

  /** The files once the record of an action is there. */
  ghost function FilesBy(s: State, a: Action): map<Name, Name>
    requires s.session.Mounted? && CanDo(s, a)
  {
    var files, pc := s.session.files, s.session.pc;
    match a
    case CommitLink(_) => files[pc.name := pc.obj]
    case Rename(source, dest, _) => files[dest := files[source]]
    case RenameUnlink(_) => files - {pc.source}
    case Delete(name, _) => files - {name}
    case _ => files
  }

  /** The garbage once the record of an action is there. */
  ghost function GarbageBy(s: State, a: Action): set<Name>
    requires s.session.Mounted? && CanDo(s, a)
  {
    var files, pc := s.session.files, s.session.pc;
    match a
    case Create(name, _) => Garbage(s) + {ObjectFor(s, files, name)}
    case CommitLink(_) => Garbage(s) - {pc.obj}
    case Rename(source, _, _) => Garbage(s) - {files[source]}
    case Delete(name, _) => Garbage(s) + {files[name]}
    case MarkDeleted(_) => Garbage(s) - {pc.obj}
    case MarkCollected(_) => Garbage(s) - {pc.obj}
    case _ => Garbage(s)
  }

  /** Between operations and amid them, recovery without a crash would replay the active log. */
  lemma ActiveLogIsRecovered(s: State)
    requires Inv(s) && s.session.Mounted? && !s.session.pc.Switching?
    ensures RecoveredImage(Recover(s.log1.records, s.log2.records)) == Replay(s.Pick(s.session.first).records)
  {
    NewerIsRecovered(s.Pick(s.session.first).records, s.Pick(!s.session.first).records);
  }

  lemma LoggedOne(s: State, op: Op, now: nat, next: Pc)
    requires s.session.Mounted?
    ensures var s' := Logged(s, op, now, next);
      && s'.session.Mounted? && s'.session.pc.Syncing? && s'.session.files == s.session.files
      && Replay(s'.Pick(s'.session.first).records) == Execute(op, Replay(s.Pick(s.session.first).records))
  {
    ReplayOne(s.Pick(s.session.first).records, Record(now, [op]));
  }

  /** The image after an action has logged its record. */
  lemma LoggedImage(s: State, a: Action)
    requires s.session.Mounted? && CanDo(s, a) && Logs(a)
    requires Replay(s.Pick(s.session.first).records) == Image(s.session.files, Garbage(s))
    ensures var s' := Perform(s, a);
      && s'.session.Mounted? && s'.session.pc.Syncing? && s'.session.files == s.session.files
      && Replay(s'.Pick(s'.session.first).records) == Image(FilesBy(s, a), GarbageBy(s, a))
  {
    var files, pc := s.session.files, s.session.pc;
    match a
    case MarkCollected(now) => LoggedOne(s, ObjDeleted(pc.obj), now, Collecting(pc.todo));
    case Create(name, now) =>
      LoggedOne(s, TryCreateObj(Target(s.name, files, name)), now, Creating(name, Target(s.name, files, name)));
    case CommitLink(now) => LoggedOne(s, Link(pc.name, pc.obj), now, READY);
    case Rename(source, dest, now) => LoggedOne(s, Link(dest, files[source]), now, Renaming(source, dest));
    case RenameUnlink(now) => LoggedOne(s, Unlink(pc.source), now, READY);
    case Delete(name, now) => LoggedOne(s, UnlinkAndDel(name, files[name]), now, Deleting(files[name]));
    case MarkDeleted(now) => LoggedOne(s, ObjDeleted(pc.obj), now, READY);
  }

  /** The record of an action is then synced, or the set crashes: no other step is possible. */
  lemma SyncOrCrash(s: State, step: Step)
    requires s.session.Mounted? && s.session.pc.Syncing? && Enabled(s, step)
    ensures step == Do(Sync) || step.Crash?
  {
  }

  /**
    In every run, an action that logs takes effect at once or not at all.  Once its record is
    synced, files and garbage are what the action should make of them; after a crash before
    that, the files are those or the old ones.
   */
  lemma ActionsAreAtomic(name: Name, states: seq<State>, steps: seq<Step>, i: nat, a: Action)
    requires IsRun(name, states, steps) && MountsAreSafe(states, steps) && i + 1 < |steps|
    requires steps[i] == Do(a) && Logs(a)
    ensures steps[i + 1] == Do(Sync) || steps[i + 1].Crash?
    ensures steps[i + 1] == Do(Sync) ==>
      Shown(states[i + 2]) == FilesBy(states[i], a) && Garbage(states[i + 2]) == GarbageBy(states[i], a)
    ensures Shown(states[i + 2]) == FilesBy(states[i], a) || Shown(states[i + 2]) == Shown(states[i])
  {
    RunInv(name, states, steps, i);
    RunInv(name, states, steps, i + 1);
    ActionLogs(states[i], a);
    SyncOrCrash(states[i + 1], steps[i + 1]);
    if steps[i + 1] == Do(Sync) {
      SyncedImage(states[i + 1]);
    } else {
      CrashedFiles(states[i + 1], steps[i + 1].keep1, steps[i + 1].keep2);
    }
  }

  lemma ActionLogs(s: State, a: Action)
    requires Inv(s) && s.session.Mounted? && CanDo(s, a) && Logs(a)
    ensures var s' := Perform(s, a);
      && s'.session.Mounted? && s'.session.pc.Syncing? && s'.session.files == s.session.files
      && Replay(s'.Pick(s'.session.first).records) == Image(FilesBy(s, a), GarbageBy(s, a))
  {
    ActiveLogIsRecovered(s);
    LoggedImage(s, a);
  }

  /** A crash before a record is synced gives the files with it or without it. */
  lemma CrashedFiles(s: State, keep1: nat, keep2: nat)
    requires Inv(s) && s.session.Mounted? && s.session.pc.Syncing? && Enabled(s, Crash(keep1, keep2))
    ensures var files := Shown(Apply(s, Crash(keep1, keep2)));
      files == s.session.files || files == Replay(s.Pick(s.session.first).records).files
  {
    CrashRecovers(s, keep1, keep2);
    PendingFiles(s);
  }

  lemma SyncedImage(s: State)
    requires Inv(s) && s.session.Mounted? && s.session.pc.Syncing?
    ensures var s' := Perform(s, Sync);
      Image(Shown(s'), Garbage(s')) == Replay(s.Pick(s.session.first).records)
  {
    SyncInv(s);
    ActiveLogIsRecovered(Perform(s, Sync));
  }

  /** What a crash recovers if it keeps a record that was not yet synced. */
  lemma PendingFiles(s: State)
    requires Inv(s) && s.session.Mounted? && s.session.pc.Syncing?
    ensures FilesAt(s.session.files, s.session.pc, |s.Pick(s.session.first).records|, |s.Pick(s.session.first).records|)
      == Replay(s.Pick(s.session.first).records).files
  {
  }

  /** Every change of the files is the work of one of four actions: it comes with the sync of
      its record, or with a crash that keeps it, and makes of the files what the action should. */
  lemma EveryChangeIsAnAction(name: Name, states: seq<State>, steps: seq<Step>, i: nat)
    requires IsRun(name, states, steps) && MountsAreSafe(states, steps) && i < |steps|
    requires Shown(states[i + 1]) != Shown(states[i])
    ensures i > 0 && (steps[i] == Do(Sync) || steps[i].Crash?) && steps[i - 1].Do?
    ensures var a := steps[i - 1].action;
      && (a.CommitLink? || a.Rename? || a.RenameUnlink? || a.Delete?)
      && Shown(states[i + 1]) == FilesBy(states[i - 1], a)
  {
    if steps[i] != Do(Sync) && !steps[i].Crash? {
      OnlySyncChangesFiles(name, states, steps, i);
    }
    if steps[i].Crash? && !(states[i].session.Mounted? && states[i].session.pc.Syncing?) {
      OnlySyncChangesFiles(name, states, steps, i);
    }
    SyncingFollowsLogging(name, states, steps, i);
    ActionsAreAtomic(name, states, steps, i - 1, steps[i - 1].action);
    LoggingKeepsFiles(name, states, steps, i - 1);
  }

  lemma LoggingKeepsFiles(name: Name, states: seq<State>, steps: seq<Step>, i: nat)
    requires IsRun(name, states, steps) && MountsAreSafe(states, steps) && i < |steps|
    requires steps[i].Do? && Logs(steps[i].action)
    ensures Shown(states[i + 1]) == Shown(states[i])
  {
    OnlySyncChangesFiles(name, states, steps, i);
  }

  lemma SyncingFollowsLogging(name: Name, states: seq<State>, steps: seq<Step>, i: nat)
    requires IsRun(name, states, steps) && MountsAreSafe(states, steps) && i < |states|
    requires states[i].session.Mounted? && states[i].session.pc.Syncing?
    ensures i > 0 && steps[i - 1].Do? && Logs(steps[i - 1].action)
  {
    if i > 0 {
      RunInv(name, states, steps, i - 1);
      OnlyLoggingSyncs(states[i - 1], steps[i - 1]);
    }
  }

  lemma OnlyLoggingSyncs(s: State, step: Step)
    requires Inv(s) && Enabled(s, step)
    requires Apply(s, step).session.Mounted? && Apply(s, step).session.pc.Syncing?
    ensures step.Do? && Logs(step.action)
  {
  }

  // ------------------------------------------------------------- whole operations

  /** A step that neither logs nor syncs leaves files and object names alone. */
  lemma StoreStepKeeps(s: State, a: Action)
    requires s.session.Mounted? && CanDo(s, a) && (a.WriteObject? || a.DeleteObject?)
    ensures var s' := Perform(s, a);
      s'.session.Mounted? && s'.session.files == s.session.files && s'.log1 == s.log1 && s'.log2 == s.log2
  {
  }

  /** PutFile, NewWritableFile and CopyFile, when the store call succeeds: the name is linked to
      its old object or to a new one that carries the names of set and file. */
  lemma CreateLinks(
    name: Name, states: seq<State>, steps: seq<Step>, i: nat, base: Name, t1: nat, there: bool, t2: nat)
    requires IsRun(name, states, steps) && MountsAreSafe(states, steps)
    requires i + 5 <= |steps|
    requires steps[i] == Do(Create(base, t1)) && steps[i + 1] == Do(Sync)
    requires steps[i + 2] == Do(WriteObject(true, there)) && steps[i + 3] == Do(CommitLink(t2))
    requires steps[i + 4] == Do(Sync)
    ensures var files := Shown(states[i]);
      var obj := if base in files then files[base] else name + [95] + base;
      && Shown(states[i + 5]) == files[base := obj] && obj in states[i + 5].objects
      && Garbage(states[i + 5]) == Garbage(states[i]) - {obj}
  {
    NameStays(name, states, steps, i);
    ActionsAreAtomic(name, states, steps, i, Create(base, t1));
    StoreStepKeeps(states[i + 2], WriteObject(true, there));
    ActionsAreAtomic(name, states, steps, i + 3, CommitLink(t2));
  }

  lemma {:induction false} NameStays(name: Name, states: seq<State>, steps: seq<Step>, i: nat)
    requires IsRun(name, states, steps) && i < |states|
    ensures states[i].name == name
  {
    if i > 0 { NameStays(name, states, steps, i - 1); }
  }

  /** Rename: the destination takes over the object of the source, and the source is gone. */
  lemma RenameMoves(
    name: Name, states: seq<State>, steps: seq<Step>, i: nat, source: Name, dest: Name, t1: nat, t2: nat)
    requires IsRun(name, states, steps) && MountsAreSafe(states, steps)
    requires i + 4 <= |steps|
    requires steps[i] == Do(Rename(source, dest, t1)) && steps[i + 1] == Do(Sync)
    requires steps[i + 2] == Do(RenameUnlink(t2)) && steps[i + 3] == Do(Sync)
    ensures var files := Shown(states[i]);
      && source in files && dest !in files
      && Shown(states[i + 4]) == files[dest := files[source]] - {source}
      && states[i + 4].objects == states[i].objects
  {
    ActionsAreAtomic(name, states, steps, i, Rename(source, dest, t1));
    ActionsAreAtomic(name, states, steps, i + 2, RenameUnlink(t2));
  }

  /** DeleteFile: the name is gone as soon as its record is synced; once the store has deleted
      the object and that is marked, the object is neither in the store nor garbage. */
  lemma DeleteUnlinks(name: Name, states: seq<State>, steps: seq<Step>, i: nat, base: Name, t1: nat)
    requires IsRun(name, states, steps) && MountsAreSafe(states, steps)
    requires i + 2 <= |steps|
    requires steps[i] == Do(Delete(base, t1)) && steps[i + 1] == Do(Sync)
    ensures var files := Shown(states[i]);
      && base in files && Shown(states[i + 2]) == files - {base}
      && Garbage(states[i + 2]) == Garbage(states[i]) + {files[base]}
  {
    ActionsAreAtomic(name, states, steps, i, Delete(base, t1));
  }

  lemma DeleteCompletes(
    name: Name, states: seq<State>, steps: seq<Step>, i: nat, base: Name, t1: nat, gone: bool, t2: nat)
    requires IsRun(name, states, steps) && MountsAreSafe(states, steps)
    requires i + 5 <= |steps|
    requires steps[i] == Do(Delete(base, t1)) && steps[i + 1] == Do(Sync)
    requires steps[i + 2] == Do(DeleteObject(true, gone)) && steps[i + 3] == Do(MarkDeleted(t2))
    requires steps[i + 4] == Do(Sync)
    ensures var files := Shown(states[i]);
      && base in files && Shown(states[i + 5]) == files - {base}
      && files[base] !in states[i + 5].objects && Garbage(states[i + 5]) == Garbage(states[i]) - {files[base]}
  {
    ActionsAreAtomic(name, states, steps, i, Delete(base, t1));
    StoreStepKeeps(states[i + 2], DeleteObject(true, gone));
    ActionsAreAtomic(name, states, steps, i + 3, MarkDeleted(t2));
  }

  /** Garbage that has been collected and marked is garbage no more. */
  lemma CollectedIsForgotten(name: Name, states: seq<State>, steps: seq<Step>, i: nat, gone: bool, now: nat)
    requires IsRun(name, states, steps) && MountsAreSafe(states, steps)
    requires i + 3 <= |steps|
    requires steps[i] == Do(CollectObject(true, gone)) && steps[i + 1] == Do(MarkCollected(now))
    requires steps[i + 2] == Do(Sync)
    ensures var pc := states[i].session.pc;
      && pc.Collecting? && pc.todo != [] && pc.todo[0] !in states[i + 3].objects
      && Shown(states[i + 3]) == Shown(states[i]) && Garbage(states[i + 3]) == Garbage(states[i]) - {pc.todo[0]}
  {
    ActionsAreAtomic(name, states, steps, i + 1, MarkCollected(now));
  }
}
