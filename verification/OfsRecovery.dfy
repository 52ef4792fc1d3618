/**
  Recovery of a file set from the bytes of its two log files.  It joins the three layers:
  the file set's machine says which records a log holds, the record format says what bytes
  they are, and the log format says how a file holds them and what a cut leaves.
 */
module OfsRecovery {
  import opened Coding
  import opened LogReader
  import opened OfsBytes
  import opened OfsMachine
  import opened OfsRecords
  import opened OfsSafety

  import LogAssembly
  import LogFormat
  import LogWriter

  /** The file a log writer makes of these records. */
  function FileOf(sum: LogFormat.Checksum, log: seq<Record>): Bytes
    requires Readable(log)
  {
    LogFormat.Image(LogFormat.StoreOf(sum), LogFormat.Log(EncodeLog(log), 0), 0)
  }

  /** LogRecord: a record appended to the file of a log gives the file of the longer log. */
  method LogRecord(w: LogWriter.Writer, r: Record, ghost log: seq<Record>)
    requires w.Valid() && Readable(log) && Readable([r]) && w.dest == FileOf(w.sum, log)
    modifies w
    ensures w.Valid() && Readable(log + [r]) && w.dest == FileOf(w.sum, log + [r])
  {
    assert r in [r];
    var record := Encode(r);
    assert EncodeLog(log + [r]) == EncodeLog(log) + [record];
    LogFormat.AddedRecord(LogFormat.StoreOf(w.sum), EncodeLog(log), record, w.dest);
    w.AddRecord(record);
  }

  /** How many of the log's records are whole in a file of n bytes. */
  ghost function Surviving(log: seq<Record>, n: nat): (k: nat)
    requires Readable(log)
    ensures k <= |log|
  {
    LogAssembly.Whole(EncodeLog(log), 0, n)
  }

  lemma SurvivingRecords(log: seq<Record>, n: nat)
    requires Readable(log)
    ensures Readable(log[..Surviving(log, n)])
    ensures LogAssembly.Kept(EncodeLog(log), 0, n, 0) == EncodeLog(log[..Surviving(log, n)])
  {
    LogAssembly.KeptIsPrefix(EncodeLog(log), 0, n);
    assert EncodeLog(log)[..Surviving(log, n)] == EncodeLog(log[..Surviving(log, n)]);
  }

  /** A file that still holds the bytes of the first k records holds those records. */
  lemma SurvivesSync(sum: LogFormat.Checksum, log: seq<Record>, k: nat, n: nat)
    requires Readable(log) && k <= |log| && |FileOf(sum, log[..k])| <= n
    ensures k <= Surviving(log, n)
  {
    var bytes := EncodeLog(log);
    assert EncodeLog(log[..k]) == bytes[..k];
    var fs := LogFormat.Log(bytes[..k], 0);
    LogFormat.LogLaid(bytes[..k], 0);
    LogFormat.LaidAscends(fs, 0);
    LogFormat.ImageLength(LogFormat.StoreOf(sum), fs, 0);
    LogAssembly.WholeAtLeast(bytes, 0, n, k);
  }

  lemma FirstRecord(log: seq<Record>)
    requires Readable(log) && log != []
    ensures |EncodeLog(log)[0]| >= 8 && FixedValue(EncodeLog(log)[0][..8]) == FirstTime(log)
  {
    assert log[0] in log;
    FixedWidths();
    RecordRoundTrip(log[0], EMPTY);
  }

  /** Access: the time of the first record of a log file, 0 if it has none. */
  method Access(file: Bytes, sum: LogFormat.Checksum, ghost log: seq<Record>) returns (ok: bool, time: nat)
    requires Readable(log) && file <= FileOf(sum, log)
    ensures ok && time == FirstTime(log[..Surviving(log, |file|)])
  {
    ghost var left := log[..Surviving(log, |file|)];
    SurvivingRecords(log, |file|);
    var r := new Reader(file, sum, 0, true, EncodeLog(log));
    var found, record, _, _, _ := ReadNext(r, EncodeLog(log), 0, EncodeLog(left));
    if !found {
      return r.drops == 0, 0;
    }
    FirstRecord(left);
    ok, time := |record| >= 8, 0;
    if ok {
      time := FixedValue(record[..8]);
    }
  }

  lemma ReplayMore(done: seq<Bytes>, record: Bytes)
    ensures ReplayBytes(done + [record])
         == match ReplayBytes(done) case Corrupt => Corrupt case Done(im) => RedoSpec(record, im)
  {
    assert (done + [record])[..|done|] == done;
  }

  /** The loop of RecoverFileSet: redo the records of a log file one by one. */
  method ReplayFile(file: Bytes, sum: LogFormat.Checksum, ghost log: seq<Record>) returns (im: Redone)
    requires Readable(log) && file <= FileOf(sum, log)
    ensures im == Done(Replay(log[..Surviving(log, |file|)]))
  {
    ghost var left := log[..Surviving(log, |file|)];
    SurvivingRecords(log, |file|);
    ReplayFromBytes(left);
    var r := new Reader(file, sum, 0, true, EncodeLog(log));
    ghost var rs, e, done, kept := EncodeLog(log), 0, [], EncodeLog(left);
    im := Done(EMPTY);
    var ok := true;
    while ok && im.Done?
      invariant r.Valid() && r.intact && r.file == file && r.initialOffset == 0 && r.drops == 0
      invariant ok ==> r.c.todo == LogFormat.Log(rs, e) && !r.resyncing && kept == LogAssembly.Kept(rs, e, |file|, 0)
      invariant !ok ==> kept == []
      invariant done + kept == EncodeLog(left) && im == ReplayBytes(done)
      decreases ok, |rs|
    {
      var record;
      ghost var kept';
      ok, record, rs, e, kept' := ReadNext(r, rs, e, kept);
      if ok {
        im := RedoUndo(record, im.image);
        ReplayMore(done, record);
        Shift(done, record, kept');
        done := done + [record];
      }
      kept := kept';
    }
    if im.Corrupt? {
      CorruptStays(done, kept);
    } else {
      assert done + [] == done;
    }
    if r.drops != 0 {
      im := Corrupt;
    }
  }

  lemma {:induction false} CorruptStays(done: seq<Bytes>, more: seq<Bytes>)
    requires ReplayBytes(done).Corrupt?
    ensures ReplayBytes(done + more).Corrupt?
    decreases more
  {
    if more == [] {
      assert done + more == done;
    } else {
      ReplayMore(done, more[0]);
      CorruptStays(done + [more[0]], more[1..]);
      assert done + [more[0]] + more[1..] == done + more;
    }
  }

  /** RecoverFileSet on two log files, each cut anywhere: what it finds is what the machine
      recovers from the records that are whole. */
  method RecoverFileSet(
    file1: Bytes, file2: Bytes, sum: LogFormat.Checksum, ghost log1: seq<Record>, ghost log2: seq<Record>)
    returns (r: Recovery)
    requires Readable(log1) && file1 <= FileOf(sum, log1)
    requires Readable(log2) && file2 <= FileOf(sum, log2)
    ensures r == Recover(log1[..Surviving(log1, |file1|)], log2[..Surviving(log2, |file2|)])
  {
    var ok1, time1 := Access(file1, sum, log1);
    var ok2, time2 := Access(file2, sum, log2);
    if !ok1 || !ok2 {
      return Corruption;
    }
    if time1 == 0 && time2 == 0 {
      return NotFound;
    } else if time1 == time2 {
      return Corruption;
    }
    var im;
    if time1 > time2 {
      im := ReplayFile(file1, sum, log1);
    } else {
      im := ReplayFile(file2, sum, log2);
    }
    match im {
      case Corrupt => r := Corruption;
      case Done(image) => r := Recovered(image, time1 > time2);
    }
  }

  /** What a crash leaves of the file of a log: all the bytes that were synced, and any
      number of those that follow.  Every log of a run is readable if its records fit
      their fields. */
  ghost predicate Leaves(sum: LogFormat.Checksum, log: Log, file: Bytes) {
    && Readable(log.records) && log.synced <= |log.records|
    && file <= FileOf(sum, log.records) && |FileOf(sum, log.records[..log.synced])| <= |file|
  }

  /**
    Crash recovery down to the bytes.  At every point of every run, let a crash cut both
    log files at any byte past what was synced: recovery from the two files rebuilds the
    files as of the last record that is whole, and accounts for every object.
   */
  method RecoverAfterCrash(
    file1: Bytes, file2: Bytes, sum: LogFormat.Checksum,
    ghost name: Name, ghost states: seq<State>, ghost steps: seq<Step>, ghost i: nat)
    returns (r: Recovery)
    requires IsRun(name, states, steps) && MountsAreSafe(states, steps) && i < |states|
    requires Leaves(sum, states[i].log1, file1) && Leaves(sum, states[i].log2, file2)
    ensures var s := states[i];
      var keep1, keep2 := Surviving(s.log1.records, |file1|), Surviving(s.log2.records, |file2|);
      Enabled(s, Crash(keep1, keep2)) && Recovers(r, FilesAsOf(s, keep1, keep2), s.objects)
  {
    ghost var s := states[i];
    SurvivesSync(sum, s.log1.records, s.log1.synced, |file1|);
    SurvivesSync(sum, s.log2.records, s.log2.synced, |file2|);
    r := RecoverFileSet(file1, file2, sum, s.log1.records, s.log2.records);
    EveryCrashRecovers(name, states, steps, i, Surviving(s.log1.records, |file1|), Surviving(s.log2.records, |file2|));
  }
}
