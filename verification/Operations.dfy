/** The engine's multi-step operations as runs of the protocol, one lemma per stage. */
module Operations {
  import opened Bytes
  import opened Bloom
  import opened TableFormat
  import opened Tables
  import opened Views
  import opened Storage
  import opened Protocol
  import opened ProtocolProofs
  import ProtocolSteps
  import Runs
  import WalProofs
  import SsTableFile
  import L = WalFormat
  import M = ManifestFormat

  /** Some run of the protocol leads from s to t. */
  ghost predicate Reach(h: Hash, s: Sys, t: Sys) {
    exists run :: run != [] && run[0] == s && run[|run| - 1] == t && IsRun(h, run)
  }

  lemma {:induction false} ReachSelf(h: Hash, s: Sys)
    ensures Reach(h, s, s)
  {
    hide Next;
    assert IsRun(h, [s]);
  }

  lemma {:induction false} ReachNext(h: Hash, s: Sys, t: Sys, u: Sys)
    requires Reach(h, s, t) && Next(h, t, u)
    ensures Reach(h, s, u)
  {
    hide Next;
    var run :| run != [] && run[0] == s && run[|run| - 1] == t && IsRun(h, run);
    var longer := run + [u];
    forall i | 0 <= i < |longer| - 1 ensures Next(h, longer[i], longer[i + 1]) {
      if i < |run| - 1 {
        assert longer[i + 1] == run[i + 1];
      }
    }
    assert longer[0] == s && longer[|longer| - 1] == u;
  }

  lemma {:induction false} ReachThen(h: Hash, s: Sys, t: Sys, u: Sys)
    requires Reach(h, s, t) && Reach(h, t, u)
    ensures Reach(h, s, u)
  {
    hide Next;
    var x :| x != [] && x[0] == s && x[|x| - 1] == t && IsRun(h, x);
    var y :| y != [] && y[0] == t && y[|y| - 1] == u && IsRun(h, y);
    var run := x + y[1..];
    forall i | 0 <= i < |run| - 1 ensures Next(h, run[i], run[i + 1]) {
      if i < |x| - 1 {
        assert run[i] == x[i] && run[i + 1] == x[i + 1];
      } else {
        assert run[i] == y[i - (|x| - 1)] && run[i + 1] == y[i + 1 - (|x| - 1)];
      }
    }
    assert run[0] == s && run[|run| - 1] == u;
  }

  /** One more step of work: still a run, still sound. */
  lemma {:induction false} ReachWork(h: Hash, s: Sys, t: Sys, u: Sys)
    requires Reach(h, s, t) && UpInv(h, t) && Work(h, t, u)
    ensures Reach(h, s, u) && UpInv(h, u)
  {
    hide Work, UpInv, Reach;
    assert Next(h, t, u);
    ReachNext(h, s, t, u);
    ProtocolSteps.WorkKeeps(h, t, u);
  }

  lemma {:induction false} GiveUp(h: Hash, s0: Sys, s: Sys)
    requires Reach(h, s0, s) && UpInv(h, s)
    ensures Reach(h, s0, InPhase(s, s.d, Idle)) && UpInv(h, InPhase(s, s.d, Idle))
  {
    hide UpInv, Reach;
    UpMode(h, s);
    assert Return(s, InPhase(s, s.d, Idle));
    ReachWork(h, s0, s, InPhase(s, s.d, Idle));
  }

  lemma {:induction false} UpMode(h: Hash, s: Sys)
    requires UpInv(h, s)
    ensures s.mode.Up?
  {
  }

  // ---------------------------------------------------------------- one write

  lemma {:induction false} AfterAppend(h: Hash, s: Sys, r: L.LogRecord)
    requires UpInv(h, s) && IsIdle(s) && !s.mode.engine.latched && Loggable(s, r)
    ensures var t := s.(d := SyncLog(AppendLog(s.d, L.PrintRecord(r))), mode := Up(AfterWrite(s.mode.engine, r)),
                        applied := s.applied + [Operation(r)]);
            Reach(h, s, t) && UpInv(h, t)
  {
    hide UpInv, Loggable, L.PrintRecord, AfterWrite, Operation;
    var t := s.(d := SyncLog(AppendLog(s.d, L.PrintRecord(r))), mode := Up(AfterWrite(s.mode.engine, r)),
                applied := s.applied + [Operation(r)]);
    assert Append(s, t, r);
    ReachSelf(h, s);
    ReachWork(h, s, s, t);
  }

  lemma {:induction false} AfterTornAppend(h: Hash, s: Sys, r: L.LogRecord, p: Bytes)
    requires UpInv(h, s) && IsIdle(s) && !s.mode.engine.latched && Loggable(s, r) && p <= L.PrintRecord(r)
    ensures var t := s.(d := AppendLog(s.d, p), mode := Up(s.mode.engine.(latched := true)), doubt := Some(r));
            Reach(h, s, t) && UpInv(h, t)
  {
    hide UpInv, Loggable, L.PrintRecord;
    var t := s.(d := AppendLog(s.d, p), mode := Up(s.mode.engine.(latched := true)), doubt := Some(r));
    assert TornAppend(s, t, r, p);
    ReachSelf(h, s);
    ReachWork(h, s, s, t);
  }

  // ---------------------------------------------------------------- a new SSTable

  /** What writing the new SSTable may have done: `middle` is the disk before its syncs. */
  ghost predicate TableOutcome(h: Hash, before: State, middle: State, d: State, index: nat, t: Table, ok: bool) {
    && SsTableFile.Touched(before, middle, index)
    && (d != middle ==> index in middle.files && Holds(h, index, t, middle.files[index]))
    && (!ok ==> d == middle || d == SyncTable(middle, index))
    && (ok ==> index in middle.files && Holds(h, index, t, middle.files[index])
               && d == SyncDirectory(SyncTable(middle, index)))
  }

  lemma {:induction false} AfterTable(h: Hash, s: Sys, job: Job, middle: State, d: State, ok: bool)
    requires UpInv(h, s) && IsIdle(s) && JobFits(s, job) && s.mode.engine.next + 1 < U64
    requires Content(job, s.mode.engine.mem) != map[]
    requires TableOutcome(h, OpenTable(s.d, s.mode.engine.next), middle, d, s.mode.engine.next,
                          Content(job, s.mode.engine.mem), ok)
    ensures var t := InPhase(s, d, if ok then Ready(job) else Idle); Reach(h, s, t) && UpInv(h, t)
  {
    hide UpInv, Reach, Holds, Compacted, TablesAt, CurrentIndices;
    var i := s.mode.engine.next;
    var s1 := InPhase(s, OpenTable(s.d, i), Writing(job));
    assert OpenNew(s, s1, job);
    ReachSelf(h, s);
    ReachWork(h, s, s, s1);
    var contents :| middle == SsTableFile.WithContents(s1.d, i, contents);
    assert s1.d.dirtyData + {i} == s1.d.dirtyData;
    var s2 := s1.(d := middle);
    assert WriteMore(s1, s2, contents);
    ReachWork(h, s, s1, s2);
    if d == middle && !ok {
      GiveUp(h, s, s2);
    } else {
      var s3 := InPhase(s2, SyncTable(middle, i), Written(job));
      assert FinishTable(h, s2, s3);
      ReachWork(h, s, s2, s3);
      if ok {
        var s4 := InPhase(s3, d, Ready(job));
        assert SyncName(s3, s4);
        ReachWork(h, s, s3, s4);
      } else {
        GiveUp(h, s, s3);
      }
    }
  }

  /** The listed tables are as they were. */
  lemma {:induction false} ListedKept(h: Hash, s: Sys, job: Job, middle: State, d: State, ok: bool)
    requires UpInv(h, s)
    requires TableOutcome(h, OpenTable(s.d, s.mode.engine.next), middle, d, s.mode.engine.next,
                          Content(job, s.mode.engine.mem), ok)
    ensures TablesAt(d.files, CurrentIndices(s)) == TablesAt(s.d.files, CurrentIndices(s))
    ensures d.manifest == s.d.manifest
  {
    hide UpInv, Holds, TablesAt, CurrentIndices;
    UpMode(h, s);
    var i := s.mode.engine.next;
    var contents :| middle == SsTableFile.WithContents(OpenTable(s.d, i), i, contents);
    ProtocolSteps.CurrentTables(h, s, d);
  }

  /** After the flush's manifest is in place the tables are the old ones and the memtable. */
  lemma {:induction false} FlushedTables(h: Hash, s: Sys, t: Sys)
    requires UpInv(h, s) && s.mode.engine.phase == Ready(FlushJob)
    requires t.mode.Up? && t.d.files == s.d.files && t.d.manifest == ProtocolSteps.NewManifest(s, FlushJob)
    ensures TablesAt(t.d.files, CurrentIndices(t)) == TablesAt(s.d.files, CurrentIndices(s)) + [s.mode.engine.mem]
  {
    hide LogInv, AllGood, Means, LiveBytes, TableFits, ReadCatalog, Holds, Decode, M.ManifestText;
    var next := s.mode.engine.next;
    ProtocolSteps.NewCatalogGood(h, s, FlushJob);
    ScanHolds(h, next, s.mode.engine.mem, s.d.files[next]);
    ProtocolSteps.TablesSnoc(s.d.files, CurrentIndices(s), next);
  }

  /** After a compaction's manifest is in place there is one table, or none. */
  lemma {:induction false} CompactedTables(h: Hash, s: Sys, t: Sys, job: Job)
    requires UpInv(h, s) && job.CompactJob? && JobFits(s, job)
    requires s.mode.engine.phase == Ready(job) || (IsIdle(s) && job.merged == map[])
    requires t.mode.Up? && t.d.manifest == ProtocolSteps.NewManifest(s, job)
    ensures CurrentIndices(t) == if job.merged == map[] then [] else [s.mode.engine.next]
    ensures job.merged != map[] ==> s.mode.engine.next in s.d.files && TableAt(s.d.files, s.mode.engine.next) == job.merged
  {
    hide LogInv, AllGood, Means, LiveBytes, TableFits, ReadCatalog, Holds, Decode, M.ManifestText, Compacted, TablesAt;
    ProtocolSteps.NewCatalogGood(h, s, job);
    if job.merged != map[] {
      ScanHolds(h, s.mode.engine.next, job.merged, s.d.files[s.mode.engine.next]);
    }
  }

  // ---------------------------------------------------------------- the manifest

  /** How far write_manifest got. */
  datatype Progress = NotRenamed | Renamed | Settled

  /** What installing a manifest may do to the disk. */
  ghost predicate Wrote(d: State, d': State, next: nat, indices: seq<nat>, progress: Progress) {
    var prepared := WriteTemp(d, M.ManifestText(next, indices), true);
    match progress
    case NotRenamed => exists text, synced :: d' == WriteTemp(d, text, synced)
    case Renamed => d' == RenameTemp(prepared)
    case Settled => d' == SyncDirectory(RenameTemp(prepared))
  }

  /** The state after a job's manifest was attempted. */
  ghost function Attempted(s: Sys, d: State, job: Job, progress: Progress): Sys
    requires s.mode.Up?
  {
    s.(d := d, mode := Up(s.mode.engine.(
      next := if progress.NotRenamed? then s.mode.engine.next else NewCatalog(s, job).next,
      phase := if progress.Settled? then Committed(job) else Idle)))
  }

  lemma {:induction false} AfterManifest(h: Hash, s0: Sys, s: Sys, job: Job, d: State, progress: Progress)
    requires Reach(h, s0, s) && UpInv(h, s)
    requires || s.mode.engine.phase == Ready(job)
             || (IsIdle(s) && job.CompactJob? && job.merged == map[] && JobFits(s, job))
    requires Wrote(s.d, d, NewCatalog(s, job).next, NewCatalog(s, job).indices, progress)
    ensures var t := Attempted(s, d, job, progress); Reach(h, s0, t) && UpInv(h, t)
  {
    hide UpInv, Reach, Compacted, TablesAt, M.ManifestText, M.Subtract, ReadCatalog;
    UpMode(h, s);
    match progress {
      case NotRenamed =>
        var text, synced :| d == WriteTemp(s.d, text, synced);
        var s1 := s.(d := d);
        assert PrepareManifest(s, s1);
        ReachWork(h, s0, s, s1);
        GiveUp(h, s0, s1);
      case Renamed =>
        var s2 := Swapping(h, s0, s, job);
        GiveUp(h, s0, s2);
      case Settled =>
        var s2 := Swapping(h, s0, s, job);
        var s3 := InPhase(s2, SyncDirectory(s2.d), Committed(job));
        assert Commit(s2, s3);
        ReachWork(h, s0, s2, s3);
    }
  }

  lemma {:induction false} Swapping(h: Hash, s0: Sys, s: Sys, job: Job) returns (s2: Sys)
    requires Reach(h, s0, s) && UpInv(h, s)
    requires || s.mode.engine.phase == Ready(job)
             || (IsIdle(s) && job.CompactJob? && job.merged == map[] && JobFits(s, job))
    ensures var c := NewCatalog(s, job);
            s2 == s.(d := RenameTemp(WriteTemp(s.d, M.ManifestText(c.next, c.indices), true)),
                     mode := Up(s.mode.engine.(next := c.next, phase := Swapped(job))))
    ensures Reach(h, s0, s2) && UpInv(h, s2)
  {
    hide UpInv, Reach, Compacted, TablesAt, M.ManifestText, M.Subtract, ReadCatalog;
    UpMode(h, s);
    var c := NewCatalog(s, job);
    var s1 := s.(d := WriteTemp(s.d, M.ManifestText(c.next, c.indices), true));
    assert PrepareManifest(s, s1);
    ReachWork(h, s0, s, s1);
    s2 := s1.(d := RenameTemp(s1.d), mode := Up(s.mode.engine.(next := c.next, phase := Swapped(job))));
    assert NewCatalog(s1, job) == c && TempIs(s1.d, c);
    assert Swap(s1, s2, job);
    ReachWork(h, s0, s1, s2);
  }

  // ---------------------------------------------------------------- emptying the log

  /** The state after the log was truncated, or as far as that got. */
  ghost function Truncated(s: Sys, cut: bool, synced: bool, ok: bool): Sys
    requires s.mode.Up?
  {
    var d := if synced then SyncCutLog(CutLog(s.d)) else if cut then CutLog(s.d) else s.d;
    if ok then
      s.(d := d, doubt := None,
         mode := Up(s.mode.engine.(mem := map[], size := 0, debt := 0, latched := false, phase := Idle)))
    else
      s.(d := d, doubt := if synced then None else s.doubt,
         mode := Up(s.mode.engine.(latched := true, phase := Idle)))
  }

  lemma {:induction false} AfterTruncate(h: Hash, s0: Sys, s: Sys, cut: bool, synced: bool, ok: bool)
    requires Reach(h, s0, s) && UpInv(h, s) && s.mode.engine.phase == Committed(FlushJob)
    requires (ok ==> synced) && (synced ==> cut)
    ensures var t := Truncated(s, cut, synced, ok); Reach(h, s0, t) && UpInv(h, t)
  {
    hide UpInv, Reach;
    UpMode(h, s);
    var s1 := s.(mode := Up(s.mode.engine.(phase := Latched, latched := true)));
    assert Latch(s, s1);
    ReachWork(h, s0, s, s1);
    if !cut {
      GiveUp(h, s0, s1);
    } else {
      var s2 := s1.(d := CutLog(s1.d));
      assert Cut(s1, s2);
      ReachWork(h, s0, s1, s2);
      if !synced {
        GiveUp(h, s0, s2);
      } else {
        var s3 := InPhase(s2, SyncCutLog(s2.d), Emptied).(doubt := None);
        assert CutDone(s2, s3);
        ReachWork(h, s0, s2, s3);
        if !ok {
          GiveUp(h, s0, s3);
        } else {
          var s4 := s3.(mode := Up(s3.mode.engine.(mem := map[], size := 0, debt := 0, latched := false, phase := Idle)));
          assert Clear(s3, s4);
          ReachWork(h, s0, s3, s4);
        }
      }
    }
  }

  // ---------------------------------------------------------------- deleting old files

  lemma {:induction false} AfterDiscard(h: Hash, s0: Sys, s: Sys, i: nat)
    requires Reach(h, s0, s) && UpInv(h, s)
    requires s.mode.engine.phase.Committed? && s.mode.engine.phase.job.CompactJob? && i in s.mode.engine.phase.job.olds
    ensures var t := s.(d := RemoveTable(s.d, i)); Reach(h, s0, t) && UpInv(h, t)
  {
    hide UpInv, Reach;
    UpMode(h, s);
    assert Discard(s, s.(d := RemoveTable(s.d, i)), i);
    ReachWork(h, s0, s, s.(d := RemoveTable(s.d, i)));
  }

  // ---------------------------------------------------------------- starting

  /** Recovery got this far: the tail may have been cut without the cut being synced. */
  lemma {:induction false} AfterFailedRecovery(h: Hash, s: Sys, shrunk: bool)
    requires s.mode.Booting? && s.d.walTail == []
    ensures var t := s.(d := if shrunk then ShrinkLog(s.d, L.Recover(s.d.walBase).end) else s.d); Reach(h, s, t)
  {
    hide L.Recover, Reach;
    ReachSelf(h, s);
    if shrunk {
      var t := s.(d := ShrinkLog(s.d, L.Recover(s.d.walBase).end));
      assert CutTail(s, t);
      ReachNext(h, s, s, t);
    }
  }

  lemma {:induction false} RunKeepsInv(h: Hash, run: seq<Sys>, i: nat)
    requires run != [] && Inv(h, run[0]) && IsRun(h, run) && i < |run|
    ensures Inv(h, run[i])
    decreases i
  {
    hide Inv, Next;
    if i > 0 {
      RunKeepsInv(h, run, i - 1);
      Runs.NextKeeps(h, run[i - 1], run[i]);
    }
  }

  lemma {:induction false} ReachInv(h: Hash, s: Sys, t: Sys)
    requires Inv(h, s) && Reach(h, s, t)
    ensures Inv(h, t)
  {
    hide Inv, IsRun;
    var run :| run != [] && run[0] == s && run[|run| - 1] == t && IsRun(h, run);
    RunKeepsInv(h, run, |run| - 1);
  }

  /** The log was recovered and its tail, if any, is gone for good. */
  lemma {:induction false} AfterRecovery(h: Hash, s: Sys, t: Sys)
    requires s.mode.Booting? && s.d.walTail == []
    requires t == s.(d := SyncShrunkLog(ShrinkLog(s.d, L.Recover(s.d.walBase).end)),
                     mode := Replayed(LogRecords(s.d.walBase)))
    ensures Reach(h, s, t)
  {
    hide L.Recover, Reach, Replayed;
    var m := s.(d := ShrinkLog(s.d, L.Recover(s.d.walBase).end));
    WalProofs.RecoveryIdempotent(s.d.walBase);
    assert CutTail(s, m);
    assert RecoverLog(m, t);
    ReachSelf(h, s);
    ReachNext(h, s, s, m);
    ReachNext(h, s, m, t);
  }

  /** An existing manifest was parsed. */
  lemma {:induction false} AfterLoad(h: Hash, s0: Sys, s: Sys)
    requires Reach(h, s0, s) && s.mode.Recovered? && s.d.manifest.Some?
    requires M.ParseHeader(s.d.manifest.value).Some?
    ensures Reach(h, s0, s.(mode := Up(Engine(s.mode.mem, s.mode.size, 0,
                               M.ParseHeader(s.d.manifest.value).value.next, s.mode.index, false, Idle))))
  {
    hide Reach, M.ParseHeader;
    var t := s.(mode := Up(Engine(s.mode.mem, s.mode.size, 0,
                  M.ParseHeader(s.d.manifest.value).value.next, s.mode.index, false, Idle)));
    assert LoadManifest(s, t);
    ReachNext(h, s0, s, t);
  }

  /** An empty manifest was created, or that was attempted. */
  lemma {:induction false} AfterCreate(h: Hash, s0: Sys, s: Sys, d: State, progress: Progress) returns (t: Sys)
    requires Reach(h, s0, s) && s.mode.Recovered? && s.d.manifest.None? && Wrote(s.d, d, 0, [], progress)
    ensures t.d == d && t.applied == s.applied && t.doubt == s.doubt && Reach(h, s0, t)
    ensures progress.Settled? ==> t.mode == Up(Engine(s.mode.mem, s.mode.size, 0, 0, s.mode.index, false, Idle))
  {
    hide Reach, M.ManifestText;
    if progress.NotRenamed? {
      var text, synced :| d == WriteTemp(s.d, text, synced);
      t := s.(d := d);
      assert PrepareManifest(s, t);
      ReachNext(h, s0, s, t);
    } else {
      var s1 := s.(d := WriteTemp(s.d, M.ManifestText(0, []), true));
      assert PrepareManifest(s, s1);
      ReachNext(h, s0, s, s1);
      var s2 := s1.(d := RenameTemp(s1.d), mode := Creating(s.mode.mem, s.mode.size, s.mode.index));
      assert CreateManifest(s1, s2);
      ReachNext(h, s0, s1, s2);
      t := s2;
      if progress.Settled? {
        t := s2.(d := SyncDirectory(s2.d), mode := Up(Engine(s.mode.mem, s.mode.size, 0, 0, s.mode.index, false, Idle)));
        assert CreateDone(s2, t);
        ReachNext(h, s0, s2, t);
      }
    }
  }

  /** What the started engine serves is what was found on disk, and the operations in effect. */
  lemma {:induction false} StartedContents(h: Hash, s: Sys, t: Sys)
    requires Inv(h, s) && s.mode.Booting? && s.d.walTail == [] && Reach(h, s, t) && t.mode.Up? && t.applied == s.applied
    ensures UpInv(h, t)
    ensures Meaning(t.d.files, t.d.manifest, t.mode.engine.mem) == ApplyAll(s.applied)
    ensures Meaning(s.d.files, s.d.manifest, Replay(LogRecords(s.d.walBase))) == ApplyAll(s.applied)
  {
    hide Reach, Meaning, ApplyAll, LogInv, PhaseInv, LiveBytes, TableFits, Replay, LogRecords, AllGood;
    ReachInv(h, s, t);
    assert MayFindManifest(t.d, t.d.manifest);
    assert MayFindLog(s.d, s.d.walBase);
    assert LogFoundInv(s, s.d.walBase);
  }
}
