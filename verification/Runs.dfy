/** Restarts keep the invariant too, and with it what every run promises. */
module Runs {
  import opened Bytes
  import opened Bloom
  import opened TableFormat
  import opened Tables
  import opened Views
  import opened Storage
  import opened Protocol
  import opened ProtocolProofs
  import ProtocolSteps
  import Wal = WalFormat
  import WalProofs
  import M = ManifestFormat

  // ---------------------------------------------------------------- restarting

  lemma {:induction false} CrashKeeps(h: Hash, s: Sys)
    requires Inv(h, s)
    ensures CrashInv(h, s)
  {
    hide UpInv, CrashInv;
    if s.mode.Up? {
      UpSurvivesCrash(h, s);
    }
  }

  lemma {:induction false} BootKeeps(h: Hash, s: Sys, t: Sys)
    requires CrashInv(h, s) && Boot(s, t)
    ensures CrashInv(h, t)
  {
    hide Meaning, Replay, LogRecords, ReadCatalog, ApplyAll, Holds, Wal.Valid;
    var m, w := t.d.manifest, t.d.walBase;
    KeepsMeaning(h, s.d, t.d, m);
    assert LogFoundInv(s, w);
    forall x | MayFindLog(t.d, x) ensures LogFoundInv(t, x) {
      assert w + [] == w;
      assert x == w;
    }
  }

  lemma {:induction false} CutTailKeeps(h: Hash, s: Sys, t: Sys)
    requires Inv(h, s) && CutTail(s, t)
    ensures Inv(h, t)
  {
    hide Meaning, Replay, ReadCatalog, ApplyAll, Holds, Wal.Recover, Wal.Valid, GoodCatalog;
    var w := s.d.walBase;
    var end := Wal.Recover(w).end;
    assert LogFoundInv(s, w);
    assert w == w[..end] + w[end..];
    KeepsAll(h, s.d, t.d, U64);
    forall x | MayFindLog(t.d, x) ensures LogFoundInv(t, x) {
      assert x == w[..|x|];
      WalProofs.RecoveryOfCut(w, |x|);
    }
  }

  lemma {:induction false} RecoverLogKeeps(h: Hash, s: Sys, t: Sys)
    requires Inv(h, s) && RecoverLog(s, t)
    ensures Inv(h, t)
  {
    hide Meaning, Replay, ReadCatalog, ApplyAll, Holds, Wal.Recover, Wal.Valid, GoodCatalog, LiveBytes, NextIndex;
    KeepsAll(h, s.d, t.d, U64);
    assert forall x :: MayFindLog(t.d, x) ==> MayFindLog(s.d, x);
    assert LogFoundInv(s, s.d.walBase);
  }

  /** A recovered engine whose manifest is settled and in memory is a running engine. */
  lemma {:induction false} StartsUp(h: Hash, s: Sys, mem: Table, index: nat, next: nat)
    requires CrashInv(h, s) && s.doubt.None? && s.d.stale == {} && s.d.manifest.Some?
    requires RecoveredInv(s.d, mem, LiveBytes(mem), index) && ReadCatalog(s.d.manifest).Some?
    requires ReadCatalog(s.d.manifest).value.next == next
    ensures Inv(h, s.(mode := Up(Engine(mem, LiveBytes(mem), 0, next, index, false, Idle))))
  {
    hide Meaning, Replay, ReadCatalog, ApplyAll, Holds, Wal.Recover, Wal.Valid, LiveBytes, TableFits;
    WalProofs.RecoverySound(s.d.walBase);
    ReplayFits(LogRecords(s.d.walBase));
    assert LogFoundInv(s, s.d.walBase);
    assert MayFindManifest(s.d, s.d.manifest);
  }

  lemma {:induction false} LoadManifestKeeps(h: Hash, s: Sys, t: Sys)
    requires Inv(h, s) && LoadManifest(s, t)
    ensures Inv(h, t)
  {
    hide Meaning, Replay, ApplyAll, Holds, Wal.Recover, Wal.Valid, LiveBytes, M.ParseHeader, M.ParseIndices;
    assert MayFindManifest(s.d, s.d.manifest);
    StartsUp(h, s, s.mode.mem, s.mode.index, M.ParseHeader(s.d.manifest.value).value.next);
  }

  /** A fresh manifest says what a missing one means. */
  lemma {:induction false} FreshManifest(h: Hash, d: State)
    ensures var m := Some(M.ManifestText(0, []));
            && ReadCatalog(m) == ReadCatalog(None) == Some(Catalog(0, []))
            && GoodCatalog(h, d, m)
            && forall files, mem :: Meaning(files, m, mem) == Meaning(files, None, mem)
  {
    hide M.ManifestText, View;
    ProtocolSteps.TextReadsBack(0, []);
  }

  lemma {:induction false} CreateManifestKeeps(h: Hash, s: Sys, t: Sys)
    requires Inv(h, s) && CreateManifest(s, t)
    ensures Inv(h, t)
  {
    hide Meaning, Replay, ApplyAll, Holds, Wal.Recover, Wal.Valid, LiveBytes, ReadCatalog, M.ManifestText;
    FreshManifest(h, t.d);
    assert MayFindManifest(s.d, None);
    ProtocolSteps.SameFilesGood(h, s.d, t.d, None);
    assert forall m :: MayFindManifest(t.d, m) ==> m == t.d.manifest || m == None;
    forall w | MayFindLog(t.d, w) ensures LogFoundInv(t, w) {
      assert LogFoundInv(s, w);
    }
  }

  lemma {:induction false} CreateDoneKeeps(h: Hash, s: Sys, t: Sys)
    requires Inv(h, s) && CreateDone(s, t)
    ensures Inv(h, t)
  {
    hide Meaning, Replay, ApplyAll, Holds, Wal.Recover, Wal.Valid, LiveBytes, ReadCatalog, M.ManifestText, GoodCatalog;
    var synced := s.(d := SyncDirectory(s.d));
    KeepsAll(h, s.d, synced.d, U64);
    forall x | MayFindLog(synced.d, x) ensures LogFoundInv(synced, x) {
      assert MayFindLog(s.d, x) && LogFoundInv(s, x);
      assert Resolved(synced, x) == Resolved(s, x);
    }
    FreshManifest(h, synced.d);
    StartsUp(h, synced, s.mode.mem, s.mode.index, 0);
  }

  /** Writing the temporary manifest is never noticed by a restart. */
  lemma {:induction false} PrepareEarlyKeeps(h: Hash, s: Sys, t: Sys)
    requires Inv(h, s) && !s.mode.Up? && PrepareManifest(s, t)
    ensures Inv(h, t)
  {
    hide Meaning, Replay, ApplyAll, Holds, Wal.Recover, Wal.Valid, LiveBytes, ReadCatalog, M.ManifestText, GoodCatalog;
    KeepsAll(h, s.d, t.d, U64);
    forall w | MayFindLog(t.d, w) ensures LogFoundInv(t, w) {
      assert LogFoundInv(s, w);
    }
  }

  // ---------------------------------------------------------------- whole runs

  lemma {:induction false} InitInv(h: Hash, s: Sys)
    requires Init(s)
    ensures Inv(h, s)
  {
    hide Decode, Merge, Wal.Recover;
    NoRecords();
    MergeEmpty();
    forall w | MayFindLog(s.d, w) ensures LogFoundInv(s, w) {
      assert w == [];
      assert TablesAt(s.d.files, []) == [];
      assert View(map[], []) == map[] by { MergeEmpty(); }
    }
  }

  lemma {:induction false} NextKeeps(h: Hash, s: Sys, t: Sys)
    requires Inv(h, s) && Next(h, s, t)
    ensures Inv(h, t)
  {
    hide UpInv, CrashInv, Append, TornAppend, OpenNew, WriteMore, FinishTable, SyncName, PrepareManifest, Swap, Commit,
         Latch, Cut, CutDone, Clear, Discard, Return, Boot, CutTail, RecoverLog, LoadManifest, CreateManifest, CreateDone,
         Replay, Wal.Recover, LiveBytes;
    if Crash(s, t) {
      CrashKeeps(h, s);
      SameCrash(h, s, t);
    } else if Boot(s, t) {
      BootModes(s, t);
      BootKeeps(h, s, t);
    } else if CutTail(s, t) {
      CutTailKeeps(h, s, t);
    } else if RecoverLog(s, t) {
      RecoverLogKeeps(h, s, t);
    } else if LoadManifest(s, t) {
      LoadManifestKeeps(h, s, t);
    } else if CreateManifest(s, t) {
      CreateManifestKeeps(h, s, t);
    } else if CreateDone(s, t) {
      CreateDoneKeeps(h, s, t);
    } else if s.mode.Up? {
      ProtocolSteps.WorkKeeps(h, s, t);
      UpInvIsInv(h, t);
    } else {
      OnlyPrepares(h, s, t);
      PrepareEarlyKeeps(h, s, t);
    }
  }

  lemma {:induction false} SameCrash(h: Hash, s: Sys, t: Sys)
    requires CrashInv(h, s) && Crash(s, t)
    ensures Inv(h, t)
  {
    hide Meaning, Replay, ApplyAll, Wal.Recover, Wal.Valid, GoodCatalog;
    forall w | MayFindLog(t.d, w) ensures LogFoundInv(t, w) {
      assert LogFoundInv(s, w);
    }
  }

  lemma {:induction false} BootModes(s: Sys, t: Sys)
    requires Boot(s, t)
    ensures s.mode.Down? && t.mode.Booting? && t.doubt.None? && t.d.stale == {} && !t.d.walCut
  {
  }

  lemma {:induction false} UpInvIsInv(h: Hash, t: Sys)
    requires UpInv(h, t)
    ensures Inv(h, t)
  {
  }

  lemma {:induction false} OnlyPrepares(h: Hash, s: Sys, t: Sys)
    requires !s.mode.Up? && Work(h, s, t)
    ensures PrepareManifest(s, t)
  {
    hide PrepareManifest;
  }

  /** The invariant holds in every state of every run, crashes and restarts included. */
  lemma {:induction false} RunInv(h: Hash, run: seq<Sys>, i: nat)
    requires run != [] && Init(run[0]) && IsRun(h, run) && i < |run|
    ensures Inv(h, run[i])
    decreases i
  {
    hide Inv, Next, Init;
    if i == 0 {
      InitInv(h, run[0]);
    } else {
      RunInv(h, run, i - 1);
      NextKeeps(h, run[i - 1], run[i]);
    }
  }

  // ---------------------------------------------------------------- what runs promise

  /** While the engine is up, what it serves is the fold of the operations in effect. */
  lemma {:induction false} ServesApplied(h: Hash, run: seq<Sys>, i: nat)
    requires run != [] && Init(run[0]) && IsRun(h, run) && i < |run| && run[i].mode.Up?
    ensures Meaning(run[i].d.files, run[i].d.manifest, run[i].mode.engine.mem) == ApplyAll(run[i].applied)
  {
    hide Meaning, ApplyAll, Next, Init, LogInv, PhaseInv, TableFits, LiveBytes;
    RunInv(h, run, i);
    assert MayFindManifest(run[i].d, run[i].d.manifest);
  }

  /**
   * A power loss at any point of any run: whatever is found on disk, replaying the log over the listed
   * tables gives the operations in effect, plus the in-doubt one exactly when its record was found.
   */
  lemma {:induction false} RestartRecovers(h: Hash, run: seq<Sys>, i: nat, found: State)
    requires run != [] && Init(run[0]) && IsRun(h, run) && i < |run| && MayRestartAs(run[i].d, found)
    ensures Meaning(found.files, found.manifest, Replay(LogRecords(found.walBase))) ==
            ApplyAll(Resolved(run[i], found.walBase))
  {
    hide Meaning, ApplyAll, Next, Init, Inv, Replay, LogRecords, ReadCatalog, Holds;
    RunInv(h, run, i);
    CrashKeeps(h, run[i]);
    assert LogFoundInv(run[i], found.walBase);
    KeepsMeaning(h, run[i].d, found, found.manifest);
  }

  /** One step adds at most one operation: one appended now, or the one left in doubt by a torn append. */
  lemma {:induction false} OnlyIssued(h: Hash, s: Sys, t: Sys)
    requires Next(h, s, t)
    ensures || t.applied == s.applied
            || (exists r :: Append(s, t, r) && t.applied == s.applied + [Operation(r)])
            || (Boot(s, t) && s.doubt.Some? && t.applied == s.applied + [Operation(s.doubt.value)])
    ensures t.doubt.Some? ==> t.doubt == s.doubt || exists r, p :: TornAppend(s, t, r, p) && t.doubt == Some(r)
  {
    hide Meaning, Loggable, JobFits, Replay, LogRecords, NewCatalog, Holds, MayRestartAs, AfterWrite, Wal.Recover,
         Wal.PrintRecord, ReadCatalog, TempIs, M.ParseHeader, LiveBytes, Compacted, TablesAt;
    if r, p :| TornAppend(s, t, r, p) {
    } else if r :| Append(s, t, r) {
    }
  }

  /** Durability: an operation once in effect stays in effect, across every later crash and restart. */
  lemma {:induction false} AppliedForever(h: Hash, run: seq<Sys>, i: nat, j: nat)
    requires IsRun(h, run) && i <= j < |run|
    ensures run[i].applied <= run[j].applied
    decreases j
  {
    hide Next, Append, TornAppend, Boot, Operation;
    if i < j {
      AppliedForever(h, run, i, j - 1);
      assert Next(h, run[j - 1], run[j]);
      OnlyIssued(h, run[j - 1], run[j]);
    }
  }

  /** What is served later is what was in effect earlier, with later operations on top. */
  lemma {:induction false} NothingIsLost(h: Hash, run: seq<Sys>, i: nat, j: nat)
    requires run != [] && Init(run[0]) && IsRun(h, run) && i <= j < |run| && run[j].mode.Up?
    ensures exists later :: Meaning(run[j].d.files, run[j].d.manifest, run[j].mode.engine.mem) ==
                            ApplyAll(run[i].applied + later)
  {
    hide Meaning, ApplyAll, Next, Init;
    AppliedForever(h, run, i, j);
    ServesApplied(h, run, j);
    assert run[j].applied == run[i].applied + run[j].applied[|run[i].applied|..];
  }

  /** While no log write or truncation has failed, the memtable is the replay of the log. */
  lemma {:induction false} LogIsMemtable(h: Hash, run: seq<Sys>, i: nat)
    requires run != [] && Init(run[0]) && IsRun(h, run) && i < |run|
    requires run[i].mode.Up? && !run[i].mode.engine.latched
    ensures var rs, e := LogRecords(run[i].d.walBase), run[i].mode.engine;
            && run[i].d.walBase == Wal.PrintLog(rs) && run[i].d.walTail == []
            && e.mem == Replay(rs) && Consecutive(rs) && (rs != [] ==> e.index == (rs[|rs| - 1].index + 1) % U64)
  {
    hide Meaning, ApplyAll, Next, Init, Replay, Wal.Recover, AllGood, PhaseInv, TableFits, LiveBytes, Wal.PrintLog;
    RunInv(h, run, i);
    var base := run[i].d.walBase;
    WalProofs.RecoverySound(base);
    assert base[..|base|] == base;
  }

  /** mem_table_size is the live bytes plus the key bytes of the deletes since the last flush or restart. */
  lemma {:induction false} SizeIsExact(h: Hash, run: seq<Sys>, i: nat)
    requires run != [] && Init(run[0]) && IsRun(h, run) && i < |run| && run[i].mode.Up?
    ensures var e := run[i].mode.engine; e.size == LiveBytes(e.mem) + e.debt
  {
    hide Meaning, ApplyAll, Next, Init, Replay, Wal.Recover, AllGood, PhaseInv, TableFits, LiveBytes, LogInv, Means;
    RunInv(h, run, i);
  }

  /** In every reachable state every manifest that may be found is sound and its files are complete. */
  lemma {:induction false} ManifestsAlwaysGood(h: Hash, run: seq<Sys>, i: nat, m: Option<string>)
    requires run != [] && Init(run[0]) && IsRun(h, run) && i < |run| && MayFindManifest(run[i].d, m)
    ensures GoodCatalog(h, run[i].d, m)
  {
    hide GoodCatalog, Next, Init, Inv, LogFoundInv;
    RunInv(h, run, i);
    CrashKeeps(h, run[i]);
  }

  /** Index i is in a manifest that a restart may find. */
  ghost predicate Listed(d: State, i: nat) {
    exists m :: MayFindManifest(d, m) && ReadCatalog(m).Some? && i in ReadCatalog(m).value.indices
  }

  /** No step writes, reopens or deletes a file that some findable manifest lists. */
  lemma {:induction false} ListedUntouched(h: Hash, s: Sys, t: Sys, i: nat)
    requires Inv(h, s) && Next(h, s, t) && Listed(s.d, i)
    ensures Settled(s.d, i) && Settled(t.d, i) && t.d.files[i] == s.d.files[i]
  {
    hide Inv, Next, ReadCatalog, LogFoundInv, Holds;
    CrashKeeps(h, s);
    var m :| MayFindManifest(s.d, m) && ReadCatalog(m).Some? && i in ReadCatalog(m).value.indices;
    assert GoodCatalog(h, s.d, m) && Stored(h, s.d, i);
    if s.mode.Up? {
      BelowNext(h, s, m, i);
    }
    FilesOutsideStep(h, s, t, i);
  }

  lemma {:induction false} BelowNext(h: Hash, s: Sys, m: Option<string>, i: nat)
    requires Inv(h, s) && s.mode.Up? && MayFindManifest(s.d, m) && ReadCatalog(m).Some? && i in ReadCatalog(m).value.indices
    ensures i < s.mode.engine.next
    ensures s.mode.engine.phase.Committed? && s.mode.engine.phase.job.CompactJob? ==> i !in s.mode.engine.phase.job.olds
  {
    hide ReadCatalog, Meaning, ApplyAll, Holds, LogInv, Means, TableFits, LiveBytes;
    assert GoodCatalog(h, s.d, m);
  }

  lemma {:induction false} FilesOutsideStep(h: Hash, s: Sys, t: Sys, i: nat)
    requires Next(h, s, t) && Settled(s.d, i)
    requires s.mode.Up? ==> i != s.mode.engine.next
    requires s.mode.Up? && s.mode.engine.phase.Committed? && s.mode.engine.phase.job.CompactJob? ==> i !in s.mode.engine.phase.job.olds
    ensures Settled(t.d, i) && t.d.files[i] == s.d.files[i]
  {
    hide Meaning, Loggable, JobFits, Replay, LogRecords, NewCatalog, Holds, AfterWrite, Wal.Recover, Resolved, MayFindLog,
         Wal.PrintRecord, ReadCatalog, TempIs, M.ParseHeader, LiveBytes, Compacted, TablesAt, Work;
    if Work(h, s, t) {
      FilesOutsideWork(h, s, t, i);
    }
  }

  lemma {:induction false} FilesOutsideWork(h: Hash, s: Sys, t: Sys, i: nat)
    requires Work(h, s, t) && Settled(s.d, i)
    requires s.mode.Up? ==> i != s.mode.engine.next
    requires s.mode.Up? && s.mode.engine.phase.Committed? && s.mode.engine.phase.job.CompactJob? ==> i !in s.mode.engine.phase.job.olds
    ensures Settled(t.d, i) && t.d.files[i] == s.d.files[i]
  {
    hide Meaning, Loggable, JobFits, Replay, LogRecords, NewCatalog, Holds, AfterWrite, Wal.Recover, Resolved, MayFindLog,
         Wal.PrintRecord, ReadCatalog, TempIs, M.ParseHeader, LiveBytes, Compacted, TablesAt, Append, TornAppend,
         Swap, Commit, Latch, Cut, CutDone, Clear, Return, PrepareManifest;
    if t.d.files == s.d.files && t.d.dirtyData <= s.d.dirtyData && t.d.dirtyNames <= s.d.dirtyNames {
    } else {
      QuietSteps(h, s, t);
    }
  }

  /** Only three steps change an SSTable or make one less settled. */
  lemma {:induction false} QuietSteps(h: Hash, s: Sys, t: Sys)
    requires Work(h, s, t)
    ensures || (exists job :: OpenNew(s, t, job)) || (exists contents :: WriteMore(s, t, contents))
            || (exists i :: Discard(s, t, i))
            || (t.d.files == s.d.files && t.d.dirtyData <= s.d.dirtyData && t.d.dirtyNames <= s.d.dirtyNames)
  {
    hide Meaning, Loggable, JobFits, Replay, LogRecords, NewCatalog, Holds, AfterWrite, Wal.Recover,
         Wal.PrintRecord, ReadCatalog, TempIs, M.ParseHeader, LiveBytes, Compacted, TablesAt,
         OpenNew, WriteMore, Discard;
  }
}
