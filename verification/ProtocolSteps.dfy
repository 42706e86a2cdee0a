/** Each step of the running engine keeps the invariant. */
module ProtocolSteps {
  import opened Bytes
  import opened Bloom
  import opened TableFormat
  import opened Tables
  import opened Views
  import opened Storage
  import opened Protocol
  import opened ProtocolProofs
  import Wal = WalFormat
  import WalProofs
  import M = ManifestFormat

  // ---------------------------------------------------------------- writes

  lemma {:induction false} SizeStep(e: Engine, r: Wal.LogRecord)
    requires TableFits(e.mem) && Wal.Valid(r) && e.size == LiveBytes(e.mem) + e.debt
    requires r.op == Wal.DEL ==> r.val == [] && (r.key in e.mem ==> e.mem[r.key].Some?)
    ensures var a := AfterWrite(e, r); a.size == LiveBytes(a.mem) + a.debt && TableFits(a.mem)
  {
    hide LiveBytes;
    LiveBytesUpdate(e.mem, r.key, if r.op == Wal.SET then Some(r.val) else None);
  }

  lemma {:induction false} AppendKeeps(h: Hash, s: Sys, t: Sys, r: Wal.LogRecord)
    requires UpInv(h, s) && Append(s, t, r)
    ensures UpInv(h, t)
  {
    hide Meaning, Replay, Wal.Recover, Wal.PrintRecord, Wal.Valid, GoodCatalog, LiveBytes, TableFits, SizeAfter, ReadCatalog;
    var e, a := s.mode.engine, t.mode.engine;
    if r.op == Wal.DEL && r.key in e.mem {
      LiveOnlyDeletes(s, r);
    }
    SizeStep(e, r);
    assert t.d.walBase == s.d.walBase + Wal.PrintRecord(r);
    AppendedLog(s.d.walBase, r);
    ReplaySnoc(LogRecords(s.d.walBase), r);
    ConsecutiveSnoc(LogRecords(s.d.walBase), r);
    ApplySnoc(s.applied, Operation(r));
    forall m | MayFindManifest(t.d, m) ensures Meaning(t.d.files, m, a.mem) == ApplyAll(t.applied) {
      MeaningOfWrite(s.d.files, m, e.mem, Operation(r));
    }
    KeepsAll(h, s.d, t.d, e.next);
  }

  /** A loggable delete is of a key that is live; if the memtable knows it, it is live there. */
  lemma {:induction false} LiveOnlyDeletes(s: Sys, r: Wal.LogRecord)
    requires s.mode.Up? && Loggable(s, r) && r.op == Wal.DEL && r.key in s.mode.engine.mem
    ensures s.mode.engine.mem[r.key].Some?
  {
    hide Merge, ReadCatalog;
  }

  lemma {:induction false} TornAppendKeeps(h: Hash, s: Sys, t: Sys, r: Wal.LogRecord, p: Bytes)
    requires UpInv(h, s) && TornAppend(s, t, r, p)
    ensures UpInv(h, t)
  {
    hide Meaning, Replay, Wal.Recover, Wal.PrintRecord, Wal.Valid, GoodCatalog, LiveBytes, TableFits, ReadCatalog;
    assert [] + p == p;
    KeepsAll(h, s.d, t.d, s.mode.engine.next);
  }

  // ---------------------------------------------------------------- the new table

  /** Only the file at the engine's next index is touched. */
  lemma {:induction false} NextTableOnly(h: Hash, s: Sys, d': State)
    requires UpInv(h, s)
    requires forall m :: MayFindManifest(d', m) ==> MayFindManifest(s.d, m)
    requires forall i: nat :: i != s.mode.engine.next && Settled(s.d, i) ==> Settled(d', i) && d'.files[i] == s.d.files[i]
    requires d'.walBase == s.d.walBase && d'.walTail == s.d.walTail && d'.walCut == s.d.walCut
    requires d'.manifest == s.d.manifest
    ensures AllGood(h, d', s.mode.engine.next)
    ensures Means(d', s.mode.engine.mem, ApplyAll(s.applied))
    ensures LogInv(d', s.mode.engine, ApplyAll(s.applied), s.doubt)
    ensures forall mem :: Meaning(d'.files, d'.manifest, mem) == Meaning(s.d.files, d'.manifest, mem)
    ensures TablesAt(d'.files, CurrentIndices(s)) == TablesAt(s.d.files, CurrentIndices(s))
  {
    hide Meaning, Replay, Wal.Recover, Wal.PrintRecord, Wal.Valid, GoodCatalog, Settled, LiveBytes, TableFits, ApplyAll;
    KeepsAll(h, s.d, d', s.mode.engine.next);
    CurrentTables(h, s, d');
  }

  lemma {:induction false} CurrentTables(h: Hash, s: Sys, d': State)
    requires UpInv(h, s)
    requires forall i: nat :: i != s.mode.engine.next && Settled(s.d, i) ==> Settled(d', i) && d'.files[i] == s.d.files[i]
    ensures TablesAt(d'.files, CurrentIndices(s)) == TablesAt(s.d.files, CurrentIndices(s))
  {
    hide Meaning, LogInv, Decode, Holds, PhaseInv;
    var now := CurrentIndices(s);
    assert GoodCatalog(h, s.d, s.d.manifest);
    forall n | 0 <= n < |now| ensures TableAt(d'.files, now[n]) == TableAt(s.d.files, now[n]) {
      assert now[n] in now && Stored(h, s.d, now[n]);
    }
  }

  lemma {:induction false} OpenNewKeeps(h: Hash, s: Sys, t: Sys, job: Job)
    requires UpInv(h, s) && OpenNew(s, t, job)
    ensures UpInv(h, t)
  {
    hide Meaning, Replay, Wal.Recover, GoodCatalog, LiveBytes, TableFits, ReadCatalog, AllGood, Means, Compacted, TablesAt;
    NextTableOnly(h, s, t.d);
  }

  lemma {:induction false} WriteMoreKeeps(h: Hash, s: Sys, t: Sys, contents: Bytes)
    requires UpInv(h, s) && WriteMore(s, t, contents)
    ensures UpInv(h, t)
  {
    hide Meaning, Replay, Wal.Recover, GoodCatalog, LiveBytes, TableFits, ReadCatalog, LogInv, AllGood, Means, Compacted, TablesAt;
    NextTableOnly(h, s, t.d);
  }

  lemma {:induction false} FinishTableKeeps(h: Hash, s: Sys, t: Sys)
    requires UpInv(h, s) && FinishTable(h, s, t)
    ensures UpInv(h, t)
  {
    hide Meaning, Replay, Wal.Recover, GoodCatalog, LiveBytes, TableFits, ReadCatalog, AllGood, Means, Compacted, TablesAt, Holds;
    NextTableOnly(h, s, t.d);
  }

  lemma {:induction false} SameJob(s: Sys, t: Sys, job: Job)
    requires s.mode.Up? && t.mode.Up? && JobFits(s, job)
    requires t.mode.engine.mem == s.mode.engine.mem && t.d.manifest == s.d.manifest
    requires TablesAt(t.d.files, CurrentIndices(s)) == TablesAt(s.d.files, CurrentIndices(s))
    ensures JobFits(t, job)
  {
    hide ReadCatalog, Compacted, TablesAt;
  }

  lemma {:induction false} SyncNameKeeps(h: Hash, s: Sys, t: Sys)
    requires UpInv(h, s) && SyncName(s, t)
    ensures UpInv(h, t)
  {
    hide Meaning, Replay, Wal.Recover, GoodCatalog, LiveBytes, TableFits, ReadCatalog, AllGood, Means, Compacted, TablesAt, Holds, Content, JobFits, CurrentIndices;
    NextTableOnly(h, s, t.d);
    SameJob(s, t, s.mode.engine.phase.job);
  }

  lemma {:induction false} PrepareManifestKeeps(h: Hash, s: Sys, t: Sys)
    requires UpInv(h, s) && PrepareManifest(s, t)
    ensures UpInv(h, t)
  {
    hide Meaning, Replay, Wal.Recover, GoodCatalog, LiveBytes, TableFits, ReadCatalog, LogInv, AllGood, Means, Compacted, TablesAt, Holds;
    NextTableOnly(h, s, t.d);
  }

  // ---------------------------------------------------------------- the commit point

  lemma {:induction false} TextReadsBack(next: nat, indices: seq<nat>)
    requires next < U64 && M.StrictlySorted(indices) && forall i :: i in indices ==> i < next
    ensures ReadCatalog(Some(M.ManifestText(next, indices))) == Some(Catalog(next, indices))
  {
    hide M.ManifestText, M.ParseHeader, M.ParseIndices;
    M.AscendingIsShort(indices, next);
    M.ManifestReadsBack(next, indices);
  }

  lemma {:induction false} SnocAscending(indices: seq<nat>, next: nat)
    requires M.StrictlySorted(indices) && forall i :: i in indices ==> i < next
    ensures M.StrictlySorted(indices + [next])
  {
    assert forall n :: 0 <= n < |indices| ==> indices[n] in indices;
  }

  lemma {:induction false} TablesSnoc(files: map<nat, Bytes>, indices: seq<nat>, next: nat)
    ensures TablesAt(files, indices + [next]) == TablesAt(files, indices) + [TableAt(files, next)]
  {
  }

  /** What a swap installs. */
  function NewManifest(s: Sys, job: Job): Option<string>
    requires s.mode.Up?
  {
    var c := NewCatalog(s, job);
    Some(M.ManifestText(c.next, c.indices))
  }

  /** The job's SSTable is complete; an empty compaction needs none. */
  ghost predicate NewTableReady(h: Hash, s: Sys, job: Job)
    requires s.mode.Up?
  {
    || (job.CompactJob? && job.merged == map[])
    || (&& Content(job, s.mode.engine.mem) != map[] && s.mode.engine.next + 1 < U64
        && NewTableHolds(h, s.d, s.mode.engine, job) && Settled(s.d, s.mode.engine.next))
  }

  /** The list this job installs is ascending and names only complete files. */
  lemma {:induction false} NewCatalogGood(h: Hash, s: Sys, job: Job)
    requires UpInv(h, s) && JobFits(s, job)
    requires NewTableReady(h, s, job)
    ensures ReadCatalog(NewManifest(s, job)) == Some(NewCatalog(s, job))
    ensures GoodCatalog(h, s.d, NewManifest(s, job))
    ensures job.CompactJob? ==> NewCatalog(s, job).indices == if job.merged == map[] then [] else [s.mode.engine.next]
  {
    hide Meaning, LogInv, Holds, PhaseInv, LiveBytes, TableFits, M.ManifestText, M.ParseHeader, M.ParseIndices;
    var now, next := CurrentIndices(s), s.mode.engine.next;
    assert GoodCatalog(h, s.d, s.d.manifest);
    SnocAscending(now, next);
    if job.CompactJob? {
      M.SubtractAll(now);
    }
    var c := NewCatalog(s, job);
    assert M.StrictlySorted(c.indices);
    TextReadsBack(c.next, c.indices);
  }

  /** The new manifest means what the old one meant, under the memtable and, where it did, without it. */
  lemma {:induction false} NewMeaning(h: Hash, s: Sys, job: Job, mem: Table)
    requires UpInv(h, s) && JobFits(s, job)
    requires NewTableReady(h, s, job)
    ensures var m := NewManifest(s, job);
            && (job.CompactJob? ==> Meaning(s.d.files, m, mem) == Meaning(s.d.files, s.d.manifest, mem))
            && (job.FlushJob? ==> Meaning(s.d.files, m, map[]) == Meaning(s.d.files, s.d.manifest, s.mode.engine.mem))
            && (job.FlushJob? ==> Meaning(s.d.files, m, s.mode.engine.mem) == Meaning(s.d.files, s.d.manifest, s.mode.engine.mem))
  {
    hide LogInv, Holds, PhaseInv, LiveBytes, TableFits, M.ManifestText, ReadCatalog, View, Merge, Decode, GoodCatalog, Compacted;
    NewCatalogGood(h, s, job);
    var now, next := CurrentIndices(s), s.mode.engine.next;
    var tables := TablesAt(s.d.files, now);
    if Content(job, s.mode.engine.mem) != map[] {
      ScanHolds(h, next, Content(job, s.mode.engine.mem), s.d.files[next]);
      TablesSnoc(s.d.files, now, next);
    }
    match job {
      case FlushJob =>
        FlushKeeps(s.mode.engine.mem, tables, map[]);
      case CompactJob(olds, merged) =>
        CompactionKeeps(mem, tables);
        if merged == map[] {
          assert TablesAt(s.d.files, []) == [];
        } else {
          assert TablesAt(s.d.files, [next]) == [merged];
        }
    }
  }

  lemma {:induction false} SwapReady(h: Hash, s: Sys, t: Sys, job: Job)
    requires UpInv(h, s) && Swap(s, t, job)
    ensures JobFits(s, job) && NewTableReady(h, s, job)
    ensures t.d.manifest == NewManifest(s, job) && t.d.files == s.d.files
    ensures forall m :: MayFindManifest(t.d, m) ==> m == NewManifest(s, job) || MayFindManifest(s.d, m)
    ensures t.d.dirtyData == s.d.dirtyData && t.d.dirtyNames == s.d.dirtyNames
  {
    hide Meaning, LogInv, LiveBytes, TableFits, M.ManifestText, Holds, ApplyAll, AllGood, Means, Compacted, TablesAt,
         NewCatalog, ReadCatalog;
  }

  lemma {:induction false} GoodCatalogParses(h: Hash, d: State, m: Option<string>)
    requires GoodCatalog(h, d, m)
    ensures ReadCatalog(m).Some? && ReadCatalog(m).value.next < U64
  {
  }

  lemma {:induction false} SwapGood(h: Hash, s: Sys, t: Sys, job: Job)
    requires UpInv(h, s) && Swap(s, t, job)
    ensures AllGood(h, t.d, t.mode.engine.next) && t.mode.engine.next < U64
    ensures ReadCatalog(t.d.manifest) == Some(NewCatalog(s, job))
  {
    hide LogInv, Means, PhaseInv, LiveBytes, TableFits, M.ManifestText, ReadCatalog, GoodCatalog, MayFindManifest, NewTableReady;
    SwapReady(h, s, t, job);
    NewCatalogGood(h, s, job);
    GoodCatalogParses(h, s.d, NewManifest(s, job));
    forall m | MayFindManifest(t.d, m) ensures ReadCatalog(m).Some? && GoodCatalog(h, t.d, m) && ReadCatalog(m).value.next <= t.mode.engine.next
    {
      assert MayFindManifest(s.d, m) ==> GoodCatalog(h, s.d, m);
      GoodCatalogParses(h, s.d, m);
      SameFilesGood(h, s.d, t.d, m);
    }
  }

  lemma {:induction false} SwapMeans(h: Hash, s: Sys, t: Sys, job: Job)
    requires UpInv(h, s) && Swap(s, t, job)
    ensures Means(t.d, s.mode.engine.mem, ApplyAll(s.applied))
    ensures Means(s.d, map[], ApplyAll(s.applied)) ==> Means(t.d, map[], ApplyAll(s.applied))
    ensures job.FlushJob? ==> Meaning(t.d.files, t.d.manifest, map[]) == ApplyAll(s.applied)
  {
    hide Meaning, LogInv, AllGood, PhaseInv, LiveBytes, TableFits, M.ManifestText, ReadCatalog, GoodCatalog, NewTableReady, ApplyAll;
    SwapReady(h, s, t, job);
    NewMeaning(h, s, job, s.mode.engine.mem);
    NewMeaning(h, s, job, map[]);
    assert MayFindManifest(s.d, s.d.manifest);
  }

  /** A compaction's inputs are not in the list it installs. */
  lemma {:induction false} SwapDrops(h: Hash, s: Sys, t: Sys, job: Job)
    requires UpInv(h, s) && Swap(s, t, job) && job.CompactJob?
    ensures forall i :: i in job.olds ==> i !in NewCatalog(s, job).indices
  {
    hide Meaning, LogInv, Means, LiveBytes, TableFits, M.ManifestText, ReadCatalog, PhaseInv, Holds, NewTableReady;
    SwapReady(h, s, t, job);
    NewCatalogGood(h, s, job);
    assert GoodCatalog(h, s.d, s.d.manifest);
  }

  lemma {:induction false} SwapLog(h: Hash, s: Sys, t: Sys, job: Job)
    requires UpInv(h, s) && Swap(s, t, job)
    ensures LogInv(t.d, t.mode.engine, ApplyAll(t.applied), t.doubt)
  {
    hide Meaning, Replay, Wal.Recover, Wal.PrintRecord, Wal.Valid, LiveBytes, TableFits, M.ManifestText, ReadCatalog,
         AllGood, Means, ApplyAll, JobFits, NewCatalog, TempIs, PhaseInv;
    SwapMeans(h, s, t, job);
  }

  /** The rename installs a manifest that means the same; the old one may still come back. */
  lemma {:induction false} SwapKeeps(h: Hash, s: Sys, t: Sys, job: Job)
    requires UpInv(h, s) && Swap(s, t, job)
    ensures UpInv(h, t)
  {
    hide Meaning, LiveBytes, TableFits, M.ManifestText, ReadCatalog, AllGood, Means, ApplyAll, JobFits, NewCatalog,
         TempIs, LogInv, NewTableReady, MayFindManifest, RenameTemp, NewTableHolds, Settled, Content;
    SwapReady(h, s, t, job);
    SwapGood(h, s, t, job);
    SwapMeans(h, s, t, job);
    SwapLog(h, s, t, job);
    if job.CompactJob? {
      SwapDrops(h, s, t, job);
    }
  }

  lemma {:induction false} SameFilesGood(h: Hash, d: State, d': State, m: Option<string>)
    requires GoodCatalog(h, d, m)
    requires d'.files == d.files && d'.dirtyData == d.dirtyData && d'.dirtyNames == d.dirtyNames
    ensures GoodCatalog(h, d', m)
  {
    hide ReadCatalog, Holds;
  }

  lemma {:induction false} CommitKeeps(h: Hash, s: Sys, t: Sys)
    requires UpInv(h, s) && Commit(s, t)
    ensures UpInv(h, t)
  {
    hide Meaning, Replay, Wal.Recover, Wal.PrintRecord, Wal.Valid, GoodCatalog, LiveBytes, TableFits, ReadCatalog, AllGood, ApplyAll;
    KeepsAll(h, s.d, t.d, s.mode.engine.next);
  }

  // ---------------------------------------------------------------- emptying the log

  lemma {:induction false} LatchKeeps(h: Hash, s: Sys, t: Sys)
    requires UpInv(h, s) && Latch(s, t)
    ensures UpInv(h, t)
  {
    hide Meaning, Replay, Wal.Recover, Wal.PrintRecord, Wal.Valid, GoodCatalog, LiveBytes, TableFits, ReadCatalog, AllGood, ApplyAll;
  }

  lemma {:induction false} CutKeeps(h: Hash, s: Sys, t: Sys)
    requires UpInv(h, s) && Cut(s, t)
    ensures UpInv(h, t)
  {
    hide Meaning, Replay, Wal.Recover, Wal.PrintRecord, Wal.Valid, GoodCatalog, LiveBytes, TableFits, ReadCatalog, ApplyAll;
    KeepsAll(h, s.d, t.d, s.mode.engine.next);
  }

  lemma {:induction false} CutDoneKeeps(h: Hash, s: Sys, t: Sys)
    requires UpInv(h, s) && CutDone(s, t)
    ensures UpInv(h, t)
  {
    hide Meaning, Replay, Wal.Recover, Wal.PrintRecord, Wal.Valid, GoodCatalog, LiveBytes, TableFits, ReadCatalog, ApplyAll;
    NoRecords();
    KeepsAll(h, s.d, t.d, s.mode.engine.next);
  }

  lemma {:induction false} ClearKeeps(h: Hash, s: Sys, t: Sys)
    requires UpInv(h, s) && Clear(s, t)
    ensures UpInv(h, t)
  {
    hide Meaning, Replay, Wal.Recover, Wal.PrintRecord, Wal.Valid, GoodCatalog, ReadCatalog, AllGood, ApplyAll;
    NoRecords();
  }

  // ---------------------------------------------------------------- the rest

  /** Deleting a file that the one remaining manifest does not list. */
  lemma {:induction false} DiscardKeeps(h: Hash, s: Sys, t: Sys, i: nat)
    requires UpInv(h, s) && Discard(s, t, i)
    ensures UpInv(h, t)
  {
    hide Meaning, Replay, Wal.Recover, Wal.PrintRecord, Wal.Valid, LiveBytes, TableFits, ReadCatalog, ApplyAll, Holds;
    assert MayFindManifest(s.d, s.d.manifest);
    KeepsMeaning(h, s.d, t.d, s.d.manifest);
  }

  lemma {:induction false} ReturnKeeps(h: Hash, s: Sys, t: Sys)
    requires UpInv(h, s) && Return(s, t)
    ensures UpInv(h, t)
  {
    hide Meaning, Replay, Wal.Recover, Wal.PrintRecord, Wal.Valid, GoodCatalog, LiveBytes, TableFits, ReadCatalog, AllGood, ApplyAll;
  }

  /** Every step of the running engine keeps the invariant. */
  lemma {:induction false} WorkKeeps(h: Hash, s: Sys, t: Sys)
    requires UpInv(h, s) && Work(h, s, t)
    ensures UpInv(h, t)
  {
    hide UpInv, Append, TornAppend, OpenNew, WriteMore, FinishTable, SyncName, PrepareManifest, Swap, Commit,
         Latch, Cut, CutDone, Clear, Discard, Return;
    if r :| Append(s, t, r) { AppendKeeps(h, s, t, r); }
    else if r, p :| TornAppend(s, t, r, p) { TornAppendKeeps(h, s, t, r, p); }
    else if job :| OpenNew(s, t, job) { OpenNewKeeps(h, s, t, job); }
    else if contents :| WriteMore(s, t, contents) { WriteMoreKeeps(h, s, t, contents); }
    else if FinishTable(h, s, t) { FinishTableKeeps(h, s, t); }
    else if SyncName(s, t) { SyncNameKeeps(h, s, t); }
    else if PrepareManifest(s, t) { PrepareManifestKeeps(h, s, t); }
    else if job :| Swap(s, t, job) { SwapKeeps(h, s, t, job); }
    else if Commit(s, t) { CommitKeeps(h, s, t); }
    else if Latch(s, t) { LatchKeeps(h, s, t); }
    else if Cut(s, t) { CutKeeps(h, s, t); }
    else if CutDone(s, t) { CutDoneKeeps(h, s, t); }
    else if Clear(s, t) { ClearKeeps(h, s, t); }
    else if i :| Discard(s, t, i) { DiscardKeeps(h, s, t, i); }
    else { ReturnKeeps(h, s, t); }
  }
}
