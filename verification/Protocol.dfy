/** The engine's protocol: every durable step of set, del, flush, compact and recovery, with crashes between. */
module Protocol {
  import opened Bytes
  import opened Bloom
  import opened TableFormat
  import opened Tables
  import opened Views
  import opened Storage
  import Wal = WalFormat
  import M = ManifestFormat

  // ---------------------------------------------------------------- reading durable state

  datatype Catalog = Catalog(next: nat, indices: seq<nat>)

  /** What a manifest file says; a missing one is created with next index 0 and no tables. */
  function ReadCatalog(m: Option<string>): Option<Catalog> {
    if m.None? then Some(Catalog(0, []))
    else
      var header :- M.ParseHeader(m.value);
      var indices :- M.ParseIndices(m.value);
      Some(Catalog(header.next, indices))
  }

  function TableAt(files: map<nat, Bytes>, i: nat): Table {
    if i in files then Decode(files[i], i) else map[]
  }

  function TablesAt(files: map<nat, Bytes>, indices: seq<nat>): (tables: seq<Table>)
    ensures |tables| == |indices|
    ensures forall n :: 0 <= n < |indices| ==> tables[n] == TableAt(files, indices[n])
  {
    seq(|indices|, n requires 0 <= n < |indices| => TableAt(files, indices[n]))
  }

  /** The store that manifest m and its files mean under a memtable. */
  function Meaning(files: map<nat, Bytes>, m: Option<string>, mem: Table): Store {
    var c := ReadCatalog(m);
    View(mem, TablesAt(files, if c.Some? then c.value.indices else []))
  }

  function Operation(r: Wal.LogRecord): Op {
    if r.op == Wal.SET then Put(r.key, r.val) else Delete(r.key)
  }

  /** Left-to-right replay of log records. */
  function Replay(rs: seq<Wal.LogRecord>): Table {
    if rs == [] then map[] else ApplyToTable(Replay(rs[..|rs| - 1]), Operation(rs[|rs| - 1]))
  }

  function LogRecords(w: Bytes): seq<Wal.LogRecord> {
    Wal.Recover(w).records
  }

  /** The index that follows the last record. */
  function NextIndex(rs: seq<Wal.LogRecord>): nat {
    if rs == [] then 0 else (rs[|rs| - 1].index + 1) % U64
  }

  /** Record indices go up by one, wrapping at 64 bits. */
  ghost predicate Consecutive(rs: seq<Wal.LogRecord>) {
    forall i :: 0 < i < |rs| ==> rs[i].index == (rs[i - 1].index + 1) % U64
  }

  // ---------------------------------------------------------------- states

  /** What a flush or a compaction is writing. */
  datatype Job = FlushJob | CompactJob(olds: seq<nat>, merged: Table)

  /** How far the running operation has got. */
  datatype Phase =
    | Idle
    | Writing(job: Job)    // the new SSTable is open for writing
    | Written(job: Job)    // its contents are complete and synced
    | Ready(job: Job)      // its name is synced too
    | Swapped(job: Job)    // the new manifest has been renamed into place
    | Committed(job: Job)  // the rename is synced
    | Latched              // the log is being truncated and refuses writes
    | Emptied              // the truncated log is synced

  /** The volatile state; debt is the key bytes counted for deletes since the last flush or restart. */
  datatype Engine = Engine(mem: Table, size: int, debt: nat, next: nat, index: nat, latched: bool, phase: Phase)

  datatype Mode =
    | Down
    | Booting
    | Recovered(mem: Table, size: int, index: nat)
    | Creating(mem: Table, size: int, index: nat)
    | Up(engine: Engine)

  /**
   * applied lists the operations in effect; doubt is an append that failed or was interrupted, whose
   * record may or may not be found by the next recovery.
   */
  datatype Sys = Sys(d: State, mode: Mode, applied: seq<Op>, doubt: Option<Wal.LogRecord>)

  function Content(job: Job, mem: Table): Table {
    if job.FlushJob? then mem else job.merged
  }

  // ---------------------------------------------------------------- steps

  /** A set of any pair, or a delete of a live key. */
  ghost predicate Loggable(s: Sys, r: Wal.LogRecord)
    requires s.mode.Up?
  {
    && Wal.Valid(r) && r.index == s.mode.engine.index
    && (r.op == Wal.DEL ==> r.val == [] && r.key in Meaning(s.d.files, s.d.manifest, s.mode.engine.mem))
  }

  function SizeAfter(e: Engine, r: Wal.LogRecord): int {
    if r.op == Wal.SET then
      e.size - (if r.key in e.mem then Weight(r.key, e.mem[r.key]) else 0) + |r.key| + |r.val|
    else if r.key in e.mem then e.size - |if e.mem[r.key].Some? then e.mem[r.key].value else []|
    else e.size + |r.key|
  }

  function AfterWrite(e: Engine, r: Wal.LogRecord): Engine {
    e.(mem := ApplyToTable(e.mem, Operation(r)), size := SizeAfter(e, r), index := (e.index + 1) % U64,
       debt := if r.op == Wal.SET then e.debt else e.debt + |r.key|)
  }

  ghost predicate IsIdle(s: Sys) {
    s.mode.Up? && s.mode.engine.phase.Idle?
  }

  /** A record is appended and synced, and the memtable follows. */
  ghost predicate Append(s: Sys, t: Sys, r: Wal.LogRecord) {
    && IsIdle(s) && !s.mode.engine.latched && Loggable(s, r)
    && t == s.(d := SyncLog(AppendLog(s.d, Wal.PrintRecord(r))),
               mode := Up(AfterWrite(s.mode.engine, r)), applied := s.applied + [Operation(r)])
  }

  /** An append stops partway, or its sync fails: the log refuses further writes. */
  ghost predicate TornAppend(s: Sys, t: Sys, r: Wal.LogRecord, p: Bytes) {
    && IsIdle(s) && !s.mode.engine.latched && Loggable(s, r) && p <= Wal.PrintRecord(r)
    && t == s.(d := AppendLog(s.d, p), mode := Up(s.mode.engine.(latched := true)), doubt := Some(r))
  }

  /** The tables the running engine sees. */
  function CurrentIndices(s: Sys): seq<nat> {
    var c := ReadCatalog(s.d.manifest);
    if c.Some? then c.value.indices else []
  }

  ghost predicate JobFits(s: Sys, job: Job)
    requires s.mode.Up?
  {
    match job
    case FlushJob => s.mode.engine.mem != map[]
    case CompactJob(olds, merged) =>
      olds == CurrentIndices(s) && merged == Compacted(TablesAt(s.d.files, olds))
  }

  function InPhase(s: Sys, d: State, phase: Phase): Sys
    requires s.mode.Up?
  {
    s.(d := d, mode := Up(s.mode.engine.(phase := phase)))
  }

  ghost predicate OpenNew(s: Sys, t: Sys, job: Job) {
    && IsIdle(s) && JobFits(s, job) && Content(job, s.mode.engine.mem) != map[]
    && s.mode.engine.next + 1 < U64
    && t == InPhase(s, OpenTable(s.d, s.mode.engine.next), Writing(job))
  }

  ghost predicate WriteMore(s: Sys, t: Sys, contents: Bytes) {
    && s.mode.Up? && s.mode.engine.phase.Writing?
    && t == s.(d := WriteTable(s.d, s.mode.engine.next, contents))
  }

  ghost predicate FinishTable(h: Hash, s: Sys, t: Sys) {
    && s.mode.Up? && s.mode.engine.phase.Writing? && s.mode.engine.next in s.d.files
    && Holds(h, s.mode.engine.next, Content(s.mode.engine.phase.job, s.mode.engine.mem),
             s.d.files[s.mode.engine.next])
    && t == InPhase(s, SyncTable(s.d, s.mode.engine.next), Written(s.mode.engine.phase.job))
  }

  ghost predicate SyncName(s: Sys, t: Sys) {
    && s.mode.Up? && s.mode.engine.phase.Written?
    && t == InPhase(s, SyncDirectory(s.d), Ready(s.mode.engine.phase.job))
  }

  ghost predicate PrepareManifest(s: Sys, t: Sys) {
    !s.mode.Down? && exists text: string, synced: bool :: t == s.(d := WriteTemp(s.d, text, synced))
  }

  /** The manifest this job will install: next index and list. */
  function NewCatalog(s: Sys, job: Job): Catalog
    requires s.mode.Up?
  {
    var next, now := s.mode.engine.next, CurrentIndices(s);
    match job
    case FlushJob => Catalog(next + 1, now + [next])
    case CompactJob(olds, merged) =>
      if merged == map[] then Catalog(next, M.Subtract(now, olds))
      else Catalog(next + 1, M.Subtract(now, olds) + [next])
  }

  ghost predicate TempIs(d: State, c: Catalog) {
    d.tempSynced && d.temp == M.ManifestText(c.next, c.indices)
  }

  ghost predicate Swap(s: Sys, t: Sys, job: Job) {
    && s.mode.Up?
    && (|| s.mode.engine.phase == Ready(job)
        || (IsIdle(s) && job.CompactJob? && job.merged == map[] && JobFits(s, job)))
    && TempIs(s.d, NewCatalog(s, job))
    && t == s.(d := RenameTemp(s.d),
               mode := Up(s.mode.engine.(next := NewCatalog(s, job).next, phase := Swapped(job))))
  }

  ghost predicate Commit(s: Sys, t: Sys) {
    && s.mode.Up? && s.mode.engine.phase.Swapped?
    && t == InPhase(s, SyncDirectory(s.d), Committed(s.mode.engine.phase.job))
  }

  /** Wal::truncate begins by refusing writes. */
  ghost predicate Latch(s: Sys, t: Sys) {
    && s.mode.Up? && s.mode.engine.phase == Committed(FlushJob)
    && t == s.(mode := Up(s.mode.engine.(phase := Latched, latched := true)))
  }

  ghost predicate Cut(s: Sys, t: Sys) {
    && s.mode.Up? && s.mode.engine.phase.Latched?
    && t == s.(d := CutLog(s.d))
  }

  ghost predicate CutDone(s: Sys, t: Sys) {
    && s.mode.Up? && s.mode.engine.phase.Latched? && s.d.walCut
    && t == InPhase(s, SyncCutLog(s.d), Emptied).(doubt := None)
  }

  /** The log accepts writes again and the memtable is cleared. */
  ghost predicate Clear(s: Sys, t: Sys) {
    && s.mode.Up? && s.mode.engine.phase.Emptied?
    && t == s.(mode := Up(s.mode.engine.(mem := map[], size := 0, debt := 0, latched := false, phase := Idle)))
  }

  /** Compaction deletes an old file. */
  ghost predicate Discard(s: Sys, t: Sys, i: nat) {
    && s.mode.Up? && s.mode.engine.phase.Committed? && s.mode.engine.phase.job.CompactJob?
    && i in s.mode.engine.phase.job.olds
    && t == s.(d := RemoveTable(s.d, i))
  }

  /** The operation returns, having finished or failed. */
  ghost predicate Return(s: Sys, t: Sys) {
    && s.mode.Up? && t == InPhase(s, s.d, Idle)
  }

  /** The process dies. */
  ghost predicate Crash(s: Sys, t: Sys) {
    t == s.(mode := Down)
  }

  /** The in-doubt record is found in w. */
  ghost predicate Kept(s: Sys, w: Bytes) {
    s.doubt.Some? && |LogRecords(w)| > |LogRecords(s.d.walBase)|
  }

  ghost function Resolved(s: Sys, w: Bytes): seq<Op> {
    if Kept(s, w) then s.applied + [Operation(s.doubt.value)] else s.applied
  }

  /** The next process starts from what is found on disk. */
  ghost predicate Boot(s: Sys, t: Sys) {
    && s.mode.Down? && t.mode.Booting? && MayRestartAs(s.d, t.d)
    && t.applied == Resolved(s, t.d.walBase) && t.doubt == None
  }

  ghost predicate CutTail(s: Sys, t: Sys) {
    && s.mode.Booting? && s.d.walTail == []
    && t == s.(d := ShrinkLog(s.d, Wal.Recover(s.d.walBase).end))
  }

  ghost function Replayed(rs: seq<Wal.LogRecord>): Mode {
    Recovered(Replay(rs), LiveBytes(Replay(rs)), NextIndex(rs))
  }

  ghost predicate RecoverLog(s: Sys, t: Sys) {
    && s.mode.Booting? && Wal.Recover(s.d.walBase).end == |s.d.walBase|
    && t == s.(d := SyncShrunkLog(s.d), mode := Replayed(LogRecords(s.d.walBase)))
  }

  ghost predicate LoadManifest(s: Sys, t: Sys) {
    && s.mode.Recovered? && s.d.manifest.Some? && M.ParseHeader(s.d.manifest.value).Some?
    && t == s.(mode := Up(Engine(s.mode.mem, s.mode.size, 0, M.ParseHeader(s.d.manifest.value).value.next,
                                 s.mode.index, false, Idle)))
  }

  ghost predicate CreateManifest(s: Sys, t: Sys) {
    && s.mode.Recovered? && s.d.manifest.None? && TempIs(s.d, Catalog(0, []))
    && t == s.(d := RenameTemp(s.d), mode := Creating(s.mode.mem, s.mode.size, s.mode.index))
  }

  ghost predicate CreateDone(s: Sys, t: Sys) {
    && s.mode.Creating?
    && t == s.(d := SyncDirectory(s.d),
               mode := Up(Engine(s.mode.mem, s.mode.size, 0, 0, s.mode.index, false, Idle)))
  }

  /** One step of a running engine. */
  ghost predicate Work(h: Hash, s: Sys, t: Sys) {
    || (exists r :: Append(s, t, r))
    || (exists r, p :: TornAppend(s, t, r, p))
    || (exists job :: OpenNew(s, t, job))
    || (exists contents :: WriteMore(s, t, contents))
    || FinishTable(h, s, t) || SyncName(s, t)
    || PrepareManifest(s, t) || (exists job :: Swap(s, t, job)) || Commit(s, t)
    || Latch(s, t) || Cut(s, t) || CutDone(s, t) || Clear(s, t)
    || (exists i :: Discard(s, t, i)) || Return(s, t)
  }

  ghost predicate Next(h: Hash, s: Sys, t: Sys) {
    || Work(h, s, t)
    || Crash(s, t) || Boot(s, t) || CutTail(s, t) || RecoverLog(s, t)
    || LoadManifest(s, t) || CreateManifest(s, t) || CreateDone(s, t)
  }

  /** The first start of an engine on an empty directory. */
  ghost predicate Init(s: Sys) {
    s == Sys(FRESH, Booting, [], None)
  }

  ghost predicate IsRun(h: Hash, run: seq<Sys>) {
    forall i :: 0 <= i < |run| - 1 ==> Next(h, run[i], run[i + 1])
  }
}
