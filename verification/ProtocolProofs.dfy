/** Every reachable state, crashed or not, means exactly the operations in effect. */
module ProtocolProofs {
  import opened Bytes
  import opened Bloom
  import opened TableFormat
  import opened Tables
  import opened Views
  import opened Storage
  import opened Protocol
  import Wal = WalFormat
  import WalProofs
  import M = ManifestFormat

  // ---------------------------------------------------------------- the invariant

  ghost predicate Stored(h: Hash, d: State, i: nat) {
    Settled(d, i) && exists t :: Holds(h, i, t, d.files[i])
  }

  /** The manifest parses, its list is strictly ascending below its next index, its files are complete. */
  ghost predicate GoodCatalog(h: Hash, d: State, m: Option<string>) {
    && ReadCatalog(m).Some?
    && ReadCatalog(m).value.next < U64
    && M.StrictlySorted(ReadCatalog(m).value.indices)
    && forall i :: i in ReadCatalog(m).value.indices ==> i < ReadCatalog(m).value.next && Stored(h, d, i)
  }

  /** Every manifest a restart may find is good and counts no further than next. */
  ghost predicate AllGood(h: Hash, d: State, next: nat) {
    forall m :: MayFindManifest(d, m) ==> GoodCatalog(h, d, m) && ReadCatalog(m).value.next <= next
  }

  /** Under every manifest a restart may find, mem means store. */
  ghost predicate Means(d: State, mem: Table, store: Store) {
    forall m :: MayFindManifest(d, m) ==> Meaning(d.files, m, mem) == store
  }

  ghost predicate LogInv(d: State, e: Engine, store: Store, doubt: Option<Wal.LogRecord>) {
    && Wal.Recover(d.walBase).end == |d.walBase|
    && Consecutive(LogRecords(d.walBase)) && e.index < U64
    && (LogRecords(d.walBase) != [] ==> e.index == NextIndex(LogRecords(d.walBase)))
    && (doubt.None? ==> d.walTail == [])
    && (doubt.Some? ==> Wal.Valid(doubt.value) && doubt.value.index == e.index &&
                        d.walTail <= Wal.PrintRecord(doubt.value))
    && (!e.latched ==> doubt.None? && !d.walCut && Replay(LogRecords(d.walBase)) == e.mem)
    && (Replay(LogRecords(d.walBase)) == e.mem || (d.walBase == [] && Means(d, map[], store)))
    && (d.walCut ==> Means(d, map[], store))
  }

  ghost predicate NewTableHolds(h: Hash, d: State, e: Engine, job: Job) {
    e.next in d.files && Holds(h, e.next, Content(job, e.mem), d.files[e.next])
  }

  /** The current tables alone already mean store, and no older manifest can come back. */
  ghost predicate Absorbed(d: State, store: Store) {
    d.stale == {} && Meaning(d.files, d.manifest, map[]) == store
  }

  ghost predicate PhaseInv(h: Hash, s: Sys, e: Engine, store: Store)
    requires s.mode.Up?
  {
    match e.phase
    case Idle => true
    case Writing(job) => JobFits(s, job) && e.next + 1 < U64
    case Written(job) => JobFits(s, job) && e.next + 1 < U64 && NewTableHolds(h, s.d, e, job) && e.next !in s.d.dirtyData
    case Ready(job) => JobFits(s, job) && e.next + 1 < U64 && NewTableHolds(h, s.d, e, job) && Settled(s.d, e.next)
    case Swapped(job) => Installed(s, job, store)
    case Committed(job) => Installed(s, job, store) && s.d.stale == {}
    case Latched => Absorbed(s.d, store) && e.latched
    case Emptied => Absorbed(s.d, store) && e.latched && s.doubt.None? && s.d.walBase == [] && !s.d.walCut
  }

  /** After the swap: a flush no longer needs the memtable, a compaction no longer lists its inputs. */
  ghost predicate Installed(s: Sys, job: Job, store: Store)
    requires s.mode.Up?
  {
    match job
    case FlushJob => Meaning(s.d.files, s.d.manifest, map[]) == store
    case CompactJob(olds, merged) => forall i :: i in olds ==> i !in CurrentIndices(s)
  }

  ghost predicate UpInv(h: Hash, s: Sys) {
    && s.mode.Up?
    && UpWith(h, s, s.mode.engine, ApplyAll(s.applied))
  }

  ghost predicate UpWith(h: Hash, s: Sys, e: Engine, store: Store)
    requires s.mode.Up?
  {
    && AllGood(h, s.d, e.next) && e.next < U64
    && s.d.manifest.Some? && ReadCatalog(s.d.manifest).value.next == e.next
    && Means(s.d, e.mem, store)
    && TableFits(e.mem) && e.size == LiveBytes(e.mem) + e.debt
    && LogInv(s.d, e, store, s.doubt)
    && PhaseInv(h, s, e, store)
  }

  /** What holds of the disk alone at any crash: every recovery means the operations in effect. */
  ghost predicate CrashInv(h: Hash, s: Sys) {
    && AllGood(h, s.d, U64)
    && (s.doubt.Some? ==> Wal.Valid(s.doubt.value))
    && forall w :: MayFindLog(s.d, w) ==> LogFoundInv(s, w)
  }

  ghost predicate LogFoundInv(s: Sys, w: Bytes) {
    && Consecutive(LogRecords(w))
    && Means(s.d, Replay(LogRecords(w)), ApplyAll(Resolved(s, w)))
  }

  ghost predicate RecoveredInv(d: State, mem: Table, size: int, index: nat) {
    && Wal.Recover(d.walBase).end == |d.walBase| && d.walTail == [] && !d.walCut
    && mem == Replay(LogRecords(d.walBase)) && size == LiveBytes(mem) && index == NextIndex(LogRecords(d.walBase))
  }

  ghost predicate Inv(h: Hash, s: Sys) {
    match s.mode
    case Down => CrashInv(h, s)
    case Booting => CrashInv(h, s) && s.doubt.None? && s.d.stale == {} && !s.d.walCut
    case Recovered(mem, size, index) =>
      CrashInv(h, s) && s.doubt.None? && s.d.stale == {} && RecoveredInv(s.d, mem, size, index)
    case Creating(mem, size, index) =>
      CrashInv(h, s) && s.doubt.None? && RecoveredInv(s.d, mem, size, index) &&
      s.d.stale == {None} && s.d.manifest == Some(M.ManifestText(0, []))
    case Up(e) => UpInv(h, s)
  }

  // ---------------------------------------------------------------- frames

  /** A manifest whose files are untouched keeps its meaning. */
  lemma {:induction false} KeepsMeaning(h: Hash, d: State, d': State, m: Option<string>)
    requires GoodCatalog(h, d, m)
    requires forall i :: i in ReadCatalog(m).value.indices ==> Settled(d', i) && d'.files[i] == d.files[i]
    ensures GoodCatalog(h, d', m)
    ensures forall mem :: Meaning(d'.files, m, mem) == Meaning(d.files, m, mem)
  {
    hide View, Decode, Holds;
    var c := ReadCatalog(m).value;
    forall n | 0 <= n < |c.indices| ensures TableAt(d'.files, c.indices[n]) == TableAt(d.files, c.indices[n]) {
      assert c.indices[n] in c.indices;
      assert Stored(h, d, c.indices[n]);
    }
    assert TablesAt(d'.files, c.indices) == TablesAt(d.files, c.indices);
  }

  /** A change to files no manifest lists, with no new manifest to find, keeps every meaning. */
  lemma {:induction false} KeepsAll(h: Hash, d: State, d': State, next: nat)
    requires AllGood(h, d, next)
    requires forall m :: MayFindManifest(d', m) ==> MayFindManifest(d, m)
    requires forall i: nat :: i < next && Settled(d, i) ==> Settled(d', i) && d'.files[i] == d.files[i]
    ensures AllGood(h, d', next)
    ensures forall m, mem :: MayFindManifest(d', m) ==> Meaning(d'.files, m, mem) == Meaning(d.files, m, mem)
  {
    hide ReadCatalog, Meaning, MayFindManifest, Holds;
    forall m | MayFindManifest(d', m)
      ensures GoodCatalog(h, d', m) && ReadCatalog(m).value.next <= next
      ensures forall mem :: Meaning(d'.files, m, mem) == Meaning(d.files, m, mem)
    {
      KeepsMeaning(h, d, d', m);
    }
  }

  // ---------------------------------------------------------------- logs

  lemma {:induction false} ReplaySnoc(rs: seq<Wal.LogRecord>, r: Wal.LogRecord)
    ensures Replay(rs + [r]) == ApplyToTable(Replay(rs), Operation(r))
  {
    assert (rs + [r])[..|rs|] == rs;
  }

  lemma {:induction false} ReplayFits(rs: seq<Wal.LogRecord>)
    requires Wal.AllValid(rs)
    ensures TableFits(Replay(rs))
  {
    if rs != [] {
      var n := |rs| - 1;
      ReplayFits(rs[..n]);
      assert rs[n] in rs;
    }
  }

  lemma {:induction false} ConsecutiveSnoc(rs: seq<Wal.LogRecord>, r: Wal.LogRecord)
    requires Consecutive(rs) && (rs != [] ==> r.index == NextIndex(rs))
    ensures Consecutive(rs + [r])
  {
  }

  /** A clean log with one more record is a clean log of one more record. */
  lemma {:induction false} AppendedLog(base: Bytes, r: Wal.LogRecord)
    requires Wal.Recover(base).end == |base| && Wal.Valid(r)
    ensures var w := base + Wal.PrintRecord(r);
            Wal.Recover(w).end == |w| && LogRecords(w) == LogRecords(base) + [r]
  {
    hide Wal.Recover, Wal.PrintRecord, Wal.Valid;
    var rs := LogRecords(base);
    WalProofs.RecoverySound(base);
    assert base[..|base|] == base;
    ConcatSnoc(Wal.PrintRecord, rs, r);
    WalProofs.RecoveryClean(rs + [r]);
  }

  /** A clean log with part of one more record is that log, torn. */
  lemma {:induction false} TornLog(base: Bytes, r: Wal.LogRecord, p: Bytes)
    requires Wal.Recover(base).end == |base| && Wal.Valid(r) && p < Wal.PrintRecord(r)
    ensures LogRecords(base + p) == LogRecords(base)
  {
    hide Wal.Recover, Wal.PrintRecord, Wal.Valid;
    WalProofs.RecoverySound(base);
    assert base[..|base|] == base;
    WalProofs.RecoveryTorn(LogRecords(base), r, p);
  }

  lemma NoRecords()
    ensures Wal.Recover([]).end == 0 && LogRecords([]) == [] && Replay([]) == map[]
  {
    assert Wal.PrintLog([]) == [];
    WalProofs.RecoveryClean([]);
  }

  // ---------------------------------------------------------------- what a crash can leave

  /** A running engine may lose power at any point. */
  lemma {:induction false} UpSurvivesCrash(h: Hash, s: Sys)
    requires UpInv(h, s)
    ensures CrashInv(h, s)
  {
    hide Meaning, Replay, Wal.Recover, Wal.PrintRecord, Wal.Valid, GoodCatalog, TableFits, PhaseInv;
    forall w | MayFindLog(s.d, w) ensures LogFoundInv(s, w) {
      FoundLog(h, s, w);
    }
  }

  lemma {:induction false} FoundLog(h: Hash, s: Sys, w: Bytes)
    requires UpInv(h, s) && MayFindLog(s.d, w)
    ensures LogFoundInv(s, w)
  {
    hide Meaning, Replay, Wal.Recover, Wal.PrintRecord, Wal.Valid, GoodCatalog, AllGood, TableFits, PhaseInv, LiveBytes;
    var base, e := s.d.walBase, s.mode.engine;
    NoRecords();
    if s.d.walCut && w == [] {
      assert !Kept(s, w);
    } else {
      var p := w[|base|..];
      assert w == base + p;
      if p == [] {
        assert w == base;
      } else {
        assert p == w[|base|..] && p <= s.d.walTail;
        var r := s.doubt.value;
        assert p <= Wal.PrintRecord(r);
        if p == Wal.PrintRecord(r) {
          FoundDoubtful(h, s, w);
        } else {
          TornLog(base, r, p);
        }
      }
    }
  }

  /** The in-doubt record survived in full: it takes effect. */
  lemma {:induction false} FoundDoubtful(h: Hash, s: Sys, w: Bytes)
    requires UpInv(h, s) && s.doubt.Some? && w == s.d.walBase + Wal.PrintRecord(s.doubt.value)
    ensures LogFoundInv(s, w)
  {
    hide Meaning, Replay, Wal.Recover, Wal.PrintRecord, Wal.Valid, GoodCatalog, AllGood, TableFits, PhaseInv, LiveBytes;
    var base, e, r := s.d.walBase, s.mode.engine, s.doubt.value;
    AppendedLog(base, r);
    ReplaySnoc(LogRecords(base), r);
    ConsecutiveSnoc(LogRecords(base), r);
    NoRecords();
    assert Kept(s, w);
    assert Means(s.d, Replay(LogRecords(base)), ApplyAll(s.applied));
    forall m | MayFindManifest(s.d, m)
      ensures Meaning(s.d.files, m, Replay(LogRecords(w))) == ApplyAll(Resolved(s, w))
    {
      MeaningOfWrite(s.d.files, m, Replay(LogRecords(base)), Operation(r));
      ApplySnoc(s.applied, Operation(r));
    }
  }

  lemma {:induction false} MeaningOfWrite(files: map<nat, Bytes>, m: Option<string>, mem: Table, op: Op)
    ensures Meaning(files, m, ApplyToTable(mem, op)) == Apply(Meaning(files, m, mem), op)
  {
    hide View, ApplyToTable, Apply;
    var c := ReadCatalog(m);
    WriteThrough(mem, TablesAt(files, if c.Some? then c.value.indices else []), op);
  }

  lemma {:induction false} ApplySnoc(ops: seq<Op>, op: Op)
    ensures ApplyAll(ops + [op]) == Apply(ApplyAll(ops), op)
  {
    assert (ops + [op])[..|ops|] == ops;
  }
}
