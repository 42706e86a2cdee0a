/** The log, the manifest and the engine as objects; every public operation is a run of the protocol. */
module Engine {
  import opened Bytes
  import opened Crc
  import opened Order
  import opened Bloom
  import opened TableFormat
  import opened TableProofs
  import opened Tables
  import opened Views
  import opened Storage
  import opened Devices
  import opened Protocol
  import opened ProtocolProofs
  import opened SsTableReader
  import opened Queries
  import opened Operations
  import SsTableFile
  import SsTableWriter
  import ProtocolSteps
  import Runs
  import L = WalFormat
  import WalProofs
  import M = ManifestFormat

  const MEM_TABLE_SIZE_LIMIT: nat := 1000

  // ---------------------------------------------------------------- the log

  lemma {:induction false} PrefixOfMore(x: Bytes, y: Bytes, p: Bytes)
    requires p <= y
    ensures x + p <= x + y
  {
    assert x + y == x + p + y[|p|..];
  }

  /** A chain of write_bytes calls on the log: on failure some prefix of all of it was appended. */
  method AppendFields(disk: Disk, fields: seq<Bytes>) returns (ok: bool)
    modifies disk
    ensures disk.Blames(old(disk.failures), ok)
    ensures exists p :: p <= SsTableFile.Flat(fields) && (ok ==> p == SsTableFile.Flat(fields)) &&
                        disk.s == AppendLog(old(disk.s), p)
  {
    ghost var done: Bytes := [];
    assert old(disk.s).walTail + [] == old(disk.s).walTail;
    var n := 0;
    while n < |fields|
      invariant n <= |fields| && done == SsTableFile.Flat(fields[..n]) && disk.s == AppendLog(old(disk.s), done)
      invariant disk.failures == old(disk.failures)
    {
      ghost var before := disk.s;
      ok := disk.AppendLog(fields[n]);
      ghost var p :| p <= fields[n] && (ok ==> p == fields[n]) && disk.s == AppendLog(before, p);
      assert old(disk.s).walTail + done + p == old(disk.s).walTail + (done + p);
      assert fields[..n + 1][..n] == fields[..n];
      if !ok {
        PrefixOfMore(done, fields[n], p);
        FlatPrefix(fields, n + 1);
        assert done + p <= SsTableFile.Flat(fields) && disk.s == AppendLog(old(disk.s), done + p);
        return;
      }
      done := done + fields[n];
      n := n + 1;
    }
    assert fields[..n] == fields;
    ok := true;
  }

  lemma {:induction false} FlatPrefix(fields: seq<Bytes>, n: nat)
    requires n <= |fields|
    ensures SsTableFile.Flat(fields[..n]) <= SsTableFile.Flat(fields)
    decreases |fields| - n
  {
    if n == |fields| {
      assert fields[..n] == fields;
    } else {
      assert fields[..n + 1][..n] == fields[..n];
      FlatPrefix(fields, n + 1);
    }
  }

  lemma {:induction false} RecordFields(r: L.LogRecord)
    ensures SsTableFile.Flat([Le32(L.MAGIC), [L.VERSION], Le64(r.index), [r.op], Le32(|r.key|), Le32(|r.val|),
                              CrcBytes(L.HeaderSum(r)), r.key, r.val, CrcBytes(L.RecordSum(r))]) == L.PrintRecord(r)
  {
    hide Le32, Le64, L.HeaderSum, L.RecordSum, SsTableFile.Flat;
    var a, b, c, d, e := Le32(L.MAGIC), [L.VERSION], Le64(r.index), [r.op], Le32(|r.key|);
    var f, g, i, j, k := Le32(|r.val|), CrcBytes(L.HeaderSum(r)), r.key, r.val, CrcBytes(L.RecordSum(r));
    SsTableFile.Flat5(a, b, c, d, e);
    Flat5More(a, b, c, d, e, f, g, i, j, k);
    assert a + (b + (c + (d + e))) + f + g + i + j + k ==
      a + ((b + (c + (d + (e + f)))) + (g + (i + (j + k))));
  }

  lemma {:induction false} Flat5More(a: Bytes, b: Bytes, c: Bytes, d: Bytes, e: Bytes,
                  f: Bytes, g: Bytes, i: Bytes, j: Bytes, k: Bytes)
    ensures SsTableFile.Flat([a, b, c, d, e, f, g, i, j, k]) == SsTableFile.Flat([a, b, c, d, e]) + f + g + i + j + k
  {
    hide SsTableFile.Flat;
    assert [a, b, c, d, e] + [f] == [a, b, c, d, e, f];
    assert [a, b, c, d, e, f] + [g] == [a, b, c, d, e, f, g];
    assert [a, b, c, d, e, f, g] + [i] == [a, b, c, d, e, f, g, i];
    assert [a, b, c, d, e, f, g, i] + [j] == [a, b, c, d, e, f, g, i, j];
    assert [a, b, c, d, e, f, g, i, j] + [k] == [a, b, c, d, e, f, g, i, j, k];
    FlatSnoc([a, b, c, d, e], f);
    FlatSnoc([a, b, c, d, e, f], g);
    FlatSnoc([a, b, c, d, e, f, g], i);
    FlatSnoc([a, b, c, d, e, f, g, i], j);
    FlatSnoc([a, b, c, d, e, f, g, i, j], k);
  }

  lemma {:induction false} FlatSnoc(fields: seq<Bytes>, x: Bytes)
    ensures SsTableFile.Flat(fields + [x]) == SsTableFile.Flat(fields) + x
  {
    assert (fields + [x])[..|fields|] == fields;
  }

  /** Header, header checksum, key, value, record checksum: the writes of one record, not yet synced. */
  method AppendRecord(disk: Disk, r: L.LogRecord) returns (ok: bool)
    modifies disk
    ensures disk.Blames(old(disk.failures), ok)
    ensures exists p :: p <= L.PrintRecord(r) && (ok ==> p == L.PrintRecord(r)) && disk.s == AppendLog(old(disk.s), p)
  {
    hide Crc32, CrcBytes, Matches, L.PrintRecord, L.HeaderSum, L.RecordSum, L.ChainHeader, SsTableFile.Flat, Le32, Le64;
    var header := L.ChainHeader([L.VERSION], Le64(r.index), [r.op], Le32(|r.key|), Le32(|r.val|));
    var sum := Crc32(Crc32(header, r.key), r.val);
    WalProofs.HeaderChain(r);
    WalProofs.RecordChain(r);
    RecordFields(r);
    ok := AppendFields(disk, [Le32(L.MAGIC), [L.VERSION], Le64(r.index), [r.op], Le32(|r.key|), Le32(|r.val|),
                              CrcBytes(header), r.key, r.val, CrcBytes(sum)]);
  }

  class Wal {
    const disk: Disk
    var isOpen: bool
    var index: u64
    var writeFailed: bool

    constructor (disk: Disk)
      ensures this.disk == disk && isOpen && index == 0 && !writeFailed
    {
      this.disk := disk;
      isOpen := true;
      index := 0;
      writeFailed := false;
    }

    /** The record that write lays out. */
    function Record(op: byte, key: Bytes, val: Bytes): L.LogRecord
      reads this
    {
      L.LogRecord(index, op, key, val)
    }

    method Write(op: byte, key: Bytes, val: Bytes) returns (ok: bool)
      modifies this, disk
      ensures isOpen == old(isOpen) && disk.failures >= old(disk.failures)
      ensures ok <==> L.Valid(old(Record(op, key, val))) && old(isOpen && !writeFailed) && disk.failures == old(disk.failures)
      ensures ok ==> L.Valid(old(Record(op, key, val))) && old(isOpen && !writeFailed) && !writeFailed
                     && index == (old(index) + 1) % U64
                     && disk.s == SyncLog(AppendLog(old(disk.s), L.PrintRecord(old(Record(op, key, val)))))
      ensures !ok ==> index == old(index)
      ensures !ok ==> || (disk.s == old(disk.s) && writeFailed == old(writeFailed) &&
                          (!L.Valid(old(Record(op, key, val))) || !old(isOpen) || old(writeFailed)))
                      || (&& L.Valid(old(Record(op, key, val))) && old(isOpen && !writeFailed) && writeFailed
                          && exists p :: p <= L.PrintRecord(old(Record(op, key, val))) &&
                                         disk.s == AppendLog(old(disk.s), p))
    {
      hide L.PrintRecord;
      if op != L.SET && op != L.DEL {
        return false;
      }
      if !isOpen || writeFailed || |key| >= U32 || |val| >= U32 {
        return false;
      }
      var r := Record(op, key, val);
      ok := AppendRecord(disk, r);
      assert r == old(Record(op, key, val));
      if ok {
        ok := disk.SyncLog();
      }
      if !ok {
        writeFailed := true;
        return;
      }
      index := (index + 1) % U64;
    }

    /** truncate: empties the log; on failure it stays closed to writes. Says whether the cut and its sync happened. */
    method Truncate() returns (ok: bool, ghost cut: bool, ghost synced: bool)
      modifies this, disk
      ensures disk.Blames(old(disk.failures), ok)
      ensures index == old(index)
      ensures synced ==> cut
      ensures disk.s == if synced then SyncCutLog(CutLog(old(disk.s)))
                        else if cut then CutLog(old(disk.s)) else old(disk.s)
      ensures ok ==> synced && isOpen && !writeFailed
      ensures !ok ==> writeFailed
    {
      writeFailed := true;
      cut, synced := false, false;
      if isOpen {
        isOpen := false;
        ok := disk.Attempt();
        if !ok {
          return;
        }
      }
      ok := disk.CutLog();
      cut := disk.s == CutLog(old(disk.s));
      if !ok {
        return;
      }
      ok := disk.SyncCutLog();
      if !ok {
        return;
      }
      synced := true;
      ok := disk.Attempt();
      if !ok {
        return;
      }
      isOpen := disk.Attempt();
      writeFailed := !isOpen;
      return !writeFailed, cut, synced;
    }

    /** One turn of the recovery loop: the fields are read in order, each checked as soon as it can be. */
    method ReadRecord(b: Bytes, pos: nat) returns (s: L.Step)
      ensures s == L.ScanRecord(b, pos)
    {
      hide Crc32, CrcBytes, Matches, Read, FromLE;
      var magic := Read(b, pos, 4);
      if magic.None? { return L.Stopped(L.TornTail); }
      if FromLE(magic.value) != L.MAGIC { return L.Stopped(L.CorruptRecord); }
      var version := Read(b, pos + 4, 1);
      if version.None? { return L.Stopped(L.TornTail); }
      if version.value[0] != L.VERSION { return L.Stopped(L.CorruptRecord); }
      var number := Read(b, pos + 5, 8);
      if number.None? { return L.Stopped(L.TornTail); }
      var op := Read(b, pos + 13, 1);
      if op.None? { return L.Stopped(L.TornTail); }
      if op.value[0] != L.SET && op.value[0] != L.DEL { return L.Stopped(L.CorruptRecord); }
      var keyLen := Read(b, pos + 14, 4);
      if keyLen.None? { return L.Stopped(L.TornTail); }
      var valLen := Read(b, pos + 18, 4);
      if valLen.None? { return L.Stopped(L.TornTail); }
      var headerSum := Read(b, pos + 22, 4);
      if headerSum.None? { return L.Stopped(L.TornTail); }
      var crc := Crc32(0, version.value);
      crc := Crc32(crc, number.value);
      crc := Crc32(crc, op.value);
      crc := Crc32(crc, keyLen.value);
      crc := Crc32(crc, valLen.value);
      if !Matches(headerSum.value, crc) { return L.Stopped(L.CorruptRecord); }
      var at := pos + 26;
      var key := Read(b, at, FromLE(keyLen.value));
      if key.None? { return L.Stopped(L.TornTail); }
      at := at + FromLE(keyLen.value);
      var val := Read(b, at, FromLE(valLen.value));
      if val.None? { return L.Stopped(L.TornTail); }
      at := at + FromLE(valLen.value);
      var recordSum := Read(b, at, 4);
      if recordSum.None? { return L.Stopped(L.TornTail); }
      crc := Crc32(crc, key.value);
      crc := Crc32(crc, val.value);
      if !Matches(recordSum.value, crc) { return L.Stopped(L.CorruptRecord); }
      return L.Accepted(L.LogRecord(FromLE(number.value), op.value[0], key.value, val.value), at + 4);
    }

    /** One accepted record takes effect. */
    method ReplayRecord(db: DbEngine, r: L.LogRecord, ghost records: seq<L.LogRecord>)
      requires L.IsOp(r.op) && db.currMemTable == Replay(records) && db.memTableSize == LiveBytes(db.currMemTable)
      modifies this`index, db`currMemTable, db`memTableSize
      ensures db.currMemTable == Replay(records + [r]) && db.memTableSize == LiveBytes(db.currMemTable)
      ensures index == NextIndex(records + [r])
    {
      hide Replay, LiveBytes;
      ReplaySnoc(records, r);
      if r.op == L.SET {
        db.RecoverSet(r.key, r.val);
      } else if r.op == L.DEL {
        db.RecoverDel(r.key);
      }
      index := (r.index + 1) % U64;
    }

    /** The recovery loop: valid records from the start, until the first that is torn or corrupt. */
    method ReplayLog(db: DbEngine, b: Bytes) returns (end: nat, why: L.StopReason)
      requires index == 0 && db.currMemTable == map[] && db.memTableSize == 0
      modifies this`index, db`currMemTable, db`memTableSize
      ensures var found := L.Recover(b);
              && end == found.end && why == found.why
              && db.currMemTable == Replay(found.records) && db.memTableSize == LiveBytes(db.currMemTable)
              && index == NextIndex(found.records)
    {
      hide L.Recover, L.ScanRecord, Replay, LiveBytes;
      end := 0;
      ghost var records: seq<L.LogRecord> := [];
      RecoverStarts(b);
      NoRecords();
      LiveBytesEmpty();
      while true
        invariant end <= |b| && L.ScanLog(b, end, records) == L.Recover(b)
        invariant db.currMemTable == Replay(records) && db.memTableSize == LiveBytes(db.currMemTable)
        invariant index == NextIndex(records)
        decreases |b| - end
      {
        var step := ReadRecord(b, end);
        if step.Stopped? {
          why := step.why;
          return;
        }
        L.AcceptedInside(b, end);
        WalProofs.AcceptedIsPrinted(b, end);
        ReplayRecord(db, step.record, records);
        records := records + [step.record];
        end := step.next;
      }
    }

    /**
     * Replays every valid record into db, cuts off the rest and syncs. On failure the log stays closed
     * to writes; why is the reason reported for the discarded bytes.
     */
    method Recover(db: DbEngine) returns (ok: bool, why: L.StopReason, ghost shrunk: bool)
      requires isOpen && !writeFailed && index == 0 && disk.s.walTail == []
      requires db.currMemTable == map[] && db.memTableSize == 0
      modifies this, disk, db`currMemTable, db`memTableSize
      ensures isOpen && disk.Blames(old(disk.failures), ok)
      ensures var found := L.Recover(old(disk.s).walBase);
              && why == found.why
              && db.currMemTable == Replay(found.records)
              && db.memTableSize == LiveBytes(db.currMemTable)
              && index == NextIndex(found.records)
              && (ok ==> !writeFailed && disk.s == SyncShrunkLog(ShrinkLog(old(disk.s), found.end)))
              && (!ok ==> writeFailed && disk.s == if shrunk then ShrinkLog(old(disk.s), found.end) else old(disk.s))
      ensures var b, found := old(disk.s).walBase, L.Recover(old(disk.s).walBase);
              && (found.records == [] ==> index == 0)
              && (found.records != [] ==> index == (found.records[|found.records| - 1].index + 1) % U64)
              && (why == L.TornTail ==>
                  || |b| - found.end < 26
                  || |b| - found.end < 30 + FromLE(b[found.end + 14..found.end + 18]) + FromLE(b[found.end + 18..found.end + 22]))
              && (why == L.CorruptRecord <==> forall x :: L.Recover(b + x) == found)
    {
      hide L.Recover, Replay, LiveBytes, NextIndex, FromLE;
      writeFailed := true;
      shrunk := false;
      var b := disk.s.walBase;
      WalProofs.TornMeansShort(b);
      WalProofs.CorruptMeansFinal(b);
      NextIndexMeans(L.Recover(b).records);
      var end;
      end, why := ReplayLog(db, b);
      if end < |b| {
        ok := disk.ShrinkLog(end);
        if !ok {
          return;
        }
        shrunk := true;
        ok := disk.SyncShrunkLog();
        if !ok {
          return;
        }
      }
      assert end == |b| ==> b[..end] == b;
      writeFailed := false;
      ok := true;
    }
  }

  lemma {:induction false} NextIndexMeans(rs: seq<L.LogRecord>)
    ensures rs == [] ==> NextIndex(rs) == 0
    ensures rs != [] ==> NextIndex(rs) == (rs[|rs| - 1].index + 1) % U64
  {
  }

  lemma {:induction false} RecoverStarts(b: Bytes)
    ensures L.ScanLog(b, 0, []) == L.Recover(b)
  {
  }

  // ---------------------------------------------------------------- the manifest

  class Manifest {
    const disk: Disk
    var next: nat
    var count: nat
    /** The manifest is open for reading. */
    var readable: bool

    constructor (disk: Disk)
      ensures this.disk == disk
    {
      this.disk := disk;
      next, count, readable := 0, 0, false;
    }

    /** The list that get_ss_table_indices returns; None where it throws. */
    function Listed(): Option<seq<nat>>
      reads this, disk
    {
      if readable && disk.s.manifest.Some? then M.ParseIndices(disk.s.manifest.value) else None
    }

    /** The constructor's work: parse an existing manifest, or create an empty one. */
    method Load() returns (ok: bool, ghost progress: Progress)
      modifies this, disk
      ensures disk.failures >= old(disk.failures)
      ensures ok <==> disk.failures == old(disk.failures) &&
                      (old(disk.s).manifest.Some? ==> M.ParseHeader(old(disk.s).manifest.value).Some?)
      ensures ok ==> readable
      ensures old(disk.s).manifest.Some? ==>
              && disk.s == old(disk.s)
              && (ok ==> M.ParseHeader(disk.s.manifest.value).Some?
                         && next == M.ParseHeader(disk.s.manifest.value).value.next
                         && count == M.ParseHeader(disk.s.manifest.value).value.count)
      ensures old(disk.s).manifest.None? ==> Wrote(old(disk.s), disk.s, 0, [], progress) && (ok ==> progress.Settled? && next == 0 && count == 0)
    {
      hide M.ParseHeader, M.ManifestText;
      progress := NotRenamed;
      if disk.s.manifest.Some? {
        readable := disk.Attempt();
        var header := M.ParseHeader(disk.s.manifest.value);
        if !readable || header.None? {
          return false, progress;
        }
        next, count := header.value.next, header.value.count;
        return true, progress;
      }
      ok, progress := WriteManifest(0, []);
    }

    /** get_ss_table_indices; None where it throws. */
    method GetIndices() returns (r: Option<seq<nat>>)
      ensures r == Listed()
    {
      if !readable || disk.s.manifest.None? {
        return None;
      }
      return M.ParseIndices(disk.s.manifest.value);
    }

    method AddNew(idx: nat) returns (ok: bool, ghost progress: Progress)
      modifies this, disk
      ensures disk.failures >= old(disk.failures)
      ensures ok <==> old(Listed()).Some? && disk.failures == old(disk.failures)
      ensures var now := M.ParseIndices(if old(disk.s).manifest.Some? then old(disk.s).manifest.value else "");
              if now.None? then !ok && progress.NotRenamed? && disk.s == old(disk.s) && next == old(next)
              else Installed(old(disk.s), old(next), ok, idx + 1, now.value + [idx], progress)
      ensures ok ==> progress.Settled? && readable
    {
      hide M.ParseIndices, M.ManifestText;
      var now := GetIndices();
      if now.None? {
        NothingWritten(disk.s);
        return false, NotRenamed;
      }
      ok, progress := WriteManifest(idx + 1, now.value + [idx]);
    }

    method Remove(olds: seq<nat>) returns (ok: bool, ghost progress: Progress)
      modifies this, disk
      ensures disk.failures >= old(disk.failures)
      ensures ok <==> old(Listed()).Some? && disk.failures == old(disk.failures)
      ensures var now := M.ParseIndices(if old(disk.s).manifest.Some? then old(disk.s).manifest.value else "");
              if now.None? then !ok && progress.NotRenamed? && disk.s == old(disk.s) && next == old(next)
              else Installed(old(disk.s), old(next), ok, old(next), M.Subtract(now.value, olds), progress)
      ensures ok ==> progress.Settled? && readable
    {
      hide M.ParseIndices, M.ManifestText, M.Subtract;
      var now := GetIndices();
      if now.None? {
        NothingWritten(disk.s);
        return false, NotRenamed;
      }
      var rest := M.SubtractVectors(now.value, olds);
      ok, progress := WriteManifest(next, rest);
    }

    method Replace(olds: seq<nat>, idx: nat) returns (ok: bool, ghost progress: Progress)
      modifies this, disk
      ensures disk.failures >= old(disk.failures)
      ensures ok <==> old(Listed()).Some? && disk.failures == old(disk.failures)
      ensures var now := M.ParseIndices(if old(disk.s).manifest.Some? then old(disk.s).manifest.value else "");
              if now.None? then !ok && progress.NotRenamed? && disk.s == old(disk.s) && next == old(next)
              else Installed(old(disk.s), old(next), ok, idx + 1, M.Subtract(now.value, olds) + [idx], progress)
      ensures ok ==> progress.Settled? && readable
    {
      hide M.ParseIndices, M.ManifestText, M.Subtract;
      var now := GetIndices();
      if now.None? {
        NothingWritten(disk.s);
        return false, NotRenamed;
      }
      var rest := M.SubtractVectors(now.value, olds);
      ok, progress := WriteManifest(idx + 1, rest + [idx]);
    }

    /** The disk and the cached counters after an attempt to install a manifest. */
    ghost predicate Installed(d: State, oldNext: nat, ok: bool, nextIndex: nat, indices: seq<nat>, progress: Progress)
      reads this, disk
    {
      && Wrote(d, disk.s, nextIndex, indices, progress)
      && next == (if progress.NotRenamed? then oldNext else nextIndex)
      && (!progress.NotRenamed? ==> count == |indices|)
    }

    /** Write and sync the temporary file, rename it, reopen, update the counters, sync the directory. */
    method WriteManifest(nextIndex: nat, indices: seq<nat>) returns (ok: bool, ghost progress: Progress)
      modifies this, disk
      ensures disk.Blames(old(disk.failures), ok)
      ensures Installed(old(disk.s), old(next), ok, nextIndex, indices, progress)
      ensures ok ==> progress.Settled? && readable
    {
      hide M.ManifestText;
      progress := NotRenamed;
      NothingWritten(disk.s);
      ok := disk.Attempt();
      if !ok {
        return;
      }
      ok := disk.WriteTemp(M.ManifestText(nextIndex, indices));
      if !ok {
        return;
      }
      ok := disk.SyncTemp();
      if !ok {
        return;
      }
      assert disk.s == WriteTemp(old(disk.s), M.ManifestText(nextIndex, indices), true);
      ok := disk.Attempt();
      if !ok {
        return;
      }
      ok := disk.RenameTemp();
      readable := disk.Attempt();
      if !ok {
        return;
      }
      progress := Renamed;
      next := nextIndex;
      count := |indices|;
      ok := disk.SyncDirectory();
      if ok {
        progress := Settled;
        ok := readable;
      }
    }
  }

  lemma {:induction false} NothingWritten(d: State)
    ensures d == WriteTemp(d, d.temp, d.tempSynced)
  {
  }

  /** A listed file is complete: both readers agree with the table it decodes to. */
  lemma {:induction false} StoredTable(h: Hash, s: Sys, i: nat)
    requires UpInv(h, s) && i in CurrentIndices(s)
    ensures i in s.d.files && Holds(h, i, TableAt(s.d.files, i), s.d.files[i])
    ensures i < s.mode.engine.next < U64
  {
    hide ReadCatalog, Meaning, LogInv, PhaseInv, Holds, LiveBytes, TableFits, Means, Decode;
    assert MayFindManifest(s.d, s.d.manifest) && GoodCatalog(h, s.d, s.d.manifest);
    assert Stored(h, s.d, i);
    var t :| Holds(h, i, t, s.d.files[i]);
    ScanHolds(h, i, t, s.d.files[i]);
  }

  /** The listed files are there, each listed once. */
  lemma {:induction false} AllStored(h: Hash, s: Sys)
    requires UpInv(h, s)
    ensures M.StrictlySorted(CurrentIndices(s)) && forall i :: i in CurrentIndices(s) ==> i in s.d.files
  {
    hide ReadCatalog, Meaning, LogInv, PhaseInv, Holds, LiveBytes, TableFits, Means, Decode;
    assert MayFindManifest(s.d, s.d.manifest) && GoodCatalog(h, s.d, s.d.manifest);
    forall i | i in CurrentIndices(s) ensures i in s.d.files {
      StoredTable(h, s, i);
    }
  }

  /** A recovered engine finds a manifest that parses, or none. */
  lemma {:induction false} HeaderParses(h: Hash, s: Sys)
    requires Inv(h, s) && s.mode.Recovered?
    ensures s.d.manifest.Some? ==> M.ParseHeader(s.d.manifest.value).Some?
  {
    hide LogFoundInv, RecoveredInv, Holds, Means, M.ParseHeader, M.ParseIndices;
    assert MayFindManifest(s.d, s.d.manifest) && GoodCatalog(h, s.d, s.d.manifest);
  }

  /** What get must return, table by table. */
  lemma {:induction false} NewestServes(s: Sys, key: Bytes)
    requires s.mode.Up?
    ensures var b := NewestBinding(TablesAt(s.d.files, CurrentIndices(s)), key);
            Fetch(Meaning(s.d.files, s.d.manifest, s.mode.engine.mem), key) ==
            if key in s.mode.engine.mem then s.mode.engine.mem[key] else if b.Some? then b.value else None
  {
    hide ReadCatalog, Merge, NewestBinding;
    NewestBindingIsMerge(TablesAt(s.d.files, CurrentIndices(s)), key);
  }

  lemma {:induction false} NewestStep(tables: seq<Table>, n: nat, key: Bytes)
    requires n < |tables|
    ensures NewestBinding(tables[..n + 1], key) ==
            if key in tables[n] then Some(tables[n][key]) else NewestBinding(tables[..n], key)
  {
    assert tables[..n + 1][..n] == tables[..n];
  }

  lemma {:induction false} NewestOfNone(tables: seq<Table>, key: Bytes)
    ensures NewestBinding(tables[..0], key) == None
  {
  }

  lemma {:induction false} RowsAscend(rows: seq<Record>, t: Table, q: Query)
    requires AreRows(rows, t, q)
    ensures AscendingKeys(rows)
  {
  }

  /** The running engine's manifest parses to the indices it sees. */
  lemma {:induction false} CurrentParse(h: Hash, s: Sys)
    requires UpInv(h, s)
    ensures s.d.manifest.Some? && M.ParseIndices(s.d.manifest.value) == Some(CurrentIndices(s))
  {
    hide Meaning, LogInv, PhaseInv, Holds, LiveBytes, TableFits, Means, M.ParseIndices, M.ParseHeader;
    assert MayFindManifest(s.d, s.d.manifest) && GoodCatalog(h, s.d, s.d.manifest);
  }

  /** A sound engine serves the operations in effect. */
  lemma {:induction false} Serves(h: Hash, s: Sys)
    requires UpInv(h, s)
    ensures Meaning(s.d.files, s.d.manifest, s.mode.engine.mem) == ApplyAll(s.applied)
  {
    hide Meaning, ApplyAll, LogInv, PhaseInv, LiveBytes, TableFits, AllGood;
    assert MayFindManifest(s.d, s.d.manifest);
  }

  lemma {:induction false} SizeAndLog(h: Hash, s: Sys)
    requires UpInv(h, s)
    ensures s.mode.engine.size == LiveBytes(s.mode.engine.mem) + s.mode.engine.debt
    ensures !s.mode.engine.latched ==> s.doubt == None
    ensures s.mode.engine.index < U64 && TableFits(s.mode.engine.mem)
  {
    hide Meaning, ApplyAll, PhaseInv, LiveBytes, TableFits, AllGood, Means, Replay, L.Recover;
  }

  lemma {:induction false} FlushFits(s: Sys)
    requires s.mode.Up? && s.mode.engine.mem != map[]
    ensures JobFits(s, FlushJob)
  {
  }

  /** A live key that the memtable knows is live there. */
  lemma {:induction false} LiveInMemory(s: Sys, key: Bytes)
    requires s.mode.Up? && key in Meaning(s.d.files, s.d.manifest, s.mode.engine.mem)
    ensures key in s.mode.engine.mem ==> s.mode.engine.mem[key].Some?
  {
    hide ReadCatalog, Merge;
  }

  class DbEngine {
    const disk: Disk
    const hash: Hash
    const wal: Wal
    const manifest: Manifest
    var currMemTable: Table
    var memTableSize: nat
    /** Key bytes counted for deletes since the last flush or restart. */
    ghost var debt: nat
    ghost var applied: seq<Op>
    ghost var doubt: Option<L.LogRecord>

    predicate ExistsInCurrMemTable(key: Bytes)
      reads this
    {
      key in currMemTable && currMemTable[key].Some?
    }

    method RecoverSet(key: Bytes, val: Bytes)
      requires memTableSize == LiveBytes(currMemTable)
      modifies this`currMemTable, this`memTableSize
      ensures currMemTable == old(currMemTable)[key := Some(val)]
      ensures memTableSize == LiveBytes(currMemTable)
    {
      hide LiveBytes;
      LiveBytesUpdate(currMemTable, key, Some(val));
      if ExistsInCurrMemTable(key) {
        LiveBytesSplit(currMemTable, key);
        memTableSize := memTableSize - (|key| + |currMemTable[key].value|);
      }
      memTableSize := memTableSize + |key| + |val|;
      currMemTable := currMemTable[key := Some(val)];
    }

    method RecoverDel(key: Bytes)
      requires memTableSize == LiveBytes(currMemTable)
      modifies this`currMemTable, this`memTableSize
      ensures currMemTable == old(currMemTable)[key := None]
      ensures memTableSize == LiveBytes(currMemTable)
    {
      hide LiveBytes;
      LiveBytesUpdate(currMemTable, key, None);
      if ExistsInCurrMemTable(key) {
        LiveBytesSplit(currMemTable, key);
        memTableSize := memTableSize - (|key| + |currMemTable[key].value|);
      }
      currMemTable := currMemTable[key := None];
    }

    constructor (disk: Disk, hash: Hash)
      ensures this.disk == disk && this.hash == hash && currMemTable == map[] && memTableSize == 0
      ensures applied == [] && doubt == None && debt == 0
      ensures fresh(wal) && fresh(manifest) && wal.disk == disk && manifest.disk == disk
      ensures wal.isOpen && !wal.writeFailed && wal.index == 0
    {
      this.disk := disk;
      this.hash := hash;
      wal := new Wal(disk);
      manifest := new Manifest(disk);
      currMemTable, memTableSize, debt, applied, doubt := map[], 0, 0, [], None;
    }

    // -------------------------------------------------------------- the abstract state

    ghost function Memory(phase: Phase): Protocol.Engine
      reads this, wal, manifest
    {
      Protocol.Engine(currMemTable, memTableSize, debt, manifest.next, wal.index, wal.writeFailed, phase)
    }

    /** The engine and its disk as a protocol state. */
    ghost function Now(phase: Phase): Sys
      reads this, disk, wal, manifest
    {
      Sys(disk.s, Up(Memory(phase)), applied, doubt)
    }

    ghost predicate Wired()
      reads this, wal, manifest
    {
      wal.disk == disk && manifest.disk == disk && (!wal.isOpen ==> wal.writeFailed)
    }

    ghost predicate Valid()
      reads this, disk, wal, manifest
    {
      Wired() && UpInv(hash, Now(Idle))
    }

    /** The store the engine serves. */
    ghost function Contents(): Store
      reads this, disk
    {
      Meaning(disk.s.files, disk.s.manifest, currMemTable)
    }

    ghost function Tables(): seq<Table>
      reads this, disk, wal, manifest
    {
      TablesAt(disk.s.files, CurrentIndices(Now(Idle)))
    }

    /** What get answers; None where it throws, which takes a manifest that could not be reopened. */
    ghost function Answer(key: Bytes): Option<Option<Bytes>>
      reads this, disk, manifest
    {
      if key in currMemTable || manifest.readable then Some(Fetch(Contents(), key)) else None
    }

    // -------------------------------------------------------------- starting

    /**
     * The C++ constructor's work on what a restart found: recover the log, then load or create the
     * manifest. On failure the process ends, having only taken steps of the protocol.
     */
    method Start() returns (ok: bool)
      requires Wired() && wal.isOpen && !wal.writeFailed && wal.index == 0
      requires currMemTable == map[] && memTableSize == 0 && debt == 0 && doubt == None
      requires disk.s.walTail == [] && Inv(hash, Sys(disk.s, Booting, applied, None))
      modifies this`currMemTable, this`memTableSize, wal, manifest, disk
      ensures disk.Blames(old(disk.failures), ok)
      ensures ok ==> manifest.readable && !wal.writeFailed
      ensures ok ==> forall key :: Answer(key) == Some(Fetch(ApplyAll(applied), key))
      ensures applied == old(applied)
      ensures ok ==> Valid() && Reach(hash, Sys(old(disk.s), Booting, applied, None), Now(Idle))
      ensures ok ==> currMemTable == Replay(LogRecords(old(disk.s).walBase))
      ensures ok ==> Contents() == Meaning(old(disk.s).files, old(disk.s).manifest, currMemTable) == ApplyAll(applied)
      ensures !ok ==> exists mode :: Reach(hash, Sys(old(disk.s), Booting, applied, None), Sys(disk.s, mode, applied, None))
    {
      hide Inv, UpInv, Reach, L.Recover, Replay, LiveBytes, NextIndex, Meaning, M.ParseHeader, M.ManifestText;
      ghost var s0 := Sys(disk.s, Booting, applied, None);
      var why;
      ghost var shrunk;
      ok, why, shrunk := wal.Recover(this);
      if !ok {
        AfterFailedRecovery(hash, s0, shrunk);
        return;
      }
      ghost var s1 := s0.(d := disk.s, mode := Replayed(LogRecords(s0.d.walBase)));
      AfterRecovery(hash, s0, s1);
      ghost var progress;
      ReachInv(hash, s0, s1);
      HeaderParses(hash, s1);
      ok, progress := manifest.Load();
      if s1.d.manifest.None? {
        ghost var s2 := AfterCreate(hash, s0, s1, disk.s, progress);
      } else if ok {
        AfterLoad(hash, s0, s1);
      } else {
        assert s1 == Sys(disk.s, s1.mode, applied, None);
      }
      if ok {
        StartedContents(hash, s0, Now(Idle));
      }
    }

    // -------------------------------------------------------------- queries

    /** None where get throws. */
    method Get(key: Bytes) returns (r: Option<Option<Bytes>>)
      requires Valid()
      ensures r == Answer(key)
      ensures r == if key in currMemTable || manifest.readable then Some(Fetch(Contents(), key)) else None
    {
      hide UpInv, Decode, ReadCatalog, Meaning, Lookup, Holds, Fetch, NewestBinding;
      ghost var tables := Tables();
      NewestServes(Now(Idle), key);
      if key in currMemTable {
        return Some(currMemTable[key]);
      }
      CurrentParse(hash, Now(Idle));
      var indices := manifest.GetIndices();
      if indices.None? {
        return None;
      }
      var n := |indices.value|;
      assert tables[..n] == tables;
      while n > 0
        invariant n <= |indices.value| && NewestBinding(tables, key) == NewestBinding(tables[..n], key)
      {
        n := n - 1;
        StoredTable(hash, Now(Idle), indices.value[n]);
        var table := new SsTable(indices.value[n], disk.s.files[indices.value[n]]);
        LookupHolds(hash, indices.value[n], tables[n], table.contents, key);
        var result := table.GetValue(hash, key);
        NewestStep(tables, n, key);
        if result.value.status != NotFound {
          return Some(result.value.value);
        }
      }
      NewestOfNone(tables, key);
      return Some(None);
    }

    method Exists(key: Bytes) returns (r: Option<bool>)
      requires Valid()
      ensures r == if key in currMemTable || manifest.readable then Some(key in Contents()) else None
    {
      var v := Get(key);
      r := if v.None? then None else Some(v.value.Some?);
    }

    /** One table's scan. */
    method Scan(table: SsTable, q: Query) returns (rows: Option<seq<Record>>)
      modifies table
      ensures rows.Some? <==> ScanTable(table.contents, table.index).Some?
      ensures rows.Some? ==> AreRows(rows.value, Decode(table.contents, table.index), q)
    {
      hide ScanTable, Decode, AreRows;
      match q {
        case Everything => rows := table.GetKeys(None);
        case Exactly(key) => rows := table.GetKeys(Some(key));
        case Within(start, end) => rows := table.GetRange(start, end);
        case Extending(prefix) => rows := table.GetPrefix(prefix);
      }
    }

    /** One table's turn: its scan is merged under what the newer ones said. */
    method MergeScan(temp: Table, index: nat, q: Query) returns (merged: Table)
      requires Valid() && index in CurrentIndices(Now(Idle))
      ensures merged == Filter(TableAt(disk.s.files, index), q) + temp
    {
      hide UpInv, Decode, ReadCatalog, Less, Wants, Holds, Filter, ScanTable, AreRows, RowsUnder, Entries;
      StoredTable(hash, Now(Idle), index);
      var table := new SsTable(index, disk.s.files[index]);
      ghost var t := TableAt(disk.s.files, index);
      ScanHolds(hash, index, t, table.contents);
      var rows := Scan(table, q);
      RowsAscend(rows.value, t, q);
      merged := MergeRows(temp, rows.value);
      RowsAreFilter(merged, temp, rows.value, t, q);
    }

    /** The loop keys, range and prefix_scan share: a copy of the memtable, then each table, newest first. */
    method Gather(q: Query) returns (r: Option<Table>)
      requires Valid()
      ensures r == if manifest.readable then Some(Filter(Merge(Tables()), q) + currMemTable) else None
    {
      hide UpInv, Decode, ReadCatalog, Merge, Less, Wants, Holds, Filter;
      ghost var tables := Tables();
      CurrentParse(hash, Now(Idle));
      var temp := currMemTable;
      var indices := manifest.GetIndices();
      if indices.None? {
        return None;
      }
      var n := |indices.value|;
      assert FilterAll(tables, q)[..n] == FilterAll(tables, q);
      while n > 0
        invariant n <= |indices.value|
        invariant Absorb(temp, FilterAll(tables, q)[..n]) == Absorb(currMemTable, FilterAll(tables, q))
      {
        n := n - 1;
        var merged := MergeScan(temp, indices.value[n], q);
        AbsorbStep(temp, merged, tables, n, q);
        temp := merged;
      }
      AbsorbResult(currMemTable, tables, q);
      return Some(temp);
    }

    /** None where keys throws. */
    method Keys() returns (r: Option<seq<Bytes>>)
      requires Valid()
      ensures r == if manifest.readable then Some(Sorted(Contents().Keys)) else None
      ensures r.Some? ==> forall k :: k in r.value <==> k in Contents()
      ensures r.Some? ==> forall i, j :: 0 <= i < j < |r.value| ==> Before(r.value[i], r.value[j])
    {
      hide UpInv, ReadCatalog, Merge, Less, Before, Sorted, Filter, View;
      var temp := Gather(Everything);
      if temp.None? {
        return None;
      }
      var t := temp.value;
      SortedIterates(t);
      var ks := Sorted(t.Keys);
      var data: seq<Bytes> := [];
      ghost var rows: seq<Record> := [];
      var it := 0;
      while it < |ks|
        invariant it <= |ks| && rows == LiveRun(t, ks, 0, it)
        invariant |data| == |rows| && forall i :: 0 <= i < |rows| ==> data[i] == rows[i].key
      {
        if t[ks[it]].Some? {
          data := data + [ks[it]];
          rows := rows + [Record(ks[it], t[ks[it]])];
        }
        it := it + 1;
      }
      LiveRunIsView(t, currMemTable, Tables(), ks, 0, |ks|, Everything);
      LiveKeys(rows, View(currMemTable, Tables()), data);
      SortedIsSorted(Contents().Keys);
      return Some(data);
    }

    /** None where range throws. */
    method Range(start: Bytes, end: Bytes) returns (r: Option<seq<Record>>)
      requires Valid()
      ensures r.None? <==> !manifest.readable
      ensures r.Some? ==> AreLive(r.value, Contents(), if Less(end, start) then Within(end, start) else Within(start, end))
      ensures r.Some? ==> InOrder(r.value)
      ensures r.Some? ==> forall x: Record :: x in r.value <==>
        && x.val.Some? && x.key in Contents() && Contents()[x.key] == x.val.value
        && if Before(end, start) then !Before(x.key, end) && !Before(start, x.key)
           else !Before(x.key, start) && !Before(end, x.key)
      decreases if Less(end, start) then 1 else 0
    {
      hide UpInv, ReadCatalog, Merge, Less, Before, InOrder, Sorted, LowerBound, AreLive, Filter, View;
      Trichotomy(start, end);
      LessMeans(end, start);
      LessMeans(start, end);
      if Less(end, start) {
        r := Range(end, start);
        return;
      }
      var temp := Gather(Within(start, end));
      if temp.None? {
        return None;
      }
      var t := temp.value;
      SortedIterates(t);
      var ks := Sorted(t.Keys);
      var data: seq<Record> := [];
      var lo := LowerBound(ks, start);
      var it := lo;
      while it < |ks| && !Less(end, ks[it])
        invariant lo <= it <= |ks| && data == LiveRun(t, ks, lo, it)
        invariant forall j :: lo <= j < it ==> !Less(end, ks[j])
      {
        if t[ks[it]].Some? {
          data := data + [Record(ks[it], t[ks[it]])];
        }
        it := it + 1;
      }
      forall i | 0 <= i < |ks| ensures Wants(Within(start, end), ks[i]) <==> lo <= i < it {
        RangeRun(ks, start, end, it, i);
      }
      LiveRunIsView(t, currMemTable, Tables(), ks, lo, it, Within(start, end));
      LiveWithin(data, Contents(), start, end);
      return Some(data);
    }

    /** None where prefix_scan throws. */
    method PrefixScan(prefix: Bytes) returns (r: Option<seq<Record>>)
      requires Valid()
      ensures r.None? <==> !manifest.readable
      ensures r.Some? ==> AreLive(r.value, Contents(), Extending(prefix))
      ensures r.Some? ==> InOrder(r.value)
      ensures r.Some? ==> forall x: Record :: x in r.value <==>
        && x.val.Some? && x.key in Contents() && Contents()[x.key] == x.val.value
        && |prefix| <= |x.key| && x.key[..|prefix|] == prefix
    {
      hide UpInv, ReadCatalog, Merge, Less, Before, InOrder, Sorted, LowerBound, AreLive, StartsWith, Filter, View;
      var temp := Gather(Extending(prefix));
      if temp.None? {
        return None;
      }
      var t := temp.value;
      SortedIterates(t);
      var ks := Sorted(t.Keys);
      var data: seq<Record> := [];
      var lo := LowerBound(ks, prefix);
      var it := lo;
      while it < |ks| && StartsWith(ks[it], prefix)
        invariant lo <= it <= |ks| && data == LiveRun(t, ks, lo, it)
        invariant forall j :: lo <= j < it ==> StartsWith(ks[j], prefix)
      {
        if t[ks[it]].Some? {
          data := data + [Record(ks[it], t[ks[it]])];
        }
        it := it + 1;
      }
      forall i | 0 <= i < |ks| ensures Wants(Extending(prefix), ks[i]) <==> lo <= i < it {
        if StartsWith(ks[i], prefix) {
          PrefixRun(ks, prefix, i, it);
        }
      }
      LiveRunIsView(t, currMemTable, Tables(), ks, lo, it, Extending(prefix));
      LiveExtending(data, Contents(), prefix);
      return Some(data);
    }

    // -------------------------------------------------------------- flush

    /** Opens SSTable `index` for writing and writes t to it. */
    method WriteNewTable(index: nat, t: Table, ghost job: Job) returns (ok: bool)
      requires Valid() && JobFits(Now(Idle), job) && t == Content(job, currMemTable) && t != map[] && TableFits(t)
      requires index == manifest.next && index + 1 < U64
      modifies disk
      ensures disk.Blames(old(disk.failures), ok) && old(disk.s.files).Keys <= disk.s.files.Keys
      ensures var phase := if ok then Ready(job) else Idle;
              UpInv(hash, Now(phase)) && Reach(hash, old(Now(Idle)), Now(phase))
      ensures disk.s.manifest == old(disk.s.manifest) && Tables() == old(Tables())
    {
      hide UpInv, Reach, Holds, ReadCatalog, JobFits, Merge, TableFits;
      ghost var s0 := Now(Idle);
      ReachSelf(hash, s0);
      ok := disk.OpenTable(index);
      if !ok {
        return;
      }
      ghost var middle;
      ok, middle := SsTableWriter.WriteToSsTable(hash, disk, index, t);
      AfterTable(hash, s0, job, middle, disk.s, ok);
      ListedKept(hash, s0, job, middle, disk.s, ok);
      assert Now(if ok then Ready(job) else Idle) == InPhase(s0, disk.s, if ok then Ready(job) else Idle);
    }

    /** Adds the flushed table to the manifest. */
    method ListFlushed(index: nat) returns (ok: bool)
      requires Wired() && UpInv(hash, Now(Ready(FlushJob))) && index == manifest.next
      modifies manifest, disk
      ensures disk.failures >= old(disk.failures)
      ensures ok <==> old(manifest.readable) && disk.failures == old(disk.failures)
      ensures ok ==> manifest.readable
      ensures var phase := if ok then Committed(FlushJob) else Idle;
              UpInv(hash, Now(phase)) && Reach(hash, old(Now(Ready(FlushJob))), Now(phase))
      ensures ok ==> Tables() == old(Tables()) + [currMemTable]
    {
      hide UpInv, Reach, M.ManifestText, ReadCatalog, M.ParseIndices;
      ghost var s := Now(Ready(FlushJob));
      CurrentParse(hash, s);
      ReachSelf(hash, s);
      ghost var progress;
      ok, progress := manifest.AddNew(index);
      AfterManifest(hash, s, s, FlushJob, disk.s, progress);
      if ok {
        assert Now(Committed(FlushJob)) == Attempted(s, disk.s, FlushJob, progress);
        FlushedTables(hash, s, Now(Committed(FlushJob)));
      } else if progress.Settled? {
        assert Now(Committed(FlushJob)) == Attempted(s, disk.s, FlushJob, progress);
        GiveUp(hash, s, Now(Committed(FlushJob)));
      } else {
        assert Now(Idle) == Attempted(s, disk.s, FlushJob, progress);
      }
    }

    /** Truncates the log and, once that succeeded, empties the memtable. */
    method EmptyLog() returns (ok: bool)
      requires Wired() && UpInv(hash, Now(Committed(FlushJob)))
      modifies this`currMemTable, this`memTableSize, this`debt, this`doubt, wal, disk
      ensures disk.Blames(old(disk.failures), ok)
      ensures Valid() && Reach(hash, old(Now(Committed(FlushJob))), Now(Idle))
      ensures Tables() == old(Tables()) && wal.index == old(wal.index)
      ensures ok ==> currMemTable == map[] && memTableSize == 0 && debt == 0 && doubt == None
      ensures ok ==> !wal.writeFailed && disk.s.walBase == []
      ensures !ok ==> currMemTable == old(currMemTable) && memTableSize == old(memTableSize) && debt == old(debt)
    {
      hide UpInv, Reach, ReadCatalog;
      ghost var s := Now(Committed(FlushJob));
      ReachSelf(hash, s);
      ghost var cut, synced;
      ok, cut, synced := wal.Truncate();
      AfterTruncate(hash, s, s, cut, synced, ok);
      if synced {
        doubt := None;
      }
      if ok {
        currMemTable := map[];
        memTableSize := 0;
        debt := 0;
      }
      assert Now(Idle) == Truncated(s, cut, synced, ok);
    }

    /** False where flush returns false or throws; the first failing step ends it. */
    method Flush() returns (ok: bool)
      requires Valid() && currMemTable != map[] && manifest.next + 1 < U64
      modifies this`currMemTable, this`memTableSize, this`debt, this`doubt, wal, manifest, disk
      ensures disk.failures >= old(disk.failures)
      ensures ok <==> old(manifest.readable) && disk.failures == old(disk.failures)
      ensures ok ==> manifest.readable
      ensures Valid() && Reach(hash, old(Now(Idle)), Now(Idle))
      ensures Contents() == old(Contents()) == ApplyAll(applied)
      ensures ok ==> currMemTable == map[] && memTableSize == 0 && debt == 0 && doubt == None
      ensures ok ==> !wal.writeFailed && disk.s.walBase == [] && Tables() == old(Tables() + [currMemTable])
      ensures !ok ==> currMemTable == old(currMemTable) && memTableSize == old(memTableSize) && debt == old(debt)
      ensures wal.index == old(wal.index)
    {
      hide UpInv, Reach, ReadCatalog, Meaning, JobFits, TableFits, ApplyAll, TablesAt;
      ghost var s0 := Now(Idle);
      Serves(hash, s0);
      SizeAndLog(hash, s0);
      FlushFits(s0);
      var index := manifest.next;
      ok := WriteNewTable(index, currMemTable, FlushJob);
      if ok {
        ghost var s1 := Now(Ready(FlushJob));
        ok := ListFlushed(index);
        ReachThen(hash, s0, s1, Now(if ok then Committed(FlushJob) else Idle));
        if ok {
          ghost var s2 := Now(Committed(FlushJob));
          ok := EmptyLog();
          ReachThen(hash, s0, s2, Now(Idle));
        }
      }
      Serves(hash, Now(Idle));
    }

    /** check_mem_table_size_to_flush; false where it throws. */
    method CheckMemTableSizeToFlush() returns (ok: bool)
      requires Valid() && currMemTable != map[] && manifest.next + 1 < U64
      modifies this`currMemTable, this`memTableSize, this`debt, this`doubt, wal, manifest, disk
      ensures disk.failures >= old(disk.failures)
      ensures ok <==> (old(manifest.readable) || old(memTableSize) < MEM_TABLE_SIZE_LIMIT) && disk.failures == old(disk.failures)
      ensures ok && old(manifest.readable) ==> manifest.readable
      ensures ok && !old(wal.writeFailed) ==> !wal.writeFailed
      ensures Valid() && Reach(hash, old(Now(Idle)), Now(Idle))
      ensures Contents() == old(Contents()) == ApplyAll(applied)
      ensures ok ==> memTableSize < MEM_TABLE_SIZE_LIMIT
      ensures old(memTableSize) < MEM_TABLE_SIZE_LIMIT ==> ok && Now(Idle) == old(Now(Idle))
      ensures ok ==> doubt == old(doubt) || doubt == None
    {
      hide UpInv, Reach, Meaning;
      ReachSelf(hash, Now(Idle));
      Serves(hash, Now(Idle));
      ok := true;
      if memTableSize >= MEM_TABLE_SIZE_LIMIT {
        ok := Flush();
      }
    }

    // -------------------------------------------------------------- set and del

    /** The log write of set and del; when it is refused or torn, nothing the engine serves has changed. */
    method LogWrite(op: byte, key: Bytes, val: Bytes) returns (ok: bool)
      requires Valid() && L.IsOp(op)
      requires op == L.DEL ==> val == [] && key in Contents()
      modifies this`doubt, wal, disk
      ensures disk.failures >= old(disk.failures)
      ensures ok <==> |key| < U32 && |val| < U32 && !old(wal.writeFailed) && disk.failures == old(disk.failures)
      ensures Wired()
      ensures ok ==> && L.Valid(old(wal.Record(op, key, val))) && !old(wal.writeFailed) && !wal.writeFailed
                     && wal.index == (old(wal.index) + 1) % U64 && doubt == old(doubt) == None
                     && disk.s == SyncLog(AppendLog(old(disk.s), L.PrintRecord(old(wal.Record(op, key, val)))))
      ensures !ok ==> && Valid() && Reach(hash, old(Now(Idle)), Now(Idle)) && Contents() == old(Contents())
                      && (doubt == old(doubt) || doubt == Some(old(wal.Record(op, key, val))))
    {
      hide UpInv, Reach, Meaning, L.PrintRecord, LiveBytes, ApplyAll;
      ghost var s := Now(Idle);
      ghost var r := wal.Record(op, key, val);
      Serves(hash, s);
      SizeAndLog(hash, s);
      ReachSelf(hash, s);
      ok := wal.Write(op, key, val);
      if !ok && (disk.s != s.d || wal.writeFailed != s.mode.engine.latched) {
        ghost var p :| p <= L.PrintRecord(r) && disk.s == AppendLog(s.d, p);
        AfterTornAppend(hash, s, r, p);
        doubt := Some(r);
        Serves(hash, Now(Idle));
      }
    }

    /** False where set throws: the log refused the write, or the flush that followed it failed. */
    method Set(key: Bytes, val: Bytes) returns (ok: bool)
      requires Valid() && manifest.next + 1 < U64
      modifies this, wal, manifest, disk
      ensures disk.failures >= old(disk.failures)
      ensures ok <==>
        && |key| < U32 && |val| < U32 && !old(wal.writeFailed) && disk.failures == old(disk.failures)
        && (old(manifest.readable) || old(SizeAfter(Memory(Idle), wal.Record(L.SET, key, val))) < MEM_TABLE_SIZE_LIMIT)
      ensures ok ==> !wal.writeFailed && (old(manifest.readable) ==> manifest.readable)
      ensures Valid() && Reach(hash, old(Now(Idle)), Now(Idle)) && Contents() == ApplyAll(applied)
      ensures applied == old(applied) || applied == old(applied) + [Put(key, val)]
      ensures ok ==> applied == old(applied) + [Put(key, val)] && Contents() == old(Contents())[key := val]
      ensures ok ==> memTableSize < MEM_TABLE_SIZE_LIMIT && doubt == None
      ensures !ok && applied == old(applied) ==>
        Contents() == old(Contents()) && currMemTable == old(currMemTable) &&
        (doubt == old(doubt) || doubt == Some(L.LogRecord(old(wal.index), L.SET, key, val)))
    {
      hide UpInv, Reach, Meaning, L.PrintRecord, LiveBytes, ApplyAll, ReadCatalog;
      ghost var s0 := Now(Idle);
      ghost var r := wal.Record(L.SET, key, val);
      Serves(hash, s0);
      SizeAndLog(hash, s0);
      ok := LogWrite(L.SET, key, val);
      if !ok {
        Serves(hash, Now(Idle));
        return;
      }
      AfterAppend(hash, s0, r);
      if ExistsInCurrMemTable(key) {
        LiveBytesSplit(currMemTable, key);
        memTableSize := memTableSize - (|key| + |currMemTable[key].value|);
      }
      memTableSize := memTableSize + |key| + |val|;
      currMemTable := currMemTable[key := Some(val)];
      applied := applied + [Put(key, val)];
      ghost var s1 := Now(Idle);
      assert s1.mode == Up(AfterWrite(s0.mode.engine, r));
      Serves(hash, s1);
      ApplySnoc(s0.applied, Put(key, val));
      assert key in currMemTable;
      ok := CheckMemTableSizeToFlush();
      ReachThen(hash, s0, s1, Now(Idle));
    }

    /** None where del throws; false when the key has no live value. */
    method Del(key: Bytes) returns (r: Option<bool>)
      requires Valid() && manifest.next + 1 < U64
      modifies this, wal, manifest, disk
      ensures disk.failures >= old(disk.failures)
      ensures r == Some(true) <==>
        && key in old(Contents()) && (key in old(currMemTable) || old(manifest.readable))
        && |key| < U32 && !old(wal.writeFailed) && disk.failures == old(disk.failures)
        && (old(manifest.readable) || old(SizeAfter(Memory(Idle), wal.Record(L.DEL, key, []))) < MEM_TABLE_SIZE_LIMIT)
      ensures r == Some(true) ==> !wal.writeFailed && (old(manifest.readable) ==> manifest.readable)
      ensures Valid() && Reach(hash, old(Now(Idle)), Now(Idle)) && Contents() == ApplyAll(applied)
      ensures applied == old(applied) || applied == old(applied) + [Delete(key)]
      ensures r == Some(false) <==> key !in old(Contents()) && (key in old(currMemTable) || old(manifest.readable))
      ensures r == Some(false) ==> Now(Idle) == old(Now(Idle))
      ensures r == Some(true) ==> key in old(Contents()) && Contents() == old(Contents()) - {key}
      ensures r == Some(true) ==> applied == old(applied) + [Delete(key)]
      ensures r == Some(true) ==> memTableSize < MEM_TABLE_SIZE_LIMIT && doubt == None
      ensures r == None && applied == old(applied) ==>
        Contents() == old(Contents()) && currMemTable == old(currMemTable) &&
        (doubt == old(doubt) || doubt == Some(L.LogRecord(old(wal.index), L.DEL, key, [])))
    {
      hide UpInv, Reach, Meaning, L.PrintRecord, LiveBytes, ApplyAll, ReadCatalog;
      ghost var s0 := Now(Idle);
      ghost var rec := wal.Record(L.DEL, key, []);
      Serves(hash, s0);
      SizeAndLog(hash, s0);
      ReachSelf(hash, s0);
      var val := Get(key);
      if val.None? {
        return None;
      }
      if val.value.None? {
        return Some(false);
      }
      LiveInMemory(s0, key);
      var ok := LogWrite(L.DEL, key, []);
      if !ok {
        Serves(hash, Now(Idle));
        return None;
      }
      AfterAppend(hash, s0, rec);
      if key in currMemTable {
        LiveBytesSplit(currMemTable, key);
        memTableSize := memTableSize - |currMemTable[key].value|;
      } else {
        memTableSize := memTableSize + |key|;
      }
      currMemTable := currMemTable[key := None];
      debt := debt + |key|;
      applied := applied + [Delete(key)];
      ghost var s1 := Now(Idle);
      assert s1.mode == Up(AfterWrite(s0.mode.engine, rec));
      Serves(hash, s1);
      ApplySnoc(s0.applied, Delete(key));
      assert key in currMemTable;
      ok := CheckMemTableSizeToFlush();
      ReachThen(hash, s0, s1, Now(Idle));
      r := if ok then Some(true) else None;
    }

    // -------------------------------------------------------------- compact

    /** Every table read in full, newest first, a key already present left alone. */
    method MergeTables(indices: seq<nat>) returns (full: Table)
      requires Valid() && indices == CurrentIndices(Now(Idle))
      ensures full == Merge(Tables()) && TableFits(full)
    {
      hide UpInv, Decode, ReadCatalog, Merge, Less, Wants, Holds, Filter, TableFits, Entries;
      ghost var tables := Tables();
      full := map[];
      FitsNothing();
      var n := |indices|;
      assert FilterAll(tables, Everything)[..n] == FilterAll(tables, Everything);
      while n > 0
        invariant n <= |indices| && TableFits(full)
        invariant Absorb(full, FilterAll(tables, Everything)[..n]) == Absorb(map[], FilterAll(tables, Everything))
      {
        n := n - 1;
        StoredTable(hash, Now(Idle), indices[n]);
        var table := new SsTable(indices[n], disk.s.files[indices[n]]);
        ScanHolds(hash, indices[n], tables[n], table.contents);
        HoldsFits(hash, indices[n], tables[n], table.contents);
        var es := table.ReadSsTable();
        ListingRows(tables[n]);
        RowsAscend(Listing(tables[n]), tables[n], Everything);
        var merged := MergeEntries(full, es.value, Listing(tables[n]));
        RowsAreFilter(merged, full, Listing(tables[n]), tables[n], Everything);
        AbsorbStep(full, merged, tables, n, Everything);
        EverythingFilters(tables[n]);
        FitsUnion(tables[n], full);
        full := merged;
      }
      AbsorbResult(map[], tables, Everything);
      EverythingFilters(Merge(tables));
      assert Merge(tables) + map[] == Merge(tables);
    }

    /** Puts the compacted table, or nothing, in the place of the old ones. */
    method ListCompacted(olds: seq<nat>, index: nat, empty: bool, ghost job: Job) returns (ok: bool)
      requires Wired() && job.CompactJob? && job.olds == olds && index == manifest.next
      requires empty <==> job.merged == map[]
      requires UpInv(hash, Now(if empty then Idle else Ready(job))) && JobFits(Now(Idle), job)
      modifies manifest, disk
      ensures disk.failures >= old(disk.failures) && disk.s.files == old(disk.s.files)
      ensures ok <==> old(manifest.readable) && disk.failures == old(disk.failures)
      ensures ok ==> manifest.readable
      ensures var before, after := if empty then Idle else Ready(job), if ok then Committed(job) else Idle;
              UpInv(hash, Now(after)) && Reach(hash, old(Now(before)), Now(after))
      ensures ok ==> Tables() == if empty then [] else [job.merged]
    {
      hide UpInv, Reach, M.ManifestText, ReadCatalog, M.ParseIndices, M.Subtract, Compacted, Decode;
      ghost var s := Now(if empty then Idle else Ready(job));
      CurrentParse(hash, s);
      ReachSelf(hash, s);
      ghost var progress;
      if empty {
        ok, progress := manifest.Remove(olds);
      } else {
        ok, progress := manifest.Replace(olds, index);
      }
      AfterManifest(hash, s, s, job, disk.s, progress);
      if ok {
        assert Now(Committed(job)) == Attempted(s, disk.s, job, progress);
        CompactedTables(hash, s, Now(Committed(job)), job);
      } else if progress.Settled? {
        assert Now(Committed(job)) == Attempted(s, disk.s, job, progress);
        GiveUp(hash, s, Now(Committed(job)));
      } else {
        assert Now(Idle) == Attempted(s, disk.s, job, progress);
      }
    }

    /** Deletes the old files, stopping at the first failure. */
    method DeleteOld(olds: seq<nat>, ghost job: Job) returns (ok: bool)
      requires Wired() && job.CompactJob? && job.olds == olds && UpInv(hash, Now(Committed(job)))
      requires M.StrictlySorted(olds) && forall i :: i in olds ==> i in disk.s.files
      modifies disk
      ensures disk.Blames(old(disk.failures), ok)
      ensures Valid() && Reach(hash, old(Now(Committed(job))), Now(Idle)) && Tables() == old(Tables())
      ensures ok ==> forall i :: i in olds ==> i !in disk.s.files
    {
      hide UpInv, Reach, ReadCatalog, Decode;
      ghost var s := Now(Committed(job));
      ReachSelf(hash, s);
      ListedNotOld(hash, s, job);
      ok := true;
      var n := 0;
      while ok && n < |olds|
        invariant n <= |olds|
        invariant UpInv(hash, Now(Committed(job))) && Reach(hash, s, Now(Committed(job)))
        invariant disk.s.manifest == s.d.manifest
        invariant forall i: nat :: i !in olds && i in s.d.files ==> i in disk.s.files && disk.s.files[i] == s.d.files[i]
        invariant ok ==> forall m :: 0 <= m < n ==> olds[m] !in disk.s.files
        invariant disk.Blames(old(disk.failures), ok)
        invariant forall m :: n <= m < |olds| ==> olds[m] in disk.s.files
        decreases |olds| - n, ok
      {
        ghost var before := Now(Committed(job));
        ok := disk.RemoveTable(olds[n]);
        if ok {
          AfterDiscard(hash, s, before, olds[n]);
        }
        n := n + 1;
      }
      GiveUp(hash, s, Now(Committed(job)));
      assert Now(Idle) == InPhase(Now(Committed(job)), disk.s, Idle);
      assert Tables() == TablesAt(s.d.files, CurrentIndices(s));
    }

    /** False where compact returns false or throws. */
    method Compact() returns (ok: bool)
      requires Valid() && manifest.next + 1 < U64
      modifies manifest, disk
      ensures disk.failures >= old(disk.failures)
      ensures ok <==> old(manifest.readable) && disk.failures == old(disk.failures)
      ensures ok ==> manifest.readable
      ensures Valid() && Reach(hash, old(Now(Idle)), Now(Idle))
      ensures Contents() == old(Contents()) == ApplyAll(applied)
      ensures var olds := old(CurrentIndices(Now(Idle)));
              && (ok && |olds| < 2 ==> Now(Idle) == old(Now(Idle)))
              && (ok && |olds| >= 2 ==>
                  && (Tables() == if Compacted(old(Tables())) == map[] then [] else [Compacted(old(Tables()))])
                  && forall i :: i in olds ==> i !in disk.s.files)
    {
      hide UpInv, Reach, ReadCatalog, Meaning, TableFits, ApplyAll, Merge, Decode, M.ParseIndices;
      ghost var s0 := Now(Idle);
      Serves(hash, s0);
      ReachSelf(hash, s0);
      CurrentParse(hash, s0);
      var indices := manifest.GetIndices();
      if indices.None? {
        return false;
      }
      var olds := indices.value;
      AllStored(hash, s0);
      if |olds| < 2 {
        return true;
      }
      var full := MergeTables(olds);
      DropFits(full);
      full := DropLoop(full);
      ghost var job := CompactJob(olds, full);
      var index := manifest.next;
      ok := true;
      if full != map[] {
        ok := WriteNewTable(index, full, job);
      }
      if ok {
        ghost var s1 := Now(if full == map[] then Idle else Ready(job));
        ok := ListCompacted(olds, index, full == map[], job);
        ReachThen(hash, s0, s1, Now(if ok then Committed(job) else Idle));
        if ok {
          ghost var s2 := Now(Committed(job));
          ok := DeleteOld(olds, job);
          ReachThen(hash, s0, s2, Now(Idle));
        }
      }
      Serves(hash, Now(Idle));
    }
  }

  /** The files a committed compaction may delete are not among those the manifest lists. */
  lemma {:induction false} ListedNotOld(h: Hash, s: Sys, job: Job)
    requires UpInv(h, s) && s.mode.engine.phase == Committed(job) && job.CompactJob?
    ensures forall i :: i in CurrentIndices(s) ==> i !in job.olds && i in s.d.files
  {
    hide ReadCatalog, Meaning, LogInv, Holds, LiveBytes, TableFits, Means;
    forall i | i in CurrentIndices(s) ensures i !in job.olds && i in s.d.files {
      StoredTable(h, s, i);
    }
  }

  lemma FitsNothing()
    ensures TableFits(map[])
  {
  }

  lemma {:induction false} FitsUnion(s: Table, t: Table)
    requires TableFits(s) && TableFits(t)
    ensures TableFits(s + t)
  {
  }

  lemma {:induction false} DropFits(t: Table)
    requires TableFits(t)
    ensures TableFits(DropTombstones(t))
  {
  }
}
