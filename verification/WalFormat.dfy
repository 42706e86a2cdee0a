/** The write-ahead log's record format, and what recovery computes from arbitrary bytes. */
module WalFormat {
  import opened Bytes
  import opened Crc

  const MAGIC: nat := 0xDEAD_BEEF
  const VERSION: byte := 2
  const SET: byte := 0
  const DEL: byte := 1

  datatype LogRecord = LogRecord(index: nat, op: byte, key: Bytes, val: Bytes)

  /** Why the recovery loop stopped. */
  datatype StopReason = TornTail | CorruptRecord

  datatype Step = Stopped(why: StopReason) | Accepted(record: LogRecord, next: nat)

  /** What recovery keeps: the records replayed, where the valid prefix ends, why it ends. */
  datatype Recovery = Recovery(records: seq<LogRecord>, end: nat, why: StopReason)

  predicate IsOp(op: byte) {
    op == SET || op == DEL
  }

  /** A record that Wal::write can lay out. */
  predicate Valid(r: LogRecord) {
    r.index < U64 && IsOp(r.op) && |r.key| < U32 && |r.val| < U32
  }

  predicate AllValid(rs: seq<LogRecord>) {
    forall r :: r in rs ==> Valid(r)
  }

  // ---------------------------------------------------------------- printing

  function HeaderFields(r: LogRecord): Bytes {
    [VERSION] + (Le64(r.index) + ([r.op] + (Le32(|r.key|) + Le32(|r.val|))))
  }

  function HeaderSum(r: LogRecord): u32 {
    Crc32(0, HeaderFields(r))
  }

  function RecordSum(r: LogRecord): u32 {
    Crc32(0, HeaderFields(r) + (r.key + r.val))
  }

  function PrintRecord(r: LogRecord): Bytes {
    Le32(MAGIC) + (HeaderFields(r) + (CrcBytes(HeaderSum(r)) + (r.key + (r.val + CrcBytes(RecordSum(r))))))
  }

  function PrintLog(rs: seq<LogRecord>): Bytes {
    Concat(PrintRecord, rs)
  }

  // ---------------------------------------------------------------- reading

  /** The checksum over the header fields, chained field by field. */
  function ChainHeader(version: Bytes, index: Bytes, op: Bytes, keyLen: Bytes, valLen: Bytes): u32 {
    Crc32(Crc32(Crc32(Crc32(Crc32(0, version), index), op), keyLen), valLen)
  }

  function ScanBody(b: Bytes, pos: nat, index: nat, op: byte, keyLen: nat, valLen: nat, sum: u32): (s: Step)
    ensures s.Accepted? ==> s.next > pos
  {
    var key := Read(b, pos, keyLen);
    if key.None? then Stopped(TornTail)
    else
      var val := Read(b, pos + keyLen, valLen);
      if val.None? then Stopped(TornTail)
      else
        var stored := Read(b, pos + keyLen + valLen, 4);
        if stored.None? then Stopped(TornTail)
        else if !Matches(stored.value, Crc32(Crc32(sum, key.value), val.value)) then Stopped(CorruptRecord)
        else Accepted(LogRecord(index, op, key.value, val.value), pos + keyLen + valLen + 4)
  }

  function ScanLengths(b: Bytes, pos: nat, version: Bytes, index: Bytes, op: Bytes): (s: Step)
    requires |op| == 1
    ensures s.Accepted? ==> s.next > pos
  {
    var keyLen, valLen, sum := Read(b, pos, 4), Read(b, pos + 4, 4), Read(b, pos + 8, 4);
    if keyLen.None? || valLen.None? || sum.None? then Stopped(TornTail)
    else
      var header := ChainHeader(version, index, op, keyLen.value, valLen.value);
      if !Matches(sum.value, header) then Stopped(CorruptRecord)
      else ScanBody(b, pos + 12, FromLE(index), op[0], FromLE(keyLen.value), FromLE(valLen.value), header)
  }

  /** One turn of the recovery loop at pos. */
  function ScanRecord(b: Bytes, pos: nat): (s: Step)
    ensures s.Accepted? ==> s.next > pos
  {
    var magic := Read(b, pos, 4);
    if magic.None? then Stopped(TornTail)
    else if FromLE(magic.value) != MAGIC then Stopped(CorruptRecord)
    else
      var version := Read(b, pos + 4, 1);
      if version.None? then Stopped(TornTail)
      else if version.value[0] != VERSION then Stopped(CorruptRecord)
      else
        var index, op := Read(b, pos + 5, 8), Read(b, pos + 13, 1);
        if index.None? || op.None? then Stopped(TornTail)
        else if !IsOp(op.value[0]) then Stopped(CorruptRecord)
        else ScanLengths(b, pos + 14, version.value, index.value, op.value)
  }

  lemma {:induction false} AcceptedInside(b: Bytes, pos: nat)
    ensures var s := ScanRecord(b, pos); s.Accepted? ==> s.next <= |b|
  {
    hide Crc32, CrcBytes, Matches;
  }

  /** The recovery loop from pos, having accepted acc. */
  function ScanLog(b: Bytes, pos: nat, acc: seq<LogRecord>): (r: Recovery)
    ensures pos <= |b| ==> r.end <= |b|
    decreases |b| - pos
  {
    match ScanRecord(b, pos)
    case Stopped(why) => Recovery(acc, pos, why)
    case Accepted(r, next) =>
      AcceptedInside(b, pos);
      ScanLog(b, next, acc + [r])
  }

  function Recover(b: Bytes): (r: Recovery)
    ensures r.end <= |b|
  {
    ScanLog(b, 0, [])
  }
}

/** Recovery accepts exactly the longest valid prefix, and a torn append costs only the torn record. */
module WalProofs {
  import opened Bytes
  import opened Crc
  import opened WalFormat

  // ---------------------------------------------------------------- checksums

  lemma {:induction false} HeaderChain(r: LogRecord)
    ensures ChainHeader([VERSION], Le64(r.index), [r.op], Le32(|r.key|), Le32(|r.val|)) == HeaderSum(r)
  {
    hide Crc32, CrcBytes, Matches, Le32, Le64;
    var v, i, o, k, w := [VERSION], Le64(r.index), [r.op], Le32(|r.key|), Le32(|r.val|);
    Chain(0, v, i + (o + (k + w)));
    Chain(Crc32(0, v), i, o + (k + w));
    Chain(Crc32(Crc32(0, v), i), o, k + w);
    Chain(Crc32(Crc32(Crc32(0, v), i), o), k, w);
  }

  /** The record checksum continues the header checksum: one pass over header fields, key and value. */
  lemma {:induction false} RecordChain(r: LogRecord)
    ensures Crc32(Crc32(HeaderSum(r), r.key), r.val) == RecordSum(r)
  {
    hide Crc32, CrcBytes, Matches, HeaderFields;
    Chain(0, HeaderFields(r), r.key + r.val);
    Chain(HeaderSum(r), r.key, r.val);
  }

  // ---------------------------------------------------------------- one record

  lemma {:induction false} RecordParts(b: Bytes, pos: nat, r: LogRecord)
    ensures At(b, pos, PrintRecord(r)) <==>
            && At(b, pos, Le32(MAGIC)) && At(b, pos + 4, [VERSION]) && At(b, pos + 5, Le64(r.index))
            && At(b, pos + 13, [r.op]) && At(b, pos + 14, Le32(|r.key|)) && At(b, pos + 18, Le32(|r.val|))
            && At(b, pos + 22, CrcBytes(HeaderSum(r))) && At(b, pos + 26, r.key)
            && At(b, pos + 26 + |r.key|, r.val) && At(b, pos + 26 + |r.key| + |r.val|, CrcBytes(RecordSum(r)))
    ensures |PrintRecord(r)| == 30 + |r.key| + |r.val|
  {
    hide Crc32, At, CrcBytes, Matches, Le32, Le64, HeaderSum, RecordSum;
    var v, i, o, k, w := [VERSION], Le64(r.index), [r.op], Le32(|r.key|), Le32(|r.val|);
    var tail := r.val + CrcBytes(RecordSum(r));
    AtSplit(b, pos, Le32(MAGIC), HeaderFields(r) + (CrcBytes(HeaderSum(r)) + (r.key + tail)));
    AtSplit(b, pos + 4, HeaderFields(r), CrcBytes(HeaderSum(r)) + (r.key + tail));
    AtSplit(b, pos + 4, v, i + (o + (k + w)));
    AtSplit(b, pos + 5, i, o + (k + w));
    AtSplit(b, pos + 13, o, k + w);
    AtSplit(b, pos + 14, k, w);
    AtSplit(b, pos + 22, CrcBytes(HeaderSum(r)), r.key + tail);
    AtSplit(b, pos + 26, r.key, tail);
    AtSplit(b, pos + 26 + |r.key|, r.val, CrcBytes(RecordSum(r)));
  }

  /** A printed record is accepted as itself. */
  lemma {:induction false} RecordAccepted(b: Bytes, pos: nat, r: LogRecord)
    requires Valid(r) && At(b, pos, PrintRecord(r))
    ensures ScanRecord(b, pos) == Accepted(r, pos + |PrintRecord(r)|)
  {
    hide Crc32, At, Read, CrcBytes, Matches, Le32, Le64, FromLE, HeaderSum, RecordSum, PrintRecord, ChainHeader;
    RecordParts(b, pos, r);
    ReadAt(b, pos, Le32(MAGIC));
    ReadAt(b, pos + 4, [VERSION]);
    ReadAt(b, pos + 5, Le64(r.index));
    ReadAt(b, pos + 13, [r.op]);
    ReadAt(b, pos + 14, Le32(|r.key|));
    ReadAt(b, pos + 18, Le32(|r.val|));
    ReadAt(b, pos + 22, CrcBytes(HeaderSum(r)));
    ReadAt(b, pos + 26, r.key);
    ReadAt(b, pos + 26 + |r.key|, r.val);
    ReadAt(b, pos + 26 + |r.key| + |r.val|, CrcBytes(RecordSum(r)));
    HeaderChain(r);
    RecordChain(r);
  }

  /** Whatever is accepted is byte for byte a printed record. */
  lemma {:induction false} AcceptedIsPrinted(b: Bytes, pos: nat)
    requires ScanRecord(b, pos).Accepted?
    ensures var s := ScanRecord(b, pos);
            Valid(s.record) && At(b, pos, PrintRecord(s.record)) && s.next == pos + |PrintRecord(s.record)|
  {
    hide Crc32, At, CrcBytes, Matches, Le32, Le64, FromLE, HeaderSum, RecordSum, PrintRecord, ChainHeader;
    var r := ScanRecord(b, pos).record;
    RecordParts(b, pos, r);
    var magic, version, op := Read(b, pos, 4).value, Read(b, pos + 4, 1).value, Read(b, pos + 13, 1).value;
    var keyLen, valLen := Read(b, pos + 14, 4).value, Read(b, pos + 18, 4).value;
    Encode32(magic);
    Encode64(Read(b, pos + 5, 8).value);
    Encode32(keyLen);
    Encode32(valLen);
    assert version == [VERSION] && op == [r.op];
    HeaderChain(r);
    RecordChain(r);
    OnlyMatch(Read(b, pos + 22, 4).value, HeaderSum(r));
    OnlyMatch(Read(b, pos + 26 + |r.key| + |r.val|, 4).value, RecordSum(r));
  }

  /** On a prefix of the file a record is either still accepted or torn, never corrupt. */
  lemma {:induction false} RecordOnPrefix(b: Bytes, whole: Bytes, pos: nat)
    requires b <= whole && ScanRecord(whole, pos).Accepted?
    ensures ScanRecord(b, pos) ==
            if ScanRecord(whole, pos).next <= |b| then ScanRecord(whole, pos) else Stopped(TornTail)
  {
    hide Crc32, CrcBytes, Matches, At, FromLE, ChainHeader;
    forall p: nat, n: nat ensures Read(b, p, n) == if p + n <= |b| then Read(whole, p, n) else None {
      assert p + n <= |b| ==> b[p..p + n] == whole[p..p + n];
    }
  }

  // ---------------------------------------------------------------- the whole log

  lemma {:induction false} ScanExtends(b: Bytes, pos: nat, acc: seq<LogRecord>)
    ensures var r := ScanLog(b, pos, acc); acc <= r.records && pos <= r.end
    decreases |b| - pos
  {
    hide ScanRecord;
    var s := ScanRecord(b, pos);
    if s.Accepted? {
      AcceptedInside(b, pos);
      ScanExtends(b, s.next, acc + [s.record]);
    }
  }

  /** Everything accepted re-encodes byte for byte to the kept prefix. */
  lemma {:induction false} ScanIsPrinted(b: Bytes, pos: nat, acc: seq<LogRecord>)
    requires pos <= |b| && AllValid(acc) && b[..pos] == PrintLog(acc)
    ensures var r := ScanLog(b, pos, acc);
            AllValid(r.records) && r.end <= |b| && b[..r.end] == PrintLog(r.records)
    decreases |b| - pos
  {
    hide ScanRecord, PrintRecord, Valid, Concat;
    var s := ScanRecord(b, pos);
    if s.Accepted? {
      AcceptedInside(b, pos);
      AcceptedIsPrinted(b, pos);
      ConcatSnoc(PrintRecord, acc, s.record);
      assert b[..s.next] == b[..pos] + b[pos..s.next];
      ScanIsPrinted(b, s.next, acc + [s.record]);
    }
  }

  /** Records printed at pos are all accepted. */
  lemma {:induction false} ScanThrough(b: Bytes, pos: nat, acc: seq<LogRecord>, rs: seq<LogRecord>)
    requires AllValid(rs) && At(b, pos, PrintLog(rs))
    ensures ScanLog(b, pos, acc) == ScanLog(b, pos + |PrintLog(rs)|, acc + rs)
    decreases |rs|
  {
    hide ScanRecord, PrintRecord, Valid, At;
    if rs == [] {
      assert acc + rs == acc;
    } else {
      AtSplit(b, pos, PrintRecord(rs[0]), PrintLog(rs[1..]));
      RecordAccepted(b, pos, rs[0]);
      ScanThrough(b, pos + |PrintRecord(rs[0])|, acc + [rs[0]], rs[1..]);
      assert acc + rs == acc + [rs[0]] + rs[1..];
    }
  }

  /** On arbitrary bytes: the records replayed are exactly what the kept prefix says. */
  lemma {:induction false} RecoverySound(b: Bytes)
    ensures var r := Recover(b);
            AllValid(r.records) && r.end <= |b| && b[..r.end] == PrintLog(r.records)
  {
    assert b[..0] == PrintLog([]);
    ScanIsPrinted(b, 0, []);
  }

  /** On arbitrary bytes: no longer prefix is a concatenation of valid records. */
  lemma {:induction false} RecoveryLongest(b: Bytes, rs: seq<LogRecord>)
    requires AllValid(rs) && PrintLog(rs) <= b
    ensures |PrintLog(rs)| <= Recover(b).end && rs <= Recover(b).records
  {
    hide PrintLog, ScanRecord, Valid;
    ScanThrough(b, 0, [], rs);
    assert [] + rs == rs;
    ScanExtends(b, |PrintLog(rs)|, rs);
  }

  /** A torn append: everything before it is replayed, and the stop is reported as torn. */
  lemma {:induction false} RecoveryTorn(rs: seq<LogRecord>, r: LogRecord, p: Bytes)
    requires AllValid(rs) && Valid(r) && p < PrintRecord(r)
    ensures Recover(PrintLog(rs) + p) == Recovery(rs, |PrintLog(rs)|, TornTail)
  {
    hide ScanRecord, PrintRecord, PrintLog;
    var kept := PrintLog(rs);
    var b, whole := kept + p, kept + PrintRecord(r);
    AtSplit(b, 0, kept, p);
    AtSplit(whole, 0, kept, PrintRecord(r));
    AtWhole(b);
    AtWhole(whole);
    ScanThrough(b, 0, [], rs);
    assert [] + rs == rs;
    RecordAccepted(whole, |kept|, r);
    assert b == whole[..|b|];
    RecordOnPrefix(b, whole, |kept|);
  }

  lemma {:induction false} RecoveryClean(rs: seq<LogRecord>)
    requires AllValid(rs)
    ensures Recover(PrintLog(rs)) == Recovery(rs, |PrintLog(rs)|, TornTail)
  {
    hide PrintLog;
    var b := PrintLog(rs);
    AtWhole(b);
    ScanThrough(b, 0, [], rs);
    assert [] + rs == rs;
  }

  /** Recovering the truncated file changes nothing: same records, same length. */
  lemma {:induction false} RecoveryIdempotent(b: Bytes)
    ensures var r := Recover(b); Recover(b[..r.end]) == Recovery(r.records, r.end, TornTail)
  {
    hide Recover;
    RecoverySound(b);
    RecoveryClean(Recover(b).records);
  }

  /** Cutting a file anywhere at or after its valid prefix leaves the same records. */
  lemma {:induction false} RecoveryOfCut(b: Bytes, n: nat)
    requires Recover(b).end <= n <= |b|
    ensures Recover(b[..n]).records == Recover(b).records && Recover(b[..n]).end == Recover(b).end
  {
    hide Recover;
    var r, c := Recover(b), Recover(b[..n]);
    RecoverySound(b);
    RecoverySound(b[..n]);
    assert b[..r.end] == b[..n][..r.end];
    RecoveryLongest(b[..n], r.records);
    RecoveryLongest(b, c.records);
  }

  // ---------------------------------------------------------------- the stop reason

  /** A stop is torn only if the file ends inside the record: in its header, or before the end its lengths give. */
  lemma {:induction false} StepTorn(b: Bytes, pos: nat)
    requires pos <= |b| && ScanRecord(b, pos) == Stopped(TornTail)
    ensures || |b| - pos < 26
            || |b| - pos < 30 + FromLE(b[pos + 14..pos + 18]) + FromLE(b[pos + 18..pos + 22])
  {
    hide Crc32, CrcBytes, Matches, FromLE, ChainHeader;
  }

  /** More bytes after the file change no verdict but a torn one. */
  lemma {:induction false} StepStays(b: Bytes, x: Bytes, pos: nat)
    requires ScanRecord(b, pos) != Stopped(TornTail)
    ensures ScanRecord(b + x, pos) == ScanRecord(b, pos)
  {
    hide Crc32, At, CrcBytes, Matches, FromLE, ChainHeader;
    forall p: nat, n: nat | Read(b, p, n).Some? ensures Read(b + x, p, n) == Read(b, p, n) {
      assert (b + x)[p..p + n] == b[p..p + n];
    }
  }

  /** Recovery's reason is the scanner's at the end of the valid prefix. */
  lemma {:induction false} ScanStops(b: Bytes, pos: nat, acc: seq<LogRecord>)
    ensures var r := ScanLog(b, pos, acc); ScanRecord(b, r.end) == Stopped(r.why)
    decreases |b| - pos
  {
    hide ScanRecord;
    var s := ScanRecord(b, pos);
    if s.Accepted? {
      AcceptedInside(b, pos);
      ScanStops(b, s.next, acc + [s.record]);
    }
  }

  lemma {:induction false} ScanStays(b: Bytes, x: Bytes, pos: nat, acc: seq<LogRecord>)
    requires ScanLog(b, pos, acc).why == CorruptRecord
    ensures ScanLog(b + x, pos, acc) == ScanLog(b, pos, acc)
    decreases |b| - pos
  {
    hide ScanRecord;
    StepStays(b, x, pos);
    var s := ScanRecord(b, pos);
    if s.Accepted? {
      AcceptedInside(b, pos);
      ScanStays(b, x, s.next, acc + [s.record]);
    }
  }

  /** On arbitrary bytes: "torn" is reported only when the file ends inside the record that stopped recovery. */
  lemma {:induction false} TornMeansShort(b: Bytes)
    ensures var r := Recover(b);
            r.why == TornTail ==>
              || |b| - r.end < 26
              || |b| - r.end < 30 + FromLE(b[r.end + 14..r.end + 18]) + FromLE(b[r.end + 18..r.end + 22])
  {
    hide ScanLog, ScanRecord;
    ScanStops(b, 0, []);
    if Recover(b).why == TornTail {
      StepTorn(b, Recover(b).end);
    }
  }

  /** On arbitrary bytes: "corrupt" is reported exactly when no continuation of the file could change what recovery finds. */
  lemma {:induction false} CorruptMeansFinal(b: Bytes)
    ensures Recover(b).why == CorruptRecord <==> forall x :: Recover(b + x) == Recover(b)
  {
    hide ScanLog, ScanRecord, FromLE;
    var r := Recover(b);
    if r.why == CorruptRecord {
      forall x ensures Recover(b + x) == r {
        ScanStays(b, x, 0, []);
      }
    } else {
      var zeros: Bytes := seq(30 + 2 * U32, _ => 0);
      var w := b + zeros;
      TornMeansShort(w);
      PowerValues();
      assert Recover(w) != r;
    }
  }
}
