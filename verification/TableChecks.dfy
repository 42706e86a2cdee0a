/** What the SSTable readers accept: on arbitrary bytes, only sections whose checksums are those of their own bytes. */
module TableChecks {
  import opened Bytes
  import opened Crc
  import opened TableFormat
  import opened TableProofs

  /** A field with a matching checksum after it is sealed. */
  lemma {:induction false} SealedAt(b: Bytes, pos: nat, s: Bytes, sum: Bytes)
    requires At(b, pos, s) && Read(b, pos + |s|, 4) == Some(sum) && Matches(sum, Crc32(0, s))
    ensures At(b, pos, Seal(s))
  {
    hide Crc32, CrcBytes, Matches;
    OnlyMatch(sum, Crc32(0, s));
    AtSplit(b, pos, s, CrcBytes(Crc32(0, s)));
  }

  /** The header is accepted only with the magic number, this table's index and the checksum of its own fields. */
  lemma {:induction false} HeaderAccepted(b: Bytes, index: nat)
    requires ScanHeader(b, index).Some?
    ensures var count := ScanHeader(b, index).value;
            index < U64 && count < U64 && HEADER_SIZE <= |b| &&
            At(b, 0, Le32(MAGIC) + Seal([b[4]] + (Le64(index) + Le64(count))))
  {
    hide Crc32, CrcBytes, Matches, At, FromLE, Le32, Le64, Seal;
    var magic, version, i, n := Read(b, 0, 4).value, Read(b, 4, 1).value, Read(b, 5, 8).value, Read(b, 13, 8).value;
    Encode32(magic);
    Encode64(i);
    Encode64(n);
    Chain(0, version, i + n);
    Chain(Crc32(0, version), i, n);
    AtSplit(b, 5, i, n);
    AtSplit(b, 4, version, i + n);
    SealedAt(b, 4, version + (i + n), Read(b, 21, 4).value);
    AtSplit(b, 0, magic, Seal(version + (i + n)));
    assert version == [b[4]];
  }

  /** The footer is accepted exactly when it is a printed footer. */
  lemma {:induction false} FooterAccepted(b: Bytes, x: nat, y: nat)
    ensures ScanFooter(b) == Some((x, y)) <==>
            x < U64 && y < U64 && |b| >= FOOTER_SIZE && At(b, |b| - FOOTER_SIZE, PrintFooter(x, y))
  {
    hide Crc32, CrcBytes, Matches, At, FromLE, Le64, Seal;
    if ScanFooter(b) == Some((x, y)) {
      var pos := |b| - FOOTER_SIZE;
      var i, j := Read(b, pos, 8).value, Read(b, pos + 8, 8).value;
      Encode64(i);
      Encode64(j);
      Chain(0, i, j);
      AtSplit(b, pos, i, j);
      SealedAt(b, pos, i + j, Read(b, pos + 16, 4).value);
    } else if x < U64 && y < U64 && |b| >= FOOTER_SIZE && At(b, |b| - FOOTER_SIZE, PrintFooter(x, y)) {
      FooterReadBack(b, x, y);
    }
  }

  /** The Bloom filter is accepted exactly when it is a printed filter. */
  lemma {:induction false} BloomAccepted(b: Bytes, pos: nat, bits: Bytes, hashes: nat)
    ensures ScanBloom(b, pos) == Some((bits, hashes)) <==>
            |bits| < U64 && hashes < U32 && At(b, pos, PrintBloom(bits, hashes))
  {
    hide Crc32, CrcBytes, Matches, At, FromLE, Le32, Le64, Seal;
    if ScanBloom(b, pos) == Some((bits, hashes)) {
      var size, n := Read(b, pos, 8).value, Read(b, pos + 8, 4).value;
      Encode64(size);
      Encode32(n);
      Chain(0, size, n + bits);
      Chain(Crc32(0, size), n, bits);
      AtSplit(b, pos + 8, n, bits);
      AtSplit(b, pos, size, n + bits);
      SealedAt(b, pos, size + (n + bits), Read(b, pos + 12 + |bits|, 4).value);
    } else if |bits| < U64 && hashes < U32 && At(b, pos, PrintBloom(bits, hashes)) {
      BloomReadBack(b, pos, bits, hashes);
    }
  }

  lemma {:induction false} SparseEntryAccepted(b: Bytes, pos: nat, crc: u32)
    requires ScanSparseEntry(b, pos, crc).Some?
    ensures var e := ScanSparseEntry(b, pos, crc).value;
            && |e.value.0| < U32 && e.value.1 < U64 && At(b, pos, PrintSparseEntry(e.value))
            && e.pos == pos + |PrintSparseEntry(e.value)| && e.crc == Crc32(crc, PrintSparseEntry(e.value))
  {
    hide Crc32, At, FromLE, Le32, Le64;
    var keyLen := Read(b, pos, 4).value;
    var key := Read(b, pos + 4, FromLE(keyLen)).value;
    var offset := Read(b, pos + 4 + |key|, 8).value;
    Encode32(keyLen);
    Encode64(offset);
    AtSplit(b, pos, keyLen, key);
    AtSplit(b, pos, keyLen + key, offset);
    Chain(crc, keyLen, key);
    Chain(crc, keyLen + key, offset);
  }

  lemma {:induction false} SparseEntriesAccepted(b: Bytes, pos: nat, n: nat, crc: u32, acc: seq<(Bytes, nat)>)
    requires ScanSparseEntries(b, pos, n, crc, acc).Some?
    ensures var r := ScanSparseEntries(b, pos, n, crc, acc).value;
            && acc <= r.value && |r.value| == |acc| + n
            && var read := r.value[|acc|..];
               var body := Concat(PrintSparseEntry, read);
               SparseFits(read) && (n > 0 ==> At(b, pos, body)) && r.pos == pos + |body| && r.crc == Crc32(crc, body)
    decreases n
  {
    hide Crc32, At, PrintSparseEntry, ScanSparseEntry;
    Nothing(crc);
    if n > 0 {
      var e := ScanSparseEntry(b, pos, crc).value;
      SparseEntryAccepted(b, pos, crc);
      SparseEntriesAccepted(b, e.pos, n - 1, e.crc, acc + [e.value]);
      var all := ScanSparseEntries(b, pos, n, crc, acc).value.value;
      var rest := all[|acc| + 1..];
      assert all[|acc|..] == [e.value] + rest;
      assert ([e.value] + rest)[1..] == rest;
      Chain(crc, PrintSparseEntry(e.value), Concat(PrintSparseEntry, rest));
      AtSplit(b, pos, PrintSparseEntry(e.value), Concat(PrintSparseEntry, rest));
      if n == 1 {
        assert PrintSparseEntry(e.value) + Concat(PrintSparseEntry, rest) == PrintSparseEntry(e.value);
      }
    }
  }

  /** The sparse index is accepted exactly when it is a printed one. */
  lemma {:induction false} SparseAccepted(b: Bytes, pos: nat, sparse: seq<(Bytes, nat)>)
    ensures ScanSparse(b, pos) == Some(sparse) <==>
            SparseFits(sparse) && |sparse| < U64 && At(b, pos, PrintSparse(sparse))
  {
    hide Crc32, CrcBytes, Matches, At, FromLE, Le64, Seal, Concat, PrintSparseEntry, ScanSparseEntries, SparseFits;
    if ScanSparse(b, pos) == Some(sparse) {
      var count := Read(b, pos, 8).value;
      var body := Concat(PrintSparseEntry, sparse);
      Encode64(count);
      SparseEntriesAccepted(b, pos + 8, FromLE(count), Crc32(0, count), []);
      assert sparse[0..] == sparse;
      Chain(0, count, body);
      AfterCount(b, pos, count, sparse);
      SealedAt(b, pos, count + body, Read(b, pos + 8 + |body|, 4).value);
    } else if SparseFits(sparse) && |sparse| < U64 && At(b, pos, PrintSparse(sparse)) {
      SparseReadBack(b, pos, sparse);
    }
  }

  lemma {:induction false} AfterCount(b: Bytes, pos: nat, count: Bytes, sparse: seq<(Bytes, nat)>)
    requires At(b, pos, count) && (sparse != [] ==> At(b, pos + |count|, Concat(PrintSparseEntry, sparse)))
    ensures At(b, pos, count + Concat(PrintSparseEntry, sparse))
  {
    hide At, PrintSparseEntry;
    var body := Concat(PrintSparseEntry, sparse);
    if sparse == [] {
      assert count + body == count;
    }
    AtSplit(b, pos, count, body);
  }

  lemma {:induction false} Joined(b: Bytes, pos: nat, x: Bytes, y: Bytes)
    requires At(b, pos, x) && At(b, pos + |x|, y)
    ensures At(b, pos, x + y) && x + y == b[pos..pos + |x + y|]
  {
    AtSplit(b, pos, x, y);
  }

  lemma {:induction false} EntryAccepted(b: Bytes, pos: nat, crc: u32)
    requires ScanEntry(b, pos, crc).Some?
    ensures var e := ScanEntry(b, pos, crc).value;
            pos < e.pos <= |b| && e.crc == Crc32(crc, b[pos..e.pos])
  {
    hide Crc32, FromLE, Le32, At, Clip;
    var op := Read(b, pos, 1).value;
    var keyLen := Read(b, pos + 1, 4).value;
    var key := Read(b, pos + 5, FromLE(keyLen)).value;
    var valLen := Read(b, pos + 5 + |key|, 4).value;
    var val := Read(b, pos + 9 + |key|, FromLE(valLen)).value;
    Encode32(keyLen);
    Encode32(valLen);
    assert [op[0]] == op && Le32(|key|) == keyLen && Clip(key) == key && Le32(|val|) == valLen && Clip(val) == val;
    Chain(crc, op, keyLen);
    Chain(crc, op + keyLen, key);
    Chain(crc, op + keyLen + key, valLen);
    Chain(crc, op + keyLen + key + valLen, val);
    Joined(b, pos, op, keyLen);
    Joined(b, pos, op + keyLen, key);
    Joined(b, pos, op + keyLen + key, valLen);
    Joined(b, pos, op + keyLen + key + valLen, val);
  }

  lemma {:induction false} EntriesAccepted(b: Bytes, pos: nat, n: nat, crc: u32, acc: seq<Entry>)
    requires pos <= |b| && ScanEntries(b, pos, n, crc, acc).Some?
    ensures var r := ScanEntries(b, pos, n, crc, acc).value;
            |r.value| == |acc| + n && pos <= r.pos <= |b| && r.crc == Crc32(crc, b[pos..r.pos])
    decreases n
  {
    hide Crc32, ScanEntry;
    Nothing(crc);
    assert b[pos..pos] == [];
    if n > 0 {
      EntryAccepted(b, pos, crc);
      var e := ScanEntry(b, pos, crc).value;
      EntriesAccepted(b, e.pos, n - 1, e.crc, acc + [e.value]);
      var end := ScanEntries(b, pos, n, crc, acc).value.pos;
      Chain(crc, b[pos..e.pos], b[e.pos..end]);
      assert b[pos..end] == b[pos..e.pos] + b[e.pos..end];
    }
  }

  /** A data block is accepted only with as many entries as it says and the checksum of all its bytes. */
  lemma {:induction false} BlockAccepted(b: Bytes, pos: nat, limit: nat)
    requires ScanBlock(b, pos, limit).Some?
    ensures var (es, end) := ScanBlock(b, pos, limit).value;
            && 0 < |es| <= limit && pos + 12 <= end <= |b|
            && b[pos..pos + 8] == Le64(|es|)
            && At(b, pos, Seal(b[pos..end - 4]))
  {
    hide Crc32, CrcBytes, Matches, FromLE, Le64, Seal, ScanEntries;
    var count := Read(b, pos, 8).value;
    Encode64(count);
    EntriesAccepted(b, pos + 8, FromLE(count), Crc32(0, count), []);
    var end := ScanBlock(b, pos, limit).value.1;
    Chain(0, count, b[pos + 8..end - 4]);
    assert b[pos..end - 4] == count + b[pos + 8..end - 4];
    SealedAt(b, pos, b[pos..end - 4], Read(b, end - 4, 4).value);
  }
}
