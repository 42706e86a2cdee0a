/** A printed SSTable read back: the full scan and the indexed lookup both return what was written. */
module TableProofs {
  import opened Bytes
  import opened Crc
  import opened Order
  import opened Bloom
  import opened TableFormat

  function EntryOf(r: Record): Entry {
    Entry(OpOf(r), r.key, r.val)
  }

  function Entries(rs: seq<Record>): (es: seq<Entry>)
    ensures |es| == |rs|
    ensures forall i :: 0 <= i < |rs| ==> es[i] == EntryOf(rs[i])
  {
    seq(|rs|, i requires 0 <= i < |rs| => EntryOf(rs[i]))
  }

  function Keys(rs: seq<Record>): (ks: seq<Bytes>)
    ensures |ks| == |rs|
    ensures forall i :: 0 <= i < |rs| ==> ks[i] == rs[i].key
  {
    seq(|rs|, i requires 0 <= i < |rs| => rs[i].key)
  }

  // ---------------------------------------------------------------- sealed sections

  lemma {:induction false} SealAt(b: Bytes, pos: nat, s: Bytes)
    requires At(b, pos, Seal(s))
    ensures At(b, pos, s)
    ensures Read(b, pos + |s|, 4) == Some(CrcBytes(Crc32(0, s)))
  {
    hide Crc32, CrcBytes, Matches;
    AtSplit(b, pos, s, CrcBytes(Crc32(0, s)));
    ReadAt(b, pos + |s|, CrcBytes(Crc32(0, s)));
  }

  lemma {:induction false} StringAt(b: Bytes, pos: nat, s: Bytes)
    requires |s| < U32 && At(b, pos, PrintString(s))
    ensures Read(b, pos, 4) == Some(Le32(|s|))
    ensures FromLE(Le32(|s|)) == |s|
    ensures Read(b, pos + 4, |s|) == Some(s)
  {
    AtSplit(b, pos, Le32(|s|), s);
    ReadAt(b, pos, Le32(|s|));
    ReadAt(b, pos + 4, s);
  }

  // ---------------------------------------------------------------- entries

  /** Checksumming an entry field by field is one pass over its printed form. */
  lemma {:induction false} EntryChecksum(crc: u32, r: Record)
    ensures KeyValChecksum(OpOf(r), crc, r.key, ValueOf(r)) == Crc32(crc, PrintEntry(r))
  {
    var op, key, val := [OpOf(r)], r.key, ValueOf(r);
    var c1 := Crc32(crc, op);
    Chain(crc, op, PrintString(key) + PrintString(val));
    Chain(c1, PrintString(key), PrintString(val));
    Chain(c1, Le32(|key|), Clip(key));
    Chain(Crc32(c1, PrintString(key)), Le32(|val|), Clip(val));
  }

  lemma {:induction false} EntryReadBack(b: Bytes, pos: nat, crc: u32, r: Record)
    requires Fits(r) && At(b, pos, PrintEntry(r))
    ensures ScanEntry(b, pos, crc) ==
            Some(Scanned(EntryOf(r), pos + |PrintEntry(r)|, Crc32(crc, PrintEntry(r))))
  {
    hide Crc32, KeyValChecksum, Read, At, CrcBytes, Matches, Le32, FromLE;
    var op, key, val := [OpOf(r)], r.key, ValueOf(r);
    AtSplit(b, pos, op, PrintString(key) + PrintString(val));
    AtSplit(b, pos + 1, PrintString(key), PrintString(val));
    StringAt(b, pos + 1, key);
    StringAt(b, pos + 5 + |key|, val);
    ReadAt(b, pos, op);
    EntryChecksum(crc, r);
  }

  lemma {:induction false} EntriesCons(acc: seq<Entry>, r: Record, rest: seq<Record>)
    ensures acc + Entries([r] + rest) == acc + [EntryOf(r)] + Entries(rest)
    ensures acc + Entries([]) == acc
  {
  }

  lemma {:induction false} EntriesReadBack(b: Bytes, pos: nat, crc: u32, acc: seq<Entry>, rs: seq<Record>)
    requires AllFit(rs) && At(b, pos, Concat(PrintEntry, rs))
    ensures ScanEntries(b, pos, |rs|, crc, acc) ==
            Some(Scanned(acc + Entries(rs), pos + |Concat(PrintEntry, rs)|, Crc32(crc, Concat(PrintEntry, rs))))
    decreases |rs|
  {
    hide Crc32, CrcBytes, Matches, At, PrintEntry, ScanEntry, Fits, Entries;
    if rs == [] {
      Nothing(crc);
      EntriesCons(acc, Record([], None), []);
    } else {
      var r, rest := rs[0], rs[1..];
      AtSplit(b, pos, PrintEntry(r), Concat(PrintEntry, rest));
      EntryReadBack(b, pos, crc, r);
      var next := Crc32(crc, PrintEntry(r));
      EntriesReadBack(b, pos + |PrintEntry(r)|, next, acc + [EntryOf(r)], rest);
      Chain(crc, PrintEntry(r), Concat(PrintEntry, rest));
      assert rs == [r] + rest;
      EntriesCons(acc, r, rest);
    }
  }

  // ---------------------------------------------------------------- data blocks

  lemma {:induction false} BlockReadBack(b: Bytes, pos: nat, rs: seq<Record>, limit: nat)
    requires AllFit(rs) && 0 < |rs| <= limit && |rs| < U64
    requires At(b, pos, PrintBlock(rs))
    ensures ScanBlock(b, pos, limit) == Some((Entries(rs), pos + |PrintBlock(rs)|))
  {
    hide Crc32, At, Read, CrcBytes, Matches, Le32, Le64, FromLE, ScanEntries, Concat, PrintEntry, Entries, AllFit;
    var count, body := Le64(|rs|), Concat(PrintEntry, rs);
    SealAt(b, pos, count + body);
    AtSplit(b, pos, count, body);
    ReadAt(b, pos, count);
    EntriesReadBack(b, pos + 8, Crc32(0, count), [], rs);
    Chain(0, count, body);
    assert [] + Entries(rs) == Entries(rs);
    assert pos + 8 + |body| == pos + |count + body|;
  }

  lemma {:induction false} BlocksPrefix(rs: seq<Record>, i: nat, n: nat)
    requires i <= n <= BlockCount(|rs|)
    ensures PrintBlocks(rs, i) <= PrintBlocks(rs, n)
    decreases n
  {
    hide PrintBlock, Block;
    if i < n {
      BlocksPrefix(rs, i, n - 1);
    }
  }

  /** Data block j sits at the offset recorded for it. */
  lemma {:induction false} BlockAt(b: Bytes, rs: seq<Record>, j: nat)
    requires j < BlockCount(|rs|) && At(b, HEADER_SIZE, AllBlocks(rs))
    ensures At(b, Offset(rs, j), PrintBlock(Block(rs, j)))
    ensures Offset(rs, j + 1) == Offset(rs, j) + |PrintBlock(Block(rs, j))|
    ensures Offset(rs, j + 1) <= BloomOffset(rs)
  {
    hide At, PrintBlock, Block;
    var n := BlockCount(|rs|);
    BlocksPrefix(rs, j + 1, n);
    var some, all := PrintBlocks(rs, j + 1), AllBlocks(rs);
    assert all == some + all[|some|..];
    AtSplit(b, HEADER_SIZE, some, all[|some|..]);
    AtSplit(b, HEADER_SIZE, PrintBlocks(rs, j), PrintBlock(Block(rs, j)));
  }

  lemma {:induction false} BlockFits(rs: seq<Record>, j: nat)
    requires AllFit(rs) && j < BlockCount(|rs|)
    ensures AllFit(Block(rs, j))
  {
  }

  /** How many records the first j blocks hold. */
  function Seen(rs: seq<Record>, j: nat): (n: nat)
    ensures n <= |rs|
  {
    if 10 * j <= |rs| then 10 * j else |rs|
  }

  lemma {:induction false} NextBlock(rs: seq<Record>, j: nat)
    requires j <= BlockCount(|rs|)
    ensures Seen(rs, j) == |rs| <==> j == BlockCount(|rs|)
    ensures j < BlockCount(|rs|) ==>
            && Seen(rs, j + 1) == Seen(rs, j) + |Block(rs, j)|
            && Entries(rs[..Seen(rs, j)]) + Entries(Block(rs, j)) == Entries(rs[..Seen(rs, j + 1)])
  {
  }

  /** Scanning on from block j collects everything from its first record to the last. */
  lemma {:induction false} BlocksReadBack(b: Bytes, rs: seq<Record>, j: nat)
    requires AllFit(rs) && |rs| < U64
    requires j <= BlockCount(|rs|)
    requires At(b, HEADER_SIZE, AllBlocks(rs))
    ensures ScanBlocks(b, Offset(rs, j), |rs| - Seen(rs, j), Entries(rs[..Seen(rs, j)])) ==
            Some((Entries(rs), BloomOffset(rs)))
    decreases BlockCount(|rs|) - j
  {
    hide At, PrintBlock, PrintBlocks, Fits, ScanBlock, Block, BlockCount, Seen, Entries;
    NextBlock(rs, j);
    if j == BlockCount(|rs|) {
      assert rs[..|rs|] == rs;
    } else {
      var block := Block(rs, j);
      BlockAt(b, rs, j);
      BlockFits(rs, j);
      BlockReadBack(b, Offset(rs, j), block, |rs| - Seen(rs, j));
      BlocksReadBack(b, rs, j + 1);
    }
  }

  // ---------------------------------------------------------------- layout

  lemma {:induction false} HeaderSize(index: nat, count: nat)
    ensures |PrintHeader(index, count)| == HEADER_SIZE
  {
  }

  lemma {:induction false} FooterSize(bloomOffset: nat, sparseOffset: nat)
    ensures |PrintFooter(bloomOffset, sparseOffset)| == FOOTER_SIZE
  {
  }

  /** Where the five parts of a file are. */
  lemma {:induction false} Layout(index: nat, rs: seq<Record>, bits: Bytes, hashes: nat)
    ensures var b := PrintTable(index, rs, bits, hashes);
            && At(b, 0, PrintHeader(index, |rs|))
            && At(b, HEADER_SIZE, AllBlocks(rs))
            && At(b, BloomOffset(rs), PrintBloom(bits, hashes))
            && At(b, SparseOffset(rs, bits, hashes), PrintSparse(Sparse(rs, BlockCount(|rs|))))
            && |b| >= FOOTER_SIZE
            && At(b, |b| - FOOTER_SIZE, PrintFooter(BloomOffset(rs), SparseOffset(rs, bits, hashes)))
            && BloomOffset(rs) <= SparseOffset(rs, bits, hashes) <= |b|
  {
    hide At, PrintHeader, PrintBloom, PrintSparse, PrintFooter, Sparse, PrintBlocks;
    var b := PrintTable(index, rs, bits, hashes);
    var header, blocks, bloom := PrintHeader(index, |rs|), AllBlocks(rs), PrintBloom(bits, hashes);
    var sparse := PrintSparse(Sparse(rs, BlockCount(|rs|)));
    var footer := PrintFooter(BloomOffset(rs), SparseOffset(rs, bits, hashes));
    HeaderSize(index, |rs|);
    FooterSize(BloomOffset(rs), SparseOffset(rs, bits, hashes));
    AtWhole(b);
    AtSplit(b, 0, header, blocks + (bloom + (sparse + footer)));
    AtSplit(b, HEADER_SIZE, blocks, bloom + (sparse + footer));
    AtSplit(b, BloomOffset(rs), bloom, sparse + footer);
    AtSplit(b, SparseOffset(rs, bits, hashes), sparse, footer);
  }

  // ---------------------------------------------------------------- the full scan

  lemma {:induction false} HeaderReadBack(b: Bytes, index: nat, count: nat)
    requires index < U64 && count < U64 && At(b, 0, PrintHeader(index, count))
    ensures ScanHeader(b, index) == Some(count)
  {
    hide Crc32, At, Read, CrcBytes, Matches, Le32, Le64, FromLE, Seal;
    var version, i, n := [VERSION], Le64(index), Le64(count);
    AtSplit(b, 0, Le32(MAGIC), Seal(version + (i + n)));
    SealAt(b, 4, version + (i + n));
    AtSplit(b, 4, version, i + n);
    AtSplit(b, 5, i, n);
    ReadAt(b, 0, Le32(MAGIC));
    ReadAt(b, 4, version);
    ReadAt(b, 5, i);
    ReadAt(b, 13, n);
    Chain(0, version, i + n);
    Chain(Crc32(0, version), i, n);
  }

  /** The full scan of a written file returns every record in order and stops at the Bloom filter. */
  lemma {:induction false} ScanReadBack(index: nat, rs: seq<Record>, bits: Bytes, hashes: nat)
    requires index < U64 && |rs| < U64 && AllFit(rs)
    ensures ScanTable(PrintTable(index, rs, bits, hashes), index) == Some((Entries(rs), BloomOffset(rs)))
  {
    hide At, PrintTable, PrintHeader, PrintBlock, PrintBloom, PrintSparse, PrintFooter, ScanHeader, ScanBlocks, Fits, Sparse, Crc32, CrcBytes, Matches;
    var b := PrintTable(index, rs, bits, hashes);
    Layout(index, rs, bits, hashes);
    HeaderReadBack(b, index, |rs|);
    BlocksReadBack(b, rs, 0);
    assert Entries(rs[..0]) == [];
  }

  // ---------------------------------------------------------------- the point lookup

  lemma {:induction false} FooterReadBack(b: Bytes, x: nat, y: nat)
    requires x < U64 && y < U64 && |b| >= FOOTER_SIZE
    requires At(b, |b| - FOOTER_SIZE, PrintFooter(x, y))
    ensures ScanFooter(b) == Some((x, y))
  {
    hide Crc32, At, Read, CrcBytes, Matches, Le32, Le64, FromLE, Seal;
    var pos := |b| - FOOTER_SIZE;
    SealAt(b, pos, Le64(x) + Le64(y));
    AtSplit(b, pos, Le64(x), Le64(y));
    ReadAt(b, pos, Le64(x));
    ReadAt(b, pos + 8, Le64(y));
    Chain(0, Le64(x), Le64(y));
  }

  lemma {:induction false} BloomReadBack(b: Bytes, pos: nat, bits: Bytes, hashes: nat)
    requires |bits| < U64 && hashes < U32 && At(b, pos, PrintBloom(bits, hashes))
    ensures ScanBloom(b, pos) == Some((bits, hashes))
  {
    hide Crc32, At, Read, CrcBytes, Matches, Le32, Le64, FromLE, Seal;
    var size, n := Le64(|bits|), Le32(hashes);
    SealAt(b, pos, size + (n + bits));
    AtSplit(b, pos, size, n + bits);
    AtSplit(b, pos + 8, n, bits);
    ReadAt(b, pos, size);
    ReadAt(b, pos + 8, n);
    ReadAt(b, pos + 12, bits);
    Chain(0, size, n + bits);
    Chain(Crc32(0, size), n, bits);
  }

  ghost predicate SparseFits(sparse: seq<(Bytes, nat)>) {
    forall e :: e in sparse ==> |e.0| < U32 && e.1 < U64
  }

  lemma {:induction false} SparseEntryReadBack(b: Bytes, pos: nat, crc: u32, e: (Bytes, nat))
    requires |e.0| < U32 && e.1 < U64 && At(b, pos, PrintSparseEntry(e))
    ensures ScanSparseEntry(b, pos, crc) ==
            Some(Scanned(e, pos + |PrintSparseEntry(e)|, Crc32(crc, PrintSparseEntry(e))))
  {
    hide Crc32, At, Read, CrcBytes, Matches, Le32, Le64, FromLE;
    var key, offset := PrintString(e.0), Le64(e.1);
    AtSplit(b, pos, key, offset);
    StringAt(b, pos, e.0);
    ReadAt(b, pos + 4 + |e.0|, offset);
    Chain(crc, key, offset);
    Chain(crc, Le32(|e.0|), e.0);
  }

  lemma {:induction false} SparseEntriesReadBack(b: Bytes, pos: nat, crc: u32, acc: seq<(Bytes, nat)>,
                                                 sparse: seq<(Bytes, nat)>)
    requires SparseFits(sparse) && At(b, pos, Concat(PrintSparseEntry, sparse))
    ensures var body := Concat(PrintSparseEntry, sparse);
            ScanSparseEntries(b, pos, |sparse|, crc, acc) ==
            Some(Scanned(acc + sparse, pos + |body|, Crc32(crc, body)))
    decreases |sparse|
  {
    hide Crc32, CrcBytes, Matches, At, PrintSparseEntry, ScanSparseEntry;
    if sparse == [] {
      Nothing(crc);
      assert acc + sparse == acc;
    } else {
      var e, rest := sparse[0], sparse[1..];
      AtSplit(b, pos, PrintSparseEntry(e), Concat(PrintSparseEntry, rest));
      SparseEntryReadBack(b, pos, crc, e);
      var next := Crc32(crc, PrintSparseEntry(e));
      SparseEntriesReadBack(b, pos + |PrintSparseEntry(e)|, next, acc + [e], rest);
      Chain(crc, PrintSparseEntry(e), Concat(PrintSparseEntry, rest));
      assert acc + sparse == acc + [e] + rest;
    }
  }

  lemma {:induction false} SparseReadBack(b: Bytes, pos: nat, sparse: seq<(Bytes, nat)>)
    requires SparseFits(sparse) && |sparse| < U64 && At(b, pos, PrintSparse(sparse))
    ensures ScanSparse(b, pos) == Some(sparse)
  {
    hide Crc32, At, Read, CrcBytes, Matches, Le32, Le64, FromLE, Seal, ScanSparseEntries, Concat, PrintSparseEntry, SparseFits;
    var count, body := Le64(|sparse|), Concat(PrintSparseEntry, sparse);
    SealAt(b, pos, count + body);
    AtSplit(b, pos, count, body);
    ReadAt(b, pos, count);
    SparseEntriesReadBack(b, pos + 8, Crc32(0, count), [], sparse);
    Chain(0, count, body);
    assert [] + sparse == sparse;
    assert pos + 8 + |body| == pos + |count + body|;
  }

  /** Record i belongs to data block i/10. */
  lemma {:induction false} InBlock(rs: seq<Record>, i: nat)
    requires i < |rs|
    ensures i / 10 < BlockCount(|rs|)
    ensures 0 <= i - 10 * (i / 10) < |Block(rs, i / 10)|
    ensures Block(rs, i / 10)[i - 10 * (i / 10)] == rs[i]
    ensures Block(rs, i / 10)[0] == rs[10 * (i / 10)]
  {
  }

  lemma {:induction false} SparseKey(rs: seq<Record>, j: nat)
    requires j < BlockCount(|rs|)
    ensures 10 * j < |rs| && Sparse(rs, BlockCount(|rs|))[j].0 == rs[10 * j].key
  {
    hide PrintBlocks, Sparse;
    assert Sparse(rs, BlockCount(|rs|))[j] == SparseEntry(rs, j);
  }

  /** Completeness of the sparse index: upper_bound lands just past the block that holds record i. */
  lemma {:induction false} SparseIndexComplete(rs: seq<Record>, i: nat)
    requires AscendingKeys(rs) && i < |rs|
    ensures UpperBound(Sparse(rs, BlockCount(|rs|)), rs[i].key) == i / 10 + 1
  {
    hide UpperBound, Sparse, Less;
    var sparse := Sparse(rs, BlockCount(|rs|));
    var key, n := rs[i].key, UpperBound(sparse, rs[i].key);
    assert n == |sparse| || i < 10 * n by {
      if n < |sparse| {
        SparseKey(rs, n);
        Trichotomy(rs[10 * n].key, key);
      }
    }
    if n > 0 {
      SparseKey(rs, n - 1);
      assert !Less(key, sparse[n - 1].0);
      assert 10 * (n - 1) <= i;
    }
  }

  /** No block is chosen exactly when the key is below every stored key. */
  lemma {:induction false} BelowEverything(rs: seq<Record>, key: Bytes)
    requires AscendingKeys(rs) && rs != []
    ensures UpperBound(Sparse(rs, BlockCount(|rs|)), key) == 0 <==> forall r :: r in rs ==> Less(key, r.key)
  {
    hide UpperBound, Sparse, Less;
    var sparse := Sparse(rs, BlockCount(|rs|));
    SparseKey(rs, 0);
    assert rs[0] in rs;
    assert UpperBound(sparse, key) == 0 <==> Less(key, rs[0].key);
    if Less(key, rs[0].key) {
      forall r | r in rs ensures Less(key, r.key) {
        var m :| 0 <= m < |rs| && rs[m] == r;
        if m > 0 {
          LessTransitive(key, rs[0].key, r.key);
        }
      }
    }
  }

  lemma {:induction false} FindInAbsent(es: seq<Entry>, key: Bytes)
    requires forall e :: e in es ==> e.key != key
    ensures FindIn(es, key) == LookupResult(NotFound, None)
    decreases |es|
  {
    if es != [] {
      FindInAbsent(es[..|es| - 1], key);
    }
  }

  /** In a block where a key occurs at most once, the lookup loop ends with that occurrence. */
  lemma {:induction false} FindInPresent(rs: seq<Record>, i: nat)
    requires AscendingKeys(rs) && i < |rs|
    ensures FindIn(Entries(rs), rs[i].key) == StatusOf(EntryOf(rs[i]), LookupResult(NotFound, None))
    decreases |rs|
  {
    var n := |rs| - 1;
    var init := rs[..n];
    assert Entries(rs)[..n] == Entries(init);
    if i == n {
      forall e | e in Entries(init) ensures e.key != rs[i].key {
        var m :| 0 <= m < n && e == Entries(init)[m];
        LessIrreflexive(rs[i].key);
        assert Less(rs[m].key, rs[i].key);
      }
      FindInAbsent(Entries(init), rs[i].key);
    } else {
      FindInPresent(init, i);
      LessIrreflexive(rs[i].key);
      assert Less(rs[i].key, rs[n].key);
    }
  }

  /** What a lookup should say about a key, from the records themselves. */
  ghost predicate Answers(r: LookupResult, rs: seq<Record>, key: Bytes) {
    && (r.status == Found <==> exists v :: Record(key, Some(v)) in rs)
    && (r.status == Found ==> r.value.Some? && Record(key, r.value) in rs)
    && (r.status == Tombstone <==> Record(key, None) in rs)
    && (r.status != Found ==> r.value == None)
  }

  /** A file that write_to_ss_table can have produced for rs. */
  ghost predicate Written(h: Hash, index: nat, rs: seq<Record>, size: nat, hashes: nat, b: Bytes) {
    && index < U64 && rs != [] && |rs| < U64 && AllFit(rs) && AscendingKeys(rs)
    && 0 < size < U64 && hashes < U32
    && |b| < U64
    && b == PrintTable(index, rs, Build(h, Keys(rs), size, hashes), hashes)
  }

  lemma {:induction false} SparseOfWritten(rs: seq<Record>)
    requires AllFit(rs) && BloomOffset(rs) < U64
    ensures SparseFits(Sparse(rs, BlockCount(|rs|)))
  {
    hide PrintBlocks, PrintBlock, Sparse, Concat;
    var sparse := Sparse(rs, BlockCount(|rs|));
    forall e | e in sparse ensures |e.0| < U32 && e.1 < U64 {
      var j :| 0 <= j < |sparse| && e == sparse[j];
      assert e == SparseEntry(rs, j);
      BlocksPrefix(rs, j, BlockCount(|rs|));
      assert Block(rs, j)[0] in rs;
    }
  }

  lemma {:induction false} FewBlocks(n: nat)
    requires n < U64
    ensures BlockCount(n) < U64
  {
  }

  /** The filter a written file holds. */
  function FilterOf(h: Hash, rs: seq<Record>, size: nat, hashes: nat): (bits: Bytes)
    requires size > 0
    ensures |bits| == size
  {
    Build(h, Keys(rs), size, hashes)
  }

  /** The offsets and counts of a written file fit their fields. */
  lemma {:induction false} IndexFits(h: Hash, index: nat, rs: seq<Record>, size: nat, hashes: nat, b: Bytes)
    requires Written(h, index, rs, size, hashes, b)
    ensures size > 0
    ensures var bits := FilterOf(h, rs, size, hashes);
            && b == PrintTable(index, rs, bits, hashes) && |bits| < U64 && hashes < U32 && AllFit(rs)
            && BloomOffset(rs) < U64 && SparseOffset(rs, bits, hashes) < U64 && BlockCount(|rs|) < U64
  {
    hide PrintTable, Keys, Build, BloomOffset, SparseOffset, BlockCount, At, Fits, AscendingKeys, AllBlocks;
    FewBlocks(|rs|);
    Layout(index, rs, Build(h, Keys(rs), size, hashes), hashes);
  }

  lemma {:induction false} FooterAt(b: Bytes, index: nat, rs: seq<Record>, bits: Bytes, hashes: nat)
    requires b == PrintTable(index, rs, bits, hashes)
    ensures |b| >= FOOTER_SIZE
    ensures At(b, |b| - FOOTER_SIZE, PrintFooter(BloomOffset(rs), SparseOffset(rs, bits, hashes)))
  {
    hide PrintTable, At, PrintFooter, BloomOffset, SparseOffset, AllBlocks, PrintBloom, PrintSparse, PrintHeader, Sparse;
    Layout(index, rs, bits, hashes);
  }

  lemma {:induction false} FooterOfWritten(h: Hash, index: nat, rs: seq<Record>, size: nat, hashes: nat, b: Bytes)
    requires Written(h, index, rs, size, hashes, b)
    ensures ScanFooter(b) == Some((BloomOffset(rs), SparseOffset(rs, FilterOf(h, rs, size, hashes), hashes)))
  {
    hide At, PrintTable, PrintFooter, ScanFooter, FilterOf, BloomOffset, SparseOffset, Written, Concat, PrintBlocks, Offset, AllFit;
    IndexFits(h, index, rs, size, hashes, b);
    var bits := FilterOf(h, rs, size, hashes);
    FooterAt(b, index, rs, bits, hashes);
    FooterReadBack(b, BloomOffset(rs), SparseOffset(rs, bits, hashes));
  }

  lemma {:induction false} BloomOfWritten(h: Hash, index: nat, rs: seq<Record>, size: nat, hashes: nat, b: Bytes)
    requires Written(h, index, rs, size, hashes, b)
    ensures ScanBloom(b, BloomOffset(rs)) == Some((FilterOf(h, rs, size, hashes), hashes))
  {
    hide At, PrintTable, PrintBloom, ScanBloom, FilterOf, BloomOffset, SparseOffset, Written, Concat, PrintBlocks, Offset, AllFit;
    IndexFits(h, index, rs, size, hashes, b);
    var bits := FilterOf(h, rs, size, hashes);
    Layout(index, rs, bits, hashes);
    BloomReadBack(b, BloomOffset(rs), bits, hashes);
  }

  lemma {:induction false} SparseBlockOfWritten(h: Hash, index: nat, rs: seq<Record>, size: nat, hashes: nat, b: Bytes)
    requires Written(h, index, rs, size, hashes, b)
    ensures ScanSparse(b, SparseOffset(rs, FilterOf(h, rs, size, hashes), hashes)) == Some(Sparse(rs, BlockCount(|rs|)))
    ensures At(b, HEADER_SIZE, AllBlocks(rs))
  {
    hide At, PrintTable, PrintSparse, ScanSparse, FilterOf, BloomOffset, SparseOffset, Written, Concat, PrintBlocks, Offset, AllFit, Sparse, BlockCount, SparseFits,
         AllBlocks, SparseEntry;
    IndexFits(h, index, rs, size, hashes, b);
    var bits := FilterOf(h, rs, size, hashes);
    Layout(index, rs, bits, hashes);
    SparseOfWritten(rs);
    SparseReadBack(b, SparseOffset(rs, bits, hashes), Sparse(rs, BlockCount(|rs|)));
  }

  lemma {:induction false} BlockOfWritten(h: Hash, index: nat, rs: seq<Record>, size: nat, hashes: nat, b: Bytes, j: nat)
    requires Written(h, index, rs, size, hashes, b) && j < BlockCount(|rs|)
    ensures ScanBlock(b, Sparse(rs, BlockCount(|rs|))[j].1, U64) == Some((Entries(Block(rs, j)), Offset(rs, j + 1)))
  {
    hide At, PrintTable, PrintBlock, PrintBlocks, ScanBlock, FilterOf, Fits, SparseOffset, Less, Block, Entries, BlockCount;
    SparseBlockOfWritten(h, index, rs, size, hashes, b);
    BlockAt(b, rs, j);
    BlockFits(rs, j);
    BlockReadBack(b, Offset(rs, j), Block(rs, j), U64);
    assert Sparse(rs, BlockCount(|rs|))[j] == SparseEntry(rs, j);
  }

  /** Once the filter says maybe and a block is chosen, that block's entries decide. */
  lemma {:induction false} LookupInBlock(h: Hash, index: nat, rs: seq<Record>, size: nat, hashes: nat, b: Bytes, key: Bytes, j: nat)
    requires Written(h, index, rs, size, hashes, b) && j < BlockCount(|rs|)
    requires Present(h, FilterOf(h, rs, size, hashes), key, hashes)
    requires UpperBound(Sparse(rs, BlockCount(|rs|)), key) == j + 1
    ensures Lookup(h, b, key) == Some(FindIn(Entries(Block(rs, j)), key))
  {
    hide At, PrintTable, PrintBlock, PrintBlocks, ScanFooter, ScanBloom, ScanSparse, ScanBlock, Present, FilterOf, Fits, FindIn,
         UpperBound, SparseOffset, Less, Block, Entries, Sparse, Offset, BlockCount, BloomOffset;
    FooterOfWritten(h, index, rs, size, hashes, b);
    BloomOfWritten(h, index, rs, size, hashes, b);
    SparseBlockOfWritten(h, index, rs, size, hashes, b);
    BlockOfWritten(h, index, rs, size, hashes, b, j);
  }

  /** The lookup of a stored key returns its own binding. */
  lemma {:induction false} LookupStored(h: Hash, index: nat, rs: seq<Record>, size: nat, hashes: nat, b: Bytes, i: nat)
    requires Written(h, index, rs, size, hashes, b) && i < |rs|
    ensures Lookup(h, b, rs[i].key) == Some(StatusOf(EntryOf(rs[i]), LookupResult(NotFound, None)))
  {
    hide PrintTable, Lookup, Present, Build, Fits, FindIn, UpperBound, Sparse, StatusOf, Less;
    assert Keys(rs)[i] == rs[i].key;
    NoFalseNegatives(h, Keys(rs), size, hashes, rs[i].key);
    SparseIndexComplete(rs, i);
    InBlock(rs, i);
    LookupInBlock(h, index, rs, size, hashes, b, rs[i].key, i / 10);
    FindInPresent(Block(rs, i / 10), i - 10 * (i / 10));
  }

  lemma {:induction false} BlockLacks(rs: seq<Record>, j: nat, key: Bytes)
    requires j < BlockCount(|rs|) && key !in Keys(rs)
    ensures forall e :: e in Entries(Block(rs, j)) ==> e.key != key
  {
    var block := Block(rs, j);
    forall e | e in Entries(block) ensures e.key != key {
      var m :| 0 <= m < |block| && e == Entries(block)[m];
      assert Keys(rs)[10 * j + m] == e.key;
    }
  }

  /** The lookup of a key that was not stored finds nothing, whatever the filter says. */
  lemma {:induction false} LookupMissing(h: Hash, index: nat, rs: seq<Record>, size: nat, hashes: nat, b: Bytes, key: Bytes)
    requires Written(h, index, rs, size, hashes, b) && key !in Keys(rs)
    ensures Lookup(h, b, key) == Some(LookupResult(NotFound, None))
  {
    hide At, PrintTable, PrintBlocks, ScanFooter, ScanBloom, ScanSparse, ScanBlock, Present, FilterOf, Fits, FindIn, UpperBound,
         SparseOffset, Less, Block, Entries, Keys;
    var n := UpperBound(Sparse(rs, BlockCount(|rs|)), key);
    FooterOfWritten(h, index, rs, size, hashes, b);
    BloomOfWritten(h, index, rs, size, hashes, b);
    SparseBlockOfWritten(h, index, rs, size, hashes, b);
    if n > 0 && Present(h, FilterOf(h, rs, size, hashes), key, hashes) {
      LookupInBlock(h, index, rs, size, hashes, b, key, n - 1);
      BlockLacks(rs, n - 1, key);
      FindInAbsent(Entries(Block(rs, n - 1)), key);
    }
  }

  /** Point lookup on a written file: found, tombstone or not found exactly as the records say. */
  lemma {:induction false} LookupCorrect(h: Hash, index: nat, rs: seq<Record>, size: nat, hashes: nat, b: Bytes, key: Bytes)
    requires Written(h, index, rs, size, hashes, b)
    ensures Lookup(h, b, key).Some? && Answers(Lookup(h, b, key).value, rs, key)
  {
    hide Lookup, PrintTable;
    if key in Keys(rs) {
      var i :| 0 <= i < |rs| && rs[i].key == key;
      LookupStored(h, index, rs, size, hashes, b, i);
      forall r | r in rs && r.key == key ensures r == rs[i] {
        var m :| 0 <= m < |rs| && rs[m] == r;
        LessIrreflexive(key);
      }
      assert rs[i] in rs;
    } else {
      LookupMissing(h, index, rs, size, hashes, b, key);
      forall r | r in rs ensures r.key != key {
        var m :| 0 <= m < |rs| && rs[m] == r;
        assert Keys(rs)[m] == r.key;
      }
    }
  }

  /** A file with no entries has a filter of no bytes, and every lookup then takes a remainder by zero. */
  lemma {:induction false} EmptyLookup(h: Hash, index: nat, hashes: nat, key: Bytes)
    requires hashes < U32
    ensures Lookup(h, PrintTable(index, [], [], hashes), key) == None
  {
    hide PrintTable, At, ScanFooter, ScanBloom, PrintBloom, PrintFooter, PrintSparse;
    var b := PrintTable(index, [], [], hashes);
    Layout(index, [], [], hashes);
    FooterAt(b, index, [], [], hashes);
    BloomIsShort(hashes);
    FooterReadBack(b, BloomOffset([]), SparseOffset([], [], hashes));
    BloomReadBack(b, BloomOffset([]), [], hashes);
  }

  lemma {:induction false} BloomIsShort(hashes: nat)
    ensures BloomOffset([]) == HEADER_SIZE && SparseOffset([], [], hashes) == HEADER_SIZE + 16
  {
    hide Crc32, CrcBytes, Matches;
  }

  /** Of the files written for n entries, exactly those with n > 0 can be looked up. */
  lemma {:induction false} LookupDefined(h: Hash, index: nat, rs: seq<Record>, size: nat, hashes: nat, b: Bytes, key: Bytes)
    requires rs == [] ==> hashes < U32 && b == PrintTable(index, [], [], hashes)
    requires rs != [] ==> Written(h, index, rs, size, hashes, b)
    ensures Lookup(h, b, key).Some? <==> rs != []
  {
    hide PrintTable, Lookup, Written;
    if rs == [] {
      EmptyLookup(h, index, hashes, key);
    } else {
      LookupCorrect(h, index, rs, size, hashes, b, key);
    }
  }
}
