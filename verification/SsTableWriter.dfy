/** Writing a whole SSTable: every successful call leaves a complete, synced file for the table. */
module SsTableWriter {
  import opened Bytes
  import opened Crc
  import opened Order
  import opened Bloom
  import opened TableFormat
  import opened TableProofs
  import opened Tables
  import opened Devices
  import opened Storage
  import opened SsTableFile

  /** The filter's size in bytes and its hash count for n entries; the formula is floating point. */
  method BloomSizing(n: nat) returns (size: nat, hashes: nat)
    requires n > 0
    ensures 0 < size && size * BYTE_SIZE < U64 && 0 < hashes < U32
  {
    size := *;
    hashes := *;
    if !(0 < size && size * BYTE_SIZE < U64 && 0 < hashes < U32) {
      size, hashes := 1, 1;
    }
  }

  lemma {:induction false} BlocksAreLong(rs: seq<Record>, n: nat)
    requires n <= BlockCount(|rs|)
    ensures |PrintBlocks(rs, n)| >= if 10 * n <= |rs| then 10 * n else |rs|
  {
    hide PrintBlock;
    if n > 0 {
      BlocksAreLong(rs, n - 1);
      BlockIsLong(Block(rs, n - 1));
    }
  }

  lemma {:induction false} BlockIsLong(block: seq<Record>)
    ensures |PrintBlock(block)| >= |block|
  {
    hide PrintEntry, Crc32, CrcBytes, Matches, Concat;
    EntriesAreLong(block);
  }

  lemma {:induction false} EntriesAreLong(rs: seq<Record>)
    ensures |Concat(PrintEntry, rs)| >= |rs|
  {
    if rs != [] {
      EntriesAreLong(rs[1..]);
    }
  }

  /** A file below the offset limit is one that the readers' integer widths can describe. */
  lemma {:induction false} WrittenFits(h: Hash, index: nat, t: Table, size: nat, hashes: nat, b: Bytes)
    requires index < U64 && t != map[] && TableFits(t) && 0 < size && size * BYTE_SIZE < U64 && hashes < U32
    requires |b| <= MAX_OFFSET
    requires b == PrintTable(index, Listing(t), Build(h, Keys(Listing(t)), size, hashes), hashes)
    ensures Holds(h, index, t, b)
  {
    hide Less, Fits, PrintBlocks, PrintBloom, PrintSparse, PrintFooter, Build, Crc32, CrcBytes, Matches, Sparse, PrintTable, PrintHeader;
    var rs := Listing(t);
    ListingFacts(t);
    BlocksAreLong(rs, BlockCount(|rs|));
    Layout(index, rs, Build(h, Keys(rs), size, hashes), hashes);
    assert Written(h, index, rs, size, hashes, b);
  }

  /** The file as it grows: header, then the blocks written so far. */
  ghost predicate SoFar(d: State, d': State, index: nat, rs: seq<Record>, j: nat)
    requires j <= BlockCount(|rs|)
  {
    Grew(d, d', index, PrintHeader(index, |rs|) + PrintBlocks(rs, j))
  }

  lemma {:induction false} BlockWritten(d: State, e: State, f: State, index: nat, rs: seq<Record>, j: nat)
    requires j < BlockCount(|rs|) && SoFar(d, e, index, rs, j) && Grew(e, f, index, PrintBlock(Block(rs, j)))
    ensures SoFar(d, f, index, rs, j + 1)
  {
    hide PrintBlock, PrintHeader;
    var header, before, block := PrintHeader(index, |rs|), PrintBlocks(rs, j), PrintBlock(Block(rs, j));
    GrewThen(d, e, f, index, header + before, block);
    assert header + before + block == header + (before + block);
  }

  /** Writes one full or final block and records it in the sparse index. */
  method FlushBlock(disk: Disk, index: nat, block: seq<Record>, sparse: seq<(Bytes, nat)>,
                    ghost d: State, ghost rs: seq<Record>, ghost j: nat)
    returns (ok: bool, sparse': seq<(Bytes, nat)>)
    requires j < BlockCount(|rs|) && block == Block(rs, j) && sparse == Sparse(rs, j)
    requires d.files.Keys >= {index} && d.files[index] == [] && SoFar(d, disk.s, index, rs, j)
    modifies disk
    ensures disk.Blames(old(disk.failures), ok)
    ensures Touched(d, disk.s, index)
    ensures ok ==> SoFar(d, disk.s, index, rs, j + 1) && sparse' == Sparse(rs, j + 1)
  {
    hide PrintBlock, PrintBlocks, PrintHeader;
    HeaderSize(index, |rs|);
    var offset := |disk.s.files[index]|;
    assert offset == Offset(rs, j) by {
      assert [] + (PrintHeader(index, |rs|) + PrintBlocks(rs, j)) == PrintHeader(index, |rs|) + PrintBlocks(rs, j);
    }
    ok := WriteDataBlock(disk, index, block);
    GrewTouched(d, old(disk.s), index, PrintHeader(index, |rs|) + PrintBlocks(rs, j));
    TouchedThen(d, old(disk.s), disk.s, index);
    sparse' := sparse;
    if ok {
      BlockWritten(d, old(disk.s), disk.s, index, rs, j);
      sparse' := sparse + [(block[0].key, offset)];
    }
  }

  lemma {:induction false} HeaderWritten(d: State, e: State, index: nat, rs: seq<Record>)
    requires Grew(d, e, index, PrintHeader(index, |rs|))
    ensures SoFar(d, e, index, rs, 0) && Touched(d, e, index)
  {
    hide PrintHeader;
    assert PrintHeader(index, |rs|) + [] == PrintHeader(index, |rs|);
    GrewTouched(d, e, index, PrintHeader(index, |rs|));
  }

  lemma {:induction false} BuildNext(h: Hash, rs: seq<Record>, n: nat, size: nat, hashes: nat)
    requires n < |rs| && size > 0
    ensures Build(h, Keys(rs)[..n + 1], size, hashes) ==
            Insert(h, Build(h, Keys(rs)[..n], size, hashes), rs[n].key, hashes)
  {
    hide Insert;
    assert Keys(rs)[..n + 1][..n] == Keys(rs)[..n];
  }

  lemma {:induction false} BuildNothing(h: Hash, size: nat, hashes: nat)
    requires size > 0
    ensures Build(h, [], size, hashes) == seq(size, _ => 0)
  {
  }

  lemma {:induction false} SparseNothing(rs: seq<Record>)
    ensures Sparse(rs, 0) == []
  {
  }

  /** A block that is full, or holds the last records, is the next one. */
  lemma {:induction false} IsNextBlock(rs: seq<Record>, j: nat, n: nat)
    requires 10 * j < n <= 10 * j + 10 && n <= |rs| && (n == 10 * j + 10 || n == |rs|)
    ensures j < BlockCount(|rs|) && rs[10 * j..n] == Block(rs, j)
    ensures n == |rs| ==> j + 1 == BlockCount(|rs|)
  {
  }

  lemma {:induction false} NoMoreBlocks(rs: seq<Record>, j: nat)
    requires 10 * j == |rs|
    ensures j == BlockCount(|rs|)
  {
  }

  /** Header and data blocks, with the Bloom filter and the sparse index gathered on the way. */
  method WriteBlocks(h: Hash, disk: Disk, index: nat, rs: seq<Record>, size: nat, hashes: nat)
    returns (ok: bool, bits: Bytes, sparse: seq<(Bytes, nat)>)
    requires 0 < size && Writable(disk.s, index) && disk.s.files[index] == []
    modifies disk
    ensures disk.Blames(old(disk.failures), ok)
    ensures Touched(old(disk.s), disk.s, index)
    ensures ok ==> SoFar(old(disk.s), disk.s, index, rs, BlockCount(|rs|))
                   && sparse == Sparse(rs, BlockCount(|rs|)) && bits == Build(h, Keys(rs), size, hashes)
  {
    hide PrintHeader, PrintBlocks, Insert, Build, Touched, Grew, SoFar, Sparse, Block, BlockCount;
    bits, sparse := [], [];
    ok := WriteHeaderBlock(disk, index, index, |rs|);
    if !ok {
      return;
    }
    var filter := new byte[size](_ => 0);
    assert filter[..] == Build(h, Keys(rs)[..0], size, hashes) by {
      BuildNothing(h, size, hashes);
      assert Keys(rs)[..0] == [];
    }
    assert sparse == Sparse(rs, 0) by { SparseNothing(rs); }
    var block: seq<Record> := [];
    ghost var j := 0;
    HeaderWritten(old(disk.s), disk.s, index, rs);
    var n := 0;
    while n < |rs|
      invariant n <= |rs| && 10 * j <= n < 10 * j + 10 && block == rs[10 * j..n]
      invariant j <= BlockCount(|rs|) && SoFar(old(disk.s), disk.s, index, rs, j)
      invariant disk.failures == old(disk.failures)
      invariant Touched(old(disk.s), disk.s, index)
      invariant sparse == Sparse(rs, j)
      invariant filter.Length == size && filter[..] == Build(h, Keys(rs)[..n], size, hashes)
      invariant fresh(filter)
    {
      InsertToBloomFilter(h, rs[n].key, filter, hashes);
      BuildNext(h, rs, n, size, hashes);
      block := block + [rs[n]];
      n := n + 1;
      if |block| == RECORDS_PER_BLOCK {
        IsNextBlock(rs, j, n);
        ok, sparse := FlushBlock(disk, index, block, sparse, old(disk.s), rs, j);
        if !ok {
          return;
        }
        j := j + 1;
        block := [];
      }
    }
    if block != [] {
      IsNextBlock(rs, j, n);
      ok, sparse := FlushBlock(disk, index, block, sparse, old(disk.s), rs, j);
      if !ok {
        return;
      }
      j := j + 1;
    } else {
      NoMoreBlocks(rs, j);
    }
    assert Keys(rs)[..n] == Keys(rs);
    bits := filter[..];
    ok := true;
  }

  /** Everything but the syncs. */
  method WriteContents(h: Hash, disk: Disk, index: nat, t: Table) returns (ok: bool)
    requires index < U64 && t != map[] && TableFits(t)
    requires Writable(disk.s, index) && disk.s.files[index] == []
    modifies disk
    ensures disk.Blames(old(disk.failures), ok)
    ensures Touched(old(disk.s), disk.s, index)
    ensures ok ==> index in disk.s.files && Holds(h, index, t, disk.s.files[index])
  {
    hide PrintBlocks, PrintHeader, PrintBloom, PrintSparse, PrintFooter, Build, Less, Holds, Sparse;
    var rs := Listing(t);
    ListingFacts(t);
    var size, hashes := BloomSizing(|t|);
    var bits, sparse;
    ok, bits, sparse := WriteBlocks(h, disk, index, rs, size, hashes);
    if !ok {
      return;
    }
    ghost var d, d1 := old(disk.s), disk.s;
    ghost var body := PrintHeader(index, |rs|) + AllBlocks(rs);
    HeaderSize(index, |rs|);
    assert [] + body == body;
    var bloomOffset := |disk.s.files[index]|;
    ok := WriteBloomFilterBlock(disk, index, bits, hashes);
    ghost var d2 := disk.s;
    TouchedThen(d, d1, d2, index);
    if !ok {
      return;
    }
    GrewThen(d, d1, d2, index, body, PrintBloom(bits, hashes));
    var sparseOffset := |disk.s.files[index]|;
    assert sparseOffset == SparseOffset(rs, bits, hashes);
    ok := WriteSparseIndexBlock(disk, index, sparse);
    ghost var d3 := disk.s;
    TouchedThen(d, d2, d3, index);
    if !ok {
      return;
    }
    GrewThen(d, d2, d3, index, body + PrintBloom(bits, hashes), PrintSparse(sparse));
    ok := WriteFooterBlock(disk, index, bloomOffset, sparseOffset);
    TouchedThen(d, d3, disk.s, index);
    if ok {
      GrewThen(d, d3, disk.s, index, body + PrintBloom(bits, hashes) + PrintSparse(sparse),
               PrintFooter(bloomOffset, sparseOffset));
      Reassociate(PrintHeader(index, |rs|), AllBlocks(rs), PrintBloom(bits, hashes), PrintSparse(sparse),
                  PrintFooter(bloomOffset, sparseOffset));
      WrittenFits(h, index, t, size, hashes, disk.s.files[index]);
    }
  }

  lemma {:induction false} Reassociate(a: Bytes, b: Bytes, c: Bytes, d: Bytes, e: Bytes)
    ensures [] + (a + b + c + d + e) == a + (b + (c + (d + e)))
  {
  }

  /** write_to_ss_table on the freshly opened file `index`: contents, file sync, directory sync. */
  method WriteToSsTable(h: Hash, disk: Disk, index: nat, t: Table) returns (ok: bool, ghost middle: State)
    requires index < U64 && t != map[] && TableFits(t)
    requires Writable(disk.s, index) && disk.s.files[index] == []
    modifies disk
    ensures disk.Blames(old(disk.failures), ok)
    ensures Touched(old(disk.s), middle, index)
    ensures disk.s != middle ==> index in middle.files && Holds(h, index, t, middle.files[index])
    ensures !ok ==> disk.s == middle || disk.s == SyncTable(middle, index)
    ensures ok ==> index in middle.files && Holds(h, index, t, middle.files[index])
                   && disk.s == SyncDirectory(SyncTable(middle, index))
  {
    hide Holds;
    ok := WriteContents(h, disk, index, t);
    middle := disk.s;
    if ok {
      ok := disk.SyncTable(index);
      if ok {
        ok := disk.SyncDirectory();
      }
    }
  }
}
