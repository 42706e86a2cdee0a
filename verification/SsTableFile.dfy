/** The SSTable writer and readers, field by field and loop by loop. */
module SsTableFile {
  import opened Bytes
  import opened Crc
  import opened Order
  import opened Bloom
  import opened TableFormat
  import opened TableProofs
  import opened Tables
  import opened Devices
  import opened Storage

  // ---------------------------------------------------------------- the Bloom filter in memory

  /** Sets key's bits in place. */
  method InsertToBloomFilter(h: Hash, key: Bytes, bits: array<byte>, hashes: nat)
    requires bits.Length > 0
    modifies bits
    ensures bits[..] == Insert(h, old(bits[..]), key, hashes)
  {
    var h1, h2 := h(key, SEED_1), h(key, SEED_2);
    for i := 0 to hashes
      invariant bits[..] == Insert(h, old(bits[..]), key, i)
    {
      var p := (h1 + i * h2 % U64) % U64 % (bits.Length * BYTE_SIZE);
      PositionWraps(h, key, i, bits.Length);
      ghost var before := bits[..];
      SetByte(bits[p / BYTE_SIZE], p % BYTE_SIZE);
      bits[p / BYTE_SIZE] := Or(bits[p / BYTE_SIZE], Pow2(p % BYTE_SIZE));
      assert bits[..] == SetBit(before, p);
    }
  }

  method IsPresentInBloomFilter(h: Hash, key: Bytes, hashes: nat, bits: Bytes) returns (present: bool)
    requires bits != []
    ensures present <==> Present(h, bits, key, hashes)
  {
    var h1, h2 := h(key, SEED_1), h(key, SEED_2);
    for i := 0 to hashes
      invariant Present(h, bits, key, i)
    {
      var p := (h1 + i * h2 % U64) % U64 % (|bits| * BYTE_SIZE);
      PositionWraps(h, key, i, |bits|);
      if And(bits[p / BYTE_SIZE], Pow2(p % BYTE_SIZE)) == 0 {
        return false;
      }
    }
    return true;
  }

  // ---------------------------------------------------------------- the writer

  /** File i is open for writing. */
  predicate Writable(d: State, i: nat) {
    i in d.files && i in d.dirtyData && |d.files[i]| <= MAX_OFFSET
  }

  function WithContents(d: State, i: nat, contents: Bytes): State {
    d.(files := d.files[i := contents])
  }

  /** From d to d' nothing but the contents of the open file i changed. */
  ghost predicate Touched(d: State, d': State, i: nat) {
    exists contents :: d' == WithContents(d, i, contents)
  }

  /** From d to d' data was appended to the open file i. */
  ghost predicate Grew(d: State, d': State, i: nat, data: Bytes) {
    Writable(d, i) && Writable(d', i) && d' == WithContents(d, i, d.files[i] + data)
  }

  lemma {:induction false} TouchedThen(d: State, e: State, f: State, i: nat)
    requires Touched(d, e, i) && Touched(e, f, i)
    ensures Touched(d, f, i)
  {
    var x :| e == WithContents(d, i, x);
    var y :| f == WithContents(e, i, y);
    assert d.files[i := x][i := y] == d.files[i := y];
    assert f == WithContents(d, i, y);
  }

  lemma {:induction false} GrewThen(d: State, e: State, f: State, i: nat, x: Bytes, y: Bytes)
    requires Grew(d, e, i, x) && Grew(e, f, i, y)
    ensures Grew(d, f, i, x + y)
  {
    assert d.files[i] + x + y == d.files[i] + (x + y);
    assert d.files[i := d.files[i] + x][i := d.files[i] + x + y] == d.files[i := d.files[i] + x + y];
  }

  lemma {:induction false} GrewTouched(d: State, e: State, i: nat, x: Bytes)
    requires Grew(d, e, i, x)
    ensures Touched(d, e, i)
  {
  }

  lemma {:induction false} GrewNothing(d: State, i: nat)
    requires Writable(d, i)
    ensures Grew(d, d, i, [])
  {
    assert d.files[i] + [] == d.files[i];
    assert d.files[i := d.files[i]] == d.files;
  }

  function Flat(fields: seq<Bytes>): Bytes {
    if fields == [] then [] else Flat(fields[..|fields| - 1]) + fields[|fields| - 1]
  }

  method Put(disk: Disk, i: nat, data: Bytes) returns (ok: bool)
    requires Writable(disk.s, i)
    modifies disk
    ensures disk.Blames(old(disk.failures), ok)
    ensures Touched(old(disk.s), disk.s, i)
    ensures ok ==> Grew(old(disk.s), disk.s, i, data)
  {
    ok := disk.WriteTable(i, data);
    ghost var p :| p <= data && (ok ==> p == data) && disk.s == WriteTable(old(disk.s), i, old(disk.s).files[i] + p);
    assert old(disk.s).dirtyData + {i} == old(disk.s).dirtyData;
    assert disk.s == WithContents(old(disk.s), i, old(disk.s).files[i] + p);
  }

  /** A chain of write_bytes calls joined by &&. */
  method PutAll(disk: Disk, i: nat, fields: seq<Bytes>) returns (ok: bool)
    requires Writable(disk.s, i)
    modifies disk
    ensures disk.Blames(old(disk.failures), ok)
    ensures Touched(old(disk.s), disk.s, i)
    ensures ok ==> Grew(old(disk.s), disk.s, i, Flat(fields))
  {
    GrewNothing(disk.s, i);
    var n := 0;
    while n < |fields|
      invariant n <= |fields|
      invariant disk.failures == old(disk.failures)
      invariant Grew(old(disk.s), disk.s, i, Flat(fields[..n]))
    {
      ghost var before := disk.s;
      ok := Put(disk, i, fields[n]);
      GrewTouched(old(disk.s), before, i, Flat(fields[..n]));
      TouchedThen(old(disk.s), before, disk.s, i);
      if !ok {
        return;
      }
      GrewThen(old(disk.s), before, disk.s, i, Flat(fields[..n]), fields[n]);
      assert fields[..n + 1][..n] == fields[..n];
      n := n + 1;
    }
    assert fields[..n] == fields;
    GrewTouched(old(disk.s), disk.s, i, Flat(fields));
    ok := true;
  }

  lemma {:induction false} Flat2(a: Bytes, b: Bytes)
    ensures Flat([a, b]) == a + b
  {
    assert [a, b][..1] == [a] && [a][..0] == [];
    assert Flat([a]) == Flat([]) + a == a;
  }

  lemma {:induction false} Flat3(a: Bytes, b: Bytes, c: Bytes)
    ensures Flat([a, b, c]) == a + (b + c)
  {
    Flat2(a, b);
    assert [a, b, c][..2] == [a, b];
    assert a + b + c == a + (b + c);
  }

  lemma {:induction false} Flat4(a: Bytes, b: Bytes, c: Bytes, d: Bytes)
    ensures Flat([a, b, c, d]) == a + (b + (c + d))
  {
    Flat3(a, b, c);
    assert [a, b, c, d][..3] == [a, b, c];
    assert a + (b + c) + d == a + (b + (c + d));
  }

  lemma {:induction false} Flat5(a: Bytes, b: Bytes, c: Bytes, d: Bytes, e: Bytes)
    ensures Flat([a, b, c, d, e]) == a + (b + (c + (d + e)))
  {
    Flat4(a, b, c, d);
    assert [a, b, c, d, e][..4] == [a, b, c, d];
    assert a + (b + (c + d)) + e == a + (b + (c + (d + e)));
  }

  method WriteHeaderBlock(disk: Disk, i: nat, index: nat, count: nat) returns (ok: bool)
    requires Writable(disk.s, i)
    modifies disk
    ensures disk.Blames(old(disk.failures), ok)
    ensures Touched(old(disk.s), disk.s, i)
    ensures ok ==> Grew(old(disk.s), disk.s, i, PrintHeader(index, count))
  {
    hide Crc32, CrcBytes, Matches, Flat;
    var version, x, n := [VERSION], Le64(index), Le64(count);
    var crc := Crc32(0, version);
    crc := Crc32(crc, x);
    crc := Crc32(crc, n);
    Chain(0, version, x + n);
    Chain(Crc32(0, version), x, n);
    Flat5(Le32(MAGIC), version, x, n, CrcBytes(crc));
    assert version + (x + (n + CrcBytes(crc))) == version + (x + n) + CrcBytes(crc);
    ok := PutAll(disk, i, [Le32(MAGIC), version, x, n, CrcBytes(crc)]);
  }

  /** One entry of a data block; the value is written only if there is one. */
  method WriteEntry(disk: Disk, i: nat, r: Record) returns (ok: bool)
    requires Writable(disk.s, i)
    modifies disk
    ensures disk.Blames(old(disk.failures), ok)
    ensures Touched(old(disk.s), disk.s, i)
    ensures ok ==> Grew(old(disk.s), disk.s, i, PrintEntry(r))
  {
    hide Flat;
    var op := if r.val.Some? then SET else DEL;
    var valLen := if r.val.Some? then |r.val.value| else 0;
    ok := PutAll(disk, i, [[op], Le32(|r.key|), Clip(r.key), Le32(valLen)]);
    Flat4([op], Le32(|r.key|), Clip(r.key), Le32(valLen));
    ghost var fields := [op] + (Le32(|r.key|) + (Clip(r.key) + Le32(valLen)));
    assert PrintEntry(r) == fields + Clip(ValueOf(r));
    assert r.val.None? ==> fields + Clip(ValueOf(r)) == fields;
    if ok && r.val.Some? {
      ghost var before := disk.s;
      ok := Put(disk, i, Clip(r.val.value));
      TouchedThen(old(disk.s), before, disk.s, i);
      if ok {
        GrewThen(old(disk.s), before, disk.s, i, fields, Clip(ValueOf(r)));
      }
    }
  }

  method WriteDataBlock(disk: Disk, i: nat, data: seq<Record>) returns (ok: bool)
    requires Writable(disk.s, i)
    modifies disk
    ensures disk.Blames(old(disk.failures), ok)
    ensures Touched(old(disk.s), disk.s, i)
    ensures ok ==> Grew(old(disk.s), disk.s, i, PrintBlock(data))
  {
    hide Crc32, CrcBytes, Matches, PrintEntry, KeyValChecksum;
    var count := Le64(|data|);
    var crc := Crc32(0, count);
    ok := Put(disk, i, count);
    var n := 0;
    assert data[..0] == [] && count + Concat(PrintEntry, []) == count;
    while ok && n < |data|
      invariant n <= |data|
      invariant disk.Blames(old(disk.failures), ok)
      invariant Touched(old(disk.s), disk.s, i)
      invariant ok ==> Grew(old(disk.s), disk.s, i, count + Concat(PrintEntry, data[..n]))
      invariant crc == Crc32(0, count + Concat(PrintEntry, data[..n]))
      decreases |data| - n, ok
    {
      var r := data[n];
      ghost var before, body := disk.s, count + Concat(PrintEntry, data[..n]);
      ok := WriteEntry(disk, i, r);
      TouchedThen(old(disk.s), before, disk.s, i);
      crc := KeyValChecksum(if r.val.Some? then SET else DEL, crc, r.key, if r.val.Some? then r.val.value else []);
      EntryChecksum(Crc32(0, body), r);
      Chain(0, body, PrintEntry(r));
      assert data[..n + 1] == data[..n] + [r];
      ConcatSnoc(PrintEntry, data[..n], r);
      assert body + PrintEntry(r) == count + Concat(PrintEntry, data[..n + 1]);
      if ok {
        GrewThen(old(disk.s), before, disk.s, i, body, PrintEntry(r));
      }
      n := n + 1;
    }
    if ok {
      assert data[..n] == data;
      ghost var before := disk.s;
      ok := Put(disk, i, CrcBytes(crc));
      TouchedThen(old(disk.s), before, disk.s, i);
      if ok {
        GrewThen(old(disk.s), before, disk.s, i, count + Concat(PrintEntry, data), CrcBytes(crc));
      }
    }
  }

  method WriteBloomFilterBlock(disk: Disk, i: nat, bits: Bytes, hashes: nat) returns (ok: bool)
    requires Writable(disk.s, i)
    modifies disk
    ensures disk.Blames(old(disk.failures), ok)
    ensures Touched(old(disk.s), disk.s, i)
    ensures ok ==> Grew(old(disk.s), disk.s, i, PrintBloom(bits, hashes))
  {
    hide Crc32, CrcBytes, Matches, Flat;
    var size, k := Le64(|bits|), Le32(hashes);
    var crc := Crc32(0, size);
    crc := Crc32(crc, k);
    Chain(0, size, k);
    ok := PutAll(disk, i, [size, k]);
    Flat2(size, k);
    var n := 0;
    assert size + k + bits[..0] == size + k;
    while ok && n < |bits|
      invariant n <= |bits|
      invariant disk.Blames(old(disk.failures), ok)
      invariant Touched(old(disk.s), disk.s, i)
      invariant ok ==> Grew(old(disk.s), disk.s, i, size + k + bits[..n])
      invariant crc == Crc32(0, size + k + bits[..n])
      decreases |bits| - n, ok
    {
      ghost var before, body := disk.s, size + k + bits[..n];
      crc := Crc32(crc, [bits[n]]);
      ok := Put(disk, i, [bits[n]]);
      TouchedThen(old(disk.s), before, disk.s, i);
      Chain(0, body, [bits[n]]);
      assert body + [bits[n]] == size + k + bits[..n + 1];
      if ok {
        GrewThen(old(disk.s), before, disk.s, i, body, [bits[n]]);
      }
      n := n + 1;
    }
    if ok {
      ghost var before := disk.s;
      ok := Put(disk, i, CrcBytes(crc));
      TouchedThen(old(disk.s), before, disk.s, i);
      assert size + k + bits[..n] == size + (k + bits);
      if ok {
        GrewThen(old(disk.s), before, disk.s, i, size + (k + bits), CrcBytes(crc));
      }
    }
  }

  lemma {:induction false} SparseEntryChecksum(crc: u32, e: (Bytes, nat))
    ensures Crc32(Crc32(Crc32(crc, Le32(|e.0|)), Clip(e.0)), Le64(e.1)) == Crc32(crc, PrintSparseEntry(e))
  {
    hide Crc32, CrcBytes, Matches;
    Chain(crc, Le32(|e.0|), Clip(e.0));
    Chain(crc, PrintString(e.0), Le64(e.1));
  }

  method WriteSparseEntry(disk: Disk, i: nat, e: (Bytes, nat)) returns (ok: bool)
    requires Writable(disk.s, i)
    modifies disk
    ensures disk.Blames(old(disk.failures), ok)
    ensures Touched(old(disk.s), disk.s, i)
    ensures ok ==> Grew(old(disk.s), disk.s, i, PrintSparseEntry(e))
  {
    hide Flat;
    ok := PutAll(disk, i, [Le32(|e.0|), Clip(e.0), Le64(e.1)]);
    Flat3(Le32(|e.0|), Clip(e.0), Le64(e.1));
    assert Le32(|e.0|) + (Clip(e.0) + Le64(e.1)) == PrintSparseEntry(e);
  }

  method WriteSparseIndexBlock(disk: Disk, i: nat, sparse: seq<(Bytes, nat)>) returns (ok: bool)
    requires Writable(disk.s, i)
    modifies disk
    ensures disk.Blames(old(disk.failures), ok)
    ensures Touched(old(disk.s), disk.s, i)
    ensures ok ==> Grew(old(disk.s), disk.s, i, PrintSparse(sparse))
  {
    hide Crc32, CrcBytes, Matches, PrintSparseEntry, Clip;
    var count := Le64(|sparse|);
    var crc := Crc32(0, count);
    ok := Put(disk, i, count);
    var n := 0;
    assert sparse[..0] == [] && count + Concat(PrintSparseEntry, []) == count;
    while ok && n < |sparse|
      invariant n <= |sparse|
      invariant disk.Blames(old(disk.failures), ok)
      invariant Touched(old(disk.s), disk.s, i)
      invariant ok ==> Grew(old(disk.s), disk.s, i, count + Concat(PrintSparseEntry, sparse[..n]))
      invariant crc == Crc32(0, count + Concat(PrintSparseEntry, sparse[..n]))
      decreases |sparse| - n, ok
    {
      var e := sparse[n];
      ghost var before, body := disk.s, count + Concat(PrintSparseEntry, sparse[..n]);
      SparseEntryChecksum(crc, e);
      Chain(0, body, PrintSparseEntry(e));
      crc := Crc32(Crc32(Crc32(crc, Le32(|e.0|)), Clip(e.0)), Le64(e.1));
      ok := WriteSparseEntry(disk, i, e);
      TouchedThen(old(disk.s), before, disk.s, i);
      assert sparse[..n + 1] == sparse[..n] + [e];
      ConcatSnoc(PrintSparseEntry, sparse[..n], e);
      assert body + PrintSparseEntry(e) == count + Concat(PrintSparseEntry, sparse[..n + 1]);
      if ok {
        GrewThen(old(disk.s), before, disk.s, i, body, PrintSparseEntry(e));
      }
      n := n + 1;
    }
    if ok {
      assert sparse[..n] == sparse;
      ghost var before := disk.s;
      ok := Put(disk, i, CrcBytes(crc));
      TouchedThen(old(disk.s), before, disk.s, i);
      if ok {
        GrewThen(old(disk.s), before, disk.s, i, count + Concat(PrintSparseEntry, sparse), CrcBytes(crc));
      }
    }
  }

  method WriteFooterBlock(disk: Disk, i: nat, bloomOffset: nat, sparseOffset: nat) returns (ok: bool)
    requires Writable(disk.s, i)
    modifies disk
    ensures disk.Blames(old(disk.failures), ok)
    ensures Touched(old(disk.s), disk.s, i)
    ensures ok ==> Grew(old(disk.s), disk.s, i, PrintFooter(bloomOffset, sparseOffset))
  {
    hide Crc32, CrcBytes, Matches, Flat;
    var x, y := Le64(bloomOffset), Le64(sparseOffset);
    var crc := Crc32(0, x);
    crc := Crc32(crc, y);
    Chain(0, x, y);
    Flat3(x, y, CrcBytes(crc));
    assert x + (y + CrcBytes(crc)) == x + y + CrcBytes(crc);
    ok := PutAll(disk, i, [x, y, CrcBytes(crc)]);
  }
}
