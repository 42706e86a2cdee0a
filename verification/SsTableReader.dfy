/** Reading an SSTable: the stream's cursor, the two readers and the three scans built on the full one. */
module SsTableReader {
  import opened Bytes
  import opened Crc
  import opened Order
  import opened Bloom
  import opened TableFormat
  import opened TableProofs
  import opened Tables
  import opened SsTableFile

  /** Which keys a scan is asked for. */
  datatype Query = Everything | Exactly(key: Bytes) | Within(start: Bytes, end: Bytes) | Extending(prefix: Bytes)

  predicate Wants(q: Query, k: Bytes) {
    match q
    case Everything => true
    case Exactly(key) => k == key
    case Within(start, end) => !Less(k, start) && !Less(end, k)
    case Extending(prefix) => StartsWith(k, prefix)
  }

  /** rows are exactly t's bindings whose keys q wants, in ascending key order. */
  ghost predicate AreRows(rows: seq<Record>, t: Table, q: Query) {
    && AscendingKeys(rows)
    && forall r: Record :: r in rows <==> r.key in t && r.val == t[r.key] && Wants(q, r.key)
  }

  /** The rows in the order of their keys' first differing bytes. */
  ghost predicate InOrder(rows: seq<Record>) {
    forall i, j :: 0 <= i < j < |rows| ==> Before(rows[i].key, rows[j].key)
  }

  lemma {:induction false} RowsInOrder(rows: seq<Record>)
    requires AscendingKeys(rows)
    ensures InOrder(rows)
  {
    hide Less, Before;
    forall i, j | 0 <= i < j < |rows| ensures Before(rows[i].key, rows[j].key) {
      LessMeans(rows[i].key, rows[j].key);
    }
  }

  /** A key is within the bounds unless it comes before the first or after the second. */
  lemma {:induction false} WithinMeans(start: Bytes, end: Bytes, k: Bytes)
    ensures Wants(Within(start, end), k) <==> !Before(k, start) && !Before(end, k)
  {
    hide Less, Before;
    LessMeans(k, start);
    LessMeans(end, k);
  }

  /** A key extends a prefix when its first bytes are that prefix. */
  lemma {:induction false} ExtendingMeans(prefix: Bytes, k: Bytes)
    ensures Wants(Extending(prefix), k) <==> |prefix| <= |k| && k[..|prefix|] == prefix
  {
  }

  lemma {:induction false} RowsWithin(rows: seq<Record>, t: Table, start: Bytes, end: Bytes)
    requires AreRows(rows, t, Within(start, end))
    ensures InOrder(rows)
    ensures forall r: Record :: r in rows <==>
              r.key in t && r.val == t[r.key] && !Before(r.key, start) && !Before(end, r.key)
  {
    hide Less, Before, Wants;
    RowsInOrder(rows);
    forall r: Record ensures Wants(Within(start, end), r.key) <==> !Before(r.key, start) && !Before(end, r.key) {
      WithinMeans(start, end, r.key);
    }
  }

  lemma {:induction false} RowsExtending(rows: seq<Record>, t: Table, prefix: Bytes)
    requires AreRows(rows, t, Extending(prefix))
    ensures InOrder(rows)
    ensures forall r: Record :: r in rows <==>
              r.key in t && r.val == t[r.key] && |prefix| <= |r.key| && r.key[..|prefix|] == prefix
  {
    hide Less, Before, Wants;
    RowsInOrder(rows);
    forall r: Record ensures Wants(Extending(prefix), r.key) <==> |prefix| <= |r.key| && r.key[..|prefix|] == prefix {
      ExtendingMeans(prefix, r.key);
    }
  }

  /** ks lists t's keys as std::map iterates them. */
  ghost predicate Iterates(ks: seq<Bytes>, t: Table) {
    Ascending(ks) && (forall i :: 0 <= i < |ks| ==> ks[i] in t) && forall k :: k in t ==> k in ks
  }

  lemma {:induction false} SortedIterates(t: Table)
    ensures Iterates(Sorted(t.Keys), t)
  {
    hide Less, Sorted;
    SortedIsSorted(t.Keys);
  }

  /** rows are the bindings of the keys lo..hi. */
  predicate AreRun(rows: seq<Record>, t: Table, ks: seq<Bytes>, lo: nat, hi: nat)
    requires lo <= hi <= |ks| && forall i :: 0 <= i < |ks| ==> ks[i] in t
  {
    |rows| == hi - lo && forall j :: lo <= j < hi ==> rows[j - lo] == Record(ks[j], t[ks[j]])
  }

  /** The rows of a contiguous run of the sorted keys that holds exactly the wanted ones. */
  lemma {:induction false} RunIsRows(t: Table, ks: seq<Bytes>, lo: nat, hi: nat, rows: seq<Record>, q: Query)
    requires Iterates(ks, t) && lo <= hi <= |ks| && AreRun(rows, t, ks, lo, hi)
    requires forall i :: 0 <= i < |ks| ==> (Wants(q, ks[i]) <==> lo <= i < hi)
    ensures AreRows(rows, t, q)
  {
    hide Less;
    forall i, j | 0 <= i < j < |rows| ensures Less(rows[i].key, rows[j].key) {
      assert rows[lo + i - lo].key == ks[lo + i] && rows[lo + j - lo].key == ks[lo + j];
    }
    forall r: Record | r.key in t && r.val == t[r.key] && Wants(q, r.key) ensures r in rows {
      var i :| 0 <= i < |ks| && ks[i] == r.key;
      assert rows[i - lo] == r;
    }
    forall r | r in rows ensures r.key in t && r.val == t[r.key] && Wants(q, r.key) {
      var i :| 0 <= i < |rows| && rows[i] == r;
      assert rows[lo + i - lo] == Record(ks[lo + i], t[ks[lo + i]]);
    }
  }

  lemma {:induction false} CollectSnoc(es: seq<Entry>, n: nat)
    requires n < |es|
    ensures Collect(es[..n + 1]) ==
            if es[n].op == SET then Collect(es[..n])[es[n].key := es[n].val]
            else if es[n].op == DEL then Collect(es[..n])[es[n].key := None]
            else Collect(es[..n])
  {
    assert es[..n + 1][..n] == es[..n];
  }

  class SsTable {
    const index: nat
    const contents: Bytes
    var pos: nat

    constructor (index: nat, contents: Bytes)
      ensures this.index == index && this.contents == contents
    {
      this.index := index;
      this.contents := contents;
      pos := 0;
    }

    // -------------------------------------------------------------- the stream

    method Seek(p: nat)
      modifies this`pos
      ensures pos == p
    {
      pos := p;
    }

    method ReadField(n: nat) returns (r: Option<Bytes>)
      modifies this`pos
      ensures r == Read(contents, old(pos), n)
      ensures r.Some? ==> pos == old(pos) + n
    {
      r := Read(contents, pos, n);
      if r.Some? {
        pos := pos + n;
      }
    }

    // -------------------------------------------------------------- entries and blocks

    method ReadEntry(crc: u32) returns (r: Option<(Entry, u32)>)
      modifies this`pos
      ensures r.Some? <==> ScanEntry(contents, old(pos), crc).Some?
      ensures r.Some? ==> ScanEntry(contents, old(pos), crc) == Some(Scanned(r.value.0, pos, r.value.1))
    {
      hide KeyValChecksum, Read, FromLE;
      r := None;
      var op := ReadField(1);
      if op.None? { return; }
      var keyLen := ReadField(4);
      if keyLen.None? { return; }
      var key := ReadField(FromLE(keyLen.value));
      if key.None? { return; }
      var valLen := ReadField(4);
      if valLen.None? { return; }
      var val := ReadField(FromLE(valLen.value));
      if val.None? { return; }
      r := Some((MakeEntry(op.value[0], key.value, val.value),
                 KeyValChecksum(op.value[0], crc, key.value, val.value)));
    }

    /** The rest of a data block once its count has been read: the entries, then the checksum. */
    method ReadBlockBody(n: nat, count: Bytes) returns (r: Option<seq<Entry>>)
      modifies this`pos
      ensures var es := ScanEntries(contents, old(pos), n, Crc32(0, count), []);
              if es.None? then r.None?
              else var sum := Read(contents, es.value.pos, 4);
                   if sum.None? || !Matches(sum.value, es.value.crc) then r.None?
                   else r == Some(es.value.value) && pos == es.value.pos + 4
    {
      hide Crc32, CrcBytes, Matches, ScanEntry, Read, FromLE;
      var crc := Crc32(0, count);
      var records: seq<Entry> := [];
      var i := 0;
      while i < n
        invariant i <= n
        invariant ScanEntries(contents, pos, n - i, crc, records) ==
                  ScanEntries(contents, old(pos), n, Crc32(0, count), [])
      {
        var e := ReadEntry(crc);
        if e.None? {
          return None;
        }
        crc := e.value.1;
        records := records + [e.value.0];
        i := i + 1;
      }
      var sum := ReadField(4);
      if sum.None? || !Matches(sum.value, crc) {
        return None;
      }
      return Some(records);
    }

    method ReadDataBlockByOffset(offset: nat) returns (r: Option<seq<Entry>>)
      modifies this`pos
      ensures var b := ScanBlock(contents, offset, U64);
              r == if b.Some? then Some(b.value.0) else None
    {
      hide Crc32, CrcBytes, Matches, ScanEntries, Read;
      Seek(offset);
      var count := ReadField(8);
      if count.None? {
        return None;
      }
      PowerValues();
      var n := FromLE(count.value);
      if n == 0 {
        return None;
      }
      r := ReadBlockBody(n, count.value);
    }

    // -------------------------------------------------------------- the full scan

    method ReadHeader() returns (r: Option<nat>)
      modifies this`pos
      ensures r == ScanHeader(contents, index)
      ensures r.Some? ==> pos == HEADER_SIZE
    {
      hide Crc32, CrcBytes, Matches, Read, FromLE;
      Seek(0);
      var crc: u32 := 0;
      var magic := ReadField(4);
      if magic.None? || FromLE(magic.value) != MAGIC { return None; }
      var version := ReadField(1);
      if version.None? { return None; }
      crc := Crc32(crc, version.value);
      var stored := ReadField(8);
      if stored.None? { return None; }
      crc := Crc32(crc, stored.value);
      if FromLE(stored.value) != index { return None; }
      var count := ReadField(8);
      if count.None? { return None; }
      crc := Crc32(crc, count.value);
      var sum := ReadField(4);
      if sum.None? || !Matches(sum.value, crc) { return None; }
      return Some(FromLE(count.value));
    }

    /** read_ss_table: every entry in file order; None where it throws. */
    method ReadSsTable() returns (r: Option<seq<Entry>>)
      modifies this`pos
      ensures var t := ScanTable(contents, index);
              if t.None? then r.None? else r == Some(t.value.0) && pos == t.value.1
    {
      hide Crc32, CrcBytes, Matches, ScanHeader, ScanEntries, Read;
      var count := ReadHeader();
      if count.None? {
        return None;
      }
      var total: nat := count.value;
      var records: seq<Entry> := [];
      while total > 0
        invariant ScanBlocks(contents, pos, total, records) == ScanBlocks(contents, HEADER_SIZE, count.value, [])
        decreases total
      {
        ghost var at := pos;
        var n := ReadField(8);
        if n.None? {
          return None;
        }
        var blockCount := FromLE(n.value);
        if blockCount == 0 || blockCount > total {
          return None;
        }
        var es := ReadBlockBody(blockCount, n.value);
        if es.None? {
          return None;
        }
        assert ScanBlock(contents, at, total) == Some((es.value, pos));
        total := total - |es.value|;
        records := records + es.value;
      }
      return Some(records);
    }

    // -------------------------------------------------------------- the indexed lookup

    method ReadFooterBlock() returns (r: Option<(nat, nat)>)
      modifies this`pos
      ensures r == ScanFooter(contents)
    {
      hide Crc32, CrcBytes, Matches, Read, FromLE;
      if |contents| < FOOTER_SIZE {
        return None;
      }
      Seek(|contents| - FOOTER_SIZE);
      var crc: u32 := 0;
      var bloomOffset := ReadField(8);
      if bloomOffset.None? { return None; }
      crc := Crc32(crc, bloomOffset.value);
      var sparseOffset := ReadField(8);
      if sparseOffset.None? { return None; }
      crc := Crc32(crc, sparseOffset.value);
      var sum := ReadField(4);
      if sum.None? || !Matches(sum.value, crc) { return None; }
      return Some((FromLE(bloomOffset.value), FromLE(sparseOffset.value)));
    }

    /** The bit array is read, and its checksum continued, one byte at a time. */
    method ReadBloomFilter(offset: nat) returns (r: Option<(Bytes, nat)>)
      modifies this`pos
      ensures r == ScanBloom(contents, offset)
    {
      hide Crc32, CrcBytes, Matches, FromLE;
      Seek(offset);
      var size := ReadField(8);
      if size.None? { return None; }
      var crc := Crc32(0, size.value);
      var hashes := ReadField(4);
      if hashes.None? { return None; }
      crc := Crc32(crc, hashes.value);
      var n := FromLE(size.value);
      var bits: Bytes := [];
      ghost var start, crc0 := offset + 12, crc;
      var i := 0;
      Nothing(crc);
      while i < n
        invariant i <= n && |bits| == i && pos == start + i
        invariant At(contents, start, bits) || bits == []
        invariant crc == Crc32(crc0, bits)
      {
        var one := ReadField(1);
        if one.None? {
          return None;
        }
        Chain(crc0, bits, one.value);
        assert bits + [one.value[0]] == contents[start..start + i + 1];
        bits := bits + [one.value[0]];
        crc := Crc32(crc, [one.value[0]]);
        assert [one.value[0]] == one.value;
        i := i + 1;
      }
      var sum := ReadField(4);
      if sum.None? || !Matches(sum.value, crc) { return None; }
      return Some((bits, FromLE(hashes.value)));
    }

    /** One entry of the sparse index: key length, key, block offset. */
    method ReadSparseEntry(crc: u32) returns (r: Option<((Bytes, nat), u32)>)
      modifies this`pos
      ensures r.Some? <==> ScanSparseEntry(contents, old(pos), crc).Some?
      ensures r.Some? ==> ScanSparseEntry(contents, old(pos), crc) == Some(Scanned(r.value.0, pos, r.value.1))
    {
      hide Crc32, CrcBytes, Matches, Read, FromLE;
      r := None;
      var keyLen := ReadField(4);
      if keyLen.None? { return; }
      var key := ReadField(FromLE(keyLen.value));
      if key.None? { return; }
      var offset := ReadField(8);
      if offset.None? { return; }
      var sum := Crc32(crc, keyLen.value);
      sum := Crc32(sum, key.value);
      sum := Crc32(sum, offset.value);
      r := Some(((key.value, FromLE(offset.value)), sum));
    }

    method ReadSparseIndexBlock(offset: nat) returns (r: Option<seq<(Bytes, nat)>>)
      modifies this`pos
      ensures r == ScanSparse(contents, offset)
    {
      hide Crc32, CrcBytes, Matches, Read, FromLE, ScanSparseEntry;
      Seek(offset);
      var count := ReadField(8);
      if count.None? { return None; }
      var crc := Crc32(0, count.value);
      var n := FromLE(count.value);
      var sparse: seq<(Bytes, nat)> := [];
      var i := 0;
      while i < n
        invariant i <= n
        invariant ScanSparseEntries(contents, pos, n - i, crc, sparse) ==
                  ScanSparseEntries(contents, offset + 8, n, Crc32(0, count.value), [])
      {
        var e := ReadSparseEntry(crc);
        if e.None? { return None; }
        crc := e.value.1;
        sparse := sparse + [e.value.0];
        i := i + 1;
      }
      var sum := ReadField(4);
      if sum.None? || !Matches(sum.value, crc) { return None; }
      return Some(sparse);
    }

    /** get_value_from_ss_table; None where it throws. */
    method GetValue(h: Hash, key: Bytes) returns (r: Option<LookupResult>)
      modifies this`pos
      ensures r == Lookup(h, contents, key)
    {
      hide ScanFooter, ScanBloom, ScanSparse, ScanBlock, Present, FindIn;
      var footer := ReadFooterBlock();
      if footer.None? { return None; }
      var bloom := ReadBloomFilter(footer.value.0);
      if bloom.None? || bloom.value.0 == [] { return None; }
      var maybe := IsPresentInBloomFilter(h, key, bloom.value.1, bloom.value.0);
      if !maybe {
        return Some(LookupResult(NotFound, None));
      }
      var sparse := ReadSparseIndexBlock(footer.value.1);
      if sparse.None? { return None; }
      var it := UpperBound(sparse.value, key);
      if it == 0 {
        return Some(LookupResult(NotFound, None));
      }
      var block := ReadDataBlockByOffset(sparse.value[it - 1].1);
      if block.None? { return None; }
      var result := FindInBlock(block.value, key);
      return Some(result);
    }

    /** The loop over one block's entries: no early exit, so the last match decides. */
    method FindInBlock(es: seq<Entry>, key: Bytes) returns (result: LookupResult)
      ensures result == FindIn(es, key)
    {
      result := LookupResult(NotFound, None);
      var i := 0;
      while i < |es|
        invariant i <= |es| && result == FindIn(es[..i], key)
      {
        assert es[..i + 1][..i] == es[..i];
        if es[i].key == key {
          if es[i].op == DEL {
            result := LookupResult(Tombstone, None);
          } else if es[i].op == SET {
            result := LookupResult(Found, es[i].val);
          }
        }
        i := i + 1;
      }
      assert es[..i] == es;
    }

    // -------------------------------------------------------------- scans

    /** The map that each scan first rebuilds from the file; None where the scan throws. */
    method Load() returns (r: Option<Table>)
      modifies this`pos
      ensures r.Some? <==> ScanTable(contents, index).Some?
      ensures r.Some? ==> r.value == Decode(contents, index)
    {
      hide ScanTable, Collect;
      var es := ReadSsTable();
      if es.None? {
        return None;
      }
      var m: Table := map[];
      CollectNothing();
      assert es.value[..0] == [];
      var i := 0;
      while i < |es.value|
        invariant i <= |es.value| && m == Collect(es.value[..i])
      {
        CollectSnoc(es.value, i);
        var e := es.value[i];
        if e.op == SET {
          m := m[e.key := e.val];
        } else if e.op == DEL {
          m := m[e.key := None];
        }
        i := i + 1;
      }
      assert es.value[..i] == es.value;
      return Some(m);
    }

    method GetKeys(key: Option<Bytes>) returns (r: Option<seq<Record>>)
      modifies this`pos
      ensures r.Some? <==> ScanTable(contents, index).Some?
      ensures r.Some? ==> AreRows(r.value, Decode(contents, index), if key.None? then Everything else Exactly(key.value))
      ensures r.Some? ==> InOrder(r.value)
      ensures r.Some? ==> forall x: Record :: x in r.value <==>
        var t := Decode(contents, index); x.key in t && x.val == t[x.key] && (key == None || key == Some(x.key))
    {
      hide Decode, ScanTable, Less, Before, InOrder, Sorted;
      var t := Load();
      if t.None? {
        return None;
      }
      SortedIterates(t.value);
      var ks := Sorted(t.value.Keys);
      var rows: seq<Record> := [];
      var i := 0;
      while i < |ks|
        invariant i <= |ks| && AscendingKeys(rows)
        invariant forall r :: r in rows ==> exists j :: 0 <= j < i && r == Record(ks[j], t.value[ks[j]])
        invariant forall j :: 0 <= j < i ==> (Record(ks[j], t.value[ks[j]]) in rows <==> key == None || key == Some(ks[j]))
      {
        var row := Record(ks[i], t.value[ks[i]]);
        if row in rows {
          var j :| 0 <= j < i && row == Record(ks[j], t.value[ks[j]]);
          AscendingDistinct(ks, j, i);
          assert false;
        }
        if key.None? || ks[i] == key.value {
          forall m | 0 <= m < |rows| ensures Less(rows[m].key, ks[i]) {
            assert rows[m] in rows;
          }
          rows := rows + [row];
        }
        i := i + 1;
      }
      forall x: Record | x.key in t.value && x.val == t.value[x.key] && (key == None || key == Some(x.key)) ensures x in rows {
        var j :| 0 <= j < |ks| && ks[j] == x.key;
      }
      RowsInOrder(rows);
      return Some(rows);
    }

    method GetRange(start: Bytes, end: Bytes) returns (r: Option<seq<Record>>)
      modifies this`pos
      ensures r.Some? <==> ScanTable(contents, index).Some?
      ensures r.Some? ==> AreRows(r.value, Decode(contents, index), Within(start, end))
      ensures r.Some? ==> InOrder(r.value)
      ensures r.Some? ==> forall x: Record :: x in r.value <==>
        var t := Decode(contents, index);
        x.key in t && x.val == t[x.key] && !Before(x.key, start) && !Before(end, x.key)
    {
      hide Decode, ScanTable, Less, Before, InOrder, LowerBound, Sorted, AreRows;
      var t := Load();
      if t.None? {
        return None;
      }
      SortedIterates(t.value);
      var ks := Sorted(t.value.Keys);
      var rows: seq<Record> := [];
      var lo := LowerBound(ks, start);
      var it := lo;
      while it < |ks| && !Less(end, ks[it])
        invariant lo <= it <= |ks| && AreRun(rows, t.value, ks, lo, it)
        invariant forall j :: lo <= j < it ==> !Less(end, ks[j])
      {
        rows := rows + [Record(ks[it], t.value[ks[it]])];
        it := it + 1;
      }
      forall i | 0 <= i < |ks| ensures Wants(Within(start, end), ks[i]) <==> lo <= i < it {
        RangeRun(ks, start, end, it, i);
      }
      RunIsRows(t.value, ks, lo, it, rows, Within(start, end));
      RowsWithin(rows, t.value, start, end);
      return Some(rows);
    }

    method GetPrefix(prefix: Bytes) returns (r: Option<seq<Record>>)
      modifies this`pos
      ensures r.Some? <==> ScanTable(contents, index).Some?
      ensures r.Some? ==> AreRows(r.value, Decode(contents, index), Extending(prefix))
      ensures r.Some? ==> InOrder(r.value)
      ensures r.Some? ==> forall x: Record :: x in r.value <==>
        var t := Decode(contents, index);
        x.key in t && x.val == t[x.key] && |prefix| <= |x.key| && x.key[..|prefix|] == prefix
    {
      hide Decode, ScanTable, Less, Before, InOrder, LowerBound, Sorted, AreRows, StartsWith;
      var t := Load();
      if t.None? {
        return None;
      }
      SortedIterates(t.value);
      var ks := Sorted(t.value.Keys);
      var rows: seq<Record> := [];
      var lo := LowerBound(ks, prefix);
      var it := lo;
      while it < |ks| && StartsWith(ks[it], prefix)
        invariant lo <= it <= |ks| && AreRun(rows, t.value, ks, lo, it)
        invariant forall j :: lo <= j < it ==> StartsWith(ks[j], prefix)
      {
        rows := rows + [Record(ks[it], t.value[ks[it]])];
        it := it + 1;
      }
      forall i | 0 <= i < |ks| ensures Wants(Extending(prefix), ks[i]) <==> lo <= i < it {
        if StartsWith(ks[i], prefix) {
          PrefixRun(ks, prefix, i, it);
        }
      }
      RunIsRows(t.value, ks, lo, it, rows, Extending(prefix));
      RowsExtending(rows, t.value, prefix);
      return Some(rows);
    }
  }
}
