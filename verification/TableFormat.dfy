/** The SSTable file format: how a sorted table is printed, and what its two readers compute. */
module TableFormat {
  import opened Bytes
  import opened Crc
  import opened Order
  import opened Bloom

  const MAGIC: nat := 0xDEAD_BEEF
  const VERSION: byte := 2
  const RECORDS_PER_BLOCK: nat := 10
  const HEADER_SIZE: nat := 25
  const FOOTER_SIZE: nat := 20
  const SET: byte := 0
  const DEL: byte := 1

  /** A std::map<std::string, std::optional<std::string>>; a key bound to None is a tombstone. */
  type Table = map<Bytes, Option<Bytes>>

  /** One binding of a table, as iteration yields it. */
  datatype Record = Record(key: Bytes, val: Option<Bytes>)

  /** One entry as a reader returns it: the operation byte may be anything. */
  datatype Entry = Entry(op: byte, key: Bytes, val: Option<Bytes>)

  /** A field read so far: its value, the next position and the running checksum. */
  datatype Scanned<+T> = Scanned(value: T, pos: nat, crc: u32)

  datatype LookupStatus = NotFound | Tombstone | Found

  datatype LookupResult = LookupResult(status: LookupStatus, value: Option<Bytes>)

  /** A table's bindings in iteration order. */
  function Records(t: Table, ks: seq<Bytes>): (rs: seq<Record>)
    requires forall k :: k in ks ==> k in t
    ensures |rs| == |ks|
    ensures forall i :: 0 <= i < |rs| ==> rs[i] == Record(ks[i], t[ks[i]])
  {
    seq(|ks|, i requires 0 <= i < |ks| => Record(ks[i], t[ks[i]]))
  }

  function Listing(t: Table): seq<Record> {
    SortedIsSorted(t.Keys);
    Records(t, Sorted(t.Keys))
  }

  ghost predicate AscendingKeys(rs: seq<Record>) {
    forall i, j :: 0 <= i < j < |rs| ==> Less(rs[i].key, rs[j].key)
  }

  /** Key and value lengths survive the cast to uint32_t. */
  predicate Fits(r: Record) {
    |r.key| < U32 && (r.val.Some? ==> |r.val.value| < U32)
  }

  ghost predicate AllFit(rs: seq<Record>) {
    forall r :: r in rs ==> Fits(r)
  }

  // ---------------------------------------------------------------- printing

  /** Bytes followed by the checksum over exactly those bytes. */
  function Seal(s: Bytes): Bytes {
    s + CrcBytes(Crc32(0, s))
  }

  /** The part of a string a uint32_t length can cover. */
  function Clip(s: Bytes): (c: Bytes)
    ensures |s| < U32 ==> c == s
    ensures |c| == |s| % U32
  {
    s[..|s| % U32]
  }

  function PrintString(s: Bytes): Bytes {
    Le32(|s|) + Clip(s)
  }

  function OpOf(r: Record): byte {
    if r.val.Some? then SET else DEL
  }

  function ValueOf(r: Record): Bytes {
    if r.val.Some? then r.val.value else []
  }

  function PrintEntry(r: Record): Bytes {
    [OpOf(r)] + (PrintString(r.key) + PrintString(ValueOf(r)))
  }

  function PrintBlock(rs: seq<Record>): Bytes {
    Seal(Le64(|rs|) + Concat(PrintEntry, rs))
  }

  function PrintHeader(index: nat, count: nat): Bytes {
    Le32(MAGIC) + Seal([VERSION] + (Le64(index) + Le64(count)))
  }

  function PrintBloom(bits: Bytes, hashes: nat): Bytes {
    Seal(Le64(|bits|) + (Le32(hashes) + bits))
  }

  function PrintSparseEntry(e: (Bytes, nat)): Bytes {
    PrintString(e.0) + Le64(e.1)
  }

  function PrintSparse(sparse: seq<(Bytes, nat)>): Bytes {
    Seal(Le64(|sparse|) + Concat(PrintSparseEntry, sparse))
  }

  function PrintFooter(bloomOffset: nat, sparseOffset: nat): Bytes {
    Seal(Le64(bloomOffset) + Le64(sparseOffset))
  }

  function BlockCount(n: nat): nat {
    (n + RECORDS_PER_BLOCK - 1) / RECORDS_PER_BLOCK
  }

  /** The j-th run of ten records; the last run may be shorter. */
  function Block(rs: seq<Record>, j: nat): (block: seq<Record>)
    requires j < BlockCount(|rs|)
    ensures 0 < |block| <= RECORDS_PER_BLOCK
  {
    rs[10 * j..if 10 * j + 10 <= |rs| then 10 * j + 10 else |rs|]
  }

  /** The first n data blocks. */
  function PrintBlocks(rs: seq<Record>, n: nat): Bytes
    requires n <= BlockCount(|rs|)
  {
    if n == 0 then [] else PrintBlocks(rs, n - 1) + PrintBlock(Block(rs, n - 1))
  }

  /** Where data block j starts. */
  function Offset(rs: seq<Record>, j: nat): nat
    requires j <= BlockCount(|rs|)
  {
    HEADER_SIZE + |PrintBlocks(rs, j)|
  }

  /** First key and offset of block j. */
  function SparseEntry(rs: seq<Record>, j: nat): (Bytes, nat)
    requires j < BlockCount(|rs|)
  {
    (Block(rs, j)[0].key, Offset(rs, j))
  }

  /** The sparse index of the first n blocks. */
  function Sparse(rs: seq<Record>, n: nat): (sparse: seq<(Bytes, nat)>)
    requires n <= BlockCount(|rs|)
    ensures |sparse| == n
    ensures forall j :: 0 <= j < n ==> sparse[j] == SparseEntry(rs, j)
  {
    if n == 0 then [] else Sparse(rs, n - 1) + [SparseEntry(rs, n - 1)]
  }

  function AllBlocks(rs: seq<Record>): Bytes {
    PrintBlocks(rs, BlockCount(|rs|))
  }

  function BloomOffset(rs: seq<Record>): nat {
    Offset(rs, BlockCount(|rs|))
  }

  function SparseOffset(rs: seq<Record>, bits: Bytes, hashes: nat): nat {
    BloomOffset(rs) + |PrintBloom(bits, hashes)|
  }

  /** A complete file. */
  function PrintTable(index: nat, rs: seq<Record>, bits: Bytes, hashes: nat): Bytes {
    PrintHeader(index, |rs|) + (AllBlocks(rs) + (PrintBloom(bits, hashes) +
      (PrintSparse(Sparse(rs, BlockCount(|rs|))) +
       PrintFooter(BloomOffset(rs), SparseOffset(rs, bits, hashes)))))
  }

  // ---------------------------------------------------------------- reading

  /** Continues crc over one entry's fields in file order. */
  function KeyValChecksum(op: byte, crc: u32, key: Bytes, val: Bytes): u32 {
    Crc32(Crc32(Crc32(Crc32(Crc32(crc, [op]), Le32(|key|)), Clip(key)), Le32(|val|)), Clip(val))
  }

  function MakeEntry(op: byte, key: Bytes, val: Bytes): Entry {
    Entry(op, key, if op == SET then Some(val) else None)
  }

  function ScanEntry(b: Bytes, pos: nat, crc: u32): (r: Option<Scanned<Entry>>)
    ensures r.Some? ==> r.value.pos > pos
  {
    var op :- Read(b, pos, 1);
    var keyLen :- Read(b, pos + 1, 4);
    var key :- Read(b, pos + 5, FromLE(keyLen));
    var valLen :- Read(b, pos + 5 + |key|, 4);
    var val :- Read(b, pos + 9 + |key|, FromLE(valLen));
    Some(Scanned(MakeEntry(op[0], key, val), pos + 9 + |key| + |val|,
                 KeyValChecksum(op[0], crc, key, val)))
  }

  function ScanEntries(b: Bytes, pos: nat, n: nat, crc: u32, acc: seq<Entry>): (r: Option<Scanned<seq<Entry>>>)
    ensures r.Some? ==> |r.value.value| == |acc| + n
    decreases n
  {
    if n == 0 then Some(Scanned(acc, pos, crc))
    else
      var e :- ScanEntry(b, pos, crc);
      ScanEntries(b, e.pos, n - 1, e.crc, acc + [e.value])
  }

  /** One data block at pos; an empty block or one of more than limit entries is refused. */
  function ScanBlock(b: Bytes, pos: nat, limit: nat): (r: Option<(seq<Entry>, nat)>)
    ensures r.Some? ==> 0 < |r.value.0| <= limit
  {
    var count :- Read(b, pos, 8);
    var n := FromLE(count);
    if n == 0 || n > limit then None
    else
      var es :- ScanEntries(b, pos + 8, n, Crc32(0, count), []);
      var sum :- Read(b, es.pos, 4);
      if !Matches(sum, es.crc) then None else Some((es.value, es.pos + 4))
  }

  /** Data blocks until `left` entries have been seen. */
  function ScanBlocks(b: Bytes, pos: nat, left: nat, acc: seq<Entry>): Option<(seq<Entry>, nat)>
    decreases left
  {
    if left == 0 then Some((acc, pos))
    else
      var block :- ScanBlock(b, pos, left);
      ScanBlocks(b, block.1, left - |block.0|, acc + block.0)
  }

  /** The header's entry count, if the header is that of table `index`. */
  function ScanHeader(b: Bytes, index: nat): Option<nat> {
    var magic :- Read(b, 0, 4);
    if FromLE(magic) != MAGIC then None
    else
      var version :- Read(b, 4, 1);
      var stored :- Read(b, 5, 8);
      if FromLE(stored) != index then None
      else
        var count :- Read(b, 13, 8);
        var sum :- Read(b, 21, 4);
        if !Matches(sum, Crc32(Crc32(Crc32(0, version), stored), count)) then None
        else Some(FromLE(count))
  }

  /** The full scan: every entry, and where the cursor stops. */
  function ScanTable(b: Bytes, index: nat): Option<(seq<Entry>, nat)> {
    var count :- ScanHeader(b, index);
    ScanBlocks(b, HEADER_SIZE, count, [])
  }

  /** The two offsets in the last FOOTER_SIZE bytes. */
  function ScanFooter(b: Bytes): Option<(nat, nat)> {
    if |b| < FOOTER_SIZE then None
    else
      var pos := |b| - FOOTER_SIZE;
      var bloomOffset :- Read(b, pos, 8);
      var sparseOffset :- Read(b, pos + 8, 8);
      var sum :- Read(b, pos + 16, 4);
      if !Matches(sum, Crc32(Crc32(0, bloomOffset), sparseOffset)) then None
      else Some((FromLE(bloomOffset), FromLE(sparseOffset)))
  }

  /** The Bloom filter's bit array and hash count. */
  function ScanBloom(b: Bytes, pos: nat): Option<(Bytes, nat)> {
    var size :- Read(b, pos, 8);
    var hashes :- Read(b, pos + 8, 4);
    var bits :- Read(b, pos + 12, FromLE(size));
    var sum :- Read(b, pos + 12 + |bits|, 4);
    if !Matches(sum, Crc32(Crc32(Crc32(0, size), hashes), bits)) then None
    else Some((bits, FromLE(hashes)))
  }

  function ScanSparseEntry(b: Bytes, pos: nat, crc: u32): (r: Option<Scanned<(Bytes, nat)>>) {
    var keyLen :- Read(b, pos, 4);
    var key :- Read(b, pos + 4, FromLE(keyLen));
    var offset :- Read(b, pos + 4 + |key|, 8);
    Some(Scanned((key, FromLE(offset)), pos + 12 + |key|, Crc32(Crc32(Crc32(crc, keyLen), key), offset)))
  }

  function ScanSparseEntries(b: Bytes, pos: nat, n: nat, crc: u32, acc: seq<(Bytes, nat)>)
    : Option<Scanned<seq<(Bytes, nat)>>>
    decreases n
  {
    if n == 0 then Some(Scanned(acc, pos, crc))
    else
      var e :- ScanSparseEntry(b, pos, crc);
      ScanSparseEntries(b, e.pos, n - 1, e.crc, acc + [e.value])
  }

  function ScanSparse(b: Bytes, pos: nat): Option<seq<(Bytes, nat)>> {
    var count :- Read(b, pos, 8);
    var es :- ScanSparseEntries(b, pos + 8, FromLE(count), Crc32(0, count), []);
    var sum :- Read(b, es.pos, 4);
    if !Matches(sum, es.crc) then None else Some(es.value)
  }

  /** std::upper_bound over the sparse index: how many first keys are at or below key. */
  function UpperBound(sparse: seq<(Bytes, nat)>, key: Bytes): (n: nat)
    ensures n <= |sparse|
    ensures forall i :: 0 <= i < n ==> !Less(key, sparse[i].0)
    ensures n < |sparse| ==> Less(key, sparse[n].0)
  {
    if sparse == [] || Less(key, sparse[0].0) then 0 else 1 + UpperBound(sparse[1..], key)
  }

  function StatusOf(e: Entry, before: LookupResult): LookupResult {
    if e.op == DEL then LookupResult(Tombstone, None)
    else if e.op == SET then LookupResult(Found, e.val)
    else before
  }

  /** The block loop: the last entry for key decides. */
  function FindIn(es: seq<Entry>, key: Bytes): LookupResult {
    if es == [] then LookupResult(NotFound, None)
    else
      var before := FindIn(es[..|es| - 1], key);
      var e := es[|es| - 1];
      if e.key == key then StatusOf(e, before) else before
  }

  /** The indexed point lookup: footer, Bloom filter, sparse index, one block. */
  function Lookup(h: Hash, b: Bytes, key: Bytes): Option<LookupResult> {
    var footer :- ScanFooter(b);
    var bloom :- ScanBloom(b, footer.0);
    if bloom.0 == [] then None
    else if !Present(h, bloom.0, key, bloom.1) then Some(LookupResult(NotFound, None))
    else
      var sparse :- ScanSparse(b, footer.1);
      var n := UpperBound(sparse, key);
      if n == 0 then Some(LookupResult(NotFound, None))
      else
        var block :- ScanBlock(b, sparse[n - 1].1, U64);
        Some(FindIn(block.0, key))
  }
}
