/** What the memtable over a list of SSTables means: one map from keys to live values. */
module Views {
  import opened Bytes
  import opened TableFormat

  type Store = map<Bytes, Bytes>

  datatype Op = Put(key: Bytes, val: Bytes) | Delete(key: Bytes)

  // ---------------------------------------------------------------- meaning

  /** Oldest first: a younger table overwrites an older one. */
  function Merge(tables: seq<Table>): Table {
    if tables == [] then map[] else Merge(tables[..|tables| - 1]) + tables[|tables| - 1]
  }

  /** The bindings that are not tombstones. */
  function Live(t: Table): (s: Store)
    ensures forall k :: k in s <==> k in t && t[k].Some?
    ensures forall k :: k in s ==> Some(s[k]) == t[k]
  {
    map k | k in t && t[k].Some? :: t[k].value
  }

  /** The memtable shadows every table. */
  function View(mem: Table, tables: seq<Table>): Store {
    Live(Merge(tables) + mem)
  }

  function Apply(s: Store, op: Op): Store {
    match op
    case Put(k, v) => s[k := v]
    case Delete(k) => s - {k}
  }

  function ApplyAll(ops: seq<Op>): Store {
    if ops == [] then map[] else Apply(ApplyAll(ops[..|ops| - 1]), ops[|ops| - 1])
  }

  function ApplyToTable(mem: Table, op: Op): Table {
    match op
    case Put(k, v) => mem[k := Some(v)]
    case Delete(k) => mem[k := None]
  }

  /** A write to the memtable is that write to the meaning, whatever the tables hold. */
  lemma {:induction false} WriteThrough(mem: Table, tables: seq<Table>, op: Op)
    ensures View(ApplyToTable(mem, op), tables) == Apply(View(mem, tables), op)
  {
    hide Merge;
    var before, after := Merge(tables) + mem, Merge(tables) + ApplyToTable(mem, op);
    assert after == before[op.key := if op.Put? then Some(op.val) else None];
  }

  // ---------------------------------------------------------------- flush and compaction

  lemma {:induction false} MergeSnoc(tables: seq<Table>, t: Table)
    ensures Merge(tables + [t]) == Merge(tables) + t
  {
    assert (tables + [t])[..|tables|] == tables;
  }

  lemma {:induction false} MergeOne(t: Table)
    ensures Merge([t]) == t
  {
    assert [t][..0] == [];
    assert Merge([]) == map[];
  }

  /** The memtable written as the youngest table keeps its meaning, with or without the memtable. */
  lemma {:induction false} FlushKeeps(mem: Table, tables: seq<Table>, over: Table)
    ensures View(map[], tables + [mem]) == View(mem, tables)
    ensures View(mem, tables + [mem]) == View(mem, tables)
    ensures View(over, tables + [mem]) == Live(Merge(tables) + mem + over)
  {
    hide Merge;
    MergeSnoc(tables, mem);
    assert Merge(tables) + mem + map[] == Merge(tables) + mem;
    assert Merge(tables) + mem + mem == Merge(tables) + mem;
  }

  /** The merged table without its tombstones. */
  function DropTombstones(t: Table): (r: Table)
    ensures forall k :: k in r <==> k in t && t[k].Some?
    ensures forall k :: k in r ==> r[k] == t[k]
  {
    map k | k in t && t[k].Some? :: t[k]
  }

  function Compacted(tables: seq<Table>): Table {
    DropTombstones(Merge(tables))
  }

  /** One compacted table, or none when nothing is live, means what the old tables meant. */
  lemma {:induction false} CompactionKeeps(mem: Table, tables: seq<Table>)
    ensures View(mem, [Compacted(tables)]) == View(mem, tables)
    ensures Compacted(tables) == map[] ==> View(mem, []) == View(mem, tables)
  {
    hide Merge;
    MergeOne(Compacted(tables));
    assert Merge([]) == map[] by { MergeEmpty(); }
    var a, b := Compacted(tables) + mem, Merge(tables) + mem;
    assert forall k :: k in Live(a) <==> k in Live(b);
    if Compacted(tables) == map[] {
      assert map[] + mem == a;
    }
  }

  lemma MergeEmpty()
    ensures Merge([]) == map[]
  {
  }

  // ---------------------------------------------------------------- newest first

  /** The loops' form: newest table first, a key already present is left alone. */
  function Absorb(acc: Table, tables: seq<Table>): Table
    decreases |tables|
  {
    if tables == [] then acc
    else Absorb(tables[|tables| - 1] + acc, tables[..|tables| - 1])
  }

  /** Newest-first insert-if-absent is oldest-first overwrite. */
  lemma {:induction false} AbsorbIsMerge(acc: Table, tables: seq<Table>)
    ensures Absorb(acc, tables) == Merge(tables) + acc
    decreases |tables|
  {
    if tables == [] {
      assert map[] + acc == acc;
    } else {
      var n := |tables| - 1;
      AbsorbIsMerge(tables[n] + acc, tables[..n]);
      assert Merge(tables[..n]) + (tables[n] + acc) == Merge(tables[..n]) + tables[n] + acc;
    }
  }

  /** Tables consulted newest first, stopping at the first that knows the key. */
  function NewestBinding(tables: seq<Table>, key: Bytes): Option<Option<Bytes>>
    decreases |tables|
  {
    if tables == [] then None
    else if key in tables[|tables| - 1] then Some(tables[|tables| - 1][key])
    else NewestBinding(tables[..|tables| - 1], key)
  }

  lemma {:induction false} NewestBindingIsMerge(tables: seq<Table>, key: Bytes)
    ensures NewestBinding(tables, key) == if key in Merge(tables) then Some(Merge(tables)[key]) else None
    decreases |tables|
  {
    if tables != [] {
      NewestBindingIsMerge(tables[..|tables| - 1], key);
    }
  }

  /** The value a store binds to key. */
  function Fetch(s: Store, key: Bytes): Option<Bytes> {
    if key in s then Some(s[key]) else None
  }

  // ---------------------------------------------------------------- sizes

  /** What a live binding contributes to mem_table_size. */
  function Weight(key: Bytes, val: Option<Bytes>): nat {
    if val.Some? then |key| + |val.value| else 0
  }

  /** Key plus value lengths over the live bindings. */
  ghost function LiveBytes(t: Table): nat
    decreases |t|
  {
    if t == map[] then 0
    else
      var k :| k in t;
      Weight(k, t[k]) + LiveBytes(t - {k})
  }

  lemma LiveBytesEmpty()
    ensures LiveBytes(map[]) == 0
  {
  }

  lemma {:induction false} LiveBytesSplit(t: Table, k: Bytes)
    requires k in t
    ensures LiveBytes(t) == Weight(k, t[k]) + LiveBytes(t - {k})
    decreases |t|
  {
    var j :| j in t && LiveBytes(t) == Weight(j, t[j]) + LiveBytes(t - {j});
    if j != k {
      LiveBytesSplit(t - {j}, k);
      LiveBytesSplit(t - {k}, j);
      assert t - {j} - {k} == t - {k} - {j};
    }
  }

  lemma {:induction false} LiveBytesUpdate(t: Table, k: Bytes, val: Option<Bytes>)
    ensures LiveBytes(t[k := val]) + (if k in t then Weight(k, t[k]) else 0) == LiveBytes(t) + Weight(k, val)
  {
    var u := t[k := val];
    LiveBytesSplit(u, k);
    assert u - {k} == t - {k};
    if k in t {
      LiveBytesSplit(t, k);
    } else {
      assert t - {k} == t;
    }
  }
}
