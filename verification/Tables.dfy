/** SSTable files as tables: which table a file holds, and what its readers say about that table. */
module Tables {
  import opened Bytes
  import opened Order
  import opened Bloom
  import opened TableFormat
  import opened TableProofs

  /** Every key and value length fits a uint32_t. */
  ghost predicate TableFits(t: Table) {
    forall k :: k in t ==> Fits(Record(k, t[k]))
  }

  /** b is a complete file for table t under some Bloom filter sizing. */
  ghost predicate Holds(h: Hash, index: nat, t: Table, b: Bytes) {
    exists size: nat, hashes: nat :: Written(h, index, Listing(t), size, hashes, b)
  }

  /** The map the scan loops build from a file's entries. */
  function Collect(es: seq<Entry>): Table {
    if es == [] then map[]
    else
      var before, e := Collect(es[..|es| - 1]), es[|es| - 1];
      if e.op == SET then before[e.key := e.val]
      else if e.op == DEL then before[e.key := None]
      else before
  }

  /** The table a file scans to; the empty table when the scan throws. */
  function Decode(b: Bytes, index: nat): Table {
    var r := ScanTable(b, index);
    if r.Some? then Collect(r.value.0) else map[]
  }

  /** What a point lookup should answer about key. */
  function Answer(t: Table, key: Bytes): LookupResult {
    if key !in t then LookupResult(NotFound, None)
    else if t[key].None? then LookupResult(Tombstone, None)
    else LookupResult(Found, t[key])
  }

  lemma {:induction false} ListingFacts(t: Table)
    ensures AscendingKeys(Listing(t)) && |Listing(t)| == |t|
    ensures TableFits(t) ==> AllFit(Listing(t))
    ensures Keys(Listing(t)) == Sorted(t.Keys)
  {
    hide Less, Before;
    SortedIsSorted(t.Keys);
    var ks, rs := Sorted(t.Keys), Listing(t);
    assert |t.Keys| == |t|;
    if TableFits(t) {
      forall r | r in rs ensures Fits(r) {
        var i :| 0 <= i < |rs| && rs[i] == r;
        assert ks[i] in ks;
      }
    }
  }

  lemma {:induction false} CollectStep(es: seq<Entry>, r: Record)
    ensures Collect(es + [EntryOf(r)]) == Collect(es)[r.key := r.val]
  {
    assert (es + [EntryOf(r)])[..|es|] == es;
  }

  /** Collecting the entries of a listing binds each listed key as the table does. */
  lemma {:induction false} CollectRecords(t: Table, ks: seq<Bytes>, n: nat)
    requires n <= |ks| && forall k :: k in ks ==> k in t
    ensures Collect(Entries(Records(t, ks))[..n]) == map k | k in ks[..n] :: t[k]
    decreases n
  {
    hide Collect;
    var es := Entries(Records(t, ks));
    if n == 0 {
      assert Collect(es[..0]) == map[] by { CollectNothing(); }
    } else {
      CollectRecords(t, ks, n - 1);
      CollectStep(es[..n - 1], Record(ks[n - 1], t[ks[n - 1]]));
      assert es[..n] == es[..n - 1] + [es[n - 1]];
      assert ks[..n] == ks[..n - 1] + [ks[n - 1]];
    }
  }

  lemma CollectNothing()
    ensures Collect([]) == map[]
  {
  }

  lemma {:induction false} CollectListing(t: Table)
    ensures Collect(Entries(Listing(t))) == t
  {
    hide Less, Before, Collect;
    SortedIsSorted(t.Keys);
    var ks := Sorted(t.Keys);
    CollectRecords(t, ks, |ks|);
    assert ks[..|ks|] == ks;
    var es := Entries(Listing(t));
    assert es[..|ks|] == es;
  }

  /** Full scan of the file of t: exactly t's bindings in ascending key order. */
  lemma {:induction false} ScanHolds(h: Hash, index: nat, t: Table, b: Bytes)
    requires Holds(h, index, t, b)
    ensures ScanTable(b, index) == Some((Entries(Listing(t)), BloomOffset(Listing(t))))
    ensures Decode(b, index) == t
  {
    hide PrintTable, ScanTable, Less, Before, Collect, BloomOffset, Fits, Build;
    var size: nat, hashes: nat :| Written(h, index, Listing(t), size, hashes, b);
    ScanReadBack(index, Listing(t), Build(h, Keys(Listing(t)), size, hashes), hashes);
    CollectListing(t);
  }

  /** Point lookup in the file of t agrees with t on every key. */
  lemma {:induction false} LookupHolds(h: Hash, index: nat, t: Table, b: Bytes, key: Bytes)
    requires Holds(h, index, t, b)
    ensures Lookup(h, b, key) == Some(Answer(t, key))
  {
    hide PrintTable, Lookup, Less, Before, Fits;
    var rs := Listing(t);
    var size: nat, hashes: nat :| Written(h, index, rs, size, hashes, b);
    ListingFacts(t);
    SortedIsSorted(t.Keys);
    LookupCorrect(h, index, rs, size, hashes, b, key);
    if key in t {
      var i :| 0 <= i < |Sorted(t.Keys)| && Sorted(t.Keys)[i] == key;
      assert rs[i] == Record(key, t[key]) && rs[i] in rs;
    }
    forall r | r in rs ensures r.key in t && r.val == t[r.key] {
      var i :| 0 <= i < |rs| && rs[i] == r;
      assert Sorted(t.Keys)[i] in Sorted(t.Keys);
    }
  }

  /** A written table's keys and values fit their length fields. */
  lemma {:induction false} HoldsFits(h: Hash, index: nat, t: Table, b: Bytes)
    requires Holds(h, index, t, b)
    ensures TableFits(t) && t != map[]
  {
    hide PrintTable, Less, Before, Build;
    ListingFacts(t);
    SortedIsSorted(t.Keys);
    forall k | k in t ensures Fits(Record(k, t[k])) {
      assert k in Sorted(t.Keys);
      var i :| 0 <= i < |Sorted(t.Keys)| && Sorted(t.Keys)[i] == k;
      assert Listing(t)[i] == Record(k, t[k]) && Listing(t)[i] in Listing(t);
    }
  }
}
