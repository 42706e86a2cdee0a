/** Merging scan results newest first, and reading live rows off the merged map. */
module Queries {
  import opened Bytes
  import opened Order
  import opened TableFormat
  import opened TableProofs
  import opened Tables
  import opened Views
  import opened SsTableReader

  function Filter(t: Table, q: Query): Table {
    map k | k in t && Wants(q, k) :: t[k]
  }

  function FilterAll(tables: seq<Table>, q: Query): (r: seq<Table>)
    ensures |r| == |tables| && forall i :: 0 <= i < |r| ==> r[i] == Filter(tables[i], q)
  {
    seq(|tables|, i requires 0 <= i < |tables| => Filter(tables[i], q))
  }

  lemma {:induction false} FilterUnion(s: Table, t: Table, q: Query)
    ensures Filter(s + t, q) == Filter(s, q) + Filter(t, q)
  {
    hide Wants;
  }

  lemma {:induction false} FilterMerge(tables: seq<Table>, q: Query)
    ensures Merge(FilterAll(tables, q)) == Filter(Merge(tables), q)
    decreases |tables|
  {
    hide Filter;
    if tables == [] {
      FilterNothing(q);
    } else {
      var n := |tables| - 1;
      FilterMerge(tables[..n], q);
      assert FilterAll(tables, q)[..n] == FilterAll(tables[..n], q);
      FilterUnion(Merge(tables[..n]), tables[n], q);
    }
  }

  lemma {:induction false} FilterNothing(q: Query)
    ensures Filter(map[], q) == map[]
  {
  }

  /** rows' bindings under those temp already has. */
  ghost predicate RowsUnder(m: Table, temp: Table, rows: seq<Record>, n: nat)
    requires n <= |rows|
  {
    && (forall k :: k in m <==> k in temp || exists i :: 0 <= i < n && rows[i].key == k)
    && (forall k :: k in temp ==> k in m && m[k] == temp[k])
    && (forall i :: 0 <= i < n && rows[i].key !in temp ==> rows[i].key in m && m[rows[i].key] == rows[i].val)
  }

  /** The merge loop: a row is added only if its key is not there yet. */
  method MergeRows(temp: Table, rows: seq<Record>) returns (m: Table)
    requires AscendingKeys(rows)
    ensures RowsUnder(m, temp, rows, |rows|)
  {
    hide Less;
    m := temp;
    var n := 0;
    while n < |rows|
      invariant n <= |rows| && RowsUnder(m, temp, rows, n)
    {
      var r := rows[n];
      forall i | 0 <= i < n ensures rows[i].key != r.key {
        LessIrreflexive(r.key);
        assert Less(rows[i].key, rows[n].key);
      }
      if r.key !in m {
        m := m[r.key := r.val];
      }
      n := n + 1;
    }
  }

  lemma {:induction false} RowsAreFilter(m: Table, temp: Table, rows: seq<Record>, t: Table, q: Query)
    requires RowsUnder(m, temp, rows, |rows|) && AreRows(rows, t, q)
    ensures m == Filter(t, q) + temp
  {
    hide Less, Wants;
    var f := Filter(t, q);
    forall k ensures k in m <==> k in f + temp {
      if k in f {
        assert Record(k, t[k]) in rows;
        var i :| 0 <= i < |rows| && rows[i] == Record(k, t[k]);
      }
      if i :| 0 <= i < |rows| && rows[i].key == k {
        assert rows[i] in rows;
      }
    }
    forall k | k in m ensures m[k] == (f + temp)[k] {
      if k !in temp {
        var i :| 0 <= i < |rows| && rows[i].key == k;
        assert rows[i] in rows;
      }
    }
  }

  /** compact's form of the loop, over a full scan's entries. */
  method MergeEntries(temp: Table, es: seq<Entry>, ghost rows: seq<Record>) returns (m: Table)
    requires es == Entries(rows) && AscendingKeys(rows)
    ensures RowsUnder(m, temp, rows, |rows|)
  {
    hide Less;
    m := temp;
    var n := 0;
    while n < |es|
      invariant n <= |es| && RowsUnder(m, temp, rows, n)
    {
      assert es[n].key == rows[n].key && es[n].val == rows[n].val;
      forall i | 0 <= i < n ensures rows[i].key != rows[n].key {
        LessIrreflexive(rows[n].key);
        assert Less(rows[i].key, rows[n].key);
      }
      if es[n].key !in m {
        m := m[es[n].key := es[n].val];
      }
      n := n + 1;
    }
  }

  lemma {:induction false} ListingRows(t: Table)
    ensures AreRows(Listing(t), t, Everything)
  {
    hide Less, Sorted;
    ListingFacts(t);
    SortedIterates(t);
    var ks, rows := Sorted(t.Keys), Listing(t);
    RunIsRows(t, ks, 0, |ks|, rows, Everything);
  }

  /** full with the tombstones among its first n keys erased. */
  ghost predicate Erased(m: Table, full: Table, ks: seq<Bytes>, n: nat)
    requires n <= |ks|
  {
    && (forall k :: k in m ==> k in full && m[k] == full[k])
    && (forall i :: 0 <= i < n ==> (ks[i] in m <==> ks[i] in full && full[ks[i]].Some?))
    && (forall i :: n <= i < |ks| ==> (ks[i] in m <==> ks[i] in full))
  }

  /** Erasing the tombstones while iterating. */
  method DropLoop(full: Table) returns (m: Table)
    ensures m == DropTombstones(full)
  {
    hide Less, Sorted, DropTombstones;
    SortedIterates(full);
    var ks := Sorted(full.Keys);
    m := full;
    var it := 0;
    while it < |ks|
      invariant it <= |ks| && Erased(m, full, ks, it)
    {
      forall i | 0 <= i < |ks| && ks[i] == ks[it] ensures i == it {
        AscendingDistinct(ks, i, it);
      }
      if full[ks[it]].None? {
        m := m - {ks[it]};
      }
      it := it + 1;
    }
    AllErased(m, full, ks);
  }

  lemma {:induction false} AllErased(m: Table, full: Table, ks: seq<Bytes>)
    requires Iterates(ks, full) && Erased(m, full, ks, |ks|)
    ensures m == DropTombstones(full)
  {
    hide Less;
    forall k ensures k in m <==> k in DropTombstones(full) {
      if k in full {
        var i :| 0 <= i < |ks| && ks[i] == k;
      }
    }
  }

  lemma {:induction false} EverythingFilters(t: Table)
    ensures Filter(t, Everything) == t
  {
  }

  /** One table's turn in the newest-first loop. */
  lemma {:induction false} AbsorbStep(temp: Table, m: Table, tables: seq<Table>, n: nat, q: Query)
    requires n < |tables| && m == Filter(tables[n], q) + temp
    ensures Absorb(m, FilterAll(tables, q)[..n]) == Absorb(temp, FilterAll(tables, q)[..n + 1])
  {
    var fs := FilterAll(tables, q);
    assert fs[..n + 1][..n] == fs[..n] && fs[..n + 1][n] == fs[n];
  }

  /** What the newest-first loop ends with. */
  lemma {:induction false} AbsorbResult(mem: Table, tables: seq<Table>, q: Query)
    ensures Absorb(mem, FilterAll(tables, q)) == Filter(Merge(tables), q) + mem
  {
    AbsorbIsMerge(mem, FilterAll(tables, q));
    FilterMerge(tables, q);
  }

  // ---------------------------------------------------------------- live rows

  /** The live bindings among keys lo..hi, in order. */
  function LiveRun(t: Table, ks: seq<Bytes>, lo: nat, hi: nat): seq<Record>
    requires lo <= hi <= |ks| && forall i :: 0 <= i < |ks| ==> ks[i] in t
  {
    if lo == hi then []
    else LiveRun(t, ks, lo, hi - 1) + if t[ks[hi - 1]].Some? then [Record(ks[hi - 1], t[ks[hi - 1]])] else []
  }

  lemma {:induction false} LiveRunRows(t: Table, ks: seq<Bytes>, lo: nat, hi: nat)
    requires Iterates(ks, t) && lo <= hi <= |ks|
    ensures var rows := LiveRun(t, ks, lo, hi);
            && AscendingKeys(rows)
            && (forall r :: r in rows ==> r.val.Some? && exists j :: lo <= j < hi && r == Record(ks[j], t[ks[j]]))
            && (forall j :: lo <= j < hi && t[ks[j]].Some? ==> Record(ks[j], t[ks[j]]) in rows)
    decreases hi
  {
    hide Less;
    if lo < hi {
      LiveRunRows(t, ks, lo, hi - 1);
      var before, rows := LiveRun(t, ks, lo, hi - 1), LiveRun(t, ks, lo, hi);
      forall i, j | 0 <= i < j < |rows| ensures Less(rows[i].key, rows[j].key) {
        if j == |before| {
          assert rows[i] == before[i] && before[i] in before;
        }
      }
      forall j | lo <= j < hi && t[ks[j]].Some? ensures Record(ks[j], t[ks[j]]) in rows {
        if j < hi - 1 {
          assert Record(ks[j], t[ks[j]]) in before;
        }
      }
    }
  }

  /** rows are exactly the store's bindings whose keys q wants, ascending and without repetition. */
  ghost predicate AreLive(rows: seq<Record>, s: Store, q: Query) {
    && AscendingKeys(rows)
    && forall r: Record :: r in rows <==> r.val.Some? && r.key in s && s[r.key] == r.val.value && Wants(q, r.key)
  }

  lemma {:induction false} LiveWithin(rows: seq<Record>, s: Store, start: Bytes, end: Bytes)
    requires AreLive(rows, s, Within(start, end))
    ensures InOrder(rows)
    ensures forall r: Record :: r in rows <==>
              r.val.Some? && r.key in s && s[r.key] == r.val.value && !Before(r.key, start) && !Before(end, r.key)
  {
    hide Less, Before, Wants;
    RowsInOrder(rows);
    forall r: Record ensures Wants(Within(start, end), r.key) <==> !Before(r.key, start) && !Before(end, r.key) {
      WithinMeans(start, end, r.key);
    }
  }

  lemma {:induction false} LiveExtending(rows: seq<Record>, s: Store, prefix: Bytes)
    requires AreLive(rows, s, Extending(prefix))
    ensures InOrder(rows)
    ensures forall r: Record :: r in rows <==>
              r.val.Some? && r.key in s && s[r.key] == r.val.value && |prefix| <= |r.key| && r.key[..|prefix|] == prefix
  {
    hide Less, Before, Wants;
    RowsInOrder(rows);
    forall r: Record ensures Wants(Extending(prefix), r.key) <==> |prefix| <= |r.key| && r.key[..|prefix|] == prefix {
      ExtendingMeans(prefix, r.key);
    }
  }

  /** Reading the live rows of the wanted run off the merged map gives the wanted part of the view. */
  lemma {:induction false} LiveRunIsView(temp: Table, mem: Table, tables: seq<Table>, ks: seq<Bytes>, lo: nat, hi: nat, q: Query)
    requires temp == Filter(Merge(tables), q) + mem && Iterates(ks, temp) && lo <= hi <= |ks|
    requires forall i :: 0 <= i < |ks| ==> (Wants(q, ks[i]) <==> lo <= i < hi)
    ensures AreLive(LiveRun(temp, ks, lo, hi), View(mem, tables), q)
  {
    hide Less, LiveRun, Merge, Wants;
    LiveRunRows(temp, ks, lo, hi);
    var rows, s := LiveRun(temp, ks, lo, hi), View(mem, tables);
    forall r: Record | r.val.Some? && r.key in s && s[r.key] == r.val.value && Wants(q, r.key) ensures r in rows {
      assert r.key in temp && temp[r.key] == r.val;
      var j :| 0 <= j < |ks| && ks[j] == r.key;
      assert Record(ks[j], temp[ks[j]]) == r;
    }
    forall r | r in rows ensures r.val.Some? && r.key in s && s[r.key] == r.val.value && Wants(q, r.key) {
      var j :| lo <= j < hi && r == Record(ks[j], temp[ks[j]]);
    }
  }

  /** The keys of all live rows are the sorted keys of the store. */
  lemma {:induction false} LiveKeys(rows: seq<Record>, s: Store, ks: seq<Bytes>)
    requires AreLive(rows, s, Everything)
    requires |ks| == |rows| && forall i :: 0 <= i < |rows| ==> ks[i] == rows[i].key
    ensures ks == Sorted(s.Keys)
  {
    hide Less, Sorted;
    SortedIsSorted(s.Keys);
    forall k ensures k in ks <==> k in Sorted(s.Keys) {
      if k in ks {
        var i :| 0 <= i < |ks| && ks[i] == k;
        assert rows[i] in rows;
      }
      if k in s {
        assert Record(k, Some(s[k])) in rows;
        var i :| 0 <= i < |rows| && rows[i] == Record(k, Some(s[k]));
        assert ks[i] == k;
      }
    }
    AscendingUnique(ks, Sorted(s.Keys));
  }
}
