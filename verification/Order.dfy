/** The order of std::string keys and the sorted iteration of std::map. */
module Order {
  import opened Bytes

  /** std::string's operator<: unsigned bytes, a proper prefix first. */
  predicate Less(a: Bytes, b: Bytes)
    decreases b
  {
    b != [] && (a == [] || a[0] < b[0] || (a[0] == b[0] && Less(a[1..], b[1..])))
  }

  /** a is a proper prefix of b, or has the smaller byte where the two first differ. */
  ghost predicate Before(a: Bytes, b: Bytes) {
    || (|a| < |b| && a == b[..|a|])
    || exists i: nat :: i < |a| && i < |b| && a[..i] == b[..i] && a[i] < b[i]
  }

  /** The comparison decides by the first difference. */
  lemma {:induction false} LessMeans(a: Bytes, b: Bytes)
    ensures Less(a, b) <==> Before(a, b)
    decreases |b|
  {
    if a != [] && b != [] {
      if a[0] == b[0] {
        LessMeans(a[1..], b[1..]);
        BeforeTail(a, b);
      } else if a[0] < b[0] {
        assert a[..0] == b[..0];
      } else {
        assert a[0] != b[..|b|][0];
        assert forall i: nat :: 0 < i < |a| && i < |b| ==> a[..i][0] != b[..i][0];
      }
    } else if a == [] && b != [] {
      assert b[..0] == a;
    }
  }

  lemma {:induction false} BeforeTail(a: Bytes, b: Bytes)
    requires a != [] && b != [] && a[0] == b[0]
    ensures Before(a, b) <==> Before(a[1..], b[1..])
  {
    var x, y := a[1..], b[1..];
    assert |a| < |b| ==> (a == b[..|a|] <==> x == y[..|x|]) by {
      if |a| < |b| {
        SamePrefix(a, b, |a|);
        assert a[..|a|] == a && x[..|x|] == x;
      }
    }
    if i: nat :| i < |a| && i < |b| && a[..i] == b[..i] && a[i] < b[i] {
      SamePrefix(a, b, i);
      assert x[i - 1] < y[i - 1];
    }
    if i: nat :| i < |x| && i < |y| && x[..i] == y[..i] && x[i] < y[i] {
      SamePrefix(a, b, i + 1);
      assert a[i + 1] < b[i + 1];
    }
  }

  lemma {:induction false} SamePrefix(a: Bytes, b: Bytes, i: nat)
    requires 0 < i <= |a| && i <= |b| && a[0] == b[0]
    ensures a[..i] == b[..i] <==> a[1..][..i - 1] == b[1..][..i - 1]
  {
    assert a[..i] == [a[0]] + a[1..][..i - 1];
    assert b[..i] == [b[0]] + b[1..][..i - 1];
    assert a[..i][1..] == a[1..][..i - 1] && b[..i][1..] == b[1..][..i - 1];
  }

  lemma {:induction false} LessIrreflexive(a: Bytes)
    ensures !Less(a, a)
  {
    if a != [] {
      LessIrreflexive(a[1..]);
    }
  }

  lemma {:induction false} LessTransitive(a: Bytes, b: Bytes, c: Bytes)
    requires Less(a, b) && Less(b, c)
    ensures Less(a, c)
    decreases b
  {
    if a != [] && a[0] == b[0] == c[0] {
      LessTransitive(a[1..], b[1..], c[1..]);
    }
  }

  lemma {:induction false} LessTotal(a: Bytes, b: Bytes)
    ensures Less(a, b) || a == b || Less(b, a)
  {
    if a != [] && b != [] && a[0] == b[0] {
      LessTotal(a[1..], b[1..]);
      assert a == [a[0]] + a[1..] && b == [b[0]] + b[1..];
    }
  }

  /** Exactly one of the three comparisons holds. */
  lemma {:induction false} Trichotomy(a: Bytes, b: Bytes)
    ensures (Less(a, b) || a == b || Less(b, a)) && !(Less(a, b) && Less(b, a)) && !(a == b && Less(a, b))
  {
    LessTotal(a, b);
    LessIrreflexive(a);
    if Less(a, b) && Less(b, a) {
      LessTransitive(a, b, a);
    }
  }

  ghost predicate Ascending(ks: seq<Bytes>) {
    forall i, j :: 0 <= i < j < |ks| ==> Less(ks[i], ks[j])
  }

  lemma {:induction false} AscendingMeans(ks: seq<Bytes>)
    requires Ascending(ks)
    ensures forall i, j :: 0 <= i < j < |ks| ==> Before(ks[i], ks[j])
  {
    forall i, j | 0 <= i < j < |ks| ensures Before(ks[i], ks[j]) {
      LessMeans(ks[i], ks[j]);
    }
  }

  lemma {:induction false} AscendingDistinct(ks: seq<Bytes>, i: nat, j: nat)
    requires Ascending(ks) && i < |ks| && j < |ks| && ks[i] == ks[j]
    ensures i == j
  {
    LessIrreflexive(ks[i]);
  }

  predicate IsLeast(k: Bytes, s: set<Bytes>) {
    k in s && forall x :: x in s ==> x == k || Less(k, x)
  }

  lemma {:induction false} LeastExists(s: set<Bytes>)
    requires s != {}
    ensures exists k :: IsLeast(k, s)
  {
    var x :| x in s;
    if s == {x} {
      assert IsLeast(x, s);
    } else {
      var rest := s - {x};
      LeastExists(rest);
      var k :| IsLeast(k, rest);
      LessTotal(x, k);
      if Less(x, k) {
        forall y | y in s ensures y == x || Less(x, y) {
          if y != x && y != k {
            LessTransitive(x, k, y);
          }
        }
        assert IsLeast(x, s);
      } else {
        assert IsLeast(k, s);
      }
    }
  }

  lemma {:induction false} LeastUnique(j: Bytes, k: Bytes, s: set<Bytes>)
    requires IsLeast(j, s) && IsLeast(k, s)
    ensures j == k
  {
    Trichotomy(j, k);
  }

  /** The keys of a std::map in iteration order. */
  function Sorted(s: set<Bytes>): (ks: seq<Bytes>)
    decreases s
  {
    if s == {} then []
    else
      LeastExists(s);
      assert forall j, k :: IsLeast(j, s) && IsLeast(k, s) ==> j == k by {
        forall j, k | IsLeast(j, s) && IsLeast(k, s) ensures j == k {
          LeastUnique(j, k, s);
        }
      }
      var k :| k in s && IsLeast(k, s);
      [k] + Sorted(s - {k})
  }

  /** Iteration visits every key exactly once, in ascending order. */
  lemma {:induction false} SortedIsSorted(s: set<Bytes>)
    ensures Ascending(Sorted(s))
    ensures forall i, j :: 0 <= i < j < |Sorted(s)| ==> Before(Sorted(s)[i], Sorted(s)[j])
    ensures forall k :: k in Sorted(s) <==> k in s
    ensures |Sorted(s)| == |s|
    decreases s
  {
    hide Less, Before;
    if s != {} {
      var k := Sorted(s)[0];
      var rest := Sorted(s)[1..];
      LeastExists(s);
      assert IsLeast(k, s) && rest == Sorted(s - {k});
      SortedIsSorted(s - {k});
      assert Sorted(s) == [k] + rest;
      forall i, j | 0 <= i < j < |Sorted(s)| ensures Less(Sorted(s)[i], Sorted(s)[j]) {
        assert Sorted(s)[j] == rest[j - 1] && rest[j - 1] in rest;
        if i > 0 {
          assert Sorted(s)[i] == rest[i - 1];
        }
      }
    }
    AscendingMeans(Sorted(s));
  }

  /** An ascending list is determined by its elements. */
  lemma {:induction false} AscendingUnique(a: seq<Bytes>, b: seq<Bytes>)
    requires Ascending(a) && Ascending(b)
    requires forall k :: k in a <==> k in b
    ensures a == b
  {
    if b != [] {
      assert b[0] in b;
    }
    if a != [] {
      assert a[0] in a && a[0] in b;
      var j :| 0 <= j < |b| && b[j] == a[0];
      assert b[0] in b && b[0] in a;
      var i :| 0 <= i < |a| && a[i] == b[0];
      if i > 0 && j > 0 {
        LessTransitive(a[0], a[i], b[j]);
        LessIrreflexive(a[0]);
      }
      assert a[0] == b[0];
      forall k ensures k in a[1..] <==> k in b[1..] {
        TailMember(a, k);
        TailMember(b, k);
      }
      AscendingUnique(a[1..], b[1..]);
      assert a == [a[0]] + a[1..] && b == [b[0]] + b[1..];
    }
  }

  lemma {:induction false} TailMember(a: seq<Bytes>, k: Bytes)
    requires Ascending(a) && a != []
    ensures k in a[1..] <==> k in a && k != a[0]
  {
    LessIrreflexive(a[0]);
    if k in a && k != a[0] {
      var i :| 0 <= i < |a| && a[i] == k;
      assert a[1..][i - 1] == k;
    }
  }

  /** std::map::lower_bound: how many keys are below k. */
  function LowerBound(ks: seq<Bytes>, k: Bytes): (n: nat)
    ensures n <= |ks|
    ensures forall i :: 0 <= i < n ==> Less(ks[i], k)
    ensures n < |ks| ==> !Less(ks[n], k)
  {
    if ks == [] || !Less(ks[0], k) then 0 else 1 + LowerBound(ks[1..], k)
  }

  /** std::string::compare(0, |p|, p) == 0. */
  predicate StartsWith(k: Bytes, p: Bytes) {
    p <= k
  }

  lemma {:induction false} PrefixNotBelow(k: Bytes, p: Bytes)
    requires StartsWith(k, p)
    ensures !Less(k, p)
  {
    if p != [] {
      assert k[1..][..|p[1..]|] == p[1..];
      PrefixNotBelow(k[1..], p[1..]);
    }
  }

  /** Nothing between p and a key extending p fails to extend p. */
  lemma {:induction false} PrefixConvex(p: Bytes, j: Bytes, k: Bytes)
    requires !Less(j, p) && Less(j, k) && StartsWith(k, p)
    ensures StartsWith(j, p)
  {
    if p != [] {
      assert j != [] && j[0] == k[0] == p[0];
      assert k[1..][..|p[1..]|] == p[1..];
      PrefixConvex(p[1..], j[1..], k[1..]);
      assert j == [j[0]] + j[1..] && p == [p[0]] + p[1..];
    }
  }

  lemma {:induction false} LowerBoundSplits(ks: seq<Bytes>, k: Bytes, i: nat)
    requires Ascending(ks) && i < |ks|
    ensures i < LowerBound(ks, k) <==> Less(ks[i], k)
  {
    var n := LowerBound(ks, k);
    if n <= i {
      Trichotomy(ks[n], k);
      if Less(ks[i], k) && n < i {
        LessTransitive(ks[n], ks[i], k);
      }
    }
  }

  /** In an ascending list the keys extending p are one run that starts at LowerBound(p). */
  lemma {:induction false} PrefixRun(ks: seq<Bytes>, p: Bytes, i: nat, j: nat)
    requires Ascending(ks) && i < |ks| && StartsWith(ks[i], p)
    ensures LowerBound(ks, p) <= i
    ensures LowerBound(ks, p) <= j <= i ==> StartsWith(ks[j], p)
  {
    LowerBoundSplits(ks, p, i);
    PrefixNotBelow(ks[i], p);
    if LowerBound(ks, p) <= j < i {
      LowerBoundSplits(ks, p, j);
      PrefixConvex(p, ks[j], ks[i]);
    }
  }

  /** The keys between two bounds are the run from LowerBound(start) to the first key above end. */
  lemma {:induction false} RangeRun(ks: seq<Bytes>, start: Bytes, end: Bytes, stop: nat, i: nat)
    requires Ascending(ks) && LowerBound(ks, start) <= stop <= |ks| && i < |ks|
    requires forall j :: LowerBound(ks, start) <= j < stop ==> !Less(end, ks[j])
    requires stop < |ks| ==> Less(end, ks[stop])
    ensures !Less(ks[i], start) && !Less(end, ks[i]) <==> LowerBound(ks, start) <= i < stop
  {
    LowerBoundSplits(ks, start, i);
    if stop < i {
      LessTransitive(end, ks[stop], ks[i]);
    }
  }
}
