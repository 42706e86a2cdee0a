/** The manifest's text, how it is printed and parsed, and the surgery on its index list. */
module ManifestFormat {
  import opened Bytes

  const MAGIC: string := "MEWDB"
  const VERSION: nat := 1
  const U32_HALF: nat := 0x8000_0000

  // ---------------------------------------------------------------- numbers

  predicate IsDigit(c: char) {
    '0' <= c <= '9'
  }

  function DigitValue(c: char): nat
    requires IsDigit(c)
  {
    c as int - '0' as int
  }

  function DigitChar(d: nat): (c: char)
    requires d < 10
    ensures IsDigit(c) && DigitValue(c) == d
  {
    ('0' as int + d) as char
  }

  /** std::to_string of an unsigned number. */
  function Decimal(n: nat): (s: string)
    ensures s != [] && forall c :: c in s ==> IsDigit(c)
  {
    if n < 10 then [DigitChar(n)] else Decimal(n / 10) + [DigitChar(n % 10)]
  }

  predicate IsSpace(c: char) {
    c == ' ' || '\t' <= c <= '\r'
  }

  function SkipSpace(s: string): string {
    if s != [] && IsSpace(s[0]) then SkipSpace(s[1..]) else s
  }

  /** The number spelled by the leading digits of s, after value. */
  function LeadingNumber(s: string, value: nat): nat {
    if s != [] && IsDigit(s[0]) then LeadingNumber(s[1..], 10 * value + DigitValue(s[0])) else value
  }

  /** strtoull/strtol: spaces, an optional sign, at least one digit; the rest is ignored. */
  function SignedNumber(s: string): Option<(bool, nat)> {
    var t := SkipSpace(s);
    var negative := t != [] && t[0] == '-';
    var u := if t != [] && (t[0] == '-' || t[0] == '+') then t[1..] else t;
    if u == [] || !IsDigit(u[0]) then None else Some((negative, LeadingNumber(u, 0)))
  }

  /** std::stoull; None where it throws. */
  function Stoull(s: string): Option<nat> {
    var n :- SignedNumber(s);
    if n.1 >= U64 then None else if n.0 then Some((U64 - n.1) % U64) else Some(n.1)
  }

  /** static_cast<uint32_t>(std::stoi(s)); None where stoi throws. */
  function Stoi(s: string): Option<nat> {
    var n :- SignedNumber(s);
    if n.0 then if n.1 > U32_HALF then None else Some((U32 - n.1) % U32)
    else if n.1 >= U32_HALF then None else Some(n.1)
  }

  lemma {:induction false} LeadingNumberSplit(s: string, t: string, value: nat)
    requires forall c :: c in s ==> IsDigit(c)
    ensures LeadingNumber(s + t, value) == LeadingNumber(t, LeadingNumber(s, value))
    decreases |s|
  {
    if s == [] {
      assert s + t == t;
    } else {
      assert s[0] in s && (s + t)[1..] == s[1..] + t;
      LeadingNumberSplit(s[1..], t, 10 * value + DigitValue(s[0]));
    }
  }

  lemma {:induction false} DecimalReadsBack(n: nat)
    ensures LeadingNumber(Decimal(n), 0) == n
  {
    if n >= 10 {
      DecimalReadsBack(n / 10);
      LeadingNumberSplit(Decimal(n / 10), [DigitChar(n % 10)], 0);
    }
  }

  /** Digits are read most significant first. */
  lemma {:induction false} LeadingNumberSnoc(s: string, c: char)
    requires IsDigit(c) && forall x :: x in s ==> IsDigit(x)
    ensures LeadingNumber(s + [c], 0) == 10 * LeadingNumber(s, 0) + (c as int - '0' as int)
  {
    LeadingNumberSplit(s, [c], 0);
  }

  /** No number but 0 is printed with a leading zero. */
  lemma {:induction false} NoLeadingZero(n: nat)
    ensures Decimal(n)[0] == '0' <==> n == 0
  {
    if n >= 10 {
      NoLeadingZero(n / 10);
    }
  }

  lemma {:induction false} NumberReadsBack(n: nat)
    ensures SignedNumber(Decimal(n)) == Some((false, n))
  {
    hide Decimal;
    assert Decimal(n)[0] in Decimal(n);
    DecimalReadsBack(n);
  }

  // ---------------------------------------------------------------- lines

  /** A text stream's position and state flags. */
  datatype Stream = Stream(pos: nat, eof: bool, fail: bool)

  function LineEnd(text: string, pos: nat): (e: nat)
    requires pos <= |text|
    ensures pos <= e <= |text|
    ensures forall i :: pos <= i < e ==> text[i] != '\n'
    ensures e < |text| ==> text[e] == '\n'
    decreases |text| - pos
  {
    if pos == |text| || text[pos] == '\n' then pos else LineEnd(text, pos + 1)
  }

  /** std::getline: the new stream and the new contents of the caller's string. */
  function GetLine(text: string, s: Stream, line: string): (r: (Stream, string))
    requires s.pos <= |text|
    ensures r.0.pos <= |text|
    ensures !r.0.fail ==> s.pos < r.0.pos
  {
    if s.eof || s.fail then (s.(fail := true), line)
    else
      var e := LineEnd(text, s.pos);
      if e < |text| then (Stream(e + 1, false, false), text[s.pos..e])
      else (Stream(e, true, s.pos == e), text[s.pos..e])
  }

  function Print(lines: seq<string>): string {
    if lines == [] then [] else lines[0] + "\n" + Print(lines[1..])
  }

  ghost predicate OneLiners(lines: seq<string>) {
    forall l :: l in lines ==> '\n' !in l
  }

  /** The next line of a printed text is read as it was written; after the last one getline fails. */
  lemma {:induction false} NextLine(text: string, s: Stream, line: string, lines: seq<string>)
    requires s.pos <= |text| && !s.eof && !s.fail
    requires text[s.pos..] == Print(lines) && OneLiners(lines)
    ensures var r := GetLine(text, s, line);
            if lines == [] then r.0.fail
            else r == (Stream(s.pos + |lines[0]| + 1, false, false), lines[0]) && text[r.0.pos..] == Print(lines[1..])
  {
    var rest := text[s.pos..];
    if lines != [] {
      var l, e := lines[0], LineEnd(text, s.pos);
      assert l in lines && rest == l + "\n" + Print(lines[1..]);
      assert rest[|l|] == '\n' && text[s.pos + |l|] == '\n';
      forall i | s.pos <= i < s.pos + |l| ensures text[i] != '\n' {
        assert text[i] == rest[i - s.pos] == l[i - s.pos];
      }
      assert e == s.pos + |l|;
      assert text[s.pos..e] == rest[..|l|] == l;
      assert text[e + 1..] == rest[|l| + 1..];
    }
  }

  // ---------------------------------------------------------------- the manifest

  function IndexLines(indices: seq<nat>): (lines: seq<string>)
    ensures |lines| == |indices|
    ensures forall i :: 0 <= i < |indices| ==> lines[i] == Decimal(indices[i])
  {
    seq(|indices|, i requires 0 <= i < |indices| => Decimal(indices[i]))
  }

  function ManifestLines(next: nat, indices: seq<nat>): seq<string> {
    [MAGIC, Decimal(VERSION), Decimal(next), Decimal(|indices|)] + IndexLines(indices)
  }

  /** The text that write_manifest assembles. */
  function ManifestText(next: nat, indices: seq<nat>): string {
    Print(ManifestLines(next, indices))
  }

  datatype Header = Header(version: nat, next: nat, count: nat)

  /** The constructor's parse of an existing manifest; None where it throws. */
  function ParseHeader(text: string): Option<Header> {
    var l1 := GetLine(text, Stream(0, false, false), "");
    if l1.1 != MAGIC then None
    else
      var l2 := GetLine(text, l1.0, l1.1);
      var version :- Stoi(l2.1);
      var l3 := GetLine(text, l2.0, l2.1);
      var next :- Stoull(l3.1);
      var l4 := GetLine(text, l3.0, l3.1);
      var count :- Stoull(l4.1);
      Some(Header(version, next, count))
  }

  /** n checked getlines; None where the caller throws. */
  function SkipLines(text: string, s: Stream, line: string, n: nat): (r: Option<(Stream, string)>)
    requires s.pos <= |text|
    ensures r.Some? ==> r.value.0.pos <= |text|
    decreases n
  {
    if n == 0 then Some((s, line))
    else
      var l := GetLine(text, s, line);
      if l.0.fail then None else SkipLines(text, l.0, l.1, n - 1)
  }

  function ReadIndices(text: string, s: Stream, line: string, acc: seq<nat>): Option<seq<nat>>
    requires s.pos <= |text|
    decreases |text| - s.pos
  {
    var l := GetLine(text, s, line);
    if l.0.fail then Some(acc)
    else
      var index :- Stoull(l.1);
      ReadIndices(text, l.0, l.1, acc + [index])
  }

  /** get_ss_table_indices; None where it throws. */
  function ParseIndices(text: string): Option<seq<nat>> {
    var s :- SkipLines(text, Stream(0, false, false), "", 4);
    ReadIndices(text, s.0, s.1, [])
  }

  predicate AllU64(indices: seq<nat>) {
    forall i :: i in indices ==> i < U64
  }

  lemma {:induction false} IndicesReadBack(text: string, s: Stream, line: string, acc: seq<nat>, indices: seq<nat>)
    requires s.pos <= |text| && !s.eof && !s.fail && AllU64(indices)
    requires text[s.pos..] == Print(IndexLines(indices))
    ensures ReadIndices(text, s, line, acc) == Some(acc + indices)
    decreases |indices|
  {
    hide GetLine, Stoull, Decimal, Print;
    var lines := IndexLines(indices);
    assert OneLiners(lines);
    NextLine(text, s, line, lines);
    if indices == [] {
      assert acc + indices == acc;
    } else {
      var r := GetLine(text, s, line);
      assert lines[1..] == IndexLines(indices[1..]);
      assert indices[0] in indices;
      assert forall x :: x in indices[1..] ==> x in indices;
      StoullReadsBack(indices[0]);
      IndicesReadBack(text, r.0, r.1, acc + [indices[0]], indices[1..]);
      assert acc + indices == acc + [indices[0]] + indices[1..];
    }
  }

  lemma {:induction false} StoullReadsBack(n: nat)
    requires n < U64
    ensures Stoull(Decimal(n)) == Some(n)
  {
    NumberReadsBack(n);
  }

  lemma {:induction false} HeaderLines(next: nat, indices: seq<nat>)
    ensures OneLiners(ManifestLines(next, indices))
    ensures ManifestLines(next, indices)[4..] == IndexLines(indices)
  {
    hide Decimal;
    var lines := ManifestLines(next, indices);
    forall l | l in lines ensures '\n' !in l {
      var i :| 0 <= i < |lines| && lines[i] == l;
      if i >= 4 {
        assert l == Decimal(indices[i - 4]);
      }
    }
  }

  /** Only a file whose first line is the magic word is accepted. */
  lemma {:induction false} HeaderNeedsMagic(text: string)
    requires ParseHeader(text).Some?
    ensures MAGIC <= text && (|text| > |MAGIC| ==> text[|MAGIC|] == '\n')
  {
    hide Stoi, Stoull;
    var e := LineEnd(text, 0);
    assert text[0..e] == MAGIC;
  }

  /** A written manifest parses to the same next index, count and list. */
  lemma {:induction false} ManifestReadsBack(next: nat, indices: seq<nat>)
    requires next < U64 && AllU64(indices) && |indices| < U64
    ensures ParseHeader(ManifestText(next, indices)) == Some(Header(VERSION, next, |indices|))
    ensures ParseIndices(ManifestText(next, indices)) == Some(indices)
  {
    hide GetLine, Stoull, Decimal, Print, ReadIndices;
    var lines, text := ManifestLines(next, indices), ManifestText(next, indices);
    HeaderLines(next, indices);
    var s0 := Stream(0, false, false);
    assert text[0..] == text;
    NextLine(text, s0, "", lines);
    var l1 := GetLine(text, s0, "");
    NextLine(text, l1.0, l1.1, lines[1..]);
    var l2 := GetLine(text, l1.0, l1.1);
    assert lines[1..][1..] == lines[2..];
    NextLine(text, l2.0, l2.1, lines[2..]);
    var l3 := GetLine(text, l2.0, l2.1);
    assert lines[2..][1..] == lines[3..];
    NextLine(text, l3.0, l3.1, lines[3..]);
    var l4 := GetLine(text, l3.0, l3.1);
    assert lines[3..][1..] == lines[4..];
    NumberReadsBack(VERSION);
    StoullReadsBack(next);
    StoullReadsBack(|indices|);
    assert SkipLines(text, s0, "", 4) == SkipLines(text, l1.0, l1.1, 3) == SkipLines(text, l2.0, l2.1, 2)
        == SkipLines(text, l3.0, l3.1, 1) == SkipLines(text, l4.0, l4.1, 0);
    IndicesReadBack(text, l4.0, l4.1, [], indices);
    assert [] + indices == indices;
  }

  // ---------------------------------------------------------------- list surgery

  ghost predicate Sorted(s: seq<nat>) {
    forall i, j :: 0 <= i < j < |s| ==> s[i] <= s[j]
  }

  ghost predicate StrictlySorted(s: seq<nat>) {
    forall i, j :: 0 <= i < j < |s| ==> s[i] < s[j]
  }

  /** What subtract_vectors' two pointers compute. */
  function Subtract(curr: seq<nat>, remove: seq<nat>): seq<nat>
    decreases |curr| + |remove|
  {
    if curr == [] || remove == [] then curr
    else if curr[0] == remove[0] then Subtract(curr[1..], remove[1..])
    else if curr[0] < remove[0] then [curr[0]] + Subtract(curr[1..], remove)
    else Subtract(curr, remove[1..])
  }

  method SubtractVectors(curr: seq<nat>, remove: seq<nat>) returns (result: seq<nat>)
    ensures result == Subtract(curr, remove)
  {
    result := [];
    var i, j := 0, 0;
    while i < |curr| && j < |remove|
      invariant i <= |curr| && j <= |remove|
      invariant result + Subtract(curr[i..], remove[j..]) == Subtract(curr, remove)
      decreases |curr| - i + |remove| - j
    {
      if curr[i] == remove[j] {
        i := i + 1;
        j := j + 1;
      } else if curr[i] < remove[j] {
        result := result + [curr[i]];
        i := i + 1;
      } else {
        j := j + 1;
      }
    }
    while i < |curr|
      invariant i <= |curr|
      invariant result + curr[i..] == Subtract(curr, remove)
    {
      result := result + [curr[i]];
      i := i + 1;
    }
  }

  lemma {:induction false} MultisetHead(s: seq<nat>)
    requires s != []
    ensures multiset(s) == multiset{s[0]} + multiset(s[1..])
  {
    assert s == [s[0]] + s[1..];
  }

  lemma {:induction false} TailSorted(s: seq<nat>)
    requires Sorted(s) && s != []
    ensures Sorted(s[1..])
  {
  }

  lemma {:induction false} BelowSorted(x: nat, s: seq<nat>)
    requires Sorted(s) && (s != [] ==> x < s[0])
    ensures multiset(s)[x] == 0
  {
    assert forall y :: y in s ==> y != x;
    assert x in multiset(s) <==> x in s;
  }

  lemma {:induction false} SubtractSorted(curr: seq<nat>, remove: seq<nat>)
    requires Sorted(curr)
    ensures Sorted(Subtract(curr, remove))
    ensures forall x :: x in Subtract(curr, remove) ==> x in curr
    decreases |curr| + |remove|
  {
    if curr != [] && remove != [] {
      var rest := if curr[0] > remove[0] then curr else curr[1..];
      var t := Subtract(rest, if curr[0] < remove[0] then remove else remove[1..]);
      SubtractSorted(rest, if curr[0] < remove[0] then remove else remove[1..]);
      assert forall x :: x in rest ==> x in curr && curr[0] <= x;
      if curr[0] < remove[0] {
        PrependSorted(curr[0], t);
      }
    }
  }

  lemma {:induction false} PrependSorted(x: nat, t: seq<nat>)
    requires Sorted(t) && forall y :: y in t ==> x <= y
    ensures Sorted([x] + t)
  {
    forall i, j | 0 <= i < j < |t| + 1 ensures ([x] + t)[i] <= ([x] + t)[j] {
      assert t[j - 1] in t;
    }
  }

  /** On ascending inputs the result counts each number as often as curr minus remove does. */
  lemma {:induction false} SubtractIsDifference(curr: seq<nat>, remove: seq<nat>)
    requires Sorted(curr) && Sorted(remove)
    ensures multiset(Subtract(curr, remove)) == multiset(curr) - multiset(remove)
    decreases |curr| + |remove|
  {
    hide Sorted;
    if curr == [] {
    } else if remove == [] {
    } else {
      TailSorted(curr);
      TailSorted(remove);
      MultisetHead(curr);
      MultisetHead(remove);
      if curr[0] == remove[0] {
        SubtractIsDifference(curr[1..], remove[1..]);
      } else if curr[0] < remove[0] {
        SubtractIsDifference(curr[1..], remove);
        BelowSorted(curr[0], remove);
        MultisetHead(Subtract(curr, remove));
      } else {
        SubtractIsDifference(curr, remove[1..]);
        BelowSorted(remove[0], curr);
      }
    }
  }

  /**
   * "The values of curr that are not in remove" is what comes out exactly when curr repeats no removed
   * number more often than remove does.
   */
  lemma {:induction false} SubtractDropsRemoved(curr: seq<nat>, remove: seq<nat>)
    requires Sorted(curr) && Sorted(remove)
    ensures (forall x :: x in Subtract(curr, remove) ==> x !in remove) <==>
            (forall x :: x in remove ==> multiset(curr)[x] <= multiset(remove)[x])
  {
    SubtractIsDifference(curr, remove);
    var r := Subtract(curr, remove);
    assert forall x :: x in r <==> multiset(r)[x] > 0;
    assert forall x :: multiset(r)[x] > 0 <==> multiset(curr)[x] > multiset(remove)[x];
  }

  /** A repeated index that is removed once stays. */
  lemma SubtractKeepsRepeats()
    ensures Subtract([1, 1], [1]) == [1]
  {
    assert [1, 1][1..] == [1] && [1][1..] == [];
    assert Subtract([1], []) == [1];
  }

  /** On strictly ascending lists: exactly the elements of curr that are not in remove, still ascending. */
  lemma {:induction false} SubtractIsSetDifference(curr: seq<nat>, remove: seq<nat>)
    requires StrictlySorted(curr) && StrictlySorted(remove)
    ensures StrictlySorted(Subtract(curr, remove))
    ensures forall x :: x in Subtract(curr, remove) <==> x in curr && x !in remove
  {
    SubtractSorted(curr, remove);
    SubtractIsDifference(curr, remove);
    var r := Subtract(curr, remove);
    forall x ensures multiset(r)[x] <= 1 && (x in r <==> x in curr && x !in remove) {
      CountOnce(curr, x);
      CountOnce(remove, x);
      assert x in r <==> multiset(r)[x] > 0;
      assert x in curr <==> multiset(curr)[x] > 0;
      assert x in remove <==> multiset(remove)[x] > 0;
    }
    forall i, j | 0 <= i < j < |r| ensures r[i] < r[j] {
      if r[i] == r[j] {
        TwiceCounted(r, i, j);
      }
    }
  }

  lemma {:induction false} CountOnce(s: seq<nat>, x: nat)
    requires StrictlySorted(s)
    ensures multiset(s)[x] <= 1
  {
    if s != [] {
      MultisetHead(s);
      CountOnce(s[1..], x);
      if s[0] == x {
        BelowSorted(x, s[1..]);
      }
    }
  }

  lemma {:induction false} TwiceCounted(s: seq<nat>, i: nat, j: nat)
    requires i < j < |s| && s[i] == s[j]
    ensures multiset(s)[s[i]] >= 2
  {
    assert s == s[..j] + s[j..];
    assert s[..j][i] == s[i] && s[j..][0] == s[i];
  }

  /** Removing everything leaves nothing. */
  lemma {:induction false} SubtractAll(curr: seq<nat>)
    ensures Subtract(curr, curr) == []
  {
    if curr != [] {
      SubtractAll(curr[1..]);
    }
  }

  /** A strictly ascending list below a bound is no longer than the bound. */
  lemma {:induction false} AscendingIsShort(s: seq<nat>, bound: nat)
    requires StrictlySorted(s) && forall x :: x in s ==> x < bound
    ensures |s| <= bound
    decreases bound
  {
    if s != [] {
      var n := |s| - 1;
      assert s[n] in s;
      forall x | x in s[..n] ensures x < s[n] {
      }
      AscendingIsShort(s[..n], s[n]);
    }
  }
}
