/** Byte strings, little-endian integers and positions inside a file image. */
module Bytes {
  type byte = x: int | 0 <= x < 256
  type Bytes = seq<byte>

  /** Sizes of the ranges of uint32_t and uint64_t. */
  const U32: nat := 0x1_0000_0000
  const U64: nat := 0x1_0000_0000_0000_0000

  type u64 = x: nat | x < U64

  datatype Option<+T> = None | Some(value: T) {
    predicate IsFailure() {
      None?
    }

    function PropagateFailure<U>(): Option<U>
      requires None?
    {
      None
    }

    function Extract(): T
      requires Some?
    {
      value
    }
  }

  function Pow256(n: nat): (p: nat)
    ensures p > 0
  {
    if n == 0 then 1 else 256 * Pow256(n - 1)
  }

  /** The low n bytes of x, least significant first. */
  function LE(x: nat, n: nat): (b: Bytes)
    ensures |b| == n
    decreases x, n
  {
    if n == 0 then [] else [x % 256] + LE(x / 256, n - 1)
  }

  function FromLE(b: Bytes): (x: nat)
    ensures x < Pow256(|b|)
  {
    if b == [] then 0 else b[0] + 256 * FromLE(b[1..])
  }

  lemma {:induction false} DecodeEncode(x: nat, n: nat)
    requires x < Pow256(n)
    ensures FromLE(LE(x, n)) == x
  {
    if n > 0 {
      DecodeEncode(x / 256, n - 1);
      assert LE(x, n)[1..] == LE(x / 256, n - 1);
    }
  }

  lemma {:induction false} EncodeDecode(b: Bytes)
    ensures LE(FromLE(b), |b|) == b
  {
    if b != [] {
      EncodeDecode(b[1..]);
      var x := FromLE(b[1..]);
      assert (b[0] + 256 * x) % 256 == b[0];
      assert (b[0] + 256 * x) / 256 == x;
    }
  }

  lemma PowerValues()
    ensures Pow256(1) == 256 && Pow256(4) == U32 && Pow256(8) == U64
  {
    assert Pow256(2) == 0x1_0000;
    assert Pow256(3) == 0x100_0000;
    assert Pow256(5) == 0x100_0000_0000;
    assert Pow256(6) == 0x1_0000_0000_0000;
    assert Pow256(7) == 0x100_0000_0000_0000;
  }

  /** Least significant byte first: a byte added at the end weighs more than all before it. */
  lemma {:induction false} LastByteWeighsMost(b: Bytes, x: byte)
    ensures FromLE(b + [x]) == FromLE(b) + Pow256(|b|) * (x as nat)
  {
    if b == [] {
      assert [x][1..] == [];
    } else {
      var t := b[1..];
      assert (b + [x])[1..] == t + [x];
      LastByteWeighsMost(t, x);
      assert 256 * (Pow256(|t|) * (x as nat)) == Pow256(|b|) * (x as nat);
    }
  }

  /** The host representation of a uint32_t. */
  function Le32(x: nat): (b: Bytes)
    ensures |b| == 4
    ensures x < U32 ==> FromLE(b) == x
  {
    PowerValues();
    if x < U32 then DecodeEncode(x, 4); LE(x, 4) else LE(x, 4)
  }

  /** The host representation of a uint64_t. */
  function Le64(x: nat): (b: Bytes)
    ensures |b| == 8
    ensures x < U64 ==> FromLE(b) == x
  {
    PowerValues();
    if x < U64 then DecodeEncode(x, 8); LE(x, 8) else LE(x, 8)
  }

  lemma {:induction false} Encode32(b: Bytes)
    requires |b| == 4
    ensures FromLE(b) < U32 && Le32(FromLE(b)) == b
  {
    PowerValues();
    EncodeDecode(b);
  }

  lemma {:induction false} Encode64(b: Bytes)
    requires |b| == 8
    ensures FromLE(b) < U64 && Le64(FromLE(b)) == b
  {
    PowerValues();
    EncodeDecode(b);
  }

  /** s sits at position pos of the file image b. */
  predicate At(b: Bytes, pos: nat, s: Bytes) {
    pos + |s| <= |b| && b[pos..pos + |s|] == s
  }

  lemma {:induction false} AtWhole(b: Bytes)
    ensures At(b, 0, b)
  {
  }

  lemma {:induction false} AtSplit(b: Bytes, pos: nat, x: Bytes, y: Bytes)
    ensures At(b, pos, x + y) <==> At(b, pos, x) && At(b, pos + |x|, y)
  {
    if pos + |x| + |y| <= |b| {
      var w := b[pos..pos + |x| + |y|];
      assert w[..|x|] == b[pos..pos + |x|];
      assert w[|x|..] == b[pos + |x|..pos + |x| + |y|];
      assert w == w[..|x|] + w[|x|..];
      assert (x + y)[..|x|] == x && (x + y)[|x|..] == y;
    }
  }

  /** A field of n bytes read at pos; None on a short read. */
  function Read(b: Bytes, pos: nat, n: nat): (r: Option<Bytes>)
    ensures r.Some? <==> pos + n <= |b|
    ensures r.Some? ==> |r.value| == n && At(b, pos, r.value)
  {
    if pos + n <= |b| then Some(b[pos..pos + n]) else None
  }

  lemma {:induction false} ReadAt(b: Bytes, pos: nat, s: Bytes)
    requires At(b, pos, s)
    ensures Read(b, pos, |s|) == Some(s)
  {
  }

  /** xs laid out one after the other, each as enc prints it. */
  function Concat<T>(enc: T -> Bytes, xs: seq<T>): Bytes {
    if xs == [] then [] else enc(xs[0]) + Concat(enc, xs[1..])
  }

  lemma {:induction false} ConcatAppend<T>(enc: T -> Bytes, xs: seq<T>, ys: seq<T>)
    ensures Concat(enc, xs + ys) == Concat(enc, xs) + Concat(enc, ys)
  {
    if xs == [] {
      assert xs + ys == ys;
    } else {
      assert xs + ys == [xs[0]] + (xs[1..] + ys);
      ConcatAppend(enc, xs[1..], ys);
    }
  }

  lemma {:induction false} ConcatSnoc<T>(enc: T -> Bytes, xs: seq<T>, y: T)
    ensures Concat(enc, xs + [y]) == Concat(enc, xs) + enc(y)
  {
    ConcatAppend(enc, xs, [y]);
    assert Concat(enc, [y]) == enc(y) + Concat(enc, []);
  }
}
