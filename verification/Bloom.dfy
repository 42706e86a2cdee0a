/** The Bloom filter stored in every SSTable. */
module Bloom {
  import opened Bytes

  /** xxHash with a seed: any function into uint64_t. */
  type Hash = (Bytes, nat) -> u64

  const SEED_1: nat := 6969
  const SEED_2: nat := 6767
  const BYTE_SIZE: nat := 8

  // ---------------------------------------------------------------- single bits

  function Pow2(n: nat): (p: nat)
    ensures p > 0
  {
    if n == 0 then 1 else 2 * Pow2(n - 1)
  }

  predicate Bit(x: nat, i: nat)
    decreases i
  {
    if i == 0 then x % 2 == 1 else Bit(x / 2, i - 1)
  }

  /** C's | operator. */
  function Or(a: nat, b: nat): nat
    decreases a, b
  {
    if a == 0 then b
    else if b == 0 then a
    else (if a % 2 == 1 || b % 2 == 1 then 1 else 0) + 2 * Or(a / 2, b / 2)
  }

  /** C's & operator. */
  function And(a: nat, b: nat): nat
    decreases a
  {
    if a == 0 || b == 0 then 0
    else (if a % 2 == 1 && b % 2 == 1 then 1 else 0) + 2 * And(a / 2, b / 2)
  }

  lemma {:induction false} ZeroHasNoBit(i: nat)
    ensures !Bit(0, i)
  {
    if i > 0 {
      ZeroHasNoBit(i - 1);
    }
  }

  lemma {:induction false} OrBit(a: nat, b: nat, i: nat)
    ensures Bit(Or(a, b), i) <==> Bit(a, i) || Bit(b, i)
    decreases i
  {
    ZeroHasNoBit(i);
    if i > 0 && a > 0 && b > 0 {
      OrBit(a / 2, b / 2, i - 1);
      assert Or(a, b) / 2 == Or(a / 2, b / 2);
    }
  }

  lemma {:induction false} OrFits(a: nat, b: nat, n: nat)
    requires a < Pow2(n) && b < Pow2(n)
    ensures Or(a, b) < Pow2(n)
    decreases n
  {
    if a > 0 && b > 0 {
      OrFits(a / 2, b / 2, n - 1);
    }
  }

  lemma {:induction false} PowerBit(i: nat, j: nat)
    ensures Bit(Pow2(i), j) <==> i == j
    decreases i
  {
    if i == 0 {
      if j > 0 {
        ZeroHasNoBit(j - 1);
      }
    } else if j > 0 {
      PowerBit(i - 1, j - 1);
      assert Pow2(i) / 2 == Pow2(i - 1);
    }
  }

  lemma {:induction false} AndBit(x: nat, i: nat)
    ensures And(x, Pow2(i)) == 0 <==> !Bit(x, i)
    decreases i
  {
    if x == 0 {
      ZeroHasNoBit(i);
    } else if i > 0 {
      AndBit(x / 2, i - 1);
      assert Pow2(i) / 2 == Pow2(i - 1) && Pow2(i) % 2 == 0;
    } else {
      assert Pow2(0) / 2 == 0;
      assert And(x / 2, 0) == 0;
    }
  }

  // ---------------------------------------------------------------- the filter

  /** The i-th bit position for key in a filter of `size` bytes: h1 + i*h2 wraps at 64 bits. */
  function Position(h: Hash, key: Bytes, i: nat, size: nat): (p: nat)
    requires size > 0
    ensures p < size * BYTE_SIZE && p / BYTE_SIZE < size
  {
    (h(key, SEED_1) + i * h(key, SEED_2)) % U64 % (size * BYTE_SIZE)
  }

  /** uint64_t arithmetic, where the product and the sum each wrap, computes the same position. */
  lemma {:induction false} PositionWraps(h: Hash, key: Bytes, i: nat, size: nat)
    requires size > 0
    ensures Position(h, key, i, size) ==
            (h(key, SEED_1) + i * h(key, SEED_2) % U64) % U64 % (size * BYTE_SIZE)
  {
    SumWraps(h(key, SEED_1), i * h(key, SEED_2));
  }

  lemma {:induction false} SumWraps(a: nat, b: nat)
    ensures (a + b % U64) % U64 == (a + b) % U64
  {
  }

  predicate HasBit(bits: Bytes, p: nat)
    requires p / BYTE_SIZE < |bits|
  {
    And(bits[p / BYTE_SIZE], Pow2(p % BYTE_SIZE)) != 0
  }

  function SetBit(bits: Bytes, p: nat): (r: Bytes)
    requires p / BYTE_SIZE < |bits|
    ensures |r| == |bits|
    ensures forall q: nat :: q / BYTE_SIZE < |bits| ==> (HasBit(r, q) <==> HasBit(bits, q) || q == p)
  {
    SetByte(bits[p / BYTE_SIZE], p % BYTE_SIZE);
    assert forall q: nat :: q / BYTE_SIZE == p / BYTE_SIZE && q % BYTE_SIZE == p % BYTE_SIZE ==> q == p;
    bits[p / BYTE_SIZE := Or(bits[p / BYTE_SIZE], Pow2(p % BYTE_SIZE))]
  }

  lemma {:induction false} SetByte(x: byte, i: nat)
    requires i < BYTE_SIZE
    ensures Or(x, Pow2(i)) < 256
    ensures forall j: nat :: j < BYTE_SIZE ==> (And(Or(x, Pow2(i)), Pow2(j)) != 0 <==> And(x, Pow2(j)) != 0 || i == j)
  {
    assert Pow2(8) == 256;
    PowerMonotone(i, 7);
    OrFits(x, Pow2(i), 8);
    forall j: nat | j < BYTE_SIZE
      ensures And(Or(x, Pow2(i)), Pow2(j)) != 0 <==> And(x, Pow2(j)) != 0 || i == j
    {
      AndBit(x, j);
      AndBit(Or(x, Pow2(i)), j);
      OrBit(x, Pow2(i), j);
      PowerBit(i, j);
    }
  }

  lemma {:induction false} PowerMonotone(i: nat, j: nat)
    requires i <= j
    ensures Pow2(i) <= Pow2(j)
    decreases j
  {
    if i < j {
      PowerMonotone(i, j - 1);
    }
  }

  /** bits after the first n positions of key have been set. */
  function Insert(h: Hash, bits: Bytes, key: Bytes, n: nat): (r: Bytes)
    requires bits != []
    ensures |r| == |bits|
  {
    if n == 0 then bits
    else
      var before := Insert(h, bits, key, n - 1);
      SetBit(before, Position(h, key, n - 1, |bits|))
  }

  /** The membership test over key's first n positions. */
  predicate Present(h: Hash, bits: Bytes, key: Bytes, n: nat)
    requires bits != []
  {
    forall i: nat :: i < n ==> HasBit(bits, Position(h, key, i, |bits|))
  }

  /** The bit array after inserting every key in turn into an empty filter. */
  function Build(h: Hash, keys: seq<Bytes>, size: nat, hashes: nat): (r: Bytes)
    requires size > 0
    ensures |r| == size
  {
    if keys == [] then seq(size, _ => 0)
    else Insert(h, Build(h, keys[..|keys| - 1], size, hashes), keys[|keys| - 1], hashes)
  }

  /** Position q is one of key's first n positions. */
  ghost predicate Marks(h: Hash, key: Bytes, n: nat, size: nat, q: nat)
    requires size > 0
  {
    exists i: nat :: i < n && Position(h, key, i, size) == q
  }

  /** Inserting a key sets its positions and changes no other bit. */
  lemma {:induction false} InsertExact(h: Hash, bits: Bytes, key: Bytes, n: nat, q: nat)
    requires q / BYTE_SIZE < |bits|
    ensures HasBit(Insert(h, bits, key, n), q) <==> HasBit(bits, q) || Marks(h, key, n, |bits|, q)
  {
    if n > 0 {
      InsertExact(h, bits, key, n - 1, q);
      assert Marks(h, key, n, |bits|, q) <==>
        Marks(h, key, n - 1, |bits|, q) || Position(h, key, n - 1, |bits|) == q;
    }
  }

  /** A bit of the finished filter is set exactly when some inserted key marks it. */
  lemma {:induction false} BuildExact(h: Hash, keys: seq<Bytes>, size: nat, hashes: nat, q: nat)
    requires size > 0 && q / BYTE_SIZE < size
    ensures HasBit(Build(h, keys, size, hashes), q) <==>
            exists k :: k in keys && Marks(h, k, hashes, size, q)
    decreases |keys|
  {
    if keys == [] {
      assert And(0, Pow2(q % BYTE_SIZE)) == 0;
    } else {
      var n := |keys| - 1;
      BuildExact(h, keys[..n], size, hashes, q);
      InsertExact(h, Build(h, keys[..n], size, hashes), keys[n], hashes, q);
      assert forall k :: k in keys <==> k in keys[..n] || k == keys[n];
    }
  }

  /** No false negatives: every inserted key tests present in the finished filter. */
  lemma {:induction false} NoFalseNegatives(h: Hash, keys: seq<Bytes>, size: nat, hashes: nat, key: Bytes)
    requires size > 0 && key in keys
    ensures Present(h, Build(h, keys, size, hashes), key, hashes)
  {
    forall i: nat | i < hashes
      ensures HasBit(Build(h, keys, size, hashes), Position(h, key, i, size))
    {
      BuildExact(h, keys, size, hashes, Position(h, key, i, size));
      assert Marks(h, key, hashes, size, Position(h, key, i, size));
    }
  }
}
