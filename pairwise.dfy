/** The packed triangular score store of inc/pairwise/pairwise.hpp: the
    score of the unordered pair {x, y} lives at offset
    `(max + 1) * max / 2 + min`. */
module Pairwise {
  import opened Utils

  /** A pair of sequence indices to be aligned (`Workpair`). The source stores
      both as 16-bit unsigned integers. */
  datatype Workpair = Workpair(first: nat, second: nat)

  /** `getScore(x, y)`: the offset of the pair's score in the packed store. */
  function PackedIndex(x: nat, y: nat): nat
  {
    var lo := if x > y then y else x;
    var hi := if x > y then x else y;
    (hi + 1) * hi / 2 + lo
  }

  /** The offset lies in row `max(x, y)`, which starts at `nchoose(max + 1)`. */
  lemma PackedIndexRow(x: nat, y: nat)
    ensures x <= y ==> PackedIndex(x, y) == NChoose(y + 1) + x
    ensures y <= x ==> PackedIndex(x, y) == NChoose(x + 1) + y
  {
    NChooseClosedForm(y + 1);
    NChooseClosedForm(x + 1);
    assert (y + 1) * y == y * (y + 1);
    assert (x + 1) * x == x * (x + 1);
  }

  /** Both orders of a pair address the same score. */
  lemma PackedIndexSymmetric(x: nat, y: nat)
    ensures PackedIndex(x, y) == PackedIndex(y, x)
  {
  }

  /** For indices below `n` the offset lies below `n * (n + 1) / 2`, the size
      of a triangle that includes the diagonal. */
  lemma PackedIndexBound(x: nat, y: nat, n: nat)
    requires x < n && y < n
    ensures PackedIndex(x, y) < n * (n + 1) / 2
  {
    var hi := if x > y then x else y;
    PackedIndexRow(x, y);
    NChooseStep(hi + 1);
    NChooseMonotonic(hi + 2, n + 1);
    NChooseClosedForm(n + 1);
  }

  /** The unordered pair stored at offset `k`, larger index first. */
  function Unpack(k: nat): (p: Workpair)
    ensures p.second <= p.first
  {
    var r := A002024(k + 1);
    NChooseStep(r);
    Workpair(r - 1, k - NChoose(r))
  }

  /** `Unpack` inverts the packed index on the stored offset. */
  lemma UnpackPackedIndex(k: nat)
    ensures PackedIndex(Unpack(k).first, Unpack(k).second) == k
  {
    var p := Unpack(k);
    PackedIndexRow(p.first, p.second);
  }

  /** The packed index forgets only the order of the pair: `Unpack` recovers
      the pair with its larger index first. */
  lemma PackedIndexUnpack(x: nat, y: nat)
    ensures Unpack(PackedIndex(x, y)) == if x > y then Workpair(x, y) else Workpair(y, x)
  {
    var hi := if x > y then x else y;
    var k := PackedIndex(x, y);
    PackedIndexRow(x, y);
    NChooseStep(hi + 1);
    A002024Unique(k + 1, hi + 1);
  }

  /** Distinct unordered pairs get distinct offsets. */
  lemma PackedIndexInjective(x: nat, y: nat, x': nat, y': nat)
    requires PackedIndex(x, y) == PackedIndex(x', y')
    ensures (x == x' && y == y') || (x == y' && y == x')
  {
    PackedIndexUnpack(x, y);
    PackedIndexUnpack(x', y');
  }

  /** Every offset below `n * (n + 1) / 2` is the offset of a pair of indices below `n`. */
  lemma PackedIndexOnto(k: nat, n: nat)
    requires k < n * (n + 1) / 2
    ensures Unpack(k).first < n && PackedIndex(Unpack(k).first, Unpack(k).second) == k
  {
    var r := A002024(k + 1);
    assert n * (n + 1) / 2 == NChoose(n + 1) by {
      NChooseClosedForm(n + 1);
      assert n * (n + 1) == (n + 1) * n;
    }
    if r > n { NChooseMonotonic(n + 1, r); }
    UnpackPackedIndex(k);
  }
}
