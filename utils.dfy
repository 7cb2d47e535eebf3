/** Miscellaneous helpers of src/utils.hpp: pair counting, contiguous
    partitioning of a collection, swapping and file-extension extraction. */
module Utils {

  /** A half-open range `[offset, offset + total)` of a collection. */
  datatype Range = Range(offset: nat, total: nat)

  function Min(a: int, b: int): int { if a < b then a else b }
  function Max(a: int, b: int): int { if a > b then a else b }

  /** OEIS A000217, the triangular numbers, by their defining sum 0 + 1 + ... + m. */
  function Triangular(m: nat): nat
  {
    if m == 0 then 0 else m + Triangular(m - 1)
  }

  /** `nchoose(n)`: the number of unordered pairs that can be drawn from `n`
      objects, computed as `a000217(n - 1)`. */
  function NChoose(n: nat): nat
  {
    if n == 0 then 0 else Triangular(n - 1)
  }

  /** Twice the pair count is `(n - 1) * n`. */
  lemma {:induction false} NChooseDoubled(n: nat)
    ensures 2 * NChoose(n) == (n - 1) * n
  {
    if n > 1 {
      NChooseDoubled(n - 1);
      assert (n - 1) * n == (n - 2) * (n - 1) + 2 * (n - 1);
    }
  }

  /** The closed form of A000217 the source evaluates: `(n - 1) * n / 2`. */
  lemma NChooseClosedForm(n: nat)
    ensures NChoose(n) == (n - 1) * n / 2
  {
    NChooseDoubled(n);
  }

  /** Adding one object adds one new pair with each of the `n` old objects. */
  lemma NChooseStep(n: nat)
    ensures NChoose(n + 1) == NChoose(n) + n
  {
  }

  /** `nchoose` never decreases as objects are added. */
  lemma {:induction false} NChooseMonotonic(a: nat, b: nat)
    requires a <= b
    ensures NChoose(a) <= NChoose(b)
  {
    if a < b {
      NChooseMonotonic(a, b - 1);
      NChooseStep(b - 1);
    }
  }

  /** OEIS A002024, "n appears n times" (1, 2, 2, 3, 3, 3, ...), which the
      source evaluates in closed form as floor(1/2 + sqrt(2k)); here it is
      defined term by term: the value moves on to the next row right after
      the last position of a row. */
  function A002024(k: nat): (i: nat)
    requires k >= 1
    ensures i >= 1 && NChoose(i) < k <= NChoose(i + 1)
  {
    if k == 1 then 1
    else
      var r := A002024(k - 1);
      NChooseStep(r + 1);
      if k - 1 == NChoose(r + 1) then r + 1 else r
  }

  /** Only one row of A002024 can hold a given `k`. */
  lemma A002024Unique(k: nat, i: nat)
    requires k >= 1 && NChoose(i) < k <= NChoose(i + 1)
    ensures A002024(k) == i
  {
    var r := A002024(k);
    if r < i { NChooseMonotonic(r + 1, i); }
    if r > i { NChooseMonotonic(i + 1, r); }
  }

  /** `partition(total, count, k)`: the k-th of `count` contiguous slices of a
      collection of `total` elements; the first `total % count` slices get one
      extra element. */
  function Partition(total: nat, count: nat, k: nat): (r: Range)
    requires count > 0
    ensures r.total == total / count || r.total == total / count + 1
    ensures r.total == total / count + 1 <==> k < total % count
  {
    var quo := total / count;
    var rem := total % count;
    Range(quo * k + Min(rem, k), quo + (if rem > k then 1 else 0))
  }

  /** Each slice ends exactly where the next one starts. */
  lemma PartitionContiguous(total: nat, count: nat, k: nat)
    requires count > 0
    ensures Partition(total, count, k).offset + Partition(total, count, k).total
         == Partition(total, count, k + 1).offset
  {
    var quo := total / count;
    assert quo * (k + 1) == quo * k + quo;
  }

  /** Sum of the sizes of the first `k` slices. */
  function SliceSizes(total: nat, count: nat, k: nat): nat
    requires count > 0
  {
    if k == 0 then 0 else SliceSizes(total, count, k - 1) + Partition(total, count, k - 1).total
  }

  /** The first `k` slices together cover exactly `[0, offset(k))`. */
  lemma {:induction false} PartitionPrefix(total: nat, count: nat, k: nat)
    requires count > 0
    ensures SliceSizes(total, count, k) == Partition(total, count, k).offset
  {
    if k > 0 {
      PartitionPrefix(total, count, k - 1);
      PartitionContiguous(total, count, k - 1);
    }
  }

  /** All `count` slices together cover the whole collection: their sizes sum
      to `total`, and slice `count` would start at the end. */
  lemma PartitionCovers(total: nat, count: nat)
    requires count > 0
    ensures SliceSizes(total, count, count) == total
    ensures Partition(total, count, count).offset == total
  {
    PartitionPrefix(total, count, count);
    assert total == (total / count) * count + total % count;
  }

  /** Slice sizes never differ by more than one, and earlier slices are never smaller. */
  lemma PartitionBalanced(total: nat, count: nat, j: nat, k: nat)
    requires count > 0 && j <= k
    ensures Partition(total, count, k).total <= Partition(total, count, j).total
                                              <= Partition(total, count, k).total + 1
  {
  }

  /** The scalar `swap(a, b)`: the two values are exchanged. */
  method Swap<T>(a: T, b: T) returns (a': T, b': T)
    ensures a' == b && b' == a
  {
    var aux := a;
    a' := b;
    b' := aux;
  }

  /** The array overload of `swap`: exchanges the arrays element by element;
      the two arrays may be the same one. */
  method SwapArrays<T>(a: array<T>, b: array<T>)
    requires a.Length == b.Length
    modifies a, b
    ensures a[..] == old(b[..]) && b[..] == old(a[..])
  {
    var i := 0;
    while i < a.Length
      invariant 0 <= i <= a.Length
      invariant forall k :: 0 <= k < i ==> a[k] == old(b[k]) && b[k] == old(a[k])
      invariant forall k :: i <= k < a.Length ==> a[k] == old(a[k]) && b[k] == old(b[k])
    {
      var aux := a[i];
      a[i] := b[i];
      b[i] := aux;
      i := i + 1;
    }
  }

  /** `std::string::find_last_of(c)`, the position of the last `c`; -1 stands for
      `npos`, so that `FindLastOf(s, c) + 1` is 0 when `c` is absent, as the
      unsigned wrap-around `npos + 1` is in the source. */
  function FindLastOf(s: string, c: char): (r: int)
    ensures -1 <= r < |s|
    ensures r >= 0 ==> s[r] == c && forall k :: r < k < |s| ==> s[k] != c
    ensures r == -1 ==> c !in s
  {
    if |s| == 0 then -1
    else if s[|s| - 1] == c then |s| - 1
    else FindLastOf(s[..|s| - 1], c)
  }

  /** `extension(filename)`: the text after the last '.', the whole name when
      it has no '.', and nothing for an empty name. */
  function Extension(filename: string): (r: string)
    ensures filename == [] ==> r == []
    ensures '.' !in filename ==> r == filename
    ensures '.' !in r
    ensures |r| <= |filename| && filename[|filename| - |r|..] == r
    ensures '.' in filename ==> |r| < |filename| && filename[|filename| - |r| - 1] == '.'
  {
    if |filename| > 0 then filename[FindLastOf(filename, '.') + 1..] else []
  }
}
