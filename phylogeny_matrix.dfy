/** The square distance-matrix view the neighbor-joining state works on
    (`phylogeny::matrix`), with the row sums it caches and the `swap` and
    `remove` operations that shrink it by one OTU. A matrix is a sequence of
    rows; the algorithm treats it as symmetric. */
module PhylogenyMatrix {

  /** The sum of a sequence of distances, added left to right. */
  function Sum(s: seq<real>): real
  {
    if s == [] then 0.0 else Sum(s[..|s| - 1]) + s[|s| - 1]
  }

  /** Sums split at any point. */
  lemma {:induction false} SumConcat(a: seq<real>, b: seq<real>)
    ensures Sum(a + b) == Sum(a) + Sum(b)
    decreases |b|
  {
    if b == [] {
      assert a + b == a;
    } else {
      var b' := b[..|b| - 1];
      assert (a + b)[..|a + b| - 1] == a + b';
      SumConcat(a, b');
    }
  }

  /** The sum of one element is that element. */
  lemma SumSingle(v: real)
    ensures Sum([v]) == v
  {
    assert [v][..0] == [];
  }

  /** Replacing one element changes the sum by the difference. */
  lemma SumUpdate(s: seq<real>, k: nat, v: real)
    requires k < |s|
    ensures Sum(s[k := v]) == Sum(s) - s[k] + v
  {
    var a, b := s[..k], s[k + 1..];
    assert s == (a + [s[k]]) + b;
    assert s[k := v] == (a + [v]) + b;
    SumConcat(a + [s[k]], b);
    SumConcat(a, [s[k]]);
    SumConcat(a + [v], b);
    SumConcat(a, [v]);
    SumSingle(v);
    SumSingle(s[k]);
  }

  /** `s` without its element `k`. */
  function Delete<T>(s: seq<T>, k: nat): (r: seq<T>)
    requires k < |s|
    ensures |r| == |s| - 1
  {
    s[..k] + s[k + 1..]
  }

  /** Element `i` of `Delete(s, k)` is element `Skip(i, k)` of `s`. */
  lemma DeleteAt<T>(s: seq<T>, k: nat, i: nat)
    requires k < |s| && i < |s| - 1
    ensures Delete(s, k)[i] == s[Skip(i, k)]
  {
  }

  /** The position in the longer sequence of position `i` once `k` is deleted. */
  function Skip(i: nat, k: nat): nat
  {
    if i < k then i else i + 1
  }

  /** Deleting an element takes it out of the sum. */
  lemma SumDelete(s: seq<real>, k: nat)
    requires k < |s|
    ensures Sum(Delete(s, k)) == Sum(s) - s[k]
  {
    var a, b := s[..k], s[k + 1..];
    calc {
      Sum(s);
      { assert s == (a + [s[k]]) + b; }
      Sum((a + [s[k]]) + b);
      { SumConcat(a + [s[k]], b); }
      Sum(a + [s[k]]) + Sum(b);
      { SumConcat(a, [s[k]]); SumSingle(s[k]); }
      Sum(a) + s[k] + Sum(b);
      { SumConcat(a, b); }
      Sum(a + b) + s[k];
    }
  }

  /** The position `i` comes from once `a` and `b` are exchanged. */
  function Swapped(i: nat, a: nat, b: nat): nat
  {
    if i == a then b else if i == b then a else i
  }

  /** `utils::swap` on two elements of a sequence. */
  function Swap<T>(s: seq<T>, a: nat, b: nat): (r: seq<T>)
    requires a < |s| && b < |s|
    ensures |r| == |s|
    ensures forall i :: 0 <= i < |r| ==> r[i] == s[Swapped(i, a, b)]
  {
    s[a := s[b]][b := s[a]]
  }

  /** Exchanging two elements leaves the sum alone. */
  lemma SumSwap(s: seq<real>, a: nat, b: nat)
    requires a < |s| && b < |s|
    ensures Sum(Swap(s, a, b)) == Sum(s)
  {
    if a == b {
      assert Swap(s, a, b) == s;
    } else {
      var t := s[a := s[b]];
      SumUpdate(s, a, s[b]);
      SumUpdate(t, b, s[a]);
      assert t[b] == s[b];
      assert Swap(s, a, b) == t[b := s[a]];
    }
  }

  /** The sum of the first `i` elements of `s`, leaving out positions `x` and `y`. */
  function SumExcept(s: seq<real>, x: nat, y: nat, i: nat): real
    requires i <= |s|
  {
    if i == 0 then 0.0
    else SumExcept(s, x, y, i - 1) + (if i - 1 != x && i - 1 != y then s[i - 1] else 0.0)
  }

  /** A prefix sum is the sum without two positions plus those positions. */
  lemma {:induction false} SumPrefixExcept(s: seq<real>, x: nat, y: nat, i: nat)
    requires i <= |s| && x != y
    ensures Sum(s[..i]) == SumExcept(s, x, y, i) + (if x < i then s[x] else 0.0) + (if y < i then s[y] else 0.0)
  {
    if i > 0 {
      assert s[..i][..i - 1] == s[..i - 1];
      SumPrefixExcept(s, x, y, i - 1);
    }
  }

  /** Exchanging two elements keeps the elements. */
  lemma MultisetSwap<T>(s: seq<T>, a: nat, b: nat)
    requires a < |s| && b < |s|
    ensures multiset(Swap(s, a, b)) == multiset(s)
  {
    assert Swap(s, a, b) == s[a := s[b]][b := s[a]];
  }

  /** Replacing an element swaps one copy of it for the new value. */
  lemma MultisetUpdate<T>(s: seq<T>, k: nat, v: T)
    requires k < |s|
    ensures multiset(s[k := v]) == multiset(s) - multiset{s[k]} + multiset{v}
  {
    assert s == s[..k] + [s[k]] + s[k + 1..];
    assert s[k := v] == s[..k] + [v] + s[k + 1..];
  }

  /** Deleting an element removes one copy of it. */
  lemma MultisetDelete<T>(s: seq<T>, k: nat)
    requires k < |s|
    ensures multiset(Delete(s, k)) == multiset(s) - multiset{s[k]}
  {
    assert s == s[..k] + [s[k]] + s[k + 1..];
  }

  /** An `n x n` matrix. */
  predicate Square(m: seq<seq<real>>, n: nat)
  {
    |m| == n && forall i :: 0 <= i < n ==> |m[i]| == n
  }

  /** A matrix equal to its transpose. */
  predicate Symmetric(m: seq<seq<real>>, n: nat)
    requires Square(m, n)
  {
    forall i, j :: 0 <= i < n && 0 <= j < n ==> m[i][j] == m[j][i]
  }

  /** The total divergence of OTU `i`: its distances to every other OTU. */
  function RowSum(m: seq<seq<real>>, n: nat, i: nat): real
    requires Square(m, n) && i < n
  {
    Sum(m[i]) - m[i][i]
  }

  /** The cache the algorithm keeps: one total divergence per OTU. */
  predicate CacheIsRowSums(m: seq<seq<real>>, cache: seq<real>, n: nat)
    requires Square(m, n)
  {
    |cache| == n && forall i :: 0 <= i < n ==> cache[i] == RowSum(m, n, i)
  }

  /** `matrix.swap(a, b)`: exchanges rows `a` and `b` and columns `a` and `b`. */
  function SwapRowCol(m: seq<seq<real>>, n: nat, a: nat, b: nat): (r: seq<seq<real>>)
    requires Square(m, n) && a < n && b < n
    ensures Square(r, n)
    ensures forall i, j :: 0 <= i < n && 0 <= j < n ==> r[i][j] == m[Swapped(i, a, b)][Swapped(j, a, b)]
  {
    seq(n, i requires 0 <= i < n => seq(n, j requires 0 <= j < n => m[Swapped(i, a, b)][Swapped(j, a, b)]))
  }

  /** `matrix.remove(k)`: drops row `k` and column `k`. */
  function RemoveRowCol(m: seq<seq<real>>, n: nat, k: nat): (r: seq<seq<real>>)
    requires Square(m, n) && k < n
    ensures Square(r, n - 1)
    ensures forall i, j :: 0 <= i < n - 1 && 0 <= j < n - 1 ==> r[i][j] == m[Skip(i, k)][Skip(j, k)]
  {
    seq(n - 1, i requires 0 <= i < n - 1 => seq(n - 1, j requires 0 <= j < n - 1 => m[Skip(i, k)][Skip(j, k)]))
  }

  /** The cache in the middle of a join: every OTU but `k` holds its total
      divergence with its distance to `k` left out. */
  predicate CacheExcludes(m: seq<seq<real>>, cache: seq<real>, n: nat, k: nat)
    requires Square(m, n) && k < n
  {
    |cache| == n && forall i :: 0 <= i < n && i != k ==> cache[i] == RowSum(m, n, i) - m[i][k]
  }

  /** Exchanging two OTUs keeps the matrix symmetric. */
  lemma SwapRowColSymmetric(m: seq<seq<real>>, n: nat, a: nat, b: nat)
    requires Square(m, n) && a < n && b < n && Symmetric(m, n)
    ensures Symmetric(SwapRowCol(m, n, a, b), n)
  {
  }

  /** Row `i` of the exchanged matrix is row `Swapped(i, a, b)` of the
      original with its elements `a` and `b` exchanged. */
  lemma SwapRowColRow(m: seq<seq<real>>, n: nat, a: nat, b: nat, i: nat)
    requires Square(m, n) && a < n && b < n && i < n
    ensures SwapRowCol(m, n, a, b)[i] == Swap(m[Swapped(i, a, b)], a, b)
  {
  }

  /** Exchanging two OTUs moves their cached divergences with them; the OTU
      left out of the cache moves too. */
  lemma SwapRowColExcludes(m: seq<seq<real>>, n: nat, a: nat, b: nat, cache: seq<real>, k: nat)
    requires Square(m, n) && a < n && b < n && k < n && CacheExcludes(m, cache, n, k)
    ensures CacheExcludes(SwapRowCol(m, n, a, b), Swap(cache, a, b), n, Swapped(k, a, b))
  {
    var r := SwapRowCol(m, n, a, b);
    var k' := Swapped(k, a, b);
    forall i | 0 <= i < n && i != k' ensures Swap(cache, a, b)[i] == RowSum(r, n, i) - r[i][k'] {
      var p := Swapped(i, a, b);
      assert p != k && Swapped(p, a, b) == i && Swapped(k', a, b) == k;
      SwapRowColRow(m, n, a, b, i);
      SumSwap(m[p], a, b);
      assert r[i][i] == m[p][p];
      assert r[i][k'] == m[p][k];
      assert Swap(cache, a, b)[i] == cache[p];
    }
  }

  /** Removing OTU `k` keeps the matrix symmetric and takes the distance to
      `k` out of every other OTU's total divergence. */
  lemma RemoveRowColSums(m: seq<seq<real>>, n: nat, k: nat, cache: seq<real>)
    requires Square(m, n) && k < n && Symmetric(m, n) && CacheExcludes(m, cache, n, k)
    ensures Symmetric(RemoveRowCol(m, n, k), n - 1)
    ensures CacheIsRowSums(RemoveRowCol(m, n, k), Delete(cache, k), n - 1)
  {
    var r := RemoveRowCol(m, n, k);
    forall i | 0 <= i < n - 1 ensures Delete(cache, k)[i] == RowSum(r, n - 1, i) {
      RemoveRowColRowSum(m, n, k, cache, i);
    }
  }

  /** One row of `RemoveRowColSums`. */
  lemma RemoveRowColRowSum(m: seq<seq<real>>, n: nat, k: nat, cache: seq<real>, i: nat)
    requires Square(m, n) && k < n && i < n - 1 && CacheExcludes(m, cache, n, k)
    ensures Delete(cache, k)[i] == RowSum(RemoveRowCol(m, n, k), n - 1, i)
  {
    var r := RemoveRowCol(m, n, k);
    var p := Skip(i, k);
    assert r[i] == Delete(m[p], k);
    SumDelete(m[p], k);
    assert r[i][i] == m[p][p];
  }
}
