/** Work generation of src/pairwise/needleman/needleman.cpp: every pair
    `i < j < n` of sequence indices, in lexicographic order. */
module Needleman {
  import opened Utils
  import opened Pairwise

  /** The pairs of row `i`: `(i, i+1), ..., (i, n-1)`. */
  function Row(i: nat, n: nat): (r: seq<Workpair>)
    ensures |r| == if i < n then n - i - 1 else 0
  {
    if i < n then seq(n - i - 1, k requires 0 <= k < n - i - 1 => Workpair(i, i + 1 + k)) else []
  }

  /** The pairs of rows `0 .. i-1`, in order. */
  function RowsBefore(i: nat, n: nat): seq<Workpair>
  {
    if i == 0 then [] else RowsBefore(i - 1, n) + Row(i - 1, n)
  }

  /** The whole job set for `n` sequences, in the order `generate` writes it. */
  function AllPairs(n: nat): seq<Workpair>
  {
    if n == 0 then [] else RowsBefore(n - 1, n)
  }

  /** Strict lexicographic order on pairs. */
  predicate LexLess(p: Workpair, q: Workpair)
  {
    p.first < q.first || (p.first == q.first && p.second < q.second)
  }

  predicate StrictlyOrdered(s: seq<Workpair>)
  {
    forall a, b :: 0 <= a < b < |s| ==> LexLess(s[a], s[b])
  }

  /** Rows before `i` hold `nchoose(n) - nchoose(n - i)` pairs. */
  lemma {:induction false} RowsBeforeLength(i: nat, n: nat)
    requires i <= n
    ensures |RowsBefore(i, n)| + NChoose(n - i) == NChoose(n)
  {
    if i > 0 {
      RowsBeforeLength(i - 1, n);
      NChooseStep(n - i);
    }
  }

  /** `generate(n)` makes exactly `n * (n - 1) / 2` pairs. */
  lemma AllPairsLength(n: nat)
    ensures |AllPairs(n)| == NChoose(n)
  {
    if n > 0 { RowsBeforeLength(n - 1, n); }
  }

  /** A pair is among the first `i` rows exactly when its first index is below `i`. */
  lemma {:induction false} RowsBeforeMembers(i: nat, n: nat, p: Workpair)
    requires i < n
    ensures p in RowsBefore(i, n) <==> p.first < i && p.first < p.second < n
  {
    if i > 0 {
      RowsBeforeMembers(i - 1, n, p);
      if p.first == i - 1 && p.first < p.second < n {
        assert Row(i - 1, n)[p.second - i] == p;
      }
    }
  }

  /** Each generated pair satisfies `first < second < n`, and every such pair is generated. */
  lemma AllPairsMembers(n: nat, p: Workpair)
    ensures p in AllPairs(n) <==> p.first < p.second < n
  {
    if n > 0 { RowsBeforeMembers(n - 1, n, p); }
  }

  /** Every pair of the first `i` rows has its first index below `i`. */
  lemma {:induction false} RowsBeforeBound(i: nat, n: nat)
    ensures forall k :: 0 <= k < |RowsBefore(i, n)| ==> RowsBefore(i, n)[k].first < i
  {
    if i > 0 { RowsBeforeBound(i - 1, n); }
  }

  /** The rows are written in increasing lexicographic order. */
  lemma {:induction false} RowsBeforeOrdered(i: nat, n: nat)
    ensures StrictlyOrdered(RowsBefore(i, n))
  {
    if i > 0 {
      RowsBeforeOrdered(i - 1, n);
      RowsBeforeBound(i - 1, n);
      var s, t := RowsBefore(i - 1, n), Row(i - 1, n);
      forall a, b | 0 <= a < b < |s + t| ensures LexLess((s + t)[a], (s + t)[b]) {
        if b < |s| {
        } else if a < |s| {
          assert (s + t)[a] == s[a] && (s + t)[b] == t[b - |s|];
        } else {
          assert (s + t)[a] == t[a - |s|] && (s + t)[b] == t[b - |s|];
        }
      }
    }
  }

  /** Pairs appear in lexicographic order, so every unordered pair appears exactly once. */
  lemma AllPairsOrdered(n: nat)
    ensures StrictlyOrdered(AllPairs(n))
  {
    if n > 0 { RowsBeforeOrdered(n - 1, n); }
  }

  /** `generate(num)`: nested loops write `pairs[c]` with a running counter `c`.
      The source computes `num - 1` on an unsigned type, so it needs `num >= 1`. */
  method Generate(num: nat) returns (pairs: array<Workpair>)
    requires num >= 1
    ensures pairs[..] == AllPairs(num)
  {
    AllPairsLength(num);
    NChooseClosedForm(num);
    assert (num - 1) * num == num * (num - 1);
    pairs := new Workpair[num * (num - 1) / 2];
    var i, c := 0, 0;
    while i < num - 1
      invariant 0 <= i <= num - 1
      invariant c == |RowsBefore(i, num)| <= pairs.Length
      invariant pairs[..c] == RowsBefore(i, num)
    {
      RowsBeforeLength(i + 1, num);
      var j := i + 1;
      while j < num
        invariant i + 1 <= j <= num
        invariant c == |RowsBefore(i, num)| + (j - i - 1) <= pairs.Length
        invariant pairs[..c] == RowsBefore(i, num) + Row(i, num)[..j - i - 1]
      {
        pairs[c] := Workpair(i, j);
        assert Row(i, num)[..j - i] == Row(i, num)[..j - i - 1] + [Workpair(i, j)];
        j, c := j + 1, c + 1;
      }
      assert Row(i, num)[..j - i - 1] == Row(i, num);
      i := i + 1;
    }
    assert pairs[..] == pairs[..c];
  }
}
