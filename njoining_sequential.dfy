/** The sequential neighbor-joining of
    src/phylogeny/njoining/impl/sequential.cpp: a state made of a distance
    matrix, a cache of every OTU's total divergence and a map from matrix
    positions to OTU references, shrunk by one OTU per join until three OTUs
    are left. Distances are `real`; the source uses `double`. The model is the
    single-process view, in which the one compute node does everything that
    is marked `onlyslaves` and examines every pair. */
module NJoiningSequential {
  import opened Wrappers
  import opened PhylogenyMatrix
  import Utils
  import NJoining

  /** `njoining::candidate`: a pair of matrix positions and its Q-value. */
  datatype Candidate = Candidate(x: nat, y: nat, distance: real)

  /** A branch of the tree: the OTU reference it leads to and its length. */
  datatype Branch = Branch(ref: nat, length: real)

  /** One join recorded in the star tree: `parent` is the new OTU that the
      OTUs of the two branches hang from. */
  datatype Node = Node(parent: nat, left: Branch, right: Branch)

  /** `guidetree`: empty, or a star tree over `leaves` OTUs with its joins in order. */
  datatype GuideTree = Empty | Tree(leaves: nat, joins: seq<Node>)

  /** `njoining::star`: the tree under construction. */
  class Star {
    const leaves: nat
    var joins: seq<Node>

    /** `star::make(count)`: no joins yet. */
    constructor Make(leaves: nat)
      ensures this.leaves == leaves && joins == []
    {
      this.leaves := leaves;
      joins := [];
    }

    /** `star::join(parent, a, b)`: records that `left` and `right` hang from `parent`. */
    method Join(parent: nat, left: Branch, right: Branch)
      modifies this
      ensures joins == old(joins) + [Node(parent, left, right)]
    {
      joins := joins + [Node(parent, left, right)];
    }
  }

  /** The references `0 .. n-1`, the initial map. */
  function Iota(n: nat): (r: seq<nat>)
    ensures |r| == n && forall i :: 0 <= i < n ==> r[i] == i
  {
    seq(n, i requires 0 <= i < n => i as nat)
  }

  /** The references of all OTUs hung from a parent so far. */
  function Children(joins: seq<Node>): multiset<nat>
  {
    if joins == [] then multiset{}
    else Children(joins[..|joins| - 1]) + multiset{joins[|joins| - 1].left.ref, joins[|joins| - 1].right.ref}
  }

  /** Every OTU the joins hang is one of the `n` leaves or the parent of an
      earlier join, and none is hung twice. */
  ghost predicate ChildrenKnown(joins: seq<Node>, n: nat)
  {
    Children(joins) <= multiset(Iota(n + |joins|))
  }

  /** The parents `first .. first+k-1`. */
  function Parents(first: nat, k: nat): multiset<nat>
  {
    if k == 0 then multiset{} else Parents(first, k - 1) + multiset{first + k - 1}
  }

  // ----- cache_init -----

  /** The distances of OTU `k` to the OTUs in rows `0 .. i-1`, read down column `k`. */
  function ColumnAbove(m: seq<seq<real>>, n: nat, k: nat, i: nat): real
    requires Square(m, n) && k < n && i <= n
  {
    if i == 0 then 0.0 else ColumnAbove(m, n, k, i - 1) + m[i - 1][k]
  }

  /** What the pair loop of `cache_init` adds to entry `k`: every distance
      above the diagonal in row `k` or column `k`. */
  function PairSum(m: seq<seq<real>>, n: nat, k: nat): real
    requires Square(m, n) && k < n
  {
    ColumnAbove(m, n, k, k) + Sum(m[k][k + 1..])
  }

  /** Extending a slice by one element adds it to the sum. */
  lemma SumSliceStep(s: seq<real>, lo: nat, hi: nat)
    requires lo <= hi < |s|
    ensures Sum(s[lo..hi + 1]) == Sum(s[lo..hi]) + s[hi]
  {
    assert s[lo..hi + 1][..hi - lo] == s[lo..hi];
  }

  /** In a symmetric matrix, reading down a column is reading along the row. */
  lemma {:induction false} ColumnAboveIsRowPrefix(m: seq<seq<real>>, n: nat, k: nat, i: nat)
    requires Square(m, n) && Symmetric(m, n) && k < n && i <= n
    ensures ColumnAbove(m, n, k, i) == Sum(m[k][..i])
  {
    if i > 0 {
      ColumnAboveIsRowPrefix(m, n, k, i - 1);
      assert m[k][..i][..i - 1] == m[k][..i - 1];
    }
  }

  /** In a symmetric matrix the pair loop adds up exactly the total
      divergence of each OTU: the distances above and below the diagonal
      together are the whole row without its diagonal cell. */
  lemma PairSumIsRowSum(m: seq<seq<real>>, n: nat, k: nat)
    requires Square(m, n) && Symmetric(m, n) && k < n
    ensures PairSum(m, n, k) == RowSum(m, n, k)
  {
    ColumnAboveIsRowPrefix(m, n, k, k);
    var row := m[k];
    assert row == row[..k] + [row[k]] + row[k + 1..];
    SumConcat(row[..k] + [row[k]], row[k + 1..]);
    SumConcat(row[..k], [row[k]]);
    SumSingle(row[k]);
  }

  /** What the pair loop of `cache_init` has added to entry `k` when it is
      at row `i` and column `j`. */
  function Acc(m: seq<seq<real>>, n: nat, i: nat, j: nat, k: nat): real
    requires Square(m, n) && i < j <= n && k < n
  {
    ColumnAbove(m, n, k, if i < k < j then i + 1 else Utils.Min(i, k)) +
    (if k < i then Sum(m[k][k + 1..]) else if k == i then Sum(m[i][i + 1..j]) else 0.0)
  }

  /** One step of the inner loop adds `d(i, j)` to entries `i` and `j` only. */
  lemma AccStep(m: seq<seq<real>>, n: nat, i: nat, j: nat, k: nat)
    requires Square(m, n) && i < j < n && k < n
    ensures Acc(m, n, i, j + 1, k) == Acc(m, n, i, j, k) + (if k == i || k == j then m[i][j] else 0.0)
  {
    if k == i {
      SumSliceStep(m[i], i + 1, j);
    }
  }

  /** Adding `d(i, j)` to cache entries `i` and `j` takes every entry from
      its sum before step `j` to its sum after it. */
  lemma AccUpdate(m: seq<seq<real>>, n: nat, c0: seq<real>, before: seq<real>, mid: seq<real>, after: seq<real>, i: nat, j: nat)
    requires Square(m, n) && i < j < n && |c0| == n && |before| == n
    requires forall k :: 0 <= k < n ==> before[k] == c0[k] + Acc(m, n, i, j, k)
    requires mid == before[i := before[i] + m[i][j]] && after == mid[j := mid[j] + m[i][j]]
    ensures forall k :: 0 <= k < n ==> after[k] == c0[k] + Acc(m, n, i, j + 1, k)
  {
    forall k | 0 <= k < n ensures after[k] == c0[k] + Acc(m, n, i, j + 1, k) {
      AccStep(m, n, i, j, k);
    }
  }

  /** Finishing row `i` is starting row `i + 1`. */
  lemma AccRowEnd(m: seq<seq<real>>, n: nat, i: nat, k: nat)
    requires Square(m, n) && i + 2 <= n && k < n
    ensures Acc(m, n, i, n, k) == Acc(m, n, i + 1, i + 2, k)
  {
    assert m[i][i + 1..n] == m[i][i + 1..];
  }

  /** After the last row every entry holds its pair sum. */
  lemma AccDone(m: seq<seq<real>>, n: nat, k: nat)
    requires Square(m, n) && n >= 1 && k < n
    ensures Acc(m, n, n - 1, n, k) == PairSum(m, n, k)
  {
    if k == n - 1 {
      assert m[k][k + 1..n] == m[k][k + 1..] == [];
    }
  }

  /** Before the pair loop every entry has added nothing. */
  lemma AccStart(m: seq<seq<real>>, n: nat, c0: seq<real>)
    requires Square(m, n) && n >= 1 && |c0| == n
    ensures forall k :: 0 <= k < n ==> c0[k] == c0[k] + Acc(m, n, 0, 1, k)
  {
    forall k | 0 <= k < n ensures Acc(m, n, 0, 1, k) == 0.0 {
      assert m[0][1..1] == [];
    }
  }

  /** The sums after row `i` are the sums before row `i + 1`. */
  lemma AccNextRow(m: seq<seq<real>>, n: nat, c0: seq<real>, c: seq<real>, i: nat)
    requires Square(m, n) && i + 2 <= n && |c0| == n && |c| == n
    requires forall k :: 0 <= k < n ==> c[k] == c0[k] + Acc(m, n, i, n, k)
    ensures forall k :: 0 <= k < n ==> c[k] == c0[k] + Acc(m, n, i + 1, i + 2, k)
  {
    forall k | 0 <= k < n ensures c[k] == c0[k] + Acc(m, n, i + 1, i + 2, k) {
      AccRowEnd(m, n, i, k);
    }
  }

  /** After the last row every entry has added its pair sum. */
  lemma AccFinish(m: seq<seq<real>>, n: nat, c0: seq<real>, c: seq<real>)
    requires Square(m, n) && n >= 1 && |c0| == n && |c| == n
    requires forall k :: 0 <= k < n ==> c[k] == c0[k] + Acc(m, n, n - 1, n, k)
    ensures forall k :: 0 <= k < n ==> c[k] == c0[k] + PairSum(m, n, k)
  {
    forall k | 0 <= k < n ensures c[k] == c0[k] + PairSum(m, n, k) {
      AccDone(m, n, k);
    }
  }

  /** The cache `cache_init` leaves as written: its zeroing loop runs to
      `count - 1`, so the last entry starts from whatever the fresh buffer
      held (`initial`) instead of zero. */
  function CacheAsWritten(initial: seq<real>, m: seq<seq<real>>, n: nat): (r: seq<real>)
    requires Square(m, n) && |initial| == n && n >= 1
    ensures |r| == n
  {
    seq(n, k requires 0 <= k < n => (if k < n - 1 then 0.0 else initial[k]) + PairSum(m, n, k))
  }

  /** As written, every entry but the last is the OTU's total divergence; the
      last one is off by the buffer's leftover value, so it is right only
      when that value happens to be zero. */
  lemma CacheAsWrittenLastEntry(initial: seq<real>, m: seq<seq<real>>, n: nat)
    requires Square(m, n) && Symmetric(m, n) && |initial| == n && n >= 1
    ensures forall k :: 0 <= k < n - 1 ==> CacheAsWritten(initial, m, n)[k] == RowSum(m, n, k)
    ensures CacheAsWritten(initial, m, n)[n - 1] == RowSum(m, n, n - 1) + initial[n - 1]
    ensures CacheIsRowSums(m, CacheAsWritten(initial, m, n), n) <==> initial[n - 1] == 0.0
  {
    forall k | 0 <= k < n {
      PairSumIsRowSum(m, n, k);
    }
  }

  // ----- q_transform, raise_candidate -----

  /** `q_transform`: the Q-value of the pair `(x, y)`; the algorithm joins
      the pair with the largest one. */
  function QTransform(m: seq<seq<real>>, cache: seq<real>, n: nat, x: nat, y: nat): real
    requires Square(m, n) && |cache| == n && n >= 2 && x < n && y < n
  {
    (n as real - 2.0) * m[x][y] - cache[x] - cache[y]
  }

  /** With the cache holding total divergences, the Q-value is the
      neighbor-joining criterion `(n - 2) d(x, y) - R(x) - R(y)`, and it does
      not depend on the order of the pair. */
  lemma QTransformCriterion(m: seq<seq<real>>, cache: seq<real>, n: nat, x: nat, y: nat)
    requires Square(m, n) && Symmetric(m, n) && CacheIsRowSums(m, cache, n) && n >= 2 && x < n && y < n
    ensures QTransform(m, cache, n, x, y) == (n as real - 2.0) * m[x][y] - RowSum(m, n, x) - RowSum(m, n, y)
    ensures QTransform(m, cache, n, x, y) == QTransform(m, cache, n, y, x)
  {
  }

  /** `raise_candidate`: the chosen pair with the lengths of the branches
      from each OTU to their new parent. */
  function RaiseCandidate(m: seq<seq<real>>, cache: seq<real>, n: nat, chosen: Candidate): (r: NJoining.Joinable)
    requires Square(m, n) && |cache| == n && n > 2 && chosen.x < n && chosen.y < n
    ensures r.x == chosen.x && r.y == chosen.y && r.distance == chosen.distance
    ensures r.dx + r.dy == m[chosen.x][chosen.y]
    ensures r.dx - r.dy == (cache[chosen.x] - cache[chosen.y]) / (n as real - 2.0)
  {
    var d := m[chosen.x][chosen.y];
    var pairsum := cache[chosen.x] - cache[chosen.y];
    var dx := 0.5 * d + pairsum / (2.0 * (n as real - 2.0));
    HalfQuotient(pairsum, n as real - 2.0);
    NJoining.Joinable(chosen.x, chosen.y, chosen.distance, dx, d - dx)
  }

  /** Two halves of a quotient make the quotient. */
  lemma HalfQuotient(a: real, b: real)
    requires b > 0.0
    ensures 2.0 * (a / (2.0 * b)) == a / b
  {
  }

  // ----- pick_joinable -----

  /** The row of the `k`-th pair of the strict lower triangle, enumerated row
      by row: `a002024(k + 1)`. */
  function PairRow(k: nat): (i: nat)
    ensures i >= 1 && Utils.NChoose(i) <= k < Utils.NChoose(i) + i
  {
    var i := Utils.A002024(k + 1);
    Utils.NChooseStep(i);
    i
  }

  /** The column of the `k`-th pair: `k - nchoose(row)`, always below the row. */
  function PairCol(k: nat): (j: nat)
    ensures j < PairRow(k)
  {
    k - Utils.NChoose(PairRow(k))
  }

  /** Pair `(i, j)` with `j < i` sits at position `nchoose(i) + j`. */
  lemma PairAtPosition(i: nat, j: nat)
    requires j < i
    ensures PairRow(Utils.NChoose(i) + j) == i && PairCol(Utils.NChoose(i) + j) == j
  {
    Utils.NChooseStep(i);
    Utils.A002024Unique(Utils.NChoose(i) + j + 1, i);
  }

  /** The first `nchoose(n)` positions are the pairs of OTUs below `n`. */
  lemma PairRowBound(k: nat, n: nat)
    requires k < Utils.NChoose(n)
    ensures PairRow(k) < n
  {
    if PairRow(k) >= n {
      Utils.NChooseMonotonic(n, PairRow(k));
    }
  }

  /** Every pair `j < i < n` is enumerated at exactly one position below
      `nchoose(n)`: the partition `{0, nchoose(n)}` examines each pair once. */
  lemma PairEnumeration(n: nat, i: nat, j: nat)
    requires j < i < n
    ensures Utils.NChoose(i) + j < Utils.NChoose(n)
    ensures PairRow(Utils.NChoose(i) + j) == i && PairCol(Utils.NChoose(i) + j) == j
    ensures forall k :: PairRow(k) == i && PairCol(k) == j ==> k == Utils.NChoose(i) + j
  {
    PairAtPosition(i, j);
    Utils.NChooseStep(i);
    Utils.NChooseMonotonic(i + 1, n);
  }

  /** The candidate at position `k` of the enumeration. */
  function CandidateAt(m: seq<seq<real>>, cache: seq<real>, n: nat, k: nat): (c: Candidate)
    requires Square(m, n) && |cache| == n && n >= 2 && k < Utils.NChoose(n)
    ensures c.x == PairRow(k) && c.y == PairCol(k) && c.y < c.x < n
  {
    PairRowBound(k, n);
    Candidate(PairRow(k), PairCol(k), QTransform(m, cache, n, PairRow(k), PairCol(k)))
  }

  /** `pick_joinable`'s comparison: a pair replaces the held candidate when
      there is none or when its Q-value is strictly greater. */
  function Pick(held: Option<Candidate>, here: Candidate): Option<Candidate>
  {
    if held.None? || here.distance > held.value.distance then Some(here) else held
  }

  /** The candidate `pick_joinable` holds after examining the first `c` pairs
      of the partition starting at `offset`. `None` stands for the default
      candidate, whose score every Q-value beats. */
  function Best(m: seq<seq<real>>, cache: seq<real>, n: nat, offset: nat, c: nat): (r: Option<Candidate>)
    requires Square(m, n) && |cache| == n && n >= 2 && offset + c <= Utils.NChoose(n)
    ensures r.Some? ==> r.value.y < r.value.x < n
  {
    if c == 0 then None
    else
      var b := Best(m, cache, n, offset, c - 1);
      var here := CandidateAt(m, cache, n, offset + c - 1);
      if b.None? || here.distance > b.value.distance then Some(here) else b
  }

  /** Examining the pair `(i, j)` at position `offset + c` replaces the
      held candidate exactly when its Q-value is strictly greater. */
  lemma BestStep(m: seq<seq<real>>, cache: seq<real>, n: nat, offset: nat, c: nat, i: nat, j: nat)
    requires Square(m, n) && |cache| == n && n >= 2 && offset + c < Utils.NChoose(n)
    requires offset + c == Utils.NChoose(i) + j && j < i
    ensures i < n
    ensures var b := Best(m, cache, n, offset, c);
            var q := QTransform(m, cache, n, i, j);
            Best(m, cache, n, offset, c + 1) == Pick(b, Candidate(i, j, q))
  {
    PairAtPosition(i, j);
    PairRowBound(offset + c, n);
  }

  /** A pick is held exactly when at least one pair has been examined. */
  lemma {:induction false} BestHeld(m: seq<seq<real>>, cache: seq<real>, n: nat, offset: nat, c: nat)
    requires Square(m, n) && |cache| == n && n >= 2 && offset + c <= Utils.NChoose(n)
    ensures Best(m, cache, n, offset, c).Some? <==> c > 0
  {
    if c > 0 {
      BestHeld(m, cache, n, offset, c - 1);
    }
  }

  /** No pair of the partition has a larger Q-value than the pick. */
  lemma {:induction false} BestIsMaximum(m: seq<seq<real>>, cache: seq<real>, n: nat, offset: nat, c: nat)
    requires Square(m, n) && |cache| == n && n >= 2 && offset + c <= Utils.NChoose(n) && c > 0
    ensures Best(m, cache, n, offset, c).Some?
    ensures forall k :: offset <= k < offset + c ==>
              CandidateAt(m, cache, n, k).distance <= Best(m, cache, n, offset, c).value.distance
  {
    BestDominates(m, cache, n, offset, c);
  }

  /** Every pair among the `c` from `offset` scores at most `v`. */
  ghost predicate Dominates(m: seq<seq<real>>, cache: seq<real>, n: nat, offset: nat, c: nat, v: real)
    requires Square(m, n) && |cache| == n && n >= 2 && offset + c <= Utils.NChoose(n)
  {
    forall k :: offset <= k < offset + c ==> CandidateAt(m, cache, n, k).distance <= v
  }

  lemma {:induction false} BestDominates(m: seq<seq<real>>, cache: seq<real>, n: nat, offset: nat, c: nat)
    requires Square(m, n) && |cache| == n && n >= 2 && offset + c <= Utils.NChoose(n) && c > 0
    ensures Best(m, cache, n, offset, c).Some?
    ensures Dominates(m, cache, n, offset, c, Best(m, cache, n, offset, c).value.distance)
  {
    var b := Best(m, cache, n, offset, c - 1);
    var here := CandidateAt(m, cache, n, offset + c - 1);
    assert Best(m, cache, n, offset, c) == Pick(b, here);
    if c == 1 {
      DominatesStep(m, cache, n, offset, c, here.distance, here.distance);
    } else {
      BestDominates(m, cache, n, offset, c - 1);
      var w := Pick(b, here).value.distance;
      DominatesStep(m, cache, n, offset, c, b.value.distance, w);
    }
  }

  /** A bound on the first `c - 1` pairs that the next pair respects too
      is a bound on all `c`; a bound on no pair can be any value. */
  lemma DominatesStep(m: seq<seq<real>>, cache: seq<real>, n: nat, offset: nat, c: nat, v: real, w: real)
    requires Square(m, n) && |cache| == n && n >= 2 && offset + c <= Utils.NChoose(n) && c > 0
    requires c == 1 || Dominates(m, cache, n, offset, c - 1, v)
    requires v <= w && CandidateAt(m, cache, n, offset + c - 1).distance <= w
    ensures Dominates(m, cache, n, offset, c, w)
  {
  }

  /** Position `k` of the partition holds the pick, and every pair examined
      before it scores strictly lower. */
  predicate FirstBestAt(m: seq<seq<real>>, cache: seq<real>, n: nat, offset: nat, c: nat, k: nat)
    requires Square(m, n) && |cache| == n && n >= 2 && offset + c <= Utils.NChoose(n)
  {
    offset <= k < offset + c && Best(m, cache, n, offset, c) == Some(CandidateAt(m, cache, n, k)) &&
    forall k' :: offset <= k' < k ==> CandidateAt(m, cache, n, k').distance < CandidateAt(m, cache, n, k).distance
  }

  /** A pair that does not beat the pick leaves the first best where it was. */
  lemma BestKept(m: seq<seq<real>>, cache: seq<real>, n: nat, offset: nat, c: nat, k0: nat)
    requires Square(m, n) && |cache| == n && n >= 2 && offset + c <= Utils.NChoose(n) && c > 1
    requires FirstBestAt(m, cache, n, offset, c - 1, k0)
    requires CandidateAt(m, cache, n, offset + c - 1).distance <= Best(m, cache, n, offset, c - 1).value.distance
    ensures FirstBestAt(m, cache, n, offset, c, k0)
  {
    assert Best(m, cache, n, offset, c) == Best(m, cache, n, offset, c - 1);
  }

  /** A pair that beats the pick becomes the first best. */
  lemma BestReplaced(m: seq<seq<real>>, cache: seq<real>, n: nat, offset: nat, c: nat)
    requires Square(m, n) && |cache| == n && n >= 2 && offset + c <= Utils.NChoose(n) && c > 1
    requires CandidateAt(m, cache, n, offset + c - 1).distance > Best(m, cache, n, offset, c - 1).value.distance
    ensures FirstBestAt(m, cache, n, offset, c, offset + c - 1)
  {
    BestIsMaximum(m, cache, n, offset, c - 1);
    assert Best(m, cache, n, offset, c) == Some(CandidateAt(m, cache, n, offset + c - 1));
  }

  /** The pick is the first pair of the partition with the largest Q-value:
      every pair examined before it scores strictly lower. */
  lemma {:induction false} BestIsFirst(m: seq<seq<real>>, cache: seq<real>, n: nat, offset: nat, c: nat)
    requires Square(m, n) && |cache| == n && n >= 2 && offset + c <= Utils.NChoose(n) && c > 0
    ensures exists k :: FirstBestAt(m, cache, n, offset, c, k)
  {
    if c == 1 {
      assert FirstBestAt(m, cache, n, offset, c, offset);
    } else {
      BestIsFirst(m, cache, n, offset, c - 1);
      BestHeld(m, cache, n, offset, c - 1);
      var k0 :| FirstBestAt(m, cache, n, offset, c - 1, k0);
      if CandidateAt(m, cache, n, offset + c - 1).distance > Best(m, cache, n, offset, c - 1).value.distance {
        BestReplaced(m, cache, n, offset, c);
      } else {
        BestKept(m, cache, n, offset, c, k0);
      }
    }
  }

  /** A row whose first position lies below `nchoose(n)` is a row of an `n x n` matrix. */
  lemma RowBelow(i: nat, k: nat, n: nat)
    requires Utils.NChoose(i) <= k < Utils.NChoose(n)
    ensures i < n
  {
    if i >= n {
      Utils.NChooseMonotonic(n, i);
    }
  }

  /** The candidate held after examining `c` more pairs from pair `(i, j)`
      on, the way `pick_joinable`'s two loops walk them: along row `i` while
      `j < i`, then from the start of the next row. */
  function Scan(m: seq<seq<real>>, cache: seq<real>, n: nat, held: Option<Candidate>, i: nat, j: nat, c: nat): Option<Candidate>
    requires Square(m, n) && |cache| == n && n >= 2
    requires c > 0 ==> j <= i && Utils.NChoose(i) + j + c <= Utils.NChoose(n)
    decreases c, if j < i then 0 else 1
  {
    if c == 0 then held
    else if j < i then
      RowBelow(i, Utils.NChoose(i) + j, n);
      Scan(m, cache, n, Pick(held, Candidate(i, j, QTransform(m, cache, n, i, j))), i, j + 1, c - 1)
    else
      Utils.NChooseStep(i);
      Scan(m, cache, n, held, i + 1, 0, c)
  }

  /** One step of the walk along a row: the pair `(i, j)` is offered to the
      held candidate. */
  lemma ScanPicks(m: seq<seq<real>>, cache: seq<real>, n: nat, held: Option<Candidate>, i: nat, j: nat, c: nat)
    requires Square(m, n) && |cache| == n && n >= 2 && j < i < n && c > 0
    requires Utils.NChoose(i) + j + c <= Utils.NChoose(n)
    ensures Scan(m, cache, n, held, i, j, c)
            == Scan(m, cache, n, Pick(held, Candidate(i, j, QTransform(m, cache, n, i, j))), i, j + 1, c - 1)
  {
  }

  /** Examining the pair at position `offset + c` takes the walk one pair
      along its row and the pick one pair further. */
  lemma ScanStep(m: seq<seq<real>>, cache: seq<real>, n: nat, offset: nat, c: nat, total: nat, i: nat, j: nat)
    requires Square(m, n) && |cache| == n && n >= 2 && offset + total <= Utils.NChoose(n) && c < total
    requires j < i && offset + c == Utils.NChoose(i) + j
    ensures Scan(m, cache, n, Best(m, cache, n, offset, c), i, j, total - c)
            == Scan(m, cache, n, Best(m, cache, n, offset, c + 1), i, j + 1, total - (c + 1))
  {
    BestStep(m, cache, n, offset, c, i, j);
  }

  /** At the end of a row the walk goes on from the start of the next one. */
  lemma ScanRowEnd(m: seq<seq<real>>, cache: seq<real>, n: nat, held: Option<Candidate>, i: nat, j: nat, c: nat)
    requires Square(m, n) && |cache| == n && n >= 2 && j == i && Utils.NChoose(i) + j + c <= Utils.NChoose(n)
    ensures Utils.NChoose(i + 1) + c <= Utils.NChoose(n)
    ensures Scan(m, cache, n, held, i, j, c) == Scan(m, cache, n, held, i + 1, 0, c)
  {
    Utils.NChooseStep(i);
  }

  /** Walking the rest of a partition row by row from its pair at position
      `offset + c`, holding the pick of its first `c` pairs, ends with the
      pick of the whole partition. */
  lemma {:induction false} ScanIsBest(m: seq<seq<real>>, cache: seq<real>, n: nat, offset: nat, c: nat, total: nat, i: nat, j: nat)
    requires Square(m, n) && |cache| == n && n >= 2 && offset + total <= Utils.NChoose(n) && c <= total
    requires j < i && offset + c == Utils.NChoose(i) + j
    ensures Scan(m, cache, n, Best(m, cache, n, offset, c), i, j, total - c) == Best(m, cache, n, offset, total)
    decreases total - c, 1
  {
    if c < total && j + 1 < i {
      ScanAlongRow(m, cache, n, offset, c, total, i, j);
    } else if c < total {
      ScanNextRow(m, cache, n, offset, c, total, i, j);
    } else {
      assert Scan(m, cache, n, Best(m, cache, n, offset, total), i, j, 0) == Best(m, cache, n, offset, total);
    }
  }

  /** The inductive step of `ScanIsBest` inside a row. */
  lemma {:induction false} ScanAlongRow(m: seq<seq<real>>, cache: seq<real>, n: nat, offset: nat, c: nat, total: nat, i: nat, j: nat)
    requires Square(m, n) && |cache| == n && n >= 2 && offset + total <= Utils.NChoose(n) && c < total
    requires j + 1 < i && offset + c == Utils.NChoose(i) + j
    ensures Scan(m, cache, n, Best(m, cache, n, offset, c), i, j, total - c) == Best(m, cache, n, offset, total)
    decreases total - c, 0
  {
    ScanStep(m, cache, n, offset, c, total, i, j);
    ScanIsBest(m, cache, n, offset, c + 1, total, i, j + 1);
  }

  /** The inductive step of `ScanIsBest` at the last pair of a row. */
  lemma {:induction false} ScanNextRow(m: seq<seq<real>>, cache: seq<real>, n: nat, offset: nat, c: nat, total: nat, i: nat, j: nat)
    requires Square(m, n) && |cache| == n && n >= 2 && offset + total <= Utils.NChoose(n) && c < total
    requires j + 1 == i && offset + c == Utils.NChoose(i) + j
    ensures Scan(m, cache, n, Best(m, cache, n, offset, c), i, j, total - c) == Best(m, cache, n, offset, total)
    decreases total - c, 0
  {
    ScanStep(m, cache, n, offset, c, total, i, j);
    ScanRowEnd(m, cache, n, Best(m, cache, n, offset, c + 1), i, j + 1, total - (c + 1));
    ScanIsBest(m, cache, n, offset, c + 1, total, i + 1, 0);
  }

  /** `raise_candidate` applied to a pick, when there is one. */
  function Raised(m: seq<seq<real>>, cache: seq<real>, n: nat, chosen: Option<Candidate>): (r: Option<NJoining.Joinable>)
    requires Square(m, n) && |cache| == n && n > 2
    requires chosen.Some? ==> chosen.value.x < n && chosen.value.y < n
    ensures r.Some? <==> chosen.Some?
  {
    if chosen.None? then None else Some(RaiseCandidate(m, cache, n, chosen.value))
  }

  /** The position `update_cache` removes: the first of a symmetric matrix,
      the last of a linear one. */
  function Removed(symmetric: bool, count: nat): (r: nat)
    requires count >= 1
    ensures r < count && (r == 0 || r == count - 1)
  {
    if symmetric then 0 else count - 1
  }

  // ----- join_pair -----

  /** The distance from the new parent of `x` and `y` to OTU `k`. */
  function Cur(m: seq<seq<real>>, n: nat, x: nat, y: nat, k: nat): real
    requires Square(m, n) && x < n && y < n && k < n
  {
    0.5 * ((m[k][x] + m[k][y]) - m[x][y])
  }

  /** Cell `(a, b)` once the join loop has rewritten row and column `x` for
      the OTUs below `i`, other than `x` and `y`. */
  function JoinedAt(m: seq<seq<real>>, n: nat, x: nat, y: nat, i: nat, a: nat, b: nat): real
    requires Square(m, n) && x < n && y < n && a < n && b < n
  {
    if a == x && b < i && b != x && b != y then Cur(m, n, x, y, b)
    else if b == x && a < i && a != x && a != y then Cur(m, n, x, y, a)
    else m[a][b]
  }

  /** The matrix once the join loop has passed the OTUs below `i`. */
  function JoinedUpTo(m: seq<seq<real>>, n: nat, x: nat, y: nat, i: nat): (r: seq<seq<real>>)
    requires Square(m, n) && x < n && y < n
    ensures Square(r, n)
  {
    seq(n, a requires 0 <= a < n => seq(n, b requires 0 <= b < n => JoinedAt(m, n, x, y, i, a, b)))
  }

  /** The matrix after the join loop: row and column `x` hold the distances
      to the new parent, everything else is unchanged. */
  function Joined(m: seq<seq<real>>, n: nat, x: nat, y: nat): (r: seq<seq<real>>)
    requires Square(m, n) && x < n && y < n
    ensures Square(r, n)
  {
    JoinedUpTo(m, n, x, y, n)
  }

  /** Before the loop nothing has changed. */
  lemma JoinedUpToStart(m: seq<seq<real>>, n: nat, x: nat, y: nat)
    requires Square(m, n) && x < n && y < n
    ensures JoinedUpTo(m, n, x, y, 0) == m
  {
    var j := JoinedUpTo(m, n, x, y, 0);
    forall a | 0 <= a < n ensures j[a] == m[a] {
    }
  }

  /** One step of the join loop: for an OTU `i` other than `x` and `y`,
      cells `(x, i)` and `(i, x)` take the parent's distance to `i`. */
  lemma JoinedUpToStep(m: seq<seq<real>>, n: nat, x: nat, y: nat, i: nat)
    requires Square(m, n) && x < n && y < n && i < n && x != y
    ensures JoinedUpTo(m, n, x, y, i)[i][x] == m[i][x] && JoinedUpTo(m, n, x, y, i)[i][y] == m[i][y]
    ensures var j := JoinedUpTo(m, n, x, y, i);
            var cur := Cur(m, n, x, y, i);
            JoinedUpTo(m, n, x, y, i + 1) ==
              if i == x || i == y then j
              else var j1 := j[x := j[x][i := cur]]; j1[i := j1[i][x := cur]]
  {
    var j := JoinedUpTo(m, n, x, y, i);
    var j' := JoinedUpTo(m, n, x, y, i + 1);
    var cur := Cur(m, n, x, y, i);
    if i == x || i == y {
      forall a | 0 <= a < n ensures j'[a] == j[a] {
      }
    } else {
      var j1 := j[x := j[x][i := cur]];
      var j2 := j1[i := j1[i][x := cur]];
      forall a | 0 <= a < n ensures j'[a] == j2[a] {
      }
    }
  }

  /** The sum of the parent's distances to the OTUs below `i`. */
  function CurSum(m: seq<seq<real>>, n: nat, x: nat, y: nat, i: nat): real
    requires Square(m, n) && x < n && y < n && i <= n
  {
    if i == 0 then 0.0
    else CurSum(m, n, x, y, i - 1) + (if i - 1 != x && i - 1 != y then Cur(m, n, x, y, i - 1) else 0.0)
  }

  /** Cache entry `a` once the join loop has passed the OTUs below `i`. */
  function JoinedCacheAt(m: seq<seq<real>>, c: seq<real>, n: nat, x: nat, y: nat, i: nat, a: nat): real
    requires Square(m, n) && |c| == n && x < n && y < n && a < n
  {
    if a < i && a != x && a != y then c[a] + (Cur(m, n, x, y, a) - (m[a][x] + m[a][y])) else c[a]
  }

  /** The cache once the join loop has passed the OTUs below `i`. */
  function JoinedCacheUpTo(m: seq<seq<real>>, c: seq<real>, n: nat, x: nat, y: nat, i: nat): (r: seq<real>)
    requires Square(m, n) && |c| == n && x < n && y < n
    ensures |r| == n
  {
    seq(n, a requires 0 <= a < n => JoinedCacheAt(m, c, n, x, y, i, a))
  }

  /** One step of the join loop on the cache: entry `i` trades its distances
      to `x` and `y` for its distance to the parent. */
  lemma JoinedCacheUpToStep(m: seq<seq<real>>, c: seq<real>, n: nat, x: nat, y: nat, i: nat)
    requires Square(m, n) && |c| == n && x < n && y < n && i < n
    ensures JoinedCacheUpTo(m, c, n, x, y, 0) == c
    ensures var jc := JoinedCacheUpTo(m, c, n, x, y, i);
            JoinedCacheUpTo(m, c, n, x, y, i + 1) ==
              if i == x || i == y then jc
              else jc[i := jc[i] + (Cur(m, n, x, y, i) - (m[i][x] + m[i][y]))]
  {
  }

  /** The cache after the join loop, with the parent's entry set to its total. */
  function JoinedCache(m: seq<seq<real>>, c: seq<real>, n: nat, x: nat, y: nat): (r: seq<real>)
    requires Square(m, n) && |c| == n && x < n && y < n
    ensures |r| == n
  {
    JoinedCacheUpTo(m, c, n, x, y, n)[x := CurSum(m, n, x, y, n)]
  }

  /** One pass of the join loop, on the values the loop holds: an OTU `i`
      other than `x` and `y` has its cells with `x` set to the parent's
      distance, its cache entry moved by the change, and that distance added
      to the parent's sum; `x` and `y` themselves are passed over. */
  lemma JoinLoopStep(m: seq<seq<real>>, c: seq<real>, n: nat, x: nat, y: nat, i: nat)
    requires Square(m, n) && |c| == n && x < n && y < n && i < n && x != y
    ensures var j, jc, s := JoinedUpTo(m, n, x, y, i), JoinedCacheUpTo(m, c, n, x, y, i), CurSum(m, n, x, y, i);
            if i == x || i == y then
              JoinedUpTo(m, n, x, y, i + 1) == j && JoinedCacheUpTo(m, c, n, x, y, i + 1) == jc &&
              CurSum(m, n, x, y, i + 1) == s
            else
              var previous := j[i][x] + j[i][y];
              var current := 0.5 * (previous - m[x][y]);
              var j1 := j[x := j[x][i := current]];
              JoinedUpTo(m, n, x, y, i + 1) == j1[i := j1[i][x := current]] &&
              JoinedCacheUpTo(m, c, n, x, y, i + 1) == jc[i := jc[i] + (current - previous)] &&
              CurSum(m, n, x, y, i + 1) == s + current
  {
    JoinedUpToStep(m, n, x, y, i);
    JoinedCacheUpToStep(m, c, n, x, y, i);
  }

  /** The parent's row adds up to its new distances plus the two cells it
      keeps from `x`. */
  lemma {:induction false} JoinedParentPrefix(m: seq<seq<real>>, n: nat, x: nat, y: nat, i: nat)
    requires Square(m, n) && x < n && y < n && x != y && i <= n
    ensures Sum(Joined(m, n, x, y)[x][..i]) ==
            CurSum(m, n, x, y, i) + (if x < i then m[x][x] else 0.0) + (if y < i then m[x][y] else 0.0)
  {
    var row := Joined(m, n, x, y)[x];
    if i > 0 {
      JoinedParentPrefix(m, n, x, y, i - 1);
      assert row[..i][..i - 1] == row[..i - 1];
    }
  }

  /** The join keeps the matrix symmetric, and leaves the cache holding every
      OTU's total divergence without its distance to `y`, which is about to
      be removed; the parent's entry is the sum of its new distances. */
  lemma JoinedKeepsCache(m: seq<seq<real>>, c: seq<real>, n: nat, x: nat, y: nat)
    requires Square(m, n) && Symmetric(m, n) && CacheIsRowSums(m, c, n)
    requires x < n && y < n && x != y
    ensures Symmetric(Joined(m, n, x, y), n)
    ensures CacheExcludes(Joined(m, n, x, y), JoinedCache(m, c, n, x, y), n, y)
  {
    var j := Joined(m, n, x, y);
    var jc := JoinedCache(m, c, n, x, y);
    forall a | 0 <= a < n && a != y ensures jc[a] == RowSum(j, n, a) - j[a][y] {
      if a == x {
        JoinedParentPrefix(m, n, x, y, n);
        assert j[x][..n] == j[x];
      } else {
        assert j[a] == m[a][x := Cur(m, n, x, y, a)];
        SumUpdate(m[a], x, Cur(m, n, x, y, a));
      }
    }
  }

  /** A symmetric `n x n` distance matrix with its cache of total divergences. */
  ghost predicate Distances(m: seq<seq<real>>, cache: seq<real>, n: nat)
  {
    Square(m, n) && Symmetric(m, n) && CacheIsRowSums(m, cache, n)
  }

  /** Joining `x` and `y` and then removing `y` through position `r` leaves
      a symmetric matrix one OTU smaller whose cache holds every remaining
      OTU's total divergence. */
  lemma JoinKeepsValid(m: seq<seq<real>>, c: seq<real>, n: nat, x: nat, y: nat, r: nat,
                       shrunk: seq<seq<real>>, shrunkCache: seq<real>, remaining: nat)
    requires Square(m, n) && Symmetric(m, n) && CacheIsRowSums(m, c, n)
    requires x < n && y < n && x != y && r < n && remaining == n - 1
    requires shrunk == RemoveRowCol(SwapRowCol(Joined(m, n, x, y), n, y, r), n, r)
    requires shrunkCache == Delete(Swap(JoinedCache(m, c, n, x, y), y, r), r)
    ensures Distances(shrunk, shrunkCache, remaining)
  {
    var j, jc := Joined(m, n, x, y), JoinedCache(m, c, n, x, y);
    JoinedKeepsCache(m, c, n, x, y);
    SwapRowColSymmetric(j, n, y, r);
    SwapRowColExcludes(j, n, y, r, jc, y);
    RemoveRowColSums(SwapRowCol(j, n, y, r), n, r, Swap(jc, y, r));
  }

  /** `join_pair` as written reads `matrix[{x, y}]` on every step of its
      loop, but the step for `i == y` has already overwritten that cell.
      This is one step of that loop. */
  function JoinStepAsWritten(m: seq<seq<real>>, n: nat, x: nat, y: nat, i: nat): (r: seq<seq<real>>)
    requires Square(m, n) && x < n && y < n && i < n
    ensures Square(r, n)
  {
    var previous := m[i][x] + m[i][y];
    var current := 0.5 * (previous - m[x][y]);
    var m1 := m[x := m[x][i := current]];
    m1[i := m1[i][x := current]]
  }

  /** The matrix as written after the loop has passed the OTUs below `i`. */
  function JoinedAsWritten(m: seq<seq<real>>, n: nat, x: nat, y: nat, i: nat): (r: seq<seq<real>>)
    requires Square(m, n) && x < n && y < n && i <= n
    ensures Square(r, n)
  {
    if i == 0 then m else JoinStepAsWritten(JoinedAsWritten(m, n, x, y, i - 1), n, x, y, i - 1)
  }

  /** With four OTUs, `d(0, 1) = 2` and `d(2, 0) = d(2, 1) = 3`, joining
      `x = 1` and `y = 0` (the pick always has `y < x`) must put the parent
      at distance `(3 + 3 - 2) / 2 = 2` from OTU 2; the loop as written
      subtracts the already overwritten `d(x, y) = 0` and gives 3. */
  lemma JoinPairOverwrites()
    ensures var m := [[0.0, 2.0, 3.0, 3.0], [2.0, 0.0, 3.0, 3.0], [3.0, 3.0, 0.0, 4.0], [3.0, 3.0, 4.0, 0.0]];
            Square(m, 4) && Symmetric(m, 4) &&
            JoinedAsWritten(m, 4, 1, 0, 4)[2][1] == 3.0 && Joined(m, 4, 1, 0)[2][1] == 2.0
  {
    var m := [[0.0, 2.0, 3.0, 3.0], [2.0, 0.0, 3.0, 3.0], [3.0, 3.0, 0.0, 4.0], [3.0, 3.0, 4.0, 0.0]];
    assert Square(m, 4);
    var m1 := JoinedAsWritten(m, 4, 1, 0, 1);
    assert JoinedAsWritten(m, 4, 1, 0, 0) == m;
    assert m1[1][0] == 0.0 && m1[2] == m[2] && m1[1][1] == 0.0;
    var m2 := JoinedAsWritten(m, 4, 1, 0, 2);
    assert m2[1][0] == 0.0 && m2[2] == m[2];
    var m3 := JoinedAsWritten(m, 4, 1, 0, 3);
    assert m3[2][1] == 3.0 && m3[1][2] == 3.0;
    var m4 := JoinedAsWritten(m, 4, 1, 0, 4);
    assert m4[2] == m3[2];
  }

  /** The corrected loop skips the steps `i == x` and `i == y`. With `d(x, y)`
      read once, those two steps would write `d(x, x) / 2` into `(x, x)` and
      `d(y, y) / 2` into `(x, y)`, and add both to the parent's sum; the cache
      entries they touch are overwritten (`x`) or removed (`y`) afterwards.
      So skipping them changes nothing exactly when the diagonal at `x` and
      `y` is zero, which the model takes a distance matrix to have. */
  lemma SkippedJoinSteps(m: seq<seq<real>>, n: nat, x: nat, y: nat)
    requires Square(m, n) && Symmetric(m, n) && x < n && y < n
    ensures Cur(m, n, x, y, x) == 0.5 * m[x][x] && Cur(m, n, x, y, y) == 0.5 * m[y][y]
    ensures Cur(m, n, x, y, x) == 0.0 && Cur(m, n, x, y, y) == 0.0 <==> m[x][x] == 0.0 && m[y][y] == 0.0
  {
    assert m[y][x] == m[x][y];
  }

  /** Two distinct positions of a sequence hold two of its elements. */
  lemma PairInMultiset(refs: seq<nat>, x: nat, y: nat)
    requires x < |refs| && y < |refs| && x != y
    ensures multiset{refs[x], refs[y]} <= multiset(refs)
  {
    var rest := Delete(refs, x);
    MultisetDelete(refs, x);
    var y' := if y < x then y else y - 1;
    DeleteAt(refs, x, y');
    assert rest[y'] == refs[y];
    assert refs[y] in multiset(rest);
  }

  /** Replacing one copy of `a` by `p` and then dropping one copy of `b`
      takes the pair out and puts `p` in. */
  lemma ReplaceThenDrop(refs: multiset<nat>, a: nat, b: nat, p: nat)
    requires multiset{a, b} <= refs
    ensures refs - multiset{a} + multiset{p} - multiset{b} == refs - multiset{a, b} + multiset{p}
  {
    forall v ensures (refs - multiset{a} + multiset{p} - multiset{b})[v] == (refs - multiset{a, b} + multiset{p})[v] {
      assert multiset{a, b}[v] <= refs[v];
    }
  }

  /** Replacing `x` by its parent and removing `y` swaps two references for one. */
  lemma JoinedMap(refs: seq<nat>, x: nat, y: nat, parent: nat, r: nat)
    requires x < |refs| && y < |refs| && r < |refs| && x != y
    ensures multiset(Delete(Swap(refs[x := parent], y, r), r)) ==
            multiset(refs) - multiset{refs[x], refs[y]} + multiset{parent}
  {
    var s1 := refs[x := parent];
    var s2 := Swap(s1, y, r);
    PairInMultiset(refs, x, y);
    MultisetUpdate(refs, x, parent);
    MultisetSwap(s1, y, r);
    MultisetDelete(s2, r);
    assert s2[r] == refs[y];
    ReplaceThenDrop(multiset(refs), refs[x], refs[y], parent);
  }

  /** No reference appears twice. */
  predicate Distinct(refs: seq<nat>)
  {
    forall a, b :: 0 <= a < b < |refs| ==> refs[a] != refs[b]
  }

  /** Every reference is below `bound`: the next parent is new. */
  predicate Below(refs: seq<nat>, bound: nat)
  {
    forall a :: 0 <= a < |refs| ==> refs[a] < bound
  }

  /** When the map holds distinct references below the next parent's, so does
      the map after a join, with the bound moved on by one. */
  lemma JoinedMapFresh(refs: seq<nat>, x: nat, y: nat, parent: nat, r: nat)
    requires x < |refs| && y < |refs| && r < |refs| && x != y
    requires Distinct(refs) && Below(refs, parent)
    ensures var after := Delete(Swap(refs[x := parent], y, r), r);
            Distinct(after) && Below(after, parent + 1)
  {
    var s1 := refs[x := parent];
    assert Distinct(s1) by {
      forall a, b | 0 <= a < b < |s1| ensures s1[a] != s1[b] {
        if a == x {
          assert s1[b] == refs[b] < parent;
        } else if b == x {
          assert s1[a] == refs[a] < parent;
        }
      }
    }
    var s2 := Swap(s1, y, r);
    assert Distinct(s2) by {
      forall a, b | 0 <= a < b < |s2| ensures s2[a] != s2[b] {
        var a', b' := Swapped(a, y, r), Swapped(b, y, r);
        assert a' != b';
        if a' < b' {
          assert s1[a'] != s1[b'];
        } else {
          assert s1[b'] != s1[a'];
        }
      }
    }
    var after := Delete(s2, r);
    forall a, b | 0 <= a < b < |after| ensures after[a] != after[b] {
      DeleteAt(s2, r, a);
      DeleteAt(s2, r, b);
    }
    forall a | 0 <= a < |after| ensures after[a] < parent + 1 {
      DeleteAt(s2, r, a);
      assert s1[Swapped(Skip(a, r), y, r)] <= parent;
    }
  }

  /** Once the walk along row `i` stops with pairs left, the next pair is
      the first of row `i + 1`. */
  lemma NextRow(offset: nat, c: nat, c': nat, total: nat, i: nat, j: nat, j': nat)
    requires offset + c == Utils.NChoose(i) + j && c' - c == j' - j
    requires c' == total || j' == i
    ensures c' < total ==> offset + c' == Utils.NChoose(i + 1) + 0
  {
    Utils.NChooseStep(i);
  }

  /** The inner loop of `pick_joinable`: walks row `i` from column `j` on
      while pairs of the partition remain (`c < total`), offering each pair
      to the held candidate. It stops at the end of the row or of the
      partition, having walked exactly the pairs `Scan` walks. */
  method PickInRow(m: seq<seq<real>>, cache: seq<real>, n: nat, chosen: Option<Candidate>, i: nat, j: nat, c: nat, total: nat)
    returns (chosen': Option<Candidate>, c': nat, j': nat)
    requires Square(m, n) && |cache| == n && n >= 2 && j <= i && c <= total
    requires Utils.NChoose(i) + j + (total - c) <= Utils.NChoose(n)
    ensures c <= c' <= total && j <= j' <= i && c' - c == j' - j
    ensures c' == total || j' == i
    ensures Scan(m, cache, n, chosen', i, j', total - c') == Scan(m, cache, n, chosen, i, j, total - c)
  {
    chosen', c', j' := chosen, c, j;
    while c' < total && j' < i
      invariant c <= c' <= total && j <= j' <= i && c' - c == j' - j
      invariant Scan(m, cache, n, chosen', i, j', total - c') == Scan(m, cache, n, chosen, i, j, total - c)
      decreases total - c'
    {
      RowBelow(i, Utils.NChoose(i) + j', n);
      var distance := QTransform(m, cache, n, i, j');
      ScanPicks(m, cache, n, chosen', i, j', total - c');
      if chosen'.None? || distance > chosen'.value.distance {
        chosen' := Some(Candidate(i, j', distance));
      }
      c' := c' + 1;
      j' := j' + 1;
    }
  }

  /** Dropping the first or the last element, as `swap_remove` shrinks the
      map and the cache, is deleting that element. */
  lemma ShrinkDeletes<T>(s: seq<T>, k: nat, shift: nat)
    requires k < |s| && (k == 0 || k == |s| - 1) && shift == (if k == 0 then 1 else 0)
    ensures s[shift..shift + |s| - 1] == Delete(s, k)
  {
    if k == 0 {
      assert s[..k] == [];
    } else {
      assert s[k + 1..] == [];
    }
  }

  /** The neighbor-joining state: `map` gives the OTU reference at each
      matrix position, `cache` each OTU's total divergence, and `count` the
      OTUs still in the star tree. `symmetric` records which transform the
      distance matrix is stored with, which decides where `update_cache`
      removes. */
  class State {
    var refs: seq<nat>
    var cache: seq<real>
    var matrix: seq<seq<real>>
    var count: nat
    const symmetric: bool

    /** The matrix is a symmetric `count x count` matrix and the cache holds
        every OTU's total divergence. */
    ghost predicate Valid()
      reads this
    {
      |refs| == count && Distances(matrix, cache, count)
    }

    /** `initialize`: copies the pairwise distance matrix, builds the cache
        and maps every position to the OTU of the same number. `count - 1`
        is unsigned in the source, so it needs at least one OTU. */
    constructor Initialize(dist: seq<seq<real>>, count: nat, symmetric: bool)
      requires count >= 1 && Square(dist, count) && Symmetric(dist, count)
      ensures Valid() && matrix == dist && this.count == count && this.symmetric == symmetric
      ensures refs == Iota(count)
    {
      matrix := dist;
      refs := seq(count, _ => 0);
      this.count := count;
      this.symmetric := symmetric;
      cache := seq(count, _ => 0.0);
      new;
      CacheInit();
      var i := 0;
      while i < count
        invariant 0 <= i <= count && |refs| == count
        invariant forall k :: 0 <= k < i ==> refs[k] == k
        invariant matrix == dist && this.count == count && CacheIsRowSums(matrix, cache, count)
      {
        refs := refs[i := i];
        i := i + 1;
      }
    }

    /** The pair loop of `cache_init`: every distance above the diagonal is
        added to the entries of both its OTUs. */
    method AddPairSums()
      requires Square(matrix, count) && |cache| == count && count >= 1
      modifies this`cache
      ensures |cache| == count
      ensures forall k :: 0 <= k < count ==> cache[k] == old(cache[k]) + PairSum(matrix, count, k)
    {
      ghost var m, n, c0 := matrix, count, cache;
      AccStart(m, n, c0);
      var i := 0;
      while i < count - 1
        invariant 0 <= i <= n - 1 && |cache| == n
        invariant forall k :: 0 <= k < n ==> cache[k] == c0[k] + Acc(m, n, i, i + 1, k)
      {
        var j := i + 1;
        while j < count
          invariant i + 1 <= j <= n && |cache| == n
          invariant forall k :: 0 <= k < n ==> cache[k] == c0[k] + Acc(m, n, i, j, k)
        {
          var current := matrix[i][j];
          ghost var before := cache;
          cache := cache[i := cache[i] + current];
          ghost var mid := cache;
          cache := cache[j := cache[j] + current];
          AccUpdate(m, n, c0, before, mid, cache, i, j);
          j := j + 1;
        }
        AccNextRow(m, n, c0, cache, i);
        i := i + 1;
      }
      AccFinish(m, n, c0, cache);
    }

    /** `cache_init` as written: zeroes the entries below `count - 1` only. */
    method CacheInitAsWritten()
      requires Square(matrix, count) && |cache| == count && count >= 1
      modifies this`cache
      ensures cache == CacheAsWritten(old(cache), matrix, count)
    {
      var i := 0;
      while i < count - 1
        invariant 0 <= i <= count - 1 && |cache| == count
        invariant forall k :: 0 <= k < count ==> cache[k] == if k < i then 0.0 else old(cache[k])
      {
        cache := cache[i := 0.0];
        i := i + 1;
      }
      AddPairSums();
    }

    /** `cache_init` with every entry zeroed first: each entry becomes the
        OTU's total divergence. */
    method CacheInit()
      requires Square(matrix, count) && Symmetric(matrix, count) && |cache| == count && count >= 1
      modifies this`cache
      ensures CacheIsRowSums(matrix, cache, count)
    {
      var i := 0;
      while i < count
        invariant 0 <= i <= count && |cache| == count
        invariant forall k :: 0 <= k < i ==> cache[k] == 0.0
      {
        cache := cache[i := 0.0];
        i := i + 1;
      }
      AddPairSums();
      forall k | 0 <= k < count ensures cache[k] == RowSum(matrix, count, k) {
        PairSumIsRowSum(matrix, count, k);
      }
    }

    /** `pick_joinable` over the partition of `total` pairs starting at
        `offset`: walks the pairs in enumeration order and keeps the first one
        whose Q-value is strictly greater than the one held. An empty
        partition leaves the default candidate, which is not modelled. */
    method PickJoinable(offset: nat, total: nat) returns (r: Option<NJoining.Joinable>)
      requires Square(matrix, count) && |cache| == count && count > 2
      requires offset + total <= Utils.NChoose(count)
      ensures r.Some? <==> total > 0
      ensures r == Raised(matrix, cache, count, Best(matrix, cache, count, offset, total))
    {
      var m, cc, n := matrix, cache, count;
      var chosen: Option<Candidate> := None;
      var i := Utils.A002024(offset + 1);
      Utils.NChooseStep(i);
      var j: nat := offset - Utils.NChoose(i);
      ghost var i0, j0 := i, j;
      var c := 0;
      while c < total
        invariant c <= total && i >= 1
        invariant c < total ==> offset + c == Utils.NChoose(i) + j && j < i
        invariant Scan(m, cc, n, chosen, i, j, total - c) == Scan(m, cc, n, None, i0, j0, total)
        decreases total - c
      {
        ghost var cBefore, jBefore := c, j;
        chosen, c, j := PickInRow(m, cc, n, chosen, i, j, c, total);
        NextRow(offset, cBefore, c, total, i, jBefore, j);
        if c < total {
          ScanRowEnd(m, cc, n, chosen, i, j, total - c);
        }
        i := i + 1;
        j := 0;
      }
      ScanIsBest(m, cc, n, offset, 0, total, i0, j0);
      BestHeld(m, cc, n, offset, total);
      if chosen.None? {
        r := None;
      } else {
        r := Some(RaiseCandidate(m, cc, n, chosen.value));
      }
    }

    /** `swap_remove(keep, remove)`: exchanges the two OTUs in the cache, the
        matrix and the map, then drops the one now at `remove`. The map and
        the cache are shrunk by moving their start one element on when
        `remove` is 0 and by cutting their last element otherwise, so
        `remove` must be the first or the last position. */
    method SwapRemove(keep: nat, remove: nat)
      requires Square(matrix, count) && |refs| == count && |cache| == count
      requires keep < count && remove < count && (remove == 0 || remove == count - 1)
      modifies this`refs, this`cache, this`matrix
      ensures matrix == RemoveRowCol(SwapRowCol(old(matrix), count, keep, remove), count, remove)
      ensures cache == Delete(Swap(old(cache), keep, remove), remove)
      ensures refs == Delete(Swap(old(refs), keep, remove), remove)
    {
      cache := Swap(cache, keep, remove);
      matrix := SwapRowCol(matrix, count, keep, remove);
      matrix := RemoveRowCol(matrix, count, remove);
      var shift := if remove == 0 then 1 else 0;
      refs := Swap(refs, keep, remove);
      ShrinkDeletes(refs, remove, shift);
      ShrinkDeletes(cache, remove, shift);
      refs := refs[shift..shift + count - 1];
      cache := cache[shift..shift + count - 1];
    }

    /** `update_cache(x)`: removes OTU `x` from the star tree through the
        cheapest position of the matrix's layout. */
    method UpdateCache(x: nat)
      requires Square(matrix, count) && |refs| == count && |cache| == count && x < count
      modifies this`refs, this`cache, this`matrix
      ensures matrix == RemoveRowCol(SwapRowCol(old(matrix), count, x, Removed(symmetric, count)), count, Removed(symmetric, count))
      ensures cache == Delete(Swap(old(cache), x, Removed(symmetric, count)), Removed(symmetric, count))
      ensures refs == Delete(Swap(old(refs), x, Removed(symmetric, count)), Removed(symmetric, count))
    {
      if symmetric {
        SwapRemove(x, 0);
      } else {
        SwapRemove(x, count - 1);
      }
    }

    /** The loop of `join_pair`, with `d(x, y)` read once before it and the
        rows of `x` and `y` themselves skipped: row and column `x` take the
        distances to the parent, each other OTU's cache entry trades its
        distances to `x` and `y` for its distance to the parent, and the
        parent's distances are summed. */
    method UpdateDistances(x: nat, y: nat) returns (newSum: real)
      requires Square(matrix, count) && |cache| == count && x < count && y < count && x != y
      modifies this`matrix, this`cache
      ensures matrix == Joined(old(matrix), count, x, y)
      ensures cache == JoinedCacheUpTo(old(matrix), old(cache), count, x, y, count)
      ensures newSum == CurSum(old(matrix), count, x, y, count)
    {
      var n, m, c := count, matrix, cache;
      ghost var m0, c0 := m, c;
      JoinedUpToStart(m0, n, x, y);
      JoinedCacheUpToStep(m0, c0, n, x, y, 0);
      var dxy := m[x][y];
      newSum := 0.0;
      var i := 0;
      while i < n
        invariant 0 <= i <= n
        invariant m == JoinedUpTo(m0, n, x, y, i)
        invariant c == JoinedCacheUpTo(m0, c0, n, x, y, i)
        invariant newSum == CurSum(m0, n, x, y, i)
      {
        JoinLoopStep(m0, c0, n, x, y, i);
        if i != x && i != y {
          var previous := m[i][x] + m[i][y];
          var current := 0.5 * (previous - dxy);
          m := m[x := m[x][i := current]];
          m := m[i := m[i][x := current]];
          c := c[i := c[i] + (current - previous)];
          newSum := newSum + current;
        }
        i := i + 1;
      }
      matrix, cache := m, c;
    }

    /** `join_pair`: records the join in the tree, replaces `x` by its
        parent at distance `(d(i, x) + d(i, y) - d(x, y)) / 2` from every other
        OTU `i`, keeps the cache in step, and removes `y`. The state stays
        valid: the matrix symmetric, the cache the total divergences. */
    method JoinPair(tree: Star, parent: nat, join: NJoining.Joinable)
      requires Valid() && count >= 2
      requires join.x < count && join.y < count && join.x != join.y
      modifies this`refs, this`cache, this`matrix, this`count, tree
      ensures Valid() && count == old(count) - 1
      ensures tree.joins == old(tree.joins) + [Node(parent, Branch(old(refs)[join.x], join.dx), Branch(old(refs)[join.y], join.dy))]
      ensures matrix == RemoveRowCol(SwapRowCol(Joined(old(matrix), old(count), join.x, join.y), old(count), join.y,
                                                Removed(symmetric, old(count))), old(count), Removed(symmetric, old(count)))
      ensures refs == Delete(Swap(old(refs)[join.x := parent], join.y, Removed(symmetric, old(count))), Removed(symmetric, old(count)))
      ensures multiset(refs) == multiset(old(refs)) - multiset{old(refs)[join.x], old(refs)[join.y]} + multiset{parent}
    {
      var x, y := join.x, join.y;
      tree.Join(parent, Branch(refs[x], join.dx), Branch(refs[y], join.dy));
      ghost var m0, c0, refs0, n := matrix, cache, refs, count;
      ghost var r := Removed(symmetric, n);
      ghost var j, jc := Joined(m0, n, x, y), JoinedCache(m0, c0, n, x, y);
      var newSum := UpdateDistances(x, y);
      cache := cache[x := newSum];
      assert matrix == j && cache == jc;
      refs := refs[x := parent];
      JoinedMap(refs0, x, y, parent, r);
      UpdateCache(y);
      count := count - 1;
      JoinKeepsValid(m0, c0, n, x, y, r, matrix, cache, count);
    }
  }

  // ----- build_tree, as a specification -----

  /** Every OTU's total divergence: the cache a valid state holds. */
  function RowSums(m: seq<seq<real>>, n: nat): (r: seq<real>)
    requires Square(m, n)
    ensures CacheIsRowSums(m, r, n)
  {
    seq(n, i requires 0 <= i < n => RowSum(m, n, i))
  }

  /** A cache of total divergences is the one `RowSums` gives. */
  lemma RowSumsUnique(m: seq<seq<real>>, cache: seq<real>, n: nat)
    requires Square(m, n) && CacheIsRowSums(m, cache, n)
    ensures cache == RowSums(m, n)
  {
  }

  /** The join a round of `build_tree` makes: `pick_joinable` over every
      pair of the matrix, raised by `raise_candidate`. */
  function BestJoin(m: seq<seq<real>>, n: nat): (b: NJoining.Joinable)
    requires Square(m, n) && n > 3
    ensures b.y < b.x < n
  {
    var c := RowSums(m, n);
    Utils.NChooseStep(1);
    Utils.NChooseMonotonic(2, n);
    BestHeld(m, c, n, 0, Utils.NChoose(n));
    Raised(m, c, n, Best(m, c, n, 0, Utils.NChoose(n))).value
  }

  /** The pair a round joins has the largest Q-value of all the pairs, and
      the score it carries is its own Q-value. */
  lemma BestJoinIsMaximum(m: seq<seq<real>>, n: nat)
    requires Square(m, n) && n > 3
    ensures var b := BestJoin(m, n);
            b.distance == QTransform(m, RowSums(m, n), n, b.x, b.y) &&
            forall i, j :: 0 <= j < i < n ==> QTransform(m, RowSums(m, n), n, i, j) <= b.distance
  {
    var c, total := RowSums(m, n), Utils.NChoose(n);
    Utils.NChooseStep(1);
    Utils.NChooseMonotonic(2, n);
    BestIsFirst(m, c, n, 0, total);
    BestIsMaximum(m, c, n, 0, total);
    forall i, j | 0 <= j < i < n ensures QTransform(m, c, n, i, j) <= BestJoin(m, n).distance {
      PairEnumeration(n, i, j);
      assert CandidateAt(m, c, n, Utils.NChoose(i) + j).distance == QTransform(m, c, n, i, j);
    }
  }

  /** The matrix after a round: the join loop, then `update_cache`. */
  function NextMatrix(m: seq<seq<real>>, n: nat, symmetric: bool, b: NJoining.Joinable): (r: seq<seq<real>>)
    requires Square(m, n) && b.x < n && b.y < n
    ensures Square(r, n - 1)
  {
    var k := Removed(symmetric, n);
    RemoveRowCol(SwapRowCol(Joined(m, n, b.x, b.y), n, b.y, k), n, k)
  }

  /** The map after a round: `x` now stands for the parent, `y` is removed. */
  function NextRefs(refs: seq<nat>, n: nat, symmetric: bool, b: NJoining.Joinable, parent: nat): (r: seq<nat>)
    requires |refs| == n && b.x < n && b.y < n
    ensures |r| == n - 1
  {
    var k := Removed(symmetric, n);
    Delete(Swap(refs[b.x := parent], b.y, k), k)
  }

  /** A phase of `build_tree`: the distance matrix of the `count` OTUs
      left and the map from its positions to OTU references. */
  datatype Phase = Phase(matrix: seq<seq<real>>, refs: seq<nat>, count: nat)

  /** The matrix is `count x count` and the map has one reference per OTU. */
  predicate Fits(p: Phase)
  {
    Square(p.matrix, p.count) && |p.refs| == p.count
  }

  /** One round: the join recorded and the phase that follows. */
  datatype Round = Round(node: Node, next: Phase)

  /** A round of `build_tree` on a phase with more than three OTUs: the best
      pair is joined under `parent` with its branch lengths, and the next
      phase has the joined matrix and map, one OTU smaller. */
  function NextRound(p: Phase, symmetric: bool, parent: nat): (r: Round)
    requires Fits(p) && p.count > 3
    ensures Fits(r.next) && r.next.count == p.count - 1 && r.node.parent == parent
  {
    var b := BestJoin(p.matrix, p.count);
    Round(Node(parent, Branch(p.refs[b.x], b.dx), Branch(p.refs[b.y], b.dy)),
          Phase(NextMatrix(p.matrix, p.count, symmetric, b), NextRefs(p.refs, p.count, symmetric, b, parent), p.count - 1))
  }

  /** One round as a step on phases: the round of a phase with more than
      three OTUs. A smaller phase makes no join; it is kept, under a
      placeholder node that no iteration within the round count reaches. */
  function Step(symmetric: bool): (Phase, nat) -> Round
  {
    (q: Phase, parent: nat) =>
      if Fits(q) && q.count > 3 then NextRound(q, symmetric, parent)
      else Round(Node(parent, Branch(0, 0.0), Branch(0, 0.0)), q)
  }

  /** The phase `k` steps from `p`, the first step numbered `parent`. */
  function Iterate(step: (Phase, nat) -> Round, p: Phase, parent: nat, k: nat): Phase
    decreases k
  {
    if k == 0 then p else Iterate(step, step(p, parent).next, parent + 1, k - 1)
  }

  /** The nodes the first `k` steps from `p` make, in order. */
  function Trace(step: (Phase, nat) -> Round, p: Phase, parent: nat, k: nat): (r: seq<Node>)
    ensures |r| == k
    decreases k
  {
    if k == 0 then [] else [step(p, parent).node] + Trace(step, step(p, parent).next, parent + 1, k - 1)
  }

  /** Step `k` starts where `k` steps end and ends where `k + 1` steps end. */
  lemma {:induction false} IterateStep(step: (Phase, nat) -> Round, p: Phase, parent: nat, k: nat, k': nat, next: nat)
    requires k' == k + 1 && next == parent + k
    ensures Iterate(step, p, parent, k') == step(Iterate(step, p, parent, k), next).next
    decreases k
  {
    if k > 0 {
      IterateStep(step, step(p, parent).next, parent + 1, k - 1, k' - 1, next);
    }
  }

  /** Node `k` of a trace is made by step `k`, numbered `next`. */
  lemma {:induction false} TraceAt(step: (Phase, nat) -> Round, p: Phase, parent: nat, n: nat, k: nat, next: nat)
    requires k < n && next == parent + k
    ensures Trace(step, p, parent, n)[k] == step(Iterate(step, p, parent, k), next).node
    decreases k
  {
    if k > 0 {
      TraceAt(step, step(p, parent).next, parent + 1, n - 1, k - 1, next);
    }
  }

  /** Rounds keep a phase fitting and remove one OTU each. */
  lemma {:induction false} StepFits(p: Phase, symmetric: bool, parent: nat, k: nat)
    requires Fits(p) && k <= p.count - Utils.Min(p.count, 3)
    ensures var r := Iterate(Step(symmetric), p, parent, k); Fits(r) && r.count == p.count - k
    decreases k
  {
    if k > 0 {
      StepFits(NextRound(p, symmetric, parent).next, symmetric, parent + 1, k - 1);
    }
  }

  /** The phase after the first `k` rounds from `p`, whose first join is
      numbered `parent`. */
  function After(p: Phase, symmetric: bool, parent: nat, k: nat): (r: Phase)
    requires Fits(p) && k <= p.count - Utils.Min(p.count, 3)
    ensures Fits(r) && r.count == p.count - k
  {
    StepFits(p, symmetric, parent, k);
    Iterate(Step(symmetric), p, parent, k)
  }

  /** The joins `build_tree` records from a phase, numbering parents from
      `parent`: one per round, while more than three OTUs are left. */
  function Joins(p: Phase, symmetric: bool, parent: nat): (r: seq<Node>)
    requires Fits(p)
    ensures |r| == p.count - Utils.Min(p.count, 3)
  {
    Trace(Step(symmetric), p, parent, p.count - Utils.Min(p.count, 3))
  }

  /** Round `k` from `p` goes from the phase after `k` rounds to the phase
      after `k + 1`; its join is numbered `next`. */
  lemma AfterStep(p: Phase, symmetric: bool, parent: nat, k: nat, k': nat, next: nat)
    requires Fits(p) && k < p.count - Utils.Min(p.count, 3) && k' == k + 1 && next == parent + k
    ensures After(p, symmetric, parent, k') == NextRound(After(p, symmetric, parent, k), symmetric, next).next
  {
    IterateStep(Step(symmetric), p, parent, k, k', next);
  }

  /** Join `k` from `p` is the join round `k` makes on the phase after `k`
      rounds, numbered `next`. */
  lemma JoinsAt(p: Phase, symmetric: bool, parent: nat, k: nat, next: nat)
    requires Fits(p) && k < p.count - Utils.Min(p.count, 3) && next == parent + k
    ensures Joins(p, symmetric, parent)[k] == NextRound(After(p, symmetric, parent, k), symmetric, next).node
  {
    var q := After(p, symmetric, parent, k);
    TraceAt(Step(symmetric), p, parent, p.count - Utils.Min(p.count, 3), k, next);
    StepRound(q, symmetric, next);
  }

  /** On a phase with more than three OTUs, `Step` is the round itself. */
  lemma StepRound(q: Phase, symmetric: bool, next: nat)
    requires Fits(q) && q.count > 3
    ensures Step(symmetric)(q, next) == NextRound(q, symmetric, next)
  {
  }

  /** Join `k` of `build_tree` hangs its OTUs from parent `parent + k`. */
  lemma JoinsParent(p: Phase, symmetric: bool, parent: nat, k: nat)
    requires Fits(p) && k < |Joins(p, symmetric, parent)|
    ensures Joins(p, symmetric, parent)[k].parent == parent + k
  {
    JoinsAt(p, symmetric, parent, k, parent + k);
  }

  /** `build_tree` has replayed the first rounds from `p`: `joins` are
      their joins and `cur` is the phase they leave. */
  ghost predicate Replayed(p: Phase, symmetric: bool, parent: nat, joins: seq<Node>, cur: Phase)
  {
    Fits(p) && |joins| <= p.count - Utils.Min(p.count, 3) &&
    joins == Joins(p, symmetric, parent)[..|joins|] && After(p, symmetric, parent, |joins|) == cur
  }

  /** One more round from the phase left records the next join and leaves
      the next phase. */
  lemma ReplayedStep(p: Phase, symmetric: bool, parent: nat, joins: seq<Node>, cur: Phase, next: nat,
                     joins': seq<Node>, cur': Phase)
    requires Replayed(p, symmetric, parent, joins, cur) && cur.count > 3 && next == parent + |joins|
    requires joins' == joins + [NextRound(cur, symmetric, next).node] && cur' == NextRound(cur, symmetric, next).next
    ensures Replayed(p, symmetric, parent, joins', cur')
  {
    AfterStep(p, symmetric, parent, |joins|, |joins'|, next);
    JoinsAt(p, symmetric, parent, |joins|, next);
    PrefixStep(Joins(p, symmetric, parent), joins, NextRound(cur, symmetric, next).node, joins');
  }

  /** A prefix followed by the next element is the next prefix. */
  lemma PrefixStep<T>(all: seq<T>, done: seq<T>, x: T, done': seq<T>)
    requires |done| < |all| && done == all[..|done|] && x == all[|done|] && done' == done + [x]
    ensures |done'| <= |all| && done' == all[..|done'|]
  {
    assert all[..|done'|] == all[..|done|] + [all[|done|]];
  }

  /** One pass of the `build_tree` loop: picks the best pair of the whole
      matrix, agrees on it through `reduce` and joins it under `parent`. The
      two OTUs hung are distinct references taken from the map. */
  method JoinBest(s: State, tree: Star, parent: nat)
    requires s.Valid() && s.count > 3 && Distinct(s.refs) && Below(s.refs, parent)
    modifies s, tree
    ensures s.Valid() && s.count == old(s.count) - 1 && Distinct(s.refs) && Below(s.refs, parent + 1)
    ensures var r := NextRound(Phase(old(s.matrix), old(s.refs), old(s.count)), s.symmetric, parent);
            tree.joins == old(tree.joins) + [r.node] && Phase(s.matrix, s.refs, s.count) == r.next &&
            r.node.parent == parent && r.node.left.ref != r.node.right.ref &&
            multiset{r.node.left.ref, r.node.right.ref} <= multiset(old(s.refs)) &&
            multiset(s.refs) == multiset(old(s.refs)) - multiset{r.node.left.ref, r.node.right.ref} + multiset{parent}
  {
    var total := Utils.NChoose(s.count);
    Utils.NChooseStep(1);
    Utils.NChooseMonotonic(2, s.count);
    RowSumsUnique(s.matrix, s.cache, s.count);
    var pick := s.PickJoinable(0, total);
    assert pick.value == BestJoin(s.matrix, s.count);
    BestHeld(s.matrix, s.cache, s.count, 0, total);
    var vote := NJoining.Reduce(pick.value);
    ghost var joins0, refs1 := tree.joins, s.refs;
    PairInMultiset(refs1, vote.x, vote.y);
    JoinedMapFresh(refs1, vote.x, vote.y, parent, Removed(s.symmetric, s.count));
    s.JoinPair(tree, parent, vote);
    assert tree.joins[..|joins0|] == joins0;
  }

  /** `build_tree`: joins the best pair, as every node agrees through
      `reduce`, until three OTUs are left. Parents are numbered on from the
      initial count. Every OTU reference is at any time either still in the
      map or hung from exactly one parent, and each join hangs two distinct
      OTUs that already existed. */
  method BuildTree(s: State) returns (tree: Star)
    requires s.Valid() && Distinct(s.refs) && Below(s.refs, s.count)
    modifies s
    ensures fresh(tree) && tree.leaves == old(s.count) && s.Valid()
    ensures s.count == Utils.Min(old(s.count), 3) && |tree.joins| == old(s.count) - s.count
    ensures forall k :: 0 <= k < |tree.joins| ==> tree.joins[k].parent == old(s.count) + k
    ensures forall k :: 0 <= k < |tree.joins| ==> tree.joins[k].left.ref != tree.joins[k].right.ref
    ensures multiset(s.refs) + Children(tree.joins) == multiset(old(s.refs)) + Parents(old(s.count), |tree.joins|)
    ensures tree.joins == Joins(Phase(old(s.matrix), old(s.refs), old(s.count)), s.symmetric, old(s.count))
  {
    var parent := s.count;
    tree := new Star.Make(s.count);
    ghost var n0, refs0, m0 := s.count, s.refs, s.matrix;
    while s.count > 3
      invariant s.Valid() && fresh(tree) && tree.leaves == n0
      invariant s.count <= n0 && (s.count == n0 || s.count >= 3)
      invariant |tree.joins| == n0 - s.count && parent == n0 + |tree.joins|
      invariant Numbered(tree.joins, n0)
      invariant multiset(s.refs) + Children(tree.joins) == multiset(refs0) + Parents(n0, |tree.joins|)
      invariant Distinct(s.refs) && Below(s.refs, parent)
      invariant Replayed(Phase(m0, refs0, n0), s.symmetric, n0, tree.joins, Phase(s.matrix, s.refs, s.count))
      decreases s.count
    {
      ghost var joins0, refs1, p0, parent0 := tree.joins, s.refs, Phase(s.matrix, s.refs, s.count), parent;
      JoinBest(s, tree, parent);
      ghost var node := NextRound(p0, s.symmetric, parent0).node;
      JoinBookkeeping(multiset(refs1), multiset(s.refs), joins0, node, tree.joins, multiset(refs0), n0, parent);
      NumberedStep(joins0, node, tree.joins, n0);
      ReplayedStep(Phase(m0, refs0, n0), s.symmetric, n0, joins0, p0, parent0, tree.joins, Phase(s.matrix, s.refs, s.count));
      parent := parent + 1;
    }
    ghost var all := Joins(Phase(m0, refs0, n0), s.symmetric, n0);
    assert all[..|all|] == all;
  }

  /** Join `k` of a run numbers its parent `n0 + k` and hangs two different OTUs. */
  ghost predicate Numbered(joins: seq<Node>, n0: nat)
  {
    forall k :: 0 <= k < |joins| ==> joins[k].parent == n0 + k && joins[k].left.ref != joins[k].right.ref
  }

  /** A join numbered right after the others, hanging two different OTUs,
      keeps the numbering. */
  lemma NumberedStep(joins: seq<Node>, node: Node, joins': seq<Node>, n0: nat)
    requires Numbered(joins, n0) && joins' == joins + [node]
    requires node.parent == n0 + |joins| && node.left.ref != node.right.ref
    ensures Numbered(joins', n0)
  {
    forall k | 0 <= k < |joins'|
      ensures joins'[k].parent == n0 + k && joins'[k].left.ref != joins'[k].right.ref
    {
      if k < |joins| {
        assert joins'[k] == joins[k];
      }
    }
  }

  /** Recording one more join hangs its two OTUs. */
  lemma ChildrenAppend(joins: seq<Node>, node: Node)
    ensures Children(joins + [node]) == Children(joins) + multiset{node.left.ref, node.right.ref}
  {
    assert (joins + [node])[..|joins|] == joins;
  }

  /** One more parent is numbered right after the others. */
  lemma ParentsStep(first: nat, k: nat, next: nat)
    requires next == first + k
    ensures Parents(first, k + 1) == Parents(first, k) + multiset{next}
  {
  }

  /** One join keeps the account of references: the two children leave the
      map for the list of hung OTUs, and the new parent enters the map. */
  lemma JoinBookkeeping(refs: multiset<nat>, refs': multiset<nat>, joins: seq<Node>, node: Node,
                        joins': seq<Node>, refs0: multiset<nat>, n0: nat, parent: nat)
    requires multiset{node.left.ref, node.right.ref} <= refs
    requires refs' == refs - multiset{node.left.ref, node.right.ref} + multiset{parent}
    requires node.parent == parent && parent == n0 + |joins| && joins' == joins + [node]
    requires refs + Children(joins) == refs0 + Parents(n0, |joins|)
    ensures refs' + Children(joins') == refs0 + Parents(n0, |joins'|)
  {
    ChildrenAppend(joins, node);
    ParentsStep(n0, |joins|, node.parent);
    MoveToHung(refs, refs', Children(joins), Children(joins + [node]), refs0, Parents(n0, |joins|),
               Parents(n0, |joins| + 1), multiset{node.left.ref, node.right.ref}, node.parent);
  }

  /** The counting behind `JoinBookkeeping`: moving `pair` from the map to the
      hung OTUs and adding `p` to both the map and the parents keeps the two
      sides equal. */
  lemma MoveToHung(live: multiset<nat>, live': multiset<nat>, hung: multiset<nat>, hung': multiset<nat>,
                   start: multiset<nat>, made: multiset<nat>, made': multiset<nat>, pair: multiset<nat>, p: nat)
    requires pair <= live && live' == live - pair + multiset{p}
    requires hung' == hung + pair && made' == made + multiset{p}
    requires live + hung == start + made
    ensures live' + hung' == start + made'
  {
    forall v ensures (live' + hung')[v] == (start + made')[v] {
      assert pair[v] <= live[v];
      assert (live + hung)[v] == (start + made)[v];
    }
  }

  /** The guide tree `run` builds from a matrix: none below two OTUs,
      otherwise a star over them with every join of `build_tree`. */
  function Guide(dist: seq<seq<real>>, count: nat, symmetric: bool): (r: GuideTree)
    requires Square(dist, count)
  {
    if count < 2 then Empty else Tree(count, Joins(Phase(dist, Iota(count), count), symmetric, count))
  }

  /** `run`: fewer than two OTUs give the empty tree; otherwise the star tree
      built from the pairwise distance matrix. Every OTU is joined at most
      once, and only after it exists. */
  method Run(dist: seq<seq<real>>, count: nat, symmetric: bool) returns (r: GuideTree)
    requires Square(dist, count) && Symmetric(dist, count)
    ensures count < 2 <==> r == Empty
    ensures r.Tree? ==> r.leaves == count && |r.joins| == count - Utils.Min(count, 3)
    ensures r.Tree? ==> forall k :: 0 <= k < |r.joins| ==> r.joins[k].parent == count + k
    ensures r.Tree? ==> ChildrenKnown(r.joins, count)
    ensures r == Guide(dist, count, symmetric)
  {
    if count < 2 {
      return Empty;
    }
    var state := new State.Initialize(dist, count, symmetric);
    var tree := BuildTree(state);
    ChildrenBelow(state.refs, tree.joins, count);
    r := Tree(tree.leaves, tree.joins);
  }

  /** With the initial references accounted for, every child of a join is
      an OTU or an earlier parent. */
  lemma ChildrenBelow(refs: seq<nat>, joins: seq<Node>, n: nat)
    requires multiset(refs) + Children(joins) == multiset(Iota(n)) + Parents(n, |joins|)
    ensures ChildrenKnown(joins, n)
  {
    IotaParents(n, |joins|);
  }

  /** The references below `n + k` are the first `n` plus `k` parents. */
  lemma {:induction false} IotaParents(n: nat, k: nat)
    ensures multiset(Iota(n + k)) == multiset(Iota(n)) + Parents(n, k)
  {
    if k > 0 {
      IotaParents(n, k - 1);
      assert Iota(n + k) == Iota(n + k - 1) + [n + k - 1];
    }
  }
}
