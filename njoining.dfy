/** The candidate reduction of src/phylogeny/njoining/njoining.cpp: the
    operator that picks, of two join candidates, the one every compute node
    agrees to join, and the reduction built on it. */
module NJoining {

  /** `joinable`: a candidate pair of OTU references with its score (named
      `distance` in the source, it holds the pair's Q-value) and the branch
      lengths from each OTU to their future parent. */
  datatype Joinable = Joinable(x: nat, y: nat, distance: real, dx: real, dy: real)

  /** `closest(a, b)`: the candidate with the larger score; on equal scores,
      the second operand. */
  function Closest(a: Joinable, b: Joinable): (r: Joinable)
    ensures r == a || r == b
    ensures r.distance >= a.distance && r.distance >= b.distance
    ensures a.distance == b.distance ==> r == b
  {
    if a.distance > b.distance then a else b
  }

  /** Reducing a candidate with itself changes nothing. */
  lemma ClosestIdempotent(a: Joinable)
    ensures Closest(a, a) == a
  {
  }

  /** The grouping of a reduction does not matter. */
  lemma ClosestAssociative(a: Joinable, b: Joinable, c: Joinable)
    ensures Closest(Closest(a, b), c) == Closest(a, Closest(b, c))
  {
  }

  /** The order of the operands does not matter when their scores differ. */
  lemma ClosestCommutesOnDistinctScores(a: Joinable, b: Joinable)
    requires a.distance != b.distance
    ensures Closest(a, b) == Closest(b, a)
  {
  }

  /** On equal scores the order does matter: two different candidates with
      the same score are each chosen when given second. */
  lemma ClosestNotCommutativeOnTies()
    ensures var a, b := Joinable(1, 0, 2.0, 0.0, 0.0), Joinable(2, 0, 2.0, 0.0, 0.0);
            Closest(a, b) == b && Closest(b, a) == a && a != b
  {
  }

  /** `algorithm::reduce` in a single-process build: the local candidate is
      the global one. */
  function Reduce(candidate: Joinable): (r: Joinable)
    ensures r == candidate
  {
    candidate
  }

  /** The all-reduce across compute nodes, folding `closest` over the nodes'
      candidates in rank order. */
  function ReduceAll(votes: seq<Joinable>): Joinable
    requires |votes| >= 1
  {
    if |votes| == 1 then votes[0] else Closest(ReduceAll(votes[..|votes| - 1]), votes[|votes| - 1])
  }

  /** The position of the last candidate holding the largest score. */
  function LastBest(votes: seq<Joinable>): (m: nat)
    requires |votes| >= 1
    ensures m < |votes|
    ensures forall k :: 0 <= k < |votes| ==> votes[k].distance <= votes[m].distance
    ensures forall k :: m < k < |votes| ==> votes[k].distance < votes[m].distance
  {
    if |votes| == 1 then 0
    else
      var m := LastBest(votes[..|votes| - 1]);
      assert forall k :: 0 <= k < |votes| - 1 ==> votes[..|votes| - 1][k] == votes[k];
      if votes[m].distance > votes[|votes| - 1].distance then m else |votes| - 1
  }

  /** Folded in rank order, the reduction gives the last candidate of those
      with the largest score. */
  lemma {:induction false} ReduceAllIsLastBest(votes: seq<Joinable>)
    requires |votes| >= 1
    ensures ReduceAll(votes) == votes[LastBest(votes)]
  {
    if |votes| > 1 {
      ReduceAllIsLastBest(votes[..|votes| - 1]);
    }
  }

  /** MPI may combine the votes in any order, since the operator is declared
      commutative. Whatever the order, the agreed candidate is one of the
      votes and has the largest score; only which of several tied votes wins
      depends on the order. */
  lemma ReduceAllAnyOrder(votes: seq<Joinable>, other: seq<Joinable>)
    requires |votes| >= 1 && multiset(other) == multiset(votes)
    ensures |other| >= 1
    ensures ReduceAll(other) in votes
    ensures forall k :: 0 <= k < |votes| ==> votes[k].distance <= ReduceAll(other).distance
    ensures ReduceAll(other).distance == ReduceAll(votes).distance
  {
    assert |other| == |multiset(other)| == |votes|;
    ReduceAllIsLastBest(votes);
    ReduceAllIsLastBest(other);
    var a, b := votes[LastBest(votes)], other[LastBest(other)];
    assert a in multiset(votes) && b in multiset(other);
    var ia :| 0 <= ia < |other| && other[ia] == a;
    var ib :| 0 <= ib < |votes| && votes[ib] == b;
  }

  /** Splitting the nodes into two groups, reducing each and then combining
      the two results gives the same candidate as one reduction over all. */
  lemma {:induction false} ReduceAllSplit(left: seq<Joinable>, right: seq<Joinable>)
    requires |left| >= 1 && |right| >= 1
    ensures ReduceAll(left + right) == Closest(ReduceAll(left), ReduceAll(right))
  {
    var all := left + right;
    if |right| == 1 {
      assert all[..|all| - 1] == left;
    } else {
      var init := right[..|right| - 1];
      assert all[..|all| - 1] == left + init;
      ReduceAllSplit(left, init);
      ClosestAssociative(ReduceAll(left), ReduceAll(init), right[|right| - 1]);
    }
  }
}
