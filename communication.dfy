/** Distribution of the Needleman-Wunsch work pairs over the compute nodes
    (src/pairwise/needleman/communication.cpp). The master keeps every pair;
    each worker takes a contiguous slice; the scores are gathered back in
    rank order. */
module NeedlemanCommunication {
  import opened Wrappers
  import opened Utils
  import Buffer

  /** Count and displacement of the slice a worker computes from the total, the
      number of nodes and its rank: the quotient and remainder are taken over
      the `nodes - 1` workers, and the worker's position is `rank - 1`. */
  function WorkerShare(total: nat, nodes: nat, rank: nat): Range
    requires 1 <= rank < nodes
  {
    var quotient := total / (nodes - 1);
    var remainder := total % (nodes - 1);
    var r := rank - 1;
    var count := quotient + (if remainder > r then 1 else 0);
    var displ := quotient * r + Min(r, remainder);
    Range(displ, count)
  }

  /** `scatter`: the master returns all pairs; a worker returns its slice,
      built with the slice bound of `Buffer.SliceAccepted`. */
  function Scatter<T>(pairs: seq<T>, rank: nat, nodes: nat): (r: Result<seq<T>>)
    requires rank < nodes
    ensures rank == 0 ==> r == Success(pairs)
    ensures rank > 0 ==>
      var p := Partition(|pairs|, nodes - 1, rank - 1);
      p.offset + p.total <= |pairs| && r == Success(pairs[p.offset..p.offset + p.total])
  {
    if rank == 0 then Success(pairs)
    else
      var share := WorkerShare(|pairs|, nodes, rank);
      ShareFits(|pairs|, nodes, rank);
      if Buffer.SliceAccepted(|pairs|, share.offset, share.total) then
        Success(pairs[share.offset..share.offset + share.total])
      else
        Failure("slice out of buffer's range")
  }

  /** A worker's share is the `utils::partition` slice of its position among
      the workers, and it always fits in the pair buffer. */
  lemma ShareFits(total: nat, nodes: nat, rank: nat)
    requires 1 <= rank < nodes
    ensures WorkerShare(total, nodes, rank) == Partition(total, nodes - 1, rank - 1)
    ensures Partition(total, nodes - 1, rank - 1).offset + Partition(total, nodes - 1, rank - 1).total <= total
  {
    var workers := nodes - 1;
    PartitionContiguous(total, workers, rank - 1);
    PartitionOffsetMonotonic(total, workers, rank, workers);
    PartitionCovers(total, workers);
  }

  /** Partition offsets never decrease. */
  lemma {:induction false} PartitionOffsetMonotonic(total: nat, count: nat, j: nat, k: nat)
    requires count > 0 && j <= k
    ensures Partition(total, count, j).offset <= Partition(total, count, k).offset
  {
    if j < k {
      PartitionOffsetMonotonic(total, count, j, k - 1);
      PartitionContiguous(total, count, k - 1);
    }
  }

  /** `scatter` exactly as written: the slice constructor's own checks
      (`Buffer.SliceAcceptedAsWritten`) decide whether the slice is built. */
  function ScatterAsWritten<T>(pairs: seq<T>, rank: nat, nodes: nat): (r: Result<seq<T>>)
    requires rank < nodes
    ensures rank == 0 ==> r == Success(pairs)
    ensures r.Failure? <==> rank > 0 && !Buffer.SliceAcceptedAsWritten(|pairs|, WorkerShare(|pairs|, nodes, rank).offset, WorkerShare(|pairs|, nodes, rank).total)
  {
    if rank == 0 then Success(pairs)
    else
      var share := WorkerShare(|pairs|, nodes, rank);
      if Buffer.SliceAcceptedAsWritten(|pairs|, share.offset, share.total) then
        Success(pairs[share.offset..share.offset + share.total])
      else
        Failure("slice out of buffer's range")
  }

  /** With fewer pairs than workers, the last worker's empty slice starts at the
      end of the buffer and the as-written slice constructor fails in `offset`,
      which ends the process: one pair
      over three nodes fails on rank 2, where the corrected scatter gives an
      empty slice. */
  lemma ScatterAsWrittenRejectsEmptyTail<T>(p: T)
    ensures ScatterAsWritten([p], 2, 3).Failure?
    ensures Scatter([p], 2, 3) == Success([])
  {
    assert 1 / 2 == 0 && 1 % 2 == 1;
    assert WorkerShare(1, 3, 2) == Range(1, 0);
    assert Partition(1, 2, 1) == Range(1, 0);
    assert [p][1..1] == [];
  }

  /** An empty pair buffer makes the as-written scatter fail on every worker. */
  lemma ScatterAsWrittenRejectsEmpty<T>(nodes: nat, rank: nat)
    requires 1 <= rank < nodes
    ensures ScatterAsWritten<T>([], rank, nodes).Failure?
    ensures Scatter<T>([], rank, nodes) == Success([])
  {
    var w := nodes - 1;
    assert 0 / w == 0 && 0 % w == 0;
    assert WorkerShare(0, nodes, rank) == Range(0, 0);
  }

  /** `gather` through `mpi::allgather`: every node receives the concatenation of
      all nodes' score buffers in rank order. */
  function Gather<T>(perRank: seq<seq<T>>): (r: seq<T>)
    ensures |perRank| == 1 ==> r == perRank[0]
  {
    if perRank == [] then [] else Gather(perRank[..|perRank| - 1]) + perRank[|perRank| - 1]
  }

  /** The slices of the first `k` workers, in rank order. */
  function WorkerSlices<T>(pairs: seq<T>, nodes: nat, k: nat): (r: seq<seq<T>>)
    requires 1 <= nodes && k < nodes
    ensures |r| == k
  {
    if k == 0 then []
    else WorkerSlices(pairs, nodes, k - 1) + [Scatter(pairs, k, nodes).value]
  }

  /** The first `k` workers' slices, concatenated, are the first pairs of the
      buffer, up to where slice `k` starts: the slices are contiguous and
      disjoint. */
  lemma {:induction false} WorkerSlicesPrefix<T>(pairs: seq<T>, nodes: nat, k: nat)
    requires 2 <= nodes && k < nodes
    ensures Partition(|pairs|, nodes - 1, k).offset <= |pairs|
    ensures Gather(WorkerSlices(pairs, nodes, k)) == pairs[..Partition(|pairs|, nodes - 1, k).offset]
  {
    PartitionOffsetMonotonic(|pairs|, nodes - 1, k, nodes - 1);
    PartitionCovers(|pairs|, nodes - 1);
    if k > 0 {
      WorkerSlicesPrefix(pairs, nodes, k - 1);
      var a := Partition(|pairs|, nodes - 1, k - 1).offset;
      var b := Partition(|pairs|, nodes - 1, k).offset;
      var last := Scatter(pairs, k, nodes).value;
      ScatterSlice(pairs, nodes, k);
      assert WorkerSlices(pairs, nodes, k) == WorkerSlices(pairs, nodes, k - 1) + [last];
      GatherStep(WorkerSlices(pairs, nodes, k - 1), last, pairs, a, b);
    }
  }

  /** Worker `k` gets the pairs from where worker `k - 1`'s partition starts to where partition `k` starts. */
  lemma ScatterSlice<T>(pairs: seq<T>, nodes: nat, k: nat)
    requires 1 <= k < nodes
    ensures Partition(|pairs|, nodes - 1, k - 1).offset <= Partition(|pairs|, nodes - 1, k).offset <= |pairs|
    ensures Scatter(pairs, k, nodes).value == pairs[Partition(|pairs|, nodes - 1, k - 1).offset..Partition(|pairs|, nodes - 1, k).offset]
  {
    PartitionContiguous(|pairs|, nodes - 1, k - 1);
    PartitionOffsetMonotonic(|pairs|, nodes - 1, k, nodes - 1);
    PartitionCovers(|pairs|, nodes - 1);
  }

  /** Appending the slice `[a, b)` to a gathered prefix `[0, a)` gives the prefix `[0, b)`. */
  lemma GatherStep<T>(parts: seq<seq<T>>, last: seq<T>, pairs: seq<T>, a: nat, b: nat)
    requires a <= b <= |pairs|
    requires Gather(parts) == pairs[..a] && last == pairs[a..b]
    ensures Gather(parts + [last]) == pairs[..b]
  {
    assert (parts + [last])[..|parts|] == parts;
    assert pairs[..a] + pairs[a..b] == pairs[..b];
  }

  /** Scattering to every worker and gathering the slices back in rank order
      gives exactly the pairs the master holds. */
  lemma ScatterGatherCovers<T>(pairs: seq<T>, nodes: nat)
    requires nodes >= 2
    ensures Gather(WorkerSlices(pairs, nodes, nodes - 1)) == pairs
  {
    WorkerSlicesPrefix(pairs, nodes, nodes - 1);
    PartitionCovers(|pairs|, nodes - 1);
  }

  /** Worker slices differ in size by at most one, and lower ranks are never
      given fewer pairs. */
  lemma WorkerSlicesBalanced<T>(pairs: seq<T>, nodes: nat, j: nat, k: nat)
    requires 1 <= j <= k < nodes
    ensures |Scatter(pairs, k, nodes).value| <= |Scatter(pairs, j, nodes).value| <= |Scatter(pairs, k, nodes).value| + 1
  {
    PartitionBalanced(|pairs|, nodes - 1, j - 1, k - 1);
  }
}
