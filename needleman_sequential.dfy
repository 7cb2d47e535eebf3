/** The sequential Needleman-Wunsch aligner
    (src/pairwise/needleman/impl/sequential.cpp): the score of a pair of
    encoded sequences, computed on a single row buffer that is overwritten
    row by row. */
module NeedlemanSequential {
  import opened Wrappers
  import opened Utils
  import opened Encoder
  import opened Sequence
  import opened Pairwise
  import opened Needleman
  import NeedlemanCommunication

  /** `scoring_table`: the gap penalty and the substitution score of two codes. */
  datatype ScoringTable = ScoringTable(penalty: int, cost: (Unit, Unit) -> int)

  /** The codes of an encoded sequence, slot by slot, padding included: the
      three codes of each block in turn. */
  function Units(blocks: seq<Block>): (u: seq<Unit>)
    ensures |u| == Length(blocks)
  {
    if blocks == [] then []
    else
      var last := blocks[|blocks| - 1];
      Units(blocks[..|blocks| - 1]) + [Access(last, 0), Access(last, 1), Access(last, 2)]
  }

  /** Reading position `k` of an encoded sequence gives its `k`-th code. */
  lemma {:induction false} UnitsAt(blocks: seq<Block>, k: nat)
    requires k < Length(blocks)
    ensures At(blocks, k) == Success(Units(blocks)[k])
  {
    var n := |blocks|;
    var init := blocks[..n - 1];
    if k < Length(init) {
      UnitsAt(init, k);
      assert k / BatchSize < n - 1;
      assert init[k / BatchSize] == blocks[k / BatchSize];
    } else {
      var r := k - BatchSize * (n - 1);
      assert 0 <= r < BatchSize;
      assert k == BatchSize * (n - 1) + r;
      assert k / BatchSize == n - 1 && k % BatchSize == r;
    }
  }

  /** The 0-th line: `j` gap penalties at column `j`. */
  function InitRow(b: seq<Unit>, t: ScoringTable): (r: seq<int>)
    ensures |r| == |b| + 1
    ensures forall j :: 0 <= j < |r| ==> r[j] == -t.penalty * j
  {
    seq(|b| + 1, j => -t.penalty * j)
  }

  /** Column `j >= 1` of the next line, given the cell to its left: a padding
      column copies the left cell, any other takes the best of a match from
      the diagonal, an insertion from the left and a removal from above. */
  function Cell(prev: seq<int>, x: Unit, b: seq<Unit>, t: ScoringTable, j: nat, left: int): int
    requires 1 <= j < |prev| && |prev| == |b| + 1
  {
    if b[j - 1] == Padding then left
    else Max(prev[j - 1] + t.cost(x, b[j - 1]), Max(left - t.penalty, prev[j] - t.penalty))
  }

  /** Columns `0 .. j` of line `i + 1`, computed from line `i` and the code
      `x` of the first sequence. */
  function NewRow(prev: seq<int>, x: Unit, b: seq<Unit>, i: nat, t: ScoringTable, j: nat): (r: seq<int>)
    requires |prev| == |b| + 1 && j <= |b|
    ensures |r| == j + 1
  {
    if j == 0 then [-(i + 1) * t.penalty]
    else
      var r := NewRow(prev, x, b, i, t, j - 1);
      r + [Cell(prev, x, b, t, j, r[j - 1])]
  }

  /** The whole line `i + 1`. */
  function NextRow(prev: seq<int>, x: Unit, b: seq<Unit>, i: nat, t: ScoringTable): (r: seq<int>)
    requires |prev| == |b| + 1
    ensures |r| == |b| + 1
  {
    NewRow(prev, x, b, i, t, |b|)
  }

  /** The line buffer after the first `i` codes of `a` were processed. */
  function RowAfter(a: seq<Unit>, b: seq<Unit>, t: ScoringTable, i: nat): (r: seq<int>)
    requires i <= |a|
    ensures |r| == |b| + 1
  {
    if i == 0 then InitRow(b, t) else NextRow(RowAfter(a, b, t, i - 1), a[i - 1], b, i - 1, t)
  }

  /** The position of the first padding code of `a` at or after `k`, or `|a|` if there is none. */
  function FirstPaddingFrom(a: seq<Unit>, k: nat): (r: nat)
    requires k <= |a|
    ensures k <= r <= |a|
    ensures forall m :: k <= m < r ==> a[m] != Padding
    ensures r < |a| ==> a[r] == Padding
    decreases |a| - k
  {
    if k == |a| then |a| else if a[k] == Padding then k else FirstPaddingFrom(a, k + 1)
  }

  /** The position of the first padding code of `a`: the rows the aligner processes. */
  function FirstPadding(a: seq<Unit>): (r: nat)
    ensures r <= |a|
    ensures forall m :: 0 <= m < r ==> a[m] != Padding
    ensures r < |a| ==> a[r] == Padding
  {
    FirstPaddingFrom(a, 0)
  }

  /** The score `align_pair` returns for the code sequences `a` and `b`: the
      last column of the line after every row up to the first padding of `a`. */
  function AlignScore(a: seq<Unit>, b: seq<Unit>, t: ScoringTable): int
  {
    RowAfter(a, b, t, FirstPadding(a))[|b|]
  }

  /** The reference definition: cell `(i, j)` of the full Needleman-Wunsch
      matrix of `a` against `b`, where a padding column copies its left cell. */
  function Matrix(a: seq<Unit>, b: seq<Unit>, t: ScoringTable, i: nat, j: nat): int
    requires i <= |a| && j <= |b|
    decreases i, j
  {
    if i == 0 then -t.penalty * j
    else if j == 0 then -t.penalty * i
    else if b[j - 1] == Padding then Matrix(a, b, t, i, j - 1)
    else Max(Matrix(a, b, t, i - 1, j - 1) + t.cost(a[i - 1], b[j - 1]),
             Max(Matrix(a, b, t, i, j - 1) - t.penalty, Matrix(a, b, t, i - 1, j) - t.penalty))
  }

  /** Filling a line left to right from the previous matrix row gives the next matrix row. */
  lemma {:induction false} NewRowIsMatrix(a: seq<Unit>, b: seq<Unit>, t: ScoringTable, i: nat, prev: seq<int>, j: nat)
    requires 1 <= i <= |a| && j <= |b| && |prev| == |b| + 1
    requires forall k :: 0 <= k <= |b| ==> prev[k] == Matrix(a, b, t, i - 1, k)
    ensures forall k :: 0 <= k <= j ==> NewRow(prev, a[i - 1], b, i - 1, t, j)[k] == Matrix(a, b, t, i, k)
  {
    if j > 0 {
      NewRowIsMatrix(a, b, t, i, prev, j - 1);
      var r := NewRow(prev, a[i - 1], b, i - 1, t, j - 1);
      assert NewRow(prev, a[i - 1], b, i - 1, t, j) == r + [Cell(prev, a[i - 1], b, t, j, r[j - 1])];
    }
  }

  /** The single reused line holds, after `i` rows, row `i` of the full matrix. */
  lemma {:induction false} RowIsMatrix(a: seq<Unit>, b: seq<Unit>, t: ScoringTable, i: nat)
    requires i <= |a|
    ensures forall k :: 0 <= k <= |b| ==> RowAfter(a, b, t, i)[k] == Matrix(a, b, t, i, k)
  {
    if i > 0 {
      RowIsMatrix(a, b, t, i - 1);
      NewRowIsMatrix(a, b, t, i, RowAfter(a, b, t, i - 1), |b|);
    }
  }

  /** The score is the matrix cell at the first padding row of `a` and the last column. */
  lemma AlignScoreIsMatrix(a: seq<Unit>, b: seq<Unit>, t: ScoringTable)
    ensures AlignScore(a, b, t) == Matrix(a, b, t, FirstPadding(a), |b|)
  {
    RowIsMatrix(a, b, t, FirstPadding(a));
  }

  /** An empty first sequence, or one that starts with padding, scores `|b|` gaps. */
  lemma LeadingPaddingScore(a: seq<Unit>, b: seq<Unit>, t: ScoringTable)
    requires |a| == 0 || a[0] == Padding
    ensures AlignScore(a, b, t) == -t.penalty * |b|
  {
    assert FirstPadding(a) == 0;
  }

  /** Appending a column to `b` leaves the earlier columns of a line unchanged. */
  lemma {:induction false} NewRowColumnPrefix(prev: seq<int>, v: int, x: Unit, b: seq<Unit>, y: Unit, i: nat, t: ScoringTable, j: nat)
    requires |prev| == |b| + 1 && j <= |b|
    ensures NewRow(prev + [v], x, b + [y], i, t, j) == NewRow(prev, x, b, i, t, j)
  {
    if j > 0 {
      NewRowColumnPrefix(prev, v, x, b, y, i, t, j - 1);
      assert (b + [y])[j - 1] == b[j - 1];
      assert (prev + [v])[j - 1] == prev[j - 1] && (prev + [v])[j] == prev[j];
    }
  }

  /** Appending a column to `b` leaves the earlier columns of every row unchanged. */
  lemma {:induction false} RowAfterColumnPrefix(a: seq<Unit>, b: seq<Unit>, y: Unit, t: ScoringTable, i: nat)
    requires i <= |a|
    ensures RowAfter(a, b + [y], t, i)[..|b| + 1] == RowAfter(a, b, t, i)
  {
    if i > 0 {
      RowAfterColumnPrefix(a, b, y, t, i - 1);
      var prev', prev := RowAfter(a, b + [y], t, i - 1), RowAfter(a, b, t, i - 1);
      assert prev' == prev + [prev'[|b| + 1]];
      NewRowColumnPrefix(prev, prev'[|b| + 1], a[i - 1], b, y, i - 1, t, |b|);
    }
  }

  /** A trailing padding code in the second sequence does not change the
      score, as long as the first sequence has a row to process. */
  lemma TrailingPaddingScore(a: seq<Unit>, b: seq<Unit>, t: ScoringTable)
    requires FirstPadding(a) >= 1
    ensures AlignScore(a, b + [Padding], t) == AlignScore(a, b, t)
  {
    var i := FirstPadding(a);
    var row := RowAfter(a, b + [Padding], t, i);
    RowAfterColumnPrefix(a, b, Padding, t, i);
    assert row[|b| + 1] == row[|b|];
    assert row[..|b| + 1][|b|] == row[|b|];
  }

  /** Rows only depend on the codes of `a` before them. */
  lemma {:induction false} RowAfterRowPrefix(a: seq<Unit>, c: seq<Unit>, b: seq<Unit>, t: ScoringTable, i: nat)
    requires i <= |a|
    ensures RowAfter(a + c, b, t, i) == RowAfter(a, b, t, i)
  {
    if i > 0 {
      RowAfterRowPrefix(a, c, b, t, i - 1);
      assert (a + c)[i - 1] == a[i - 1];
    }
  }

  /** The rows after the first padding of `a` are never scored: whatever follows it is ignored. */
  lemma IgnoresAfterPadding(a: seq<Unit>, c: seq<Unit>, b: seq<Unit>, t: ScoringTable)
    requires FirstPadding(a) < |a|
    ensures AlignScore(a + c, b, t) == AlignScore(a, b, t)
  {
    var i := FirstPadding(a);
    assert (a + c)[i] == Padding;
    assert forall m :: 0 <= m < i ==> (a + c)[m] == a[m];
    assert FirstPadding(a + c) == i;
    RowAfterRowPrefix(a, c, b, t, i);
  }

  /** The 0-th line of `align_pair`: `two.length() + 1` cells holding `j` penalties at column `j`. */
  method InitLine(two: seq<Block>, t: ScoringTable) returns (line: array<int>)
    ensures fresh(line)
    ensures line[..] == InitRow(Units(two), t)
  {
    line := new int[Length(two) + 1];
    var i := 0;
    while i <= Length(two)
      invariant 0 <= i <= Length(two) + 1
      invariant forall k :: 0 <= k < i ==> line[k] == -t.penalty * k
    {
      line[i] := i * -t.penalty;
      i := i + 1;
    }
  }

  /** The inner loop of `align_pair`: overwrites the line with row `i + 1`
      for the code `x`, left to right, keeping the displaced cell of the
      previous row in `done` for the next column's diagonal. */
  method FillRow(line: array<int>, x: Unit, two: seq<Block>, i: nat, t: ScoringTable)
    requires line.Length == Length(two) + 1
    modifies line
    ensures line[..] == NextRow(old(line[..]), x, Units(two), i, t)
  {
    ghost var b := Units(two);
    ghost var prev := line[..];
    var done := line[0];
    line[0] := (i + 1) * -t.penalty;
    var j := 1;
    while j <= Length(two)
      invariant 1 <= j <= |b| + 1
      invariant line[..j] == NewRow(prev, x, b, i, t, j - 1)
      invariant forall k :: j <= k < line.Length ==> line[k] == prev[k]
      invariant done == prev[j - 1]
    {
      ghost var filled := line[..j];
      var value := line[j - 1];
      UnitsAt(two, j - 1);
      var y := At(two, j - 1).value;
      if y != Padding {
        var insertd := value - t.penalty;
        var removed := line[j] - t.penalty;
        var matched := done + t.cost(x, y);
        value := Max(matched, Max(insertd, removed));
      }
      NextCell(prev, x, b, i, t, j, filled, done, line[j], y, value);
      done := line[j];
      line[j] := value;
      assert line[..j + 1] == filled + [value];
      j := j + 1;
    }
    assert line[..] == line[..j];
  }

  /** One step of the inner loop of `align_pair`: the value it computes for
      column `j` extends the filled columns `0 .. j-1` of the new row. */
  lemma NextCell(prev: seq<int>, x: Unit, b: seq<Unit>, i: nat, t: ScoringTable, j: nat,
                 filled: seq<int>, done: int, above: int, y: Unit, value: int)
    requires |prev| == |b| + 1 && 1 <= j <= |b|
    requires filled == NewRow(prev, x, b, i, t, j - 1)
    requires done == prev[j - 1] && above == prev[j] && y == b[j - 1]
    requires value == if y != Padding then Max(done + t.cost(x, y), Max(filled[j - 1] - t.penalty, above - t.penalty)) else filled[j - 1]
    ensures filled + [value] == NewRow(prev, x, b, i, t, j)
  {
  }

  /** `align_pair(one, two, table)`: fills the 0-th line with penalties, then
      overwrites it in place once per code of `one` up to its first padding. */
  method AlignPair(one: seq<Block>, two: seq<Block>, t: ScoringTable) returns (score: int)
    ensures score == AlignScore(Units(one), Units(two), t)
  {
    ghost var a, b := Units(one), Units(two);
    var line := InitLine(two, t);
    var i := 0;
    while i < Length(one)
      invariant 0 <= i <= |a|
      invariant forall m :: 0 <= m < i ==> a[m] != Padding
      invariant line[..] == RowAfter(a, b, t, i)
    {
      UnitsAt(one, i);
      var x := At(one, i).value;
      if x == Padding {
        break;
      }
      FillRow(line, x, two, i, t);
      assert line[..] == RowAfter(a, b, t, i + 1);
      i := i + 1;
    }
    assert i == FirstPadding(a);
    score := line[Length(two)];
  }

  /** Both sequences of a pair are entries of a database of `n` sequences. */
  predicate PairInRange(p: Workpair, n: nat)
  {
    p.first < n && p.second < n
  }

  /** The score `align` stores for a pair: the sequence with more blocks is
      aligned against the other; on equal sizes the pair's second sequence
      goes first. */
  function PairScore(db: seq<seq<Block>>, p: Workpair, t: ScoringTable): int
    requires PairInRange(p, |db|)
  {
    var one, two := db[p.first], db[p.second];
    if |one| > |two| then AlignScore(Units(one), Units(two), t)
    else AlignScore(Units(two), Units(one), t)
  }

  /** When the two sequences differ in size, the order of the pair does not
      matter: the longer one always goes first. */
  lemma PairScoreSizesDiffer(db: seq<seq<Block>>, i: nat, j: nat, t: ScoringTable)
    requires i < |db| && j < |db| && |db[i]| != |db[j]|
    ensures PairScore(db, Workpair(i, j), t) == PairScore(db, Workpair(j, i), t)
    ensures |db[i]| > |db[j]| ==> PairScore(db, Workpair(i, j), t) == AlignScore(Units(db[i]), Units(db[j]), t)
    ensures |db[i]| < |db[j]| ==> PairScore(db, Workpair(i, j), t) == AlignScore(Units(db[j]), Units(db[i]), t)
  {
  }

  /** When the two sequences have the same number of blocks, the pair's
      second sequence is the one aligned first. */
  lemma PairScoreSameSize(db: seq<seq<Block>>, i: nat, j: nat, t: ScoringTable)
    requires i < |db| && j < |db| && |db[i]| == |db[j]|
    ensures PairScore(db, Workpair(i, j), t) == AlignScore(Units(db[j]), Units(db[i]), t)
    ensures PairScore(db, Workpair(j, i), t) == AlignScore(Units(db[i]), Units(db[j]), t)
  {
  }

  /** `align(pairs, db, table)`: one score per pair, in pair order. Reading a
      sequence the database does not hold raises, and then no scores are
      returned. */
  method Align(pairs: array<Workpair>, db: seq<seq<Block>>, t: ScoringTable) returns (r: Result<seq<int>>)
    ensures r.Failure? <==> exists k :: 0 <= k < pairs.Length && !PairInRange(pairs[k], |db|)
    ensures r.Success? ==> |r.value| == pairs.Length
    ensures r.Success? ==> forall k :: 0 <= k < pairs.Length ==> r.value[k] == PairScore(db, pairs[k], t)
  {
    var result := new int[pairs.Length];
    var i := 0;
    while i < pairs.Length
      invariant 0 <= i <= pairs.Length
      invariant forall k :: 0 <= k < i ==> PairInRange(pairs[k], |db|) && result[k] == PairScore(db, pairs[k], t)
    {
      var p := pairs[i];
      if p.first >= |db| || p.second >= |db| {
        return Failure("database offset out of range");
      }
      var one, two := db[p.first], db[p.second];
      var score;
      if |one| > |two| {
        score := AlignPair(one, two, t);
      } else {
        score := AlignPair(two, one, t);
      }
      result[i] := score;
      i := i + 1;
    }
    r := Success(result[..]);
  }

  /** The score of every pair, in pair order. */
  function PairScores(db: seq<seq<Block>>, pairs: seq<Workpair>, t: ScoringTable): (r: seq<int>)
    requires forall p :: p in pairs ==> PairInRange(p, |db|)
    ensures |r| == |pairs|
  {
    seq(|pairs|, k requires 0 <= k < |pairs| => PairScore(db, pairs[k], t))
  }

  /** `distance_matrix`: the gathered pair scores and the number of sequences. */
  datatype DistanceMatrix = DistanceMatrix(scores: seq<int>, count: nat)

  /** `c` copies of `s`, one after another. */
  function Repeat<T>(s: seq<T>, c: nat): (r: seq<T>)
    ensures |r| == c * |s|
  {
    if c == 0 then [] else Repeat(s, c - 1) + s
  }

  /** Position `k` of copy `w` is position `k` of `s`. */
  lemma {:induction false} RepeatAt<T>(s: seq<T>, c: nat, w: nat, k: nat)
    requires w < c && k < |s|
    ensures w * |s| + k < c * |s| && Repeat(s, c)[w * |s| + k] == s[k]
  {
    var n := |s|;
    assert c * n == (c - 1) * n + n;
    if w < c - 1 {
      RepeatAt(s, c - 1, w, k);
    } else {
      assert w * n == (c - 1) * n;
    }
  }

  /** The buffers each rank contributes to the gather: the master (rank 0)
      contributes nothing, every other rank the scores it computed. */
  function Contributions<T>(scores: seq<T>, nodes: nat): (r: seq<seq<T>>)
    ensures |r| == nodes
    ensures forall k :: 0 <= k < nodes ==> r[k] == if k == 0 then [] else scores
  {
    if nodes == 0 then [] else Contributions(scores, nodes - 1) + [if nodes == 1 then [] else scores]
  }

  /** Gathering the contributions gives one copy of the scores per worker. */
  lemma {:induction false} GatherContributions<T>(scores: seq<T>, nodes: nat)
    requires nodes >= 1
    ensures NeedlemanCommunication.Gather(Contributions(scores, nodes)) == Repeat(scores, nodes - 1)
  {
    var c := Contributions(scores, nodes);
    if nodes > 1 {
      GatherContributions(scores, nodes - 1);
      assert c[..nodes - 1] == Contributions(scores, nodes - 1);
    } else {
      assert c[..0] == [];
    }
  }

  /** `sequential::run` over `nodes` processes: every worker generates all
      pairs of the database and aligns them, the master aligns nothing, and
      the gathered buffer holds, in rank order, one copy of the scores per
      worker. The source computes `nsequences - 1` on an unsigned type in
      `generate`, so it needs at least one sequence. */
  method Run(db: seq<seq<Block>>, t: ScoringTable, nodes: nat) returns (r: DistanceMatrix)
    requires |db| >= 1 && nodes >= 1
    ensures r.count == |db|
    ensures forall p :: p in AllPairs(|db|) ==> PairInRange(p, |db|)
    ensures r.scores == Repeat(PairScores(db, AllPairs(|db|), t), nodes - 1)
  {
    var nsequences := |db|;
    var pairs := Generate(nsequences);
    forall p | p in AllPairs(nsequences) ensures PairInRange(p, nsequences) {
      AllPairsMembers(nsequences, p);
    }
    var result := Align(pairs, db, t);
    var scores := result.value;
    assert scores == PairScores(db, AllPairs(nsequences), t);
    GatherContributions(scores, nodes);
    r := DistanceMatrix(NeedlemanCommunication.Gather(Contributions(scores, nodes)), nsequences);
  }
}
