# museqa core, modelled in Dafny

This project models the core of museqa, a multiple sequence aligner. The model covers:

- **Sequence storage.** The 5-bit letter encoder packs three letters per 16-bit block. `sequence` holds these blocks.
- **Containers.** These are the bounds-checked `buffer` and `slice_buffer`, the `space`/`transform` layouts, and `matrix`/`symmatrix`.
- **Sequence database and its transfer.** The `database` has a description index. `bootstrap` serializes and unserializes it.
- **FASTA reader.**
- **Pairwise stage.** This is the Needleman-Wunsch stage: `generate` makes the work pairs, `scatter`/`gather` move them, and `align_pair`, `align` and `run` are the sequential aligner.
- **Packed score index** of `pairwise`.
- **Neighbor-joining phylogeny stage.** This covers `cache_init`, `q_transform`, `pick_joinable`, `join_pair`, `swap_remove`, `build_tree`, `run`, and the `closest` reduction.
- **Command-line parser**, the **key dispatcher**, and the **module pipeline**.

One Dafny module stands for each core source file:

| Dafny module | source |
|---|---|
| `Utils` | `src/utils.hpp` |
| `Space` | `src/space.hpp` |
| `Transform` | `inc/transform.hpp` |
| `Buffer` | `src/buffer.hpp` |
| `Matrix` | `src/matrix.hpp` |
| `Encoder` | `inc/encoder.hpp`, `src/encoder.cpp` |
| `Sequence` | `src/sequence.hpp` |
| `Database` | `src/database.hpp`, `src/database.cpp` |
| `Bootstrap` | `src/bootstrap.cpp` |
| `Fasta` | `src/io/loader/parser/fasta.cpp` |
| `Pairwise` | `inc/pairwise/pairwise.hpp` |
| `Needleman` | `src/pairwise/needleman/needleman.cpp` |
| `NeedlemanCommunication` | `src/pairwise/needleman/communication.cpp` |
| `NeedlemanSequential` | `src/pairwise/needleman/impl/sequential.cpp` |
| `NJoining` | `src/phylogeny/njoining/njoining.cpp` |
| `PhylogenyMatrix` | the distance-matrix `swap`/`remove` used by neighbor joining |
| `NJoiningSequential` | `src/phylogeny/njoining/impl/sequential.cpp` |
| `Terminal` | `src/terminal.hpp`, `src/terminal.cpp` |
| `Dispatcher` | `src/dispatcher.hpp` |
| `Pipeline` | `src/pipeline.hpp` |
| `Wrappers` | `Result`/`Option`; a `Failure` stands for a C++ exception, or for termination when raised inside a `noexcept` function |

The model keeps the source's own form:

- **Objects whose fields change in place are classes.** These are `Buffer`, `Matrix`, `Database`, the neighbor-joining `State` and `Star`, the FASTA `LineReader` and `Dispatcher`. Their methods carry `modifies` clauses.
- **Loops become methods with invariants.** Each method is proved against a specification function: `Encode` against `Encoded`, `AlignPair` against the full Needleman-Wunsch `Matrix`, `PickJoinable` against `Best`, `Parse` against `Tokens`, and so on.
- **Pure logic becomes functions and lemmas.**

Where the code and the documented intent disagree, the model follows the code:

- `build_tree` loops while more than three OTUs remain. So three leaves need no join at all; they are not joined twice.
- The join pair is the one with the LARGEST Q-value. `pick_joinable` keeps a pair only if its Q-value is greater than the one held (`src/phylogeny/njoining/impl/sequential.cpp:174`), and `closest` keeps the operand with the larger score (`src/phylogeny/njoining/njoining.cpp:28`). Their comments say the lowest value and the minimum distance (`src/phylogeny/njoining/impl/sequential.cpp:168-170`, `src/phylogeny/njoining/njoining.cpp:24`). The older `closest` kept the smaller score (`src/phylogeny/njoining/communication.cpp:30`), and textbook neighbor joining minimises the Q-value. The model maximises, as the code does: `BestIsMaximum`, `BestJoinIsMaximum` and the `NJoining` reduction lemmas state the maximum.
- The packed score index `(max + 1) * max / 2 + min` includes the diagonal. Its image is the `n * (n + 1) / 2` offsets of a triangle with the diagonal, not `n * (n - 1) / 2`.

Real bugs are logged under "## Findings". Each comes with its as-written model and a corrected one.

## Model

| member | source | states |
|---|---|---|
| Utils.NChooseDoubled | src/utils.hpp:161-166 | twice `nchoose(n)` is `(n - 1) * n` |
| Utils.NChooseClosedForm | src/utils.hpp:161-166 | `nchoose(n)` equals the closed form `(n - 1) * n / 2` |
| Utils.NChooseStep | src/utils.hpp:161-166 | adding one object adds `n` pairs |
| Utils.NChooseMonotonic | src/utils.hpp:161-166 | `nchoose` never decreases |
| Utils.A002024Unique | src/phylogeny/njoining/impl/sequential.cpp:165-166 | only one row of A002024 holds a given position, so the row `pick_joinable` starts from is well defined |
| Utils.Partition | src/utils.hpp:176-183 | slice `k` starts at `quo * k + min(rem, k)` and has `quo + (rem > k)` elements |
| Utils.PartitionContiguous | src/utils.hpp:176-183 | each slice ends where the next starts |
| Utils.PartitionPrefix | src/utils.hpp:176-183 | the first `k` slices cover exactly `[0, offset(k))` |
| Utils.PartitionCovers | src/utils.hpp:176-183 | all slices together cover the whole collection |
| Utils.PartitionBalanced | src/utils.hpp:176-183 | slice sizes differ by at most one; earlier slices are never smaller |
| Utils.Swap | src/utils.hpp:191-200 | the two values are exchanged |
| Utils.SwapArrays | src/utils.hpp:209-215 | the arrays are exchanged element by element, also when both are the same array |
| Utils.FindLastOf | src/utils.hpp:263-267 | the position of the last occurrence, or -1 when there is none; no later position holds it |
| Utils.Extension | src/utils.hpp:263-267 | the text after the last '.', the whole name when there is none, empty for an empty name |
| Space.MakeSpace | src/space.hpp:47-50 | stores the transformed shape of the given dimensions |
| Space.DirectInVolume | src/space.hpp:124-130 | a stored point's row-major offset is below `volume()` |
| Space.DirectInjective | src/space.hpp:124-130 | distinct stored points have distinct offsets |
| Space.DimensionOfMakeSpace | src/space.hpp:82-85 | `dimension()` of a space gives back the dimensions it was made with |
| Space.CollapseInVolume | src/space.hpp:72-75 | every point of an `n x n` space, linear or symmetric, collapses into `[0, volume)` |
| Space.SymmetricCollapseCommutes | src/space.hpp:72-75 | in a symmetric space `(a, b)` and `(b, a)` collapse to the same offset |
| Space.SymmetricCollapseInjective | src/space.hpp:72-75 | off-diagonal points share an offset only when they are the same unordered pair |
| Transform.LinearIsIdentity | inc/transform.hpp:33-64 | the linear transform leaves shapes, points and projections alone |
| Transform.SymmetricShapeRows | inc/transform.hpp:82-85 | the symmetric storage has `ceil(n / 2)` rows of `n` cells |
| Transform.ProjectionOfShape | inc/transform.hpp:115-118 | projecting a stored shape gives back the square it was made for |
| Transform.SymmetricTransformCommutes | inc/transform.hpp:95-106 | the transform ignores the order of the coordinates |
| Transform.SymmetricTransformInside | inc/transform.hpp:95-106 | every point of an `n x n` space lands inside the storage shape |
| Transform.SymmetricTransformSide | inc/transform.hpp:95-106 | the first rows hold cells on or below the diagonal; the mirrored rows hold cells on or above it |
| Transform.SymmetricTransformInjective | inc/transform.hpp:95-106 | off-diagonal points share a cell only when they are the same unordered pair |
| Transform.SymmetricDiagonalShared | inc/transform.hpp:95-106 | diagonal cells `(i, i)` and `(n-1-i, n-1-i)` share storage, e.g. `(0,0)` and `(3,3)` for `n = 4` |
| Buffer.Buffer.Make | src/buffer.hpp:210-213 | a fresh buffer of `size` elements, starting at 0 |
| Buffer.Buffer.Get | src/buffer.hpp:85-89 | fails unless `0 <= offset < size`; otherwise gives that element |
| Buffer.Buffer.Set | src/buffer.hpp:74-78 | fails unless `0 <= offset < size`; otherwise only that element of the shared storage changes |
| Buffer.Buffer.Offset | src/buffer.hpp:150-154 | fails unless `0 <= k < size`; otherwise gives the storage position `start + k` |
| Buffer.Buffer.Copy | src/buffer.hpp:179-182 | a fresh buffer over fresh storage with the same contents |
| Buffer.Buffer.Slice | src/buffer.hpp:265-270 | succeeds iff the slice lies inside the target; the slice shares the target's storage and its contents are the target's `[displ, displ + size)` |
| Buffer.Buffer.SliceAsWritten | src/buffer.hpp:265-270 | succeeds iff `offset(displ)` and the bound check both pass, i.e. `0 <= displ < target size` and `displ + size <= target size` |
| Buffer.Buffer.SliceLikeAsWritten | src/buffer.hpp:277-282 | as written: succeeds iff `offset(base.displ)` and the bound check both pass, so an empty slice at the target's end is refused as by `SliceAsWritten` |
| Buffer.Buffer.SliceLike | src/buffer.hpp:277-282 | corrected: a slice of `tgt` at the displacement and size of `base`, under the same bound as `Slice` |
| Buffer.SliceAliasesTarget | src/buffer.hpp:265-270 | element `k` of a slice is element `displ + k` of its target |
| Buffer.SliceCheckDiscrepancy | src/buffer.hpp:265-270 | the as-written check equals the intended one except for an empty slice at the target's end, which it refuses |
| Matrix.Matrix.FromBuffer | src/matrix.hpp:71-74 | a matrix over the given buffer and space |
| Matrix.Matrix.Make | src/matrix.hpp:152-155 | a fresh matrix whose buffer has the space's volume |
| Matrix.Matrix.Get | src/matrix.hpp:94-97 | the buffer element at `collapse(offset)`; fails when that is out of the buffer |
| Matrix.Matrix.Set | src/matrix.hpp:84-87 | only the cell at `collapse(offset)` changes; an offset outside the buffer fails |
| Matrix.Matrix.Linear | src/matrix.hpp:104-107 | the buffer element at `direct(offset)`, bypassing the transform |
| Matrix.Matrix.MatrixDimension | src/matrix.hpp:123-126 | the projected shape of the space |
| Matrix.Matrix.Copy | src/matrix.hpp:142-145 | a fresh matrix with a copied buffer and the same space |
| Matrix.SymmetricReadBoth | src/matrix.hpp:94-97 | in a `symmatrix`, in-range reads succeed and `[a, b]` and `[b, a]` read the same cell |
| Matrix.SymmetricWriteThrough | src/matrix.hpp:84-87 | in a `symmatrix`, a write to `[a, b]` is read back through `[b, a]` |
| Encoder.BatchSizeFromBlockWidth | inc/encoder.hpp:35 | three 5-bit codes fit in a 16-bit block, and the tables cover the 26 letters |
| Encoder.Access | inc/encoder.hpp:43-47 | the code in a slot is a 5-bit value |
| Encoder.AccessPackBlock | inc/encoder.hpp:43-47 | the three slots of a packed block are independent and bit 0 is the final-block flag |
| Encoder.EncodeLetter | src/encoder.cpp:49-56 | a letter, in either case, maps to its table code; anything else maps to `end` (0x18) |
| Encoder.DecodeElement | src/encoder.cpp:85-92 | each of the 26 valid codes decodes through the table |
| Encoder.EncodeDecodeLetter | src/encoder.cpp:23-33 | letters survive encode/decode up to case, except 'O' and 'U', which become 'X'; other characters become '*' |
| Encoder.Encoded | src/encoder.cpp:64-78 | the encoding of a text has `ceil(size / 3)` blocks |
| Encoder.FillBlock | src/encoder.cpp:71-72 | the inner loop ORs the next three codes (or `end`) into their slots |
| Encoder.CompleteBlock | src/encoder.cpp:69-74 | the filled block, flagged at the end, is block `i` of the encoding |
| Encoder.Encode | src/encoder.cpp:64-78 | the blocks produced are exactly `Encoded(s)` |
| Encoder.EncodedUnits | src/encoder.cpp:64-78 | slot `k % 3` of block `k / 3` holds the code of letter `k`, or `end` past the text |
| Encoder.EncodedFinalFlag | src/encoder.cpp:74 | only the last block of an encoding has bit 0 set |
| Encoder.Decode | src/encoder.cpp:99-111 | one character per slot, in order, three per block |
| Encoder.DecodeEncoded | src/encoder.cpp:99-111 | decoding an encoding gives each letter back as `EncodeDecodeLetter` says, then '*' per padding slot |
| Encoder.AccessBufferAsWritten | inc/encoder.hpp:55-58 | reads the slot at the position truncated to 8 bits |
| Encoder.AccessBuffer | inc/encoder.hpp:55-58 | reads slot `offset % 3` of block `offset / 3` at full width |
| Encoder.AccessBufferEncoded | inc/encoder.hpp:55-58 | through the full-width access, an encoded text gives back the code of each letter |
| Encoder.AccessBufferTruncates | inc/encoder.hpp:55-58 | counterexample: position 258 of 258 'A's and a 'C' reads an 'A' as written |
| Sequence.Length | src/sequence.hpp:101-104 | three slots per block |
| Sequence.At | src/sequence.hpp:82-85 | the code at a position; fails outside the sequence |
| Sequence.BlockAt | src/sequence.hpp:92-95 | the block at an index; fails outside the buffer |
| Sequence.Unpadded | src/sequence.hpp:110-119 | length minus padded slots among slots 1 and 2 of the last block; fails on an empty sequence, which ends the process as `unpadded()` is `noexcept` |
| Sequence.EncodedSlotPadded | src/sequence.hpp:110-119 | in an encoded text of letters, a slot holds padding iff it lies past the text |
| Sequence.UnpaddedEncoded | src/sequence.hpp:110-119 | for a non-empty text of letters, `unpadded()` of its encoding is the text's length |
| Pairwise.PackedIndexRow | inc/pairwise/pairwise.hpp:86-92 | the offset lies in row `max`, which starts at `nchoose(max + 1)` |
| Pairwise.PackedIndexSymmetric | inc/pairwise/pairwise.hpp:86-92 | both orders of a pair address the same score |
| Pairwise.PackedIndexBound | inc/pairwise/pairwise.hpp:86-92 | indices below `n` give offsets below `n * (n + 1) / 2` |
| Pairwise.Unpack | inc/pairwise/pairwise.hpp:86-92 | the pair stored at an offset, larger index first, lies in that offset's row |
| Pairwise.UnpackPackedIndex | inc/pairwise/pairwise.hpp:86-92 | unpacking the packed index of a pair gives the pair back, larger index first |
| Pairwise.PackedIndexUnpack | inc/pairwise/pairwise.hpp:86-92 | packing the unpacked offset gives the offset back |
| Pairwise.PackedIndexInjective | inc/pairwise/pairwise.hpp:86-92 | distinct unordered pairs get distinct offsets |
| Pairwise.PackedIndexOnto | inc/pairwise/pairwise.hpp:86-92 | every offset below `n * (n + 1) / 2` is the offset of a pair below `n` |
| Needleman.AllPairsLength | src/pairwise/needleman/needleman.cpp:20-29 | `generate(n)` makes `n * (n - 1) / 2` pairs |
| Needleman.AllPairsMembers | src/pairwise/needleman/needleman.cpp:20-29 | a pair is generated iff `first < second < n` |
| Needleman.AllPairsOrdered | src/pairwise/needleman/needleman.cpp:20-29 | pairs come in strictly increasing lexicographic order, so each appears once |
| Needleman.Generate | src/pairwise/needleman/needleman.cpp:20-29 | the nested loops fill the buffer with exactly the specified pairs, in order |
| NeedlemanCommunication.Scatter | src/pairwise/needleman/communication.cpp:23-41 | the master gets all pairs; worker `r` gets its partition slice of the buffer |
| NeedlemanCommunication.ShareFits | src/pairwise/needleman/communication.cpp:28-37 | a worker's count and displacement are its `utils::partition` slice, which fits in the buffer |
| NeedlemanCommunication.ScatterAsWritten | src/pairwise/needleman/communication.cpp:23-41 | as written, the slice is built only when the slice constructor's own checks pass |
| NeedlemanCommunication.ScatterAsWrittenRejectsEmptyTail | src/pairwise/needleman/communication.cpp:33-37 | counterexample: one pair over three nodes fails on rank 2 as written, but gives an empty slice when corrected |
| NeedlemanCommunication.ScatterAsWrittenRejectsEmpty | src/pairwise/needleman/communication.cpp:33-37 | as written, an empty pair buffer fails on every worker |
| NeedlemanCommunication.Gather | src/pairwise/needleman/communication.cpp:48-55 | the concatenation of all nodes' buffers in rank order; one node gets its own |
| NeedlemanCommunication.ScatterSlice | src/pairwise/needleman/communication.cpp:33-37 | worker `k` gets the pairs between partition offsets `k - 1` and `k` |
| NeedlemanCommunication.ScatterGatherCovers | src/pairwise/needleman/communication.cpp:23-55 | scattering to every worker and gathering back in rank order gives exactly the master's pairs |
| NeedlemanCommunication.WorkerSlicesBalanced | src/pairwise/needleman/communication.cpp:28-36 | worker slice sizes differ by at most one; lower ranks get no fewer |
| NeedlemanSequential.UnitsAt | src/sequence.hpp:82-85 | reading position `k` of an encoded sequence gives its `k`-th code |
| NeedlemanSequential.NewRowIsMatrix | src/pairwise/needleman/impl/sequential.cpp:47-64 | filling a line left to right from matrix row `i` gives matrix row `i + 1` |
| NeedlemanSequential.RowIsMatrix | src/pairwise/needleman/impl/sequential.cpp:35-65 | the reused line holds row `i` of the full Needleman-Wunsch matrix |
| NeedlemanSequential.AlignScoreIsMatrix | src/pairwise/needleman/impl/sequential.cpp:29-68 | the score is the matrix cell at the first padding row and the last column |
| NeedlemanSequential.LeadingPaddingScore | src/pairwise/needleman/impl/sequential.cpp:42-43 | an empty or padding-led first sequence scores `|b|` gap penalties |
| NeedlemanSequential.TrailingPaddingScore | src/pairwise/needleman/impl/sequential.cpp:53-60 | trailing padding in the second sequence does not change the score |
| NeedlemanSequential.IgnoresAfterPadding | src/pairwise/needleman/impl/sequential.cpp:42-43 | codes after the first padding of the first sequence never affect the score |
| NeedlemanSequential.InitLine | src/pairwise/needleman/impl/sequential.cpp:31-36 | the 0-th line holds `j` penalties at column `j` |
| NeedlemanSequential.FillRow | src/pairwise/needleman/impl/sequential.cpp:47-64 | the in-place inner loop turns the line into the next row |
| NeedlemanSequential.AlignPair | src/pairwise/needleman/impl/sequential.cpp:29-68 | returns `AlignScore`, i.e. the full matrix cell |
| NeedlemanSequential.PairScoreSizesDiffer | src/pairwise/needleman/impl/sequential.cpp:87-89 | when sizes differ, the longer sequence goes first whatever the pair order |
| NeedlemanSequential.PairScoreSameSize | src/pairwise/needleman/impl/sequential.cpp:87-89 | on equal sizes the pair's second sequence goes first |
| NeedlemanSequential.Align | src/pairwise/needleman/impl/sequential.cpp:77-95 | fails iff some pair is out of the database; otherwise one `PairScore` per pair, in order |
| NeedlemanSequential.RepeatAt | src/pairwise/needleman/impl/sequential.cpp:111-122 | position `k` of copy `w` of the gathered scores is score `k` |
| NeedlemanSequential.GatherContributions | src/pairwise/needleman/impl/sequential.cpp:111-122 | gathering (master: nothing; workers: all scores) gives one copy of the scores per worker |
| NeedlemanSequential.Run | src/pairwise/needleman/impl/sequential.cpp:111-122 | count is the database size; scores are `nodes - 1` copies of the scores of all generated pairs |
| NJoining.Closest | src/phylogeny/njoining/njoining.cpp:26-29 | the candidate with the larger score; the second operand on ties |
| NJoining.ClosestIdempotent | src/phylogeny/njoining/njoining.cpp:26-29 | `closest(a, a) == a` |
| NJoining.ClosestAssociative | src/phylogeny/njoining/njoining.cpp:26-29 | the reduction's grouping does not matter |
| NJoining.ClosestCommutesOnDistinctScores | src/phylogeny/njoining/njoining.cpp:26-29 | operand order does not matter when scores differ |
| NJoining.ClosestNotCommutativeOnTies | src/phylogeny/njoining/njoining.cpp:26-29 | on ties operand order matters |
| NJoining.Reduce | src/phylogeny/njoining/njoining.cpp:37-45 | a single-process reduce gives the local candidate |
| NJoining.ReduceAllIsLastBest | src/phylogeny/njoining/njoining.cpp:37-45 | folded in rank order, the all-reduce gives the last candidate with the largest score |
| NJoining.ReduceAllAnyOrder | src/phylogeny/njoining/njoining.cpp:37-45 | whatever order MPI combines the votes in, the agreed vote is one of them with the largest score, and that score is the same for every order |
| NJoining.ReduceAllSplit | src/phylogeny/njoining/njoining.cpp:37-45 | reducing two groups and combining equals reducing all |
| PhylogenyMatrix.SwapRowColSymmetric | src/phylogeny/njoining/impl/sequential.cpp:196 | exchanging two OTUs keeps the matrix symmetric |
| PhylogenyMatrix.SwapRowColRow | src/phylogeny/njoining/impl/sequential.cpp:196 | each row of the exchanged matrix is the matching row with its two cells exchanged |
| PhylogenyMatrix.SwapRowColExcludes | src/phylogeny/njoining/impl/sequential.cpp:195-196 | exchanging OTUs in matrix and cache keeps the cache consistent |
| PhylogenyMatrix.RemoveRowColSums | src/phylogeny/njoining/impl/sequential.cpp:197 | removing an OTU keeps symmetry and takes its distance out of every total divergence |
| NJoiningSequential.Star.Make | src/phylogeny/njoining/impl/sequential.cpp:280 | a star tree over `count` leaves with no joins |
| NJoiningSequential.Star.Join | src/phylogeny/njoining/impl/sequential.cpp:241 | appends exactly one join node |
| NJoiningSequential.PairSumIsRowSum | src/phylogeny/njoining/impl/sequential.cpp:87-93 | on a symmetric matrix, the pair loop adds up each OTU's total divergence |
| NJoiningSequential.CacheAsWrittenLastEntry | src/phylogeny/njoining/impl/sequential.cpp:83-85 | as written, every cache entry but the last is right; the last is off by the buffer's leftover value |
| NJoiningSequential.QTransformCriterion | src/phylogeny/njoining/impl/sequential.cpp:130-133 | the Q-value is `(n - 2) d(x, y) - R(x) - R(y)` and symmetric in the pair |
| NJoiningSequential.RaiseCandidate | src/phylogeny/njoining/impl/sequential.cpp:143-152 | the two branch lengths add up to `d(x, y)`, with `dx` the neighbor-joining formula |
| NJoiningSequential.PairAtPosition | src/phylogeny/njoining/impl/sequential.cpp:165-166 | pair `(i, j)`, `j < i`, sits at position `nchoose(i) + j`, and the row/column formulas recover it |
| NJoiningSequential.PairEnumeration | src/phylogeny/njoining/impl/sequential.cpp:165-172 | every pair `j < i < n` has exactly one position below `nchoose(n)` |
| NJoiningSequential.BestHeld | src/phylogeny/njoining/impl/sequential.cpp:171-177 | a pick is held iff at least one pair was examined |
| NJoiningSequential.BestIsMaximum | src/phylogeny/njoining/impl/sequential.cpp:171-177 | no examined pair has a larger Q-value than the pick |
| NJoiningSequential.BestIsFirst | src/phylogeny/njoining/impl/sequential.cpp:171-177 | the pick is the first examined pair with the largest Q-value |
| NJoiningSequential.ScanIsBest | src/phylogeny/njoining/impl/sequential.cpp:171-177 | the two-loop row-by-row walk ends with the pick of the whole partition |
| NJoiningSequential.PickInRow | src/phylogeny/njoining/impl/sequential.cpp:172-177 | the inner loop walks the row while pairs remain and holds the walk's pick |
| NJoiningSequential.JoinedKeepsCache | src/phylogeny/njoining/impl/sequential.cpp:245-256 | the join keeps symmetry; the cache holds every divergence without `y`; the parent's entry is its row total |
| NJoiningSequential.JoinKeepsValid | src/phylogeny/njoining/impl/sequential.cpp:231-261 | join then removal leaves a symmetric matrix one smaller, with a cache of total divergences |
| NJoiningSequential.SkippedJoinSteps | src/phylogeny/njoining/impl/sequential.cpp:245-252 | with `d(x, y)` saved, the steps `i == x` and `i == y` would write `d(x, x) / 2` and `d(y, y) / 2`; both are zero iff the diagonal is zero there |
| NJoiningSequential.JoinPairOverwrites | src/phylogeny/njoining/impl/sequential.cpp:245-252 | counterexample: the as-written loop gives the parent distance 3 where the formula gives 2 |
| NJoiningSequential.JoinedMap | src/phylogeny/njoining/impl/sequential.cpp:257-259 | the map loses `x` and `y` and gains the parent |
| NJoiningSequential.JoinedMapFresh | src/phylogeny/njoining/impl/sequential.cpp:257-259 | distinct references below the next parent stay distinct and below the next one |
| NJoiningSequential.State.Initialize | src/phylogeny/njoining/impl/sequential.cpp:105-120 | copies the matrix, maps each position to its own OTU, and the state is valid |
| NJoiningSequential.State.AddPairSums | src/phylogeny/njoining/impl/sequential.cpp:87-93 | every cache entry grows by its pair sum |
| NJoiningSequential.State.CacheInitAsWritten | src/phylogeny/njoining/impl/sequential.cpp:81-94 | the cache becomes `CacheAsWritten` of the old buffer |
| NJoiningSequential.State.CacheInit | src/phylogeny/njoining/impl/sequential.cpp:81-94 | corrected: the cache holds each OTU's total divergence |
| NJoiningSequential.State.PickJoinable | src/phylogeny/njoining/impl/sequential.cpp:162-182 | the raised `Best` of the partition; a pick exists iff the partition is non-empty |
| NJoiningSequential.State.SwapRemove | src/phylogeny/njoining/impl/sequential.cpp:192-204 | matrix, cache and map are exchanged at `keep`/`remove`, then `remove` is dropped |
| NJoiningSequential.State.UpdateCache | src/phylogeny/njoining/impl/sequential.cpp:213-220 | `swap_remove` through position 0 (symmetric) or `count - 1` (linear) |
| NJoiningSequential.State.UpdateDistances | src/phylogeny/njoining/impl/sequential.cpp:245-252 | corrected loop: matrix becomes `Joined`, cache `JoinedCacheUpTo`, and the new sum is the parent's total |
| NJoiningSequential.State.JoinPair | src/phylogeny/njoining/impl/sequential.cpp:231-261 | records the join, keeps the state valid, one OTU fewer, and the map trades `x`, `y` for the parent |
| NJoiningSequential.BestJoinIsMaximum | src/phylogeny/njoining/impl/sequential.cpp:162-181 | the pair a round joins has the largest Q-value of all pairs of the matrix, and its score is its own Q-value |
| NJoiningSequential.NextRound | src/phylogeny/njoining/impl/sequential.cpp:231-261 | a round hangs its pair from `parent` and leaves a fitting phase one OTU smaller |
| NJoiningSequential.JoinBest | src/phylogeny/njoining/impl/sequential.cpp:285-310 | one pass is the round `NextRound` of the old phase: the tree gains that round's node (the pair `BestJoin` picks on the old matrix, under `parent`) and the state becomes the round's next phase; the two references joined are distinct and live, and are traded for the parent |
| NJoiningSequential.StepFits | src/phylogeny/njoining/impl/sequential.cpp:284-310 | every round keeps the phase fitting and removes one OTU |
| NJoiningSequential.After | src/phylogeny/njoining/impl/sequential.cpp:284-310 | the phase after `k` rounds fits and has `k` fewer OTUs |
| NJoiningSequential.Joins | src/phylogeny/njoining/impl/sequential.cpp:284-310 | one join per OTU above three |
| NJoiningSequential.AfterStep | src/phylogeny/njoining/impl/sequential.cpp:284-310 | round `k` goes from the phase after `k` rounds to the phase after `k + 1` rounds |
| NJoiningSequential.JoinsAt | src/phylogeny/njoining/impl/sequential.cpp:284-310 | join `k` is the node round `k` makes on the phase after `k` rounds, numbered `parent + k` |
| NJoiningSequential.JoinsParent | src/phylogeny/njoining/impl/sequential.cpp:279-310 | join `k` hangs its OTUs from parent `parent + k` (`parent++` from the count) |
| NJoiningSequential.ReplayedStep | src/phylogeny/njoining/impl/sequential.cpp:284-310 | one more round keeps the joins recorded a prefix of `Joins` and the state the phase after those rounds |
| NJoiningSequential.NumberedStep | src/phylogeny/njoining/impl/sequential.cpp:279-310 | appending a join numbered `n0 + k` over two distinct references keeps every join numbered and its two children distinct |
| NJoiningSequential.BuildTree | src/phylogeny/njoining/impl/sequential.cpp:277-314 | joins until three OTUs remain; parents are numbered from the count; each reference is live or hung, never both; the joins are exactly `Joins` of the initial phase |
| NJoiningSequential.JoinBookkeeping | src/phylogeny/njoining/impl/sequential.cpp:241-259 | one join keeps the live-plus-hung references equal to initial OTUs plus parents |
| NJoiningSequential.Run | src/phylogeny/njoining/impl/sequential.cpp:321-330 | `Guide`: empty iff fewer than two OTUs; otherwise a star over `count` leaves whose joins are `Joins` of the initial matrix with the identity map; `count - min(count, 3)` joins, numbered parents, every hung OTU existing before |
| NJoiningSequential.ChildrenBelow | src/phylogeny/njoining/impl/sequential.cpp:326-327 | with the initial references accounted for, every OTU hung is a leaf or an earlier parent, and none twice |
| Database.OverrideLookup | src/database.cpp:47-53 | a key written in `[lo, hi)` maps to the last position carrying it; other keys are unchanged |
| Database.DecimalRoundTrip | src/database.hpp:99-102 | the decimal text of a number reads back as that number |
| Database.AnonymousNamesDistinct | src/database.hpp:99-102 | different anonymous numbers give different descriptions |
| Database.Database.constructor | src/database.hpp:52 | an empty, consistent database |
| Database.Database.Count | src/database.hpp:166-169 | the number of entries |
| Database.Database.At | src/database.hpp:64-68 | fails iff the offset is out of range; otherwise that entry |
| Database.Database.Find | src/database.hpp:75-80 | fails iff the key is unknown; in a consistent database, the latest entry with that description |
| Database.Database.Add | src/database.hpp:89-93 | appends the entry and points its description at it, keeping the index consistent |
| Database.Database.AddAnonymous | src/database.hpp:99-102 | appends an entry named after the next anonymous number |
| Database.Database.AddAll | src/database.hpp:108-112 | appends `Anonymous(last, elems)` and advances the counter |
| Database.Database.UpdateKeys | src/database.cpp:47-53 | the index is overridden by the entries from `index` on |
| Database.Database.Merge | src/database.cpp:24-29 | appends the other entries; the index becomes consistent with the merged entries |
| Database.Database.MergeMove | src/database.cpp:35-41 | as `Merge`, and the other index is cleared |
| Database.Database.OnlyOffsets | src/database.hpp:181-185 | fails iff an offset is out of range; otherwise a fresh consistent database of the selected entries in key order |
| Database.Database.OnlyKeys | src/database.hpp:181-185 | fails iff a key is unknown; otherwise a fresh consistent database of the entries the keys point at |
| Database.Anonymous | src/database.hpp:108-112 | entry `k` is named `anonymous#(last + k + 1)` and holds element `k` |
| Database.MergedIndex | src/database.cpp:24-29 | indexing the appended entries of a consistent database gives the merged index |
| Database.MergedLookup | src/database.cpp:24-29 | after a merge a key points at its latest entry, appended or old |
| Bootstrap.Chunks | src/bootstrap.cpp:75-79 | one chunk per size, each of that size |
| Bootstrap.TotalSizes | src/bootstrap.cpp:44-58 | the sizes add up to the number of flattened blocks |
| Bootstrap.ChunksOfFlatten | src/bootstrap.cpp:44-81 | cutting the flattened blocks by the sizes gives back every entry's contents |
| Bootstrap.Serialize | src/bootstrap.cpp:44-58 | sizes and blocks are each entry's block count and blocks, in order |
| Bootstrap.Unserialize | src/bootstrap.cpp:67-81 | a fresh consistent database of anonymous entries holding the chunks, in order |
| Bootstrap.AnonymousContents | src/bootstrap.cpp:75-79 | anonymous entries hold the given sequences, in order |
| Bootstrap.RoundTrip | src/bootstrap.cpp:44-81 | unserializing a serialization gives the same contents at every index |
| Fasta.LineReader.Eof | src/io/loader/parser/fasta.cpp:35 | true iff every line has been read |
| Fasta.LineReader.NextIsNotHeader | src/io/loader/parser/fasta.cpp:41 | the next line does not start with '>'; true at the end |
| Fasta.LineReader.GetLine | src/io/loader/parser/fasta.cpp:36 | gives the next line and advances; fails only at the end |
| Fasta.FirstHeader | src/io/loader/parser/fasta.cpp:31-37 | the first header at or after `k`, with no header before it |
| Fasta.BodyEnd | src/io/loader/parser/fasta.cpp:41-42 | the first header or empty line at or after `k`, with none before it |
| Fasta.SkipToHeader | src/io/loader/parser/fasta.cpp:31-39 | finds a header iff one is left, stops right after it and gives its description |
| Fasta.ReadBody | src/io/loader/parser/fasta.cpp:41-42 | joins the lines up to the next header or empty line, and consumes an empty line |
| Fasta.ExtractToDb | src/io/loader/parser/fasta.cpp:26-46 | true iff a record is left; then that record is added and reading resumes after it, else the file is at its end and the database unchanged |
| Fasta.EntriesOfAt | src/io/loader/parser/fasta.cpp:44 | entry `i` holds record `i`'s description and encoded text |
| Fasta.ReadFasta | src/io/loader/parser/fasta.cpp:58-70 | a fresh consistent database with one entry per record of the file, in order |
| Fasta.RecordShape | src/io/loader/parser/fasta.cpp:31-42 | a record's description is its header without '>' and its text is the following lines joined |
| Terminal.FlagMapHas | src/terminal.cpp:27-30 | a flag is in the table iff some option lists it |
| Terminal.FlagMapLast | src/terminal.cpp:27-30 | a flag selects the last option listing it |
| Terminal.BuildFlagMap | src/terminal.cpp:27-30 | the nested loops build `FlagMap(options)` |
| Terminal.TokensCover | src/terminal.cpp:32-47 | each argument after the program name is taken by exactly one token, in order |
| Terminal.TokensFailure | src/terminal.cpp:43-44 | the only error is a value-taking flag as the last argument |
| Terminal.ValuesOf | src/terminal.cpp:46 | a name's values are its tokens' values, in order |
| Terminal.Parse | src/terminal.cpp:22-50 | the parser is `Collect(Tokens(FlagMap(options), argv[1..]))` |
| Terminal.Scan | src/terminal.cpp:32-47 | the argument loop gives the parser the token scan describes |
| Terminal.Has | src/terminal.hpp:62-66 | true iff the name has a non-empty value list |
| Terminal.All | src/terminal.hpp:73-76 | the name's values, empty iff `has` is false |
| Terminal.Get | src/terminal.hpp:96-102 | the converted first value, or the fallback |
| Terminal.GetAt | src/terminal.hpp:113-119 | the converted positional argument, or the fallback |
| Terminal.ParsedValues | src/terminal.cpp:32-47 | after a successful parse, `all(name)` lists the name's values in the order given |
| Dispatcher.LessTotal | src/dispatcher.hpp:21 | two different strings are ordered one way or the other |
| Dispatcher.HasLeast | src/dispatcher.hpp:45-46 | a non-empty key set has a least key, the next one a `std::map` walk visits |
| Dispatcher.PairsMapLookup | src/dispatcher.hpp:53-55 | a key is in the table iff some pair gives it, and it holds the first such pair's element |
| Dispatcher.SortedKeys | src/dispatcher.hpp:45-46 | the keys of the table, ascending, each once |
| Dispatcher.Dispatcher.constructor | src/dispatcher.hpp:42-47 | the table is the given map; the key list holds its keys in ascending order |
| Dispatcher.Dispatcher.FromPairs | src/dispatcher.hpp:53-55 | the table is built from the pairs (first wins), the key list consistent with it |
| Dispatcher.Dispatcher.Get | src/dispatcher.hpp:65-70 | fails iff the key is unknown; otherwise its element |
| Dispatcher.Dispatcher.Has | src/dispatcher.hpp:77-80 | true iff `operator[]` succeeds |
| Dispatcher.Dispatcher.List | src/dispatcher.hpp:86-89 | the known keys, ascending and distinct, exactly those `has` accepts |
| Pipeline.Next | src/pipeline.hpp:106-110 | bubbles to the wrapped module's `run` |
| Pipeline.TransparentMiddleware | src/pipeline.hpp:106-110 | a middleware that always calls `next` behaves like the wrapped module |
| Pipeline.SkippingMiddleware | src/pipeline.hpp:106-110 | a middleware that ignores `next` gives the same result whatever it wraps |
| Pipeline.Autowire | src/pipeline.hpp:142-149 | no layers give the module itself; otherwise the first layer is outermost |
| Pipeline.AutowireTransparent | src/pipeline.hpp:188-189 | wrapping in always-bubbling middlewares leaves `run` unchanged |
| Pipeline.Chainable | src/pipeline.hpp:160-174 | the empty chain is chainable |
| Pipeline.ChainableLinks | src/pipeline.hpp:160-174 | the chain check holds iff every module accepts its predecessor and is a module |
| Pipeline.RunnerFirstExpectsVoid | src/pipeline.hpp:202 | a runner's first module must expect `void` |
| Pipeline.Convert | src/pipeline.hpp:119-128 | the conduit when it is of the expected class or derived from it, else the empty pointer |
| Pipeline.Verify | src/pipeline.hpp:238-245 | true iff every `check` passes; on failure, stops at the first failing one |
| Pipeline.PipeAfterConcat | src/pipeline.hpp:253-261 | running two chains in sequence is running their concatenation |
| Pipeline.Execute | src/pipeline.hpp:253-261 | module 0 gets the empty pipe, every later one its predecessor's result, and the last result is returned |
| Pipeline.Run | src/pipeline.hpp:216-228 | fails iff some `check` fails, with no module run; otherwise the chain's result |

## Left out

- Distances are modelled as `real`; floating-point rounding in `q_transform`, `raise_candidate` and `join_pair` is not modelled.
- Scores are unbounded `int`; 32-bit overflow in the Needleman-Wunsch scores is not modelled.
- MPI is not modelled as processes:
  - `reduce` is a fold of `closest` over the nodes' candidates.
  - `gather` is a concatenation in rank order.
  - `scatter` takes the rank and the node count as parameters.
  - `build_tree` runs in the single-process layout, where one partition `{0, nchoose(count)}` covers all pairs.
- The phylogeny distance matrix's `swap`/`remove` and the star tree's `join` are modelled by their evident meaning; their headers are not part of this model. The default `candidate` has no pair and is beaten by every Q-value.
- The A002024 closed form `floor(1/2 + sqrt(2k))` is modelled by its defining property, not by floating-point square roots.
- Needleman.Generate: requires `num >= 1`, because the source computes `num - 1` on an unsigned type and wraps for 0.
- Needleman.Generate: pair indices are unbounded `nat`. The source stores them as `uint16_t`, so they wrap once `num > 65536`; the contract describes only `num <= 65536`.
- Pairwise.PackedIndex: computed on unbounded integers. The source takes `uint16_t` indices and computes `(max + 1) * max` in `int`, which overflows once `max >= 46341`. The lemmas about it (`Pairwise.PackedIndexRow` to `Pairwise.PackedIndexOnto`, and `Pairwise.Unpack`) describe the source only below that bound.
- NeedlemanSequential.Run: requires a non-empty database, for the same reason; `nodes` is a parameter.
- NJoiningSequential.State.Initialize: requires `count >= 1`, because `cache_init` computes `count - 1` unsigned.
- Database.Database.Merge: requires that the other database is not this one; merging a database into itself is not modelled.
- NJoining.ReduceAllIsLastBest: describes a fold in rank order. The source registers `closest` with MPI as commutative, so MPI may combine the votes in any order, and on tied scores the winning vote is not fixed. `NJoining.ReduceAllAnyOrder` states what holds in any order: the agreed vote has the largest score.
- NJoiningSequential.State.UpdateDistances: skips the steps `i == x` and `i == y` of the loop. With `d(x, y)` saved, the source would also write `d(x, x) / 2` into `(x, x)` and `d(y, y) / 2` into `(x, y)`, and add both to the parent's sum. The two agree exactly on a zero diagonal (`NJoiningSequential.SkippedJoinSteps`). The model assumes a zero diagonal for a distance matrix; `Distances` does not check it.
- Buffer.Buffer.Offset: returns a `Failure` on a bad position. `offset` is `noexcept`, so in the source the failing `enforce` terminates the process instead of raising an exception. The same holds for `Buffer.Buffer.SliceAsWritten` when `offset(displ)` fails.
- The anonymous counter is an unbounded `nat`; the `int` wrap-around of `anonymous` is not modelled.
- Database.Database.OnlyOffsets and Database.Database.OnlyKeys take the keys as a sequence in the key set's iteration order (ascending and distinct for a `std::set`). The contracts hold for any order.
- The FASTA file is its list of lines with a read cursor:
  - end of file means every line has been read;
  - `peek() != '>'` looks at the next line;
  - stream failure and opening the file (its `enforce`) are left out.
- `utils::convert` is a parameter of `Terminal.Get` and `Terminal.GetAt`.
- The help text and `terminal::option` descriptions play no part.
- Bootstrap `load`, `run` and the broadcast of sizes and blocks are I/O and MPI; only `serialize`/`unserialize` are modelled.
- The pipeline's `io::manager` is left out:
  - each module's `check` answer and `run` behaviour are data carried by the module;
  - C++ types are names with a set of base classes.
- Ownership, moves and `std::move` iterators are values; `merge(std::move(db))` is modelled by clearing the other index, which is what the source does.
- Buffer allocators, device memory, `raw()` pointers and `begin`/`end` iterators are left out.
- The `sequence_view` class repeats `sequence`'s accessors and is not modelled separately.
- Encoder.EncodeLetter: takes one Dafny `char` per letter of text. The source encodes bytes: `toupper` runs on a `uint8_t`, so a character of several bytes (UTF-8) yields one `End` unit per byte, where the model yields one. `ToUpper` folds ASCII letters only, as `toupper` does in the "C" locale.

## Findings

| source | as written | input that shows it | evidently intended | confidence | as-written member | corrected member |
|---|---|---|---|---|---|---|
| src/phylogeny/njoining/impl/sequential.cpp:245-252 | each step reads `matrix[{x, y}]`, which the step `i == y` has already overwritten | 4 OTUs, `d(0,1) = 2`, `d(2,0) = d(2,1) = 3`, join `x = 1`, `y = 0`: the parent ends at distance 3 from OTU 2 | `(d(i,x) + d(i,y) - d(x,y)) / 2` with the original `d(x,y)`, i.e. 2. The corrected member also skips the steps `i == x` and `i == y`; this agrees with the loop that only saves `d(x,y)` exactly when `d(x,x) = d(y,y) = 0` (NJoiningSequential.SkippedJoinSteps), which the model assumes of a distance matrix | high, not executed | NJoiningSequential.JoinPairOverwrites | NJoiningSequential.State.JoinPair |
| src/phylogeny/njoining/impl/sequential.cpp:83-85 | the zeroing loop stops at `count - 1`, so the last cache entry keeps the fresh buffer's value | any matrix with a last buffer entry that is not zero: the last total divergence is off by that value | every entry starts from zero | medium, not executed | NJoiningSequential.CacheAsWrittenLastEntry | NJoiningSequential.State.CacheInit |
| src/pairwise/needleman/communication.cpp:33-37 | the slice constructor calls `offset(displ)`, which rejects `displ == size` even for an empty slice | 1 pair over 3 nodes: rank 2 gets count 0 at displacement 1, and `offset(1)` fails inside a `noexcept` function, which terminates the process | an empty slice at the end of the buffer | high, not executed | NeedlemanCommunication.ScatterAsWrittenRejectsEmptyTail | NeedlemanCommunication.Scatter |
| src/buffer.hpp:265-282 | both slice constructors call `offset(displ)`, which demands `displ < size`, before the slice bound is checked | target of size 0, `displ = 0`, size 0 | accept every slice with `displ + size <= target size` | high, not executed | Buffer.SliceCheckDiscrepancy | Buffer.Buffer.Slice |
| inc/encoder.hpp:55-58 | the position parameter is `uint8_t`, so positions from 256 on are truncated | 258 'A's then a 'C': position 258 reads slot 2, an 'A' | the position at full width | high, not executed | Encoder.AccessBufferTruncates | Encoder.AccessBuffer |
