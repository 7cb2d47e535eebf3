/** An encoded sequence (src/sequence.hpp): a buffer of 16-bit blocks, each
    holding three 5-bit codes, read back unit by unit. */
module Sequence {
  import opened Wrappers
  import opened Encoder

  /** `sequence::padding`: the code filling the slots past the end of the text. */
  const Padding: Unit := End

  /** `length()`: the number of slots, three per block. */
  function Length(blocks: seq<Block>): (n: nat)
    ensures n % BatchSize == 0 && n / BatchSize == |blocks|
  {
    BatchSize * |blocks|
  }

  /** `operator[](offset)`: the code at a slot position; raises when the
      position is outside the sequence, as the underlying buffer does. */
  function At(blocks: seq<Block>, offset: int): (r: Result<Unit>)
    ensures r.Success? <==> 0 <= offset < Length(blocks)
    ensures r.Success? ==> r.value == Access(blocks[offset / BatchSize], offset % BatchSize)
  {
    if 0 <= offset < Length(blocks) then Success(AccessBuffer(blocks, offset))
    else Failure("buffer offset out of range")
  }

  /** `block(offset)`: the block at an index, bounds-checked by the buffer. */
  function BlockAt(blocks: seq<Block>, offset: int): (r: Result<Block>)
    ensures r.Success? <==> 0 <= offset < |blocks|
    ensures r.Success? ==> r.value == blocks[offset]
  {
    if 0 <= offset < |blocks| then Success(blocks[offset]) else Failure("buffer offset out of range")
  }

  /** The number of slots among `1 .. i-1` of a block that hold the padding code. */
  function PaddedSlots(block: Block, i: nat): (n: nat)
    requires i <= BatchSize
    ensures i >= 1 ==> n <= i - 1
    ensures i == 0 ==> n == 0
  {
    if i <= 1 then 0
    else PaddedSlots(block, i - 1) + (if Access(block, i - 1) == Padding then 1 else 0)
  }

  /** `unpadded()`: the length minus the padded slots among slots 1 and 2 of
      the last block; slot 0 is never inspected. On an empty sequence the
      last block does not exist: the buffer's bounds check fails inside a
      `noexcept` function, which ends the process. */
  method Unpadded(blocks: seq<Block>) returns (r: Result<nat>)
    ensures r.Failure? <==> |blocks| == 0
    ensures r.Success? ==> r.value == Length(blocks) - PaddedSlots(blocks[|blocks| - 1], BatchSize)
    ensures r.Success? ==> Length(blocks) - (BatchSize - 1) <= r.value <= Length(blocks)
  {
    var last := BlockAt(blocks, |blocks| - 1);
    if last.Failure? {
      return Failure(last.error);
    }
    var length := Length(blocks);
    var i := 1;
    while i < BatchSize
      invariant 1 <= i <= BatchSize
      invariant length == Length(blocks) - PaddedSlots(last.value, i)
    {
      if Padding == Access(last.value, i) {
        length := length - 1;
      }
      i := i + 1;
    }
    return Success(length);
  }

  /** Every character of the text is a letter, so none encodes to the padding code. */
  predicate AllLetters(s: string)
  {
    forall k :: 0 <= k < |s| ==> IsUpper(ToUpper(s[k]))
  }

  /** Slot `j` of block `i` of an encoded text of letters holds the padding
      code exactly when it lies past the end of the text. */
  lemma EncodedSlotPadded(s: string, i: nat, j: nat)
    requires AllLetters(s) && i < NumBlocks(|s|) && j < BatchSize
    ensures Access(Encoded(s)[i], j) == Padding <==> 3 * i + j >= |s|
  {
    var k := 3 * i + j;
    assert k / BatchSize == i && k % BatchSize == j;
    EncodedUnits(s, k);
  }

  /** For a non-empty text of letters, the unpadded length of its encoding
      is the length of the text. */
  lemma UnpaddedEncoded(s: string)
    requires |s| >= 1 && AllLetters(s)
    ensures Length(Encoded(s)) - PaddedSlots(Encoded(s)[|Encoded(s)| - 1], BatchSize) == |s|
  {
    var i := NumBlocks(|s|) - 1;
    EncodedSlotPadded(s, i, 1);
    EncodedSlotPadded(s, i, 2);
  }
}
