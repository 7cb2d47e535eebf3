/** The bit-packing sequence encoder (src/encoder.cpp, inc/encoder.hpp). Each
    16-bit block holds three 5-bit symbol codes at bit offsets 1, 6 and 11;
    bit 0 is set on the final block of a sequence. */
module Encoder {
  import opened Wrappers

  /** `EncodedBlock`: an unsigned 16-bit block. */
  type Block = bv16

  /** A symbol code, a `uint8_t` of which the encoder only uses the low five bits. */
  type Unit = bv8

  /** `encoder::end`, the end-of-sequence code, which decodes to '*'. */
  const End: Unit := 0x18

  /** `batchSize`: how many 5-bit codes fit in one block. */
  const BatchSize: nat := 3

  /** The bit offsets of the slots of a block; only the first `BatchSize` are used by 16-bit blocks. */
  const Shift: seq<bv16> := [1, 6, 11, 17, 22, 27]

  /** `encodeTable`: the code of each letter 'A' to 'Z'; 'O', 'U' and 'X' share 0x17. */
  const EncodeTable: seq<Unit> :=
    [0x00, 0x14, 0x01, 0x06, 0x08, 0x0E, 0x03, 0x09, 0x0A, 0x15, 0x0C, 0x0B, 0x0D,
     0x05, 0x17, 0x0F, 0x07, 0x04, 0x10, 0x02, 0x17, 0x13, 0x11, 0x17, 0x12, 0x16]

  /** `decodeTable`: the letter of each of the 26 valid codes. */
  const DecodeTable: seq<char> :=
    ['A', 'C', 'T', 'G', 'R', 'N', 'D', 'Q', 'E', 'H', 'I', 'L', 'K',
     'M', 'F', 'P', 'S', 'W', 'Y', 'V', 'B', 'J', 'Z', 'X', '*', '-']

  /** The batch size is `8 * sizeof(uint16_t) / 5`, and both tables cover the 26 letters. */
  lemma BatchSizeFromBlockWidth()
    ensures BatchSize == 8 * 2 / 5 && |EncodeTable| == 26 && |DecodeTable| == 26
  {
  }

  /** `toupper` on ASCII letters. */
  function ToUpper(c: char): char
  {
    if 'a' <= c <= 'z' then (c as int - 'a' as int + 'A' as int) as char else c
  }

  predicate IsUpper(c: char) { 'A' <= c <= 'Z' }

  /** `access(block, offset)`: the 5-bit code held in slot `offset` of a block. */
  function Access(block: Block, offset: nat): (u: Unit)
    requires offset < BatchSize
    ensures u < 32
  {
    ((block >> Shift[offset]) & 0x1F) as Unit
  }

  /** `encode(letter)`: upper-cases the letter and looks it up in the table;
      anything that is not a letter becomes `End`. */
  function EncodeLetter(c: char): (u: Unit)
    ensures u <= End
    ensures u == End <==> !IsUpper(ToUpper(c))
  {
    var up := ToUpper(c);
    if IsUpper(up) then EncodeTable[up as int - 'A' as int] else End
  }

  /** The letter a code decodes to, when it is one of the 26 valid codes. */
  function DecodeElement(element: Unit): (r: Result<char>)
    ensures r.Success? <==> element < 26
    ensures r.Success? ==> r.value == DecodeTable[element as int]
  {
    if element >= 26 then Failure("cannot convert invalid sequence element")
    else Success(DecodeTable[element as int])
  }

  /** Every letter survives encoding and decoding, up to case, except 'O' and
      'U', which come back as 'X'; everything else comes back as '*'. */
  lemma EncodeDecodeLetter(c: char)
    ensures DecodeElement(EncodeLetter(c)).Success?
    ensures IsUpper(ToUpper(c)) && ToUpper(c) != 'O' && ToUpper(c) != 'U' ==>
              DecodeElement(EncodeLetter(c)).value == ToUpper(c)
    ensures ToUpper(c) == 'O' || ToUpper(c) == 'U' ==> DecodeElement(EncodeLetter(c)).value == 'X'
    ensures !IsUpper(ToUpper(c)) ==> DecodeElement(EncodeLetter(c)).value == '*'
  {
    var up := ToUpper(c);
    if IsUpper(up) {
      var k := up as int - 'A' as int;
      assert 0 <= k < 26;
      assert up == ('A' as int + k) as char;
      assert k == 0 || k == 1 || k == 2 || k == 3 || k == 4 || k == 5 || k == 6 || k == 7 || k == 8
          || k == 9 || k == 10 || k == 11 || k == 12 || k == 13 || k == 14 || k == 15 || k == 16
          || k == 17 || k == 18 || k == 19 || k == 20 || k == 21 || k == 22 || k == 23 || k == 24
          || k == 25;
    }
  }

  /** The codes of the letters of a text, in order. */
  function Codes(s: string): seq<Unit>
  {
    seq(|s|, n requires 0 <= n < |s| => EncodeLetter(s[n]))
  }

  /** Every code fits in a 5-bit slot. */
  predicate ValidCodes(codes: seq<Unit>)
  {
    forall n :: 0 <= n < |codes| ==> codes[n] < 32
  }

  lemma CodesValid(s: string)
    ensures ValidCodes(Codes(s))
  {
  }

  /** The code the encoder stores at position `n`: the `n`-th code, or `End`
      past the end. */
  function CodeAt(codes: seq<Unit>, n: nat): (u: Unit)
    requires ValidCodes(codes)
    ensures u < 32
  {
    if n < |codes| then codes[n] else End
  }

  /** A block holding the codes `a`, `b` and `c` in its slots and `flag` in bit 0. */
  function PackBlock(a: Unit, b: Unit, c: Unit, flag: Block): Block
  {
    ((a as Block) << 1) | ((b as Block) << 6) | ((c as Block) << 11) | flag
  }

  /** The code in slot `j` of the triple `a, b, c`. */
  function Slot(a: Unit, b: Unit, c: Unit, j: nat): Unit
    requires j < BatchSize
  {
    if j == 0 then a else if j == 1 then b else c
  }

  /** The three slots of a packed block are independent: each gives back its
      code, and bit 0 is the final-block flag. */
  lemma AccessPackBlock(a: Unit, b: Unit, c: Unit, flag: Block)
    requires a < 32 && b < 32 && c < 32 && flag <= 1
    ensures Access(PackBlock(a, b, c, flag), 0) == a
    ensures Access(PackBlock(a, b, c, flag), 1) == b
    ensures Access(PackBlock(a, b, c, flag), 2) == c
    ensures PackBlock(a, b, c, flag) & 1 == flag
  {
  }

  /** The same, for a slot given by its index. */
  lemma AccessPackBlockSlot(a: Unit, b: Unit, c: Unit, flag: Block, j: nat)
    requires a < 32 && b < 32 && c < 32 && flag <= 1 && j < BatchSize
    ensures Access(PackBlock(a, b, c, flag), j) == Slot(a, b, c, j)
  {
    AccessPackBlock(a, b, c, flag);
    if j == 0 {
    } else if j == 1 {
    } else {
    }
  }

  /** The number of blocks a text of `size` letters needs: its size divided by three, rounded up. */
  function NumBlocks(size: nat): nat
  {
    (size + BatchSize - 1) / BatchSize
  }

  /** The final-block flag of block `i`: 1 when the codes end inside or right after it. */
  function FinalFlag(size: nat, i: nat): (f: Block)
    ensures f <= 1
    ensures f == 1 <==> 3 * i + 3 >= size
  {
    if 3 * i + 3 >= size then 1 else 0
  }

  /** Block `i` of the encoding of `codes`: three consecutive codes, padded
      with `End`, and its final-block flag. */
  function BlockOf(codes: seq<Unit>, i: nat): Block
    requires ValidCodes(codes)
  {
    PackBlock(CodeAt(codes, 3 * i), CodeAt(codes, 3 * i + 1), CodeAt(codes, 3 * i + 2), FinalFlag(|codes|, i))
  }

  /** The blocks holding a sequence of codes, three per block. */
  function EncodedCodes(codes: seq<Unit>): (r: seq<Block>)
    requires ValidCodes(codes)
    ensures |r| == NumBlocks(|codes|)
  {
    seq(NumBlocks(|codes|), i requires 0 <= i < NumBlocks(|codes|) => BlockOf(codes, i))
  }

  /** The blocks `encode(ptr, size)` produces for the text `s`. */
  function Encoded(s: string): (r: seq<Block>)
    ensures |r| == NumBlocks(|s|)
  {
    CodesValid(s);
    EncodedCodes(Codes(s))
  }

  /** The block after its first `j` slots were filled with the codes `a, b, c`. */
  function PartialBlock(a: Unit, b: Unit, c: Unit, j: nat): Block
    requires j <= BatchSize
  {
    if j == 0 then 0
    else if j == 1 then (a as Block) << 1
    else if j == 2 then ((a as Block) << 1) | ((b as Block) << 6)
    else ((a as Block) << 1) | ((b as Block) << 6) | ((c as Block) << 11)
  }

  /** OR-ing the first code in at its shift fills slot 0. */
  lemma FillSlot0(block: Block, code: Unit, a: Unit, b: Unit, c: Unit, j: nat)
    requires j == 0
    requires block == PartialBlock(a, b, c, j) && code == Slot(a, b, c, j)
    ensures block | ((code as Block) << Shift[j]) == PartialBlock(a, b, c, j + 1)
  {
  }

  /** OR-ing the second code in at its shift fills slot 1. */
  lemma FillSlot1(block: Block, code: Unit, a: Unit, b: Unit, c: Unit, j: nat)
    requires j == 1
    requires block == PartialBlock(a, b, c, j) && code == Slot(a, b, c, j)
    ensures block | ((code as Block) << Shift[j]) == PartialBlock(a, b, c, j + 1)
  {
  }

  /** OR-ing the third code in at its shift fills slot 2. */
  lemma FillSlot2(block: Block, code: Unit, a: Unit, b: Unit, c: Unit, j: nat)
    requires j == 2
    requires block == PartialBlock(a, b, c, j) && code == Slot(a, b, c, j)
    ensures block | ((code as Block) << Shift[j]) == PartialBlock(a, b, c, j + 1)
  {
  }

  /** OR-ing the code of slot `j` in at its shift fills that slot. */
  lemma FillSlot(block: Block, code: Unit, a: Unit, b: Unit, c: Unit, j: nat)
    requires j < BatchSize
    requires block == PartialBlock(a, b, c, j) && code == Slot(a, b, c, j)
    ensures block | ((code as Block) << Shift[j]) == PartialBlock(a, b, c, j + 1)
  {
    if j == 0 {
      FillSlot0(block, code, a, b, c, j);
    } else if j == 1 {
      FillSlot1(block, code, a, b, c, j);
    } else {
      FillSlot2(block, code, a, b, c, j);
    }
  }

  /** The code `encode(ptr, size)` reads for slot `j` of the block at `n` is slot `j` of that block's triple. */
  lemma NextCode(s: string, n: nat, j: nat, code: Unit)
    requires j < BatchSize
    requires code == if n + j < |s| then EncodeLetter(s[n + j]) else End
    ensures ValidCodes(Codes(s))
    ensures code == Slot(CodeAt(Codes(s), n), CodeAt(Codes(s), n + 1), CodeAt(Codes(s), n + 2), j)
  {
    CodesValid(s);
    CodeAtSlot(Codes(s), n, j);
  }

  /** The code at position `base + j` is slot `j` of the triple starting at `base`. */
  lemma CodeAtSlot(codes: seq<Unit>, base: nat, j: nat)
    requires ValidCodes(codes) && j < BatchSize
    ensures CodeAt(codes, base + j) == Slot(CodeAt(codes, base), CodeAt(codes, base + 1), CodeAt(codes, base + 2), j)
  {
  }

  /** The inner loop of `encode(ptr, size)`: ORs the three codes from position
      `n` on (or `End` past the text) into a block at their shifts. */
  method FillBlock(s: string, n: nat) returns (block: Block)
    ensures ValidCodes(Codes(s)) && block == PartialBlock(CodeAt(Codes(s), n), CodeAt(Codes(s), n + 1), CodeAt(Codes(s), n + 2), 3)
  {
    ghost var codes := Codes(s);
    CodesValid(s);
    ghost var a, b, c := CodeAt(codes, n), CodeAt(codes, n + 1), CodeAt(codes, n + 2);
    block := 0;
    var j := 0;
    while j < BatchSize
      invariant 0 <= j <= BatchSize
      invariant block == PartialBlock(a, b, c, j)
    {
      var code := if n + j < |s| then EncodeLetter(s[n + j]) else End;
      NextCode(s, n, j, code);
      FillSlot(block, code, a, b, c, j);
      block := block | ((code as Block) << Shift[j]);
      j := j + 1;
    }
  }

  /** The block filled from position `n = 3 * i`, flagged when the codes end
      inside or right after it, is block `i` of their encoding. */
  lemma CompleteBlock(codes: seq<Unit>, i: nat, n: nat, block: Block, flag: Block)
    requires ValidCodes(codes) && i < NumBlocks(|codes|) && n == 3 * i
    requires block == PartialBlock(CodeAt(codes, n), CodeAt(codes, n + 1), CodeAt(codes, n + 2), 3)
    requires flag == FinalFlag(|codes|, i)
    ensures block | flag == EncodedCodes(codes)[i]
  {
    assert EncodedCodes(codes)[i] == BlockOf(codes, i);
  }

  /** `encode(ptr, size)`: fills one block per three letters, pads the final
      block with `End` and flags it in bit 0. */
  method Encode(s: string) returns (blocks: seq<Block>)
    ensures blocks == Encoded(s)
  {
    CodesValid(s);
    blocks := [];
    var n := 0;
    while n < |s|
      invariant n == 3 * |blocks| && |blocks| <= NumBlocks(|s|)
      invariant n < |s| ==> |blocks| < NumBlocks(|s|)
      invariant blocks == EncodedCodes(Codes(s))[..|blocks|]
      decreases |s| - n
    {
      var block := FillBlock(s, n);
      var flag: Block := if n + BatchSize >= |s| then 1 else 0;
      assert flag == FinalFlag(|Codes(s)|, |blocks|);
      CompleteBlock(Codes(s), |blocks|, n, block, flag);
      AppendBlock(EncodedCodes(Codes(s)), blocks, block | flag);
      blocks := blocks + [block | flag];
      n := n + BatchSize;
    }
  }

  /** Appending the next block of a sequence to a prefix of it gives the next prefix. */
  lemma AppendBlock(all: seq<Block>, prefix: seq<Block>, next: Block)
    requires |prefix| < |all| && prefix == all[..|prefix|] && next == all[|prefix|]
    ensures prefix + [next] == all[..|prefix| + 1]
  {
  }

  /** Slot `j` of block `i` holds code `3 * i + j`, or `End` past the end. */
  lemma BlockOfSlot(codes: seq<Unit>, i: nat, j: nat)
    requires ValidCodes(codes) && j < BatchSize
    ensures Access(BlockOf(codes, i), j) == CodeAt(codes, 3 * i + j)
  {
    AccessPackBlockSlot(CodeAt(codes, 3 * i), CodeAt(codes, 3 * i + 1), CodeAt(codes, 3 * i + 2), FinalFlag(|codes|, i), j);
    CodeAtSlot(codes, 3 * i, j);
  }

  /** Slot `k % 3` of block `k / 3` of the encoding holds code `k`, or `End`
      past the end. */
  lemma EncodedCodesSlot(codes: seq<Unit>, k: nat)
    requires ValidCodes(codes) && k < BatchSize * NumBlocks(|codes|)
    ensures Access(EncodedCodes(codes)[k / BatchSize], k % BatchSize) == CodeAt(codes, k)
  {
    BlockOfSlot(codes, k / BatchSize, k % BatchSize);
  }

  /** Slot `k % 3` of block `k / 3` of an encoded text holds the code of its
      `k`-th letter, or `End` past the end. */
  lemma EncodedUnits(s: string, k: nat)
    requires k < BatchSize * NumBlocks(|s|)
    ensures Access(Encoded(s)[k / BatchSize], k % BatchSize) == if k < |s| then EncodeLetter(s[k]) else End
  {
    CodesValid(s);
    EncodedCodesSlot(Codes(s), k);
  }

  /** Only the final block of an encoding has bit 0 set. */
  lemma EncodedCodesFinalFlag(codes: seq<Unit>, i: nat)
    requires ValidCodes(codes) && i < NumBlocks(|codes|)
    ensures (EncodedCodes(codes)[i] & 1 == 1) <==> i == NumBlocks(|codes|) - 1
  {
    AccessPackBlock(CodeAt(codes, 3 * i), CodeAt(codes, 3 * i + 1), CodeAt(codes, 3 * i + 2), FinalFlag(|codes|, i));
  }

  /** Only the final block of an encoded text has bit 0 set. */
  lemma EncodedFinalFlag(s: string, i: nat)
    requires i < NumBlocks(|s|)
    ensures (Encoded(s)[i] & 1 == 1) <==> i == NumBlocks(|s|) - 1
  {
    CodesValid(s);
    EncodedCodesFinalFlag(Codes(s), i);
  }

  /** Every code of a block sequence is one of the 26 decodable codes. */
  predicate Decodable(blocks: seq<Block>)
  {
    forall i, j :: 0 <= i < |blocks| && 0 <= j < BatchSize ==> Access(blocks[i], j) < 26
  }

  /** `decode(buffer)`: one letter per slot of every block, in order. */
  method Decode(blocks: seq<Block>) returns (s: string)
    requires Decodable(blocks)
    ensures |s| == BatchSize * |blocks|
    ensures forall k :: 0 <= k < |s| ==> s[k] == DecodeTable[Access(blocks[k / BatchSize], k % BatchSize) as int]
  {
    s := [];
    var i := 0;
    while i < |blocks|
      invariant 0 <= i <= |blocks| && |s| == BatchSize * i
      invariant forall k :: 0 <= k < |s| ==> s[k] == DecodeTable[Access(blocks[k / BatchSize], k % BatchSize) as int]
    {
      var j := 0;
      while j < BatchSize
        invariant 0 <= j <= BatchSize && |s| == BatchSize * i + j
        invariant forall k :: 0 <= k < |s| ==> s[k] == DecodeTable[Access(blocks[k / BatchSize], k % BatchSize) as int]
      {
        s := s + [DecodeTable[Access(blocks[i], j) as int]];
        j := j + 1;
      }
      i := i + 1;
    }
  }

  /** Every encoded text can be decoded, and decoding gives back each letter
      as `EncodeDecodeLetter` describes, followed by '*' for each padding slot. */
  lemma DecodeEncoded(s: string, k: nat)
    requires k < BatchSize * NumBlocks(|s|)
    ensures Decodable(Encoded(s))
    ensures DecodeTable[Access(Encoded(s)[k / BatchSize], k % BatchSize) as int]
         == if k < |s| then DecodeElement(EncodeLetter(s[k])).value else '*'
  {
    CodesValid(s);
    forall i, j | 0 <= i < NumBlocks(|s|) && 0 <= j < BatchSize
      ensures Access(Encoded(s)[i], j) < 26
    {
      BlockOfSlot(Codes(s), i, j);
    }
    EncodedUnits(s, k);
    if k < |s| {
      EncodeDecodeLetter(s[k]);
    }
  }

  /** `access(buffer, offset)` as written: the offset parameter is a `uint8_t`,
      so the requested position is first truncated to its low eight bits. */
  function AccessBufferAsWritten(blocks: seq<Block>, offset: nat): (u: Unit)
    requires (offset % 256) / BatchSize < |blocks|
    ensures u == Access(blocks[(offset % 256) / BatchSize], (offset % 256) % BatchSize)
  {
    var truncated := offset % 256;
    Access(blocks[truncated / BatchSize], truncated % BatchSize)
  }

  /** `access(buffer, offset)` with the position taken at full width: slot
      `offset % 3` of block `offset / 3`. */
  function AccessBuffer(blocks: seq<Block>, offset: nat): (u: Unit)
    requires offset < BatchSize * |blocks|
    ensures u < 32
  {
    Access(blocks[offset / BatchSize], offset % BatchSize)
  }

  /** Read through the full-width access, an encoded text gives back the code
      of each of its letters. */
  lemma AccessBufferEncoded(s: string, k: nat)
    requires k < BatchSize * NumBlocks(|s|)
    ensures AccessBuffer(Encoded(s), k) == if k < |s| then EncodeLetter(s[k]) else End
  {
    EncodedUnits(s, k);
  }

  /** The truncation loses every position from 256 on: in the encoding of 258
      'A's followed by a 'C', position 258 holds the 'C', but the as-written
      access reads position 2, an 'A'. */
  lemma AccessBufferTruncates()
    ensures var s := seq(258, _ => 'A') + ['C'];
            AccessBuffer(Encoded(s), 258) == EncodeLetter('C') &&
            AccessBufferAsWritten(Encoded(s), 258) == EncodeLetter('A') &&
            EncodeLetter('A') != EncodeLetter('C')
  {
    var s := seq(258, _ => 'A') + ['C'];
    AccessBufferEncoded(s, 258);
    EncodedUnits(s, 2);
    assert s[2] == 'A' && s[258] == 'C';
  }
}
