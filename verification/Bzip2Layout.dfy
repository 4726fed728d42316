/** Files bit by bit, in terms of the data alone: the marks, the sizes of blocks, and both checksums. */
module Bzip2Layout {
  import opened Bits
  import opened Bzip2BitWriter
  import opened Bzip2Rle
  import opened Bzip2Bwt
  import opened Bzip2Mtf
  import opened Bzip2FixedCodes
  import opened Bzip2Format
  import opened Bzip2Crc
  import opened Bzip2Coding
  import opened Bzip2Blocks
  import opened Bzip2Files

  // ----- The checksum of the stream

  /** A word turned left by `k` bits, one at a time. */
  function Turned(c: bv32, k: nat): bv32 {
    if k == 0 then c else Turn(Turned(c, k - 1))
  }

  /** The exclusive or of the CRCs of the first `i` blocks, each turned once for every block behind it. */
  function TurnedSum(blocks: seq<seq<byte>>, i: nat): bv32
    requires i <= |blocks|
  {
    if i == 0 then 0 else Xor(TurnedSum(blocks, i - 1), Turned(Crc(blocks[i - 1]), |blocks| - i))
  }

  lemma {:induction false} SumTurns(blocks: seq<seq<byte>>, block: seq<byte>, i: nat)
    requires i <= |blocks|
    ensures TurnedSum(blocks + [block], i) == Turn(TurnedSum(blocks, i))
    decreases i
  {
    hide Xor, Crc, Turn;
    if i == 0 {
      NothingTurns();
    } else {
      SumTurns(blocks, block, i - 1);
      TurnXor(TurnedSum(blocks, i - 1), Turned(Crc(blocks[i - 1]), |blocks| - i));
      assert (blocks + [block])[i - 1] == blocks[i - 1];
    }
  }

  lemma NothingTurns()
    ensures Turn(0) == 0
  {
  }

  lemma {:induction false} CombineLast(combined: bv32, blocks: seq<seq<byte>>)
    requires blocks != []
    ensures CombineFrom(combined, blocks)
      == Combine(CombineFrom(combined, blocks[..|blocks| - 1]), Crc(blocks[|blocks| - 1]))
    decreases |blocks|
  {
    hide Combine, Crc;
    if |blocks| == 1 {
      assert blocks[1..] == [] && blocks[..0] == [];
    } else {
      CombineLast(Combine(combined, Crc(blocks[0])), blocks[1..]);
      assert blocks[1..][..|blocks| - 2] == blocks[..|blocks| - 1][1..];
      assert blocks[..|blocks| - 1][0] == blocks[0];
    }
  }

  /** What the stream's checksum is, block by block. */
  lemma {:induction false} CombinedIs(blocks: seq<seq<byte>>)
    ensures CombineFrom(0, blocks) == TurnedSum(blocks, |blocks|)
    decreases |blocks|
  {
    hide Combine, Crc, Xor, Turn, TurnedSum;
    if blocks == [] {
      NoSum();
    } else {
      var front, last := blocks[..|blocks| - 1], blocks[|blocks| - 1];
      CombineLast(0, blocks);
      CombinedIs(front);
      assert front + [last] == blocks;
      SumTurns(front, last, |front|);
      LastSum(blocks);
      CombineTurns(TurnedSum(front, |front|), Crc(last));
    }
  }

  lemma NoSum()
    ensures TurnedSum([], 0) == 0
  {
  }

  lemma LastSum(blocks: seq<seq<byte>>)
    requires blocks != []
    ensures TurnedSum(blocks, |blocks|) == Xor(TurnedSum(blocks, |blocks| - 1), Crc(blocks[|blocks| - 1]))
  {
    hide Xor, Crc, Turn;
  }

  // ----- The stream

  lemma {:induction false} ChunkSizes(data: seq<byte>)
    ensures forall i :: 0 <= i < |Chunks(data)| - 1 ==> |Chunks(data)[i]| == 80_000
    ensures data != [] ==> Chunks(data) != [] && 0 < |Chunks(data)[|Chunks(data)| - 1]| <= 80_000
    decreases |data|
  {
    if |data| > 80_000 {
      ChunkSizes(data[80_000..]);
      assert Chunks(data) == [data[..80_000]] + Chunks(data[80_000..]);
    }
  }

  lemma {:induction false} ShlTimes(v: nat, n: nat)
    ensures Shl(v, n) == v * Pow2(n)
  {
    if n > 0 {
      ShlTimes(v, n - 1);
    }
  }

  /** Two fields of 24 bits are one of 48. */
  lemma JoinHalves(high: nat, low: nat)
    requires low < 0x100_0000
    ensures FieldBits(high, 24) + FieldBits(low, 24) == FieldBits(high * 0x100_0000 + low, 48)
  {
    Pow2Values();
    ShlTimes(high, 24);
    hide FieldBits, Pow2, Shl;
    FieldJoin(high, 24, low, 24);
  }

  lemma EndMark(tail: seq<bool>)
    ensures FieldBits(END_MAGIC_HIGH, 24) + (FieldBits(END_MAGIC_LOW, 24) + tail)
      == FieldBits(0x177245385090, 48) + tail
  {
    hide FieldBits;
    JoinHalves(0x177245, 0x385090);
    Assoc(FieldBits(END_MAGIC_HIGH, 24), FieldBits(END_MAGIC_LOW, 24), tail);
  }

  lemma BlockMark(tail: seq<bool>)
    ensures FieldBits(BLOCK_MAGIC_HIGH, 24) + (FieldBits(BLOCK_MAGIC_LOW, 24) + tail)
      == FieldBits(0x314159265359, 48) + tail
  {
    hide FieldBits;
    JoinHalves(0x314159, 0x265359);
    Assoc(FieldBits(BLOCK_MAGIC_HIGH, 24), FieldBits(BLOCK_MAGIC_LOW, 24), tail);
  }

  lemma FooterIs(combined: bv32)
    ensures FooterBits(combined) == FieldBits(0x177245385090, 48) + FieldBits(combined as nat, 32)
  {
    hide FieldBits;
    EndMark(FieldBits(combined as nat, 32));
  }

  /**
   * A file: the letters `BZh1`, the blocks of 80,000 bytes, the end mark, and 32 bits of checksum, each block's CRC
   * turned left once for every block behind it.
   */
  lemma FileLayout(data: seq<byte>)
    ensures AllBlocky(Chunks(data)) && Flatten(Chunks(data)) == data
    ensures forall i :: 0 <= i < |Chunks(data)| - 1 ==> |Chunks(data)[i]| == 80_000
    ensures FileBits(data) == BytesBits([0x42, 0x5a, 0x68, 0x31]) + (BlocksBits(Chunks(data))
      + (FieldBits(0x177245385090, 48) + FieldBits(TurnedSum(Chunks(data), |Chunks(data)|) as nat, 32)))
  {
    hide FieldBits, BytesBits, BlocksBits, CombineFrom, TurnedSum, Chunks, FooterBits, Flatten;
    ChunksCover(data);
    ChunkSizes(data);
    CombinedIs(Chunks(data));
    FooterIs(TurnedSum(Chunks(data), |Chunks(data)|));
  }

  /** A block: its mark, its CRC, a zero bit, the row of the unrotated block, the used bytes, and the coded symbols. */
  lemma BlockLayout(block: seq<byte>)
    requires 0 < |block| <= 80_000
    ensures Rle(block) != [] && LastColumn(Rle(block)) != [] && OriginIndex(Rle(block)) < |Rle(block)|
    ensures BlockBits(block) == FieldBits(0x314159265359, 48) + (FieldBits(Crc(block) as nat, 32)
      + ([false] + (FieldBits(OriginIndex(Rle(block)), 24) + ColumnBits(LastColumn(Rle(block))))))
  {
    BlockFits(block);
    hide FieldBits, Crc, OriginIndex, LastColumn, Rle, ColumnBits;
    BlockMark(BodyBits(block));
  }

  /** A column: the used bytes, two tables, one bit for each 50 symbols or part of 50, both tables, the symbols. */
  lemma ColumnLayout(column: seq<byte>)
    requires column != []
    ensures AllIn(column, Used(column)) && InAlphabet(Symbols(column, Used(column), 0), |Used(column)| + 2)
    ensures var used := Used(column);
      var symbols, lengths := Symbols(column, used, 0), Lengths(|used| + 2);
      var groups := (|symbols| + 49) / 50;
      groups > 0 && ColumnBits(column) == InUseBits(used) + (FieldBits(2, 3) + (FieldBits(groups, 15)
        + (Zeros(groups) + (LengthsBits(lengths) + (LengthsBits(lengths) + SymbolsBits(symbols, lengths))))))
  {
    SymbolsCodable(column);
    hide FieldBits, InUseBits, LengthsBits, SymbolsBits, Used, Zeros, Lengths, InAlphabet, AllIn;
    assert |Symbols(column, Used(column), 0)| > 0;
  }
}
