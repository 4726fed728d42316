/** Blocks as bits, and reading them back through every stage. */
module Bzip2Blocks {
  import opened Bits
  import opened Outcomes
  import opened Bzip2BitWriter
  import opened Bzip2Rle
  import opened Bzip2Bwt
  import opened Bzip2Unsort
  import opened Bzip2Format
  import opened Bzip2Crc
  import opened Bzip2Coding

  const BLOCK_LIMIT := 100_000
  const INPUT_LIMIT := 80_000
  const BLOCK_MAGIC_HIGH := 0x314159
  const BLOCK_MAGIC_LOW := 0x265359
  const END_MAGIC_HIGH := 0x177245
  const END_MAGIC_LOW := 0x385090

  /** A block as the writer accepts it. */
  predicate Blocky(block: seq<byte>) {
    0 < |block| <= INPUT_LIMIT
  }

  /** The 100,000-byte check in the writer can never fail. */
  lemma BlockFits(block: seq<byte>)
    requires Blocky(block)
    ensures 0 < |Rle(block)| <= BLOCK_LIMIT
    ensures |LastColumn(Rle(block))| == |Rle(block)| && OriginIndex(Rle(block)) < |Rle(block)|
  {
    RleGrowth(block);
    UnsortSort(Rle(block));
  }

  ghost function SortedBits(block: seq<byte>): seq<bool>
    requires Blocky(block)
  {
    BlockFits(block);
    FieldBits(OriginIndex(Rle(block)), 24) + ColumnBits(LastColumn(Rle(block)))
  }

  ghost function BodyBits(block: seq<byte>): seq<bool>
    requires Blocky(block)
  {
    FieldBits(Number(Crc(block)), 32) + ([false] + SortedBits(block))
  }

  function Restore(column: seq<byte>, origin: nat): seq<byte>
    requires origin < |column|
  {
    UnRle(Unsort(column, origin), 0, 0)
  }

  /** The data of a column whose checksum matches. */
  function Checked(column: seq<byte>, origin: nat, crc: nat, limit: nat): Option<seq<byte>> {
    if origin >= |column| || |column| > limit then None
    else if Number(Crc(Restore(column, origin))) != crc then None
    else Some(Restore(column, origin))
  }

  function ReadSorted(crc: nat, limit: nat, s: seq<bool>): Option<(seq<byte>, seq<bool>)> {
    match ReadBits(24, s)
    case None => None
    case Some((origin, s1)) =>
      match ReadColumn(s1)
      case None => None
      case Some((column, s2)) =>
        match Checked(column, origin, crc, limit)
        case None => None
        case Some(data) => Some((data, s2))
  }

  /** Randomised blocks are obsolete and refused. */
  function ReadFlagged(crc: nat, limit: nat, s: seq<bool>): Option<(seq<byte>, seq<bool>)> {
    if s == [] || s[0] then None else ReadSorted(crc, limit, s[1..])
  }

  /** What follows a block's magic number. */
  function ReadBody(s: seq<bool>, limit: nat): Option<(seq<byte>, seq<bool>)> {
    match ReadBits(32, s)
    case None => None
    case Some((crc, s1)) => ReadFlagged(crc, limit, s1)
  }

  lemma RestoreBlock(block: seq<byte>)
    requires Blocky(block)
    ensures OriginIndex(Rle(block)) < |LastColumn(Rle(block))|
    ensures Restore(LastColumn(Rle(block)), OriginIndex(Rle(block))) == block
  {
    BlockFits(block);
    UnsortSort(Rle(block));
    UnRleRle(block);
  }

  lemma ReadSortedBits(block: seq<byte>, crc: nat, limit: nat, rest: seq<bool>)
    requires Blocky(block) && limit >= BLOCK_LIMIT
    ensures ReadSorted(crc, limit, SortedBits(block) + rest)
      == if crc == Number(Crc(block)) then Some((block, rest)) else None
  {
    hide FieldBits, ColumnBits, Pow2, Rle, LastColumn, OriginIndex, Crc, Number, Restore, ReadBits, ReadColumn;
    BlockFits(block);
    assert Pow2(24) == 0x100_0000 by { Pow2Values(); }
    RestoreBlock(block);
    var column, origin := LastColumn(Rle(block)), OriginIndex(Rle(block));
    assert Checked(column, origin, crc, limit) == if crc == Number(Crc(block)) then Some(block) else None;
    hide Checked;
    Assoc(FieldBits(origin, 24), ColumnBits(column), rest);
    ReadField(origin, 24, ColumnBits(column) + rest);
    ReadColumnBits(column, rest);
  }

  lemma ReadFlaggedBits(crc: nat, sorted: seq<bool>, limit: nat, rest: seq<bool>)
    ensures ReadFlagged(crc, limit, ([false] + sorted) + rest) == ReadSorted(crc, limit, sorted + rest)
  {
    var s := ([false] + sorted) + rest;
    assert s != [] && !s[0] && s[1..] == sorted + rest;
  }

  lemma ReadBodyFields(crc: nat, tail: seq<bool>, limit: nat, rest: seq<bool>)
    requires crc < 0x1_0000_0000
    ensures ReadBody((FieldBits(crc, 32) + tail) + rest, limit) == ReadFlagged(crc, limit, tail + rest)
  {
    assert Pow2(32) == 0x1_0000_0000 by { Pow2Values(); }
    hide FieldBits, Pow2, ReadBits, ReadFlagged;
    Assoc(FieldBits(crc, 32), tail, rest);
    ReadField(crc, 32, tail + rest);
  }

  /** A block whose stated checksum is `crc` is read back whole exactly when that is its checksum. */
  lemma ReadBodyStated(block: seq<byte>, crc: nat, limit: nat, rest: seq<bool>)
    requires Blocky(block) && limit >= BLOCK_LIMIT && crc < 0x1_0000_0000
    ensures ReadBody((FieldBits(crc, 32) + ([false] + SortedBits(block))) + rest, limit)
      == if crc == Number(Crc(block)) then Some((block, rest)) else None
  {
    hide SortedBits, ReadSorted, ReadFlagged, ReadBody, FieldBits, Crc, Number;
    ReadSortedBits(block, crc, limit, rest);
    ReadFlaggedBits(crc, SortedBits(block), limit, rest);
    ReadBodyFields(crc, [false] + SortedBits(block), limit, rest);
  }

  /** One block is read back whole. */
  lemma ReadBodyBits(block: seq<byte>, limit: nat, rest: seq<bool>)
    requires Blocky(block) && limit >= BLOCK_LIMIT
    ensures ReadBody(BodyBits(block) + rest, limit) == Some((block, rest))
  {
    hide SortedBits, ReadBody, FieldBits, Crc, Number;
    ReadBodyStated(block, Number(Crc(block)), limit, rest);
  }

  ghost function BlockBits(block: seq<byte>): seq<bool>
    requires Blocky(block)
  {
    FieldBits(BLOCK_MAGIC_HIGH, 24) + (FieldBits(BLOCK_MAGIC_LOW, 24) + BodyBits(block))
  }

  ghost predicate AllBlocky(blocks: seq<seq<byte>>) {
    forall i :: 0 <= i < |blocks| ==> Blocky(blocks[i])
  }

  ghost function BlocksBits(blocks: seq<seq<byte>>): seq<bool>
    requires AllBlocky(blocks)
  {
    if blocks == [] then [] else BlockBits(blocks[0]) + BlocksBits(blocks[1..])
  }

  function CombineFrom(combined: bv32, blocks: seq<seq<byte>>): bv32
    decreases |blocks|
  {
    if blocks == [] then combined else CombineFrom(Combine(combined, Crc(blocks[0])), blocks[1..])
  }

  function FooterBits(combined: bv32): seq<bool> {
    FieldBits(END_MAGIC_HIGH, 24) + (FieldBits(END_MAGIC_LOW, 24) + FieldBits(Number(combined), 32))
  }

  function Flatten(blocks: seq<seq<byte>>): seq<byte> {
    if blocks == [] then [] else blocks[0] + Flatten(blocks[1..])
  }

  /** Blocks up to the end mark, whose checksum must match; what is left must be padding. */
  function ReadBlocks(s: seq<bool>, limit: nat, combined: bv32): Option<seq<byte>>
    decreases |s|
  {
    match ReadBits(24, s)
    case None => None
    case Some((high, s1)) =>
      match ReadBits(24, s1)
      case None => None
      case Some((low, s2)) =>
        if high == BLOCK_MAGIC_HIGH && low == BLOCK_MAGIC_LOW then
          match ReadBody(s2, limit)
          case None => None
          case Some((data, s3)) =>
            if |s3| >= |s| then None
            else
              match ReadBlocks(s3, limit, Combine(combined, Crc(data)))
              case None => None
              case Some(more) => Some(data + more)
        else if high == END_MAGIC_HIGH && low == END_MAGIC_LOW then
          match ReadBits(32, s2)
          case None => None
          case Some((crc, rest)) =>
            if crc == Number(combined) && |rest| < 8 && rest == Zeros(|rest|) then Some([]) else None
        else None
  }

  lemma ReadMagic(high: nat, low: nat, rest: seq<bool>)
    requires high < 0x100_0000 && low < 0x100_0000
    ensures var s := FieldBits(high, 24) + (FieldBits(low, 24) + rest);
      ReadBits(24, s) == Some((high, FieldBits(low, 24) + rest))
      && ReadBits(24, FieldBits(low, 24) + rest) == Some((low, rest))
      && |s| == 48 + |rest|
  {
    assert Pow2(24) == 0x100_0000 by { Pow2Values(); }
    hide FieldBits, Pow2, ReadBits;
    ReadField(high, 24, FieldBits(low, 24) + rest);
    ReadField(low, 24, rest);
  }

  ghost function FooterOf(crc: nat): seq<bool> {
    FieldBits(END_MAGIC_HIGH, 24) + (FieldBits(END_MAGIC_LOW, 24) + FieldBits(crc, 32))
  }

  lemma ReadFooter(limit: nat, combined: bv32, crc: nat, pad: nat)
    requires pad < 8 && crc < 0x1_0000_0000
    ensures ReadBlocks(FooterOf(crc) + Zeros(pad), limit, combined)
      == if crc == Number(combined) then Some([]) else None
  {
    hide FieldBits, Pow2, Zeros, Number, ReadBits;
    var high, low := FieldBits(END_MAGIC_HIGH, 24), FieldBits(END_MAGIC_LOW, 24);
    assert Pow2(32) == 0x1_0000_0000 by { Pow2Values(); }
    assert FooterOf(crc) == high + (low + FieldBits(crc, 32));
    hide FooterOf;
    Assoc(high, low + FieldBits(crc, 32), Zeros(pad));
    Assoc(low, FieldBits(crc, 32), Zeros(pad));
    ReadMagic(END_MAGIC_HIGH, END_MAGIC_LOW, FieldBits(crc, 32) + Zeros(pad));
    ReadField(crc, 32, Zeros(pad));
  }

  lemma ReadOneBlock(block: seq<byte>, limit: nat, combined: bv32, rest: seq<bool>)
    requires Blocky(block) && limit >= BLOCK_LIMIT
    ensures ReadBlocks(BlockBits(block) + rest, limit, combined)
         == match ReadBlocks(rest, limit, Combine(combined, Crc(block)))
            case None => None
            case Some(more) => Some(block + more)
  {
    hide FieldBits, BodyBits, Combine, Crc, ReadBits, ReadBody;
    var high, low := FieldBits(BLOCK_MAGIC_HIGH, 24), FieldBits(BLOCK_MAGIC_LOW, 24);
    var body := BodyBits(block);
    assert BlockBits(block) == high + (low + body);
    hide BlockBits;
    Assoc(high, low + body, rest);
    Assoc(low, body, rest);
    ReadMagic(BLOCK_MAGIC_HIGH, BLOCK_MAGIC_LOW, body + rest);
    ReadBodyBits(block, limit, rest);
  }

  lemma BlocksFront(blocks: seq<seq<byte>>, combined: bv32)
    requires AllBlocky(blocks) && blocks != []
    ensures Blocky(blocks[0]) && AllBlocky(blocks[1..])
    ensures BlocksBits(blocks) == BlockBits(blocks[0]) + BlocksBits(blocks[1..])
    ensures CombineFrom(combined, blocks) == CombineFrom(Combine(combined, Crc(blocks[0])), blocks[1..])
    ensures Flatten(blocks) == blocks[0] + Flatten(blocks[1..])
  {
    hide BlockBits, Crc, Combine;
  }

  lemma NoBlocks(combined: bv32)
    ensures BlocksBits([]) == [] && CombineFrom(combined, []) == combined && Flatten([]) == []
  {
  }

  /** A stream whose stated checksum is `crc` is read back exactly when its blocks combine to that. */
  lemma {:induction false} ReadBlocksStated(blocks: seq<seq<byte>>, limit: nat, combined: bv32, crc: nat, pad: nat)
    requires AllBlocky(blocks) && limit >= BLOCK_LIMIT && pad < 8 && crc < 0x1_0000_0000
    ensures ReadBlocks(BlocksBits(blocks) + (FooterOf(crc) + Zeros(pad)), limit, combined)
         == if crc == Number(CombineFrom(combined, blocks)) then Some(Flatten(blocks)) else None
    decreases |blocks|
  {
    hide *;
    var footer := FooterOf(crc) + Zeros(pad);
    if blocks == [] {
      NoBlocks(combined);
      assert [] + footer == footer;
      ReadFooter(limit, combined, crc, pad);
    } else {
      BlocksFront(blocks, combined);
      var tail := BlocksBits(blocks[1..]);
      Assoc(BlockBits(blocks[0]), tail, footer);
      ReadOneBlock(blocks[0], limit, combined, tail + footer);
      ReadBlocksStated(blocks[1..], limit, Combine(combined, Crc(blocks[0])), crc, pad);
    }
  }

  lemma ReadBlocksBits(blocks: seq<seq<byte>>, limit: nat, combined: bv32, pad: nat)
    requires AllBlocky(blocks) && limit >= BLOCK_LIMIT && pad < 8
    ensures ReadBlocks(BlocksBits(blocks) + (FooterBits(CombineFrom(combined, blocks)) + Zeros(pad)), limit, combined)
         == Some(Flatten(blocks))
  {
    hide BlocksBits, ReadBlocks, CombineFrom, Zeros, FieldBits, Number;
    ReadBlocksStated(blocks, limit, combined, Number(CombineFrom(combined, blocks)), pad);
  }
}
