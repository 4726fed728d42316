/** The writer: bytes in through `Write`, a file out after `Close`. */
module Bzip2Writer {
  import opened Bits
  import opened Bzip2BitWriter
  import opened Bzip2Rle
  import opened Bzip2Bwt
  import opened Bzip2BlockSort
  import opened Bzip2Mtf
  import opened Bzip2Coding
  import opened Bzip2Crc
  import opened Bzip2Blocks
  import opened Bzip2Files
  import opened Bzip2FieldWriter

  // ----- One block

  lemma ColumnParts(column: seq<byte>, rest: seq<bool>)
    requires column != []
    ensures AllIn(column, Used(column)) && |Used(column)| <= 256 && Used(column) != []
    ensures InAlphabet(Symbols(column, Used(column), 0), |Used(column)| + 2)
    ensures |Symbols(column, Used(column), 0)| <= |column| + 1
    ensures ColumnBits(column) + rest
         == Bzip2Format.InUseBits(Used(column))
          + (CodingBits(Symbols(column, Used(column), 0), |Used(column)| + 2) + rest)
  {
    SymbolsCodable(column);
    var coding := CodingBits(Symbols(column, Used(column), 0), |Used(column)| + 2);
    Assoc(Bzip2Format.InUseBits(Used(column)), coding, rest);
  }

  method WriteColumn(w: BitWriter, column: seq<byte>, ghost rest: seq<bool>, ghost target: seq<bool>)
    requires 0 < |column| <= BLOCK_LIMIT
    requires Owes(w, ColumnBits(column) + rest, target)
    modifies w
    ensures Owes(w, rest, target)
  {
    hide Owes, ColumnBits, CodingBits, Symbols, Used, Bzip2Format.InUseBits, AllIn, InAlphabet;
    var symbols, used := MoveToFrontEncode(column);
    ColumnParts(column, rest);
    WriteInUse(w, used, CodingBits(symbols, |used| + 2) + rest, target);
    WriteCoding(w, symbols, |used| + 2, rest, target);
  }

  lemma BlockParts(block: seq<byte>, rest: seq<bool>)
    requires Blocky(block)
    ensures 0 < |Rle(block)| <= BLOCK_LIMIT && |LastColumn(Rle(block))| == |Rle(block)|
    ensures OriginIndex(Rle(block)) < |Rle(block)|
    ensures var column := LastColumn(Rle(block));
      BlockBits(block) + rest ==
        FieldBits(BLOCK_MAGIC_HIGH, 24) + (FieldBits(BLOCK_MAGIC_LOW, 24)
        + (FieldBits(Number(Crc(block)), 32) + ([false]
        + (FieldBits(OriginIndex(Rle(block)), 24) + (ColumnBits(column) + rest)))))
  {
    BlockFits(block);
    var high, low := FieldBits(BLOCK_MAGIC_HIGH, 24), FieldBits(BLOCK_MAGIC_LOW, 24);
    var crc, origin := FieldBits(Number(Crc(block)), 32), FieldBits(OriginIndex(Rle(block)), 24);
    var column := ColumnBits(LastColumn(Rle(block)));
    assert BlockBits(block) == high + (low + (crc + ([false] + (origin + column)))) by {
      hide FieldBits, ColumnBits;
    }
    hide *;
    Assoc(high, low + (crc + ([false] + (origin + column))), rest);
    Assoc(low, crc + ([false] + (origin + column)), rest);
    Assoc(crc, [false] + (origin + column), rest);
    Assoc([false], origin + column, rest);
    Assoc(origin, column, rest);
  }

  method EmitBlock(w: BitWriter, block: seq<byte>, column: seq<byte>, original: nat, crc: bv32,
    ghost rest: seq<bool>, ghost target: seq<bool>)
    requires Blocky(block)
    requires column == LastColumn(Rle(block)) && original == OriginIndex(Rle(block)) && crc == Crc(block)
    requires Owes(w, BlockBits(block) + rest, target)
    modifies w
    ensures Owes(w, rest, target)
  {
    hide Owes, BlockBits, FieldBits, ColumnBits, LastColumn, OriginIndex, Rle, Crc;
    BlockParts(block, rest);
    ghost var d := ColumnBits(column) + rest;
    ghost var c := FieldBits(original, 24) + d;
    ghost var b := FieldBits(Number(crc), 32) + ([false] + c);
    WriteField(w, 24, BLOCK_MAGIC_HIGH, FieldBits(BLOCK_MAGIC_LOW, 24) + b, target);
    WriteField(w, 24, BLOCK_MAGIC_LOW, b, target);
    WriteField(w, 32, Number(crc), [false] + c, target);
    WriteBit(w, false, c, target);
    WriteField(w, 24, original, d, target);
    WriteColumn(w, column, rest, target);
  }

  // ----- Blocks already written

  ghost predicate AllFull(blocks: seq<seq<byte>>) {
    forall i :: 0 <= i < |blocks| ==> |blocks[i]| == INPUT_LIMIT
  }

  lemma {:induction false} BlocksSnoc(blocks: seq<seq<byte>>, block: seq<byte>)
    requires AllBlocky(blocks) && Blocky(block)
    ensures AllBlocky(blocks + [block])
    ensures BlocksBits(blocks + [block]) == BlocksBits(blocks) + BlockBits(block)
  {
    hide BlockBits;
    if blocks == [] {
      assert (blocks + [block])[1..] == [] && BlocksBits([]) == [];
      assert BlocksBits(blocks + [block]) == BlockBits(block) + [];
    } else {
      BlocksSnoc(blocks[1..], block);
      assert (blocks + [block])[1..] == blocks[1..] + [block];
      Assoc(BlockBits(blocks[0]), BlocksBits(blocks[1..]), BlockBits(block));
    }
  }

  lemma {:induction false} CombineSnoc(combined: bv32, blocks: seq<seq<byte>>, block: seq<byte>)
    ensures CombineFrom(combined, blocks + [block]) == Combine(CombineFrom(combined, blocks), Crc(block))
    decreases |blocks|
  {
    hide Combine, Crc;
    if blocks == [] {
      assert (blocks + [block])[1..] == [];
    } else {
      assert (blocks + [block])[1..] == blocks[1..] + [block];
      CombineSnoc(Combine(combined, Crc(blocks[0])), blocks[1..], block);
    }
  }

  lemma {:induction false} FlattenSnoc(blocks: seq<seq<byte>>, block: seq<byte>)
    ensures Flatten(blocks + [block]) == Flatten(blocks) + block
  {
    if blocks == [] {
      assert (blocks + [block])[1..] == [] && block + [] == [] + block;
    } else {
      assert (blocks + [block])[1..] == blocks[1..] + [block];
      FlattenSnoc(blocks[1..], block);
      Assoc(blocks[0], Flatten(blocks[1..]), block);
    }
  }

  /** Full blocks with a pending one behind them are the chunks of the data so far. */
  lemma {:induction false} ChunksAre(done: seq<seq<byte>>, block: seq<byte>)
    requires AllFull(done) && Blocky(block)
    ensures Chunks(Flatten(done) + block) == done + [block]
  {
    if done == [] {
      assert Flatten(done) + block == block && done + [block] == [block];
    } else {
      ChunksAre(done[1..], block);
      var tail := Flatten(done[1..]) + block;
      Assoc(done[0], Flatten(done[1..]), block);
      var data := Flatten(done) + block;
      assert data == done[0] + tail && data[..INPUT_LIMIT] == done[0] && data[INPUT_LIMIT..] == tail;
      assert |tail| >= |block|;
      assert [done[0]] + (done[1..] + [block]) == done + [block];
    }
  }

  /** `bits` is the header and the blocks `done`; `block` is pending; together they are `fed`. */
  ghost predicate Streaming(bits: seq<bool>, combined: bv32, done: seq<seq<byte>>, block: seq<byte>, fed: seq<byte>) {
    && AllFull(done) && AllBlocky(done)
    && bits == BytesBits(Header()) + BlocksBits(done)
    && combined == CombineFrom(0, done)
    && |block| <= INPUT_LIMIT
    && fed == Flatten(done) + block
  }

  lemma StreamingAdds(bits: seq<bool>, combined: bv32, done: seq<seq<byte>>, block: seq<byte>, fed: seq<byte>,
      more: seq<byte>)
    requires Streaming(bits, combined, done, block, fed) && |block + more| <= INPUT_LIMIT
    ensures Streaming(bits, combined, done, block + more, fed + more)
  {
    hide BytesBits, BlocksBits, CombineFrom, Flatten, Header;
    Assoc(Flatten(done), block, more);
  }

  lemma StreamingRoom(bits: seq<bool>, combined: bv32, done: seq<seq<byte>>, block: seq<byte>, fed: seq<byte>)
    requires Streaming(bits, combined, done, block, fed)
    ensures |block| <= INPUT_LIMIT
  {
    hide BytesBits, Header, BlocksBits, CombineFrom, Flatten;
  }

  lemma StreamingCommits(bits: seq<bool>, combined: bv32, done: seq<seq<byte>>, block: seq<byte>, fed: seq<byte>)
    requires Streaming(bits, combined, done, block, fed) && |block| == INPUT_LIMIT
    ensures Streaming(bits + BlockBits(block), Combine(combined, Crc(block)), done + [block], [], fed)
  {
    hide BytesBits, BlocksBits, BlockBits, CombineFrom, Combine, Crc, Flatten, Header;
    BlocksSnoc(done, block);
    CombineSnoc(0, done, block);
    FlattenSnoc(done, block);
    Assoc(BytesBits(Header()), BlocksBits(done), BlockBits(block));
    assert Flatten(done + [block]) + [] == fed;
  }

  /** The last block and the footer complete the file's bits. */
  lemma StreamingEnds(bits: seq<bool>, combined: bv32, done: seq<seq<byte>>, block: seq<byte>, fed: seq<byte>)
    requires Streaming(bits, combined, done, block, fed) && (done != [] ==> block != [])
    ensures fed == [] <==> block == []
    ensures block == [] ==> bits + FooterBits(combined) == FileBits(fed)
    ensures block != [] ==>
      (bits + BlockBits(block)) + FooterBits(Combine(combined, Crc(block))) == FileBits(fed)
  {
    if block == [] {
      assert done == [] && fed == [];
      assert BlocksBits(done) == [] && Chunks(fed) == [] && CombineFrom(0, done) == 0;
      hide FooterBits, Header, BytesBits;
      Assoc(BytesBits(Header()), [], FooterBits(combined));
    } else {
      ChunksAre(done, block);
      hide BytesBits, BlocksBits, BlockBits, CombineFrom, Combine, Crc, Flatten, Header, FooterBits, Chunks;
      BlocksSnoc(done, block);
      CombineSnoc(0, done, block);
      Assoc(BytesBits(Header()), BlocksBits(done), BlockBits(block));
      Assoc(BytesBits(Header()), BlocksBits(Chunks(fed)), FooterBits(Combine(combined, Crc(block))));
    }
  }

  /** The writer. `fed` is everything written to it and `done` the blocks already emitted. */
  class Writer {
    const bits: BitWriter
    var block: seq<byte>
    var combinedCRC: bv32
    var closed: bool
    ghost var fed: seq<byte>
    ghost var done: seq<seq<byte>>

    ghost predicate Valid()
      reads this, bits
    {
      && (!closed ==> Running() && (done != [] ==> block != []))
      && (closed ==> bits.Valid() && IsFile(bits.output, fed))
    }

    ghost predicate Running()
      reads this, bits
    {
      !closed && bits.Valid() && Streaming(bits.Written(), combinedCRC, done, block, fed)
    }

    constructor ()
      ensures Valid() && fresh(bits) && fed == [] && !closed
    {
      bits := new BitWriter(Header());
      block, combinedCRC, closed := [], 0, false;
      fed, done := [], [];
      new;
      assert BytesBits(Header()) + BlocksBits([]) == BytesBits(Header());
    }

    method FoldChecksum(crc: bv32)
      modifies this`combinedCRC
      ensures combinedCRC == Combine(old(combinedCRC), crc)
    {
      hide *;
      CombineBits(combinedCRC, crc);
      combinedCRC := (combinedCRC << 1) | (combinedCRC >> 31);
      combinedCRC := combinedCRC ^ crc;
    }

    /** Emits the pending block, if there is one. The size check that the source makes here is
        kept; it cannot fail. */
    method WriteBlock() returns (ok: bool)
      requires bits.Valid() && |block| <= INPUT_LIMIT
      modifies this`block, this`combinedCRC, bits
      ensures bits.Valid() && block == [] && ok
      ensures old(block) == [] ==>
        bits.Written() == old(bits.Written()) && combinedCRC == old(combinedCRC)
      ensures old(block) != [] ==>
        bits.Written() == old(bits.Written()) + BlockBits(old(block))
        && combinedCRC == Combine(old(combinedCRC), Crc(old(block)))
    {
      hide Combine, Crc, BlockBits, Rle, LastColumn, OriginIndex, BitWriter.Written, Streaming;
      if block == [] {
        return true;
      }
      var crc := ComputeCrc(block);
      FoldChecksum(crc);
      var encoded := RunLengthEncode(block);
      BlockFits(block);
      if |encoded| > BLOCK_LIMIT {
        return false;
      }
      var bwt, original := BlockSort(encoded);
      ghost var target := bits.Written() + BlockBits(block);
      assert BlockBits(block) + [] == BlockBits(block);
      EmitBlock(bits, block, bwt, original, crc, [], target);
      assert bits.Written() + [] == bits.Written();
      block := [];
      ok := true;
    }

    /** Takes in data, emitting blocks as they fill up. */
    method Write(data: seq<byte>) returns (written: nat, ok: bool)
      requires Valid()
      modifies this, bits
      ensures Valid() && closed == old(closed)
      ensures old(closed) ==> !ok && written == 0 && fed == old(fed) && bits.output == old(bits.output)
      ensures !old(closed) ==> ok && written == |data| && fed == old(fed) + data
    {
      hide Running, Streaming, IsFile;
      if closed {
        return 0, false;
      }
      var i := 0;
      ghost var before := fed;
      assert fed == before + data[..0];
      while i < |data|
        invariant i <= |data| && Running() && !closed
        invariant done != [] ==> block != []
        invariant fed == before + data[..i]
      {
        MakeRoom();
        var space := INPUT_LIMIT - |block|;
        var amount := if space < |data| - i then space else |data| - i;
        Take(data[i..i + amount]);
        assert data[..i + amount] == data[..i] + data[i..i + amount];
        i := i + amount;
      }
      assert data[..|data|] == data;
      return |data|, true;
    }

    /** Emits the pending block if it is full. */
    method MakeRoom()
      requires Running()
      modifies this, bits
      ensures Running() && |block| < INPUT_LIMIT && fed == old(fed) && !closed
    {
      StreamingRoom(bits.Written(), combinedCRC, done, block, fed);
      assert !closed;
      hide Running;
      if |block| == INPUT_LIMIT {
        CommitFull();
      }
    }

    method CommitFull()
      requires Running() && |block| == INPUT_LIMIT
      modifies this, bits
      ensures Running() && block == [] && fed == old(fed) && !closed
    {
      hide BlockBits, Combine, Crc, Streaming, BitWriter.Written;
      StreamingCommits(bits.Written(), combinedCRC, done, block, fed);
      ghost var full := block;
      var ok := WriteBlock();
      done := done + [full];
    }

    method Take(more: seq<byte>)
      requires Running() && |block| + |more| <= INPUT_LIMIT
      modifies this`block, this`fed
      ensures Running() && block == old(block) + more && fed == old(fed) + more
    {
      hide Streaming;
      StreamingAdds(bits.Written(), combinedCRC, done, block, fed, more);
      block := block + more;
      fed := fed + more;
    }

    /** Emits the last block, the end mark and the stream's checksum, and pads the last byte. */
    method Close()
      requires Valid()
      modifies this, bits
      ensures Valid() && closed && fed == old(fed)
      ensures IsFile(bits.output, fed)
      ensures old(closed) ==> bits.output == old(bits.output)
    {
      hide BlockBits, Combine, Crc, FileBits, FooterBits, Streaming, IsFile, Running;
      if closed {
        return;
      }
      PendingEnds();
      closed := true;
      var ok := WriteBlock();
      assert bits.Written() + FooterBits(combinedCRC) == FileBits(fed);
      WriteFooter(FileBits(fed));
      FinishFile(FileBits(fed));
    }

    /** What is pending, and then the footer, complete the file of everything fed. */
    lemma PendingEnds()
      requires Valid() && !closed
      ensures bits.Valid() && |block| <= INPUT_LIMIT
      ensures block == [] ==> bits.Written() + FooterBits(combinedCRC) == FileBits(fed)
      ensures block != [] ==>
          (bits.Written() + BlockBits(block)) + FooterBits(Combine(combinedCRC, Crc(block))) == FileBits(fed)
    {
      StreamingEnds(bits.Written(), combinedCRC, done, block, fed);
    }

    method WriteFooter(ghost target: seq<bool>)
      requires bits.Valid() && bits.Written() + FooterBits(combinedCRC) == target
      modifies bits
      ensures bits.Valid() && bits.Written() == target
    {
      ghost var c := FieldBits(Number(combinedCRC), 32);
      assert FooterBits(combinedCRC) == FieldBits(END_MAGIC_HIGH, 24) + (FieldBits(END_MAGIC_LOW, 24) + c) by {
        hide FieldBits;
      }
      hide FieldBits, FooterBits;
      assert c + [] == c;
      WriteField(bits, 24, END_MAGIC_HIGH, FieldBits(END_MAGIC_LOW, 24) + (c + []), target);
      WriteField(bits, 24, END_MAGIC_LOW, c + [], target);
      WriteField(bits, 32, Number(combinedCRC), [], target);
      assert bits.Written() + [] == bits.Written();
    }

    method FinishFile(ghost target: seq<bool>)
      requires bits.Valid() && target == FileBits(fed) && bits.Written() == target
      modifies bits
      ensures bits.Valid() && IsFile(bits.output, fed)
    {
      hide FileBits, FieldBits, BytesBits;
      bits.Flush();
      ghost var pad := |BytesBits(bits.output)| - |target|;
      assert BytesBits(bits.output) == FileBits(fed) + Zeros(pad);
    }
  }
}
