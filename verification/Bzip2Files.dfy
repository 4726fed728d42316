/** Whole files: what the writer leaves behind decodes to the data it was given. */
module Bzip2Files {
  import opened Bits
  import opened Outcomes
  import opened Bzip2BitWriter
  import opened Bzip2Blocks

  /** `BZh1`. */
  function Header(): (h: seq<byte>)
    ensures |h| == 4
  {
    [0x42, 0x5a, 0x68, 0x31]
  }

  /** The data cut into blocks of 80,000 bytes, the last one shorter perhaps. */
  function Chunks(data: seq<byte>): seq<seq<byte>>
    decreases |data|
  {
    if data == [] then []
    else if |data| <= INPUT_LIMIT then [data]
    else [data[..INPUT_LIMIT]] + Chunks(data[INPUT_LIMIT..])
  }

  lemma {:induction false} ChunksCover(data: seq<byte>)
    ensures AllBlocky(Chunks(data)) && Flatten(Chunks(data)) == data
    decreases |data|
  {
    if |data| > INPUT_LIMIT {
      ChunksCover(data[INPUT_LIMIT..]);
      assert data == data[..INPUT_LIMIT] + data[INPUT_LIMIT..];
      assert Chunks(data)[1..] == Chunks(data[INPUT_LIMIT..]);
    } else if data != [] {
      assert Chunks(data)[1..] == [] && data + [] == data;
    }
  }

  ghost function BodyOf(data: seq<byte>): seq<bool> {
    ChunksCover(data);
    BlocksBits(Chunks(data)) + FooterBits(CombineFrom(0, Chunks(data)))
  }

  ghost function FileBits(data: seq<byte>): seq<bool> {
    BytesBits(Header()) + BodyOf(data)
  }

  /** `file` is what the writer leaves behind for `data`. */
  ghost predicate IsFile(file: seq<byte>, data: seq<byte>) {
    exists pad: nat :: pad < 8 && BytesBits(file) == FileBits(data) + Zeros(pad)
  }

  /** The reference decoder. */
  function Decode(file: seq<byte>): Option<seq<byte>> {
    if |file| < 4 || file[..3] != Header()[..3] || !(0x31 <= file[3] <= 0x39) then None
    else ReadBlocks(BytesBits(file[4..]), 100_000 * (file[3] as int - 0x30), 0)
  }

  lemma {:induction false} BytesBitsJoin(a: seq<byte>, b: seq<byte>)
    ensures BytesBits(a + b) == BytesBits(a) + BytesBits(b)
  {
    if b == [] {
      assert a + b == a;
    } else {
      var m := b[..|b| - 1];
      assert a + b == (a + m) + [b[|b| - 1]];
      assert b == m + [b[|b| - 1]];
      BytesBitsSnoc(a + m, b[|b| - 1]);
      BytesBitsSnoc(m, b[|b| - 1]);
      BytesBitsJoin(a, m);
    }
  }

  lemma ByteFields(x: byte, y: byte)
    ensures FieldBits(x, 8) == FieldBits(y, 8) ==> x == y
  {
    Pow2Values();
    hide FieldBits;
    FieldValue(x, 8);
    FieldValue(y, 8);
  }

  lemma {:induction false} BytesBitsInjective(a: seq<byte>, b: seq<byte>)
    requires BytesBits(a) == BytesBits(b)
    ensures a == b
  {
    assert |a| == |b|;
    if a != [] {
      var x, y := a[|a| - 1], b[|b| - 1];
      var a', b' := a[..|a| - 1], b[..|b| - 1];
      var n := 8 * |a'|;
      assert BytesBits(a)[..n] == BytesBits(a') && BytesBits(a)[n..] == FieldBits(x, 8);
      assert BytesBits(b)[..n] == BytesBits(b') && BytesBits(b)[n..] == FieldBits(y, 8);
      BytesBitsInjective(a', b');
      ByteFields(x, y);
      assert a == a' + [x] && b == b' + [y];
    }
  }

  lemma BytesBitsLength(s: seq<byte>)
    ensures |BytesBits(s)| == 8 * |s|
  {
  }

  lemma HeaderFirst(file: seq<byte>, header: seq<byte>, body: seq<bool>)
    requires BytesBits(file) == BytesBits(header) + body
    ensures |file| >= |header| && file[..|header|] == header && BytesBits(file[|header|..]) == body
  {
    hide *;
    BytesBitsLength(file);
    BytesBitsLength(header);
    var head, tail := file[..|header|], file[|header|..];
    assert file == head + tail;
    BytesBitsJoin(head, tail);
    SamePrefix(BytesBits(head), BytesBits(tail), BytesBits(header), body);
    BytesBitsInjective(head, header);
  }

  lemma SamePrefix<T>(a: seq<T>, b: seq<T>, c: seq<T>, d: seq<T>)
    requires a + b == c + d && |a| == |c|
    ensures a == c && b == d
  {
    assert (a + b)[..|a|] == a && (c + d)[..|a|] == c;
    assert (a + b)[|a|..] == b && (c + d)[|a|..] == d;
  }

  lemma DecodeBody(file: seq<byte>, body: seq<bool>)
    requires BytesBits(file) == BytesBits(Header()) + body
    ensures Decode(file) == ReadBlocks(body, BLOCK_LIMIT, 0)
  {
    hide BytesBits, ReadBlocks;
    HeaderFirst(file, Header(), body);
    assert file[..3] == file[..4][..3] && file[3] == file[..4][3];
  }

  lemma ReadBodyOf(data: seq<byte>, pad: nat)
    requires pad < 8
    ensures ReadBlocks(BodyOf(data) + Zeros(pad), BLOCK_LIMIT, 0) == Some(data)
  {
    hide BlocksBits, FooterBits, CombineFrom, Chunks, Zeros, ReadBlocks, Flatten;
    var chunks := Chunks(data);
    ChunksCover(data);
    Assoc(BlocksBits(chunks), FooterBits(CombineFrom(0, chunks)), Zeros(pad));
    ReadBlocksBits(chunks, BLOCK_LIMIT, 0, pad);
  }

  /** Whatever the data, the decoder gets it back from the file. */
  lemma RoundTrip(file: seq<byte>, data: seq<byte>)
    requires IsFile(file, data)
    ensures Decode(file) == Some(data)
  {
    var pad: nat :| pad < 8 && BytesBits(file) == FileBits(data) + Zeros(pad);
    hide BytesBits, BodyOf, IsFile, Zeros, Decode, Header, ReadBlocks;
    Assoc(BytesBits(Header()), BodyOf(data), Zeros(pad));
    DecodeBody(file, BodyOf(data) + Zeros(pad));
    ReadBodyOf(data, pad);
  }

  lemma PadUnique(a: seq<byte>, b: seq<byte>, w: seq<bool>, p: nat, q: nat)
    requires BytesBits(a) == w + Zeros(p) && BytesBits(b) == w + Zeros(q) && p < 8 && q < 8
    ensures a == b
  {
    assert |BytesBits(a)| == 8 * |a| && |BytesBits(b)| == 8 * |b|;
    hide BytesBits, Zeros;
    assert |w + Zeros(p)| == |w| + p && |w + Zeros(q)| == |w| + q;
    assert p == q;
    BytesBitsInjective(a, b);
  }

  /** The file is determined by the data. */
  lemma FileUnique(a: seq<byte>, b: seq<byte>, data: seq<byte>)
    requires IsFile(a, data) && IsFile(b, data)
    ensures a == b
  {
    hide BytesBits, Zeros, FileBits;
    var p: nat :| p < 8 && BytesBits(a) == FileBits(data) + Zeros(p);
    var q: nat :| q < 8 && BytesBits(b) == FileBits(data) + Zeros(q);
    PadUnique(a, b, FileBits(data), p, q);
  }
}
