/** The MSB-first bit packer under the bzip2 writer. */
module Bzip2BitWriter {
  import opened Bits

  const UINT64: nat := 0x1_0000_0000_0000_0000
  const UINT32: nat := 0x1_0000_0000

  function Zeros(n: nat): (s: seq<bool>)
    ensures |s| == n
  {
    seq(n, _ => false)
  }

  lemma {:induction false} FieldZero(n: nat)
    ensures FieldBits(0, n) == Zeros(n)
  {
    if n > 0 {
      FieldZero(n - 1);
    }
  }

  /** `value` holds fewer than 8 pending bits between calls; `output` is the byte sink. */
  class BitWriter {
    var output: seq<byte>
    var value: nat
    var bits: nat

    ghost predicate Valid()
      reads this
    {
      bits < 8 && value < Pow2(bits)
    }

    /** Everything written so far, as bits. */
    ghost function Written(): seq<bool>
      reads this
    {
      BytesBits(output) + FieldBits(value, bits)
    }

    constructor (header: seq<byte>)
      ensures Valid() && Written() == BytesBits(header)
      ensures output == header
    {
      output, value, bits := header, 0, 0;
    }

    /** Appends the `count` low bits of `v`. With fewer than 8 bits pending, 57 is the widest
        field that the 64-bit accumulator can take; the shift is written out with the
        accumulator's wrap-around, which the proof shows is never reached. */
    method WriteBits(count: nat, v: nat)
      requires Valid()
      requires count <= 57 && v < UINT32
      modifies this
      ensures Valid()
      ensures Written() == old(Written()) + FieldBits(v, count)
    {
      hide Pow2, FieldBits, BytesBits, Shl, Shr, Low;
      if count == 0 {
        NoField(v);
        return;
      }
      ghost var target := Written() + FieldBits(v, count);
      Accumulates(value, bits, v, count);
      value := Shl(value, count) % UINT64 + Low(v, count);
      bits := bits + count;
      assert Written() == target;
      while bits >= 8
        invariant value < Pow2(bits)
        invariant BytesBits(output) + FieldBits(value, bits) == target
      {
        var rest := bits - 8;
        assert value < Pow2(8 + rest) && FieldBits(value, bits) == FieldBits(value, 8 + rest);
        TopByte(output, value, rest);
        var byteValue := Shr(value, rest) % 256;
        assert BytesBits(output + [byteValue]) + FieldBits(Low(value, rest), rest) == target;
        output := output + [byteValue];
        value := if rest == 0 then 0 else Low(value, rest);
        bits := rest;
      }
    }

    /** Pads the last byte with zero bits. */
    method Flush()
      requires Valid()
      modifies this
      ensures Valid() && bits == 0
      ensures |old(Written())| <= |BytesBits(output)| < |old(Written())| + 8
      ensures BytesBits(output) == old(Written()) + Zeros(|BytesBits(output)| - |old(Written())|)
    {
      if bits != 0 {
        var pad := 8 - bits;
        PadsToByte(value, bits, pad);
        var byteValue := Shl(value, pad) % 256;
        BytesBitsSnoc(output, byteValue);
        output := output + [byteValue];
        value, bits := 0, 0;
      } else {
        assert Zeros(0) == [];
      }
    }
  }

  lemma NothingLow(v: nat)
    ensures Low(v, 0) == 0
  {
  }

  lemma NoField(v: nat)
    ensures FieldBits(v, 0) == []
  {
  }

  lemma PadsToByte(value: nat, bits: nat, pad: nat)
    requires value < Pow2(bits) && bits + pad == 8
    ensures Shl(value, pad) % 256 == Shl(value, pad)
    ensures FieldBits(Shl(value, pad), 8) == FieldBits(value, bits) + Zeros(pad)
  {
    Pow2Values();
    hide *;
    FieldJoin(value, bits, 0, pad);
    FieldZero(pad);
  }

  /** Shifting a field in neither overflows the accumulator nor disturbs the pending bits. */
  lemma Accumulates(value: nat, bits: nat, v: nat, count: nat)
    requires value < Pow2(bits) && bits + count <= 64
    ensures Shl(value, count) % UINT64 == Shl(value, count)
    ensures Shl(value, count) + Low(v, count) < Pow2(bits + count)
    ensures FieldBits(Shl(value, count) + Low(v, count), bits + count)
         == FieldBits(value, bits) + FieldBits(v, count)
  {
    hide Shl, Low, FieldBits, Pow2;
    FieldJoin(value, bits, Low(v, count), count);
    FieldLow(v, count);
    Pow2Monotone(bits + count, 64);
    Pow2Values();
  }

  lemma SplitTop(acc: nat, rest: nat)
    requires acc < Pow2(8 + rest)
    ensures Shr(acc, rest) < 256
    ensures FieldBits(acc, 8 + rest) == FieldBits(Shr(acc, rest), 8) + FieldBits(Low(acc, rest), rest)
  {
    SplitValue(acc, 8, rest);
    assert Pow2(8) == 256 by { Pow2Values(); }
    FieldJoin(Shr(acc, rest), 8, Low(acc, rest), rest);
  }

  /** Moving the top byte from the accumulator to the sink keeps the bit stream. */
  lemma TopByte(sink: seq<byte>, acc: nat, rest: nat)
    requires acc < Pow2(8 + rest)
    ensures Shr(acc, rest) % 256 == Shr(acc, rest) < 256
    ensures BytesBits(sink) + FieldBits(acc, 8 + rest)
         == BytesBits(sink + [Shr(acc, rest)]) + FieldBits(Low(acc, rest), rest)
    ensures rest == 0 ==> Low(acc, rest) == 0
  {
    NothingLow(acc);
    hide Shr, Low, FieldBits, BytesBits, Pow2;
    SplitTop(acc, rest);
    BytesBitsSnoc(sink, Shr(acc, rest));
    Assoc(BytesBits(sink), FieldBits(Shr(acc, rest), 8), FieldBits(Low(acc, rest), rest));
  }
}
