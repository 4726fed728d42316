/** The encoder's own code lengths, and the loop that hands out canonical codes. */
module Bzip2FixedCodes {
  import opened Bits
  import opened Bzip2Codes

  const UINT32: nat := 0x1_0000_0000

  /** The largest power of two not above `n`, as an exponent. */
  function FloorLog(n: nat): (k: nat)
    ensures n >= 1 ==> Pow2(k) <= n < Pow2(k + 1)
    ensures n >= 2 ==> k >= 1
  {
    if n < 2 then 0 else 1 + FloorLog(n / 2)
  }

  /** How many symbols get the shorter of the two lengths. */
  function ShortCount(alphaSize: nat): (c: nat)
    requires alphaSize >= 1
  {
    2 * Pow2(FloorLog(alphaSize)) - alphaSize
  }

  /** Two neighbouring lengths that together use up the code space exactly. */
  function FixedLengths(alphaSize: nat, n: nat): (r: seq<nat>)
    requires alphaSize >= 1
    ensures |r| == n
    ensures forall i :: 0 <= i < n ==>
      r[i] == if i < ShortCount(alphaSize) then FloorLog(alphaSize) else FloorLog(alphaSize) + 1
  {
    if n == 0 then []
    else FixedLengths(alphaSize, n - 1)
         + [if n - 1 < ShortCount(alphaSize) then FloorLog(alphaSize) else FloorLog(alphaSize) + 1]
  }

  /** The encoder's lengths for an alphabet. */
  function Lengths(alphaSize: nat): (r: seq<nat>)
    requires alphaSize >= 1
    ensures |r| == alphaSize
  {
    FixedLengths(alphaSize, alphaSize)
  }

  lemma {:induction false} KraftPartial(lengths: seq<nat>, short: nat, shortCount: nat, n: nat)
    requires n <= |lengths|
    requires forall i :: 0 <= i < |lengths| ==> lengths[i] == if i < shortCount then short else short + 1
    ensures KraftTo(lengths, short + 1, n) == n + (if n < shortCount then n else shortCount)
  {
    if n > 0 {
      KraftPartial(lengths, short, shortCount, n - 1);
      assert Pow2(0) == 1 && Pow2(1) == 2;
    }
  }

  /** Kraft's sum is exactly 1: no code is wasted. */
  lemma LengthsComplete(alphaSize: nat)
    requires alphaSize >= 2
    ensures KraftTo(Lengths(alphaSize), FloorLog(alphaSize) + 1, alphaSize) == Pow2(FloorLog(alphaSize) + 1)
    ensures Kraft(Lengths(alphaSize), FloorLog(alphaSize) + 1)
  {
    KraftPartial(Lengths(alphaSize), FloorLog(alphaSize), ShortCount(alphaSize), alphaSize);
  }

  lemma FloorLogSmall(alphaSize: nat)
    requires alphaSize <= 258
    ensures FloorLog(alphaSize) + 1 <= 9
  {
    Pow2Values();
    assert Pow2(9) == 2 * Pow2(8);
    Pow2Monotone(9, if FloorLog(alphaSize) >= 9 then FloorLog(alphaSize) else 9);
  }

  /** Doubles up to the alphabet, then fills in the two lengths. The bound keeps `base * 2`
      inside a signed 64-bit integer. */
  method FixedCodeLengths(alphaSize: nat) returns (lengths: seq<nat>)
    requires 1 <= alphaSize < 0x4000_0000_0000_0000
    ensures lengths == Lengths(alphaSize)
    ensures forall i :: 0 <= i < |lengths| ==> lengths[i] < 256
  {
    var base: nat, shortLength: nat := 1, 0;
    while base * 2 <= alphaSize
      invariant base == Pow2(shortLength) && base <= alphaSize
      decreases alphaSize - base
    {
      base := base * 2;
      shortLength := shortLength + 1;
    }
    LogUnique(alphaSize, shortLength);
    LogBound(alphaSize, shortLength);
    hide Pow2, FloorLog, FixedLengths;
    lengths := FillLengths(alphaSize, shortLength, 2 * base - alphaSize);
    assert lengths == Lengths(alphaSize);
  }

  /** The shorter length for the first symbols, the longer one for the others, each in a byte. */
  method FillLengths(alphaSize: nat, shortLength: nat, shortCount: nat) returns (lengths: seq<nat>)
    requires shortLength < 64
    ensures |lengths| == alphaSize
    ensures forall i :: 0 <= i < alphaSize ==> lengths[i] == if i < shortCount then shortLength else shortLength + 1
  {
    var filled := new nat[alphaSize];
    for index := 0 to alphaSize
      invariant forall i :: 0 <= i < index ==> filled[i] == if i < shortCount then shortLength else shortLength + 1
    {
      filled[index] := (shortLength + 1) % 256;
      if index < shortCount {
        filled[index] := shortLength % 256;
      }
    }
    lengths := filled[..];
  }

  lemma LogUnique(n: nat, k: nat)
    requires n >= 1 && Pow2(k) <= n < Pow2(k + 1)
    ensures FloorLog(n) == k
  {
    var f := FloorLog(n);
    if f < k {
      Pow2Monotone(f + 1, k);
    } else if f > k {
      Pow2Monotone(k + 1, f);
    }
  }

  lemma LogBound(n: nat, k: nat)
    requires Pow2(k) <= n < 0x4000_0000_0000_0000
    ensures k < 64
  {
    Pow2Values();
    Pow2Monotone(64, if k >= 64 then k else 64);
  }

  /** A value kept in 32 bits. */
  function Wrap32(x: nat): (r: nat)
    ensures r < UINT32
  {
    x % UINT32
  }

  lemma WrapIs(x: nat, q: nat, r: nat)
    requires x == q * UINT32 + r && r < UINT32
    ensures Wrap32(x) == r
  {
  }

  lemma Wrap32Is(x: nat)
    ensures Wrap32(x) == x % 0x1_0000_0000
  {
  }

  lemma Wrap32Steps(x: nat)
    ensures Wrap32(Wrap32(x) + 1) == Wrap32(x + 1)
    ensures Wrap32(2 * Wrap32(x)) == Wrap32(2 * x)
    ensures x < UINT32 ==> Wrap32(x) == x
  {
    var q, r := x / UINT32, x % UINT32;
    hide Wrap32;
    WrapIs(x, q, r);
    if r + 1 < UINT32 {
      WrapIs(x + 1, q, r + 1);
      WrapIs(r + 1, 0, r + 1);
    } else {
      WrapIs(x + 1, q + 1, 0);
      WrapIs(r + 1, 1, 0);
    }
    if 2 * r < UINT32 {
      WrapIs(2 * x, 2 * q, 2 * r);
      WrapIs(2 * r, 0, 2 * r);
    } else {
      WrapIs(2 * x, 2 * q + 1, 2 * r - UINT32);
      WrapIs(2 * r, 1, 2 * r - UINT32);
    }
    if x < UINT32 {
      WrapIs(x, 0, x);
    }
  }

  /** What symbol `i` holds once lengths below `length` are done. */
  function Assigned(lengths: seq<nat>, i: nat, length: nat): nat
    requires i < |lengths|
  {
    if 1 <= lengths[i] < length then Wrap32(Code(lengths, i)) else 0
  }

  /** One pass over the symbols of one length. */
  method CodesOfLength(lengths: seq<nat>, codes: array<nat>, length: nat, start: nat) returns (code: nat)
    requires codes.Length == |lengths| && length >= 1
    requires start == Wrap32(First(lengths, length))
    requires forall i :: 0 <= i < |lengths| ==> codes[i] == Assigned(lengths, i, length)
    modifies codes
    ensures code == Wrap32(First(lengths, length) + Count(lengths, length))
    ensures forall i :: 0 <= i < |lengths| ==> codes[i] == Assigned(lengths, i, length + 1)
  {
    hide Wrap32, First;
    code := start;
    for index := 0 to |lengths|
      invariant code == Wrap32(First(lengths, length) + CountTo(lengths, length, index))
      invariant forall i :: 0 <= i < |lengths| ==>
        codes[i] == Assigned(lengths, i, if i < index then length + 1 else length)
    {
      if lengths[index] == length {
        assert code == Wrap32(Code(lengths, index));
        codes[index] := code;
        Wrap32Steps(First(lengths, length) + CountTo(lengths, length, index));
        Wrap32Is(code + 1);
        code := (code + 1) % 0x1_0000_0000;
      }
    }
  }

  /** Canonical codes in 32-bit arithmetic. A length of 255 would keep the source's 8-bit loop
      variable from ever passing the maximum. */
  method CanonicalCodes(lengths: seq<nat>) returns (codes: seq<nat>)
    requires forall i :: 0 <= i < |lengths| ==> lengths[i] < 255
    ensures |codes| == |lengths|
    ensures forall i :: 0 <= i < |lengths| ==> codes[i] == Assigned(lengths, i, 255)
  {
    var maximum := 0;
    for index := 0 to |lengths|
      invariant maximum < 255 && forall i :: 0 <= i < index ==> lengths[i] <= maximum
    {
      if lengths[index] > maximum {
        maximum := lengths[index];
      }
    }
    var filled := new nat[|lengths|](_ => 0);
    var code, length := 0, 1;
    hide Code;
    while length <= maximum
      invariant 1 <= length <= maximum + 1
      invariant code == Wrap32(First(lengths, length))
      invariant forall i :: 0 <= i < |lengths| ==> filled[i] == Assigned(lengths, i, length)
    {
      code := CodesOfLength(lengths, filled, length, code);
      Wrap32Steps(First(lengths, length) + Count(lengths, length));
      Wrap32Is(2 * code);
      code := 2 * code % 0x1_0000_0000;
      length := length + 1;
    }
    codes := filled[..];
  }

  /** No code the encoder uses comes near the 32-bit limit. */
  lemma CodesExact(alphaSize: nat, i: nat)
    requires 2 <= alphaSize <= 258 && i < alphaSize
    ensures 1 <= Lengths(alphaSize)[i] <= 9
    ensures Code(Lengths(alphaSize), i) < UINT32
    ensures Assigned(Lengths(alphaSize), i, 255) == Code(Lengths(alphaSize), i)
  {
    var lengths, max := Lengths(alphaSize), FloorLog(alphaSize) + 1;
    assert 1 <= lengths[i] <= 9 by { FloorLogSmall(alphaSize); }
    assert Code(lengths, i) < Pow2(lengths[i]) by {
      LengthsComplete(alphaSize);
      CodeFits(lengths, max, i);
    }
    hide FloorLog, Lengths, Code;
    Pow2Monotone(lengths[i], 32);
    Pow2Values();
    Wrap32Steps(Code(lengths, i));
  }
}
