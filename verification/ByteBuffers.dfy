/** Fields in byte buffers, and little-endian numbers. */
module ByteBuffers {
  import opened Bits

  const SECTOR := 512

  function Zeros(n: nat): (z: seq<byte>)
    ensures |z| == n && forall k :: 0 <= k < n ==> z[k] == 0
  {
    if n == 0 then [] else Zeros(n - 1) + [0]
  }

  predicate AllZero(s: seq<byte>) {
    forall k :: 0 <= k < |s| ==> s[k] == 0
  }

  /** `s` with `b` written at position `at`. */
  function Put(s: seq<byte>, at: nat, b: seq<byte>): (r: seq<byte>)
    requires at + |b| <= |s|
    ensures |r| == |s|
  {
    s[..at] + b + s[at + |b|..]
  }

  function Get(s: seq<byte>, at: nat, n: nat): (r: seq<byte>)
    requires at + n <= |s|
    ensures |r| == n
  {
    s[at..at + n]
  }

  /** A field reads back what was written to it; fields beside it keep what they had. */
  lemma PutField(s: seq<byte>, at: nat, b: seq<byte>)
    requires at + |b| <= |s|
    ensures Get(Put(s, at, b), at, |b|) == b
    ensures forall from: nat, n: nat {:trigger Get(Put(s, at, b), from, n)} ::
        from + n <= |s| && (from + n <= at || at + |b| <= from) ==> Get(Put(s, at, b), from, n) == Get(s, from, n)
  {
  }

  /** Writing into a stretch in the middle of a buffer. */
  lemma PutInside(left: seq<byte>, mid: seq<byte>, right: seq<byte>, at: nat, b: seq<byte>)
    requires at + |b| <= |mid|
    ensures Put(left + mid + right, |left| + at, b) == left + Put(mid, at, b) + right
  {
  }

  method PutBytes(a: array<byte>, at: nat, b: seq<byte>)
    requires at + |b| <= a.Length
    modifies a
    ensures a[..] == Put(old(a[..]), at, b)
  {
    ghost var was := a[..];
    for i := 0 to |b|
      invariant a[..] == Put(was, at, b[..i])
    {
      a[at + i] := b[i];
      assert b[..i + 1] == b[..i] + [b[i]];
    }
    assert b[..|b|] == b;
  }

  // ----- Little-endian numbers

  function Le(x: nat, n: nat): (s: seq<byte>)
    ensures |s| == n
  {
    if n == 0 then [] else [x % 256] + Le(x / 256, n - 1)
  }

  function LeValue(s: seq<byte>): (x: nat)
  {
    if s == [] then 0 else s[0] + 256 * LeValue(s[1..])
  }

  /** The number of values in `n` bytes. */
  function Pow256(n: nat): (p: nat)
    ensures p > 0
  {
    if n == 0 then 1 else 256 * Pow256(n - 1)
  }

  lemma Pow256Values()
    ensures Pow256(2) == 0x1_0000 && Pow256(4) == 0x1_0000_0000 && Pow256(8) == 0x1_0000_0000_0000_0000
  {
    assert Pow256(3) == 0x100_0000;
    assert Pow256(6) == 0x1_0000_0000_0000;
  }

  lemma {:induction false} LeRoundTrip(x: nat, n: nat)
    requires x < Pow256(n)
    ensures LeValue(Le(x, n)) == x
  {
    if n > 0 {
      LeRoundTrip(x / 256, n - 1);
      assert Le(x, n)[1..] == Le(x / 256, n - 1);
    }
  }

  lemma {:induction false} LeBound(s: seq<byte>)
    ensures LeValue(s) < Pow256(|s|)
  {
    if s != [] {
      LeBound(s[1..]);
    }
  }

  /** Fields of two, four and eight bytes, the lowest first. */
  lemma LeSpelled(s: seq<byte>)
    ensures |s| == 2 ==> LeValue(s) == s[0] + 0x100 * (s[1] as int)
    ensures |s| == 4 ==>
        LeValue(s) == s[0] + 0x100 * (s[1] as int) + 0x1_0000 * (s[2] as int) + 0x100_0000 * (s[3] as int)
    ensures |s| == 8 ==>
        LeValue(s) == LeValue(s[..4]) + 0x1_0000_0000 * LeValue(s[4..])
  {
    if |s| == 2 {
      TwoBytes(s);
    } else if |s| == 4 {
      TwoBytes(s[2..]);
      FirstTwo(s);
    } else if |s| == 8 {
      FirstTwo(s);
      FirstTwo(s[2..]);
      FirstTwo(s[..4]);
      TwoBytes(s[..4][2..]);
    }
  }

  lemma TwoBytes(s: seq<byte>)
    requires |s| == 2
    ensures LeValue(s) == s[0] + 0x100 * (s[1] as int)
  {
    assert LeValue(s[1..]) == s[1];
  }

  lemma FirstTwo(s: seq<byte>)
    requires |s| >= 2
    ensures LeValue(s) == s[0] + 0x100 * (s[1] as int) + 0x1_0000 * LeValue(s[2..])
  {
    assert s[1..][1..] == s[2..];
    assert LeValue(s[1..]) == s[1] + 0x100 * LeValue(s[2..]);
  }

  // ----- The checksum of the UEFI and gzip formats

  function CrcShift(c: bv32, k: nat): bv32
    decreases k
  {
    if k == 0 then c else CrcShift(if c & 1 == 1 then (c >> 1) ^ 0xEDB88320 else c >> 1, k - 1)
  }

  function CrcNext(c: bv32, value: byte): bv32 {
    CrcShift(c ^ (value as bv32), 8)
  }

  function CrcFold(data: seq<byte>, n: nat): bv32
    requires n <= |data|
  {
    if n == 0 then 0xFFFFFFFF else CrcNext(CrcFold(data, n - 1), data[n - 1])
  }

  function Crc32(data: seq<byte>): (c: nat)
    ensures c < 0x1_0000_0000
  {
    (CrcFold(data, |data|) ^ 0xFFFFFFFF) as nat
  }

  lemma DigitsOne()
    ensures CrcNext(0xffffffff, 0x31) == 0x7c231048
    ensures CrcNext(0x7c231048, 0x32) == 0xb0acbb32
    ensures CrcNext(0xb0acbb32, 0x33) == 0x77b79c2d
  {
  }

  lemma DigitsFour()
    ensures CrcNext(0x77b79c2d, 0x34) == 0x641c1f5c
    ensures CrcNext(0x641c1f5c, 0x35) == 0x340ac5e3
    ensures CrcNext(0x340ac5e3, 0x36) == 0xf68d2c9e
  {
  }

  lemma DigitsSeven()
    ensures CrcNext(0xf68d2c9e, 0x37) == 0xaffc9660
    ensures CrcNext(0xaffc9660, 0x38) == 0x651f2550
    ensures CrcNext(0x651f2550, 0x39) == 0x340bc6d9
  {
  }

  /** One more byte of a checksum whose value is known. */
  lemma FoldAt(data: seq<byte>, n: nat, before: bv32, value: byte, after: bv32)
    requires n < |data| && CrcFold(data, n) == before && data[n] == value
    requires CrcNext(before, value) == after
    ensures CrcFold(data, n + 1) == after
  {
    hide CrcNext;
  }

  lemma FoldStart(data: seq<byte>)
    ensures CrcFold(data, 0) == 0xffffffff
  {
  }

  lemma Folded(data: seq<byte>)
    requires CrcFold(data, |data|) == 0x340bc6d9
    ensures Crc32(data) == 0xcbf43926
  {
  }

  /** The check value of the checksum: the digits from one to nine. */
  lemma CheckValue()
    ensures Crc32([0x31, 0x32, 0x33, 0x34, 0x35, 0x36, 0x37, 0x38, 0x39]) == 0xcbf43926
  {
    hide CrcNext, CrcFold, Crc32;
    var data: seq<byte> := [0x31, 0x32, 0x33, 0x34, 0x35, 0x36, 0x37, 0x38, 0x39];
    DigitsOne();
    DigitsFour();
    DigitsSeven();
    FoldStart(data);
    FoldAt(data, 0, 0xffffffff, 0x31, 0x7c231048);
    FoldAt(data, 1, 0x7c231048, 0x32, 0xb0acbb32);
    FoldAt(data, 2, 0xb0acbb32, 0x33, 0x77b79c2d);
    FoldAt(data, 3, 0x77b79c2d, 0x34, 0x641c1f5c);
    FoldAt(data, 4, 0x641c1f5c, 0x35, 0x340ac5e3);
    FoldAt(data, 5, 0x340ac5e3, 0x36, 0xf68d2c9e);
    FoldAt(data, 6, 0xf68d2c9e, 0x37, 0xaffc9660);
    FoldAt(data, 7, 0xaffc9660, 0x38, 0x651f2550);
    FoldAt(data, 8, 0x651f2550, 0x39, 0x340bc6d9);
    Folded(data);
  }
}
