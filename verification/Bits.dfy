/** Bytes, powers of two, and bit strings written most significant bit first. */
module Bits {
  type byte = x: int | 0 <= x < 256

  function Pow2(n: nat): (p: nat)
    ensures p >= 1
  {
    if n == 0 then 1 else 2 * Pow2(n - 1)
  }

  lemma {:induction false} Pow2Add(a: nat, b: nat)
    ensures Pow2(a + b) == Pow2(a) * Pow2(b)
  {
    if b == 0 {
    } else {
      Pow2Add(a, b - 1);
      assert Pow2(a + b) == 2 * Pow2(a + (b - 1));
      assert 2 * (Pow2(a) * Pow2(b - 1)) == Pow2(a) * (2 * Pow2(b - 1));
    }
  }

  lemma {:induction false} Pow2Monotone(a: nat, b: nat)
    requires a <= b
    ensures Pow2(a) <= Pow2(b)
    decreases b
  {
    if a < b {
      Pow2Monotone(a, b - 1);
    }
  }

  lemma Pow2Values()
    ensures Pow2(1) == 2 && Pow2(3) == 8 && Pow2(5) == 32 && Pow2(8) == 256
    ensures Pow2(15) == 0x8000 && Pow2(16) == 0x1_0000 && Pow2(24) == 0x100_0000
    ensures Pow2(32) == 0x1_0000_0000 && Pow2(64) == 0x1_0000_0000_0000_0000
  {
    assert Pow2(5) == 32;
    assert Pow2(8) == 8 * Pow2(5);
    Pow2Add(8, 7);
    assert Pow2(7) == 4 * Pow2(5);
    Pow2Add(8, 8);
    Pow2Add(16, 8);
    Pow2Add(16, 16);
    Pow2Add(32, 32);
  }

  /** The `n` low bits of `v`, most significant first. */
  function FieldBits(v: nat, n: nat): (s: seq<bool>)
    ensures |s| == n
  {
    if n == 0 then [] else FieldBits(v / 2, n - 1) + [v % 2 == 1]
  }

  /** The number a bit string denotes. */
  function BitsValue(s: seq<bool>): (v: nat)
    ensures v < Pow2(|s|)
  {
    if s == [] then 0
    else 2 * BitsValue(s[..|s| - 1]) + (if s[|s| - 1] then 1 else 0)
  }

  lemma {:induction false} FieldValue(v: nat, n: nat)
    requires v < Pow2(n)
    ensures BitsValue(FieldBits(v, n)) == v
  {
    if n > 0 {
      FieldValue(v / 2, n - 1);
      var s := FieldBits(v, n);
      assert s[..|s| - 1] == FieldBits(v / 2, n - 1);
    }
  }

  /** `v << n`. */
  function Shl(v: nat, n: nat): nat {
    if n == 0 then v else 2 * Shl(v, n - 1)
  }

  /** `v >> n`. */
  function Shr(v: nat, n: nat): nat {
    if n == 0 then v else Shr(v / 2, n - 1)
  }

  /** `v & ((1 << n) - 1)`. */
  function Low(v: nat, n: nat): (r: nat)
    ensures r < Pow2(n)
  {
    if n == 0 then 0 else 2 * Low(v / 2, n - 1) + v % 2
  }

  /** Only the low bits of a value reach its field. */
  lemma {:induction false} FieldLow(v: nat, n: nat)
    ensures FieldBits(Low(v, n), n) == FieldBits(v, n)
  {
    if n > 0 {
      FieldLow(v / 2, n - 1);
      assert Low(v, n) / 2 == Low(v / 2, n - 1);
    }
  }

  /** Appending fields is shifting and adding, and the sum stays within the joined width. */
  lemma {:induction false} FieldJoin(a: nat, m: nat, b: nat, k: nat)
    requires b < Pow2(k)
    ensures FieldBits(Shl(a, k) + b, m + k) == FieldBits(a, m) + FieldBits(b, k)
    ensures a < Pow2(m) ==> Shl(a, k) + Pow2(k) <= Pow2(m + k)
    decreases k
  {
    if k == 0 {
      assert FieldBits(b, 0) == [];
    } else {
      FieldJoin(a, m, b / 2, k - 1);
      var whole := Shl(a, k) + b;
      assert whole / 2 == Shl(a, k - 1) + b / 2 && whole % 2 == b % 2;
      assert FieldBits(whole, m + k) == FieldBits(whole / 2, m + (k - 1)) + [whole % 2 == 1];
      assert FieldBits(b, k) == FieldBits(b / 2, k - 1) + [b % 2 == 1];
    }
  }

  /** A value is its high part shifted back over its low part. */
  lemma {:induction false} SplitValue(v: nat, m: nat, k: nat)
    ensures v == Shl(Shr(v, k), k) + Low(v, k)
    ensures v < Pow2(m + k) ==> Shr(v, k) < Pow2(m)
    decreases k
  {
    if k > 0 {
      SplitValue(v / 2, m, k - 1);
      assert Pow2(m + k) == 2 * Pow2(m + (k - 1));
      assert v == 2 * (v / 2) + v % 2;
    }
  }

  /** The bits of a byte stream. */
  function BytesBits(s: seq<byte>): (b: seq<bool>)
    ensures |b| == 8 * |s|
  {
    if s == [] then [] else BytesBits(s[..|s| - 1]) + FieldBits(s[|s| - 1], 8)
  }

  lemma BytesBitsSnoc(s: seq<byte>, x: byte)
    ensures BytesBits(s + [x]) == BytesBits(s) + FieldBits(x, 8)
  {
    assert (s + [x])[..|s|] == s;
  }

  lemma Assoc<T>(a: seq<T>, b: seq<T>, c: seq<T>)
    ensures a + (b + c) == (a + b) + c
  {
  }
}
