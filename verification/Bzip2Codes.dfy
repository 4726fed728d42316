/** Canonical prefix codes, for any code lengths that satisfy Kraft's inequality. */
module Bzip2Codes {
  import opened Bits
  import opened Outcomes

  /** How many of the first `n` symbols have length `l`. */
  function CountTo(lengths: seq<nat>, l: nat, n: nat): (c: nat)
    requires n <= |lengths|
    ensures c <= n
  {
    if n == 0 then 0 else CountTo(lengths, l, n - 1) + (if lengths[n - 1] == l then 1 else 0)
  }

  function Count(lengths: seq<nat>, l: nat): nat {
    CountTo(lengths, l, |lengths|)
  }

  /** The first code of length `l`. */
  function First(lengths: seq<nat>, l: nat): nat {
    if l <= 1 then 0 else 2 * (First(lengths, l - 1) + Count(lengths, l - 1))
  }

  /** The canonical code of symbol `i`: codes of one length count up in symbol order. */
  function Code(lengths: seq<nat>, i: nat): nat
    requires i < |lengths|
  {
    First(lengths, lengths[i]) + CountTo(lengths, lengths[i], i)
  }

  function CodeBits(lengths: seq<nat>, i: nat): seq<bool>
    requires i < |lengths|
  {
    FieldBits(Code(lengths, i), lengths[i])
  }

  // ----- Kraft's inequality

  /** Kraft's sum over the first `n` symbols no longer than `l`, in units of `2^-l`. */
  function KraftTo(lengths: seq<nat>, l: nat, n: nat): nat
    requires n <= |lengths|
  {
    if n == 0 then 0
    else KraftTo(lengths, l, n - 1) + (if lengths[n - 1] <= l then Pow2(l - lengths[n - 1]) else 0)
  }

  ghost predicate LengthsWithin(lengths: seq<nat>, max: nat) {
    forall i :: 0 <= i < |lengths| ==> 1 <= lengths[i] <= max
  }

  /** The sum of `2^-length` over all symbols is at most 1. */
  ghost predicate Kraft(lengths: seq<nat>, max: nat) {
    LengthsWithin(lengths, max) && KraftTo(lengths, max, |lengths|) <= Pow2(max)
  }

  lemma {:induction false} KraftStep(lengths: seq<nat>, l: nat, n: nat)
    requires n <= |lengths| && l >= 1
    ensures KraftTo(lengths, l, n) == 2 * KraftTo(lengths, l - 1, n) + CountTo(lengths, l, n)
  {
    if n > 0 {
      KraftStep(lengths, l, n - 1);
    }
  }

  lemma {:induction false} KraftZero(lengths: seq<nat>, n: nat)
    requires n <= |lengths| && forall i :: 0 <= i < |lengths| ==> lengths[i] >= 1
    ensures KraftTo(lengths, 0, n) == 0
  {
    if n > 0 {
      KraftZero(lengths, n - 1);
    }
  }

  /** One past the last code of length `l`, which is Kraft's sum at that length. */
  lemma {:induction false} LimitIsKraft(lengths: seq<nat>, l: nat)
    requires l >= 1 && forall i :: 0 <= i < |lengths| ==> lengths[i] >= 1
    ensures First(lengths, l) + Count(lengths, l) == KraftTo(lengths, l, |lengths|)
  {
    KraftStep(lengths, l, |lengths|);
    if l == 1 {
      KraftZero(lengths, |lengths|);
    } else {
      LimitIsKraft(lengths, l - 1);
    }
  }

  /** Codes of length `m` start beyond every extension of a shorter code. */
  lemma {:induction false} LongerStartsBeyond(lengths: seq<nat>, l: nat, m: nat)
    requires 1 <= l < m
    ensures Shl(First(lengths, l) + Count(lengths, l), m - l) <= First(lengths, m)
    decreases m
  {
    if m == l + 1 {
      assert Shl(First(lengths, l) + Count(lengths, l), 1) == 2 * (First(lengths, l) + Count(lengths, l));
    } else {
      LongerStartsBeyond(lengths, l, m - 1);
    }
  }

  lemma {:induction false} ShlBound(a: nat, l: nat, k: nat)
    requires Shl(a, k) <= Pow2(l + k)
    ensures a <= Pow2(l)
    decreases k
  {
    if k > 0 {
      assert Pow2(l + k) == 2 * Pow2(l + (k - 1));
      ShlBound(a, l, k - 1);
    }
  }

  /** Under Kraft's inequality the codes of every length fit that length. */
  lemma LimitFits(lengths: seq<nat>, max: nat, l: nat)
    requires Kraft(lengths, max) && 1 <= l <= max
    ensures First(lengths, l) + Count(lengths, l) <= Pow2(l)
  {
    hide First, Count, KraftTo, Pow2, Shl;
    LimitIsKraft(lengths, max);
    if l < max {
      LongerStartsBeyond(lengths, l, max);
      ShlBound(First(lengths, l) + Count(lengths, l), l, max - l);
    }
  }

  lemma {:induction false} CountGrows(lengths: seq<nat>, l: nat, i: nat, n: nat)
    requires i < n <= |lengths| && lengths[i] == l
    ensures CountTo(lengths, l, i) < CountTo(lengths, l, n)
  {
    if n > i + 1 {
      CountGrows(lengths, l, i, n - 1);
    }
  }

  lemma CodeFits(lengths: seq<nat>, max: nat, i: nat)
    requires Kraft(lengths, max) && i < |lengths|
    ensures First(lengths, lengths[i]) <= Code(lengths, i) < First(lengths, lengths[i]) + Count(lengths, lengths[i])
    ensures Code(lengths, i) < Pow2(lengths[i])
  {
    LimitFits(lengths, max, lengths[i]);
    CountGrows(lengths, lengths[i], i, |lengths|);
  }

  // ----- Decoding one symbol

  /** The symbol that is number `k` among those of length `l`, looking at the first `n`. */
  function Nth(lengths: seq<nat>, l: nat, k: nat, n: nat): (i: nat)
    requires n <= |lengths| && k < CountTo(lengths, l, n)
    ensures i < n && lengths[i] == l && CountTo(lengths, l, i) == k
  {
    if lengths[n - 1] == l && CountTo(lengths, l, n - 1) == k then n - 1
    else Nth(lengths, l, k, n - 1)
  }

  /** The textbook canonical decoder: take bits until their value falls among the codes of that
      many bits. */
  function DecodeFrom(lengths: seq<nat>, max: nat, s: seq<bool>, l: nat): Option<(nat, seq<bool>)>
    decreases max - l
  {
    if l > max || l > |s| then None
    else
      var v := BitsValue(s[..l]);
      var first := First(lengths, l);
      if first <= v && v - first < Count(lengths, l)
      then Some((Nth(lengths, l, v - first, |lengths|), s[l..]))
      else DecodeFrom(lengths, max, s, l + 1)
  }

  function DecodeSymbol(lengths: seq<nat>, max: nat, s: seq<bool>): Option<(nat, seq<bool>)> {
    DecodeFrom(lengths, max, s, 1)
  }

  /** The first bits of a field are the field of its high part. */
  lemma {:induction false} FieldPrefix(v: nat, l: nat, k: nat)
    ensures FieldBits(v, l + k)[..l] == FieldBits(Shr(v, k), l)
    decreases k
  {
    if k == 0 {
      assert FieldBits(v, l)[..l] == FieldBits(v, l);
    } else {
      FieldPrefix(v / 2, l, k - 1);
      assert FieldBits(v, l + k) == FieldBits(v / 2, l + (k - 1)) + [v % 2 == 1];
      assert FieldBits(v, l + k)[..l] == FieldBits(v / 2, l + (k - 1))[..l];
    }
  }

  lemma PrefixValue(v: nat, l: nat, k: nat)
    requires v < Pow2(l + k)
    ensures BitsValue(FieldBits(v, l + k)[..l]) == Shr(v, k)
  {
    FieldPrefix(v, l, k);
    SplitValue(v, l, k);
    FieldValue(Shr(v, k), l);
  }

  lemma {:induction false} ShrBeyond(a: nat, v: nat, k: nat)
    requires Shl(a, k) <= v
    ensures a <= Shr(v, k)
    decreases k
  {
    if k > 0 {
      ShrBeyond(a, v / 2, k - 1);
    }
  }

  /** No prefix of a code reaches down to the codes of its length. */
  lemma PrefixBeyond(lengths: seq<nat>, max: nat, i: nat, l: nat)
    requires Kraft(lengths, max) && i < |lengths| && 1 <= l < lengths[i]
    ensures BitsValue(CodeBits(lengths, i)[..l]) >= First(lengths, l) + Count(lengths, l)
  {
    hide Kraft, Code, First, Count, FieldBits, BitsValue, Shl, Shr, Pow2;
    var k := lengths[i] - l;
    var v := Code(lengths, i);
    assert CodeBits(lengths, i) == FieldBits(v, l + k);
    CodeBeyond(lengths, max, i, l);
    ShrBeyond(First(lengths, l) + Count(lengths, l), v, k);
    PrefixValue(v, l, k);
  }

  lemma CodeBeyond(lengths: seq<nat>, max: nat, i: nat, l: nat)
    requires Kraft(lengths, max) && i < |lengths| && 1 <= l < lengths[i]
    ensures Code(lengths, i) < Pow2(lengths[i])
    ensures Shl(First(lengths, l) + Count(lengths, l), lengths[i] - l) <= Code(lengths, i)
  {
    hide *;
    CodeFits(lengths, max, i);
    LongerStartsBeyond(lengths, l, lengths[i]);
  }

  /** Distinct symbols have codes neither of which begins the other. */
  lemma PrefixFree(lengths: seq<nat>, max: nat, i: nat, j: nat)
    requires Kraft(lengths, max) && i < |lengths| && j < |lengths| && i != j
    ensures !(CodeBits(lengths, i) <= CodeBits(lengths, j))
  {
    var l, m := lengths[i], lengths[j];
    CodeFits(lengths, max, i);
    FieldValue(Code(lengths, i), l);
    if l < m {
      PrefixBeyond(lengths, max, j, l);
      assert CodeBits(lengths, j)[..l] != CodeBits(lengths, i);
    } else if l == m {
      CodeFits(lengths, max, j);
      FieldValue(Code(lengths, j), m);
      if i < j {
        CountGrows(lengths, l, i, j);
      } else {
        CountGrows(lengths, l, j, i);
      }
      assert CodeBits(lengths, i) != CodeBits(lengths, j);
    }
  }

  lemma {:induction false} NthOfCount(lengths: seq<nat>, i: nat, n: nat)
    requires i < n <= |lengths|
    requires CountTo(lengths, lengths[i], i) < CountTo(lengths, lengths[i], n)
    ensures Nth(lengths, lengths[i], CountTo(lengths, lengths[i], i), n) == i
  {
    var l := lengths[i];
    var k := CountTo(lengths, l, i);
    if n > i + 1 {
      CountGrows(lengths, l, i, n - 1);
      NthOfCount(lengths, i, n - 1);
    }
  }

  lemma {:induction false} DecodeSkips(lengths: seq<nat>, max: nat, i: nat, rest: seq<bool>, l: nat)
    requires Kraft(lengths, max) && i < |lengths| && 1 <= l <= lengths[i]
    ensures DecodeFrom(lengths, max, CodeBits(lengths, i) + rest, l) == Some((i, rest))
    decreases lengths[i] - l
  {
    var code := CodeBits(lengths, i);
    var s := code + rest;
    if l < lengths[i] {
      assert s[..l] == code[..l];
      PrefixBeyond(lengths, max, i, l);
      DecodeSkips(lengths, max, i, rest, l + 1);
    } else {
      assert s[..l] == code && s[l..] == rest;
      CodeFits(lengths, max, i);
      FieldValue(Code(lengths, i), l);
      NthOfCount(lengths, i, |lengths|);
    }
  }

  /** A code decodes to its symbol, whatever follows it. */
  lemma DecodeCode(lengths: seq<nat>, max: nat, i: nat, rest: seq<bool>)
    requires Kraft(lengths, max) && i < |lengths|
    ensures DecodeSymbol(lengths, max, CodeBits(lengths, i) + rest) == Some((i, rest))
  {
    DecodeSkips(lengths, max, i, rest, 1);
  }
}
