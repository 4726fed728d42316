/** Rotations of a block, compared through their prefixes. */
module Bzip2Rotations {
  import opened Bits
  import opened Sorting

  /** `x % n`, for the arguments below `2 * n` that the compressor takes it of. */
  function Wrap(x: nat, n: nat): (r: nat)
    requires x < 2 * n
    ensures r < n
  {
    if x < n then x else x - n
  }

  lemma WrapIsRemainder(x: nat, n: nat)
    requires x < 2 * n
    ensures Wrap(x, n) == x % n
  {
    if x >= n {
      assert x == n + (x - n);
    }
  }

  /** The block read cyclically. */
  function At(s: seq<byte>, k: nat): byte
    requires s != []
    decreases k
  {
    if k < |s| then s[k] else At(s, k - |s|)
  }

  /** The byte `t` places after position `i`. */
  function Char(s: seq<byte>, i: nat, t: nat): byte
    requires s != []
  {
    At(s, i + t)
  }

  /** The `k` bytes from position `i` on. */
  function Prefix(s: seq<byte>, i: nat, k: nat): (r: seq<byte>)
    requires s != []
    ensures |r| == k
    ensures forall t :: 0 <= t < k ==> r[t] == Char(s, i, t)
  {
    if k == 0 then [] else Prefix(s, i, k - 1) + [Char(s, i, k - 1)]
  }

  function Rotation(s: seq<byte>, i: nat): (r: seq<byte>)
    requires s != []
    ensures |r| == |s|
    ensures forall t :: 0 <= t < |s| ==> r[t] == Char(s, i, t)
  {
    Prefix(s, i, |s|)
  }

  /** Strict lexicographic order on strings of one length. */
  ghost predicate LexLess(a: seq<byte>, b: seq<byte>) {
    |a| == |b| && exists t :: 0 <= t < |a| && a[..t] == b[..t] && a[t] < b[t]
  }

  /** The first `k` bytes from `i` and from `j` agree. */
  ghost predicate EqualPrefix(s: seq<byte>, i: nat, j: nat, k: nat)
    requires s != []
  {
    forall t: nat :: t < k ==> Char(s, i, t) == Char(s, j, t)
  }

  ghost predicate FirstDifference(s: seq<byte>, i: nat, j: nat, t: nat)
    requires s != []
  {
    EqualPrefix(s, i, j, t) && Char(s, i, t) < Char(s, j, t)
  }

  /** The first `k` bytes from `i` come before those from `j`. */
  ghost predicate LessPrefix(s: seq<byte>, i: nat, j: nat, k: nat)
    requires s != []
  {
    exists t: nat :: t < k && FirstDifference(s, i, j, t)
  }

  lemma {:induction false} Trichotomy(s: seq<byte>, i: nat, j: nat, k: nat)
    requires s != []
    ensures LessPrefix(s, i, j, k) || EqualPrefix(s, i, j, k) || LessPrefix(s, j, i, k)
    ensures !(LessPrefix(s, i, j, k) && LessPrefix(s, j, i, k))
    ensures LessPrefix(s, i, j, k) ==> !EqualPrefix(s, i, j, k)
  {
    if k > 0 {
      Trichotomy(s, i, j, k - 1);
      if EqualPrefix(s, i, j, k - 1) {
        var t: nat := k - 1;
        assert Char(s, i, t) < Char(s, j, t) ==> FirstDifference(s, i, j, t);
        assert Char(s, j, t) < Char(s, i, t) ==> FirstDifference(s, j, i, t);
      }
    }
  }

  lemma LessTransitive(s: seq<byte>, h: nat, i: nat, j: nat, k: nat)
    requires s != []
    ensures LessPrefix(s, h, i, k) && LessPrefix(s, i, j, k) ==> LessPrefix(s, h, j, k)
    ensures LessPrefix(s, h, i, k) && EqualPrefix(s, i, j, k) ==> LessPrefix(s, h, j, k)
    ensures EqualPrefix(s, h, i, k) && LessPrefix(s, i, j, k) ==> LessPrefix(s, h, j, k)
  {
    if LessPrefix(s, h, i, k) && LessPrefix(s, i, j, k) {
      var t: nat :| t < k && FirstDifference(s, h, i, t);
      var u: nat :| u < k && FirstDifference(s, i, j, u);
      var m := if t < u then t else u;
      assert FirstDifference(s, h, j, m);
    }
    if LessPrefix(s, h, i, k) && EqualPrefix(s, i, j, k) {
      var t: nat :| t < k && FirstDifference(s, h, i, t);
      assert FirstDifference(s, h, j, t);
    }
    if EqualPrefix(s, h, i, k) && LessPrefix(s, i, j, k) {
      var t: nat :| t < k && FirstDifference(s, i, j, t);
      assert FirstDifference(s, h, j, t);
    }
  }

  /** Prefixes of length `k + m` compare as their halves do. */
  lemma PrefixSplit(s: seq<byte>, i: nat, j: nat, k: nat, m: nat)
    requires s != []
    ensures EqualPrefix(s, i, j, k + m) <==> EqualPrefix(s, i, j, k) && EqualPrefix(s, i + k, j + k, m)
    ensures LessPrefix(s, i, j, k + m)
       <==> LessPrefix(s, i, j, k) || (EqualPrefix(s, i, j, k) && LessPrefix(s, i + k, j + k, m))
  {
    EqualSplit(s, i, j, k, m);
    if LessPrefix(s, i, j, k + m) {
      var t: nat :| t < k + m && FirstDifference(s, i, j, t);
      if t >= k {
        EqualSplit(s, i, j, k, t - k);
        assert FirstDifference(s, i + k, j + k, t - k);
      }
    }
    if EqualPrefix(s, i, j, k) && LessPrefix(s, i + k, j + k, m) {
      var t: nat :| t < m && FirstDifference(s, i + k, j + k, t);
      EqualSplit(s, i, j, k, t);
      assert FirstDifference(s, i, j, k + t);
    }
    if LessPrefix(s, i, j, k) {
      var t: nat :| t < k && FirstDifference(s, i, j, t);
    }
  }

  lemma EqualSplit(s: seq<byte>, i: nat, j: nat, k: nat, m: nat)
    requires s != []
    ensures EqualPrefix(s, i, j, k + m) <==> EqualPrefix(s, i, j, k) && EqualPrefix(s, i + k, j + k, m)
  {
    if EqualPrefix(s, i, j, k + m) {
      var i', j' := i + k, j + k;
      forall t: nat | t < m ensures Char(s, i', t) == Char(s, j', t) {
        assert Char(s, i, k + t) == Char(s, j, k + t);
      }
    }
    if EqualPrefix(s, i, j, k) && EqualPrefix(s, i + k, j + k, m) {
      forall t: nat | t < k + m ensures Char(s, i, t) == Char(s, j, t) {
        if t >= k {
          assert Char(s, i + k, t - k) == Char(s, j + k, t - k);
        }
      }
    }
  }

  /** Going once round the block changes no comparison. */
  lemma PrefixWrap(s: seq<byte>, i: nat, j: nat, i': nat, j': nat, k: nat)
    requires s != []
    requires i' == i || i' == i + |s|
    requires j' == j || j' == j + |s|
    ensures EqualPrefix(s, i', j', k) <==> EqualPrefix(s, i, j, k)
    ensures LessPrefix(s, i', j', k) <==> LessPrefix(s, i, j, k)
  {
    forall t: nat ensures Char(s, i', t) == Char(s, i, t) && Char(s, j', t) == Char(s, j, t) {
    }
    if LessPrefix(s, i', j', k) {
      var t: nat :| t < k && FirstDifference(s, i', j', t);
      assert FirstDifference(s, i, j, t);
    }
    if LessPrefix(s, i, j, k) {
      var t: nat :| t < k && FirstDifference(s, i, j, t);
      assert FirstDifference(s, i', j', t);
    }
  }

  /** Agreement over one whole turn is agreement for ever. */
  lemma {:induction false} EqualForever(s: seq<byte>, i: nat, j: nat, k: nat)
    requires s != [] && EqualPrefix(s, i, j, |s|)
    ensures EqualPrefix(s, i, j, k)
  {
    if k > 0 {
      EqualForever(s, i, j, k - 1);
      var t: nat := k - 1;
      if t >= |s| {
        var u: nat := t - |s|;
        assert Char(s, i, t) == Char(s, i, u) && Char(s, j, t) == Char(s, j, u);
      }
    }
  }

  /** Prefixes longer than the block decide nothing that whole rotations do not. */
  lemma PrefixSaturates(s: seq<byte>, i: nat, j: nat, k: nat)
    requires s != [] && k >= |s|
    ensures EqualPrefix(s, i, j, k) <==> EqualPrefix(s, i, j, |s|)
    ensures LessPrefix(s, i, j, k) <==> LessPrefix(s, i, j, |s|)
  {
    if EqualPrefix(s, i, j, |s|) {
      EqualForever(s, i, j, k);
    }
    Trichotomy(s, i, j, k);
    Trichotomy(s, i, j, |s|);
    if LessPrefix(s, i, j, |s|) {
      var t: nat :| t < |s| && FirstDifference(s, i, j, t);
      assert LessPrefix(s, i, j, k);
    }
    if LessPrefix(s, j, i, |s|) {
      var t: nat :| t < |s| && FirstDifference(s, j, i, t);
      assert LessPrefix(s, j, i, k);
    }
  }

  /** An equivalence of prefixes that one doubling leaves alone is equality of rotations. */
  lemma {:induction false} StableForever(s: seq<byte>, step: nat, i: nat, j: nat, k: nat)
    requires s != [] && 0 < step < |s| && i < |s| && j < |s|
    requires forall a: nat, b: nat :: a < |s| && b < |s| && EqualPrefix(s, a, b, step) ==>
        EqualPrefix(s, a, b, 2 * step)
    requires EqualPrefix(s, i, j, step)
    ensures EqualPrefix(s, i, j, k)
    decreases k
  {
    if k > step {
      EqualSplit(s, i, j, step, step);
      var i', j' := Wrap(i + step, |s|), Wrap(j + step, |s|);
      PrefixWrap(s, i', j', i + step, j + step, step);
      StableForever(s, step, i', j', k - step);
      PrefixWrap(s, i', j', i + step, j + step, k - step);
      EqualSplit(s, i, j, step, k - step);
    }
  }

  /** Rotations as strings against rotations as prefixes. */
  lemma RotationOrder(s: seq<byte>, i: nat, j: nat)
    requires s != []
    ensures Rotation(s, i) == Rotation(s, j) <==> EqualPrefix(s, i, j, |s|)
    ensures LexLess(Rotation(s, i), Rotation(s, j)) <==> LessPrefix(s, i, j, |s|)
  {
    var a, b := Rotation(s, i), Rotation(s, j);
    if a == b {
      forall t: nat | t < |s| ensures Char(s, i, t) == Char(s, j, t) {
        assert a[t] == b[t];
      }
    }
    if LexLess(a, b) {
      var t :| 0 <= t < |a| && a[..t] == b[..t] && a[t] < b[t];
      forall u: nat | u < t ensures Char(s, i, u) == Char(s, j, u) {
        assert a[..t][u] == b[..t][u];
      }
      assert FirstDifference(s, i, j, t);
    }
    if LessPrefix(s, i, j, |s|) {
      var t: nat :| t < |s| && FirstDifference(s, i, j, t);
      forall u: nat | u < t ensures a[u] == b[u] {
        assert Char(s, i, u) == Char(s, j, u);
      }
      assert a[..t] == b[..t] && a[t] < b[t];
    }
  }

  /** Rotations in lexicographic order, equal ones by position. */
  ghost predicate RowBefore(s: seq<byte>, i: nat, j: nat)
    requires s != []
  {
    LexLess(Rotation(s, i), Rotation(s, j)) || (Rotation(s, i) == Rotation(s, j) && i <= j)
  }

  ghost function RowOrder(s: seq<byte>): (nat, nat) -> bool
    requires s != []
  {
    (i: nat, j: nat) => RowBefore(s, i, j)
  }

  lemma RowBeforeTotal(s: seq<byte>, h: nat, i: nat, j: nat)
    requires s != []
    ensures RowBefore(s, i, j) || RowBefore(s, j, i)
    ensures RowBefore(s, i, j) && RowBefore(s, j, i) ==> i == j
    ensures RowBefore(s, h, i) && RowBefore(s, i, j) ==> RowBefore(s, h, j)
  {
    RotationOrder(s, i, j);
    RotationOrder(s, j, i);
    RotationOrder(s, h, i);
    RotationOrder(s, h, j);
    Trichotomy(s, i, j, |s|);
    LessTransitive(s, h, i, j, |s|);
  }

  lemma RowOrderTotal(s: seq<byte>)
    requires s != []
    ensures TotalPreorder(RowOrder(s)) && Antisymmetric(RowOrder(s))
  {
    var le := RowOrder(s);
    forall i, j
      ensures le(i, j) || le(j, i)
      ensures le(i, j) && le(j, i) ==> i == j
    {
      RowBeforeTotal(s, i, i, j);
    }
    forall h, i, j | le(h, i) && le(i, j) ensures le(h, j) {
      RowBeforeTotal(s, h, i, j);
    }
  }
}
