/** Aligning two files by a longest common subsequence of their lines. */
module DiffScript {
  import opened Sorting

  // ----- Longest common subsequences

  /** `s` is what is left of `a` after dropping some of its elements. */
  ghost predicate IsSubsequence<T>(s: seq<T>, a: seq<T>) {
    s == [] || (a != [] && ((s[0] == a[0] && IsSubsequence(s[1..], a[1..])) || IsSubsequence(s, a[1..])))
  }

  /** The recurrence behind the table, from positions `i` and `j` on. */
  function Lcs<T(==)>(a: seq<T>, b: seq<T>, i: nat, j: nat): (r: nat)
    requires i <= |a| && j <= |b|
    ensures r <= |a| - i && r <= |b| - j
    decreases |a| - i, |b| - j
  {
    if i == |a| || j == |b| then 0
    else if a[i] == b[j] then Lcs(a, b, i + 1, j + 1) + 1
    else if Lcs(a, b, i + 1, j) >= Lcs(a, b, i, j + 1) then Lcs(a, b, i + 1, j)
    else Lcs(a, b, i, j + 1)
  }

  lemma {:induction false} SubsequenceTail<T>(s: seq<T>, a: seq<T>)
    requires s != [] && IsSubsequence(s, a)
    ensures a != [] && IsSubsequence(s[1..], a[1..])
  {
    if !(s[0] == a[0] && IsSubsequence(s[1..], a[1..])) {
      SubsequenceTail(s, a[1..]);
      SubsequenceWider(s[1..], a[1..]);
    }
  }

  lemma SubsequenceWider<T>(s: seq<T>, a: seq<T>)
    requires a != [] && IsSubsequence(s, a[1..])
    ensures IsSubsequence(s, a)
  {
  }

  /** No common subsequence of the two suffixes is longer than the recurrence says. */
  lemma {:induction false} LcsBounds<T>(a: seq<T>, b: seq<T>, i: nat, j: nat, s: seq<T>)
    requires i <= |a| && j <= |b|
    requires IsSubsequence(s, a[i..]) && IsSubsequence(s, b[j..])
    ensures |s| <= Lcs(a, b, i, j)
    decreases |a| - i, |b| - j
  {
    if s != [] {
      SubsequenceTail(s, a[i..]);
      SubsequenceTail(s, b[j..]);
      assert a[i..][1..] == a[i + 1..] && b[j..][1..] == b[j + 1..];
      if a[i] == b[j] {
        LcsBounds(a, b, i + 1, j + 1, s[1..]);
      } else if s[0] != a[i] {
        LcsBounds(a, b, i + 1, j, s);
      } else {
        LcsBounds(a, b, i, j + 1, s);
      }
    }
  }

  /** And one of that length exists. */
  lemma {:induction false} LcsReached<T>(a: seq<T>, b: seq<T>, i: nat, j: nat) returns (s: seq<T>)
    requires i <= |a| && j <= |b|
    ensures |s| == Lcs(a, b, i, j) && IsSubsequence(s, a[i..]) && IsSubsequence(s, b[j..])
    decreases |a| - i, |b| - j
  {
    if i == |a| || j == |b| {
      s := [];
    } else {
      assert a[i..][1..] == a[i + 1..] && b[j..][1..] == b[j + 1..];
      if a[i] == b[j] {
        var t := LcsReached(a, b, i + 1, j + 1);
        s := [a[i]] + t;
        assert s[1..] == t;
      } else if Lcs(a, b, i + 1, j) >= Lcs(a, b, i, j + 1) {
        s := LcsReached(a, b, i + 1, j);
        SubsequenceWider(s, a[i..]);
      } else {
        s := LcsReached(a, b, i, j + 1);
        SubsequenceWider(s, b[j..]);
      }
    }
  }

  // ----- Edit scripts

  datatype Kind = Keep | Delete | Insert

  /** One line of a script: where it stands in each file, and what each file has there. */
  datatype Op = Op(kind: Kind, aLine: string, bLine: string, aPos: nat, bPos: nat)

  /** How many of the first `k` operations consume a line of the first file. */
  function ACount(ops: seq<Op>, k: nat): nat
    requires k <= |ops|
  {
    if k == 0 then 0 else ACount(ops, k - 1) + (if ops[k - 1].kind.Insert? then 0 else 1)
  }

  function BCount(ops: seq<Op>, k: nat): nat
    requires k <= |ops|
  {
    if k == 0 then 0 else BCount(ops, k - 1) + (if ops[k - 1].kind.Delete? then 0 else 1)
  }

  function KeepCount(ops: seq<Op>, k: nat): nat
    requires k <= |ops|
  {
    if k == 0 then 0 else KeepCount(ops, k - 1) + (if ops[k - 1].kind.Keep? then 1 else 0)
  }

  ghost predicate InPlace(ops: seq<Op>, k: nat)
    requires k < |ops|
  {
    ops[k].aPos == ACount(ops, k) && ops[k].bPos == BCount(ops, k)
  }

  /** Every operation carries the numbers of lines consumed before it. */
  ghost predicate Positioned(ops: seq<Op>) {
    forall k :: 0 <= k < |ops| ==> InPlace(ops, k)
  }

  /** Two files: the lines as shown, and the keys they are compared by. */
  datatype Sides = Sides(keyA: seq<string>, keyB: seq<string>, textA: seq<string>, textB: seq<string>) {
    predicate Valid() {
      |keyA| == |textA| && |keyB| == |textB|
    }
  }

  /** An operation says what the files have at its position; a kept line has equal keys. */
  ghost predicate Fits(op: Op, f: Sides)
    requires f.Valid()
  {
    && (!op.kind.Insert? ==> op.aPos < |f.textA| && op.aLine == f.textA[op.aPos])
    && (!op.kind.Delete? ==> op.bPos < |f.textB| && op.bLine == f.textB[op.bPos])
    && (op.kind.Keep? ==> f.keyA[op.aPos] == f.keyB[op.bPos])
  }

  /** `ops` has dealt with the first `i` and `j` lines. */
  ghost predicate IsScriptTo(ops: seq<Op>, f: Sides, i: nat, j: nat)
    requires f.Valid()
  {
    && Positioned(ops) && ACount(ops, |ops|) == i && BCount(ops, |ops|) == j
    && forall k :: 0 <= k < |ops| ==> Fits(ops[k], f)
  }

  ghost predicate IsScript(ops: seq<Op>, f: Sides)
    requires f.Valid()
  {
    IsScriptTo(ops, f, |f.keyA|, |f.keyB|)
  }

  /** The numbers of lines of the first file, at least, are right. */
  ghost predicate OldPlaced(ops: seq<Op>) {
    forall k :: 0 <= k < |ops| ==> ops[k].aPos == ACount(ops, k)
  }

  lemma PositionedOld(ops: seq<Op>)
    requires Positioned(ops)
    ensures OldPlaced(ops)
  {
    hide ACount, BCount;
    forall k | 0 <= k < |ops| ensures ops[k].aPos == ACount(ops, k) {
      assert InPlace(ops, k);
    }
  }

  /** The lines of the first file that operations `lo` to `hi` take. */
  function OldLines(ops: seq<Op>, lo: nat, hi: nat): seq<string>
    requires lo <= hi <= |ops|
    decreases hi - lo
  {
    if hi == lo then []
    else OldLines(ops, lo, hi - 1) + (if ops[hi - 1].kind.Insert? then [] else [ops[hi - 1].aLine])
  }

  /** The lines that operations `lo` to `hi` leave in the second file. */
  function NewLines(ops: seq<Op>, lo: nat, hi: nat): seq<string>
    requires lo <= hi <= |ops|
    decreases hi - lo
  {
    if hi == lo then []
    else NewLines(ops, lo, hi - 1) + (if ops[hi - 1].kind.Delete? then [] else [ops[hi - 1].bLine])
  }

  lemma {:induction false} CountsAppend(ops: seq<Op>, op: Op, k: nat)
    requires k <= |ops|
    ensures ACount(ops + [op], k) == ACount(ops, k)
    ensures BCount(ops + [op], k) == BCount(ops, k)
    ensures KeepCount(ops + [op], k) == KeepCount(ops, k)
  {
    if k > 0 {
      CountsAppend(ops, op, k - 1);
    }
  }

  lemma CountSteps(ops: seq<Op>, k: nat)
    requires k < |ops|
    ensures ACount(ops, k + 1) == ACount(ops, k) + (if ops[k].kind.Insert? then 0 else 1)
    ensures BCount(ops, k + 1) == BCount(ops, k) + (if ops[k].kind.Delete? then 0 else 1)
    ensures KeepCount(ops, k + 1) == KeepCount(ops, k) + (if ops[k].kind.Keep? then 1 else 0)
  {
  }

  /** One more operation. */
  lemma ScriptGrows(ops: seq<Op>, op: Op, f: Sides, i: nat, j: nat)
    requires f.Valid() && IsScriptTo(ops, f, i, j)
    requires op.aPos == i && op.bPos == j && Fits(op, f)
    ensures IsScriptTo(ops + [op], f, if op.kind.Insert? then i else i + 1, if op.kind.Delete? then j else j + 1)
    ensures KeepCount(ops + [op], |ops| + 1) == KeepCount(ops, |ops|) + (if op.kind.Keep? then 1 else 0)
  {
    hide ACount, BCount, KeepCount, Fits;
    var longer := ops + [op];
    CountsAppend(ops, op, |ops|);
    CountSteps(longer, |ops|);
    forall k | 0 <= k < |longer| ensures InPlace(longer, k) {
      CountsAppend(ops, op, k);
      assert k < |ops| ==> InPlace(ops, k);
    }
  }

  lemma TextStep(text: seq<string>, p: nat)
    requires p <= |text|
    ensures text[..p] + [] == text[..p]
    ensures p < |text| ==> text[..p + 1] == text[..p] + [text[p]]
  {
  }

  /** A script spells both files. */
  lemma {:induction false} ScriptSpells(ops: seq<Op>, f: Sides, i: nat, j: nat, k: nat)
    requires f.Valid() && IsScriptTo(ops, f, i, j) && k <= |ops|
    ensures ACount(ops, k) <= |f.textA| && BCount(ops, k) <= |f.textB|
    ensures OldLines(ops, 0, k) == f.textA[..ACount(ops, k)] && NewLines(ops, 0, k) == f.textB[..BCount(ops, k)]
    decreases k
  {
    if k > 0 {
      ScriptSpells(ops, f, i, j, k - 1);
      CountSteps(ops, k - 1);
      assert InPlace(ops, k - 1) && Fits(ops[k - 1], f);
      hide ACount, BCount, IsScriptTo;
      TextStep(f.textA, ACount(ops, k - 1));
      TextStep(f.textB, BCount(ops, k - 1));
    }
  }

  // ----- Optimality

  lemma LcsMonotone<T>(a: seq<T>, b: seq<T>, i: nat, j: nat)
    requires i <= |a| && j <= |b|
    ensures i < |a| ==> Lcs(a, b, i + 1, j) <= Lcs(a, b, i, j)
    ensures j < |b| ==> Lcs(a, b, i, j + 1) <= Lcs(a, b, i, j)
  {
    if i < |a| {
      var s := LcsReached(a, b, i + 1, j);
      assert a[i..][1..] == a[i + 1..];
      SubsequenceWider(s, a[i..]);
      LcsBounds(a, b, i, j, s);
    }
    if j < |b| {
      var s := LcsReached(a, b, i, j + 1);
      assert b[j..][1..] == b[j + 1..];
      SubsequenceWider(s, b[j..]);
      LcsBounds(a, b, i, j, s);
    }
  }

  lemma KeepsBoundStep(op: Op, f: Sides, keeps: nat)
    requires f.Valid() && Fits(op, f) && op.aPos <= |f.keyA| && op.bPos <= |f.keyB|
    requires op.kind.Keep? ==> keeps <= Lcs(f.keyA, f.keyB, op.aPos + 1, op.bPos + 1)
    requires op.kind.Delete? ==> keeps <= Lcs(f.keyA, f.keyB, op.aPos + 1, op.bPos)
    requires op.kind.Insert? ==> keeps <= Lcs(f.keyA, f.keyB, op.aPos, op.bPos + 1)
    ensures keeps + (if op.kind.Keep? then 1 else 0) <= Lcs(f.keyA, f.keyB, op.aPos, op.bPos)
  {
    LcsMonotone(f.keyA, f.keyB, op.aPos, op.bPos);
  }

  /** What a script keeps from operation `k` on is bounded by the table at that point. */
  lemma {:induction false} KeepsBound(ops: seq<Op>, f: Sides, k: nat)
    requires f.Valid() && IsScript(ops, f) && k <= |ops|
    ensures ACount(ops, k) <= |f.keyA| && BCount(ops, k) <= |f.keyB|
    ensures KeepCount(ops, k) <= KeepCount(ops, |ops|)
      <= KeepCount(ops, k) + Lcs(f.keyA, f.keyB, ACount(ops, k), BCount(ops, k))
    decreases |ops| - k
  {
    if k < |ops| {
      assert Fits(ops[k], f) && InPlace(ops, k);
      hide Lcs, ACount, BCount, KeepCount, Positioned, Fits;
      KeepsBound(ops, f, k + 1);
      CountSteps(ops, k);
      KeepsBoundStep(ops[k], f, KeepCount(ops, |ops|) - KeepCount(ops, k + 1));
    }
  }

  lemma {:induction false} CountsAddUp(ops: seq<Op>, k: nat)
    requires k <= |ops|
    ensures ACount(ops, k) + BCount(ops, k) == k + KeepCount(ops, k)
  {
    if k > 0 {
      CountsAddUp(ops, k - 1);
    }
  }

  /** Insertions and deletions among the first `k` operations. */
  function Edits(ops: seq<Op>, k: nat): nat
    requires k <= |ops|
  {
    if k == 0 then 0 else Edits(ops, k - 1) + (if ops[k - 1].kind.Keep? then 0 else 1)
  }

  /** Every operation is kept, or it is an insertion or a deletion. */
  lemma {:induction false} KeptOrEdited(ops: seq<Op>, k: nat)
    requires k <= |ops|
    ensures Edits(ops, k) + KeepCount(ops, k) == k
  {
    if k > 0 {
      KeptOrEdited(ops, k - 1);
    }
  }

  /** A script that keeps as many lines as the table says has no better rival. */
  lemma Optimal(ops: seq<Op>, rival: seq<Op>, f: Sides)
    requires f.Valid() && IsScript(ops, f) && IsScript(rival, f)
    requires KeepCount(ops, |ops|) == Lcs(f.keyA, f.keyB, 0, 0)
    ensures Edits(ops, |ops|) <= Edits(rival, |rival|)
  {
    KeptOrEdited(ops, |ops|);
    KeptOrEdited(rival, |rival|);
    KeepsBound(rival, f, 0);
    CountsAddUp(ops, |ops|);
    CountsAddUp(rival, |rival|);
  }

  // ----- Building the script

  const TABLE_LIMIT := 4_000_000

  /** Too many cells for the table. */
  predicate Oversize(n: nat, m: nat) {
    n > 0 && m > TABLE_LIMIT / n
  }

  /** The table is refused exactly beyond four million cells. */
  lemma TableFits(n: nat, m: nat)
    ensures Oversize(n, m) <==> n * m > 4_000_000
  {
    if n > 0 {
      DivisionSplits(4_000_000, n);
      if m > 4_000_000 / n {
        TimesGrows(4_000_000 / n + 1, m, n);
      } else {
        TimesGrows(m, 4_000_000 / n, n);
      }
    }
  }

  lemma DivisionSplits(x: nat, n: nat)
    requires n > 0
    ensures x / n * n <= x < (x / n + 1) * n
  {
    assert x == x / n * n + x % n;
  }

  lemma TimesGrows(x: nat, y: nat, n: nat)
    requires x <= y
    ensures x * n <= y * n
  {
  }

  ghost predicate RowDone(dp: array2<nat>, a: seq<string>, b: seq<string>, p: nat, from: nat)
    requires dp.Length0 == |a| + 1 && dp.Length1 == |b| + 1 && p <= |a|
    reads dp
  {
    forall q :: from <= q <= |b| ==> dp[p, q] == Lcs(a, b, p, q)
  }

  method FillRow(dp: array2<nat>, a: seq<string>, b: seq<string>, i: nat)
    requires dp.Length0 == |a| + 1 && dp.Length1 == |b| + 1 && i < |a|
    requires RowDone(dp, a, b, i + 1, 0) && dp[i, |b|] == 0
    modifies dp
    ensures RowDone(dp, a, b, i, 0)
    ensures forall p, q :: 0 <= p <= |a| && 0 <= q <= |b| && p != i ==> dp[p, q] == old(dp[p, q])
  {
    var j := |b|;
    while j > 0
      invariant 0 <= j <= |b|
      invariant RowDone(dp, a, b, i, j) && RowDone(dp, a, b, i + 1, 0)
      invariant forall p, q :: 0 <= p <= |a| && 0 <= q <= |b| && p != i ==> dp[p, q] == old(dp[p, q])
    {
      j := j - 1;
      assert dp[i + 1, j] == Lcs(a, b, i + 1, j) && dp[i, j + 1] == Lcs(a, b, i, j + 1);
      assert dp[i + 1, j + 1] == Lcs(a, b, i + 1, j + 1);
      if a[i] == b[j] {
        dp[i, j] := dp[i + 1, j + 1] + 1;
      } else if dp[i + 1, j] >= dp[i, j + 1] {
        dp[i, j] := dp[i + 1, j];
      } else {
        dp[i, j] := dp[i, j + 1];
      }
      assert dp[i, j] == Lcs(a, b, i, j);
    }
  }

  /** Fills the table from the far corner back. */
  method FillTable(a: seq<string>, b: seq<string>) returns (dp: array2<nat>)
    ensures fresh(dp) && dp.Length0 == |a| + 1 && dp.Length1 == |b| + 1
    ensures forall p :: 0 <= p <= |a| ==> RowDone(dp, a, b, p, 0)
  {
    dp := new nat[|a| + 1, |b| + 1]((_, _) => 0);
    var i := |a|;
    while i > 0
      invariant 0 <= i <= |a|
      invariant forall p :: i <= p <= |a| ==> RowDone(dp, a, b, p, 0)
      invariant forall p :: 0 <= p < i ==> dp[p, |b|] == 0
    {
      i := i - 1;
      label before:
      FillRow(dp, a, b, i);
      forall p | i < p <= |a| ensures RowDone(dp, a, b, p, 0) {
        assert old@before(RowDone(dp, a, b, p, 0));
      }
    }
  }

  /** How far the walk has come: a script so far, with every kept line accounted for. Between a
      deletion and an insertion the deletion comes first. */
  ghost predicate Walked(ops: seq<Op>, f: Sides, i: nat, j: nat) {
    && f.Valid() && i <= |f.keyA| && j <= |f.keyB|
    && IsScriptTo(ops, f, i, j)
    && KeepCount(ops, |ops|) + Lcs(f.keyA, f.keyB, i, j) == Lcs(f.keyA, f.keyB, 0, 0)
    && DeletesFirst(ops)
    && (ops != [] && ops[|ops| - 1].kind.Insert? && i < |f.keyA| ==>
          j > 0 && Lcs(f.keyA, f.keyB, i + 1, j - 1) < Lcs(f.keyA, f.keyB, i, j))
  }

  /** No insertion is followed at once by a deletion. */
  ghost predicate DeletesFirst(ops: seq<Op>) {
    forall k :: 0 < k < |ops| && ops[k].kind.Delete? ==> !ops[k - 1].kind.Insert?
  }

  /** The next operation of the walk, read off the table. */
  function NextOp(f: Sides, i: nat, j: nat): Op
    requires f.Valid() && i <= |f.keyA| && j <= |f.keyB| && (i < |f.keyA| || j < |f.keyB|)
  {
    if i < |f.keyA| && j < |f.keyB| && f.keyA[i] == f.keyB[j] then Op(Keep, f.textA[i], f.textB[j], i, j)
    else if i < |f.keyA| && (j == |f.keyB| || Lcs(f.keyA, f.keyB, i + 1, j) >= Lcs(f.keyA, f.keyB, i, j + 1))
    then Op(Delete, f.textA[i], "", i, j)
    else Op(Insert, "", f.textB[j], i, j)
  }

  lemma NextOpKeeps(f: Sides, i: nat, j: nat)
    requires f.Valid() && i <= |f.keyA| && j <= |f.keyB| && (i < |f.keyA| || j < |f.keyB|)
    ensures var op := NextOp(f, i, j);
      Fits(op, f) && op.aPos == i && op.bPos == j
      && Lcs(f.keyA, f.keyB, i, j) == (if op.kind.Keep? then 1 else 0)
          + Lcs(f.keyA, f.keyB, if op.kind.Insert? then i else i + 1, if op.kind.Delete? then j else j + 1)
      && (op.kind.Insert? && i < |f.keyA| ==> Lcs(f.keyA, f.keyB, i + 1, j) < Lcs(f.keyA, f.keyB, i, j + 1))
  {
  }

  lemma DeleteAfterInsert(f: Sides, i: nat, j: nat)
    requires f.Valid() && i < |f.keyA| && 0 < j <= |f.keyB| && NextOp(f, i, j).kind.Delete?
    ensures Lcs(f.keyA, f.keyB, i, j) <= Lcs(f.keyA, f.keyB, i + 1, j - 1)
  {
    NextOpKeeps(f, i, j);
    LcsMonotone(f.keyA, f.keyB, i + 1, j - 1);
  }

  lemma WalkStep(ops: seq<Op>, f: Sides, i: nat, j: nat)
    requires Walked(ops, f, i, j) && (i < |f.keyA| || j < |f.keyB|)
    ensures var op := NextOp(f, i, j);
      Walked(ops + [op], f, if op.kind.Insert? then i else i + 1, if op.kind.Delete? then j else j + 1)
  {
    hide Lcs, IsScriptTo, NextOp, Fits, KeepCount;
    var op := NextOp(f, i, j);
    NextOpKeeps(f, i, j);
    ScriptGrows(ops, op, f, i, j);
    if op.kind.Delete? && 0 < j && i < |f.keyA| {
      DeleteAfterInsert(f, i, j);
    }
    assert DeletesFirst(ops + [op]);
  }

  /** The walk through the table, one operation at a time. */
  method WalkTable(f: Sides) returns (ops: seq<Op>)
    requires f.Valid()
    ensures Walked(ops, f, |f.keyA|, |f.keyB|)
  {
    var n, m := |f.keyA|, |f.keyB|;
    var dp := FillTable(f.keyA, f.keyB);
    ops := [];
    var i, j := 0, 0;
    while i < n || j < m
      invariant i <= n && j <= m && Walked(ops, f, i, j)
      invariant forall p :: 0 <= p <= n ==> RowDone(dp, f.keyA, f.keyB, p, 0)
      decreases n - i + m - j
    {
      hide Walked, Lcs;
      WalkStep(ops, f, i, j);
      assert RowDone(dp, f.keyA, f.keyB, i, 0) && (i < n ==> RowDone(dp, f.keyA, f.keyB, i + 1, 0));
      if i < n && j < m && f.keyA[i] == f.keyB[j] {
        ops := ops + [Op(Keep, f.textA[i], f.textB[j], i, j)];
        i, j := i + 1, j + 1;
      } else if i < n && (j == m || dp[i + 1, j] >= dp[i, j + 1]) {
        ops := ops + [Op(Delete, f.textA[i], "", i, j)];
        i := i + 1;
      } else {
        ops := ops + [Op(Insert, "", f.textB[j], i, j)];
        j := j + 1;
      }
    }
  }

  /** What the oversize case does: delete everything, then insert everything. */
  function ReplacementOp(textA: seq<string>, textB: seq<string>, k: nat): Op
    requires k < |textA| + |textB|
  {
    if k < |textA| then Op(Delete, textA[k], "", k, |textB|)
    else Op(Insert, "", textB[k - |textA|], |textA|, k - |textA|)
  }

  function Replacement(textA: seq<string>, textB: seq<string>, n: nat): (ops: seq<Op>)
    requires n <= |textA| + |textB|
    ensures |ops| == n && forall k :: 0 <= k < n ==> ops[k] == ReplacementOp(textA, textB, k)
  {
    if n == 0 then [] else Replacement(textA, textB, n - 1) + [ReplacementOp(textA, textB, n - 1)]
  }

  method ReplaceAll(textA: seq<string>, textB: seq<string>) returns (ops: seq<Op>)
    ensures ops == Replacement(textA, textB, |textA| + |textB|)
  {
    ops := [];
    for i := 0 to |textA|
      invariant ops == Replacement(textA, textB, i)
    {
      ops := ops + [Op(Delete, textA[i], "", i, |textB|)];
    }
    for j := 0 to |textB|
      invariant ops == Replacement(textA, textB, |textA| + j)
    {
      ops := ops + [Op(Insert, "", textB[j], |textA|, j)];
    }
  }

  lemma {:induction false} ReplacementSpells(textA: seq<string>, textB: seq<string>, ops: seq<Op>, k: nat)
    requires k <= |ops| == |textA| + |textB|
    requires forall i :: 0 <= i < |ops| ==> ops[i] == ReplacementOp(textA, textB, i)
    ensures OldLines(ops, 0, k) == textA[..if k <= |textA| then k else |textA|]
    ensures NewLines(ops, 0, k) == textB[..if k <= |textA| then 0 else k - |textA|]
  {
    if k > 0 {
      ReplacementSpells(textA, textB, ops, k - 1);
      TextStep(textA, if k <= |textA| then k - 1 else |textA|);
      TextStep(textB, if k <= |textA| then 0 else k - 1 - |textA|);
    }
  }

  /** The oversize case spells both files too, but its deletions carry the end of the second
      file as their position, so it is never a properly positioned script. */
  lemma ReplacementMisplaced(textA: seq<string>, textB: seq<string>)
    requires Oversize(|textA|, |textB|)
    ensures var ops := Replacement(textA, textB, |textA| + |textB|);
      OldLines(ops, 0, |ops|) == textA && NewLines(ops, 0, |ops|) == textB && !Positioned(ops)
  {
    var all := |textA| + |textB|;
    var ops := Replacement(textA, textB, all);
    ReplacementSpells(textA, textB, ops, all);
    assert textA[..|textA|] == textA && textB[..|textB|] == textB;
    assert ops[0].bPos == |textB| > 0 == BCount(ops, 0);
    assert !InPlace(ops, 0);
  }

  lemma {:induction false} ReplacementCounts(textA: seq<string>, textB: seq<string>, ops: seq<Op>, k: nat)
    requires k <= |ops| == |textA| + |textB|
    requires forall i :: 0 <= i < |ops| ==> ops[i] == ReplacementOp(textA, textB, i)
    ensures ACount(ops, k) == if k <= |textA| then k else |textA|
    ensures BCount(ops, k) == if k <= |textA| then 0 else k - |textA|
  {
    if k > 0 {
      ReplacementCounts(textA, textB, ops, k - 1);
    }
  }

  /** The line numbers of the first file are right in the oversize case too. */
  lemma ReplacementOld(textA: seq<string>, textB: seq<string>)
    ensures OldPlaced(Replacement(textA, textB, |textA| + |textB|))
  {
    var ops := Replacement(textA, textB, |textA| + |textB|);
    hide ACount, Replacement;
    forall k | 0 <= k < |ops| ensures ops[k].aPos == ACount(ops, k) {
      ReplacementCounts(textA, textB, ops, k);
    }
  }

  function Lines(n: nat): (lines: seq<string>)
    ensures |lines| == n
  {
    if n == 0 then [] else Lines(n - 1) + ["line"]
  }

  /** One line against one more than the limit of the table. */
  lemma LongFileMisplaced()
    ensures Oversize(|Lines(1)|, |Lines(4_000_001)|)
    ensures !Positioned(Replacement(Lines(1), Lines(4_000_001), |Lines(1)| + |Lines(4_000_001)|))
  {
    hide Positioned;
    ReplacementMisplaced(Lines(1), Lines(4_000_001));
  }

  function Normalise(norm: string -> string, lines: seq<string>): (keys: seq<string>)
    ensures |keys| == |lines|
  {
    MapSeq(norm, lines)
  }

  /** Lines of one file, in order, that stand for lines of the other, in order. */
  ghost predicate Matching<T>(a: seq<T>, b: seq<T>, i: seq<nat>, j: seq<nat>) {
    && |i| == |j| && (forall k :: 0 <= k < |i| ==> i[k] < |a| && j[k] < |b| && a[i[k]] == b[j[k]])
    && (forall k, l :: 0 <= k < l < |i| ==> i[k] < i[l] && j[k] < j[l])
  }

  /** No such pairing from two positions on is longer than the recurrence says. */
  lemma {:induction false} MatchingBound<T>(a: seq<T>, b: seq<T>, i: seq<nat>, j: seq<nat>, m: nat, n: nat)
    requires Matching(a, b, i, j) && m <= |a| && n <= |b| && (i != [] ==> m <= i[0] && n <= j[0])
    ensures |i| <= Lcs(a, b, m, n)
    decreases |a| - m, |b| - n
  {
    if i != [] {
      if a[m] == b[n] {
        MatchingTail(a, b, i, j);
        MatchingBound(a, b, i[1..], j[1..], m + 1, n + 1);
      } else if i[0] > m {
        MatchingBound(a, b, i, j, m + 1, n);
      } else {
        assert a[i[0]] == b[j[0]];
        MatchingBound(a, b, i, j, m, n + 1);
      }
    }
  }

  lemma MatchingTail<T>(a: seq<T>, b: seq<T>, i: seq<nat>, j: seq<nat>)
    requires Matching(a, b, i, j) && i != []
    ensures Matching(a, b, i[1..], j[1..])
    ensures |i| > 1 ==> i[0] < i[1..][0] && j[0] < j[1..][0]
  {
  }

  /** The kept lines of a script stand for one another, and no pairing is longer. */
  ghost predicate KeepsMost(ops: seq<Op>, a: seq<string>, b: seq<string>, norm: string -> string) {
    && (forall t :: 0 <= t < |ops| && ops[t].kind.Keep? ==>
        ops[t].aPos < |a| && ops[t].bPos < |b| && norm(a[ops[t].aPos]) == norm(b[ops[t].bPos]))
    && forall i: seq<nat>, j: seq<nat> :: MatchingLines(a, b, i, j, norm) ==> |i| <= KeepCount(ops, |ops|)
  }

  /** Strictly ascending numbers of lines that normalise alike. */
  ghost predicate MatchingLines(a: seq<string>, b: seq<string>, i: seq<nat>, j: seq<nat>, norm: string -> string) {
    && |i| == |j| && (forall k :: 0 <= k < |i| ==> i[k] < |a| && j[k] < |b| && norm(a[i[k]]) == norm(b[j[k]]))
    && (forall k, l :: 0 <= k < l < |i| ==> i[k] < i[l] && j[k] < j[l])
  }

  lemma BestKeepsMost(ops: seq<Op>, f: Sides, a: seq<string>, b: seq<string>, norm: string -> string)
    requires BestScript(ops, f) && f.keyA == Normalise(norm, a) && f.keyB == Normalise(norm, b)
    ensures KeepsMost(ops, a, b, norm)
  {
    hide ACount, BCount, KeepCount, Lcs, Positioned, DeletesFirst;
    forall t | 0 <= t < |ops| && ops[t].kind.Keep?
      ensures ops[t].aPos < |a| && ops[t].bPos < |b| && norm(a[ops[t].aPos]) == norm(b[ops[t].bPos])
    {
      assert Fits(ops[t], f);
    }
    forall i: seq<nat>, j: seq<nat> | MatchingLines(a, b, i, j, norm) ensures |i| <= KeepCount(ops, |ops|) {
      MatchingBound(f.keyA, f.keyB, i, j, 0, 0);
    }
  }

  /** The loop that normalises the lines of a file. */
  method NormaliseLines(norm: string -> string, lines: seq<string>) returns (keys: seq<string>)
    ensures keys == Normalise(norm, lines)
  {
    keys := [];
    for i := 0 to |lines|
      invariant |keys| == i && forall k :: 0 <= k < i ==> keys[k] == norm(lines[k])
    {
      keys := keys + [norm(lines[i])];
    }
  }

  /** A script with as many kept lines as any common subsequence has, deletions before insertions. */
  ghost predicate BestScript(ops: seq<Op>, f: Sides) {
    && f.Valid() && IsScript(ops, f) && DeletesFirst(ops)
    && KeepCount(ops, |ops|) == Lcs(f.keyA, f.keyB, 0, 0)
  }

  /** The whole alignment: the table walk, or the replacement when the table would be too big. */
  method Align(keyLinesA: seq<string>, keyLinesB: seq<string>, displayA: seq<string>, displayB: seq<string>,
      norm: string -> string)
    returns (ops: seq<Op>)
    requires |keyLinesA| == |displayA| && |keyLinesB| == |displayB|
    ensures OldLines(ops, 0, |ops|) == displayA && NewLines(ops, 0, |ops|) == displayB
    ensures !Oversize(|keyLinesA|, |keyLinesB|)
      ==> BestScript(ops, Sides(Normalise(norm, keyLinesA), Normalise(norm, keyLinesB), displayA, displayB))
    ensures |keyLinesA| * |keyLinesB| <= 4_000_000 ==> KeepsMost(ops, keyLinesA, keyLinesB, norm)
    ensures Oversize(|keyLinesA|, |keyLinesB|)
      ==> ops == Replacement(displayA, displayB, |displayA| + |displayB|)
  {
    var n, m := |keyLinesA|, |keyLinesB|;
    TableFits(n, m);
    if n > 0 && m > TABLE_LIMIT / n {
      ops := ReplaceAll(displayA, displayB);
      ReplacementMisplaced(displayA, displayB);
      return;
    }
    var keyA := NormaliseLines(norm, keyLinesA);
    var keyB := NormaliseLines(norm, keyLinesB);
    var f := Sides(keyA, keyB, displayA, displayB);
    ops := WalkTable(f);
    assert Lcs(f.keyA, f.keyB, n, m) == 0;
    hide Lcs;
    ScriptSpells(ops, f, n, m, |ops|);
    BestKeepsMost(ops, f, keyLinesA, keyLinesB, norm);
    assert displayA[..n] == displayA && displayB[..m] == displayB;
  }
}
