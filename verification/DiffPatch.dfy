/** Applying hunks to the first file. */
module DiffPatch {
  import opened DiffScript
  import opened DiffHunks
  import opened Outcomes

  // ----- What a hunk prints

  /** The lines that the body of a hunk leaves: a kept line is printed as the first file has it. */
  function PatchLines(ops: seq<Op>, lo: nat, hi: nat): seq<string>
    requires lo <= hi <= |ops|
    decreases hi - lo
  {
    if hi == lo then []
    else PatchLines(ops, lo, hi - 1) + match ops[hi - 1].kind
      case Keep => [ops[hi - 1].aLine]
      case Delete => []
      case Insert => [ops[hi - 1].bLine]
  }

  /**
   * What a hunk means to a reader of the diff: from line `pos` of the first file on, copy up to the
   * hunk, check its numbers and its old lines, and put its new lines in their place.
   */
  function Apply(a: seq<string>, pos: nat, written: nat, hunks: seq<Hunk>): Option<seq<string>>
    decreases |hunks|
  {
    if pos > |a| then None
    else if hunks == [] then Some(a[pos..])
    else if !Matches(a, pos, written, hunks[0]) then None
    else match Apply(a, hunks[0].aFrom + hunks[0].aLen, written + (hunks[0].aFrom - pos) + hunks[0].bLen, hunks[1..])
      case None => None
      case Some(rest) => Some(a[pos..hunks[0].aFrom] + PatchLines(hunks[0].ops, 0, |hunks[0].ops|) + rest)
  }

  predicate Matches(a: seq<string>, pos: nat, written: nat, h: Hunk) {
    && pos <= h.aFrom && h.aFrom + h.aLen <= |a|
    && a[h.aFrom..h.aFrom + h.aLen] == OldLines(h.ops, 0, |h.ops|)
    && h.bFrom == written + (h.aFrom - pos)
    && h.bLen == |PatchLines(h.ops, 0, |h.ops|)|
  }

  // ----- Lines of a range

  lemma {:induction false} OldLinesSplit(ops: seq<Op>, lo: nat, mid: nat, hi: nat)
    requires lo <= mid <= hi <= |ops|
    ensures OldLines(ops, lo, hi) == OldLines(ops, lo, mid) + OldLines(ops, mid, hi)
    decreases hi - mid
  {
    if mid < hi {
      OldLinesSplit(ops, lo, mid, hi - 1);
    }
  }

  lemma {:induction false} PatchLinesSplit(ops: seq<Op>, lo: nat, mid: nat, hi: nat)
    requires lo <= mid <= hi <= |ops|
    ensures PatchLines(ops, lo, hi) == PatchLines(ops, lo, mid) + PatchLines(ops, mid, hi)
    decreases hi - mid
  {
    if mid < hi {
      PatchLinesSplit(ops, lo, mid, hi - 1);
    }
  }

  lemma {:induction false} LinesOfBlock(ops: seq<Op>, lo: nat, hi: nat, k: nat)
    requires lo + k <= hi <= |ops|
    ensures OldLines(ops[lo..hi], 0, k) == OldLines(ops, lo, lo + k)
    ensures PatchLines(ops[lo..hi], 0, k) == PatchLines(ops, lo, lo + k)
    decreases k
  {
    if k > 0 {
      LinesOfBlock(ops, lo, hi, k - 1);
      assert ops[lo..hi][k - 1] == ops[lo + k - 1];
    }
  }

  lemma {:induction false} LineCounts(ops: seq<Op>, lo: nat, hi: nat)
    requires lo <= hi <= |ops|
    ensures |OldLines(ops, lo, hi)| == ACount(ops, hi) - ACount(ops, lo)
    ensures |PatchLines(ops, lo, hi)| == BCount(ops, hi) - BCount(ops, lo)
    decreases hi - lo
  {
    if lo < hi {
      LineCounts(ops, lo, hi - 1);
    }
  }

  lemma {:induction false} KeptLines(ops: seq<Op>, lo: nat, hi: nat)
    requires lo <= hi <= |ops| && forall t :: lo <= t < hi ==> ops[t].kind.Keep?
    ensures PatchLines(ops, lo, hi) == OldLines(ops, lo, hi)
    decreases hi - lo
  {
    if lo < hi {
      KeptLines(ops, lo, hi - 1);
    }
  }

  /** Operations `lo` to `hi` take exactly the lines of the first file between their counts. */
  lemma OldText(ops: seq<Op>, f: Sides, lo: nat, hi: nat)
    requires f.Valid() && IsScript(ops, f) && lo <= hi <= |ops|
    ensures ACount(ops, lo) <= ACount(ops, hi) <= |f.textA|
    ensures f.textA[ACount(ops, lo)..ACount(ops, hi)] == OldLines(ops, lo, hi)
  {
    hide OldLines, ACount, BCount;
    CountsGrow(ops, lo, hi);
    ScriptSpells(ops, f, |f.keyA|, |f.keyB|, lo);
    ScriptSpells(ops, f, |f.keyA|, |f.keyB|, hi);
    OldLinesSplit(ops, 0, lo, hi);
    Between(f.textA, ACount(ops, lo), ACount(ops, hi), OldLines(ops, lo, hi));
  }

  lemma Between<T>(s: seq<T>, i: nat, j: nat, t: seq<T>)
    requires i <= j <= |s| && s[..j] == s[..i] + t
    ensures s[i..j] == t
  {
    assert s[..j][i..] == s[i..j];
  }

  // ----- Hunks in order

  ghost predicate Inside(ops: seq<Op>, ranges: seq<Range>) {
    forall c :: 0 <= c < |ranges| ==> ranges[c].lo <= ranges[c].hi <= |ops|
  }

  /** Ranges in the script, in order and apart; after operation `k`, beyond its context. */
  ghost predicate Apart(ops: seq<Op>, k: nat, ranges: seq<Range>) {
    && (forall c :: 0 <= c < |ranges| ==> ranges[c].lo < ranges[c].hi <= |ops|)
    && (k > 0 ==> forall c :: 0 <= c < |ranges| ==> ranges[c].lo > k + CONTEXT)
    && (forall c, d :: 0 <= c < d < |ranges| ==> ranges[c].hi < ranges[d].lo)
  }

  lemma ApartCons(ops: seq<Op>, k: nat, e: nat, r: Range, ranges: seq<Range>)
    requires 0 < k ==> k + CONTEXT < r.lo
    requires r.lo < r.hi <= |ops| && k < e && r.hi <= e + CONTEXT && Apart(ops, e, ranges)
    ensures Apart(ops, k, [r] + ranges)
  {
    var all := [r] + ranges;
    forall c, d | 0 <= c < d < |all| ensures all[c].hi < all[d].lo {
      assert all[d] == ranges[d - 1];
    }
  }

  /** No two hunks touch. */
  lemma {:induction false} RangesApart(ops: seq<Op>, k: nat)
    requires Settled(ops, k) && k <= |ops|
    ensures Apart(ops, k, Ranges(ops, k))
    decreases |ops| - k
  {
    RangesStep(ops, k);
    var s := NextChange(ops, k);
    if s < |ops| {
      RangesApart(ops, MergeEnd(ops, s));
      RangeBounds(ops, k);
      hide Ranges, Apart, NextChange, MergeEnd, HunkRange;
      ApartCons(ops, k, MergeEnd(ops, s), HunkRange(ops, s), Ranges(ops, MergeEnd(ops, s)));
    }
  }

  lemma RangeBounds(ops: seq<Op>, k: nat)
    requires Settled(ops, k) && k <= |ops| && NextChange(ops, k) < |ops|
    ensures var e, r := MergeEnd(ops, NextChange(ops, k)), HunkRange(ops, NextChange(ops, k));
      k < e <= |ops| && Settled(ops, e) && r.lo < r.hi <= |ops| && r.hi <= e + CONTEXT
      && (0 < k ==> k + CONTEXT < r.lo)
  {
  }

  ghost predicate Holds(r: Range, t: nat) {
    r.lo <= t < r.hi
  }

  /** A changed operation at or after `k` is in exactly one hunk. */
  lemma {:induction false} ChangeInHunk(ops: seq<Op>, k: nat, t: nat) returns (c: nat)
    requires Settled(ops, k) && k <= t < |ops| && !ops[t].kind.Keep?
    ensures c < |Ranges(ops, k)| && Holds(Ranges(ops, k)[c], t)
    ensures forall d :: 0 <= d < |Ranges(ops, k)| && d != c ==> !Holds(Ranges(ops, k)[d], t)
    decreases |ops| - k
  {
    hide Ranges, NextChange, MergeEnd, HunkRange, Holds, Settled;
    RangesStep(ops, k);
    FirstHolds(ops, k, t);
    var s := NextChange(ops, k);
    if t < MergeEnd(ops, s) {
      c := 0;
    } else {
      c := ChangeInHunk(ops, MergeEnd(ops, s), t);
      c := c + 1;
    }
    OnlyOne(ops, k, t, c);
  }

  lemma FirstHolds(ops: seq<Op>, k: nat, t: nat)
    requires k <= t < |ops| && !ops[t].kind.Keep?
    ensures NextChange(ops, k) < |ops|
    ensures t < MergeEnd(ops, NextChange(ops, k)) ==> Holds(HunkRange(ops, NextChange(ops, k)), t)
    ensures Settled(ops, MergeEnd(ops, NextChange(ops, k)))
    ensures k < MergeEnd(ops, NextChange(ops, k)) <= |ops|
  {
  }

  lemma OnlyOne(ops: seq<Op>, k: nat, t: nat, c: nat)
    requires Settled(ops, k) && k <= |ops| && c < |Ranges(ops, k)| && Holds(Ranges(ops, k)[c], t)
    ensures forall d :: 0 <= d < |Ranges(ops, k)| && d != c ==> !Holds(Ranges(ops, k)[d], t)
  {
    RangesApart(ops, k);
    hide Ranges, Settled;
  }

  // ----- Applying

  function Hunks(ops: seq<Op>, ranges: seq<Range>): (hunks: seq<Hunk>)
    requires Inside(ops, ranges)
    ensures AreHunks(ops, ranges, hunks)
  {
    if ranges == [] then [] else [ToHunk(ops, ranges[0])] + Hunks(ops, ranges[1..])
  }

  lemma {:induction false} HunksAre(ops: seq<Op>, ranges: seq<Range>, hunks: seq<Hunk>)
    requires AreHunks(ops, ranges, hunks)
    ensures hunks == Hunks(ops, ranges)
  {
    if ranges != [] {
      HunksAre(ops, ranges[1..], hunks[1..]);
    }
  }

  lemma PlacedAt(ops: seq<Op>, f: Sides, t: nat)
    requires f.Valid() && IsScript(ops, f) && t < |ops|
    ensures ops[t].bPos == BCount(ops, t)
  {
    assert InPlace(ops, t);
  }

  /** One hunk matches where the file stands after `p` operations. */
  lemma HunkMatches(ops: seq<Op>, f: Sides, p: nat, r: Range)
    requires f.Valid() && IsScript(ops, f) && p <= r.lo < r.hi <= |ops|
    requires forall t :: p <= t < r.lo ==> ops[t].kind.Keep?
    ensures Matches(f.textA, ACount(ops, p), BCount(ops, p), ToHunk(ops, r))
    ensures ACount(ops, p) <= ACount(ops, r.lo) <= |f.textA|
    ensures BCount(ops, r.lo) - BCount(ops, p) == ACount(ops, r.lo) - ACount(ops, p)
    ensures f.textA[ACount(ops, p)..ACount(ops, r.lo)] == PatchLines(ops, p, r.lo)
    ensures PatchLines(ToHunk(ops, r).ops, 0, |ToHunk(ops, r).ops|) == PatchLines(ops, r.lo, r.hi)
  {
    hide ACount, BCount, OldLines, PatchLines, IsScript;
    PlacedAt(ops, f, r.lo);
    CountsGrow(ops, p, r.lo);
    CountsGrow(ops, r.lo, r.hi);
    CountsOfKept(ops, p, r.lo);
    LinesOfBlock(ops, r.lo, r.hi, r.hi - r.lo);
    LineCounts(ops, r.lo, r.hi);
    OldText(ops, f, p, r.lo);
    OldText(ops, f, r.lo, r.hi);
    KeptLines(ops, p, r.lo);
  }

  /** The file stands after `p` operations, before the first hunk after operation `k`. */
  ghost predicate Stands(ops: seq<Op>, k: nat, p: nat) {
    && k <= p <= |ops| && Settled(ops, k) && Inside(ops, Ranges(ops, k))
    && (if NextChange(ops, k) < |ops| then p <= HunkRange(ops, NextChange(ops, k)).lo else p <= NextChange(ops, k))
  }

  /** From the position after `p` operations on, applying the rest of the hunks gives the rest of the script. */
  lemma {:induction false} ApplyRest(ops: seq<Op>, f: Sides, k: nat, p: nat)
    requires f.Valid() && IsScript(ops, f) && Stands(ops, k, p)
    ensures Apply(f.textA, ACount(ops, p), BCount(ops, p), Hunks(ops, Ranges(ops, k)))
      == Some(PatchLines(ops, p, |ops|))
    decreases |ops| - k
  {
    RangesStep(ops, k);
    StandsNext(ops, k, p);
    hide ACount, BCount, OldLines, PatchLines, IsScript, NextChange, HunkRange, MergeEnd, Settled, Ranges, Inside;
    hide Apply;
    var s := NextChange(ops, k);
    if s == |ops| {
      ApplyNone(ops, f, p);
    } else {
      var r, e := HunkRange(ops, s), MergeEnd(ops, s);
      ApplyRest(ops, f, e, r.hi);
      HunkMatches(ops, f, p, r);
      ApplyOne(ops, f, p, r, Ranges(ops, e));
    }
  }

  lemma StandsNext(ops: seq<Op>, k: nat, p: nat)
    requires Stands(ops, k, p)
    ensures NextChange(ops, k) == |ops| ==> forall t :: p <= t < |ops| ==> ops[t].kind.Keep?
    ensures NextChange(ops, k) < |ops| ==> k < MergeEnd(ops, NextChange(ops, k))
    ensures NextChange(ops, k) < |ops|
      ==> StandsBefore(ops, MergeEnd(ops, NextChange(ops, k)), p, HunkRange(ops, NextChange(ops, k)))
  {
    hide Ranges, MergeEnd, Inside;
    var s := NextChange(ops, k);
    if s < |ops| {
      RangesStep(ops, k);
      NextInside(ops, k);
      RestInside(ops, HunkRange(ops, s), Ranges(ops, MergeEnd(ops, s)));
      HunkBounds(ops, k);
    }
  }

  lemma NextInside(ops: seq<Op>, k: nat)
    requires k <= |ops| && NextChange(ops, k) < |ops|
    ensures k < MergeEnd(ops, NextChange(ops, k)) <= |ops| && Settled(ops, MergeEnd(ops, NextChange(ops, k)))
  {
  }

  /** A hunk ends before the next one begins, or with the script. */
  lemma HunkBounds(ops: seq<Op>, k: nat)
    requires k <= |ops| && Settled(ops, k) && NextChange(ops, k) < |ops|
    ensures var s := NextChange(ops, k);
      var r, e := HunkRange(ops, s), MergeEnd(ops, s);
      r.lo < r.hi && r.lo <= s && e <= r.hi
      && (if NextChange(ops, e) < |ops| then r.hi <= HunkRange(ops, NextChange(ops, e)).lo else r.hi <= |ops|)
  {
    var e := MergeEnd(ops, NextChange(ops, k));
    if NextChange(ops, e) < |ops| {
      NextLow(ops, e);
    }
  }

  ghost predicate StandsBefore(ops: seq<Op>, e: nat, p: nat, r: Range) {
    && p <= r.lo < r.hi <= |ops| && e <= |ops| && Stands(ops, e, r.hi) && Inside(ops, Ranges(ops, e))
    && (forall t :: p <= t < r.lo ==> ops[t].kind.Keep?)
  }

  lemma RestInside(ops: seq<Op>, r: Range, ranges: seq<Range>)
    requires Inside(ops, [r] + ranges)
    ensures r.lo <= r.hi <= |ops| && Inside(ops, ranges)
  {
    assert ([r] + ranges)[0] == r;
    forall c | 0 <= c < |ranges| ensures ranges[c].lo <= ranges[c].hi <= |ops| {
      assert ranges[c] == ([r] + ranges)[c + 1];
    }
  }

  lemma NextLow(ops: seq<Op>, e: nat)
    requires 0 < e <= |ops| && Settled(ops, e) && NextChange(ops, e) < |ops|
    ensures HunkRange(ops, NextChange(ops, e)).lo >= e + CONTEXT
  {
  }

  lemma ApplyNone(ops: seq<Op>, f: Sides, p: nat)
    requires f.Valid() && IsScript(ops, f) && p <= |ops| && forall t :: p <= t < |ops| ==> ops[t].kind.Keep?
    ensures Apply(f.textA, ACount(ops, p), BCount(ops, p), []) == Some(PatchLines(ops, p, |ops|))
  {
    hide OldLines, PatchLines, BCount;
    OldText(ops, f, p, |ops|);
    KeptLines(ops, p, |ops|);
    assert f.textA[ACount(ops, p)..|f.textA|] == f.textA[ACount(ops, p)..];
  }

  lemma ApplyOne(ops: seq<Op>, f: Sides, p: nat, r: Range, ranges: seq<Range>)
    requires f.Valid() && p <= r.lo <= r.hi <= |ops|
    requires Inside(ops, ranges) && BCount(ops, r.lo) - BCount(ops, p) == ACount(ops, r.lo) - ACount(ops, p)
    requires Matches(f.textA, ACount(ops, p), BCount(ops, p), ToHunk(ops, r))
    requires ACount(ops, p) <= ACount(ops, r.lo) <= |f.textA|
    requires f.textA[ACount(ops, p)..ACount(ops, r.lo)] == PatchLines(ops, p, r.lo)
    requires PatchLines(ToHunk(ops, r).ops, 0, |ToHunk(ops, r).ops|) == PatchLines(ops, r.lo, r.hi)
    requires Apply(f.textA, ACount(ops, r.hi), BCount(ops, r.hi), Hunks(ops, ranges))
      == Some(PatchLines(ops, r.hi, |ops|))
    ensures Apply(f.textA, ACount(ops, p), BCount(ops, p), Hunks(ops, [r] + ranges)) == Some(PatchLines(ops, p, |ops|))
  {
    hide ACount, BCount, OldLines, PatchLines;
    assert ([r] + ranges)[1..] == ranges;
    var hunks := Hunks(ops, [r] + ranges);
    assert hunks[0] == ToHunk(ops, r) && hunks[1..] == Hunks(ops, ranges);
    PatchLinesSplit(ops, p, r.lo, r.hi);
    PatchLinesSplit(ops, p, r.hi, |ops|);
  }

  /** Printed bodies spell the second file exactly when every kept line reads the same in both. */
  lemma {:induction false} PatchedIsNew(ops: seq<Op>, k: nat)
    requires k <= |ops|
    ensures |PatchLines(ops, 0, k)| == |NewLines(ops, 0, k)|
    ensures PatchLines(ops, 0, k) == NewLines(ops, 0, k)
      <==> forall t :: 0 <= t < k && ops[t].kind.Keep? ==> ops[t].aLine == ops[t].bLine
    decreases k
  {
    if k > 0 {
      PatchedIsNew(ops, k - 1);
      var old', new' := PatchLines(ops, 0, k - 1), NewLines(ops, 0, k - 1);
      var x, y := PatchLines(ops, 0, k)[|old'|..], NewLines(ops, 0, k)[|new'|..];
      assert PatchLines(ops, 0, k) == old' + x && NewLines(ops, 0, k) == new' + y;
      SplitEqual(old', x, new', y);
    }
  }

  lemma SplitEqual<T>(a: seq<T>, b: seq<T>, c: seq<T>, d: seq<T>)
    requires |a| == |c|
    ensures a + b == c + d <==> a == c && b == d
  {
    assert (a + b)[..|a|] == a && (a + b)[|a|..] == b;
    assert (c + d)[..|c|] == c && (c + d)[|c|..] == d;
  }

  /**
   * The printed hunks turn the first file into the second exactly when lines that compare equal
   * also read the same, as they do without options that fold case or blanks.
   */
  lemma HunksRebuild(ops: seq<Op>, f: Sides, hunks: seq<Hunk>)
    requires f.Valid() && IsScript(ops, f) && AreHunks(ops, Ranges(ops, 0), hunks)
    ensures Apply(f.textA, 0, 0, hunks) == Some(PatchLines(ops, 0, |ops|))
    ensures Apply(f.textA, 0, 0, hunks) == Some(f.textB)
      <==> forall t :: 0 <= t < |ops| && ops[t].kind.Keep? ==> ops[t].aLine == ops[t].bLine
  {
    hide Ranges, ACount, BCount, OldLines, NewLines, PatchLines, Apply, AreHunks, Positioned, Fits;
    FirstHunk(ops);
    HunksAre(ops, Ranges(ops, 0), hunks);
    NoneCounted(ops);
    ApplyRest(ops, f, 0, 0);
    ScriptSpells(ops, f, |f.keyA|, |f.keyB|, |ops|);
    PatchedIsNew(ops, |ops|);
    assert f.textB[..|f.textB|] == f.textB;
  }

  lemma FirstHunk(ops: seq<Op>)
    ensures Stands(ops, 0, 0)
  {
    RangesApart(ops, 0);
    hide Ranges;
  }

  /** With folding, a line that only compares equal keeps its old reading: "A" is left where the second file has "a". */
  lemma FoldingLoses(hunks: seq<Hunk>)
    requires var ops := [Op(Keep, "A", "a", 0, 0)]; AreHunks(ops, Ranges(ops, 0), hunks)
    ensures var f := Sides(["A"], ["A"], ["A"], ["a"]); f.Valid() && IsScript([Op(Keep, "A", "a", 0, 0)], f)
    ensures hunks == [] && Apply(["A"], 0, 0, hunks) == Some(["A"]) != Some(["a"])
  {
    var ops := [Op(Keep, "A", "a", 0, 0)];
    assert NextChange(ops, 0) == NextChange(ops, 1) == 1;
    assert OldLines(ops, 0, 0) == [] && NewLines(ops, 0, 0) == [];
    assert ["A"][0..] == ["A"] && ["A"][0] != ["a"][0];
  }

  // ----- Files too large for the table

  /** The oversize script is one hunk; it states the end of the second file as its start there. */
  lemma ReplacementHunk(a: seq<string>, b: seq<string>, ops: seq<Op>, hunks: seq<Hunk>)
    requires Oversize(|a|, |b|) && ops == Replacement(a, b, |a| + |b|) && AreHunks(ops, Ranges(ops, 0), hunks)
    ensures hunks == [Hunk(0, |a|, |b|, |b|, ops)]
  {
    hide Replacement, ReplacementOp, Ranges, ToHunk, Oversize, AreHunks;
    LargeFiles(a, b);
    NoneKept(a, b, ops);
    OneRange(ops);
    WholeHunk(a, b, ops);
    OneHunk(ops, hunks);
  }

  lemma OneHunk(ops: seq<Op>, hunks: seq<Hunk>)
    requires AreHunks(ops, [Range(0, |ops|)], hunks)
    ensures hunks == [ToHunk(ops, Range(0, |ops|))]
  {
    hide ToHunk;
  }

  lemma NoneKept(a: seq<string>, b: seq<string>, ops: seq<Op>)
    requires |ops| == |a| + |b| && forall k :: 0 <= k < |ops| ==> ops[k] == ReplacementOp(a, b, k)
    ensures forall k :: 0 <= k < |ops| ==> !ops[k].kind.Keep?
  {
  }

  lemma LargeFiles(a: seq<string>, b: seq<string>)
    requires Oversize(|a|, |b|)
    ensures a != [] && b != []
  {
  }

  lemma WholeHunk(a: seq<string>, b: seq<string>, ops: seq<Op>)
    requires a != [] && |ops| == |a| + |b| && forall k :: 0 <= k < |ops| ==> ops[k] == ReplacementOp(a, b, k)
    ensures ToHunk(ops, Range(0, |ops|)) == Hunk(0, |a|, |b|, |b|, ops)
  {
    hide ACount, BCount;
    ReplacementCounts(a, b, ops, 0);
    ReplacementCounts(a, b, ops, |ops|);
    assert ops[0..|ops|] == ops;
  }

  lemma OneRange(ops: seq<Op>)
    requires ops != [] && forall t :: 0 <= t < |ops| ==> !ops[t].kind.Keep?
    ensures Ranges(ops, 0) == [Range(0, |ops|)]
  {
    assert NextChange(ops, 0) == 0;
    assert RunEnd(ops, 0) == |ops| && NextChange(ops, |ops|) == |ops|;
    assert MergeEnd(ops, 0) == |ops|;
    assert Ranges(ops, |ops|) == [];
  }

  /** Such a hunk does not fit its place, so the patch is refused. */
  lemma ReplacementRefused(a: seq<string>, b: seq<string>, ops: seq<Op>, hunks: seq<Hunk>)
    requires Oversize(|a|, |b|) && ops == Replacement(a, b, |a| + |b|) && AreHunks(ops, Ranges(ops, 0), hunks)
    ensures Apply(a, 0, 0, hunks).None?
  {
    hide Replacement, OldLines, PatchLines, AreHunks, Ranges, Oversize;
    LargeFiles(a, b);
    ReplacementHunk(a, b, ops, hunks);
    assert !Matches(a, 0, 0, hunks[0]);
  }

  /**
   * Where lines that compare equal read the same, a diff that is printed and applied gives the second file, unless
   * the files are too large for the table: then the patch is refused.
   */
  method DiffAndPatch(a: seq<string>, b: seq<string>, norm: string -> string) returns (hunks: seq<Hunk>)
    requires forall i, j :: 0 <= i < |a| && 0 <= j < |b| && norm(a[i]) == norm(b[j]) ==> a[i] == b[j]
    ensures Apply(a, 0, 0, hunks) == if Oversize(|a|, |b|) then None else Some(b)
  {
    hide Lcs, OldLines, NewLines, Ranges, AreHunks, Apply, Replacement, OldPlaced, Positioned, Fits, KeepCount;
    var ops := Align(a, b, a, b, norm);
    ghost var f := Sides(Normalise(norm, a), Normalise(norm, b), a, b);
    if Oversize(|a|, |b|) {
      ReplacementOld(a, b);
    } else {
      PositionedOld(ops);
    }
    hunks := UnifiedHunks(ops);
    if Oversize(|a|, |b|) {
      ReplacementRefused(a, b, ops, hunks);
    } else {
      HunksRebuild(ops, f, hunks);
      KeptSame(ops, f, norm);
    }
  }

  lemma KeptSame(ops: seq<Op>, f: Sides, norm: string -> string)
    requires f.Valid() && IsScript(ops, f) && f.keyA == Normalise(norm, f.textA) && f.keyB == Normalise(norm, f.textB)
    requires forall i, j ::
      0 <= i < |f.textA| && 0 <= j < |f.textB| && norm(f.textA[i]) == norm(f.textB[j]) ==> f.textA[i] == f.textB[j]
    ensures forall t :: 0 <= t < |ops| && ops[t].kind.Keep? ==> ops[t].aLine == ops[t].bLine
  {
    hide ACount, BCount, Positioned;
    forall t | 0 <= t < |ops| && ops[t].kind.Keep? ensures ops[t].aLine == ops[t].bLine {
      assert Fits(ops[t], f);
    }
  }
}
