/** Grouping a script into changes, and changes into unified hunks. */
module DiffHunks {
  import opened DiffScript

  const CONTEXT := 3

  /** A maximal run of changed operations, with the lines it spans in each file. */
  datatype Change = Change(aStart: nat, aEnd: nat, bStart: nat, bEnd: nat, ops: seq<Op>)

  /** A hunk as printed: where it starts, how many lines of each file it shows, and its body. */
  datatype Hunk = Hunk(aFrom: nat, aLen: nat, bFrom: int, bLen: nat, ops: seq<Op>)

  /** A range of operation indices. */
  datatype Range = Range(lo: nat, hi: nat)

  // ----- Changes

  /** The first changed operation from index `k` on. */
  function NextChange(ops: seq<Op>, k: nat): (s: nat)
    requires k <= |ops|
    ensures k <= s <= |ops|
    ensures forall i :: k <= i < s ==> ops[i].kind.Keep?
    ensures s < |ops| ==> !ops[s].kind.Keep?
    decreases |ops| - k
  {
    if k == |ops| || !ops[k].kind.Keep? then k else NextChange(ops, k + 1)
  }

  /** The end of the run of changed operations around index `k`. */
  function RunEnd(ops: seq<Op>, k: nat): (e: nat)
    requires k <= |ops|
    ensures k <= e <= |ops|
    ensures k < |ops| && !ops[k].kind.Keep? ==> k < e
    ensures forall i :: k <= i < e ==> !ops[i].kind.Keep?
    ensures e < |ops| ==> ops[e].kind.Keep?
    decreases |ops| - k
  {
    if k == |ops| || ops[k].kind.Keep? then k else RunEnd(ops, k + 1)
  }

  /** The maximal runs of changed operations from index `k` on. */
  function Runs(ops: seq<Op>, k: nat): seq<Range>
    requires k <= |ops|
    decreases |ops| - k
  {
    var s := NextChange(ops, k);
    if s == |ops| then [] else [Range(s, RunEnd(ops, s))] + Runs(ops, RunEnd(ops, s))
  }

  function ToChange(ops: seq<Op>, r: Range): Change
    requires r.lo <= r.hi <= |ops|
  {
    Change(ACount(ops, r.lo), ACount(ops, r.hi), BCount(ops, r.lo), BCount(ops, r.hi), ops[r.lo..r.hi])
  }

  ghost predicate AreChanges(ops: seq<Op>, runs: seq<Range>, changes: seq<Change>) {
    |changes| == |runs| && forall c :: 0 <= c < |runs| ==>
      runs[c].lo <= runs[c].hi <= |ops| && changes[c] == ToChange(ops, runs[c])
  }

  lemma RunsSkip(ops: seq<Op>, k: nat)
    requires k < |ops|
    ensures if ops[k].kind.Keep? then Runs(ops, k) == Runs(ops, k + 1)
      else Runs(ops, k) == [Range(k, RunEnd(ops, k))] + Runs(ops, RunEnd(ops, k))
  {
  }

  /** The loop over the script, counting lines on both sides. */
  method GroupChanges(ops: seq<Op>) returns (changes: seq<Change>)
    ensures AreChanges(ops, Runs(ops, 0), changes)
  {
    hide Runs, ACount, BCount, RunEnd;
    changes := [];
    var aPos, bPos, i := 0, 0, 0;
    NoneCounted(ops);
    ghost var runs := [];
    assert runs + Runs(ops, 0) == Runs(ops, 0);
    while i < |ops|
      invariant i <= |ops| && aPos == ACount(ops, i) && bPos == BCount(ops, i)
      invariant AreChanges(ops, runs, changes)
      invariant runs + Runs(ops, i) == Runs(ops, 0)
    {
      RunsSkip(ops, i);
      if ops[i].kind.Keep? {
        CountSteps(ops, i);
        aPos, bPos, i := aPos + 1, bPos + 1, i + 1;
      } else {
        var start, aStart, bStart := i, aPos, bPos;
        i, aPos, bPos := EndOfRun(ops, i, aPos, bPos);
        Associate(runs, [Range(start, i)], Runs(ops, i));
        changes := changes + [Change(aStart, aPos, bStart, bPos, ops[start..i])];
        runs := runs + [Range(start, i)];
      }
    }
    NoRuns(ops);
    assert runs + [] == runs;
  }

  lemma Associate<T>(a: seq<T>, b: seq<T>, c: seq<T>)
    ensures a + (b + c) == (a + b) + c
  {
  }

  lemma NoneCounted(ops: seq<Op>)
    ensures ACount(ops, 0) == 0 && BCount(ops, 0) == 0
  {
  }

  lemma NoRuns(ops: seq<Op>)
    ensures Runs(ops, |ops|) == []
  {
  }

  method EndOfRun(ops: seq<Op>, start: nat, aStart: nat, bStart: nat) returns (i: nat, aPos: nat, bPos: nat)
    requires start < |ops| && aStart == ACount(ops, start) && bStart == BCount(ops, start)
    ensures i == RunEnd(ops, start) && aPos == ACount(ops, i) && bPos == BCount(ops, i)
  {
    i, aPos, bPos := start, aStart, bStart;
    while i < |ops| && !ops[i].kind.Keep?
      invariant start <= i <= |ops| && aPos == ACount(ops, i) && bPos == BCount(ops, i)
      invariant RunEnd(ops, i) == RunEnd(ops, start)
      decreases |ops| - i
    {
      if ops[i].kind.Delete? {
        aPos := aPos + 1;
      } else {
        bPos := bPos + 1;
      }
      i := i + 1;
    }
  }

  // ----- Hunks

  /** The end of the last run that belongs in one hunk with the run at `s`. */
  function MergeEnd(ops: seq<Op>, s: nat): (e: nat)
    requires s < |ops| && !ops[s].kind.Keep?
    ensures s < e <= |ops|
    ensures NextChange(ops, e) == |ops| || NextChange(ops, e) - e > 2 * CONTEXT
    decreases |ops| - s
  {
    var e := RunEnd(ops, s);
    var s' := NextChange(ops, e);
    if s' < |ops| && s' - e <= 2 * CONTEXT then MergeEnd(ops, s') else e
  }

  function HunkRange(ops: seq<Op>, s: nat): Range
    requires s < |ops| && !ops[s].kind.Keep?
  {
    var e := MergeEnd(ops, s);
    Range(if s < CONTEXT then 0 else s - CONTEXT, if e + CONTEXT < |ops| then e + CONTEXT else |ops|)
  }

  /** The hunks from index `k` on, as ranges of operations. */
  function Ranges(ops: seq<Op>, k: nat): seq<Range>
    requires k <= |ops|
    decreases |ops| - k
  {
    var s := NextChange(ops, k);
    if s == |ops| then [] else [HunkRange(ops, s)] + Ranges(ops, MergeEnd(ops, s))
  }

  /** The hunk of a range of operations; its start in the second file is what its first operation carries. */
  function ToHunk(ops: seq<Op>, r: Range): Hunk
    requires r.lo <= r.hi <= |ops|
  {
    CountsGrow(ops, r.lo, r.hi);
    Hunk(ACount(ops, r.lo), ACount(ops, r.hi) - ACount(ops, r.lo),
         if r.lo < r.hi then ops[r.lo].bPos else -1, BCount(ops, r.hi) - BCount(ops, r.lo), ops[r.lo..r.hi])
  }

  lemma {:induction false} CountsGrow(ops: seq<Op>, lo: nat, hi: nat)
    requires lo <= hi <= |ops|
    ensures ACount(ops, lo) <= ACount(ops, hi) <= ACount(ops, lo) + (hi - lo)
    ensures BCount(ops, lo) <= BCount(ops, hi) <= BCount(ops, lo) + (hi - lo)
    decreases hi - lo
  {
    if lo < hi {
      CountsGrow(ops, lo, hi - 1);
    }
  }

  lemma {:induction false} CountsOfKept(ops: seq<Op>, lo: nat, hi: nat)
    requires lo <= hi <= |ops| && forall i :: lo <= i < hi ==> ops[i].kind.Keep?
    ensures ACount(ops, hi) == ACount(ops, lo) + (hi - lo)
    ensures BCount(ops, hi) == BCount(ops, lo) + (hi - lo)
    decreases hi - lo
  {
    if lo < hi {
      CountsOfKept(ops, lo, hi - 1);
    }
  }

  /** A hunk may start at `k`: it is the start of the script, or the next change is out of reach. */
  ghost predicate Settled(ops: seq<Op>, k: nat) {
    k == 0 || (k <= |ops| && (NextChange(ops, k) == |ops| || NextChange(ops, k) - k > 2 * CONTEXT))
  }

  /** Some operation among `n` from `t` on is a change. */
  ghost predicate ChangeWithin(ops: seq<Op>, t: nat, n: nat) {
    exists u :: t <= u < t + n && u < |ops| && !ops[u].kind.Keep?
  }

  /** The changes of a hunk lie at most six kept lines apart, and the next change lies further away. */
  lemma {:induction false} MergedTight(ops: seq<Op>, s: nat)
    requires s < |ops| && !ops[s].kind.Keep?
    ensures var e := MergeEnd(ops, s);
      && s < e <= |ops| && !ops[e - 1].kind.Keep? && !ChangeWithin(ops, e, 7)
      && forall t :: s <= t && t + 7 <= e ==> ChangeWithin(ops, t, 7)
    decreases |ops| - s
  {
    var e, m := MergeEnd(ops, s), RunEnd(ops, s);
    var s' := NextChange(ops, m);
    if s' < |ops| && s' - m <= 6 {
      MergedTight(ops, s');
    }
    forall t | s <= t && t + 7 <= e ensures ChangeWithin(ops, t, 7) {
      assert t < m ==> !ops[t].kind.Keep?;
      assert m <= t < s' && s' < |ops| ==> t <= s' < t + 7 && !ops[s'].kind.Keep?;
    }
  }

  /**
   * A hunk around its changes, from number `first` to before number `last`: three kept lines on each side, or as many
   * as there are. No change lies among them.
   */
  lemma HunkSpan(ops: seq<Op>, k: nat)
    requires k <= |ops| && Settled(ops, k) && NextChange(ops, k) < |ops|
    ensures var first := NextChange(ops, k);
      var last, r := MergeEnd(ops, first), HunkRange(ops, first);
      && r.lo == (if first < 3 then 0 else first - 3) && r.hi == (if last + 3 < |ops| then last + 3 else |ops|)
      && !ops[first].kind.Keep? && !ops[last - 1].kind.Keep?
      && (forall t :: r.lo <= t < first ==> ops[t].kind.Keep?) && (forall t :: last <= t < r.hi ==> ops[t].kind.Keep?)
      && (forall t :: first <= t && t + 7 <= last ==> ChangeWithin(ops, t, 7)) && !ChangeWithin(ops, last, 7)
  {
    MergedTight(ops, NextChange(ops, k));
    var last := MergeEnd(ops, NextChange(ops, k));
    forall t | last <= t < last + 3 && t < |ops| ensures ops[t].kind.Keep? {
      assert !(last <= t < last + 7 && t < |ops| && !ops[t].kind.Keep?);
    }
  }

  /** The test that the printing loop applies to each operation. */
  predicate Included(op: Op, aFrom: nat, aTo: nat) {
    if op.kind.Insert? then aFrom <= op.aPos <= aTo else aFrom <= op.aPos < aTo
  }

  /** Line numbers for a hunk around operations `lo` to `hi`. */
  ghost predicate Edges(ops: seq<Op>, lo: nat, hi: nat, aFrom: nat, aTo: nat)
  {
    && lo < hi <= |ops|
    && aFrom == ACount(ops, lo) && (lo > 0 ==> ops[lo - 1].kind.Keep?)
    && ACount(ops, hi) <= aTo && (hi < |ops| || ACount(ops, hi) == aTo ==> ops[hi - 1].kind.Keep?)
    && (forall t :: hi <= t < |ops| ==> ACount(ops, t) >= aTo && (ops[t].kind.Insert? ==> ACount(ops, t) > aTo))
  }

  lemma EdgesSelect(ops: seq<Op>, lo: nat, hi: nat, aFrom: nat, aTo: nat, t: nat)
    requires OldPlaced(ops) && Edges(ops, lo, hi, aFrom, aTo) && t < |ops|
    ensures Included(ops[t], aFrom, aTo) <==> lo <= t < hi
  {
    hide ACount, BCount;
    assert ops[t].aPos == ACount(ops, t);
    if t < lo {
      CountsGrow(ops, t, lo - 1);
      CountSteps(ops, lo - 1);
    } else {
      CountsGrow(ops, lo, t);
      if t < hi {
        CountsGrow(ops, t, hi - 1);
        CountSteps(ops, hi - 1);
      }
    }
  }

  /** The line numbers of a hunk select three lines of context and the changes, one block. */
  lemma HunkEdges(ops: seq<Op>, k: nat)
    requires k <= |ops| && Settled(ops, k) && NextChange(ops, k) < |ops|
    ensures var s := NextChange(ops, k);
      var e, r := MergeEnd(ops, s), HunkRange(ops, s);
      var aFrom := if ACount(ops, s) < CONTEXT then 0 else ACount(ops, s) - CONTEXT;
      Edges(ops, r.lo, r.hi, aFrom, ACount(ops, e) + CONTEXT)
  {
    var s := NextChange(ops, k);
    LowEdge(ops, k);
    EdgesFrom(ops, HunkRange(ops, s).lo, MergeEnd(ops, s), HunkRange(ops, s).hi);
  }

  lemma EdgesFrom(ops: seq<Op>, lo: nat, e: nat, hi: nat)
    requires lo < e <= |ops| && (lo > 0 ==> ops[lo - 1].kind.Keep?)
    requires NextChange(ops, e) == |ops| || NextChange(ops, e) - e > 2 * CONTEXT
    requires hi == if e + CONTEXT < |ops| then e + CONTEXT else |ops|
    ensures Edges(ops, lo, hi, ACount(ops, lo), ACount(ops, e) + CONTEXT)
  {
    hide ACount;
    HighEdge(ops, e, hi);
    AllBeyond(ops, e, hi);
  }

  lemma AllBeyond(ops: seq<Op>, e: nat, hi: nat)
    requires e <= |ops| && (NextChange(ops, e) == |ops| || NextChange(ops, e) - e > 2 * CONTEXT)
    requires hi == if e + CONTEXT < |ops| then e + CONTEXT else |ops|
    ensures forall t :: hi <= t < |ops| ==>
      ACount(ops, t) >= ACount(ops, e) + CONTEXT && (ops[t].kind.Insert? ==> ACount(ops, t) > ACount(ops, e) + CONTEXT)
  {
    hide ACount;
    forall t | hi <= t < |ops|
      ensures ACount(ops, t) >= ACount(ops, e) + CONTEXT
      ensures ops[t].kind.Insert? ==> ACount(ops, t) > ACount(ops, e) + CONTEXT
    {
      BeyondHigh(ops, e, t);
    }
  }

  lemma LowEdge(ops: seq<Op>, k: nat)
    requires k <= |ops| && Settled(ops, k) && NextChange(ops, k) < |ops|
    ensures var s := NextChange(ops, k);
      var lo := HunkRange(ops, s).lo;
      ACount(ops, lo) == (if ACount(ops, s) < CONTEXT then 0 else ACount(ops, s) - CONTEXT)
      && (lo > 0 ==> ops[lo - 1].kind.Keep?) && lo <= s
  {
    var s := NextChange(ops, k);
    var lo := HunkRange(ops, s).lo;
    CountsOfKept(ops, if k == 0 then 0 else lo, s);
    CountsOfKept(ops, if k == 0 then 0 else lo, lo);
  }

  lemma HighEdge(ops: seq<Op>, e: nat, hi: nat)
    requires e <= |ops| && (NextChange(ops, e) == |ops| || NextChange(ops, e) - e > 2 * CONTEXT)
    requires hi == if e + CONTEXT < |ops| then e + CONTEXT else |ops|
    ensures ACount(ops, hi) == ACount(ops, e) + (hi - e)
    ensures hi == e + CONTEXT ==> ops[hi - 1].kind.Keep?
  {
    CountsOfKept(ops, e, hi);
  }

  lemma BeyondHigh(ops: seq<Op>, e: nat, t: nat)
    requires e + CONTEXT <= t < |ops|
    requires NextChange(ops, e) == |ops| || NextChange(ops, e) - e > 2 * CONTEXT
    ensures ACount(ops, t) >= ACount(ops, e) + CONTEXT
    ensures ops[t].kind.Insert? ==> ACount(ops, t) > ACount(ops, e) + CONTEXT
  {
    CountsOfKept(ops, e, e + CONTEXT);
    CountsGrow(ops, e + CONTEXT, t);
    if ops[t].kind.Insert? {
      assert t >= NextChange(ops, e);
      CountsOfKept(ops, e, e + CONTEXT + 1);
      CountsGrow(ops, e + CONTEXT + 1, t);
    }
  }

  /** What the body loop has collected of operations `lo` to `hi` after `t` operations. */
  ghost predicate Collected(ops: seq<Op>, lo: nat, hi: nat, t: nat, h: Hunk) {
    && lo < hi <= |ops| && h.aFrom == ACount(ops, lo)
    && var k := if t <= lo then lo else if t < hi then t else hi;
      && h.ops == ops[lo..k] && h.aLen == ACount(ops, k) - ACount(ops, lo)
      && h.bLen == BCount(ops, k) - BCount(ops, lo) && h.bFrom == if t <= lo then -1 else ops[lo].bPos
  }

  lemma CollectedStep(ops: seq<Op>, lo: nat, hi: nat, t: nat, h: Hunk)
    requires t < |ops| && Collected(ops, lo, hi, t, h)
    ensures Collected(ops, lo, hi, t + 1, if lo <= t < hi then Grown(h, ops[t]) else h)
  {
    hide ACount, BCount;
    CountSteps(ops, t);
  }

  /** A hunk with one more operation. */
  function Grown(h: Hunk, op: Op): Hunk {
    Hunk(h.aFrom, h.aLen + if op.kind.Insert? then 0 else 1, if h.bFrom < 0 then op.bPos else h.bFrom,
         h.bLen + if op.kind.Delete? then 0 else 1, h.ops + [op])
  }

  lemma CollectedAll(ops: seq<Op>, lo: nat, hi: nat, h: Hunk)
    requires Collected(ops, lo, hi, |ops|, h)
    ensures h == ToHunk(ops, Range(lo, hi))
  {
  }

  lemma NoneCollected(ops: seq<Op>, lo: nat, hi: nat)
    requires lo < hi <= |ops|
    ensures Collected(ops, lo, hi, 0, Hunk(ACount(ops, lo), 0, -1, 0, []))
  {
  }

  /** One operation joins the body: the first gives the start in the second file, each is counted. */
  method Take(hunk: Hunk, op: Op) returns (more: Hunk)
    ensures more == Grown(hunk, op)
  {
    var aLen, bFrom, bLen := hunk.aLen, hunk.bFrom, hunk.bLen;
    if bFrom < 0 {
      bFrom := op.bPos;
    }
    if !op.kind.Insert? {
      aLen := aLen + 1;
    }
    if !op.kind.Delete? {
      bLen := bLen + 1;
    }
    more := Hunk(hunk.aFrom, aLen, bFrom, bLen, hunk.ops + [op]);
  }

  /** The body loop: operations that the line numbers select, with their line counts. */
  method SelectOps(ops: seq<Op>, aFrom: nat, aTo: nat, ghost lo: nat, ghost hi: nat) returns (hunk: Hunk)
    requires OldPlaced(ops) && Edges(ops, lo, hi, aFrom, aTo)
    ensures hunk == ToHunk(ops, Range(lo, hi))
  {
    hide ACount, BCount, Edges, OldPlaced, Collected, ToHunk, Grown;
    hunk := Hunk(aFrom, 0, -1, 0, []);
    EdgesRange(ops, lo, hi, aFrom, aTo);
    NoneCollected(ops, lo, hi);
    for t := 0 to |ops|
      invariant Collected(ops, lo, hi, t, hunk)
    {
      EdgesSelect(ops, lo, hi, aFrom, aTo, t);
      CollectedStep(ops, lo, hi, t, hunk);
      var op := ops[t];
      var included := aFrom <= op.aPos < aTo;
      if op.kind.Insert? {
        included := aFrom <= op.aPos <= aTo;
      }
      if included {
        hunk := Take(hunk, ops[t]);
      }
    }
    CollectedAll(ops, lo, hi, hunk);
  }

  lemma EdgesRange(ops: seq<Op>, lo: nat, hi: nat, aFrom: nat, aTo: nat)
    requires Edges(ops, lo, hi, aFrom, aTo)
    ensures lo < hi <= |ops| && aFrom == ACount(ops, lo)
  {
  }

  // ----- The printing loop

  ghost predicate AreHunks(ops: seq<Op>, ranges: seq<Range>, hunks: seq<Hunk>) {
    |hunks| == |ranges| && forall c :: 0 <= c < |ranges| ==>
      ranges[c].lo <= ranges[c].hi <= |ops| && hunks[c] == ToHunk(ops, ranges[c])
  }

  /** The runs from number `i` on are those after operation `k`. */
  ghost predicate RunsLeft(ops: seq<Op>, i: nat, k: nat) {
    i <= |Runs(ops, 0)| && k <= |ops| && Runs(ops, 0)[i..] == Runs(ops, k)
  }

  lemma RunsLeftStep(ops: seq<Op>, changes: seq<Change>, i: nat, k: nat)
    requires AreChanges(ops, Runs(ops, 0), changes) && RunsLeft(ops, i, k)
    ensures i <= |changes| && k <= |ops| && (i == |changes| <==> NextChange(ops, k) == |ops|)
    ensures i < |changes| ==> var s := NextChange(ops, k);
      && RunsLeft(ops, i + 1, RunEnd(ops, s))
      && changes[i].aStart == ACount(ops, s) && changes[i].aEnd == ACount(ops, RunEnd(ops, s))
  {
    hide ACount, BCount, RunEnd, NextChange;
    var s, left := NextChange(ops, k), Runs(ops, 0)[i..];
    assert i == |changes| <==> |left| == 0;
    if i < |changes| {
      assert left[0] == Runs(ops, 0)[i] == Range(s, RunEnd(ops, s));
      assert left[1..] == Runs(ops, 0)[i + 1..];
    }
  }

  lemma NearRuns(ops: seq<Op>, e: nat)
    requires e <= |ops| && NextChange(ops, e) < |ops|
    ensures ACount(ops, NextChange(ops, e)) - ACount(ops, e) == NextChange(ops, e) - e
  {
    CountsOfKept(ops, e, NextChange(ops, e));
  }

  lemma MergeEndSteps(ops: seq<Op>, s: nat)
    requires s < |ops| && !ops[s].kind.Keep?
    ensures var e := RunEnd(ops, s);
      var s' := NextChange(ops, e);
      MergeEnd(ops, s) == if s' < |ops| && s' - e <= 2 * CONTEXT then MergeEnd(ops, s') else e
  {
  }

  /** Change `j` is the run at operation `s`; the hunk around it ends at operation `end`. */
  ghost predicate Merging(ops: seq<Op>, j: nat, aTo: int, s: nat, end: nat) {
    && s < |ops| && !ops[s].kind.Keep? && MergeEnd(ops, s) == end
    && RunsLeft(ops, j + 1, RunEnd(ops, s)) && aTo == ACount(ops, RunEnd(ops, s))
  }

  predicate Near(changes: seq<Change>, j: nat, aTo: int) {
    j + 1 < |changes| && changes[j + 1].aStart - aTo <= 2 * CONTEXT
  }

  lemma MergingStep(ops: seq<Op>, changes: seq<Change>, j: nat, aTo: int, s: nat, end: nat)
    requires AreChanges(ops, Runs(ops, 0), changes) && Merging(ops, j, aTo, s, end)
    ensures s < |ops|
    ensures if Near(changes, j, aTo) then Merging(ops, j + 1, changes[j + 1].aEnd, NextAfter(ops, s), end)
      else RunEnd(ops, s) == end
  {
    hide ACount, RunEnd, RunsLeft, Runs, MergeEnd, AreChanges;
    var e := RunEnd(ops, s);
    RunsLeftStep(ops, changes, j + 1, e);
    MergeEndSteps(ops, s);
    if NextChange(ops, e) < |ops| {
      NearRuns(ops, e);
    }
  }

  lemma MergingStart(ops: seq<Op>, changes: seq<Change>, i: nat, k: nat)
    requires AreChanges(ops, Runs(ops, 0), changes) && RunsLeft(ops, i, k) && i < |changes|
    ensures NextChange(ops, k) < |ops|
    ensures Merging(ops, i, changes[i].aEnd, NextChange(ops, k), MergeEnd(ops, NextChange(ops, k)))
  {
    hide ACount, RunEnd, RunsLeft, Runs, MergeEnd;
    RunsLeftStep(ops, changes, i, k);
  }

  /** The inner loop: the last change of the hunk that change `i` starts. */
  method MergeChanges(ops: seq<Op>, changes: seq<Change>, i: nat, ghost k: nat) returns (j: nat, aTo: nat)
    requires AreChanges(ops, Runs(ops, 0), changes) && RunsLeft(ops, i, k) && i < |changes|
    ensures i <= j < |changes| && NextChange(ops, k) < |ops|
    ensures aTo == ACount(ops, MergeEnd(ops, NextChange(ops, k)))
    ensures RunsLeft(ops, j + 1, MergeEnd(ops, NextChange(ops, k)))
  {
    hide ACount, MergeEnd, RunEnd, NextChange, RunsLeft, Merging, AreChanges, Runs;
    MergingStart(ops, changes, i, k);
    ghost var s, end := NextChange(ops, k), MergeEnd(ops, NextChange(ops, k));
    j, aTo := i, changes[i].aEnd;
    while Near(changes, j, aTo)
      invariant i <= j < |changes| && Merging(ops, j, aTo, s, end)
      decreases |changes| - j
    {
      MergingStep(ops, changes, j, aTo, s, end);
      j := j + 1;
      aTo := changes[j].aEnd;
      s := NextAfter(ops, s);
    }
    MergingStep(ops, changes, j, aTo, s, end);
    MergingEnds(ops, j, aTo, s, end);
  }

  lemma MergingEnds(ops: seq<Op>, j: nat, aTo: int, s: nat, end: nat)
    requires Merging(ops, j, aTo, s, end)
    ensures s < |ops|
    ensures RunEnd(ops, s) == end ==> end <= |ops| && aTo == ACount(ops, end) && RunsLeft(ops, j + 1, end)
  {
  }

  ghost function NextAfter(ops: seq<Op>, s: nat): nat
    requires s < |ops|
  {
    NextChange(ops, RunEnd(ops, s))
  }

  lemma RangesStep(ops: seq<Op>, k: nat)
    requires k <= |ops|
    ensures var s := NextChange(ops, k);
      Ranges(ops, k) == if s == |ops| then [] else [HunkRange(ops, s)] + Ranges(ops, MergeEnd(ops, s))
  {
  }

  /** `hunks` are those of the first `i` changes; what is left of the script starts at `k`. */
  ghost predicate Printing(ops: seq<Op>, changes: seq<Change>, i: nat, k: nat, hunks: seq<Hunk>, ranges: seq<Range>) {
    && RunsLeft(ops, i, k) && Settled(ops, k)
    && ranges + Ranges(ops, k) == Ranges(ops, 0) && AreHunks(ops, ranges, hunks)
  }

  lemma HunkShows(ops: seq<Op>, changes: seq<Change>, i: nat, k: nat, hunks: seq<Hunk>, ranges: seq<Range>)
    requires AreChanges(ops, Runs(ops, 0), changes) && Printing(ops, changes, i, k, hunks, ranges) && i < |changes|
    ensures RunsLeft(ops, i, k) && NextChange(ops, k) < |ops|
    ensures var aFrom := if changes[i].aStart < CONTEXT then 0 else changes[i].aStart - CONTEXT;
      var range := HunkRange(ops, NextChange(ops, k));
      Edges(ops, range.lo, range.hi, aFrom, ACount(ops, MergeEnd(ops, NextChange(ops, k))) + CONTEXT)
  {
    hide ACount, BCount, MergeEnd, RunEnd, NextChange, HunkRange, Edges, RunsLeft, AreChanges, AreHunks, Runs, Ranges;
    RunsLeftStep(ops, changes, i, k);
    HunkEdges(ops, k);
  }

  lemma PrintingStep(ops: seq<Op>, changes: seq<Change>, i: nat, k: nat, hunks: seq<Hunk>, ranges: seq<Range>, j: nat,
      hunk: Hunk)
    requires Printing(ops, changes, i, k, hunks, ranges) && NextChange(ops, k) < |ops|
    requires var s := NextChange(ops, k);
      RunsLeft(ops, j + 1, MergeEnd(ops, s)) && hunk == ToHunk(ops, HunkRange(ops, s))
    ensures var s := NextChange(ops, k);
      Printing(ops, changes, j + 1, MergeEnd(ops, s), hunks + [hunk], ranges + [HunkRange(ops, s)])
  {
    hide ACount, BCount, RunEnd, NextChange, RunsLeft, Ranges;
    RangesStep(ops, k);
    var s := NextChange(ops, k);
    Associate(ranges, [HunkRange(ops, s)], Ranges(ops, MergeEnd(ops, s)));
  }

  lemma PrintingEnds(ops: seq<Op>, changes: seq<Change>, i: nat, k: nat, hunks: seq<Hunk>, ranges: seq<Range>)
    requires AreChanges(ops, Runs(ops, 0), changes) && Printing(ops, changes, i, k, hunks, ranges) && i == |changes|
    ensures AreHunks(ops, Ranges(ops, 0), hunks)
  {
    RunsLeftStep(ops, changes, i, k);
    RangesStep(ops, k);
    assert ranges + [] == ranges;
  }

  /** All hunks of a script. */
  method UnifiedHunks(ops: seq<Op>) returns (hunks: seq<Hunk>)
    requires OldPlaced(ops)
    ensures AreHunks(ops, Ranges(ops, 0), hunks)
  {
    hide Printing, RunsLeft, AreChanges, AreHunks, Runs, Ranges, NextChange, MergeEnd, HunkRange, Edges, ACount;
    hide BCount, OldPlaced, ToHunk;
    var changes := GroupChanges(ops);
    hunks := [];
    var i: nat := 0;
    ghost var k: nat, ranges: seq<Range> := 0, [];
    StartOfRuns(ops, changes);
    while i < |changes|
      invariant i <= |changes| && Printing(ops, changes, i, k, hunks, ranges)
      decreases |changes| - i
    {
      HunkShows(ops, changes, i, k, hunks, ranges);
      var aFrom: int := changes[i].aStart - CONTEXT;
      var j, aTo := MergeChanges(ops, changes, i, k);
      aTo := aTo + CONTEXT;
      if aFrom < 0 {
        aFrom := 0;
      }
      ghost var range := HunkRange(ops, NextChange(ops, k));
      var hunk := SelectOps(ops, aFrom, aTo, range.lo, range.hi);
      PrintingStep(ops, changes, i, k, hunks, ranges, j, hunk);
      hunks := hunks + [hunk];
      i, k, ranges := j + 1, MergeEnd(ops, NextChange(ops, k)), ranges + [range];
    }
    PrintingEnds(ops, changes, i, k, hunks, ranges);
  }

  lemma StartOfRuns(ops: seq<Op>, changes: seq<Change>)
    ensures Printing(ops, changes, 0, 0, [], [])
  {
    assert Runs(ops, 0)[0..] == Runs(ops, 0);
    assert [] + Ranges(ops, 0) == Ranges(ops, 0);
  }
}
