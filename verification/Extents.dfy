/** Ranges of sectors: sorting them, checking neighbours, and the gaps between them. */
module Extents {
  import opened Outcomes
  import Sorting

  const UINT64 := 0x1_0000_0000_0000_0000

  type uint64 = x: int | 0 <= x < UINT64

  /** Sectors from `start` up to, but not including, `end`. */
  datatype Extent = Extent(start: nat, end: nat)

  function Size(x: Extent): int {
    x.end - x.start
  }

  predicate Apart(x: Extent, y: Extent) {
    x.end <= y.start || y.end <= x.start
  }

  /** No two of these share a sector. */
  ghost predicate AllApart(s: seq<Extent>) {
    forall i, j {:trigger Apart(s[i], s[j])} :: 0 <= i < j < |s| ==> Apart(s[i], s[j])
  }

  ghost predicate ApartFrom(x: Extent, s: seq<Extent>) {
    forall k {:trigger Apart(x, s[k])} :: 0 <= k < |s| ==> Apart(x, s[k])
  }

  ghost predicate Ordered(s: seq<Extent>) {
    forall i, j :: 0 <= i < j < |s| ==> s[i].start <= s[j].start
  }

  /** Each range starts at or after the end of the one before: what the validators compare. */
  predicate Chained(s: seq<Extent>) {
    forall i :: 0 < i < |s| ==> s[i - 1].end <= s[i].start
  }

  /** Non-empty ranges between `first` and `limit`. */
  ghost predicate Between(s: seq<Extent>, first: nat, limit: nat) {
    forall k :: 0 <= k < |s| ==> first <= s[k].start < s[k].end <= limit
  }

  // ----- Sorting

  predicate BeginsFirst(x: Extent, y: Extent) {
    x.start <= y.start
  }

  /** In start order; any ordered permutation would do. */
  function SortByStart(s: seq<Extent>): (t: seq<Extent>)
    ensures Ordered(t) && multiset(t) == multiset(s)
  {
    assert Sorting.TotalPreorder(BeginsFirst);
    Sorting.SortCorrect(s, BeginsFirst);
    var t := Sorting.Sort(s, BeginsFirst);
    assert forall i, j :: 0 <= i < j < |t| ==> BeginsFirst(t[i], t[j]);
    t
  }

  lemma ApartFromPermuted(x: Extent, s: seq<Extent>, t: seq<Extent>)
    requires multiset(s) == multiset(t) && ApartFrom(x, s)
    ensures ApartFrom(x, t)
  {
    Sorting.SameMembers(s, t);
    forall k | 0 <= k < |t| ensures Apart(x, t[k]) {
      assert t[k] in s;
    }
  }

  function Without(t: seq<Extent>, k: nat): seq<Extent>
    requires k < |t|
  {
    t[..k] + t[k + 1..]
  }

  lemma ApartReinsert(t: seq<Extent>, k: nat)
    requires k < |t| && ApartFrom(t[k], Without(t, k)) && AllApart(Without(t, k))
    ensures AllApart(t)
  {
    var rest := Without(t, k);
    forall i, j | 0 <= i < j < |t| ensures Apart(t[i], t[j]) {
      var i', j' := if i < k then i else i - 1, if j < k then j else j - 1;
      if i == k {
        assert rest[j'] == t[j];
      } else if j == k {
        assert rest[i'] == t[i] && Apart(t[k], rest[i']);
      } else {
        assert rest[i'] == t[i] && rest[j'] == t[j] && Apart(rest[i'], rest[j']);
      }
    }
  }

  /** Being apart does not depend on the order. */
  lemma {:induction false} ApartPermuted(s: seq<Extent>, t: seq<Extent>)
    requires multiset(s) == multiset(t) && AllApart(s)
    ensures AllApart(t)
    decreases |s|
  {
    if s == [] {
      Sorting.SameMembers(s, t);
    } else {
      var rest := s[1..];
      var k := Sorting.MatchFirst(s, t);
      assert s[..0] + s[1..] == rest;
      ApartTail(s);
      hide AllApart, ApartFrom;
      ApartPermuted(rest, Without(t, k));
      ApartFromPermuted(s[0], rest, Without(t, k));
      ApartReinsert(t, k);
    }
  }

  lemma ApartTail(s: seq<Extent>)
    requires s != [] && AllApart(s)
    ensures AllApart(s[1..]) && ApartFrom(s[0], s[1..])
  {
    var rest := s[1..];
    forall i, j | 0 <= i < j < |rest| ensures Apart(rest[i], rest[j]) {
      assert Apart(s[i + 1], s[j + 1]);
    }
    forall i | 0 <= i < |rest| ensures Apart(s[0], rest[i]) {
      assert Apart(s[0], s[i + 1]);
    }
  }

  lemma {:induction false} ChainedReaches(t: seq<Extent>, i: nat, j: nat, first: nat, limit: nat)
    requires Chained(t) && Between(t, first, limit) && i < j < |t|
    ensures t[i].end <= t[j].start
    decreases j
  {
    if i < j - 1 {
      ChainedReaches(t, i, j - 1, first, limit);
    }
  }

  /** Comparing neighbours in any ordered permutation decides whether any two ranges overlap. */
  lemma NeighboursDecide(s: seq<Extent>, t: seq<Extent>, first: nat, limit: nat)
    requires multiset(s) == multiset(t) && Ordered(t) && Between(s, first, limit)
    ensures Between(t, first, limit) && (Chained(t) <==> AllApart(s))
  {
    assert Between(t, first, limit) by {
      Sorting.SameMembers(s, t);
      assert forall k :: 0 <= k < |t| ==> t[k] in s;
    }
    if Chained(t) {
      forall i, j | 0 <= i < j < |t| ensures Apart(t[i], t[j]) {
        ChainedReaches(t, i, j, first, limit);
      }
      ApartPermuted(t, s);
    }
    if AllApart(s) {
      ApartPermuted(s, t);
      forall i | 0 < i < |t| ensures t[i - 1].end <= t[i].start {
        assert Apart(t[i - 1], t[i]);
      }
    }
  }

  /** The neighbour loop of the validators. */
  method CheckApart(s: seq<Extent>, ghost first: nat, ghost limit: nat) returns (ok: bool)
    requires Between(s, first, limit)
    ensures ok <==> AllApart(s)
  {
    var t := SortByStart(s);
    NeighboursDecide(s, t, first, limit);
    var i := 1;
    while i < |t|
      invariant 1 <= i && forall k :: 0 < k < i && k < |t| ==> t[k - 1].end <= t[k].start
    {
      if t[i].start < t[i - 1].end {
        return false;
      }
      i := i + 1;
    }
    return true;
  }

  // ----- Gaps

  function Gap(cursor: nat, end: nat): seq<Extent> {
    if cursor < end then [Extent(cursor, end)] else []
  }

  /** What ordered ranges from number `k` on leave free between `cursor` and `limit`. */
  function Gaps(used: seq<Extent>, k: nat, cursor: nat, limit: nat): seq<Extent>
    decreases |used| - k
  {
    if k >= |used| then Gap(cursor, limit)
    else Gap(cursor, used[k].start) + Gaps(used, k + 1, used[k].end, limit)
  }

  /** How many of the ranges from number `k` on hold a sector. */
  function Covering(s: seq<Extent>, k: nat, x: nat): nat
    decreases |s| - k
  {
    if k >= |s| then 0 else (if s[k].start <= x < s[k].end then 1 else 0) + Covering(s, k + 1, x)
  }

  lemma {:induction false} CoveringAppend(s: seq<Extent>, t: seq<Extent>, k: nat, x: nat)
    requires k <= |s|
    ensures Covering(s + t, k, x) == Covering(s, k, x) + Covering(t, 0, x)
    decreases |s| - k
  {
    if k < |s| {
      CoveringAppend(s, t, k + 1, x);
    } else {
      CoveringShift(s, t, 0, x);
    }
  }

  lemma {:induction false} CoveringShift(s: seq<Extent>, t: seq<Extent>, k: nat, x: nat)
    ensures Covering(s + t, |s| + k, x) == Covering(t, k, x)
    decreases |t| - k
  {
    if k < |t| {
      CoveringShift(s, t, k + 1, x);
    }
  }

  lemma CoveringAt(t: seq<Extent>, k: nat, x: nat)
    requires k < |t|
    ensures Covering(t, 0, x) == (if t[k].start <= x < t[k].end then 1 else 0) + Covering(Without(t, k), 0, x)
  {
    assert t == t[..k] + t[k..] && t[k..] == [t[k]] + t[k + 1..];
    CoveringAppend(t[..k], t[k..], 0, x);
    CoveringAppend(t[..k], t[k + 1..], 0, x);
    CoveringAppend([t[k]], t[k + 1..], 0, x);
    assert Covering([t[k]], 1, x) == 0;
  }

  lemma {:induction false} CoveringPermuted(s: seq<Extent>, t: seq<Extent>, x: nat)
    requires multiset(s) == multiset(t)
    ensures Covering(s, 0, x) == Covering(t, 0, x)
    decreases |s|
  {
    if s == [] {
      Sorting.SameMembers(s, t);
    } else {
      var k := Sorting.MatchFirst(s, t);
      CoveringAt(s, 0, x);
      CoveringAt(t, k, x);
      CoveringPermuted(Without(s, 0), Without(t, k), x);
    }
  }

  lemma GapCovers(cursor: nat, end: nat, x: nat)
    ensures Covering(Gap(cursor, end), 0, x) == if cursor <= x < end then 1 else 0
  {
    var g := Gap(cursor, end);
    assert Covering(g, 1, x) == 0;
  }

  /** Every sector from the cursor to the limit is used once or free once, and no other is free. */
  lemma {:induction false} Tiles(used: seq<Extent>, k: nat, cursor: nat, limit: nat, x: nat)
    requires Chained(used) && Between(used, 0, limit) && k <= |used| && cursor <= limit
    requires k < |used| ==> cursor <= used[k].start
    ensures Covering(used, k, x) + Covering(Gaps(used, k, cursor, limit), 0, x) == if cursor <= x < limit then 1 else 0
    decreases |used| - k
  {
    hide Gap;
    if k == |used| {
      GapCovers(cursor, limit, x);
    } else {
      Tiles(used, k + 1, used[k].end, limit, x);
      GapCovers(cursor, used[k].start, x);
      CoveringAppend(Gap(cursor, used[k].start), Gaps(used, k + 1, used[k].end, limit), 0, x);
    }
  }

  /** `gaps` and `used` together cover each sector from `first` to `limit` exactly once. */
  ghost predicate Tiling(used: seq<Extent>, gaps: seq<Extent>, first: nat, limit: nat) {
    forall x: nat :: Covering(used, 0, x) + Covering(gaps, 0, x) == if first <= x < limit then 1 else 0
  }

  lemma {:induction false} GapsBetween(used: seq<Extent>, k: nat, cursor: nat, limit: nat, first: nat)
    requires Between(used, first, limit) && first <= cursor
    ensures Between(Gaps(used, k, cursor, limit), first, limit)
    decreases |used| - k
  {
    if k < |used| {
      GapsBetween(used, k + 1, used[k].end, limit, first);
    }
  }

  /** Ranges in a chain have no other order by start. */
  lemma {:induction false} ChainedUnique(s: seq<Extent>, t: seq<Extent>, first: nat, limit: nat)
    requires Chained(s) && Between(s, first, limit) && Ordered(t) && multiset(s) == multiset(t)
    ensures s == t
    decreases |s|
  {
    if s == [] {
      Sorting.SameMembers(s, t);
    } else {
      FirstSame(s, t, first, limit);
      TailsSame(s, t);
      ChainedTail(s, first, limit);
      OrderedTail(t);
      hide Chained, Ordered, Between;
      ChainedUnique(s[1..], t[1..], first, limit);
      assert s == [s[0]] + s[1..] && t == [t[0]] + t[1..];
    }
  }

  lemma FirstSame(s: seq<Extent>, t: seq<Extent>, first: nat, limit: nat)
    requires Chained(s) && Between(s, first, limit) && Ordered(t) && multiset(s) == multiset(t) && s != []
    ensures t != [] && t[0] == s[0]
  {
    Sorting.SameMembers(s, t);
    assert t[0] in s && s[0] in t;
    var k: nat :| k < |s| && s[k] == t[0];
    var j: nat :| j < |t| && t[j] == s[0];
    assert t[0].start <= t[j].start;
    if k > 0 {
      ChainedReaches(s, 0, k, first, limit);
    }
  }

  lemma TailsSame(s: seq<Extent>, t: seq<Extent>)
    requires s != [] && t != [] && s[0] == t[0] && multiset(s) == multiset(t)
    ensures multiset(s[1..]) == multiset(t[1..])
  {
    assert s == [s[0]] + s[1..] && t == [t[0]] + t[1..];
    assert multiset(s[1..]) == multiset(s) - multiset{s[0]};
    assert multiset(t[1..]) == multiset(t) - multiset{t[0]};
  }

  lemma OrderedTail(t: seq<Extent>)
    requires t != [] && Ordered(t)
    ensures Ordered(t[1..])
  {
    assert forall i :: 0 <= i < |t| - 1 ==> t[1..][i] == t[i + 1];
  }

  lemma ChainedTail(s: seq<Extent>, first: nat, limit: nat)
    requires s != [] && Chained(s) && Between(s, first, limit)
    ensures Chained(s[1..]) && Between(s[1..], first, limit)
  {
    assert forall i :: 0 <= i < |s| - 1 ==> s[1..][i] == s[i + 1];
  }

  /** What any ranges leave free between `first` and `limit`. */
  function Free(used: seq<Extent>, first: nat, limit: nat): seq<Extent> {
    Gaps(SortByStart(used), 0, first, limit)
  }

  lemma FreeOfChained(used: seq<Extent>, first: nat, limit: nat)
    requires Chained(used) && Between(used, first, limit)
    ensures Free(used, first, limit) == Gaps(used, 0, first, limit)
  {
    ChainedUnique(used, SortByStart(used), first, limit);
  }

  /** The cursor loop that finds free regions. The cursor follows each range, even back into an earlier one. */
  method FreeRegions(used: seq<Extent>, first: nat, limit: nat) returns (regions: seq<Extent>)
    ensures regions == Free(used, first, limit)
  {
    var t := SortByStart(used);
    hide SortByStart;
    regions := [];
    var cursor: nat := first;
    ghost var all := Gaps(t, 0, first, limit);
    assert regions + all == all;
    for k := 0 to |t|
      invariant regions + Gaps(t, k, cursor, limit) == all
    {
      ghost var rest := Gaps(t, k + 1, t[k].end, limit);
      ghost var gap := Gap(cursor, t[k].start);
      assert (regions + gap) + rest == regions + (gap + rest);
      if cursor < t[k].start {
        regions := regions + [Extent(cursor, t[k].start)];
      } else {
        assert regions + gap == regions;
      }
      cursor := t[k].end;
    }
    if cursor < limit {
      regions := regions + [Extent(cursor, limit)];
    } else {
      assert regions + [] == regions;
    }
  }

  lemma {:induction false} GapsAbove(t: seq<Extent>, k: nat, cursor: nat, limit: nat, low: nat, x: nat)
    requires x < low <= cursor && forall i :: k <= i < |t| ==> low <= t[i].start < t[i].end
    ensures Covering(Gaps(t, k, cursor, limit), 0, x) == 0
    decreases |t| - k
  {
    if k < |t| {
      GapsAbove(t, k + 1, t[k].end, limit, low, x);
      GapCovers(cursor, t[k].start, x);
      CoveringAppend(Gap(cursor, t[k].start), Gaps(t, k + 1, t[k].end, limit), 0, x);
    } else {
      GapCovers(cursor, limit, x);
    }
  }

  /** Whether or not ranges overlap, no gap holds a sector twice, and together they hold every unused one. */
  lemma {:induction false} GapsOnce(t: seq<Extent>, k: nat, cursor: nat, limit: nat, x: nat)
    requires Ordered(t) && Between(t, 0, limit) && k <= |t|
    ensures Covering(Gaps(t, k, cursor, limit), 0, x) <= 1
    ensures cursor <= x < limit && Covering(t, k, x) == 0 ==> Covering(Gaps(t, k, cursor, limit), 0, x) == 1
    decreases |t| - k
  {
    if k < |t| {
      GapsOnce(t, k + 1, t[k].end, limit, x);
      GapCovers(cursor, t[k].start, x);
      CoveringAppend(Gap(cursor, t[k].start), Gaps(t, k + 1, t[k].end, limit), 0, x);
      if x < t[k].start {
        GapsAbove(t, k + 1, t[k].end, limit, t[k].start, x);
      }
    } else {
      GapCovers(cursor, limit, x);
    }
  }

  /** Every unused sector is free exactly once, and no sector twice, for any ranges. */
  lemma FreeHoldsUnused(used: seq<Extent>, first: nat, limit: nat, x: nat)
    requires Between(used, first, limit)
    ensures Covering(Free(used, first, limit), 0, x) <= 1
    ensures first <= x < limit && Covering(used, 0, x) == 0 ==> Covering(Free(used, first, limit), 0, x) == 1
  {
    PermutedBetween(used, SortByStart(used), first, limit);
    CoveringPermuted(used, SortByStart(used), x);
    GapsOnce(SortByStart(used), 0, first, limit, x);
  }

  lemma PermutedBetween(used: seq<Extent>, t: seq<Extent>, first: nat, limit: nat)
    requires Between(used, first, limit) && multiset(t) == multiset(used)
    ensures Between(t, first, limit)
  {
    Sorting.SameMembers(used, t);
    assert forall k :: 0 <= k < |t| ==> t[k] in used;
  }

  lemma FreeBetween(used: seq<Extent>, first: nat, limit: nat)
    requires Between(used, first, limit)
    ensures Between(Free(used, first, limit), first, limit)
  {
    PermutedBetween(used, SortByStart(used), first, limit);
    GapsBetween(SortByStart(used), 0, first, limit, first);
  }

  /** Used and free ranges cover each sector exactly once if and only if no two used ones overlap. */
  lemma FreeTiles(used: seq<Extent>, first: nat, limit: nat)
    requires Between(used, first, limit) && first <= limit
    ensures Tiling(used, Free(used, first, limit), first, limit) <==> AllApart(used)
  {
    var t := SortByStart(used);
    NeighboursDecide(used, t, first, limit);
    if Chained(t) {
      forall x: nat
        ensures Covering(used, 0, x) + Covering(Free(used, first, limit), 0, x) == if first <= x < limit then 1 else 0
      {
        CoveringPermuted(used, t, x);
        Tiles(t, 0, first, limit, x);
      }
    } else {
      var i, j :| 0 <= i < j < |used| && !Apart(used[i], used[j]);
      var x := if used[i].start < used[j].start then used[j].start else used[i].start;
      CoveringTwo(used, 0, i, j, x);
    }
  }

  lemma {:induction false} CoveringTwo(s: seq<Extent>, k: nat, i: nat, j: nat, x: nat)
    requires k <= i < j < |s| && s[i].start <= x < s[i].end && s[j].start <= x < s[j].end
    ensures Covering(s, k, x) >= 2
    decreases i - k
  {
    if k < i {
      CoveringTwo(s, k + 1, i, j, x);
    } else {
      CoveringMember(s, k + 1, j, x);
    }
  }

  // ----- Placing a range in a gap

  lemma {:induction false} CoveringMember(s: seq<Extent>, k: nat, i: nat, x: nat)
    requires k <= i < |s| && s[i].start <= x < s[i].end
    ensures Covering(s, k, x) >= 1
    decreases i - k
  {
    if k < i {
      CoveringMember(s, k + 1, i, x);
    }
  }

  /** A range inside a free region is apart from everything in use. */
  lemma FitsInGap(used: seq<Extent>, regions: seq<Extent>, first: nat, limit: nat, g: nat, x: Extent)
    requires Tiling(used, regions, first, limit) && Between(used, first, limit) && g < |regions|
    requires regions[g].start <= x.start < x.end <= regions[g].end
    ensures ApartFrom(x, used)
  {
    forall k | 0 <= k < |used| ensures Apart(x, used[k]) {
      if !Apart(x, used[k]) {
        var y := if x.start < used[k].start then used[k].start else x.start;
        CoveringMember(used, 0, k, y);
        CoveringMember(regions, 0, g, y);
      }
    }
  }

  /** The next multiple of 2048, with 64-bit wrap-around. */
  function Align(start: nat): (a: nat)
  {
    (start + 2047) % UINT64 / 2048 * 2048
  }

  lemma AlignFacts(start: nat)
    ensures Align(start) % 2048 == 0
    ensures start + 2047 < UINT64 ==> start <= Align(start) < start + 2048
    ensures start + 2047 < UINT64 ==> forall a: nat :: a % 2048 == 0 && a >= start ==> a >= Align(start)
    ensures UINT64 <= start + 2047 < UINT64 + 2047 ==> Align(start) == 0
  {
  }

  /** A gap from its first aligned sector on, when that lies in it; the whole gap otherwise. */
  function Candidate(gap: Extent, floor: nat): Extent {
    Extent(if floor <= Align(gap.start) < gap.end then Align(gap.start) else gap.start, gap.end)
  }

  /** The largest candidate, the first of equals; empty when there is none. */
  function Best(regions: seq<Extent>, floor: nat, n: nat): Extent
    requires n <= |regions|
  {
    if n == 0 then Extent(0, 0)
    else if Size(Candidate(regions[n - 1], floor)) > Size(Best(regions, floor, n - 1))
      then Candidate(regions[n - 1], floor)
    else Best(regions, floor, n - 1)
  }

  lemma {:induction false} BestWins(regions: seq<Extent>, floor: nat, n: nat, k: nat)
    requires k < n <= |regions|
    ensures Size(Candidate(regions[k], floor)) <= Size(Best(regions, floor, n))
  {
    hide Candidate, Size;
    if k < n - 1 {
      BestWins(regions, floor, n - 1, k);
    }
  }

  lemma {:induction false} BestFrom(regions: seq<Extent>, floor: nat, n: nat, first: nat, limit: nat) returns (g: nat)
    requires Between(regions, first, limit) && limit <= UINT64 && 0 < floor && 0 < n <= |regions|
    ensures g < n && Best(regions, floor, n) == Candidate(regions[g], floor) && Size(Best(regions, floor, n)) > 0
  {
    hide Candidate;
    CandidateInside(regions[n - 1], floor);
    if Size(Candidate(regions[n - 1], floor)) > Size(Best(regions, floor, n - 1)) {
      g := n - 1;
    } else {
      hide Between;
      g := BestFrom(regions, floor, n - 1, first, limit);
    }
  }

  /** The best candidate comes from a gap and fits it, and none is larger. */
  lemma BestLeads(regions: seq<Extent>, floor: nat, first: nat, limit: nat) returns (g: nat)
    requires Between(regions, first, limit) && limit <= UINT64 && 0 < floor
    ensures Size(Best(regions, floor, |regions|)) == 0 <==> regions == []
    ensures regions != [] ==> g < |regions| && Best(regions, floor, |regions|) == Candidate(regions[g], floor)
    ensures regions != [] ==> var best := Best(regions, floor, |regions|);
        regions[g].start <= best.start < best.end <= regions[g].end
    ensures forall k :: 0 <= k < |regions| ==>
        Size(Candidate(regions[k], floor)) <= Size(Best(regions, floor, |regions|))
  {
    hide Candidate;
    g := 0;
    if regions != [] {
      g := BestFrom(regions, floor, |regions|, first, limit);
      CandidateInside(regions[g], floor);
    }
    hide Best, Size;
    forall k | 0 <= k < |regions| ensures Size(Candidate(regions[k], floor)) <= Size(Best(regions, floor, |regions|)) {
      BestWins(regions, floor, |regions|, k);
    }
  }

  /** No range at an aligned sector that is apart from everything in use is larger, wherever it lies. */
  ghost predicate MostRoom(used: seq<Extent>, first: nat, limit: nat, best: Extent) {
    forall y: Extent {:trigger ApartFrom(y, used)} ::
      first <= y.start < y.end <= limit && ApartFrom(y, used) && y.start % 2048 == 0 ==> Size(y) <= Size(best)
  }

  /** The range begins at an aligned sector, or holds none. */
  ghost predicate WellAligned(best: Extent) {
    best.start % 2048 == 0 || forall a: nat :: best.start <= a < best.end ==> a % 2048 != 0
  }

  /** A range apart from others lies in one of the gaps between them. */
  lemma {:induction false} GapAround(t: seq<Extent>, k: nat, cursor: nat, limit: nat, y: Extent) returns (g: nat)
    requires cursor <= y.start < y.end <= limit && forall i :: k <= i < |t| ==> Apart(y, t[i])
    ensures g < |Gaps(t, k, cursor, limit)|
    ensures Gaps(t, k, cursor, limit)[g].start <= y.start && y.end <= Gaps(t, k, cursor, limit)[g].end
    decreases |t| - k
  {
    g := 0;
    if k < |t| && y.end > t[k].start {
      g := GapAround(t, k + 1, t[k].end, limit, y);
      g := |Gap(cursor, t[k].start)| + g;
    }
  }

  lemma FreeAround(used: seq<Extent>, first: nat, limit: nat, y: Extent) returns (g: nat)
    requires first <= y.start < y.end <= limit && ApartFrom(y, used)
    ensures g < |Free(used, first, limit)|
    ensures Free(used, first, limit)[g].start <= y.start && y.end <= Free(used, first, limit)[g].end
  {
    ApartFromPermuted(y, used, SortByStart(used));
    g := GapAround(SortByStart(used), 0, first, limit, y);
  }

  /** An aligned range in a gap is not larger than the candidate of the gap. */
  lemma AlignedFits(gap: Extent, floor: nat, y: Extent)
    requires gap.start <= y.start < y.end <= gap.end <= UINT64 && y.start % 2048 == 0
    ensures Size(y) <= Size(Candidate(gap, floor))
  {
    AlignFacts(gap.start);
  }

  lemma CandidateAligned(gap: Extent, floor: nat)
    requires gap.start < gap.end <= UINT64 && (floor <= gap.start || floor <= 2048)
    ensures WellAligned(Candidate(gap, floor))
  {
    AlignFacts(gap.start);
    if gap.start + 2047 >= UINT64 {
      forall a: nat | gap.start <= a < gap.end ensures a % 2048 != 0 {
        LastBlock(a);
      }
    }
  }

  /** No multiple of 2048 lies between the last one below 2^64 and there. */
  lemma LastBlock(a: nat)
    requires UINT64 - 2048 < a < UINT64
    ensures a % 2048 != 0
  {
  }

  /** The best of what is free has the most room. */
  lemma BestHasMostRoom(used: seq<Extent>, first: nat, limit: nat, floor: nat)
    requires Between(used, first, limit) && limit <= UINT64
    ensures MostRoom(used, first, limit, Best(Free(used, first, limit), floor, |Free(used, first, limit)|))
  {
    var best := Best(Free(used, first, limit), floor, |Free(used, first, limit)|);
    hide Free, Best, Between, Candidate, ApartFrom;
    forall y: Extent {:trigger ApartFrom(y, used)} |
      first <= y.start < y.end <= limit && ApartFrom(y, used) && y.start % 2048 == 0
      ensures Size(y) <= Size(best)
    {
      RoomFor(used, first, limit, floor, y);
    }
  }

  lemma RoomFor(used: seq<Extent>, first: nat, limit: nat, floor: nat, y: Extent)
    requires Between(used, first, limit) && limit <= UINT64
    requires first <= y.start < y.end <= limit && ApartFrom(y, used) && y.start % 2048 == 0
    ensures Size(y) <= Size(Best(Free(used, first, limit), floor, |Free(used, first, limit)|))
  {
    var regions := Free(used, first, limit);
    FreeBetween(used, first, limit);
    hide Free, Best, Candidate, ApartFrom;
    var g := FreeAround(used, first, limit, y);
    AlignedFits(regions[g], floor, y);
    BestWins(regions, floor, |regions|, g);
  }

  lemma NothingFree(used: seq<Extent>, regions: seq<Extent>, first: nat, limit: nat)
    requires Tiling(used, regions, first, limit) && Between(regions, first, limit)
    ensures Tiling(used, [], first, limit) <==> regions == []
  {
    if regions != [] {
      var x := regions[0].start;
      CoveringMember(regions, 0, 0, x);
      assert Covering(used, 0, x) + Covering(regions, 0, x) == 1;
    }
  }

  /**
   * The best of what is free lies apart from everything in use and has the most room; it is aligned where it can
   * be, and empty exactly when nothing is free.
   */
  lemma BestIsLargest(used: seq<Extent>, first: nat, limit: nat, floor: nat, best: Extent)
    requires Between(used, first, limit) && AllApart(used) && first <= limit <= UINT64 && 0 < floor
    requires best == Best(Free(used, first, limit), floor, |Free(used, first, limit)|)
    ensures Size(best) >= 0 && (Size(best) == 0 <==> Tiling(used, [], first, limit))
    ensures Size(best) > 0 ==> first <= best.start < best.end <= limit && ApartFrom(best, used)
    ensures Size(best) > 0 && (floor <= first || floor <= 2048) ==> WellAligned(best)
    ensures MostRoom(used, first, limit, best)
  {
    var regions := Free(used, first, limit);
    FreeBetween(used, first, limit);
    FreeTiles(used, first, limit);
    NothingFree(used, regions, first, limit);
    BestHasMostRoom(used, first, limit, floor);
    hide AllApart, ApartFrom, Candidate, Best, Free, Tiling, MostRoom, WellAligned;
    var g := BestLeads(regions, floor, first, limit);
    if regions != [] {
      FitsInGap(used, regions, first, limit, g, best);
      if floor <= first || floor <= 2048 {
        CandidateAligned(regions[g], floor);
      }
    }
  }

  method Suggest(regions: seq<Extent>, floor: nat) returns (best: Extent)
    ensures best == Best(regions, floor, |regions|)
  {
    best := Extent(0, 0);
    for k := 0 to |regions|
      invariant best == Best(regions, floor, k)
    {
      var region := regions[k];
      var start, aligned := region.start, (region.start + 2047) % 0x1_0000_0000_0000_0000 / 2048 * 2048;
      if aligned >= floor && aligned < region.end {
        start := aligned;
      }
      if region.end - start > best.end - best.start {
        best := Extent(start, region.end);
      }
    }
  }

  lemma CandidateInside(gap: Extent, floor: nat)
    requires gap.start < gap.end <= UINT64 && 0 < floor
    ensures gap.start <= Candidate(gap, floor).start < gap.end && Candidate(gap, floor).end == gap.end
  {
    AlignFacts(gap.start);
  }

  // ----- Numbered slots

  /** The ranges of the occupied ones among the first `n` slots. */
  function Present(slots: seq<Option<Extent>>, n: nat): (s: seq<Extent>)
    requires n <= |slots|
  {
    if n == 0 then [] else Present(slots, n - 1) + (if slots[n - 1].Some? then [slots[n - 1].value] else [])
  }

  /** Occupied slots do not overlap. */
  ghost predicate SlotsApart(slots: seq<Option<Extent>>, n: nat)
    requires n <= |slots|
  {
    forall i, j :: 0 <= i < j < n && slots[i].Some? && slots[j].Some? ==> Apart(slots[i].value, slots[j].value)
  }

  ghost predicate SlotsApartFrom(x: Extent, slots: seq<Option<Extent>>, n: nat)
    requires n <= |slots|
  {
    forall i :: 0 <= i < n && slots[i].Some? ==> Apart(slots[i].value, x)
  }

  ghost predicate SlotsBetween(slots: seq<Option<Extent>>, n: nat, first: nat, limit: nat)
    requires n <= |slots|
  {
    forall i :: 0 <= i < n && slots[i].Some? ==> first <= slots[i].value.start < slots[i].value.end <= limit
  }

  lemma ApartAppend(s: seq<Extent>, x: Extent)
    ensures AllApart(s + [x]) <==> AllApart(s) && ApartFrom(x, s)
  {
    var t := s + [x];
    if AllApart(t) {
      forall i, j | 0 <= i < j < |s| ensures Apart(s[i], s[j]) {
        assert Apart(t[i], t[j]);
      }
      forall k | 0 <= k < |s| ensures Apart(x, s[k]) {
        assert Apart(t[k], t[|s|]);
      }
    }
    if AllApart(s) && ApartFrom(x, s) {
      forall i, j | 0 <= i < j < |t| ensures Apart(t[i], t[j]) {
        assert j < |s| ==> Apart(s[i], s[j]);
        assert j == |s| ==> Apart(x, s[i]);
      }
    }
  }

  lemma {:induction false} PresentApartFrom(x: Extent, slots: seq<Option<Extent>>, n: nat)
    requires n <= |slots|
    ensures ApartFrom(x, Present(slots, n)) <==> SlotsApartFrom(x, slots, n)
  {
    if n > 0 {
      PresentApartFrom(x, slots, n - 1);
      var s := Present(slots, n - 1);
      assert s + [] == s;
      if slots[n - 1].Some? {
        var t := Present(slots, n);
        assert t == s + [slots[n - 1].value];
        if ApartFrom(x, t) {
          assert Apart(x, t[|s|]);
          forall k | 0 <= k < |s| ensures Apart(x, s[k]) {
            assert Apart(x, t[k]);
          }
        }
      }
    }
  }

  lemma {:induction false} PresentApart(slots: seq<Option<Extent>>, n: nat)
    requires n <= |slots|
    ensures AllApart(Present(slots, n)) <==> SlotsApart(slots, n)
  {
    if n > 0 {
      PresentApart(slots, n - 1);
      assert Present(slots, n - 1) + [] == Present(slots, n - 1);
      if slots[n - 1].Some? {
        ApartAppend(Present(slots, n - 1), slots[n - 1].value);
        PresentApartFrom(slots[n - 1].value, slots, n - 1);
        hide AllApart, ApartFrom, Present;
        SlotsApartAppend(slots, n);
        assert Present(slots, n) == Present(slots, n - 1) + [slots[n - 1].value] by {
          PresentStep(slots, n);
        }
      }
    }
  }

  lemma PresentStep(slots: seq<Option<Extent>>, n: nat)
    requires 0 < n <= |slots| && slots[n - 1].Some?
    ensures Present(slots, n) == Present(slots, n - 1) + [slots[n - 1].value]
  {
  }

  lemma SlotsApartAppend(slots: seq<Option<Extent>>, n: nat)
    requires 0 < n <= |slots| && slots[n - 1].Some?
    ensures SlotsApart(slots, n) <==> SlotsApart(slots, n - 1) && SlotsApartFrom(slots[n - 1].value, slots, n - 1)
  {
  }

  lemma {:induction false} PresentBetween(slots: seq<Option<Extent>>, n: nat, first: nat, limit: nat)
    requires n <= |slots| && SlotsBetween(slots, n, first, limit)
    ensures Between(Present(slots, n), first, limit)
  {
    if n > 0 {
      PresentBetween(slots, n - 1, first, limit);
    }
  }

  /** Filling a free slot with a range apart from the rest keeps the slots apart. */
  lemma SlotsFill(slots: seq<Option<Extent>>, i: nat, x: Extent)
    requires i < |slots| && slots[i].None? && SlotsApart(slots, |slots|) && ApartFrom(x, Present(slots, |slots|))
    ensures SlotsApart(slots[i := Some(x)], |slots|)
  {
    PresentApartFrom(x, slots, |slots|);
  }
}
