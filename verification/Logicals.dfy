/** Logical partitions inside an extended one: validation and free space. */
module Logicals {
  import opened Extents
  import opened DosTable
  import opened Outcomes
  import Sorting

  /** A logical partition, and the sector of the boot record that describes it. */
  datatype Logical = Logical(part: Partition, ebr: uint64) {
    /** Its boot record and its data. */
    function Span(): Extent {
      Extent(ebr, part.start + part.size)
    }
  }

  function End(extended: Partition): nat {
    extended.start + extended.size
  }

  function Used(logical: seq<Logical>): (s: seq<Extent>)
    ensures |s| == |logical| && forall i :: 0 <= i < |s| ==> s[i] == logical[i].Span()
  {
    if logical == [] then [] else Used(logical[..|logical| - 1]) + [logical[|logical| - 1].Span()]
  }

  predicate LogicalSound(extended: Partition, l: Logical) {
    && l.part.size != 0 && l.part.kind != 0 && !ExtendedType(l.part.kind)
    && extended.start <= l.ebr < l.part.start && l.part.start + l.part.size <= End(extended)
  }

  ghost predicate ValidLogicals(extended: Partition, logical: seq<Logical>) {
    && (forall i :: 0 <= i < |logical| ==> LogicalSound(extended, logical[i]))
    && AllApart(Used(logical))
  }

  lemma LogicalsBetween(extended: Partition, logical: seq<Logical>)
    requires forall i :: 0 <= i < |logical| ==> LogicalSound(extended, logical[i])
    ensures Between(Used(logical), extended.start, End(extended))
  {
    forall k | 0 <= k < |logical|
      ensures extended.start <= Used(logical)[k].start < Used(logical)[k].end <= End(extended)
    {
      assert LogicalSound(extended, logical[k]);
    }
  }

  lemma UsedNext(logical: seq<Logical>, i: nat)
    requires i < |logical|
    ensures Used(logical[..i + 1]) == Used(logical[..i]) + [logical[i].Span()]
  {
    assert logical[..i + 1][..i] == logical[..i];
  }

  method ValidateLogicals(extended: Partition, logical: seq<Logical>) returns (ok: bool)
    ensures ok <==> ValidLogicals(extended, logical)
  {
    hide AllApart, Used;
    var ranges: seq<Extent> := [];
    assert ranges == Used(logical[..0]) by {
      NoneUsed();
    }
    for i := 0 to |logical|
      invariant forall j :: 0 <= j < i ==> LogicalSound(extended, logical[j])
      invariant ranges == Used(logical[..i])
    {
      var l := logical[i];
      UsedNext(logical, i);
      if l.part.size == 0 || l.part.kind == 0 || ExtendedType(l.part.kind) {
        assert !LogicalSound(extended, logical[i]);
        return false;
      }
      if l.ebr < extended.start || l.ebr >= l.part.start || l.part.start + l.part.size > End(extended) {
        assert !LogicalSound(extended, logical[i]);
        return false;
      }
      ranges := ranges + [Extent(l.ebr, l.part.start + l.part.size)];
    }
    assert logical[..|logical|] == logical;
    LogicalsBetween(extended, logical);
    ok := CheckApart(ranges, extended.start, End(extended));
  }

  lemma NoneUsed()
    ensures Used([]) == []
  {
  }

  // ----- Order

  predicate StartsFirst(p: Logical, q: Logical) {
    p.part.start <= q.part.start
  }

  /** The order in which the editor keeps them. */
  ghost predicate InOrder(logical: seq<Logical>) {
    forall i, j :: 0 <= i < j < |logical| ==> logical[i].part.start <= logical[j].part.start
  }

  method SortLogicals(logical: seq<Logical>) returns (r: seq<Logical>)
    ensures InOrder(r) && multiset(r) == multiset(logical)
  {
    assert Sorting.TotalPreorder(StartsFirst);
    Sorting.SortCorrect(logical, StartsFirst);
    r := Sorting.Sort(logical, StartsFirst);
    assert forall i, j :: 0 <= i < j < |r| ==> StartsFirst(r[i], r[j]);
  }

  /** In start order, boot records and data follow one another. */
  lemma OrderChains(extended: Partition, logical: seq<Logical>)
    requires ValidLogicals(extended, logical) && InOrder(logical)
    ensures Chained(Used(logical))
  {
    var s := Used(logical);
    forall i | 0 < i < |s| ensures s[i - 1].end <= s[i].start {
      assert Apart(s[i - 1], s[i]);
      assert LogicalSound(extended, logical[i - 1]) && LogicalSound(extended, logical[i]);
      assert logical[i - 1].part.start <= logical[i].part.start;
    }
  }

  lemma {:induction false} UsedPermuted(a: seq<Logical>, b: seq<Logical>)
    requires multiset(a) == multiset(b)
    ensures multiset(Used(a)) == multiset(Used(b))
    decreases |a|
  {
    if a == [] {
      Sorting.SameMembers(a, b);
    } else {
      var k := Sorting.MatchFirst(a, b);
      UsedPermuted(a[..0] + a[1..], b[..k] + b[k + 1..]);
      UsedRemove(a, 0);
      UsedRemove(b, k);
    }
  }

  lemma UsedRemove(b: seq<Logical>, k: nat)
    requires k < |b|
    ensures multiset(Used(b)) == multiset{b[k].Span()} + multiset(Used(b[..k] + b[k + 1..]))
  {
    hide Used;
    Sorting.MoveToFront(Used(b), k);
    UsedWithout(b, k);
  }

  lemma UsedWithout(b: seq<Logical>, k: nat)
    requires k < |b|
    ensures Used(b)[..k] + Used(b)[k + 1..] == Used(b[..k] + b[k + 1..])
  {
    hide Used;
    var left, right := Used(b)[..k] + Used(b)[k + 1..], Used(b[..k] + b[k + 1..]);
    forall i | 0 <= i < |right| ensures left[i] == right[i] {
      assert (b[..k] + b[k + 1..])[i] == b[if i < k then i else i + 1];
    }
  }

  /** Validity does not depend on the order. */
  lemma PermutedValid(extended: Partition, a: seq<Logical>, b: seq<Logical>)
    requires ValidLogicals(extended, a) && multiset(a) == multiset(b)
    ensures ValidLogicals(extended, b)
  {
    UsedPermuted(a, b);
    hide AllApart, Used;
    ApartPermuted(Used(a), Used(b));
    Sorting.SameMembers(a, b);
    forall i | 0 <= i < |b| ensures LogicalSound(extended, b[i]) {
      assert b[i] in a;
    }
  }

  lemma RemovedLogical(extended: Partition, logical: seq<Logical>, i: nat)
    requires ValidLogicals(extended, logical) && InOrder(logical) && i < |logical|
    ensures ValidLogicals(extended, logical[..i] + logical[i + 1..]) && InOrder(logical[..i] + logical[i + 1..])
  {
    var after := logical[..i] + logical[i + 1..];
    forall k | 0 <= k < |after|
      ensures LogicalSound(extended, after[k]) && after[k] == logical[if k < i then k else k + 1]
    {
      assert LogicalSound(extended, logical[if k < i then k else k + 1]);
    }
    forall j, k | 0 <= j < k < |after| ensures Apart(Used(after)[j], Used(after)[k]) {
      assert Apart(Used(logical)[if j < i then j else j + 1], Used(logical)[if k < i then k else k + 1]);
    }
  }

  lemma NoLogicalsValid(extended: Partition)
    ensures ValidLogicals(extended, []) && InOrder([])
  {
  }

  // ----- Free space

  /** What a list leaves free in its container. */
  function Regions(extended: Partition, logical: seq<Logical>): seq<Extent> {
    Free(Used(logical), extended.start, End(extended))
  }

  method LogicalFreeRegions(extended: Partition, logical: seq<Logical>) returns (regions: seq<Extent>)
    ensures regions == Regions(extended, logical)
  {
    hide Used, Free;
    var used: seq<Extent> := [];
    NoneUsed();
    for i := 0 to |logical|
      invariant used == Used(logical[..i])
    {
      UsedNext(logical, i);
      used := used + [Extent(logical[i].ebr, logical[i].part.start + logical[i].part.size)];
    }
    assert logical[..|logical|] == logical;
    regions := FreeRegions(used, extended.start, extended.start + extended.size);
  }

  /** Boot records before their data, and all in the container: so are valid lists, and those read from any disk. */
  ghost predicate Contained(extended: Partition, logical: seq<Logical>) {
    Between(Used(logical), extended.start, End(extended))
  }

  /**
   * Free regions hold every sector that no partition uses exactly once, and none twice. With boot records and
   * data they cover the container exactly once if and only if no two partitions overlap.
   */
  lemma RegionsTile(extended: Partition, logical: seq<Logical>)
    requires Contained(extended, logical)
    ensures Between(Regions(extended, logical), extended.start, End(extended))
    ensures Tiling(Used(logical), Regions(extended, logical), extended.start, End(extended))
      <==> AllApart(Used(logical))
    ensures forall x :: (extended.start <= x < End(extended) && Covering(Used(logical), 0, x) == 0) ==>
        Covering(Regions(extended, logical), 0, x) == 1
    ensures forall x: nat :: Covering(Regions(extended, logical), 0, x) <= 1
  {
    FreeBetween(Used(logical), extended.start, End(extended));
    FreeTiles(Used(logical), extended.start, End(extended));
    hide Tiling, Between, Free, Used, AllApart;
    forall x: nat ensures Covering(Regions(extended, logical), 0, x) <= 1
      && (extended.start <= x < End(extended) && Covering(Used(logical), 0, x) == 0
        ==> Covering(Regions(extended, logical), 0, x) == 1)
    {
      FreeHoldsUnused(Used(logical), extended.start, End(extended), x);
    }
  }

  /** A boot record, and where its data goes. */
  datatype Region = Region(ebr: nat, dataStart: nat, dataSize: nat)

  function DataStart(gap: Extent): nat {
    Align(gap.start + 1)
  }

  /** The gap has an aligned sector after its first. */
  predicate Usable(gap: Extent) {
    DataStart(gap) < gap.end
  }

  function RegionIn(gap: Extent): Region
    requires Usable(gap)
  {
    Region(gap.start, DataStart(gap), gap.end - DataStart(gap))
  }

  ghost predicate HasRoom(regions: seq<Extent>) {
    exists k :: 0 <= k < |regions| && Usable(regions[k])
  }

  /** The first of the largest regions that the first `n` gaps leave. */
  function Roomiest(regions: seq<Extent>, n: nat): (best: Option<Region>)
    requires n <= |regions|
    ensures best.Some? <==> exists k :: 0 <= k < n && Usable(regions[k])
  {
    if n == 0 then None
    else
      var best, gap := Roomiest(regions, n - 1), regions[n - 1];
      if Usable(gap) && (best.None? || RegionIn(gap).dataSize > best.value.dataSize) then Some(RegionIn(gap)) else best
  }

  /** It is what some gap leaves, and no gap leaves more. */
  lemma {:induction false} RoomiestLeads(regions: seq<Extent>, n: nat) returns (g: nat)
    requires n <= |regions| && Roomiest(regions, n).Some?
    ensures g < n && Usable(regions[g]) && RegionIn(regions[g]) == Roomiest(regions, n).value
    ensures forall k :: 0 <= k < n && Usable(regions[k]) ==>
        RegionIn(regions[k]).dataSize <= Roomiest(regions, n).value.dataSize
  {
    hide Usable, RegionIn;
    g := n - 1;
    if Roomiest(regions, n - 1).Some? {
      var i := RoomiestLeads(regions, n - 1);
      if Roomiest(regions, n) == Roomiest(regions, n - 1) {
        g := i;
      }
    }
  }

  /** What a new logical partition is offered. */
  function Suggested(extended: Partition, logical: seq<Logical>): Option<Region> {
    Roomiest(Regions(extended, logical), |Regions(extended, logical)|)
  }

  /** The largest aligned data region that any gap leaves. */
  method SuggestLogical(extended: Partition, logical: seq<Logical>) returns (best: Option<Region>)
    ensures best == Suggested(extended, logical)
  {
    hide Align, Regions;
    var regions := LogicalFreeRegions(extended, logical);
    best := None;
    for k := 0 to |regions|
      invariant best == Roomiest(regions, k)
    {
      var gap := regions[k];
      var dataStart := Align(gap.start + 1);
      if dataStart < gap.end {
        var candidate := Region(gap.start, dataStart, gap.end - dataStart);
        if best.None? || candidate.dataSize > best.value.dataSize {
          best := Some(candidate);
        }
      }
    }
  }

  /** The offer begins at a multiple of 2048, behind its boot record. */
  lemma RegionAligned(gap: Extent)
    requires Usable(gap) && gap.end <= UINT64
    ensures var r := RegionIn(gap);
      r.ebr == gap.start && r.dataStart % 2048 == 0 && r.dataStart + r.dataSize == gap.end
  {
    AlignFacts(gap.start + 1);
  }

  /** No partition at a multiple of 2048 that can join a valid list is larger than the one that is offered. */
  lemma SuggestedIsLargest(extended: Partition, logical: seq<Logical>, l: Logical)
    requires ValidLogicals(extended, logical + [l]) && l.part.start % 2048 == 0
    ensures Suggested(extended, logical).Some? && l.part.size <= Suggested(extended, logical).value.dataSize
  {
    var used, all, regions := Used(logical), Used(logical + [l]), Regions(extended, logical);
    assert logical + [l] == (logical + [l])[..|logical| + 1] && logical == (logical + [l])[..|logical|];
    assert LogicalSound(extended, (logical + [l])[|logical|]);
    assert ApartFrom(l.Span(), used) by {
      forall k | 0 <= k < |used| ensures Apart(l.Span(), used[k]) {
        assert Apart(all[k], all[|logical|]);
      }
    }
    var limit := extended.start + extended.size;
    FreeInside(extended, logical, l);
    hide Used, Free, AllApart, ValidLogicals, ApartFrom, Roomiest;
    var g := FreeAround(used, extended.start, limit, l.Span());
    AlignFacts(regions[g].start + 1);
    assert Usable(regions[g]);
    var best := RoomiestLeads(regions, |regions|);
  }

  /** Gaps end in the container. */
  lemma FreeInside(extended: Partition, logical: seq<Logical>, l: Logical)
    requires ValidLogicals(extended, logical + [l])
    ensures Between(Regions(extended, logical), extended.start, End(extended))
  {
    forall i | 0 <= i < |logical| ensures LogicalSound(extended, logical[i]) {
      assert LogicalSound(extended, (logical + [l])[i]);
    }
    LogicalsBetween(extended, logical);
    FreeBetween(Used(logical), extended.start, End(extended));
  }

  /** The front of the first gap that `start` falls into. */
  function FrontIn(regions: seq<Extent>, start: nat): (front: Option<nat>)
    ensures front.Some? <==> exists k :: 0 <= k < |regions| && InGap(regions[k], start)
    ensures front.Some? ==> FrontOf(regions, start, front.value)
  {
    if regions == [] then None
    else if InGap(regions[0], start) then Some(regions[0].start)
    else
      assert forall k :: 0 < k < |regions| ==> regions[k] == regions[1..][k - 1];
      FrontIn(regions[1..], start)
  }

  /** Where the boot record for data at `start` goes: the front of the gap it falls into. */
  method BootRecordFor(extended: Partition, logical: seq<Logical>, start: nat) returns (ebr: Option<nat>)
    ensures ebr == FrontIn(Regions(extended, logical), start)
  {
    hide Regions;
    var regions := LogicalFreeRegions(extended, logical);
    assert regions[0..] == regions;
    for k := 0 to |regions|
      invariant FrontIn(regions[k..], start) == FrontIn(regions, start)
    {
      assert regions[k..][1..] == regions[k + 1..];
      if start > regions[k].start && start < regions[k].end {
        return Some(regions[k].start);
      }
    }
    return None;
  }

  ghost predicate FrontOf(regions: seq<Extent>, start: nat, ebr: nat) {
    exists k :: 0 <= k < |regions| && InGap(regions[k], start) && regions[k].start == ebr
  }

  predicate InGap(gap: Extent, start: nat) {
    gap.start < start < gap.end
  }

  /** A logical partition whose boot record and data lie in one gap can be added. */
  lemma InGapIsValid(extended: Partition, logical: seq<Logical>, k: nat, l: Logical)
    requires ValidLogicals(extended, logical) && k < |Regions(extended, logical)|
    requires var gap := Regions(extended, logical)[k];
      gap.start <= l.ebr < l.part.start && 0 < l.part.size && l.part.start + l.part.size <= gap.end
    requires l.part.kind != 0 && !ExtendedType(l.part.kind)
    ensures ValidLogicals(extended, logical + [l])
  {
    RegionsInside(extended, logical, k);
    InGapApart(extended, logical, k, l);
    hide Regions;
    JoinedValid(extended, logical, l);
  }

  lemma InGapApart(extended: Partition, logical: seq<Logical>, k: nat, l: Logical)
    requires ValidLogicals(extended, logical) && k < |Regions(extended, logical)|
    requires Regions(extended, logical)[k].start <= l.ebr < l.part.start
    requires 0 < l.part.size && l.part.start + l.part.size <= Regions(extended, logical)[k].end
    ensures ApartFrom(l.Span(), Used(logical))
  {
    LogicalsBetween(extended, logical);
    hide AllApart, ApartFrom, Used, Tiling, Free, Between;
    FreeTiles(Used(logical), extended.start, End(extended));
    FitsInGap(Used(logical), Regions(extended, logical), extended.start, End(extended), k, l.Span());
  }

  /** A sound partition apart from all others can join them. */
  lemma JoinedValid(extended: Partition, logical: seq<Logical>, l: Logical)
    requires ValidLogicals(extended, logical) && LogicalSound(extended, l) && ApartFrom(l.Span(), Used(logical))
    ensures ValidLogicals(extended, logical + [l])
  {
    hide AllApart, ApartFrom, Used, LogicalSound;
    var all := logical + [l];
    assert all[..|logical|] == logical && all[..|logical| + 1] == all && all[|logical|] == l;
    UsedNext(all, |logical|);
    ApartAppend(Used(logical), l.Span());
  }

  /** A sector lies in one gap only. */
  lemma GapUnique(extended: Partition, logical: seq<Logical>, i: nat, j: nat, x: nat)
    requires ValidLogicals(extended, logical)
    requires i < |Regions(extended, logical)| && j < |Regions(extended, logical)|
    requires InGap(Regions(extended, logical)[i], x) && InGap(Regions(extended, logical)[j], x)
    ensures i == j
  {
    LogicalsBetween(extended, logical);
    FreeHoldsUnused(Used(logical), extended.start, End(extended), x);
    var regions := Regions(extended, logical);
    hide Used, AllApart, Regions, Free;
    if i < j {
      CoveringTwo(regions, 0, i, j, x);
    } else if j < i {
      CoveringTwo(regions, 0, j, i, x);
    }
  }

  /** Gaps lie in the container. */
  lemma RegionsInside(extended: Partition, logical: seq<Logical>, k: nat)
    requires ValidLogicals(extended, logical) && k < |Regions(extended, logical)|
    ensures extended.start <= Regions(extended, logical)[k].start < Regions(extended, logical)[k].end <= End(extended)
  {
    LogicalsBetween(extended, logical);
    FreeBetween(Used(logical), extended.start, End(extended));
  }
}
