/** The partition table that the GPT editor keeps: geometry, validation, free space. */
module GptTable {
  import opened Bits
  import opened ByteBuffers
  import opened Extents
  import opened Outcomes

  const ENTRY_COUNT := 128
  const ENTRY_SIZE := 128
  const ENTRY_SECTORS := 32

  type Guid = g: seq<byte> | |g| == 16 witness Zeros(16)

  type unit = x: int | 0 <= x < 0x1_0000

  function NoUnits(n: nat): (z: seq<unit>)
    ensures |z| == n
  {
    if n == 0 then [] else NoUnits(n - 1) + [0]
  }

  /** A partition name as stored: 36 UTF-16 units. */
  type Name = n: seq<unit> | |n| == 36 witness NoUnits(36)

  /** One of the 128 slots; it is empty when its type is all zero. */
  datatype Partition = Partition(kind: Guid, unique: Guid, start: uint64, end: uint64, attributes: uint64, name: Name) {
    predicate Empty() {
      AllZero(kind)
    }

    /** The sectors it holds; `end` is inclusive. */
    function Span(): Option<Extent> {
      if Empty() then None else Some(Extent(start, end + 1))
    }
  }

  const EMPTY := Partition(Zeros(16), Zeros(16), 0, 0, 0, NoUnits(36))

  /** An empty slot holds nothing at all. */
  lemma EmptyIsClear()
    ensures AllZero(EMPTY.kind) && AllZero(EMPTY.unique) && EMPTY.start == 0 && EMPTY.end == 0
    ensures EMPTY.attributes == 0 && forall k :: 0 <= k < 36 ==> EMPTY.name[k] == 0
  {
    ZeroUnits(36);
  }

  lemma {:induction false} ZeroUnits(n: nat)
    ensures forall k :: 0 <= k < n ==> NoUnits(n)[k] == 0
  {
    if n > 0 {
      ZeroUnits(n - 1);
    }
  }

  type Slots = s: seq<Partition> | |s| == ENTRY_COUNT witness NoSlots(ENTRY_COUNT)

  function NoSlots(n: nat): (s: seq<Partition>)
    ensures |s| == n && forall k :: 0 <= k < n ==> s[k] == EMPTY
  {
    if n == 0 then [] else NoSlots(n - 1) + [EMPTY]
  }

  datatype Table = Table(diskGuid: Guid, firstUsable: uint64, lastUsable: uint64, partitions: Slots)

  // ----- Geometry

  datatype Geometry = Geometry(firstUsable: uint64, lastUsable: uint64, backupEntries: uint64, backupHeader: uint64)

  function GeometryOf(sectors: uint64): Option<Geometry> {
    if sectors < 2 * ENTRY_SECTORS + 4 then None
    else
      var firstUsable := 2 + ENTRY_SECTORS;
      var backupHeader := sectors - 1;
      var backupEntries := backupHeader - ENTRY_SECTORS;
      var lastUsable := backupEntries - 1;
      if firstUsable > lastUsable then None
      else Some(Geometry(firstUsable, lastUsable, backupEntries, backupHeader))
  }

  /**
   * A disk has room exactly from 68 sectors on; then the protective record, both headers, both
   * entry arrays and the usable range lie in this order, without overlap, and fill the disk.
   */
  lemma GeometryFits(sectors: uint64)
    ensures GeometryOf(sectors).Some? <==> sectors >= 68
    ensures sectors >= 68 ==> var g := GeometryOf(sectors).value;
      && 2 + ENTRY_SECTORS == g.firstUsable <= g.lastUsable && g.lastUsable + 1 == g.backupEntries
      && g.backupEntries + ENTRY_SECTORS == g.backupHeader && g.backupHeader + 1 == sectors
  {
  }

  // ----- Validation

  function Spans(parts: seq<Partition>): (s: seq<Option<Extent>>)
    ensures |s| == |parts| && forall i :: 0 <= i < |parts| ==> s[i] == parts[i].Span()
  {
    if parts == [] then [] else Spans(parts[..|parts| - 1]) + [parts[|parts| - 1].Span()]
  }

  /** A used slot has an identity of its own and lies in the usable range. */
  predicate SlotSound(t: Table, i: nat)
    requires i < ENTRY_COUNT
  {
    var p := t.partitions[i];
    p.Empty() || (!AllZero(p.unique) && t.firstUsable <= p.start <= p.end <= t.lastUsable)
  }

  ghost predicate OwnGuid(parts: seq<Partition>, i: nat)
    requires i < |parts|
  {
    parts[i].Empty() || forall j :: 0 <= j < i && !parts[j].Empty() ==> parts[j].unique != parts[i].unique
  }

  ghost predicate GeometrySound(t: Table) {
    t.firstUsable != 0 && t.firstUsable <= t.lastUsable && !AllZero(t.diskGuid)
  }

  ghost predicate ValidTable(t: Table) {
    && GeometrySound(t)
    && (forall i: nat :: i < ENTRY_COUNT ==> SlotSound(t, i) && OwnGuid(t.partitions, i))
    && SlotsApart(Spans(t.partitions), ENTRY_COUNT)
  }

  ghost function GuidsOf(parts: seq<Partition>, n: nat): set<Guid>
    requires n <= |parts|
  {
    if n == 0 then {} else GuidsOf(parts, n - 1) + (if parts[n - 1].Empty() then {} else {parts[n - 1].unique})
  }

  lemma {:induction false} GuidsSeen(parts: seq<Partition>, n: nat, g: Guid)
    requires n <= |parts|
    ensures g in GuidsOf(parts, n) <==> exists j :: 0 <= j < n && !parts[j].Empty() && parts[j].unique == g
  {
    if n > 0 {
      GuidsSeen(parts, n - 1, g);
    }
  }

  lemma SoundBetween(t: Table, n: nat)
    requires n <= ENTRY_COUNT && forall i: nat :: i < n ==> SlotSound(t, i)
    ensures SlotsBetween(Spans(t.partitions), n, t.firstUsable, t.lastUsable + 1)
  {
    forall i | 0 <= i < n && Spans(t.partitions)[i].Some?
      ensures var x := Spans(t.partitions)[i].value; t.firstUsable <= x.start < x.end <= t.lastUsable + 1
    {
      assert SlotSound(t, i);
    }
  }

  lemma PresentNext(t: Table, i: nat)
    requires i < ENTRY_COUNT
    ensures Present(Spans(t.partitions), i + 1)
      == Present(Spans(t.partitions), i) + (if t.partitions[i].Empty() then [] else [t.partitions[i].Span().value])
  {
  }

  /** The loop over the slots: each sound, no identity twice. */
  method CheckSlots(t: Table) returns (ok: bool, used: seq<Extent>)
    ensures ok <==> forall i: nat :: i < ENTRY_COUNT ==> SlotSound(t, i) && OwnGuid(t.partitions, i)
    ensures ok ==> used == Present(Spans(t.partitions), ENTRY_COUNT)
  {
    hide Present;
    used := [];
    var seen: set<Guid> := {};
    assert used == Present(Spans(t.partitions), 0) by {
      NonePresent(t);
    }
    for i: nat := 0 to ENTRY_COUNT
      invariant forall j: nat :: j < i ==> SlotSound(t, j) && OwnGuid(t.partitions, j)
      invariant used == Present(Spans(t.partitions), i)
      invariant seen == GuidsOf(t.partitions, i)
    {
      PresentNext(t, i);
      var p := t.partitions[i];
      GuidsSeen(t.partitions, i, p.unique);
      if !p.Empty() {
        if AllZero(p.unique) {
          assert !SlotSound(t, i);
          return false, used;
        }
        if p.unique in seen {
          assert !OwnGuid(t.partitions, i);
          return false, used;
        }
        seen := seen + {p.unique};
        if p.start < t.firstUsable || p.end < p.start || p.end > t.lastUsable {
          assert !SlotSound(t, i);
          return false, used;
        }
        used := used + [Extent(p.start, p.end + 1)];
      } else {
        assert used + [] == used;
      }
    }
    ok := true;
  }

  lemma NonePresent(t: Table)
    ensures Present(Spans(t.partitions), 0) == []
  {
  }

  method ValidateTable(t: Table) returns (ok: bool)
    ensures ok <==> ValidTable(t)
  {
    hide Present, SlotsApart, SlotSound, OwnGuid, AllApart;
    if t.firstUsable == 0 || t.lastUsable < t.firstUsable || AllZero(t.diskGuid) {
      return false;
    }
    var sound, used := CheckSlots(t);
    if !sound {
      return false;
    }
    SoundBetween(t, ENTRY_COUNT);
    PresentBetween(Spans(t.partitions), ENTRY_COUNT, t.firstUsable, t.lastUsable + 1);
    PresentApart(Spans(t.partitions), ENTRY_COUNT);
    ok := CheckApart(used, t.firstUsable, t.lastUsable + 1);
  }

  // ----- Free space

  lemma ValidUsed(t: Table)
    requires ValidTable(t)
    ensures Between(Present(Spans(t.partitions), ENTRY_COUNT), t.firstUsable, t.lastUsable + 1)
    ensures AllApart(Present(Spans(t.partitions), ENTRY_COUNT))
  {
    SoundBetween(t, ENTRY_COUNT);
    hide Present, SlotsApart, SlotSound, OwnGuid, AllApart, SlotsBetween, Between;
    PresentBetween(Spans(t.partitions), ENTRY_COUNT, t.firstUsable, t.lastUsable + 1);
    PresentApart(Spans(t.partitions), ENTRY_COUNT);
  }

  function Unused(t: Table): seq<Extent> {
    Free(Present(Spans(t.partitions), ENTRY_COUNT), t.firstUsable, t.lastUsable + 1)
  }

  /** Free regions of a valid table: with the partitions they cover the usable range exactly once. */
  method TableFreeRegions(t: Table) returns (regions: Option<seq<Extent>>)
    ensures regions.Some? <==> ValidTable(t)
    ensures regions.Some? ==> regions.value == Unused(t)
    ensures regions.Some? ==> Between(regions.value, t.firstUsable, t.lastUsable + 1)
    ensures regions.Some? ==>
        Tiling(Present(Spans(t.partitions), ENTRY_COUNT), regions.value, t.firstUsable, t.lastUsable + 1)
  {
    hide Present, SlotsApart, SlotSound, OwnGuid, AllApart, Tiling, Between;
    var ok := ValidateTable(t);
    if !ok {
      return None;
    }
    ValidUsed(t);
    var sound, used := CheckSlots(t);
    FreeBetween(used, t.firstUsable, t.lastUsable + 1);
    FreeTiles(used, t.firstUsable, t.lastUsable + 1);
    var found := FreeRegions(used, t.firstUsable, t.lastUsable + 1);
    return Some(found);
  }

  /** What a new partition is offered: a largest stretch after alignment, inside one free region. */
  ghost predicate Offered(t: Table, x: Extent) {
    && t.firstUsable <= x.start < x.end <= t.lastUsable + 1
    && ApartFrom(x, Present(Spans(t.partitions), ENTRY_COUNT))
  }

  /** The first of the largest candidates; empty when nothing is free. */
  function Offer(t: Table): Extent {
    Best(Unused(t), t.firstUsable, |Unused(t)|)
  }

  lemma OfferIsLargest(t: Table)
    requires ValidTable(t)
    ensures Size(Offer(t)) >= 0
    ensures Size(Offer(t)) > 0 ==> Offered(t, Offer(t))
    ensures Size(Offer(t)) > 0 ==> WellAligned(Offer(t))
    ensures MostRoom(Present(Spans(t.partitions), ENTRY_COUNT), t.firstUsable, t.lastUsable + 1, Offer(t))
    ensures Size(Offer(t)) == 0
      <==> Tiling(Present(Spans(t.partitions), ENTRY_COUNT), [], t.firstUsable, t.lastUsable + 1)
  {
    ValidUsed(t);
    hide Present, AllApart, ApartFrom, MostRoom, WellAligned, Tiling, Between, Free, Best;
    BestIsLargest(Present(Spans(t.partitions), ENTRY_COUNT), t.firstUsable, t.lastUsable + 1, t.firstUsable, Offer(t));
  }

  method SuggestRegion(t: Table) returns (best: Option<Extent>)
    requires ValidTable(t)
    ensures best == if Size(Offer(t)) == 0 then None else Some(Offer(t))
  {
    hide Free, Best;
    var regions := TableFreeRegions(t);
    var largest := Suggest(regions.value, t.firstUsable);
    return if Size(largest) == 0 then None else Some(largest);
  }

  /** A free slot filled with an offered range and a new identity leaves a valid table valid. */
  lemma OfferedIsValid(t: Table, slot: nat, p: Partition)
    requires ValidTable(t) && slot < ENTRY_COUNT && t.partitions[slot].Empty()
    requires !p.Empty() && p.start <= p.end && Offered(t, p.Span().value) && !AllZero(p.unique)
    requires p.unique !in GuidsOf(t.partitions, ENTRY_COUNT)
    ensures ValidTable(t.(partitions := t.partitions[slot := p]))
  {
    var t' := t.(partitions := t.partitions[slot := p]);
    forall i: nat | i < ENTRY_COUNT ensures SlotSound(t', i) && OwnGuid(t'.partitions, i) {
      assert SlotSound(t, i) && OwnGuid(t.partitions, i);
      GuidsSeen(t.partitions, ENTRY_COUNT, p.unique);
    }
    SlotsFill(Spans(t.partitions), slot, p.Span().value);
    assert Spans(t'.partitions) == Spans(t.partitions)[slot := p.Span()];
  }
}
