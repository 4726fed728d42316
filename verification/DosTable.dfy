/** The four primary slots of a DOS partition table: validation, free space, order, and the boot record. */
module DosTable {
  import opened Bits
  import opened ByteBuffers
  import opened Extents
  import opened Outcomes
  import Sorting

  const UINT32 := 0x1_0000_0000

  type uint32 = x: int | 0 <= x < UINT32
  /** A partition; it is absent when its size is zero. */
  datatype Partition = Partition(start: uint32, size: uint32, kind: byte, bootable: bool) {
    function Span(): Option<Extent> {
      if size == 0 then None else Some(Extent(start, start + size))
    }

    predicate Extended() {
      size != 0 && ExtendedType(kind)
    }
  }

  const NONE := Partition(0, 0, 0, false)

  type Slots = s: seq<Partition> | |s| == 4 witness [NONE, NONE, NONE, NONE]

  predicate ExtendedType(kind: byte) {
    kind == 0x05 || kind == 0x0f || kind == 0x85
  }

  // ----- Validation

  function Spans(parts: seq<Partition>): (s: seq<Option<Extent>>)
    ensures |s| == |parts| && forall i :: 0 <= i < |parts| ==> s[i] == parts[i].Span()
  {
    if parts == [] then [] else Spans(parts[..|parts| - 1]) + [parts[|parts| - 1].Span()]
  }

  predicate PartSound(p: Partition, sectors: nat) {
    p.size == 0 || (p.start != 0 && p.kind != 0 && p.start + p.size <= sectors)
  }

  ghost predicate OneExtended(parts: seq<Partition>, n: nat)
    requires n <= |parts|
  {
    forall i, j :: 0 <= i < j < n && parts[i].Extended() ==> !parts[j].Extended()
  }

  ghost predicate ValidParts(parts: Slots, sectors: nat) {
    && (forall i :: 0 <= i < 4 ==> PartSound(parts[i], sectors))
    && OneExtended(parts, 4) && SlotsApart(Spans(parts), 4)
  }

  lemma SoundBetween(parts: seq<Partition>, n: nat, sectors: nat)
    requires n <= |parts| && forall i :: 0 <= i < n ==> PartSound(parts[i], sectors)
    ensures SlotsBetween(Spans(parts), n, 1, sectors)
  {
  }

  lemma PresentNext(parts: seq<Partition>, i: nat)
    requires i < |parts|
    ensures Present(Spans(parts), i + 1)
      == Present(Spans(parts), i) + (if parts[i].size == 0 then [] else [parts[i].Span().value])
  {
  }

  lemma NonePresent(parts: seq<Partition>)
    ensures Present(Spans(parts), 0) == []
  {
  }

  /** The loop over the slots: each sound, at most one extended. */
  method CheckSlots(parts: Slots, sectors: uint64) returns (ok: bool, used: seq<Extent>)
    ensures ok <==> (forall i :: 0 <= i < 4 ==> PartSound(parts[i], sectors)) && OneExtended(parts, 4)
    ensures ok ==> used == Present(Spans(parts), 4)
  {
    hide Present;
    used := [];
    var extendedSeen := false;
    NonePresent(parts);
    for i: nat := 0 to 4
      invariant forall j :: 0 <= j < i ==> PartSound(parts[j], sectors)
      invariant OneExtended(parts, i) && (extendedSeen <==> exists j :: 0 <= j < i && parts[j].Extended())
      invariant used == Present(Spans(parts), i)
    {
      PresentNext(parts, i);
      var p := parts[i];
      if p.size != 0 {
        if p.start == 0 || p.kind == 0 {
          assert !PartSound(parts[i], sectors);
          return false, used;
        }
        if ExtendedType(p.kind) {
          if extendedSeen {
            assert parts[i].Extended();
            return false, used;
          }
          extendedSeen := true;
          assert parts[i].Extended();
        }
        if p.start + p.size > sectors {
          assert !PartSound(parts[i], sectors);
          return false, used;
        }
        used := used + [Extent(p.start, p.start + p.size)];
      } else {
        assert used + [] == used;
      }
    }
    ok := true;
  }

  method ValidateParts(parts: Slots, sectors: uint64) returns (ok: bool)
    ensures ok <==> ValidParts(parts, sectors)
  {
    hide Present, SlotsApart, AllApart, OneExtended, PartSound;
    var sound, used := CheckSlots(parts, sectors);
    if !sound {
      return false;
    }
    SoundBetween(parts, 4, sectors);
    PresentBetween(Spans(parts), 4, 1, sectors);
    PresentApart(Spans(parts), 4);
    ok := CheckApart(used, 1, sectors);
  }

  // ----- Free space

  lemma ValidUsed(parts: Slots, sectors: nat)
    requires ValidParts(parts, sectors)
    ensures Between(Present(Spans(parts), 4), 1, sectors) && AllApart(Present(Spans(parts), 4))
  {
    SoundBetween(parts, 4, sectors);
    hide Present, SlotsApart, AllApart, OneExtended, PartSound, SlotsBetween, Between;
    PresentBetween(Spans(parts), 4, 1, sectors);
    PresentApart(Spans(parts), 4);
  }

  function Unused(parts: Slots, sectors: nat): seq<Extent> {
    Free(Present(Spans(parts), 4), 1, sectors)
  }

  /** Free regions: with the partitions they cover every sector after the boot record exactly once. */
  method PartsFreeRegions(parts: Slots, sectors: uint64) returns (regions: Option<seq<Extent>>)
    requires sectors >= 1
    ensures regions.Some? <==> ValidParts(parts, sectors)
    ensures regions.Some? ==> regions.value == Unused(parts, sectors)
    ensures regions.Some? ==>
        Between(regions.value, 1, sectors) && Tiling(Present(Spans(parts), 4), regions.value, 1, sectors)
  {
    hide Present, SlotsApart, AllApart, OneExtended, PartSound, Tiling, Between;
    var ok := ValidateParts(parts, sectors);
    if !ok {
      return None;
    }
    ValidUsed(parts, sectors);
    var sound, used := CheckSlots(parts, sectors);
    FreeBetween(used, 1, sectors);
    FreeTiles(used, 1, sectors);
    var found := FreeRegions(used, 1, sectors);
    return Some(found);
  }

  ghost predicate Offered(parts: Slots, sectors: nat, x: Extent) {
    1 <= x.start < x.end <= sectors && ApartFrom(x, Present(Spans(parts), 4))
  }

  /** The first of the largest candidates; empty when nothing is free. */
  function Offer(parts: Slots, sectors: nat): Extent {
    Best(Unused(parts, sectors), 2048, |Unused(parts, sectors)|)
  }

  lemma OfferIsLargest(parts: Slots, sectors: uint64)
    requires ValidParts(parts, sectors) && sectors >= 1
    ensures Size(Offer(parts, sectors)) >= 0
    ensures Size(Offer(parts, sectors)) > 0 ==> Offered(parts, sectors, Offer(parts, sectors))
    ensures Size(Offer(parts, sectors)) > 0 ==> WellAligned(Offer(parts, sectors))
    ensures MostRoom(Present(Spans(parts), 4), 1, sectors, Offer(parts, sectors))
    ensures Size(Offer(parts, sectors)) == 0 <==> Tiling(Present(Spans(parts), 4), [], 1, sectors)
  {
    ValidUsed(parts, sectors);
    hide Present, AllApart, ApartFrom, MostRoom, WellAligned, Tiling, Between, Free, Best;
    BestIsLargest(Present(Spans(parts), 4), 1, sectors, 2048, Offer(parts, sectors));
  }

  method SuggestRegion(parts: Slots, sectors: uint64) returns (best: Option<Extent>)
    requires ValidParts(parts, sectors) && sectors >= 1
    ensures best == if Size(Offer(parts, sectors)) == 0 then None else Some(Offer(parts, sectors))
  {
    hide Free, Best;
    var regions := PartsFreeRegions(parts, sectors);
    var largest := Suggest(regions.value, 2048);
    return if Size(largest) == 0 then None else Some(largest);
  }

  /** A free slot filled with an offered range leaves a valid table valid. */
  lemma OfferedIsValid(parts: Slots, sectors: nat, slot: nat, p: Partition)
    requires ValidParts(parts, sectors) && slot < 4 && parts[slot].size == 0
    requires p.size != 0 && p.kind != 0 && !ExtendedType(p.kind) && Offered(parts, sectors, p.Span().value)
    ensures ValidParts(parts[slot := p], sectors)
  {
    SlotsFill(Spans(parts), slot, p.Span().value);
    assert Spans(parts[slot := p]) == Spans(parts)[slot := p.Span()];
  }

  // ----- Order

  /** The present partitions among the first `n` slots. */
  function InUse(parts: seq<Partition>, n: nat): (s: seq<Partition>)
    requires n <= |parts|
    ensures |s| <= n
  {
    if n == 0 then [] else InUse(parts, n - 1) + (if parts[n - 1].size == 0 then [] else [parts[n - 1]])
  }

  predicate StartsFirst(p: Partition, q: Partition) {
    p.start <= q.start
  }

  lemma StartsFirstOrders()
    ensures Sorting.TotalPreorder(StartsFirst)
  {
  }

  function Absent(n: nat): (s: seq<Partition>)
    ensures |s| == n && forall k :: 0 <= k < n ==> s[k] == NONE
  {
    if n == 0 then [] else Absent(n - 1) + [NONE]
  }

  /** Stable order by start, packed into the first slots. */
  function SortedParts(parts: Slots): Slots {
    StartsFirstOrders();
    Sorting.SortCorrect(InUse(parts, 4), StartsFirst);
    Sorting.Sort(InUse(parts, 4), StartsFirst) + Absent(4 - |InUse(parts, 4)|)
  }

  lemma {:induction false} InUseAll(parts: seq<Partition>, n: nat)
    requires n <= |parts|
    ensures forall p :: p in InUse(parts, n) <==> p.size != 0 && exists i :: 0 <= i < n && parts[i] == p
  {
    if n > 0 {
      InUseAll(parts, n - 1);
    }
  }

  /** What two slots of a valid table cannot share. */
  ghost predicate Compatible(p: Partition, q: Partition) {
    p.size != 0 && q.size != 0 && Apart(p.Span().value, q.Span().value) && !(p.Extended() && q.Extended())
  }

  lemma SlotsCompatible(parts: Slots, sectors: nat, i: nat, j: nat)
    requires ValidParts(parts, sectors) && i < 4 && j < 4 && i != j && parts[i].size != 0 && parts[j].size != 0
    ensures Compatible(parts[i], parts[j]) && parts[i] != parts[j]
  {
    assert Spans(parts)[i].Some? && Spans(parts)[j].Some?;
  }

  lemma {:induction false} InUseCount(parts: Slots, sectors: nat, n: nat, p: Partition)
    requires ValidParts(parts, sectors) && n <= 4
    ensures multiset(InUse(parts, n))[p] <= 1
    ensures multiset(InUse(parts, n))[p] == 1 ==> exists i: nat :: i < n && parts[i] == p && p.size != 0
  {
    if n > 0 {
      InUseCount(parts, sectors, n - 1, p);
      if parts[n - 1] == p && p.size != 0 && multiset(InUse(parts, n - 1))[p] == 1 {
        var i: nat :| i < n - 1 && parts[i] == p && p.size != 0;
        SlotsCompatible(parts, sectors, i, n - 1);
      }
    }
  }

  /** A permuted partition comes from a slot. */
  lemma FromSlot(parts: Slots, sectors: nat, r: seq<Partition>, i: nat) returns (a: nat)
    requires ValidParts(parts, sectors) && multiset(r) == multiset(InUse(parts, 4)) && i < |r|
    ensures a < 4 && parts[a] == r[i] && r[i].size != 0
  {
    InUseCount(parts, sectors, 4, r[i]);
    assert r[i] in multiset(r);
    a :| 0 <= a < 4 && parts[a] == r[i] && r[i].size != 0;
  }

  lemma PlacesCompatible(parts: Slots, sectors: nat, r: seq<Partition>, i: nat, j: nat)
    requires ValidParts(parts, sectors) && multiset(r) == multiset(InUse(parts, 4)) && i < j < |r|
    ensures Compatible(r[i], r[j])
  {
    var a := FromSlot(parts, sectors, r, i);
    var b := FromSlot(parts, sectors, r, j);
    if a == b {
      InUseCount(parts, sectors, 4, r[i]);
      Sorting.TwoPlaces(r, i, j);
    } else {
      SlotsCompatible(parts, sectors, a, b);
    }
  }

  ghost predicate AllCompatible(r: seq<Partition>) {
    forall i, j :: 0 <= i < j < |r| ==> Compatible(r[i], r[j])
  }

  ghost predicate AllSound(r: seq<Partition>, sectors: nat) {
    forall k :: 0 <= k < |r| ==> PartSound(r[k], sectors) && r[k].size != 0
  }

  lemma PermutedCompatible(parts: Slots, sectors: nat, r: seq<Partition>)
    requires ValidParts(parts, sectors) && multiset(r) == multiset(InUse(parts, 4))
    ensures AllCompatible(r) && AllSound(r, sectors)
  {
    hide Compatible;
    forall i, j | 0 <= i < j < |r| ensures Compatible(r[i], r[j]) {
      PlacesCompatible(parts, sectors, r, i, j);
    }
    forall k | 0 <= k < |r| ensures PartSound(r[k], sectors) && r[k].size != 0 {
      var a := FromSlot(parts, sectors, r, k);
    }
  }

  lemma PackedSlots(r: seq<Partition>)
    requires |r| <= 4
    ensures forall k :: 0 <= k < 4 ==> (r + Absent(4 - |r|))[k] == if k < |r| then r[k] else NONE
  {
    var rest := Absent(4 - |r|);
    forall k | 0 <= k < 4 ensures (r + rest)[k] == if k < |r| then r[k] else NONE {
      if k >= |r| {
        assert rest[k - |r|] == NONE;
      }
    }
  }

  lemma PackedApart(r: seq<Partition>, all: Slots)
    requires AllCompatible(r) && |r| <= 4 && forall k :: 0 <= k < 4 ==> all[k] == if k < |r| then r[k] else NONE
    ensures OneExtended(all, 4) && SlotsApart(Spans(all), 4)
  {
    hide Compatible, AllCompatible;
    forall i, j | 0 <= i < j < 4
      ensures all[i].size != 0 && all[j].size != 0 ==> Compatible(all[i], all[j])
    {
      if j < |r| {
        CompatibleAt(r, i, j);
      }
    }
    CompatibleSlots(all);
  }

  lemma CompatibleAt(r: seq<Partition>, i: nat, j: nat)
    requires AllCompatible(r) && i < j < |r|
    ensures Compatible(r[i], r[j])
  {
  }

  lemma CompatibleSlots(all: Slots)
    requires forall i, j :: 0 <= i < j < 4 && all[i].size != 0 && all[j].size != 0 ==> Compatible(all[i], all[j])
    ensures OneExtended(all, 4) && SlotsApart(Spans(all), 4)
  {
  }

  lemma PackedValid(r: seq<Partition>, sectors: nat)
    requires AllCompatible(r) && AllSound(r, sectors) && |r| <= 4
    ensures ValidParts(r + Absent(4 - |r|), sectors)
  {
    hide AllCompatible, OneExtended, SlotsApart;
    PackedSlots(r);
    PackedApart(r, r + Absent(4 - |r|));
  }

  lemma {:induction false} PresentIs(r: seq<Partition>, parts: seq<Partition>, n: nat)
    requires |r| <= n <= |parts| && (forall k :: 0 <= k < |r| ==> r[k].size != 0 && parts[k] == r[k])
    requires forall k :: |r| <= k < n ==> parts[k].size == 0
    ensures InUse(parts, n) == r
    decreases n
  {
    if n > |r| {
      PresentIs(r, parts, n - 1);
      assert r + [] == r;
    } else if n > 0 {
      PresentIs(r[..n - 1], parts, n - 1);
      assert r == r[..n - 1] + [r[n - 1]];
    }
  }

  lemma SortedPartsAre(parts: Slots) returns (r: seq<Partition>)
    ensures |r| <= 4 && SortedParts(parts) == r + Absent(4 - |r|)
    ensures multiset(r) == multiset(InUse(parts, 4)) && Sorting.Sorted(r, StartsFirst)
  {
    hide InUse, Sorting.Sort, Sorting.Sorted, Sorting.TotalPreorder;
    StartsFirstOrders();
    Sorting.SortCorrect(InUse(parts, 4), StartsFirst);
    r := Sorting.Sort(InUse(parts, 4), StartsFirst);
  }

  lemma PackedInUse(r: seq<Partition>, sectors: nat)
    requires AllSound(r, sectors) && |r| <= 4
    ensures InUse(r + Absent(4 - |r|), 4) == r
  {
    hide InUse;
    PackedSlots(r);
    PresentIs(r, r + Absent(4 - |r|), 4);
  }

  /** Sorting keeps a table valid, and keeps its partitions, in start order. */
  lemma SortedPartsKeep(parts: Slots, sectors: nat)
    requires ValidParts(parts, sectors)
    ensures ValidParts(SortedParts(parts), sectors)
    ensures multiset(InUse(SortedParts(parts), 4)) == multiset(InUse(parts, 4))
    ensures Sorting.Sorted(InUse(SortedParts(parts), 4), StartsFirst)
  {
    hide ValidParts, InUse, Sorting.Sorted, AllCompatible, AllSound, SortedParts, Absent;
    var r := SortedPartsAre(parts);
    PermutedCompatible(parts, sectors, r);
    PackedValid(r, sectors);
    PackedInUse(r, sectors);
  }

  // ----- The boot record

  function EntryBytes(p: Partition): (e: seq<byte>)
    ensures |e| == 16
  {
    [if p.bootable then 0x80 else 0, 0xFE, 0xFF, 0xFF, p.kind, 0xFE, 0xFF, 0xFF] + Le(p.start, 4) + Le(p.size, 4)
  }

  function ReadEntry(e: seq<byte>): Partition
    requires |e| == 16
  {
    LeBound(Get(e, 8, 4));
    LeBound(Get(e, 12, 4));
    Pow256Values();
    var p := Partition(LeValue(Get(e, 8, 4)), LeValue(Get(e, 12, 4)), e[4], e[0] == 0x80);
    if p.size == 0 then NONE else p
  }

  /** The first `n` slots written over a cleared table. */
  function SlotsWritten(b: seq<byte>, parts: Slots, n: nat): (r: seq<byte>)
    requires |b| == SECTOR && n <= 4
    ensures |r| == SECTOR
  {
    if n == 0 then b
    else
      var r := SlotsWritten(b, parts, n - 1);
      if parts[n - 1].size == 0 then r else Put(r, 446 + 16 * (n - 1), EntryBytes(parts[n - 1]))
  }

  function MbrBytes(original: seq<byte>, parts: Slots): (b: seq<byte>)
    requires |original| == SECTOR
    ensures |b| == SECTOR
  {
    Put(SlotsWritten(Put(original, 446, Zeros(64)), parts, 4), 510, [0x55, 0xAA])
  }

  predicate Signed(b: seq<byte>)
    requires |b| == SECTOR
  {
    b[510] == 0x55 && b[511] == 0xAA
  }

  function ReadSlot(b: seq<byte>, i: nat): Partition
    requires |b| == SECTOR && i < 4
  {
    ReadEntry(Get(b, 446 + 16 * i, 16))
  }

  /** An absent partition as it is read. */
  function Normal(p: Partition): Partition {
    if p.size == 0 then NONE else p
  }

  lemma EntryRoundTrip(p: Partition)
    ensures ReadEntry(EntryBytes(p)) == Normal(p)
  {
    Pow256Values();
    LeRoundTrip(p.start, 4);
    LeRoundTrip(p.size, 4);
    hide Le, LeValue, Pow256;
    assert Get(EntryBytes(p), 8, 4) == Le(p.start, 4);
    assert Get(EntryBytes(p), 12, 4) == Le(p.size, 4);
  }

  lemma ZeroEntry(e: seq<byte>)
    requires e == Zeros(16)
    ensures ReadEntry(e) == NONE
  {
    assert Get(e, 12, 4) == Zeros(4);
    ZeroValue(4);
  }

  lemma {:induction false} ZeroValue(n: nat)
    ensures LeValue(Zeros(n)) == 0
  {
    if n > 0 {
      ZeroValue(n - 1);
      assert Zeros(n)[1..] == Zeros(n - 1);
    }
  }

  lemma WrittenStep(b: seq<byte>, parts: Slots, n: nat, at: nat, k: nat)
    requires |b| == SECTOR && 0 < n <= 4 && at + k <= SECTOR
    requires at + k <= 446 + 16 * (n - 1) || 446 + 16 * n <= at
    ensures Get(SlotsWritten(b, parts, n), at, k) == Get(SlotsWritten(b, parts, n - 1), at, k)
  {
    hide Put, Get, EntryBytes;
    PutField(SlotsWritten(b, parts, n - 1), 446 + 16 * (n - 1), EntryBytes(parts[n - 1]));
  }

  lemma WrittenSlot(b: seq<byte>, parts: Slots, n: nat)
    requires |b| == SECTOR && 0 < n <= 4
    ensures Get(SlotsWritten(b, parts, n), 446 + 16 * (n - 1), 16)
      == if parts[n - 1].size != 0 then EntryBytes(parts[n - 1])
         else Get(SlotsWritten(b, parts, n - 1), 446 + 16 * (n - 1), 16)
  {
    hide Put, Get, EntryBytes;
    PutField(SlotsWritten(b, parts, n - 1), 446 + 16 * (n - 1), EntryBytes(parts[n - 1]));
  }

  lemma {:induction false} SlotField(b: seq<byte>, parts: Slots, n: nat, i: nat)
    requires |b| == SECTOR && n <= 4 && i < 4 && Get(b, 446 + 16 * i, 16) == Zeros(16)
    ensures Get(SlotsWritten(b, parts, n), 446 + 16 * i, 16)
      == if i < n && parts[i].size != 0 then EntryBytes(parts[i]) else Zeros(16)
  {
    hide Put, Get, EntryBytes, Zeros;
    if n > 0 {
      SlotField(b, parts, n - 1, i);
      hide SlotsWritten;
      if i == n - 1 {
        WrittenSlot(b, parts, n);
      } else {
        WrittenStep(b, parts, n, 446 + 16 * i, 16);
      }
    }
  }

  lemma {:induction false} SlotsKeepCode(b: seq<byte>, parts: Slots, n: nat)
    requires |b| == SECTOR && n <= 4
    ensures Get(SlotsWritten(b, parts, n), 0, 446) == Get(b, 0, 446)
  {
    if n > 0 {
      SlotsKeepCode(b, parts, n - 1);
      WrittenStep(b, parts, n, 0, 446);
    }
  }

  lemma ClearedField(original: seq<byte>, i: nat)
    requires |original| == SECTOR && i < 4
    ensures Get(Put(original, 446, Zeros(64)), 446 + 16 * i, 16) == Zeros(16)
  {
  }

  lemma SignatureBytes(b: seq<byte>)
    requires |b| == SECTOR
    ensures Signed(Put(b, 510, [0x55, 0xAA]))
  {
  }

  /** Each slot is read back, the boot code is kept, and the record is signed. */
  lemma MbrRoundTrip(original: seq<byte>, parts: Slots, i: nat)
    requires |original| == SECTOR && i < 4
    ensures ReadSlot(MbrBytes(original, parts), i) == Normal(parts[i])
    ensures Get(MbrBytes(original, parts), 0, 446) == Get(original, 0, 446) && Signed(MbrBytes(original, parts))
  {
    var cleared := Put(original, 446, Zeros(64));
    var written := SlotsWritten(cleared, parts, 4);
    hide Put, Get, EntryBytes, SlotsWritten, ReadEntry, Zeros, Signed;
    ClearedField(original, i);
    PutField(original, 446, Zeros(64));
    SlotField(cleared, parts, 4, i);
    SlotsKeepCode(cleared, parts, 4);
    PutField(written, 510, [0x55, 0xAA]);
    SignatureBytes(written);
    EntryRoundTrip(parts[i]);
    ZeroEntry(Zeros(16));
  }

  /** The 16 bytes of a slot: zeros, or flag, type, start and size with the sentinels of addressing by sector. */
  ghost predicate EntryLayout(e: seq<byte>, p: Partition)
    requires |e| == 16
  {
    if p.size == 0 then AllZero(e)
    else
      && e[0] == (if p.bootable then 0x80 else 0) && e[4] == p.kind
      && e[1..4] == [0xFE, 0xFF, 0xFF] && e[5..8] == [0xFE, 0xFF, 0xFF]
      && LeValue(e[8..12]) == p.start && LeValue(e[12..16]) == p.size
  }

  /** A boot record: the code as it was, four slots, and the signature. */
  ghost predicate MbrLayout(b: seq<byte>, original: seq<byte>, parts: Slots) {
    && |b| == 512 && |original| == 512 && b[..446] == original[..446] && b[510] == 0x55 && b[511] == 0xAA
    && forall i: nat :: i < 4 ==> EntryLayout(b[446 + 16 * i..462 + 16 * i], parts[i])
  }

  lemma EntryBytesSay(p: Partition)
    requires p.size != 0
    ensures EntryLayout(EntryBytes(p), p)
  {
    Pow256Values();
    LeRoundTrip(p.start, 4);
    LeRoundTrip(p.size, 4);
    hide Le, LeValue, Pow256;
    var e := EntryBytes(p);
    assert e[8..12] == Le(p.start, 4) && e[12..16] == Le(p.size, 4);
  }

  lemma MbrSays(original: seq<byte>, parts: Slots)
    requires |original| == SECTOR
    ensures MbrLayout(MbrBytes(original, parts), original, parts)
  {
    MbrRoundTrip(original, parts, 0);
    var cleared := Put(original, 446, Zeros(64));
    var written, b := SlotsWritten(cleared, parts, 4), MbrBytes(original, parts);
    hide Put, EntryBytes, SlotsWritten, ReadEntry, Zeros, EntryLayout, AllZero;
    assert b[..446] == Get(b, 0, 446) && original[..446] == Get(original, 0, 446);
    forall i: nat | i < 4 ensures EntryLayout(b[446 + 16 * i..462 + 16 * i], parts[i]) {
      ClearedField(original, i);
      SlotField(cleared, parts, 4, i);
      PutField(written, 510, [0x55, 0xAA]);
      assert b[446 + 16 * i..462 + 16 * i] == Get(b, 446 + 16 * i, 16);
      if parts[i].size == 0 {
        EmptyEntry(parts[i]);
      } else {
        EntryBytesSay(parts[i]);
      }
    }
  }

  lemma EmptyEntry(p: Partition)
    requires p.size == 0
    ensures EntryLayout(Zeros(16), p)
  {
  }

  /** What a slot of a boot record is read as. */
  lemma SlotSays(b: seq<byte>, i: nat)
    requires |b| == 512 && i < 4
    ensures var e, p := b[446 + 16 * i..462 + 16 * i], ReadSlot(b, i);
      && p.size == LeValue(e[12..16])
      && (p.size == 0 ==> p.start == 0 && p.kind == 0 && !p.bootable)
      && (p.size != 0 ==> p.start == LeValue(e[8..12]) && p.kind == e[4] && (p.bootable <==> e[0] == 0x80))
  {
    hide LeValue, Pow256;
  }

  method BuildMbr(original: seq<byte>, parts: Slots) returns (sector: array<byte>)
    requires |original| == SECTOR
    ensures fresh(sector) && sector[..] == MbrBytes(original, parts) && MbrLayout(sector[..], original, parts)
  {
    hide Put, EntryBytes, MbrLayout;
    sector := new byte[SECTOR](i requires 0 <= i < SECTOR => original[i]);
    assert sector[..] == original;
    PutBytes(sector, 446, Zeros(64));
    ghost var cleared := sector[..];
    for i: nat := 0 to 4
      invariant sector.Length == SECTOR && sector[..] == SlotsWritten(cleared, parts, i)
    {
      if parts[i].size != 0 {
        PutBytes(sector, 446 + 16 * i, EntryBytes(parts[i]));
      }
    }
    PutBytes(sector, 510, [0x55, 0xAA]);
    MbrSays(original, parts);
  }
}
