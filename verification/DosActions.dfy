/** What the actions on a DOS partition table do, and what they keep. */
module DosActions {
  import opened Bits
  import opened ByteBuffers
  import opened Extents
  import opened DosTable
  import opened Logicals
  import opened EbrChain
  import opened Disks
  import opened Outcomes
  import opened Prompts
  import Sorting

  /** What came back from the prompt for a type: nothing, a malformed number, or a byte. */
  datatype TypeAnswer = NoType | BadType | Type(kind: byte)

  const LINUX: byte := 0x83

  /** The first extended slot, or 4. */
  function FindExtended(parts: seq<Partition>, i: nat): (k: nat)
    requires i <= |parts|
    ensures i <= k <= |parts| && (k < |parts| ==> parts[k].Extended())
    ensures forall j :: i <= j < k ==> !parts[j].Extended()
    decreases |parts| - i
  {
    if i == |parts| || parts[i].Extended() then i else FindExtended(parts, i + 1)
  }

  /** The extended partition, if there is one. */
  function Container(parts: Slots): Option<Partition> {
    var k := FindExtended(parts, 0);
    if k == 4 then None else Some(parts[k])
  }

  /** Logical partitions need a container, lie in it, and are kept in start order. */
  ghost predicate LogicalsFit(container: Option<Partition>, logical: seq<Logical>) {
    match container
    case None => logical == []
    case Some(extended) => ValidLogicals(extended, logical) && InOrder(logical)
  }

  ghost predicate Canonical(parts: Slots) {
    forall i :: 0 <= i < 4 && parts[i].size == 0 ==> parts[i] == NONE
  }

  /** What every action keeps. */
  ghost predicate Sound(parts: Slots, logical: seq<Logical>, sectors: nat) {
    ValidParts(parts, sectors) && Canonical(parts) && LogicalsFit(Container(parts), logical)
  }

  /** Four primary rows, then the logical partitions, then a row for free space in the container. */
  ghost function RowCount(parts: Slots, logical: seq<Logical>): nat {
    match Container(parts)
    case None => 4
    case Some(extended) => 4 + |logical| + (if HasRoom(Regions(extended, logical)) then 1 else 0)
  }

  ghost function FirstFree(parts: seq<Partition>, i: nat): (k: nat)
    requires i <= |parts|
    ensures i <= k <= |parts| && (k < |parts| ==> parts[k].size == 0) && forall j :: i <= j < k ==> parts[j].size != 0
    decreases |parts| - i
  {
    if i == |parts| || parts[i].size == 0 then i else FirstFree(parts, i + 1)
  }

  ghost function TargetSlot(parts: Slots, selected: nat): nat
    requires selected < 4
  {
    if parts[selected].size == 0 then selected else FirstFree(parts, 0)
  }

  // ----- What changes keep

  /** The container depends only on which partitions are extended. */
  lemma ContainerIs(parts: Slots, sectors: nat, i: nat)
    requires ValidParts(parts, sectors) && i < 4 && parts[i].Extended()
    ensures Container(parts) == Some(parts[i])
  {
    var k := FindExtended(parts, 0);
    assert k <= i;
  }

  lemma NoContainer(parts: Slots)
    requires forall i :: 0 <= i < 4 ==> !parts[i].Extended()
    ensures Container(parts) == None
  {
  }

  /** Changing one slot between partitions that are not extended leaves the container. */
  lemma ContainerKept(parts: Slots, sectors: nat, slot: nat, p: Partition)
    requires ValidParts(parts, sectors) && slot < 4 && !parts[slot].Extended() && !p.Extended()
    ensures Container(parts[slot := p]) == Container(parts)
  {
    var after := parts[slot := p];
    var k, k' := FindExtended(parts, 0), FindExtended(after, 0);
    assert k < 4 ==> after[k] == parts[k];
    assert k' < 4 ==> after[k'] == parts[k'];
  }

  lemma ClearedValid(parts: Slots, sectors: nat, slot: nat)
    requires ValidParts(parts, sectors) && Canonical(parts) && slot < 4
    ensures ValidParts(parts[slot := NONE], sectors) && Canonical(parts[slot := NONE])
  {
    assert forall i :: 0 <= i < 4 ==> Spans(parts[slot := NONE])[i] == if i == slot then None else Spans(parts)[i];
  }

  /** Deleting the container leaves none. */
  lemma ClearedContainer(parts: Slots, sectors: nat, slot: nat)
    requires ValidParts(parts, sectors) && slot < 4
    ensures Container(parts[slot := NONE]) == if parts[slot].Extended() then None else Container(parts)
  {
    if parts[slot].Extended() {
      var after := parts[slot := NONE];
      assert forall i :: 0 <= i < 4 && i != slot ==> after[i] == parts[i];
      NoContainer(after);
    } else {
      ContainerKept(parts, sectors, slot, NONE);
    }
  }

  /** A change of type or flag keeps the table valid when it makes no second container. */
  lemma RelabelledValid(parts: Slots, sectors: nat, slot: nat, kind: byte, bootable: bool)
    requires ValidParts(parts, sectors) && Canonical(parts) && slot < 4 && parts[slot].size != 0 && kind != 0
    requires ExtendedType(kind) ==> parts[slot].Extended() || Container(parts).None?
    ensures var after := parts[slot := parts[slot].(kind := kind, bootable := bootable)];
      ValidParts(after, sectors) && Canonical(after)
  {
    var after := parts[slot := parts[slot].(kind := kind, bootable := bootable)];
    assert Spans(after) == Spans(parts);
    assert forall i :: 0 <= i < 4 && i != slot ==> after[i] == parts[i];
    if ExtendedType(kind) && !parts[slot].Extended() {
      assert forall i :: 0 <= i < 4 ==> !parts[i].Extended();
    }
  }

  lemma ValidRetyped(extended: Partition, kind: byte, bootable: bool, logical: seq<Logical>)
    ensures ValidLogicals(extended.(kind := kind, bootable := bootable), logical) <==> ValidLogicals(extended, logical)
  {
    var other := extended.(kind := kind, bootable := bootable);
    assert forall i :: 0 <= i < |logical| ==> (LogicalSound(extended, logical[i]) <==> LogicalSound(other, logical[i]));
  }

  /** A logical partition is changed in type or flag only. */
  lemma RelabelledLogical(extended: Partition, logical: seq<Logical>, i: nat, kind: byte,
      bootable: bool)
    requires ValidLogicals(extended, logical) && InOrder(logical) && i < |logical| && kind != 0 && !ExtendedType(kind)
    ensures var after := logical[i := logical[i].(part := logical[i].part.(kind := kind, bootable := bootable))];
      ValidLogicals(extended, after) && InOrder(after)
  {
    var after := logical[i := logical[i].(part := logical[i].part.(kind := kind, bootable := bootable))];
    forall k | 0 <= k < |after| ensures LogicalSound(extended, after[k]) {
      assert LogicalSound(extended, logical[k]);
    }
    assert Used(after) == Used(logical);
  }

  /** The container is the same partition after a sort. */
  lemma SortedContainer(parts: Slots, sectors: nat)
    requires ValidParts(parts, sectors)
    ensures Container(SortedParts(parts)) == Container(parts)
  {
    SortedPartsKeep(parts, sectors);
    var after := SortedParts(parts);
    Sorting.SameMembers(InUse(parts, 4), InUse(after, 4));
    hide SortedParts, InUse, Sorting.Sorted;
    InUseAll(parts, 4);
    InUseAll(after, 4);
    var k, k' := FindExtended(parts, 0), FindExtended(after, 0);
    if k < 4 {
      assert parts[k] in InUse(after, 4);
      var i: nat :| i < 4 && after[i] == parts[k];
      ContainerIs(after, sectors, i);
    }
    if k' < 4 {
      assert after[k'] in InUse(parts, 4);
      var i: nat :| i < 4 && parts[i] == after[k'];
      ContainerIs(parts, sectors, i);
    }
  }

  lemma SortedCanonical(parts: Slots, sectors: nat)
    requires ValidParts(parts, sectors)
    ensures Canonical(SortedParts(parts))
  {
    var r := SortedPartsAre(parts);
    hide SortedParts, ValidParts, Sorting.Sorted;
    PermutedCompatible(parts, sectors, r);
    PackedSlots(r);
  }

  /** A present partition is found again after a sort. */
  lemma SortedHas(parts: Slots, sectors: nat, slot: nat) returns (k: nat)
    requires ValidParts(parts, sectors) && slot < 4 && parts[slot].size != 0
    ensures k < 4 && SortedParts(parts)[k] == parts[slot]
  {
    SortedPartsKeep(parts, sectors);
    var after := SortedParts(parts);
    Sorting.SameMembers(InUse(parts, 4), InUse(after, 4));
    hide SortedParts, InUse, Sorting.Sorted, ValidParts;
    InUseAll(parts, 4);
    InUseAll(after, 4);
    assert parts[slot] in InUse(after, 4);
    k :| 0 <= k < 4 && after[k] == parts[slot];
  }

  // ----- Actions

  predicate Answered(answer: Answer) {
    answer.Blank? || answer.Number?
  }

  /** The partition that the answers ask for, where a blank one takes the offer, if the 32-bit fields can hold it. */
  function Asked(offer: Extent, start: Answer, size: Answer): Option<Partition> {
    var first, length := if start.Number? then start.n else offer.start, if size.Number? then size.n else Size(offer);
    if Answered(start) && Answered(size) && 0 < first < UINT32 && 0 < length < UINT32 then
      Some(Partition(first, length, LINUX, false))
    else None
  }

  /** A slot and a sector are free, and the partition asked for leaves the table valid. */
  ghost predicate CanCreate(parts: Slots, sectors: nat, selected: nat, start: Answer, size: Answer)
    requires selected < 4
  {
    var slot, p := TargetSlot(parts, selected), Asked(Offer(parts, sectors), start, size);
    slot < 4 && Size(Offer(parts, sectors)) > 0 && p.Some? && ValidParts(parts[slot := p.value], sectors)
  }

  /** Taking both offers works exactly when a slot is free and what is free can be addressed. */
  lemma OfferCanBeTaken(parts: Slots, sectors: uint64, selected: nat)
    requires ValidParts(parts, sectors) && sectors >= 1 && selected < 4
    ensures CanCreate(parts, sectors, selected, Blank, Blank)
      <==> (TargetSlot(parts, selected) < 4 && !Tiling(Present(Spans(parts), 4), [], 1, sectors)
        && Offer(parts, sectors).start < UINT32 && Size(Offer(parts, sectors)) < UINT32)
  {
    hide Tiling, Present, Offer, ValidParts, MostRoom, WellAligned, ApartFrom, TargetSlot;
    var slot, x := TargetSlot(parts, selected), Offer(parts, sectors);
    OfferIsLargest(parts, sectors);
    if slot < 4 && 0 < Size(x) < UINT32 && x.start < UINT32 {
      TargetFree(parts, selected);
      OfferedIsValid(parts, sectors, slot, Partition(x.start, Size(x), LINUX, false));
    }
  }

  lemma TargetFree(parts: Slots, selected: nat)
    requires selected < 4 && TargetSlot(parts, selected) < 4
    ensures parts[TargetSlot(parts, selected)].size == 0
  {
  }

  function SetSize(p: Partition, size: uint32): Partition {
    p.(size := size)
  }

  /** The size fits, leaves both tables valid, and differs. */
  ghost predicate CanResize(parts: Slots, logical: seq<Logical>, sectors: nat, slot: nat, size: Answer) {
    && slot < 4 && parts[slot].size != 0 && size.Number? && 0 < size.n < UINT32 && size.n != parts[slot].size
    && ValidParts(parts[slot := SetSize(parts[slot], size.n)], sectors)
    && (parts[slot].Extended() ==> ValidLogicals(SetSize(parts[slot], size.n), logical))
  }

  function SetLogicalSize(logical: seq<Logical>, i: nat, size: uint32): seq<Logical>
    requires i < |logical|
  {
    logical[i := logical[i].(part := SetSize(logical[i].part, size))]
  }

  ghost predicate CanResizeLogical(extended: Partition, logical: seq<Logical>, i: nat, size: Answer) {
    i < |logical| && size.Number? && 0 < size.n < UINT32 && ValidLogicals(extended, SetLogicalSize(logical, i, size.n))
  }

  lemma ResizedSound(parts: Slots, logical: seq<Logical>, sectors: nat, slot: nat, size: Answer)
    requires Sound(parts, logical, sectors) && CanResize(parts, logical, sectors, slot, size)
    ensures Sound(parts[slot := SetSize(parts[slot], size.n)], logical, sectors)
  {
    var after := parts[slot := SetSize(parts[slot], size.n)];
    hide ValidLogicals, InOrder, SlotsApart, AllApart;
    if parts[slot].Extended() {
      ContainerIs(parts, sectors, slot);
      ContainerIs(after, sectors, slot);
    } else {
      ContainerKept(parts, sectors, slot, after[slot]);
    }
  }

  lemma RelabelledSound(parts: Slots, logical: seq<Logical>, sectors: nat, slot: nat, kind: byte,
      bootable: bool)
    requires Sound(parts, logical, sectors) && slot < 4 && parts[slot].size != 0 && kind != 0
    requires ExtendedType(kind) ==> parts[slot].Extended() || Container(parts).None?
    requires parts[slot].Extended() ==> ExtendedType(kind) || logical == []
    ensures Sound(parts[slot := parts[slot].(kind := kind, bootable := bootable)], logical, sectors)
  {
    var p := parts[slot].(kind := kind, bootable := bootable);
    RelabelledValid(parts, sectors, slot, kind, bootable);
    hide ValidLogicals, InOrder, SlotsApart, AllApart, PartSound;
    if p.Extended() {
      ContainerIs(parts[slot := p], sectors, slot);
      if parts[slot].Extended() {
        ContainerIs(parts, sectors, slot);
        ValidRetyped(parts[slot], kind, bootable, logical);
      } else {
        NoLogicalsValid(p);
      }
    } else if parts[slot].Extended() {
      ContainerIs(parts, sectors, slot);
      assert forall i :: 0 <= i < 4 && i != slot ==> parts[slot := p][i] == parts[i];
      NoContainer(parts[slot := p]);
    } else {
      ContainerKept(parts, sectors, slot, p);
    }
  }

  lemma SoundValid(parts: Slots, logical: seq<Logical>, sectors: nat)
    requires Sound(parts, logical, sectors)
    ensures ValidParts(parts, sectors)
  {
    hide ValidParts, LogicalsFit;
  }

  lemma FilledSound(parts: Slots, logical: seq<Logical>, sectors: nat, slot: nat, p: Partition)
    requires Sound(parts, logical, sectors) && slot < 4 && parts[slot].size == 0 && p.size != 0 && !p.Extended()
    requires ValidParts(parts[slot := p], sectors)
    ensures Sound(parts[slot := p], logical, sectors)
  {
    hide ValidParts, LogicalsFit;
    ContainerKept(parts, sectors, slot, p);
  }

  lemma ClearedSound(parts: Slots, logical: seq<Logical>, sectors: nat, slot: nat)
    requires Sound(parts, logical, sectors) && slot < 4
    ensures Sound(parts[slot := NONE], if parts[slot].Extended() then [] else logical, sectors)
  {
    ClearedValid(parts, sectors, slot);
    ClearedContainer(parts, sectors, slot);
    hide ValidParts, ValidLogicals;
  }

  lemma SortedSound(parts: Slots, logical: seq<Logical>, sectors: nat)
    requires Sound(parts, logical, sectors)
    ensures Sound(SortedParts(parts), logical, sectors)
  {
    hide ValidParts, LogicalsFit, SortedParts, InUse, Canonical, Container;
    SortedPartsKeep(parts, sectors);
    SortedContainer(parts, sectors);
    SortedCanonical(parts, sectors);
  }

  /** The first slot that holds this partition. */
  method FindPart(parts: Slots, p: Partition) returns (i: nat)
    requires p in parts
    ensures i < 4 && parts[i] == p
  {
    i := 0;
    while parts[i] != p
      invariant i < 4 && exists j :: i <= j < 4 && parts[j] == p
      decreases 4 - i
    {
      i := i + 1;
    }
  }

  // ----- Logical actions

  /** The size that a blank answer stands for: what was offered, or the rest of the container. */
  function DefaultSize(extended: Partition, best: Region, first: nat): int {
    if first == best.dataStart then best.dataSize else End(extended) - first
  }

  /** The logical partition that the answers ask for, its boot record at the front of the gap it falls into. */
  function AskedLogical(extended: Partition, logical: seq<Logical>, start: Answer, size: Answer): Option<Logical> {
    var best := Suggested(extended, logical);
    if best.None? || !Answered(start) || !Answered(size) then None
    else
      var first := if start.Number? then start.n else best.value.dataStart;
      var length := if size.Number? then size.n else DefaultSize(extended, best.value, first);
      var front := FrontIn(Regions(extended, logical), first);
      if front.Some? && front.value < UINT64 && 0 < first < UINT32 && 0 < length < UINT32 then
        Some(Logical(Partition(first, length, LINUX, false), front.value))
      else None
  }

  /** The partition asked for can join the list. */
  ghost predicate CanCreateLogical(extended: Partition, logical: seq<Logical>, start: Answer, size: Answer) {
    var l := AskedLogical(extended, logical, start, size);
    l.Some? && ValidLogicals(extended, logical + [l.value])
  }

  /** Taking both offers works exactly when a gap has an aligned sector and its data can be addressed. */
  lemma LogicalOfferCanBeTaken(extended: Partition, logical: seq<Logical>)
    requires ValidLogicals(extended, logical)
    ensures CanCreateLogical(extended, logical, Blank, Blank)
      <==> (HasRoom(Regions(extended, logical)) && Suggested(extended, logical).value.dataStart < UINT32)
  {
    hide ValidLogicals, Regions, FrontOf;
    var best := Suggested(extended, logical);
    if best.Some? && best.value.dataStart < UINT32 {
      SuggestedInGap(extended, logical);
      DefaultFits(extended, logical, FrontIn(Regions(extended, logical), best.value.dataStart).value);
    }
  }

  /** The first entry that starts at `start`. */
  method FindStart(list: seq<Logical>, start: nat) returns (i: nat)
    requires exists k :: 0 <= k < |list| && list[k].part.start == start
    ensures i < |list| && list[i].part.start == start
  {
    i := 0;
    while list[i].part.start != start
      invariant i < |list| && exists k :: i <= k < |list| && list[k].part.start == start
      decreases |list| - i
    {
      i := i + 1;
    }
  }

  /** The default size, and the region it fits. */
  lemma DefaultFits(extended: Partition, logical: seq<Logical>, ebr: nat)
    requires ValidLogicals(extended, logical)
    requires Suggested(extended, logical).Some? && Suggested(extended, logical).value.dataStart < UINT32
    requires FrontOf(Regions(extended, logical), Suggested(extended, logical).value.dataStart, ebr)
    ensures var best := Suggested(extended, logical).value;
      && 0 < best.dataStart && 0 < best.dataSize < UINT32 && ebr < UINT64
      && ValidLogicals(extended, logical + [Logical(Partition(best.dataStart, best.dataSize, LINUX, false), ebr)])
  {
    var regions, best := Regions(extended, logical), Suggested(extended, logical).value;
    var k := RoomiestLeads(regions, |regions|);
    hide Regions, Suggested, ValidLogicals, Roomiest;
    var j: nat :| j < |regions| && InGap(regions[j], best.dataStart) && regions[j].start == ebr;
    RegionsInside(extended, logical, k);
    RegionFits(extended, regions[k]);
    GapUnique(extended, logical, j, k, best.dataStart);
    InGapIsValid(extended, logical, k, Logical(Partition(best.dataStart, best.dataSize, LINUX, false), ebr));
  }

  /** The data of a gap begins behind its front, and its size fits a field. */
  lemma RegionFits(extended: Partition, gap: Extent)
    requires extended.start <= gap.start < gap.end <= End(extended) && Usable(gap)
    ensures InGap(gap, RegionIn(gap).dataStart) && 0 < RegionIn(gap).dataSize < UINT32
    ensures RegionIn(gap).dataStart + RegionIn(gap).dataSize == gap.end
  {
    AlignFacts(gap.start + 1);
  }

  lemma SuggestedInGap(extended: Partition, logical: seq<Logical>)
    requires ValidLogicals(extended, logical) && Suggested(extended, logical).Some?
    ensures var regions := Regions(extended, logical);
      exists k :: 0 <= k < |regions| && InGap(regions[k], Suggested(extended, logical).value.dataStart)
  {
    var regions := Regions(extended, logical);
    var k := RoomiestLeads(regions, |regions|);
    hide Regions, ValidLogicals, Roomiest, Suggested;
    RegionsInside(extended, logical, k);
    RegionFits(extended, regions[k]);
    assert InGap(regions[k], Suggested(extended, logical).value.dataStart);
  }

  lemma FrontInside(extended: Partition, logical: seq<Logical>, start: nat, ebr: nat)
    requires ValidLogicals(extended, logical) && FrontOf(Regions(extended, logical), start, ebr)
    ensures extended.start <= ebr < start < End(extended)
  {
    var k: nat :| k < |Regions(extended, logical)| && InGap(Regions(extended, logical)[k], start)
      && Regions(extended, logical)[k].start == ebr;
    RegionsInside(extended, logical, k);
  }

  /** An added partition is found by its start in the sorted list. */
  lemma AddedAt(extended: Partition, logical: seq<Logical>, l: Logical, sorted: seq<Logical>, i: nat)
    requires ValidLogicals(extended, sorted) && InOrder(sorted) && multiset(sorted) == multiset(logical + [l])
    requires i < |sorted| && sorted[i].part.start == l.part.start
    ensures sorted[i] == l
  {
    ValidStartsAscend(extended, sorted);
    Sorting.SameMembers(sorted, logical + [l]);
    assert (logical + [l])[|logical|] == l;
    assert l in sorted;
    var k: nat :| k < |sorted| && sorted[k] == l;
    hide ValidLogicals, InOrder;
    assert i < k ==> sorted[i].part.start < sorted[k].part.start;
    assert k < i ==> sorted[k].part.start < sorted[i].part.start;
  }

  lemma AddedThere(logical: seq<Logical>, l: Logical, sorted: seq<Logical>)
    requires multiset(sorted) == multiset(logical + [l])
    ensures exists k :: 0 <= k < |sorted| && sorted[k].part.start == l.part.start
    ensures multiset(sorted) == multiset(logical) + multiset{l}
  {
    Sorting.SameMembers(sorted, logical + [l]);
    assert (logical + [l])[|logical|] == l;
    assert l in sorted;
    var k: nat :| k < |sorted| && sorted[k] == l;
  }

  /** The list with a logical partition added, in start order, and its place in it. */
  method AddLogical(extended: Partition, logical: seq<Logical>, start: Answer, size: Answer)
    returns (after: Option<seq<Logical>>, at: nat)
    requires ValidLogicals(extended, logical)
    ensures after.Some? <==> CanCreateLogical(extended, logical, start, size)
    ensures after.Some? ==>
        Joins(extended, logical, after.value, at, AskedLogical(extended, logical, start, size).value)
  {
    hide ValidLogicals, InOrder, Regions, Suggested;
    at := 0;
    var suggested := SuggestLogical(extended, logical);
    if suggested.None? || start.Cancelled? || start.Malformed? || size.Cancelled? || size.Malformed? {
      return None, 0;
    }
    var first: nat := if start.Number? then start.n else suggested.value.dataStart;
    var front := BootRecordFor(extended, logical, first);
    if front.None? {
      return None, 0;
    }
    FrontInside(extended, logical, first, front.value);
    var offered := extended.start + extended.size - first;
    if first == suggested.value.dataStart {
      offered := suggested.value.dataSize;
    }
    var length := if size.Number? then size.n else offered;
    if length <= 0 || first == 0 || first > 0xFFFF_FFFF || length > 0xFFFF_FFFF {
      return None, 0;
    }
    after, at := Insert(extended, logical, Logical(Partition(first, length, 0x83, false), front.value));
  }

  /** `after` is valid and in order, and has `l` at place `at` besides what was there. */
  ghost predicate Joins(extended: Partition, logical: seq<Logical>, after: seq<Logical>, at: nat, l: Logical) {
    && ValidLogicals(extended, after) && InOrder(after) && multiset(after) == multiset(logical) + multiset{l}
    && at < |after| && after[at] == l
  }

  /** Validated, then put in order. */
  method Insert(extended: Partition, logical: seq<Logical>, l: Logical) returns (after: Option<seq<Logical>>, at: nat)
    ensures after.Some? <==> ValidLogicals(extended, logical + [l])
    ensures after.Some? ==> Joins(extended, logical, after.value, at, l)
  {
    hide ValidLogicals, InOrder;
    var ok := ValidateLogicals(extended, logical + [l]);
    if !ok {
      return None, 0;
    }
    var sorted := SortLogicals(logical + [l]);
    PermutedValid(extended, logical + [l], sorted);
    AddedThere(logical, l, sorted);
    at := FindStart(sorted, l.part.start);
    AddedAt(extended, logical, l, sorted, at);
    after := Some(sorted);
  }

  lemma SoundWith(parts: Slots, logical: seq<Logical>, after: seq<Logical>, sectors: nat)
    requires Sound(parts, logical, sectors) && Container(parts).Some?
    requires ValidLogicals(Container(parts).value, after) && InOrder(after)
    ensures Sound(parts, after, sectors)
  {
    hide ValidParts, ValidLogicals, InOrder, Container;
  }

  lemma HasContainer(parts: Slots, logical: seq<Logical>, sectors: nat, selected: nat)
    requires Sound(parts, logical, sectors) && 4 <= selected < RowCount(parts, logical)
    ensures Container(parts).Some? && ValidLogicals(Container(parts).value, logical) && InOrder(logical)
    ensures selected <= 4 + |logical|
  {
    hide ValidParts, ValidLogicals, InOrder, Container;
  }

  lemma LogicalRows(parts: Slots, logical: seq<Logical>)
    requires Container(parts).Some?
    ensures RowCount(parts, logical) >= 4 + |logical|
    ensures RowCount(parts, logical)
      == 4 + |logical| + (if HasRoom(Regions(Container(parts).value, logical)) then 1 else 0)
  {
  }

  /**
   * A list is read back if and only if the disk was prepared for it. One whose first record stands at the front
   * of the container is, unless it is too long, which is refused; of an empty one what the chain held is read.
   */
  ghost predicate ReadsBack(before: Image, after: Image, extended: Partition, logical: seq<Logical>)
    requires Sectored(before) && Sectored(after)
  {
    var read := Walk(after, extended, extended.start, CHAIN_LIMIT);
    && (read == Some(logical) <==> Prepared(before, extended, logical))
    && (logical != [] && logical[0].ebr == extended.start ==>
        read == if |logical| <= CHAIN_LIMIT then Some(logical) else None)
    && (logical == [] ==> read == Walk(before, extended, extended.start, CHAIN_LIMIT))
  }

  lemma WrittenReads(img: Image, extended: Partition, logical: seq<Logical>, writes: seq<Write>,
      mbr: seq<byte>)
    requires Writable(img, extended, logical, writes, mbr)
    ensures Sectored(Written(img, writes, mbr)) && ReadsBack(img, Written(img, writes, mbr), extended, logical)
  {
    hide ValidLogicals, InOrder, AreRecords, Walk, Written, Prepared;
    ChainReadBack(img, extended, logical, writes, mbr);
    if logical == [] {
      EmptyKeepsChain(img, extended, writes, mbr);
    } else if logical[0].ebr == extended.start {
      ChainRoundTrip(img, extended, logical, writes, mbr);
    }
  }

  /** The boot records of a valid list, which building never refuses. */
  method ChainWrites(extended: Partition, logical: seq<Logical>) returns (writes: seq<Write>)
    requires ValidLogicals(extended, logical) && InOrder(logical)
    ensures AreRecords(extended, logical, writes, |logical|)
  {
    hide ValidLogicals, AreRecords, AllFit, StartsAscend;
    var list, built := BuildChain(extended, logical);
    ValidStartsAscend(extended, logical);
    OrderUnique(logical, list);
    ValidFits(extended, logical);
    writes := built.value;
  }

  lemma ContainerSound(parts: Slots, logical: seq<Logical>, sectors: nat)
    requires Sound(parts, logical, sectors) && Container(parts).Some?
    ensures var extended := Container(parts).value;
      0 < extended.start && End(extended) <= sectors && ValidLogicals(extended, logical) && InOrder(logical)
  {
    assert PartSound(parts[FindExtended(parts, 0)], sectors);
  }

  /** In a kept table every slot reads back as it is. */
  lemma NormalSlots(original: seq<byte>, parts: Slots)
    requires |original| == SECTOR
    ensures Get(MbrBytes(original, parts), 0, 446) == Get(original, 0, 446)
    ensures Canonical(parts) ==> forall i :: 0 <= i < 4 ==> ReadSlot(MbrBytes(original, parts), i) == parts[i]
  {
    hide MbrBytes, Get, ReadSlot;
    MbrRoundTrip(original, parts, 0);
    forall i | 0 <= i < 4 && Canonical(parts) ensures ReadSlot(MbrBytes(original, parts), i) == parts[i] {
      MbrRoundTrip(original, parts, i);
    }
  }

  function Relabel(logical: seq<Logical>, i: nat, kind: byte, bootable: bool): seq<Logical>
    requires i < |logical|
  {
    logical[i := logical[i].(part := logical[i].part.(kind := kind, bootable := bootable))]
  }

  lemma LogicalKind(extended: Partition, logical: seq<Logical>, i: nat)
    requires ValidLogicals(extended, logical) && i < |logical|
    ensures logical[i].part.kind != 0 && !ExtendedType(logical[i].part.kind)
  {
    assert LogicalSound(extended, logical[i]);
  }

  lemma ResizedOrder(logical: seq<Logical>, i: nat, size: uint32)
    requires InOrder(logical) && i < |logical|
    ensures InOrder(SetLogicalSize(logical, i, size))
  {
  }

  lemma FirstRows(parts: Slots, logical: seq<Logical>)
    ensures RowCount(parts, logical) >= 4
  {
  }

  lemma KindSet(parts: Slots, sectors: nat, slot: nat)
    requires ValidParts(parts, sectors) && slot < 4 && parts[slot].size != 0
    ensures parts[slot].kind != 0
  {
  }

  lemma OfferedBounds(parts: Slots, sectors: nat, x: Extent)
    requires Offered(parts, sectors, x)
    ensures 1 <= x.start < x.end <= sectors
  {
  }

  lemma SmallContainer(extended: Partition, l: Logical, whole: seq<Extent>)
    requires extended == Partition(2048, 100, 0x05, false) && l == Logical(Partition(2049, 99, LINUX, false), 2048)
    requires whole == [Extent(2048, 2148)]
    ensures Regions(extended, [l]) == [] && Regions(extended, []) == whole
    ensures !HasRoom(whole) && !HasRoom([])
  {
    hide Used, Free, Usable;
    UsedOne(l);
    NoneUsed();
    NoGaps(whole);
    NoAligned(whole[0]);
  }

  lemma UsedOne(l: Logical)
    ensures Used([l]) == [l.Span()]
  {
    assert [l][..0] == [];
    NoneUsed();
  }

  lemma NoGaps(whole: seq<Extent>)
    requires whole == [Extent(2048, 2148)]
    ensures Free(whole, 2048, 2148) == [] && Free([], 2048, 2148) == whole
  {
    FreeOfChained(whole, 2048, 2148);
    FreeOfChained([], 2048, 2148);
    hide Free;
    assert Gaps(whole, 1, 2148, 2148) == [] && Gap(2048, 2048) == [];
  }

  lemma NoAligned(gap: Extent)
    requires gap == Extent(2048, 2148)
    ensures !Usable(gap)
  {
    assert Align(2049) == 4096;
  }

  lemma SmallTable(extended: Partition, l: Logical, parts: Slots)
    requires extended == Partition(2048, 100, 0x05, false) && l == Logical(Partition(2049, 99, LINUX, false), 2048)
    requires parts == [extended, NONE, NONE, NONE]
    ensures Container(parts) == Some(extended) && Sound(parts, [l], 4096) && Sound(parts, [], 4096)
  {
    assert Spans(parts)[0].Some? && Spans(parts)[1].None? && Spans(parts)[2].None? && Spans(parts)[3].None?;
    assert FindExtended(parts, 0) == 0;
    assert LogicalSound(extended, l);
  }

  /** Deleting the last logical partition of a small container leaves the selection beyond the last row. */
  lemma SelectionCanBeLost()
    ensures var extended, l := Partition(2048, 100, 0x05, false), Logical(Partition(2049, 99, LINUX, false), 2048);
      var parts: Slots := [extended, NONE, NONE, NONE];
      && Sound(parts, [l], 4096) && Sound(parts, [], 4096)
      && RowCount(parts, [l]) == 5 && RowCount(parts, []) == 4
  {
    var extended, l := Partition(2048, 100, 0x05, false), Logical(Partition(2049, 99, LINUX, false), 2048);
    hide Sound, Regions, HasRoom, Container;
    SmallTable(extended, l, [extended, NONE, NONE, NONE]);
    SmallContainer(extended, l, [Extent(2048, 2148)]);
  }
}
