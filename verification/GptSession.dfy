/** Editing a GPT in memory, and writing it. */
module GptSession {
  import opened Bits
  import opened ByteBuffers
  import opened Extents
  import opened GptTable
  import opened GptLayout
  import opened GptCodec
  import opened GptSort
  import opened GptWrite
  import opened Disks
  import opened Outcomes
  import opened Prompts

  /** What came back from the prompt for a type. */
  datatype TypeAnswer = NoType | BadType | Type(guid: Guid)

  /** Version and variant bits of a random identity. */
  function Stamp(random: Guid): (g: Guid)
    ensures !AllZero(g)
  {
    var g := random[7 := random[7] % 16 + 64][8 := random[8] % 64 + 128];
    assert g[7] != 0;
    g
  }

  /** A random identity says that it is one: version 4, and the variant of RFC 4122. All other bits stay as drawn. */
  lemma StampSays(random: Guid)
    ensures var g := Stamp(random);
      && g[7] / 16 == 4 && g[7] % 16 == random[7] % 16 && g[8] / 64 == 2 && g[8] % 64 == random[8] % 64
      && forall k: nat :: k < 16 && k != 7 && k != 8 ==> g[k] == random[k]
  {
  }

  const LINUX_FILESYSTEM: Guid :=
    [0xaf, 0x3d, 0xc6, 0x0f, 0x83, 0x84, 0x72, 0x47, 0x8e, 0x79, 0x3d, 0x69, 0xd8, 0x47, 0x7d, 0xe4]

  /** `Linux filesystem`, in 36 units. */
  function FilesystemName(): Name {
    [76, 105, 110, 117, 120, 32, 102, 105, 108, 101, 115, 121, 115, 116, 101, 109] + NoUnits(20)
  }

  function NewPartition(start: uint64, end: uint64, unique: Guid): (p: Partition)
    ensures !p.Empty()
  {
    assert LINUX_FILESYSTEM[0] != 0;
    Partition(LINUX_FILESYSTEM, unique, start, end, 0, FilesystemName())
  }

  /** What a new partition is: type 0FC63DAF-8483-4772-8E79-3D69D8477DE4, no attributes, and a name in plain text. */
  lemma NewPartitionSays(start: uint64, end: uint64, unique: Guid)
    ensures var p := NewPartition(start, end, unique);
      && p.kind == [0xaf, 0x3d, 0xc6, 0x0f, 0x83, 0x84, 0x72, 0x47, 0x8e, 0x79, 0x3d, 0x69, 0xd8, 0x47, 0x7d, 0xe4]
      && p.unique == unique && p.start == start && p.end == end && p.attributes == 0
      && forall k: nat :: k < 36 ==>
        p.name[k] == if k < |"Linux filesystem"| then "Linux filesystem"[k] as int else 0
  {
    hide FilesystemName;
    NameSpells();
  }

  lemma NameSpells()
    ensures forall k: nat :: k < 36 ==>
        FilesystemName()[k] == if k < |"Linux filesystem"| then "Linux filesystem"[k] as int else 0
  {
    hide NoUnits, FilesystemName;
    forall k: nat | k < 36
      ensures FilesystemName()[k] == if k < |"Linux filesystem"| then "Linux filesystem"[k] as int else 0
    {
      if k < 16 {
        LetterAt(k);
      } else {
        PaddingAt(k);
      }
    }
  }

  lemma LetterAt(k: nat)
    requires k < 16
    ensures FilesystemName()[k] == "Linux filesystem"[k] as int
  {
    hide NoUnits;
  }

  lemma PaddingAt(k: nat)
    requires 16 <= k < 36
    ensures FilesystemName()[k] == 0
  {
    ZeroUnits(20);
    hide NoUnits;
    assert FilesystemName()[k] == NoUnits(20)[k - 16];
  }

  method FillIn(first: uint64, last: uint64, unique: Guid) returns (p: Partition)
    ensures p == NewPartition(first, last, unique)
  {
    var kind := [0xaf, 0x3d, 0xc6, 0x0f, 0x83, 0x84, 0x72, 0x47, 0x8e, 0x79, 0x3d, 0x69, 0xd8, 0x47, 0x7d, 0xe4];
    p := Partition(kind, unique, first, last, 0, FilesystemName());
  }

  method MakeIdentity(random: Guid) returns (g: Guid)
    ensures g == Stamp(random)
  {
    g := random[7 := random[7] % 0x10 + 0x40];
    g := g[8 := g[8] % 0x40 + 0x80];
  }

  ghost function FirstEmpty(parts: seq<Partition>, i: nat): (k: nat)
    requires i <= |parts|
    ensures i <= k <= |parts| && (k < |parts| ==> parts[k].Empty()) && forall j :: i <= j < k ==> !parts[j].Empty()
    decreases |parts| - i
  {
    if i == |parts| || parts[i].Empty() then i else FirstEmpty(parts, i + 1)
  }

  /** The selected slot when it is free, else the first free one. */
  ghost function TargetSlot(parts: Slots, selected: int): nat {
    if 0 <= selected < ENTRY_COUNT && parts[selected].Empty() then selected else FirstEmpty(parts, 0)
  }

  function Refill(t: Table, slot: nat, p: Partition): Table
    requires slot < ENTRY_COUNT
  {
    t.(partitions := t.partitions[slot := p])
  }

  lemma ClearedIsValid(t: Table, slot: nat)
    requires ValidTable(t) && slot < ENTRY_COUNT
    ensures ValidTable(Refill(t, slot, EMPTY))
  {
    var t' := Refill(t, slot, EMPTY);
    assert EMPTY.Empty();
    forall i: nat | i < ENTRY_COUNT ensures SlotSound(t', i) && OwnGuid(t'.partitions, i) {
      assert SlotSound(t, i) && OwnGuid(t.partitions, i);
    }
    assert forall i :: 0 <= i < ENTRY_COUNT ==>
        Spans(t'.partitions)[i] == if i == slot then None else Spans(t.partitions)[i];
  }

  lemma RetypedIsValid(t: Table, slot: nat, kind: Guid)
    requires ValidTable(t) && slot < ENTRY_COUNT && !t.partitions[slot].Empty() && !AllZero(kind)
    ensures ValidTable(Refill(t, slot, t.partitions[slot].(kind := kind)))
  {
    var t' := Refill(t, slot, t.partitions[slot].(kind := kind));
    forall i: nat | i < ENTRY_COUNT ensures SlotSound(t', i) && OwnGuid(t'.partitions, i) {
      assert SlotSound(t, i) && OwnGuid(t.partitions, i);
    }
    assert Spans(t'.partitions) == Spans(t.partitions);
  }

  lemma RefillCanonical(t: Table, slot: nat, p: Partition)
    requires Canonical(t.partitions, ENTRY_COUNT) && slot < ENTRY_COUNT && (p.Empty() ==> p == EMPTY)
    ensures Canonical(Refill(t, slot, p).partitions, ENTRY_COUNT)
  {
  }

  /** The same partition, found again by its identity. */
  lemma SameIdentity(t: Table, r: Table, i: nat, j: nat)
    requires ValidTable(t) && multiset(InUse(r.partitions, ENTRY_COUNT)) == multiset(InUse(t.partitions, ENTRY_COUNT))
    requires i < ENTRY_COUNT && j < ENTRY_COUNT && !t.partitions[i].Empty() && !r.partitions[j].Empty()
    requires t.partitions[i].unique == r.partitions[j].unique
    ensures r.partitions[j] == t.partitions[i]
  {
    hide ValidTable;
    InUseHas(r.partitions, ENTRY_COUNT, j);
    assert r.partitions[j] in multiset(InUse(t.partitions, ENTRY_COUNT));
    var k := InUseAt(t.partitions, ENTRY_COUNT, r.partitions[j]);
    if k != i {
      PairCompatible(t, if k < i then k else i, if k < i then i else k);
    }
  }

  lemma {:induction false} InUseHas(parts: seq<Partition>, n: nat, j: nat)
    requires j < n <= |parts| && !parts[j].Empty()
    ensures parts[j] in InUse(parts, n)
    decreases n
  {
    if j < n - 1 {
      InUseHas(parts, n - 1, j);
    }
  }

  lemma {:induction false} InUseAt(parts: seq<Partition>, n: nat, p: Partition) returns (k: nat)
    requires n <= |parts| && p in InUse(parts, n)
    ensures k < n && parts[k] == p && !p.Empty()
    decreases n
  {
    if p in InUse(parts, n - 1) {
      k := InUseAt(parts, n - 1, p);
    } else {
      k := n - 1;
    }
  }

  predicate Answered(answer: Answer) {
    answer.Blank? || answer.Number?
  }

  /** The first sector and the length that the answers ask for, where a blank one takes the offer. */
  function Asked(offer: Extent, start: Answer, size: Answer): (int, int) {
    (if start.Number? then start.n else offer.start, if size.Number? then size.n else Size(offer))
  }

  predicate Addressable(x: (int, int)) {
    0 < x.0 && 0 < x.1 && x.0 + x.1 <= UINT64
  }

  function Created(t: Table, slot: nat, x: (int, int), unique: Guid): Table
    requires slot < ENTRY_COUNT && Addressable(x)
  {
    Refill(t, slot, NewPartition(x.0, x.0 + x.1 - 1, unique))
  }

  /** A slot and a sector are free, and the range asked for leaves the table valid. */
  ghost predicate CanCreate(t: Table, selected: nat, start: Answer, size: Answer, unique: Guid) {
    var slot, x := TargetSlot(t.partitions, selected), Asked(Offer(t), start, size);
    && slot < ENTRY_COUNT && Size(Offer(t)) > 0 && Answered(start) && Answered(size)
    && Addressable(x) && ValidTable(Created(t, slot, x, unique))
  }

  /** Taking both offers works exactly when a slot and a usable sector are free and the identity is new. */
  lemma OfferCanBeTaken(t: Table, selected: nat, unique: Guid)
    requires ValidTable(t) && !AllZero(unique)
    ensures CanCreate(t, selected, Blank, Blank, unique)
      <==> (TargetSlot(t.partitions, selected) < ENTRY_COUNT && unique !in GuidsOf(t.partitions, ENTRY_COUNT)
        && !Tiling(Present(Spans(t.partitions), ENTRY_COUNT), [], t.firstUsable, t.lastUsable + 1))
  {
    hide Tiling, Present, Offer, ValidTable, AllZero, MostRoom, WellAligned, NewPartition, Offered, TargetSlot, GuidsOf;
    var slot, x := TargetSlot(t.partitions, selected), Offer(t);
    OfferIsLargest(t);
    if slot < ENTRY_COUNT && Size(x) > 0 {
      TargetEmpty(t.partitions, selected);
      FirstUsable(t);
      OfferedBounds(t, x);
      TakenValid(t, slot, x, unique);
    }
  }

  lemma FirstUsable(t: Table)
    requires ValidTable(t)
    ensures 0 < t.firstUsable
  {
  }

  /** In a free slot, an offered range makes a valid table exactly with a new identity. */
  lemma TakenValid(t: Table, slot: nat, x: Extent, unique: Guid)
    requires ValidTable(t) && slot < ENTRY_COUNT && t.partitions[slot].Empty() && !AllZero(unique)
    requires Offered(t, x) && 0 < x.start < x.end <= UINT64
    ensures ValidTable(Created(t, slot, (x.start, x.end - x.start), unique))
      <==> unique !in GuidsOf(t.partitions, ENTRY_COUNT)
  {
    hide ValidTable, AllZero, NewPartition, Offered, GuidsOf;
    NewSpan(x.start, x.end - 1, unique);
    if unique in GuidsOf(t.partitions, ENTRY_COUNT) {
      KnownGuid(t, slot, NewPartition(x.start, x.end - 1, unique));
    } else {
      OfferedIsValid(t, slot, NewPartition(x.start, x.end - 1, unique));
    }
  }

  lemma TargetEmpty(parts: Slots, selected: nat)
    requires TargetSlot(parts, selected) < ENTRY_COUNT
    ensures parts[TargetSlot(parts, selected)].Empty()
  {
  }

  /** An identity that another slot has makes the table invalid. */
  lemma KnownGuid(t: Table, slot: nat, p: Partition)
    requires slot < ENTRY_COUNT && t.partitions[slot].Empty() && !p.Empty()
    requires p.unique in GuidsOf(t.partitions, ENTRY_COUNT)
    ensures !ValidTable(Refill(t, slot, p))
  {
    GuidsSeen(t.partitions, ENTRY_COUNT, p.unique);
    var i: nat :| i < ENTRY_COUNT && !t.partitions[i].Empty() && t.partitions[i].unique == p.unique;
    var t' := Refill(t, slot, p);
    assert t'.partitions[i] == t.partitions[i] && t'.partitions[slot] == p;
    assert !OwnGuid(t'.partitions, if i < slot then slot else i);
  }

  function Resized(t: Table, slot: nat, size: uint64): Table
    requires slot < ENTRY_COUNT && 0 < size && t.partitions[slot].start + size <= UINT64
  {
    Refill(t, slot, t.partitions[slot].(end := t.partitions[slot].start + size - 1))
  }

  /** The size fits and leaves the table valid, but not the same. */
  ghost predicate CanResize(t: Table, slot: nat, size: Answer) {
    && slot < ENTRY_COUNT && !t.partitions[slot].Empty() && size.Number? && 0 < size.n
    && t.partitions[slot].start + size.n <= UINT64
    && Resized(t, slot, size.n) != t && ValidTable(Resized(t, slot, size.n))
  }

  /** The first slot with this identity, if any. */
  method FindIdentity(parts: Slots, unique: Guid) returns (i: nat)
    ensures i <= ENTRY_COUNT && (i < ENTRY_COUNT ==> parts[i].unique == unique)
    ensures forall j :: 0 <= j < i ==> parts[j].unique != unique
  {
    i := 0;
    while i < ENTRY_COUNT && parts[i].unique != unique
      invariant i <= ENTRY_COUNT && forall j :: 0 <= j < i ==> parts[j].unique != unique
    {
      i := i + 1;
    }
  }

  class Session {
    const sectors: uint64
    const readOnly: bool
    var gpt: Table
    var selected: nat
    var dirty: bool
    var sector: seq<byte>
    var original: RawState

    /** What every action keeps. */
    ghost predicate Valid()
      reads this
    {
      && ValidTable(gpt) && Canonical(gpt.partitions, ENTRY_COUNT) && selected < ENTRY_COUNT && |sector| == SECTOR
      && sectors >= 68 && gpt.firstUsable == GeometryOf(sectors).value.firstUsable
        && gpt.lastUsable == GeometryOf(sectors).value.lastUsable
    }

    /** A session on the table that a disk holds. */
    constructor (sectors: uint64, readOnly: bool, s: RawState, t: Table)
      requires ReadState(s, sectors) == Some(t)
      ensures Valid() && gpt == t && original == s && !dirty && this.sectors == sectors && this.readOnly == readOnly
    {
      hide ValidTable, Canonical, ReadState, GeometryOf;
      GeometryFits(sectors);
      StateShape(s, sectors);
      ReadIsSound(s, sectors);
      this.sectors, this.readOnly, gpt, selected, dirty, sector, original :=
        sectors, readOnly, t, 0, false, s.protectiveMbr, s;
    }

    /** A session on a fresh, empty table. */
    constructor Fresh(sectors: uint64, readOnly: bool, random: Guid, mbr: seq<byte>, s: RawState)
      requires sectors >= 68 && |mbr| == SECTOR
      ensures Valid() && dirty && this.sectors == sectors && original == s && gpt.diskGuid == Stamp(random)
      ensures gpt.firstUsable == 34 && gpt.lastUsable == sectors - 34
      ensures forall i :: 0 <= i < 128 ==> gpt.partitions[i] == EMPTY
    {
      GeometryFits(sectors);
      var g := GeometryOf(sectors).value;
      var diskGuid := MakeIdentity(random);
      var t := Table(diskGuid, g.firstUsable, g.lastUsable, NoSlots(ENTRY_COUNT));
      NoSlotsValid(t);
      this.sectors, this.readOnly, gpt, selected, dirty, sector, original := sectors, readOnly, t, 0, true, mbr, s;
    }

    method Select(slot: nat)
      requires Valid() && slot < ENTRY_COUNT
      modifies this
      ensures Valid() && gpt == old(gpt) && dirty == old(dirty) && selected == slot && sector == old(sector)
      ensures original == old(original)
    {
      selected := slot;
    }

    /** New: exactly when the range asked for, typed or offered, leaves the table valid. */
    method New(start: Answer, size: Answer, random: Guid) returns (created: bool)
      requires Valid()
      modifies this`gpt, this`selected, this`dirty
      ensures Valid() && created == (!readOnly && CanCreate(old(gpt), old(selected), start, size, Stamp(random)))
      ensures !created ==> gpt == old(gpt) && selected == old(selected) && dirty == old(dirty)
      ensures created ==> dirty && selected == TargetSlot(old(gpt).partitions, old(selected))
      ensures created ==> gpt == Created(old(gpt), selected, Asked(Offer(old(gpt)), start, size), Stamp(random))
    {
      hide ValidTable, Canonical, Stamp, NewPartition, AllZero, Offer, Offered, MostRoom, WellAligned, Tiling;
      hide Present, TargetSlot;
      if readOnly {
        return false;
      }
      var slot := FindSlot();
      if slot == ENTRY_COUNT {
        return false;
      }
      var region := SuggestRegion(gpt);
      OfferIsLargest(gpt);
      FirstUsable(gpt);
      if region.None? || start.Cancelled? || start.Malformed? || size.Cancelled? || size.Malformed? {
        return false;
      }
      OfferedBounds(gpt, region.value);
      var first: uint64 := if start.Number? then start.n else region.value.start;
      var length: uint64 := if size.Number? then size.n else region.value.end - region.value.start;
      if first == 0 || length == 0 || first > UINT64 - length {
        return false;
      }
      var unique := MakeIdentity(random);
      var p := FillIn(first, first + length - 1, unique);
      var proposed := gpt.(partitions := gpt.partitions[slot := p]);
      var ok := ValidateTable(proposed);
      if !ok {
        return false;
      }
      RefillCanonical(gpt, slot, p);
      gpt, selected, dirty := proposed, slot, true;
      created := true;
    }

    method FindSlot() returns (slot: nat)
      requires Valid()
      ensures slot == TargetSlot(gpt.partitions, selected) <= ENTRY_COUNT
      ensures slot < ENTRY_COUNT ==> gpt.partitions[slot].Empty()
    {
      hide ValidTable, AllZero;
      if gpt.partitions[selected].Empty() {
        return selected;
      }
      slot := 0;
      while slot < ENTRY_COUNT && !gpt.partitions[slot].Empty()
        invariant slot <= ENTRY_COUNT && FirstEmpty(gpt.partitions, slot) == FirstEmpty(gpt.partitions, 0)
      {
        slot := slot + 1;
      }
    }

    method Delete() returns (done: bool)
      requires Valid()
      modifies this`gpt, this`dirty
      ensures Valid() && done == (!readOnly && !old(gpt).partitions[selected].Empty())
      ensures gpt == if done then Refill(old(gpt), selected, EMPTY) else old(gpt)
      ensures dirty == (old(dirty) || done)
    {
      hide ValidTable, Canonical, AllZero;
      if readOnly || gpt.partitions[selected].Empty() {
        return false;
      }
      ClearedIsValid(gpt, selected);
      RefillCanonical(gpt, selected, EMPTY);
      gpt, dirty := gpt.(partitions := gpt.partitions[selected := EMPTY]), true;
      done := true;
    }

    /** Resize changes the end of the selected partition to a size that leaves the table valid, or nothing. */
    method Resize(size: Answer) returns (done: bool)
      requires Valid()
      modifies this`gpt, this`dirty
      ensures Valid()
      ensures done == (!readOnly && CanResize(old(gpt), selected, size))
      ensures gpt == if done then Resized(old(gpt), selected, size.n) else old(gpt)
      ensures dirty == (old(dirty) || done)
    {
      hide ValidTable, Canonical, AllZero;
      if readOnly || gpt.partitions[selected].Empty() || !size.Number? {
        return false;
      }
      var p := gpt.partitions[selected];
      if size.n == 0 || p.start > UINT64 - size.n {
        return false;
      }
      var proposed := gpt.(partitions := gpt.partitions[selected := p.(end := p.start + size.n - 1)]);
      var ok := ValidateTable(proposed);
      if !ok || proposed == gpt {
        return false;
      }
      RefillCanonical(gpt, selected, proposed.partitions[selected]);
      gpt, dirty := proposed, true;
      done := true;
    }

    /** Sort: the same partitions in the first slots by start sector; the selection stays on its partition. */
    method SortByStart() returns (done: bool)
      requires Valid()
      modifies this`gpt, this`selected, this`dirty
      ensures Valid() && done == (!readOnly && SortedTable(old(gpt)) != old(gpt))
      ensures !done ==> gpt == old(gpt) && selected == old(selected) && dirty == old(dirty)
      ensures done ==> dirty && gpt == SortedTable(old(gpt))
      ensures done && !old(gpt).partitions[old(selected)].Empty() ==>
          gpt.partitions[selected] == old(gpt).partitions[old(selected)]
      ensures done && old(gpt).partitions[old(selected)].Empty() ==> selected == 0
    {
      hide ValidTable, Canonical, SortedTable, ByStart, AllZero;
      var was := gpt.partitions[selected];
      var proposed := SortedTable(gpt);
      if readOnly || proposed == gpt {
        return false;
      }
      SortedShape(gpt);
      if was.Empty() {
        gpt, selected, dirty := proposed, 0, true;
      } else {
        var i := FindIdentity(proposed.partitions, was.unique);
        SameFound(gpt, proposed, selected, i);
        gpt, selected, dirty := proposed, i, true;
      }
      done := true;
    }

    method ChangeType(answer: TypeAnswer) returns (done: bool)
      requires Valid()
      modifies this`gpt, this`dirty
      ensures Valid()
      ensures done == (!readOnly && !old(gpt).partitions[selected].Empty() && answer.Type? && !AllZero(answer.guid))
      ensures gpt == if done
        then Refill(old(gpt), selected, old(gpt).partitions[selected].(kind := answer.guid)) else old(gpt)
      ensures dirty == (old(dirty) || done)
    {
      hide ValidTable, Canonical, AllZero;
      if readOnly || gpt.partitions[selected].Empty() || !answer.Type? || AllZero(answer.guid) {
        return false;
      }
      RetypedIsValid(gpt, selected, answer.guid);
      RefillCanonical(gpt, selected, gpt.partitions[selected].(kind := answer.guid));
      var p := gpt.partitions[selected].(kind := answer.guid);
      gpt, dirty := gpt.(partitions := gpt.partitions[selected := p]), true;
      done := true;
    }

    /** There is something to write, the answer was yes, and the disk still holds what was read. */
    ghost predicate Permitted(img: Image, confirmed: bool, dirty: bool, original: RawState)
      requires sectors >= 68 && |img| == sectors
    {
      GeometryFits(sectors);
      !readOnly && dirty && confirmed && RawStateAt(img, GeometryOf(sectors).value) == original
    }

    /**
     * Write: refused when the disk no longer holds what was read, and otherwise done exactly when the device
     * takes all its steps. Validation never stands in the way,
     * every crash leaves a whole copy, and after success the disk reads back as the edited table.
     */
    method WriteTable(disk: Disk, confirmed: bool) returns (ok: bool)
      requires Valid() && |disk.durable| == sectors && disk.pending == []
      requires GeometryOf(sectors).Some? && 34 <= GeometryOf(sectors).value.backupEntries
      modifies disk, this`sector, this`original, this`dirty
      ensures Valid() && gpt == old(gpt) && selected == old(selected)
      ensures old(disk.history) <= disk.history && BuildState(old(sector), sectors, gpt).Some?
      ensures AllRecoverable(disk.history, |old(disk.history)|, old(disk.durable), sectors,
        BuildState(old(sector), sectors, gpt).value)
      ensures ok
        <==> Permitted(old(disk.durable), confirmed, old(dirty), old(original)) && Lasts(sectors, old(disk.patience))
      ensures !Permitted(old(disk.durable), confirmed, old(dirty), old(original))
        ==> disk.history == old(disk.history) && disk.durable == old(disk.durable)
      ensures ok ==>
          !dirty && |disk.durable| == sectors && RawStateAt(disk.durable, GeometryOf(sectors).value) == original
      ensures ok ==> ReadState(original, sectors) == Some(gpt)
    {
      hide ValidTable, Canonical, BuildState, ReadState, AllRecoverable, ReadAt, RawStateAt, GeometryOf;
      hide Layout, HoldsTable, ProtectiveLayout;
      GeometryFits(sectors);
      WriteAccepted(sector, sectors, gpt);
      NoneRecoverable(disk.history, disk.durable, sectors, BuildState(sector, sectors, gpt).value);
      if readOnly || !dirty || RawStateAt(disk.durable, GeometryOf(sectors).value) != original || !confirmed {
        return false;
      }
      var state := BuildGpt(sector, sectors, gpt);
      ok := WriteGpt(disk, sectors, state.value);
      if ok {
        sector, original, dirty := state.value.protectiveMbr, state.value, false;
      }
    }
  }

  /** A kept table is never refused by validation, and what is built reads back as it. */
  lemma WriteAccepted(mbr: seq<byte>, sectors: uint64, t: Table)
    requires |mbr| == SECTOR && sectors >= 68 && ValidTable(t) && Canonical(t.partitions, ENTRY_COUNT)
    requires GeometryOf(sectors).Some?
    requires t.firstUsable == GeometryOf(sectors).value.firstUsable
    requires t.lastUsable == GeometryOf(sectors).value.lastUsable
    ensures BuildState(mbr, sectors, t).Some? && WellSized(BuildState(mbr, sectors, t).value)
    ensures ReadState(BuildState(mbr, sectors, t).value, sectors) == Some(t)
    ensures |BuildState(mbr, sectors, t).value.protectiveMbr| == SECTOR
  {
    hide ValidTable, Canonical, ReadState;
    StateRoundTrip(mbr, sectors, t);
  }

  lemma NoSlotsValid(t: Table)
    requires GeometrySound(t) && t.partitions == NoSlots(ENTRY_COUNT)
    ensures ValidTable(t) && Canonical(t.partitions, ENTRY_COUNT)
  {
    assert EMPTY.Empty();
    assert forall i :: 0 <= i < ENTRY_COUNT ==> t.partitions[i] == EMPTY && Spans(t.partitions)[i].None?;
  }

  lemma OfferedBounds(t: Table, x: Extent)
    requires Offered(t, x) && t.firstUsable > 0
    ensures 0 < x.start < x.end <= t.lastUsable + 1 <= UINT64
  {
  }

  lemma NewSpan(first: uint64, last: uint64, unique: Guid)
    ensures !NewPartition(first, last, unique).Empty()
    ensures NewPartition(first, last, unique).Span() == Some(Extent(first, last + 1))
    ensures NewPartition(first, last, unique).unique == unique
  {
  }

  /** A partition in use is still there after the sort. */
  lemma StillThere(t: Table, r: Table, i: nat) returns (k: nat)
    requires multiset(InUse(r.partitions, ENTRY_COUNT)) == multiset(InUse(t.partitions, ENTRY_COUNT))
    requires i < ENTRY_COUNT && !t.partitions[i].Empty()
    ensures k < ENTRY_COUNT && r.partitions[k] == t.partitions[i]
  {
    InUseHas(t.partitions, ENTRY_COUNT, i);
    assert t.partitions[i] in multiset(InUse(r.partitions, ENTRY_COUNT));
    k := InUseAt(r.partitions, ENTRY_COUNT, t.partitions[i]);
  }

  lemma SortedShape(t: Table)
    requires ValidTable(t)
    ensures ValidTable(SortedTable(t)) && Canonical(SortedTable(t).partitions, ENTRY_COUNT)
    ensures SortedTable(t).firstUsable == t.firstUsable && SortedTable(t).lastUsable == t.lastUsable
  {
    SortedTableKeeps(t);
  }

  /** The first slot with its identity holds the partition, for the used slots come first. */
  lemma SameFound(t: Table, r: Table, slot: nat, j: nat)
    requires ValidTable(t) && r == SortedTable(t) && slot < ENTRY_COUNT && !t.partitions[slot].Empty()
    requires j <= ENTRY_COUNT && (j < ENTRY_COUNT ==> r.partitions[j].unique == t.partitions[slot].unique)
    requires forall i :: 0 <= i < j ==> r.partitions[i].unique != t.partitions[slot].unique
    ensures j < ENTRY_COUNT && r.partitions[j] == t.partitions[slot]
  {
    hide ValidTable, SortedTable, InUse, ByStart, AllZero;
    SortedTableKeeps(t);
    var k := StillThere(t, r, slot);
    assert j <= k;
    SameIdentity(t, r, slot, j);
  }
}
