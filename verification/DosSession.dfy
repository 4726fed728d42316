/** Editing a DOS partition table in memory, and writing it. */
module DosSession {
  import opened Bits
  import opened ByteBuffers
  import opened Extents
  import opened DosTable
  import opened Logicals
  import opened EbrChain
  import opened DosWrite
  import opened DosActions
  import opened Disks
  import opened Prompts

  class Session {
    const sectors: uint64
    const readOnly: bool
    var parts: Slots
    var logical: seq<Logical>
    var selected: nat
    var dirty: bool
    var sector: seq<byte>

    ghost predicate Valid()
      reads this
    {
      sectors >= 2 && |sector| == SECTOR && Sound(parts, logical, sectors)
    }

    /** The selection is on a row. */
    ghost predicate OnRow()
      reads this
    {
      selected < RowCount(parts, logical)
    }

    constructor (sectors: uint64, readOnly: bool, sector: seq<byte>, parts: Slots, logical: seq<Logical>)
      requires sectors >= 2 && |sector| == SECTOR && Sound(parts, logical, sectors)
      ensures Valid() && OnRow() && this.parts == parts && this.logical == logical && !dirty
      ensures this.sectors == sectors && this.readOnly == readOnly && this.sector == sector
    {
      this.sectors, this.readOnly, this.sector, this.parts, this.logical := sectors, readOnly, sector, parts, logical;
      selected, dirty := 0, false;
    }

    /** The selection moves to another row. */
    method Select(row: nat)
      requires Valid() && row < RowCount(parts, logical)
      modifies this`selected
      ensures Valid() && OnRow() && selected == row
    {
      selected := row;
    }

    /** New in a primary slot: exactly when the partition asked for, typed or offered, leaves the table valid. */
    method New(start: Answer, size: Answer) returns (created: bool)
      requires Valid() && OnRow() && selected < 4
      modifies this`parts, this`selected, this`dirty
      ensures Valid() && OnRow() && created == (!readOnly && CanCreate(old(parts), sectors, old(selected), start, size))
      ensures !created ==> parts == old(parts) && selected == old(selected) && dirty == old(dirty)
      ensures created ==> dirty && selected == TargetSlot(old(parts), old(selected))
      ensures created ==> parts == old(parts)[selected := Asked(Offer(old(parts), sectors), start, size).value]
    {
      hide ValidParts, Sound, Offer, RowCount, Offered, MostRoom, WellAligned, Tiling, Present;
      if readOnly {
        return false;
      }
      var slot := FindSlot();
      if slot == 4 {
        return false;
      }
      SoundValid(parts, logical, sectors);
      var region := SuggestRegion(parts, sectors);
      OfferIsLargest(parts, sectors);
      if region.None? || start.Cancelled? || start.Malformed? || size.Cancelled? || size.Malformed? {
        return false;
      }
      var first: nat := if start.Number? then start.n else region.value.start;
      var length: nat := if size.Number? then size.n else region.value.end - region.value.start;
      if (size.Number? && length == 0) || first == 0 || first > 0xFFFF_FFFF || length > 0xFFFF_FFFF {
        return false;
      }
      var p := Partition(first, length, 0x83, false);
      var ok := ValidateParts(parts[slot := p], sectors);
      if !ok {
        return false;
      }
      FilledSound(parts, logical, sectors, slot, p);
      FirstRows(parts[slot := p], logical);
      parts, selected, dirty := parts[slot := p], slot, true;
      created := true;
    }

    method FindSlot() returns (slot: nat)
      requires Valid() && selected < 4
      ensures slot == TargetSlot(parts, selected) <= 4
      ensures slot < 4 ==> parts[slot].size == 0
    {
      hide Sound;
      if parts[selected].size == 0 {
        return selected;
      }
      slot := 0;
      while slot < 4 && parts[slot].size != 0
        invariant slot <= 4 && FirstFree(parts, slot) == FirstFree(parts, 0)
      {
        slot := slot + 1;
      }
    }

    /** Delete on a primary row; deleting the container deletes what is in it. */
    method DeletePrimary() returns (done: bool)
      requires Valid() && OnRow() && selected < 4
      modifies this`parts, this`logical, this`dirty
      ensures Valid() && OnRow() && done == (!readOnly && old(parts)[selected].size != 0)
      ensures parts == if done then old(parts)[selected := NONE] else old(parts)
      ensures logical == if done && old(parts)[selected].Extended() then [] else old(logical)
      ensures dirty == (old(dirty) || done)
    {
      hide ValidParts, LogicalsFit, Container, HasRoom, Regions, Canonical;
      if readOnly || parts[selected].size == 0 {
        return false;
      }
      ClearedSound(parts, logical, sectors, selected);
      FirstRows(parts[selected := NONE], if parts[selected].Extended() then [] else logical);
      if parts[selected].Extended() {
        logical := [];
      }
      parts, dirty := parts[selected := NONE], true;
      done := true;
    }

    /** Resize on a primary row: exactly when the new size leaves both tables valid. */
    method ResizePrimary(size: Answer) returns (done: bool)
      requires Valid() && OnRow() && selected < 4
      modifies this`parts, this`dirty
      ensures Valid() && OnRow() && done == (!readOnly && CanResize(old(parts), logical, sectors, selected, size))
      ensures parts == if done then old(parts)[selected := SetSize(old(parts)[selected], size.n)] else old(parts)
      ensures dirty == (old(dirty) || done)
    {
      hide ValidParts, LogicalsFit, Container, HasRoom, Regions, Canonical, ValidLogicals;
      if readOnly || parts[selected].size == 0 || !size.Number? || size.n == 0 || size.n > 0xFFFF_FFFF {
        return false;
      }
      var proposed := parts[selected := parts[selected].(size := size.n)];
      var ok := ValidateParts(proposed, sectors);
      if !ok {
        return false;
      }
      if proposed[selected].Extended() {
        ok := ValidateLogicals(proposed[selected], logical);
        if !ok {
          return false;
        }
      }
      if proposed == parts {
        assert proposed[selected] == parts[selected];
        return false;
      }
      ResizedSound(parts, logical, sectors, selected, size);
      FirstRows(proposed, logical);
      parts, dirty := proposed, true;
      done := true;
    }

    /** Sort: the slots by start sector; a primary selection stays on its partition. */
    method SortByStart() returns (done: bool)
      requires Valid() && OnRow()
      modifies this`parts, this`selected, this`dirty
      ensures Valid() && OnRow() && done == (!readOnly && SortedParts(old(parts)) != old(parts))
      ensures parts == if done then SortedParts(old(parts)) else old(parts)
      ensures dirty == (old(dirty) || done) && Container(parts) == Container(old(parts))
      ensures !done || old(selected) >= 4 ==> selected == old(selected)
      ensures done && old(selected) < 4 && old(parts)[old(selected)].size != 0 ==>
          selected < 4 && parts[selected] == old(parts)[old(selected)]
      ensures done && old(selected) < 4 && old(parts)[old(selected)].size == 0 ==> selected == 0
    {
      hide ValidParts, LogicalsFit, Container, HasRoom, Regions, Canonical, SortedParts;
      var sorted := SortedParts(parts);
      if readOnly || sorted == parts {
        return false;
      }
      SortedSound(parts, logical, sectors);
      SortedContainer(parts, sectors);
      FirstRows(sorted, logical);
      var i := selected;
      if selected < 4 {
        i := 0;
        if parts[selected].size != 0 {
          ghost var k := SortedHas(parts, sectors, selected);
          i := FindPart(sorted, parts[selected]);
        }
      }
      parts, selected, dirty := sorted, i, true;
      done := true;
    }

    /** Change the type on a primary row: at most one container, and never from under logical partitions. */
    method ChangeTypePrimary(answer: TypeAnswer) returns (done: bool)
      requires Valid() && OnRow() && selected < 4
      modifies this`parts, this`dirty
      ensures Valid() && OnRow()
      ensures done == (!readOnly && old(parts)[selected].size != 0 && answer.Type? && answer.kind != 0
        && (ExtendedType(answer.kind) && !old(parts)[selected].Extended() ==> Container(old(parts)).None?)
        && (old(parts)[selected].Extended() && !ExtendedType(answer.kind) ==> logical == []))
      ensures parts == if done then old(parts)[selected := old(parts)[selected].(kind := answer.kind)] else old(parts)
      ensures dirty == (old(dirty) || done)
    {
      hide ValidParts, LogicalsFit, HasRoom, Regions, Canonical;
      if readOnly || parts[selected].size == 0 || !answer.Type? || answer.kind == 0 {
        return false;
      }
      var was, will := parts[selected].Extended(), ExtendedType(answer.kind);
      if will && !was && FindExtended(parts, 0) < 4 {
        return false;
      }
      if was && !will && logical != [] {
        return false;
      }
      RelabelledSound(parts, logical, sectors, selected, answer.kind, parts[selected].bootable);
      FirstRows(parts[selected := parts[selected].(kind := answer.kind)], logical);
      parts, dirty := parts[selected := parts[selected].(kind := answer.kind)], true;
      done := true;
    }

    method TogglePrimary() returns (done: bool)
      requires Valid() && OnRow() && selected < 4
      modifies this`parts, this`dirty
      ensures Valid() && OnRow() && done == (!readOnly && old(parts)[selected].size != 0)
      ensures parts == if done
        then old(parts)[selected := old(parts)[selected].(bootable := !old(parts)[selected].bootable)] else old(parts)
      ensures dirty == (old(dirty) || done)
    {
      hide ValidParts, LogicalsFit, HasRoom, Regions, Canonical;
      if readOnly || parts[selected].size == 0 {
        return false;
      }
      var p := parts[selected];
      KindSet(parts, sectors, selected);
      RelabelledSound(parts, logical, sectors, selected, p.kind, !p.bootable);
      FirstRows(parts[selected := p.(bootable := !p.bootable)], logical);
      parts, dirty := parts[selected := p.(bootable := !p.bootable)], true;
      done := true;
    }

    /** New on a logical row, or on the row of free space: exactly when the partition asked for can join the list. */
    method NewLogical(start: Answer, size: Answer) returns (created: bool)
      requires Valid() && OnRow() && 4 <= selected
      modifies this`logical, this`selected, this`dirty
      ensures Valid() && OnRow() && Container(parts).Some?
      ensures created == (!readOnly && CanCreateLogical(Container(parts).value, old(logical), start, size))
      ensures !created ==> logical == old(logical) && selected == old(selected) && dirty == old(dirty)
      ensures created ==> dirty && 4 <= selected
      ensures created ==> Joins(Container(parts).value, old(logical), logical, selected - 4,
                                AskedLogical(Container(parts).value, old(logical), start, size).value)
    {
      hide Sound, ValidLogicals, InOrder, Regions, HasRoom, RowCount, Container, CanCreateLogical, AskedLogical;
      HasContainer(parts, logical, sectors, selected);
      if readOnly {
        return false;
      }
      var after, at := AddLogical(Container(parts).value, logical, start, size);
      if after.None? {
        return false;
      }
      SoundWith(parts, logical, after.value, sectors);
      LogicalRows(parts, after.value);
      logical, selected, dirty := after.value, 4 + at, true;
      created := true;
    }

    /** Delete on a logical row. Only here can the selection be left beyond the last row. */
    method DeleteLogical() returns (done: bool)
      requires Valid() && OnRow() && 4 <= selected < 4 + |logical|
      modifies this`logical, this`dirty
      ensures Valid() && Container(parts).Some? && done == !readOnly
      ensures logical == if done then old(logical)[..selected - 4] + old(logical)[selected - 3..] else old(logical)
      ensures dirty == (old(dirty) || done)
      ensures OnRow() <==> !done || selected - 4 < |logical| || HasRoom(Regions(Container(parts).value, logical))
    {
      hide Sound, ValidLogicals, InOrder, Regions, HasRoom, RowCount, Container;
      HasContainer(parts, logical, sectors, selected);
      if readOnly {
        return false;
      }
      var after := logical[..selected - 4] + logical[selected - 3..];
      RemovedLogical(Container(parts).value, logical, selected - 4);
      SoundWith(parts, logical, after, sectors);
      LogicalRows(parts, after);
      logical, dirty := after, true;
      done := true;
    }

    method ResizeLogical(size: Answer) returns (done: bool)
      requires Valid() && OnRow() && 4 <= selected < 4 + |logical|
      modifies this`logical, this`dirty
      ensures Valid() && OnRow() && Container(parts).Some?
      ensures done == (!readOnly && CanResizeLogical(Container(parts).value, old(logical), selected - 4, size))
      ensures logical == if done then SetLogicalSize(old(logical), selected - 4, size.n) else old(logical)
      ensures dirty == (old(dirty) || done)
    {
      hide Sound, ValidLogicals, InOrder, Regions, HasRoom, RowCount, Container;
      HasContainer(parts, logical, sectors, selected);
      if readOnly || !size.Number? || size.n == 0 || size.n > 0xFFFF_FFFF {
        return false;
      }
      var entry := logical[selected - 4];
      var proposed := logical[selected - 4 := entry.(part := entry.part.(size := size.n))];
      var ok := ValidateLogicals(Container(parts).value, proposed);
      if !ok {
        return false;
      }
      ResizedOrder(logical, selected - 4, size.n);
      SoundWith(parts, logical, proposed, sectors);
      LogicalRows(parts, proposed);
      logical, dirty := proposed, true;
      done := true;
    }

    /** Change the type on a logical row: to anything but empty or extended. */
    method ChangeTypeLogical(answer: TypeAnswer) returns (done: bool)
      requires Valid() && OnRow() && 4 <= selected < 4 + |logical|
      modifies this`logical, this`dirty
      ensures Valid() && OnRow()
      ensures done == (!readOnly && answer.Type? && answer.kind != 0 && !ExtendedType(answer.kind))
      ensures logical == if done
        then Relabel(old(logical), selected - 4, answer.kind, old(logical)[selected - 4].part.bootable)
        else old(logical)
      ensures dirty == (old(dirty) || done)
    {
      hide Sound, ValidLogicals, InOrder, Regions, HasRoom, RowCount, Container;
      HasContainer(parts, logical, sectors, selected);
      if readOnly || !answer.Type? || answer.kind == 0 || ExtendedType(answer.kind) {
        return false;
      }
      var entry := logical[selected - 4];
      var after := logical[selected - 4 := entry.(part := entry.part.(kind := answer.kind))];
      RelabelledLogical(Container(parts).value, logical, selected - 4, answer.kind,
        logical[selected - 4].part.bootable);
      SoundWith(parts, logical, after, sectors);
      LogicalRows(parts, after);
      logical, dirty := after, true;
      done := true;
    }

    method ToggleLogical() returns (done: bool)
      requires Valid() && OnRow() && 4 <= selected < 4 + |logical|
      modifies this`logical, this`dirty
      ensures Valid() && OnRow() && done == !readOnly
      ensures logical == if done
        then Relabel(old(logical), selected - 4, old(logical)[selected - 4].part.kind,
          !old(logical)[selected - 4].part.bootable)
        else old(logical)
      ensures dirty == (old(dirty) || done)
    {
      hide Sound, ValidLogicals, InOrder, Regions, HasRoom, RowCount, Container;
      HasContainer(parts, logical, sectors, selected);
      LogicalKind(Container(parts).value, logical, selected - 4);
      if readOnly {
        return false;
      }
      var entry := logical[selected - 4];
      var part := entry.part;
      var after := logical[selected - 4 := entry.(part := part.(bootable := !part.bootable))];
      RelabelledLogical(Container(parts).value, logical, selected - 4, part.kind, !part.bootable);
      SoundWith(parts, logical, after, sectors);
      LogicalRows(parts, after);
      logical, dirty := after, true;
      done := true;
    }

    /** There is something to write, the answer was yes, and the disk still holds what was read. */
    ghost predicate Permitted(first: seq<byte>, confirmed: bool, dirty: bool, sector: seq<byte>) {
      !readOnly && dirty && confirmed && first == sector
    }

    /**
     * Write: validation never stands in the way, and it is done exactly when the device takes all its steps. What
     * was written reads back slot by slot, and the logical partitions exactly when the disk was prepared for
     * them. At every crash the old boot record is there or the whole chain; the boot record never points at a
     * part of the chain except when the old one already pointed there.
     */
    method WriteTable(disk: Disk, confirmed: bool) returns (ok: bool, ghost writes: seq<Write>)
      requires Valid() && |disk.durable| == sectors && Sectored(disk.durable) && disk.pending == []
      modifies disk, this`sector, this`dirty
      ensures Valid() && parts == old(parts) && logical == old(logical)
      ensures ok <==>
          Permitted(old(disk.durable)[0], confirmed, old(dirty), old(sector)) && Steps(|logical|) <= old(disk.patience)
      ensures !Permitted(old(disk.durable)[0], confirmed, old(dirty), old(sector)) ==>
          disk.history == old(disk.history) && disk.durable == old(disk.durable) && disk.pending == []
      ensures !ok ==> dirty == old(dirty) && sector == old(sector)
      ensures ok ==> !dirty && disk.pending == [] && |disk.durable| == sectors
      ensures ok ==> Sectored(disk.durable) && disk.durable[0] == sector
      ensures ok ==> Get(sector, 0, 446) == Get(old(sector), 0, 446)
      ensures ok ==> forall i :: 0 <= i < 4 ==> ReadSlot(sector, i) == parts[i]
      ensures ok && Container(parts).Some? ==>
          ReadsBack(old(disk.durable), disk.durable, Container(parts).value, logical)
      ensures Container(parts).Some? ==> AreRecords(Container(parts).value, logical, writes, |logical|)
      ensures Container(parts).None? ==> writes == []
      ensures old(disk.history) <= disk.history
      ensures AllStaged(disk.history, |old(disk.history)|, old(disk.durable), writes)
      ensures ok ==> disk.durable == Written(old(disk.durable), writes, sector)
      ensures ok ==> OthersKept(disk.durable, old(disk.durable), writes)
      ensures ok ==> forall start ::
          NeverDangles(disk.history, |old(disk.history)|, start, writes)
          <==> !Points(old(disk.durable)[0], start) || Holds(old(disk.durable), writes)
    {
      hide ValidParts, LogicalsFit, MbrBytes, Get, ReadSlot, Walk, Canonical, Container, ValidLogicals, AreRecords;
      hide Staged, Separate, Written, NeverDangles, Points, Holds, ReadsBack, OthersKept;
      ghost var was := disk.durable;
      var built: seq<Write> := [];
      NoRecords(was);
      var valid := ValidateParts(parts, sectors);
      var container := Container(parts);
      if container.Some? {
        ContainerSound(parts, logical, sectors);
        var fit := ValidateLogicals(container.value, logical);
        built := ChainWrites(container.value, logical);
      } else {
        NoLogicals(parts, logical, sectors);
      }
      writes := built;
      if readOnly || !dirty || disk.durable[0] != sector || !confirmed {
        return false, built;
      }
      var mbr := BuildMbr(sector, parts);
      NormalSlots(sector, parts);
      if container.Some? {
        RecordsCount(container.value, logical, built);
        RecordsSeparate(was, container.value, logical, built, mbr[..]);
        WrittenReads(was, container.value, logical, built, mbr[..]);
      } else {
        RootOnly(was, mbr[..]);
      }
      ok := WriteDos(disk, built, mbr[..]);
      if ok {
        RootWritten(was, built, mbr[..]);
        sector, dirty := mbr[..], false;
      }
    }
  }

  lemma NoRecords(was: Image)
    ensures Separate([], |was|)
  {
  }

  lemma NoLogicals(parts: Slots, logical: seq<Logical>, sectors: nat)
    requires Sound(parts, logical, sectors) && Container(parts).None?
    ensures logical == []
  {
  }

  lemma RootOnly(was: Image, mbr: seq<byte>)
    requires Sectored(was) && 0 < |was| && |mbr| == SECTOR
    ensures Sectored(Written(was, [], mbr))
  {
  }

  lemma RootWritten(was: Image, writes: seq<Write>, mbr: seq<byte>)
    requires 0 < |was|
    ensures Written(was, writes, mbr)[0] == mbr && |Written(was, writes, mbr)| == |was|
  {
  }
}
