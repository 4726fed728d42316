/** The chain of boot records inside an extended partition: writing it and walking it. */
module EbrChain {
  import opened Bits
  import opened ByteBuffers
  import opened Extents
  import opened DosTable
  import opened Logicals
  import opened Disks
  import opened Outcomes
  import Sorting

  const CHAIN_LIMIT := 256

  // ----- Building

  /** Where the link of record `i` leads: the next record, and the end of its sub-container. */
  function LinkEnd(extended: Partition, list: seq<Logical>, i: nat): nat
    requires i + 1 < |list|
  {
    if i + 2 < |list| then list[i + 2].ebr else End(extended)
  }

  /** The checks that building makes on record `i`. */
  predicate RecordFits(extended: Partition, list: seq<Logical>, i: nat)
    requires i < |list|
  {
    && list[i].ebr < list[i].part.start && list[i].part.start - list[i].ebr < UINT32
    && (i + 1 < |list| ==>
      && extended.start <= list[i + 1].ebr < LinkEnd(extended, list, i)
      && list[i + 1].ebr - extended.start < UINT32 && LinkEnd(extended, list, i) - list[i + 1].ebr < UINT32)
  }

  function Link(extended: Partition, list: seq<Logical>, i: nat): Partition
    requires i < |list| && RecordFits(extended, list, i)
  {
    if i + 1 < |list| then
      Partition(list[i + 1].ebr - extended.start, LinkEnd(extended, list, i) - list[i + 1].ebr, extended.kind, false)
    else NONE
  }

  /** The entry relative to its own record, and the link relative to the container. */
  function Record(extended: Partition, list: seq<Logical>, i: nat): Slots
    requires i < |list| && RecordFits(extended, list, i)
  {
    [list[i].part.(start := list[i].part.start - list[i].ebr), Link(extended, list, i), NONE, NONE]
  }

  ghost predicate AllFit(extended: Partition, list: seq<Logical>) {
    forall i :: 0 <= i < |list| ==> RecordFits(extended, list, i)
  }

  /** The first `n` boot records as sector writes. */
  ghost predicate AreRecords(extended: Partition, list: seq<Logical>, writes: seq<Write>, n: nat) {
    && |writes| == n <= |list| && (forall i :: 0 <= i < n ==> RecordFits(extended, list, i))
    && forall i :: 0 <= i < n ==> writes[i] == Write(list[i].ebr, RecordBytes(extended, list, i))
  }

  /** The list is put in start order; then each record is built, or the first check that fails ends it. */
  method BuildChain(extended: Partition, logical: seq<Logical>) returns (list: seq<Logical>, writes: Option<seq<Write>>)
    ensures InOrder(list) && multiset(list) == multiset(logical)
    ensures writes.Some? <==> AllFit(extended, list)
    ensures writes.Some? ==> AreRecords(extended, list, writes.value, |list|)
    ensures ValidLogicals(extended, list) ==> writes.Some? && ChainLayout(extended, list, writes.value)
  {
    hide MbrBytes, Zeros, InOrder, ValidLogicals, ChainLayout;
    list := SortLogicals(logical);
    var built: seq<Write> := [];
    for i := 0 to |list|
      invariant AreRecords(extended, list, built, i)
    {
      var l := list[i];
      if l.ebr >= l.part.start || l.part.start - l.ebr > 0xFFFF_FFFF {
        BuildingStops(extended, list, i);
        return list, None;
      }
      var link := NONE;
      if i + 1 < |list| {
        var next := list[i + 1].ebr;
        var linkEnd := extended.start + extended.size;
        if i + 2 < |list| {
          linkEnd := list[i + 2].ebr;
        }
        if next < extended.start || linkEnd <= next || next - extended.start > 0xFFFF_FFFF
          || linkEnd - next > 0xFFFF_FFFF
        {
          BuildingStops(extended, list, i);
          return list, None;
        }
        link := Partition(next - extended.start, linkEnd - next, extended.kind, false);
      }
      var table := [l.part.(start := l.part.start - l.ebr), link, NONE, NONE];
      assert table == Record(extended, list, i);
      var sector := BuildMbr(Zeros(SECTOR), table);
      built := built + [Write(l.ebr, sector[..])];
    }
    BuiltLayout(extended, list, built);
    return list, Some(built);
  }

  lemma BuildingStops(extended: Partition, list: seq<Logical>, i: nat)
    requires i < |list| && !RecordFits(extended, list, i) && InOrder(list)
    ensures !AllFit(extended, list) && !ValidLogicals(extended, list)
  {
    if ValidLogicals(extended, list) {
      ValidFits(extended, list);
    }
  }

  /** Building never refuses a valid list. */
  lemma ValidFits(extended: Partition, list: seq<Logical>)
    requires ValidLogicals(extended, list) && InOrder(list)
    ensures AllFit(extended, list)
  {
    OrderChains(extended, list);
    hide AllApart, InOrder, Used, Chained;
    forall i | 0 <= i < |list| ensures RecordFits(extended, list, i) {
      assert LogicalSound(extended, list[i]);
      if i + 1 < |list| {
        assert LogicalSound(extended, list[i + 1]);
      }
      if i + 2 < |list| {
        assert LogicalSound(extended, list[i + 2]);
        RecordsFollow(list, i + 1);
      }
    }
  }

  lemma {:induction false} RecordsFollow(list: seq<Logical>, i: nat)
    requires Chained(Used(list)) && i + 1 < |list|
    ensures list[i].part.start + list[i].part.size <= list[i + 1].ebr
  {
    assert Used(list)[i].end <= Used(list)[i + 1].start;
  }

  // ----- What the records say

  /** The sectors that the link in a boot record names, from the front of the container on. */
  ghost predicate Linked(extended: Partition, record: seq<byte>, lba: nat)
    requires |record| == SECTOR
  {
    var link := ReadSlot(record, 1);
    extended.start + link.start <= lba < extended.start + link.start + link.size
  }

  /**
   * The record of entry `i`: its partition from the record on, and a link over the boot record and the partition of
   * the next entry, as far as the boot record behind them or the end of the container. The last links nowhere.
   */
  ghost predicate RecordLayout(extended: Partition, list: seq<Logical>, i: nat, record: seq<byte>)
    requires i < |list|
  {
    && |record| == SECTOR && Signed(record)
    && list[i].ebr + ReadSlot(record, 0).start == list[i].part.start && ReadSlot(record, 0).size == list[i].part.size
    && ReadSlot(record, 0).kind == list[i].part.kind && ReadSlot(record, 0).bootable == list[i].part.bootable
    && (if i + 1 == |list| then ReadSlot(record, 1).size == 0
        else
          && ReadSlot(record, 1).kind == extended.kind
          && extended.start + ReadSlot(record, 1).start == list[i + 1].ebr
          && extended.start + ReadSlot(record, 1).start + ReadSlot(record, 1).size
            == (if i + 2 < |list| then list[i + 2].ebr else extended.start + extended.size))
    && ReadSlot(record, 2).size == 0 && ReadSlot(record, 3).size == 0
  }

  /** Each link holds the next entry whole and nothing of the others behind it. */
  ghost predicate HoldsNext(extended: Partition, list: seq<Logical>, i: nat, record: seq<byte>)
    requires i + 1 < |list| && |record| == SECTOR
  {
    && (forall x: nat :: list[i + 1].ebr <= x < list[i + 1].part.start + list[i + 1].part.size ==>
        Linked(extended, record, x))
    && forall j: nat, x: nat :: i + 1 < j < |list| && list[j].ebr <= x < list[j].part.start + list[j].part.size ==>
        !Linked(extended, record, x)
  }

  ghost predicate RecordsLaid(extended: Partition, list: seq<Logical>, writes: seq<Write>) {
    && |writes| == |list|
    && forall i: nat :: i < |list| ==>
        && writes[i].lba == list[i].ebr && |writes[i].data| == SECTOR
        && RecordLayout(extended, list, i, writes[i].data)
  }

  /** Some link names the sector. */
  ghost predicate Covered(extended: Partition, list: seq<Logical>, writes: seq<Write>, x: nat)
    requires RecordsLaid(extended, list, writes)
  {
    exists i: nat :: i + 1 < |list| && Linked(extended, writes[i].data, x)
  }

  /** No two links name the same sector. */
  ghost predicate LinksDisjoint(extended: Partition, list: seq<Logical>, writes: seq<Write>)
    requires RecordsLaid(extended, list, writes)
  {
    forall i: nat, j: nat, x: nat :: i < j && j + 1 < |list| ==>
        !Linked(extended, writes[i].data, x) || !Linked(extended, writes[j].data, x)
  }

  /**
   * The records of a chain, each at its place. From the second record on, the links cover every sector of the
   * container exactly once.
   */
  ghost predicate ChainLayout(extended: Partition, list: seq<Logical>, writes: seq<Write>) {
    && RecordsLaid(extended, list, writes)
    && (forall i: nat :: i + 1 < |list| ==> HoldsNext(extended, list, i, writes[i].data))
    && (|list| > 1 ==> forall x: nat {:trigger Covered(extended, list, writes, x)} ::
        list[1].ebr <= x < extended.start + extended.size <==> Covered(extended, list, writes, x))
    && LinksDisjoint(extended, list, writes)
  }

  lemma RecordIs(extended: Partition, list: seq<Logical>, i: nat)
    requires i < |list| && RecordFits(extended, list, i) && list[i].part.size != 0
    ensures |RecordBytes(extended, list, i)| == SECTOR
    ensures RecordLayout(extended, list, i, RecordBytes(extended, list, i))
  {
    hide MbrBytes, ReadSlot, Signed;
    MbrRoundTrip(Zeros(SECTOR), Record(extended, list, i), 0);
    MbrRoundTrip(Zeros(SECTOR), Record(extended, list, i), 1);
    MbrRoundTrip(Zeros(SECTOR), Record(extended, list, i), 2);
    MbrRoundTrip(Zeros(SECTOR), Record(extended, list, i), 3);
  }

  /** Where the link of a record begins and ends among valid entries. */
  lemma LinkHoldsNext(extended: Partition, list: seq<Logical>, i: nat, record: seq<byte>)
    requires ValidLogicals(extended, list) && InOrder(list) && i + 1 < |list|
    requires RecordLayout(extended, list, i, record)
    ensures HoldsNext(extended, list, i, record)
  {
    OrderChains(extended, list);
    ValidAscends(extended, list);
    hide AllApart, InOrder, Chained, ReadSlot, Signed, Used;
    assert LogicalSound(extended, list[i + 1]);
    if i + 2 < |list| {
      RecordsFollow(list, i + 1);
    }
    forall j: nat, x: nat | i + 1 < j < |list| && list[j].ebr <= x < list[j].part.start + list[j].part.size
      ensures !Linked(extended, record, x)
    {
      assert i + 2 < j ==> list[i + 2].ebr < list[j].ebr;
    }
  }

  /** The record whose link covers a sector: the last one whose link does not begin behind it. */
  lemma {:induction false} LinkAround(extended: Partition, list: seq<Logical>, writes: seq<Write>, i: nat, x: nat)
    requires RecordsLaid(extended, list, writes)
    requires i + 1 < |list| && list[i + 1].ebr <= x < extended.start + extended.size
    ensures Covered(extended, list, writes, x)
    decreases |list| - i
  {
    hide ReadSlot, Signed;
    assert RecordLayout(extended, list, i, writes[i].data);
    if i + 2 < |list| && list[i + 2].ebr <= x {
      LinkAround(extended, list, writes, i + 1, x);
    } else {
      assert Linked(extended, writes[i].data, x);
    }
  }

  /** No link begins before the second record or ends behind the container. */
  lemma LinkInside(extended: Partition, list: seq<Logical>, writes: seq<Write>, i: nat, x: nat)
    requires RecordsLaid(extended, list, writes) && RecordsAscend(list) && i + 1 < |list|
    requires forall k :: 0 <= k < |list| ==> list[k].ebr < End(extended)
    requires Linked(extended, writes[i].data, x)
    ensures list[1].ebr <= x < extended.start + extended.size
  {
    hide ReadSlot, Signed;
    assert RecordLayout(extended, list, i, writes[i].data);
    assert i > 0 ==> list[1].ebr < list[i + 1].ebr;
  }

  lemma TwoApart(extended: Partition, list: seq<Logical>, i: nat, j: nat, first: seq<byte>, second: seq<byte>, x: nat)
    requires i < j && j + 1 < |list| && RecordsAscend(list)
    requires RecordLayout(extended, list, i, first) && RecordLayout(extended, list, j, second)
    ensures !Linked(extended, first, x) || !Linked(extended, second, x)
  {
    hide ReadSlot, Signed;
    assert i + 1 < j ==> list[i + 2].ebr < list[j + 1].ebr;
  }

  lemma LinksApart(extended: Partition, list: seq<Logical>, writes: seq<Write>)
    requires RecordsLaid(extended, list, writes) && RecordsAscend(list)
    ensures LinksDisjoint(extended, list, writes)
  {
    hide RecordLayout, Linked, RecordsAscend;
    forall i: nat, j: nat, x: nat | i < j && j + 1 < |list|
      ensures !Linked(extended, writes[i].data, x) || !Linked(extended, writes[j].data, x)
    {
      TwoApart(extended, list, i, j, writes[i].data, writes[j].data, x);
    }
  }

  lemma RecordsAre(extended: Partition, list: seq<Logical>, writes: seq<Write>)
    requires AreRecords(extended, list, writes, |list|) && ValidLogicals(extended, list)
    ensures RecordsLaid(extended, list, writes)
  {
    hide AllApart, RecordBytes, RecordFits, RecordLayout, Used;
    forall i: nat | i < |list|
      ensures writes[i].lba == list[i].ebr && |writes[i].data| == SECTOR
        && RecordLayout(extended, list, i, writes[i].data)
    {
      assert LogicalSound(extended, list[i]);
      RecordIs(extended, list, i);
    }
  }

  lemma LinksCover(extended: Partition, list: seq<Logical>, writes: seq<Write>, x: nat)
    requires RecordsLaid(extended, list, writes) && RecordsAscend(list) && |list| > 1
    requires forall k :: 0 <= k < |list| ==> list[k].ebr < End(extended)
    ensures list[1].ebr <= x < extended.start + extended.size <==> Covered(extended, list, writes, x)
  {
    hide RecordLayout, Linked, RecordsAscend;
    if list[1].ebr <= x < extended.start + extended.size {
      LinkAround(extended, list, writes, 0, x);
    }
    if Covered(extended, list, writes, x) {
      var i: nat :| i + 1 < |list| && Linked(extended, writes[i].data, x);
      LinkInside(extended, list, writes, i, x);
    }
  }

  /** The records of a valid list, as bytes, and the sectors that their links name. */
  lemma BuiltLayout(extended: Partition, list: seq<Logical>, writes: seq<Write>)
    requires InOrder(list) && AreRecords(extended, list, writes, |list|)
    ensures ValidLogicals(extended, list) ==> ChainLayout(extended, list, writes)
  {
    if ValidLogicals(extended, list) {
      ValidAscends(extended, list);
      RecordsAre(extended, list, writes);
      LinksApart(extended, list, writes);
      hide ValidLogicals, InOrder, AreRecords, RecordLayout, HoldsNext, Linked, RecordsAscend, LinksDisjoint, Covered;
      forall i: nat | i + 1 < |list| ensures HoldsNext(extended, list, i, writes[i].data) {
        LinkHoldsNext(extended, list, i, writes[i].data);
      }
      if |list| > 1 {
        forall x: nat
          ensures list[1].ebr <= x < extended.start + extended.size <==> Covered(extended, list, writes, x)
        {
          LinksCover(extended, list, writes, x);
        }
      }
    }
  }

  // ----- Walking

  ghost predicate Sectored(img: Image) {
    forall lba :: 0 <= lba < |img| ==> |img[lba]| == SECTOR
  }

  /** The partition that a boot record at `ebr` describes, if any; an error when it leaves the container. */
  function Described(extended: Partition, ebr: nat, entry: Partition): Option<seq<Logical>> {
    if entry.size == 0 then Some([])
    else if ebr + entry.start >= UINT32 || ebr + entry.start + entry.size > End(extended) then None
    else Some([Logical(entry.(start := ebr + entry.start), ebr)])
  }

  predicate InReach(img: Image, extended: Partition, ebr: nat) {
    extended.start <= ebr < End(extended) && ebr < |img|
  }

  /** The chain from the record at `ebr` on, in at most `hops` records. */
  function Walk(img: Image, extended: Partition, ebr: nat, hops: nat): Option<seq<Logical>>
    requires Sectored(img)
    decreases hops
  {
    if hops == 0 || !InReach(img, extended, ebr) then None
    else if !Signed(img[ebr]) then Some([])
    else
      var here, link := Described(extended, ebr, ReadSlot(img[ebr], 0)), ReadSlot(img[ebr], 1);
      if here.None? then None
      else if link.size == 0 then here
      else if extended.start + link.start <= ebr then None
      else match Walk(img, extended, extended.start + link.start, hops - 1)
        case None => None
        case Some(rest) => Some(here.value + rest)
  }

  function Joined(done: seq<Logical>, rest: Option<seq<Logical>>): Option<seq<Logical>> {
    if rest.None? then None else Some(done + rest.value)
  }

  /** The loop over the chain, and the sort at its end. */
  method ReadChain(img: Image, extended: Partition) returns (logical: Option<seq<Logical>>)
    requires Sectored(img)
    ensures logical.Some? <==> Walk(img, extended, extended.start, 256).Some?
    ensures logical.Some? ==> InOrder(logical.value)
    ensures logical.Some? ==> multiset(logical.value) == multiset(Walk(img, extended, extended.start, 256).value)
    ensures logical.Some? ==> Contained(extended, logical.value)
    ensures var walk := Walk(img, extended, extended.start, 256);
      walk.Some? && ValidLogicals(extended, walk.value) && InOrder(walk.value) ==> logical == walk
  {
    hide ReadSlot, Walk, ValidLogicals, InOrder, Contained;
    var result: seq<Logical> := [];
    var ebr: nat, hop: nat := extended.start, 0;
    var containerEnd := extended.start + extended.size;
    ghost var whole := Walk(img, extended, extended.start, CHAIN_LIMIT);
    JoinedNone(whole);
    while true
      invariant hop <= CHAIN_LIMIT && whole == Joined(result, Walk(img, extended, ebr, CHAIN_LIMIT - hop))
      decreases CHAIN_LIMIT - hop
    {
      if hop >= CHAIN_LIMIT || ebr < extended.start || ebr >= containerEnd || ebr >= |img| {
        WalkStops(img, extended, ebr, CHAIN_LIMIT - hop);
        return None;
      }
      var sector := img[ebr];
      if sector[510] != 0x55 || sector[511] != 0xAA {
        WalkEnds(img, extended, ebr, CHAIN_LIMIT - hop, result);
        break;
      }
      var entry, link := ReadSlot(sector, 0), ReadSlot(sector, 1);
      var here: seq<Logical> := [];
      if entry.size != 0 {
        var dataStart := ebr + entry.start;
        if dataStart > 0xFFFF_FFFF || dataStart + entry.size > containerEnd {
          WalkBreaks(img, extended, ebr, CHAIN_LIMIT - hop);
          return None;
        }
        here := [Logical(Partition(dataStart, entry.size, entry.kind, entry.bootable), ebr)];
      }
      WalkStep(img, extended, ebr, CHAIN_LIMIT - hop, result);
      result := result + here;
      if link.size == 0 {
        break;
      }
      if extended.start + link.start <= ebr {
        WalkBreaks(img, extended, ebr, CHAIN_LIMIT - hop);
        return None;
      }
      ebr, hop := extended.start + link.start, hop + 1;
    }
    var sorted := SortLogicals(result);
    SortedRead(img, extended, result, sorted);
    return Some(sorted);
  }

  /** What is read lies in the container, boot records before data, valid or not. */
  lemma ReadContained(img: Image, extended: Partition, list: seq<Logical>, sorted: seq<Logical>)
    requires Sectored(img) && Walk(img, extended, extended.start, CHAIN_LIMIT) == Some(list)
    requires multiset(sorted) == multiset(list)
    ensures Contained(extended, sorted)
  {
    hide Walk;
    WalkAdvances(img, extended, extended.start, CHAIN_LIMIT);
    WalkSized(img, extended, extended.start, CHAIN_LIMIT);
    Sorting.SameMembers(list, sorted);
    forall k | 0 <= k < |sorted|
      ensures extended.start <= sorted[k].ebr < sorted[k].part.start + sorted[k].part.size <= End(extended)
    {
      assert sorted[k] in list;
    }
  }

  /** Sorting changes nothing in a valid list that is read in order. */
  lemma SortedRead(img: Image, extended: Partition, list: seq<Logical>, sorted: seq<Logical>)
    requires Sectored(img) && Walk(img, extended, extended.start, CHAIN_LIMIT) == Some(list)
    requires multiset(sorted) == multiset(list) && InOrder(sorted)
    ensures Contained(extended, sorted)
    ensures ValidLogicals(extended, list) && InOrder(list) ==> sorted == list
  {
    ReadContained(img, extended, list, sorted);
    hide Walk, ValidLogicals, InOrder;
    if ValidLogicals(extended, list) && InOrder(list) {
      ValidStartsAscend(extended, list);
      OrderUnique(list, sorted);
    }
  }

  lemma {:induction false} WalkSized(img: Image, extended: Partition, ebr: nat, hops: nat)
    requires Sectored(img) && Walk(img, extended, ebr, hops).Some?
    ensures forall k :: 0 <= k < |Walk(img, extended, ebr, hops).value| ==>
        Walk(img, extended, ebr, hops).value[k].part.size != 0
    decreases hops
  {
    hide ReadSlot, Signed;
    if Signed(img[ebr]) && ReadSlot(img[ebr], 1).size != 0 {
      WalkSized(img, extended, extended.start + ReadSlot(img[ebr], 1).start, hops - 1);
    }
  }

  lemma JoinedNone(whole: Option<seq<Logical>>)
    ensures whole == Joined([], whole)
  {
    if whole.Some? {
      assert [] + whole.value == whole.value;
    }
  }

  lemma WalkStops(img: Image, extended: Partition, ebr: nat, hops: nat)
    requires Sectored(img) && (hops == 0 || !InReach(img, extended, ebr))
    ensures Walk(img, extended, ebr, hops) == None
  {
  }

  lemma WalkBreaks(img: Image, extended: Partition, ebr: nat, hops: nat)
    requires Sectored(img) && hops > 0 && InReach(img, extended, ebr) && Signed(img[ebr])
    requires Described(extended, ebr, ReadSlot(img[ebr], 0)).None?
      || (ReadSlot(img[ebr], 1).size != 0 && extended.start + ReadSlot(img[ebr], 1).start <= ebr)
    ensures Walk(img, extended, ebr, hops) == None
  {
    hide ReadSlot, Signed, Described;
  }

  lemma WalkEnds(img: Image, extended: Partition, ebr: nat, hops: nat, done: seq<Logical>)
    requires Sectored(img) && hops > 0 && InReach(img, extended, ebr) && !Signed(img[ebr])
    ensures Joined(done, Walk(img, extended, ebr, hops)) == Some(done)
  {
    assert done + [] == done;
  }

  lemma WalkStep(img: Image, extended: Partition, ebr: nat, hops: nat, done: seq<Logical>)
    requires Sectored(img) && hops > 0 && InReach(img, extended, ebr) && Signed(img[ebr])
    requires Described(extended, ebr, ReadSlot(img[ebr], 0)).Some?
    ensures var here, link := Described(extended, ebr, ReadSlot(img[ebr], 0)).value, ReadSlot(img[ebr], 1);
      if link.size == 0 then Joined(done, Walk(img, extended, ebr, hops)) == Some(done + here)
      else extended.start + link.start > ebr ==>
        Joined(done, Walk(img, extended, ebr, hops))
        == Joined(done + here, Walk(img, extended, extended.start + link.start, hops - 1))
  {
    hide ReadSlot, Signed, Described;
    var here, link := Described(extended, ebr, ReadSlot(img[ebr], 0)).value, ReadSlot(img[ebr], 1);
    if link.size != 0 && extended.start + link.start > ebr {
      var rest := Walk(img, extended, extended.start + link.start, hops - 1);
      if rest.Some? {
        Assoc(done, here, rest.value);
      }
    }
  }

  /** Whatever a disk holds, the walk goes forward, stays inside the container and ends within the limit. */
  lemma {:induction false} WalkAdvances(img: Image, extended: Partition, ebr: nat, hops: nat)
    requires Sectored(img) && Walk(img, extended, ebr, hops).Some?
    ensures var r := Walk(img, extended, ebr, hops).value;
      && |r| <= hops
      && (forall k :: 0 <= k < |r| ==>
          ebr <= r[k].ebr <= r[k].part.start && r[k].part.start + r[k].part.size <= End(extended))
      && (forall j, k :: 0 <= j < k < |r| ==> r[j].ebr < r[k].ebr)
    decreases hops
  {
    hide ReadSlot, Signed;
    if Signed(img[ebr]) && ReadSlot(img[ebr], 1).size != 0 {
      WalkAdvances(img, extended, extended.start + ReadSlot(img[ebr], 1).start, hops - 1);
    }
  }

  // ----- Round trip

  function RecordBytes(extended: Partition, list: seq<Logical>, i: nat): seq<byte>
    requires i < |list| && RecordFits(extended, list, i)
  {
    MbrBytes(Zeros(SECTOR), Record(extended, list, i))
  }

  ghost predicate RecordsAscend(list: seq<Logical>) {
    forall i, j :: 0 <= i < j < |list| ==> list[i].ebr < list[j].ebr
  }

  lemma ValidAscends(extended: Partition, list: seq<Logical>)
    requires ValidLogicals(extended, list) && InOrder(list)
    ensures RecordsAscend(list) && forall i :: 0 <= i < |list| ==> extended.start <= list[i].ebr < End(extended)
  {
    OrderChains(extended, list);
    hide AllApart, InOrder;
    forall i, j | 0 <= i < j < |list| ensures list[i].ebr < list[j].ebr {
      RecordsApart(list, extended, i, j);
    }
    forall i | 0 <= i < |list| ensures extended.start <= list[i].ebr < End(extended) {
      assert LogicalSound(extended, list[i]);
    }
  }

  lemma {:induction false} AppliedRecords(img: Image, extended: Partition, list: seq<Logical>, writes: seq<Write>,
      n: nat, i: nat)
    requires AreRecords(extended, list, writes, |list|) && RecordsAscend(list)
    requires n <= |list| && i < |list| && list[i].ebr < |img|
    ensures Applied(img, writes, n)[list[i].ebr] == if i < n then RecordBytes(extended, list, i) else img[list[i].ebr]
  {
    hide RecordBytes, RecordFits;
    if n > 0 {
      AppliedRecords(img, extended, list, writes, n - 1, i);
      assert i < n - 1 ==> list[i].ebr < list[n - 1].ebr;
      assert n - 1 < i ==> list[n - 1].ebr < list[i].ebr;
    }
  }

  lemma {:induction false} RecordsApart(list: seq<Logical>, extended: Partition, i: nat, j: nat)
    requires Chained(Used(list)) && ValidLogicals(extended, list) && i < j < |list|
    ensures list[i].ebr < list[j].ebr
  {
    LogicalsBetween(extended, list);
    ChainedReaches(Used(list), i, j, extended.start, End(extended));
    assert LogicalSound(extended, list[i]);
  }

  lemma {:induction false} AppliedSectored(img: Image, extended: Partition, list: seq<Logical>, writes: seq<Write>,
      n: nat)
    requires AreRecords(extended, list, writes, |list|) && n <= |list| && Sectored(img)
    ensures Sectored(Applied(img, writes, n))
  {
    hide RecordFits;
    if n > 0 {
      hide RecordBytes;
      AppliedSectored(img, extended, list, writes, n - 1);
    }
  }

  /** A disk on which record `i` is written and read back as what it describes. */
  ghost predicate Chains(img: Image, extended: Partition, list: seq<Logical>, i: nat)
    requires i < |list|
  {
    && list[i].ebr < |img| && |img[list[i].ebr]| == SECTOR && Signed(img[list[i].ebr])
    && extended.start <= list[i].ebr < End(extended)
    && Described(extended, list[i].ebr, ReadSlot(img[list[i].ebr], 0)) == Some([list[i]])
    && (if i + 1 < |list| then
          && ReadSlot(img[list[i].ebr], 1).size != 0
          && ReadSlot(img[list[i].ebr], 1).start == list[i + 1].ebr - extended.start
          && list[i].ebr < list[i + 1].ebr
        else ReadSlot(img[list[i].ebr], 1).size == 0)
  }

  lemma RecordChains(img: Image, extended: Partition, list: seq<Logical>, i: nat)
    requires i < |list| && RecordFits(extended, list, i) && LogicalSound(extended, list[i])
    requires i + 1 < |list| ==> list[i].ebr < list[i + 1].ebr
    requires list[i].ebr < |img| && img[list[i].ebr] == RecordBytes(extended, list, i)
    ensures Chains(img, extended, list, i)
  {
    hide MbrBytes, ReadSlot, Signed;
    MbrRoundTrip(Zeros(SECTOR), Record(extended, list, i), 0);
    MbrRoundTrip(Zeros(SECTOR), Record(extended, list, i), 1);
  }

  /** A chained disk is walked back as the list, within the limit and only within it. */
  lemma {:induction false} WalkChains(img: Image, extended: Partition, list: seq<Logical>, i: nat, hops: nat)
    requires Sectored(img) && i < |list| && forall k :: 0 <= k < |list| ==> Chains(img, extended, list, k)
    ensures Walk(img, extended, list[i].ebr, hops) == if |list| - i <= hops then Some(list[i..]) else None
    decreases hops
  {
    hide ReadSlot, Signed, Described;
    assert Chains(img, extended, list, i);
    assert list[i..] == [list[i]] + list[i + 1..];
    assert i + 1 == |list| ==> list[i..] == [list[i]];
    if hops > 0 && i + 1 < |list| {
      WalkChains(img, extended, list, i + 1, hops - 1);
    }
  }

  /** Writing a valid list leaves a disk on which every record chains. */
  lemma WrittenChains(img: Image, extended: Partition, list: seq<Logical>, writes: seq<Write>)
    requires Sectored(img) && End(extended) <= |img| && ValidLogicals(extended, list) && InOrder(list)
    requires AreRecords(extended, list, writes, |list|)
    ensures Sectored(Applied(img, writes, |writes|))
    ensures forall i :: 0 <= i < |list| ==> Chains(Applied(img, writes, |writes|), extended, list, i)
  {
    ValidAscends(extended, list);
    AppliedSectored(img, extended, list, writes, |list|);
    ListSound(extended, list);
    hide InOrder, ValidLogicals, LogicalSound, RecordBytes, RecordFits, Chains, Applied;
    var after := Applied(img, writes, |writes|);
    forall i | 0 <= i < |list| ensures Chains(after, extended, list, i) {
      AppliedRecords(img, extended, list, writes, |list|, i);
      RecordChains(after, extended, list, i);
    }
  }

  lemma ListSound(extended: Partition, list: seq<Logical>)
    requires ValidLogicals(extended, list)
    ensures forall i :: 0 <= i < |list| ==> LogicalSound(extended, list[i])
  {
  }

  /** Nothing is written below the first boot record. */
  lemma {:induction false} FrontKept(img: Image, extended: Partition, list: seq<Logical>, writes: seq<Write>, n: nat,
      lba: nat)
    requires AreRecords(extended, list, writes, |list|) && n <= |list|
    requires forall i :: 0 <= i < |list| ==> list[i].ebr > lba
    requires lba < |img|
    ensures Applied(img, writes, n)[lba] == img[lba]
  {
    hide RecordBytes, RecordFits;
    if n > 0 {
      FrontKept(img, extended, list, writes, n - 1, lba);
    }
  }

  /**
   * The number of records, none of which describes a partition, that lead from `ebr` to `target`.
   */
  function Lead(img: Image, extended: Partition, ebr: nat, target: nat): Option<nat>
    requires Sectored(img)
    decreases target - ebr
  {
    if ebr >= target then if ebr == target then Some(0) else None
    else if !InReach(img, extended, ebr) || !Signed(img[ebr]) || ReadSlot(img[ebr], 0).size != 0 then None
    else
      var link := ReadSlot(img[ebr], 1);
      if link.size == 0 || extended.start + link.start <= ebr then None
      else match Lead(img, extended, extended.start + link.start, target)
        case None => None
        case Some(n) => Some(n + 1)
  }

  /** A walk that begins behind the first record of a list, or with another partition, does not yield it. */
  lemma WalkElsewhere(img: Image, extended: Partition, list: seq<Logical>, ebr: nat, hops: nat)
    requires Sectored(img) && list != [] && ebr != list[0].ebr
    requires ebr < list[0].ebr ==> hops > 0 && InReach(img, extended, ebr) && Signed(img[ebr])
    requires ebr < list[0].ebr ==> ReadSlot(img[ebr], 0).size != 0
    ensures Walk(img, extended, ebr, hops) != Some(list)
  {
    hide ReadSlot, Signed;
    var r := Walk(img, extended, ebr, hops);
    if r.Some? && ebr > list[0].ebr {
      WalkAdvances(img, extended, ebr, hops);
    } else if r.Some? {
      assert r.value[0].ebr == ebr;
    }
  }

  lemma WalkOver(img: Image, extended: Partition, ebr: nat, hops: nat)
    requires Sectored(img) && hops > 0 && InReach(img, extended, ebr) && Signed(img[ebr])
    requires ReadSlot(img[ebr], 0).size == 0
    ensures var link := ReadSlot(img[ebr], 1);
      Walk(img, extended, ebr, hops) == if link.size == 0 then Some([])
        else if extended.start + link.start <= ebr then None
        else Walk(img, extended, extended.start + link.start, hops - 1)
  {
    hide ReadSlot, Signed;
    var link := ReadSlot(img[ebr], 1);
    if link.size != 0 && extended.start + link.start > ebr {
      JoinedNone(Walk(img, extended, extended.start + link.start, hops - 1));
    }
  }

  /** Few enough empty records lead to the first one of the list. */
  predicate Leads(img: Image, extended: Partition, ebr: nat, list: seq<Logical>, hops: nat)
    requires Sectored(img) && list != []
  {
    match Lead(img, extended, ebr, list[0].ebr)
    case None => false
    case Some(n) => n + |list| <= hops
  }

  /**
   * The walk of a chained disk from any record yields the list exactly when empty records lead to its first
   * one and the limit leaves room for all.
   */
  lemma {:induction false} WalkLeads(before: Image, img: Image, extended: Partition, list: seq<Logical>, ebr: nat,
      hops: nat)
    requires Sectored(before) && Sectored(img) && |before| == |img| && list != []
    requires forall k :: 0 <= k < |list| ==> Chains(img, extended, list, k)
    requires forall lba :: extended.start <= lba < list[0].ebr && lba < |img| ==> img[lba] == before[lba]
    ensures Walk(img, extended, ebr, hops) == Some(list)
      <==> Leads(before, extended, ebr, list, hops)
    decreases hops
  {
    hide ReadSlot, Signed, Chains, Described;
    if ebr == list[0].ebr {
      WalkChains(img, extended, list, 0, hops);
      assert list[0..] == list;
    } else if ebr > list[0].ebr {
      WalkElsewhere(img, extended, list, ebr, hops);
    } else if hops > 0 && InReach(img, extended, ebr) && Signed(img[ebr]) {
      assert img[ebr] == before[ebr];
      if ReadSlot(img[ebr], 0).size != 0 {
        WalkElsewhere(img, extended, list, ebr, hops);
      } else {
        WalkOver(img, extended, ebr, hops);
        var next := extended.start + ReadSlot(img[ebr], 1).start;
        if next > ebr {
          WalkLeads(before, img, extended, list, next, hops - 1);
        }
      }
    }
  }

  // ----- Reading back what was written

  /** The disk after the boot records of a chain and the boot record of the disk are written. */
  function Written(img: Image, writes: seq<Write>, mbr: seq<byte>): (r: Image)
    requires 0 < |img|
    ensures |r| == |img|
  {
    Applied(img, writes, |writes|)[0 := mbr]
  }

  /** What is written: the records of a valid list in order, in a container behind sector 0. */
  ghost predicate Writable(img: Image, extended: Partition, list: seq<Logical>, writes: seq<Write>, mbr: seq<byte>) {
    && Sectored(img) && |mbr| == SECTOR && 0 < extended.start && 0 < |img| && End(extended) <= |img|
    && ValidLogicals(extended, list) && InOrder(list) && AreRecords(extended, list, writes, |list|)
  }

  lemma WrittenSectored(img: Image, extended: Partition, list: seq<Logical>, writes: seq<Write>,
      mbr: seq<byte>)
    requires Writable(img, extended, list, writes, mbr)
    ensures Sectored(Written(img, writes, mbr))
  {
    AppliedSectored(img, extended, list, writes, |list|);
  }

  /** Only the sector of the record matters. */
  lemma ChainsMoved(before: Image, after: Image, extended: Partition, list: seq<Logical>, i: nat)
    requires i < |list| && Chains(before, extended, list, i) && |before| == |after|
    requires after[list[i].ebr] == before[list[i].ebr]
    ensures Chains(after, extended, list, i)
  {
  }

  /** The chain stands on the written disk, and before its first record nothing but sector 0 has changed. */
  lemma WrittenStands(img: Image, extended: Partition, list: seq<Logical>, writes: seq<Write>,
      mbr: seq<byte>)
    requires Writable(img, extended, list, writes, mbr)
    ensures forall i :: 0 <= i < |list| ==> Chains(Written(img, writes, mbr), extended, list, i)
    ensures forall lba :: (extended.start <= lba < |img| && (list != [] ==> lba < list[0].ebr)) ==>
        Written(img, writes, mbr)[lba] == img[lba]
  {
    hide ValidLogicals, InOrder, AreRecords, Applied, Chains;
    WrittenChains(img, extended, list, writes);
    ValidAscends(extended, list);
    var before, after := Applied(img, writes, |writes|), Written(img, writes, mbr);
    forall i | 0 <= i < |list| ensures Chains(after, extended, list, i) {
      ChainsMoved(before, after, extended, list, i);
    }
    forall lba | extended.start <= lba < |img| && (list != [] ==> lba < list[0].ebr) ensures after[lba] == img[lba] {
      RecordsCount(extended, list, writes);
      FrontKept(img, extended, list, writes, |list|, lba);
    }
  }

  lemma RecordsCount(extended: Partition, list: seq<Logical>, writes: seq<Write>)
    requires AreRecords(extended, list, writes, |list|)
    ensures |writes| == |list|
  {
  }

  /**
   * A valid list whose first record stands at the front of the container is read back exactly when it has
   * no more than 256 entries; a longer one is refused.
   */
  lemma ChainRoundTrip(img: Image, extended: Partition, list: seq<Logical>, writes: seq<Write>,
      mbr: seq<byte>)
    requires Writable(img, extended, list, writes, mbr) && list != [] && list[0].ebr == extended.start
    ensures Sectored(Written(img, writes, mbr))
    ensures Walk(Written(img, writes, mbr), extended, extended.start, CHAIN_LIMIT)
      == if |list| <= CHAIN_LIMIT then Some(list) else None
  {
    WrittenSectored(img, extended, list, writes, mbr);
    WrittenStands(img, extended, list, writes, mbr);
    hide Writable, Chains, Written;
    WalkChains(Written(img, writes, mbr), extended, list, 0, CHAIN_LIMIT);
    assert list[0..] == list;
  }

  /** Records without a partition lead from `ebr` to an unsigned sector or to one that links nowhere. */
  predicate Barren(img: Image, extended: Partition, ebr: nat, hops: nat)
    requires Sectored(img)
    decreases hops
  {
    && hops > 0 && InReach(img, extended, ebr)
    && (Signed(img[ebr]) ==>
      && ReadSlot(img[ebr], 0).size == 0
      && (ReadSlot(img[ebr], 1).size != 0 ==>
        && extended.start + ReadSlot(img[ebr], 1).start > ebr
        && Barren(img, extended, extended.start + ReadSlot(img[ebr], 1).start, hops - 1)))
  }

  lemma {:induction false} WalkBarren(img: Image, extended: Partition, ebr: nat, hops: nat)
    requires Sectored(img)
    ensures Walk(img, extended, ebr, hops) == Some([]) <==> Barren(img, extended, ebr, hops)
    decreases hops
  {
    hide ReadSlot, Signed;
    if hops > 0 && InReach(img, extended, ebr) && Signed(img[ebr]) {
      if ReadSlot(img[ebr], 0).size == 0 {
        WalkOver(img, extended, ebr, hops);
        if extended.start + ReadSlot(img[ebr], 1).start > ebr {
          WalkBarren(img, extended, extended.start + ReadSlot(img[ebr], 1).start, hops - 1);
        }
      } else if Walk(img, extended, ebr, hops).Some? {
        assert Walk(img, extended, ebr, hops).value[0].ebr == ebr;
      }
    }
  }

  /**
   * What the disk must hold already for a list to be read back. For an empty list, of which nothing is written:
   * no partition. For any other: records without a partition that lead from the front of the container to its
   * first record, few enough.
   */
  predicate Prepared(img: Image, extended: Partition, list: seq<Logical>)
    requires Sectored(img)
  {
    if list == [] then Barren(img, extended, extended.start, CHAIN_LIMIT)
    else Leads(img, extended, extended.start, list, CHAIN_LIMIT)
  }

  /** Any valid list, the empty one included, is read back if and only if the disk was prepared for it. */
  lemma ChainReadBack(img: Image, extended: Partition, list: seq<Logical>, writes: seq<Write>,
      mbr: seq<byte>)
    requires Writable(img, extended, list, writes, mbr)
    ensures Sectored(Written(img, writes, mbr))
    ensures Walk(Written(img, writes, mbr), extended, extended.start, CHAIN_LIMIT) == Some(list)
      <==> Prepared(img, extended, list)
  {
    WrittenSectored(img, extended, list, writes, mbr);
    WrittenStands(img, extended, list, writes, mbr);
    hide Chains, Walk, Leads, Barren, Written, ValidLogicals, InOrder, AreRecords;
    if list == [] {
      EmptyKeepsChain(img, extended, writes, mbr);
      WalkBarren(img, extended, extended.start, CHAIN_LIMIT);
    } else {
      WalkLeads(img, Written(img, writes, mbr), extended, list, extended.start, CHAIN_LIMIT);
    }
  }

  lemma {:induction false} WalkSame(a: Image, b: Image, extended: Partition, ebr: nat, hops: nat)
    requires Sectored(a) && Sectored(b) && |a| == |b|
    requires forall lba :: extended.start <= lba < |a| ==> a[lba] == b[lba]
    ensures Walk(a, extended, ebr, hops) == Walk(b, extended, ebr, hops)
    decreases hops
  {
    hide ReadSlot, Signed, Described;
    if hops > 0 && InReach(a, extended, ebr) {
      WalkSame(a, b, extended, extended.start + ReadSlot(a[ebr], 1).start, hops - 1);
    }
  }

  /** Of an empty list nothing is written, so whatever partitions the chain held are read again. */
  lemma EmptyKeepsChain(img: Image, extended: Partition, writes: seq<Write>, mbr: seq<byte>)
    requires Writable(img, extended, [], writes, mbr)
    ensures Sectored(Written(img, writes, mbr))
    ensures Walk(Written(img, writes, mbr), extended, extended.start, CHAIN_LIMIT)
      == Walk(img, extended, extended.start, CHAIN_LIMIT)
  {
    WrittenSectored(img, extended, [], writes, mbr);
    WrittenStands(img, extended, [], writes, mbr);
    hide Writable, Written, Walk;
    WalkSame(img, Written(img, writes, mbr), extended, extended.start, CHAIN_LIMIT);
  }

  /** A list that chains on a disk still chains after it was written without its first partition. */
  lemma RestStands(img: Image, extended: Partition, list: seq<Logical>, rest: seq<Write>,
      mbr: seq<byte>, i: nat)
    requires i < |list| && Writable(img, extended, list[1..], rest, mbr) && ValidLogicals(extended, list)
    requires InOrder(list)
    requires Chains(img, extended, list, i)
    ensures Chains(Written(img, rest, mbr), extended, list, i)
  {
    ValidAscends(extended, list);
    WrittenStands(img, extended, list[1..], rest, mbr);
    hide Writable, ValidLogicals, InOrder, Written;
    if i == 0 {
      assert list[1..] != [] ==> list[1..][0] == list[1];
      assert Written(img, rest, mbr)[list[0].ebr] == img[list[0].ebr];
    } else {
      assert Chains(Written(img, rest, mbr), extended, list[1..], i - 1);
      assert list[1..][i - 1] == list[i];
      assert i + 1 < |list| ==> list[1..][i] == list[i + 1];
    }
  }

  /**
   * Deleting the first logical partition, or all of them, is undone by writing and reading: the list as it was
   * before is read back whole.
   */
  lemma {:induction false} DeletedReturn(img: Image, extended: Partition, list: seq<Logical>, left: seq<Logical>,
      rest: seq<Write>, mbr: seq<byte>)
    requires Sectored(img) && ValidLogicals(extended, list) && InOrder(list) && list != [] && |list| <= CHAIN_LIMIT
    requires forall i :: 0 <= i < |list| ==> Chains(img, extended, list, i)
    requires list[0].ebr == extended.start && (left == list[1..] || left == [])
    requires Writable(img, extended, left, rest, mbr)
    ensures Sectored(Written(img, rest, mbr))
    ensures Walk(Written(img, rest, mbr), extended, extended.start, CHAIN_LIMIT) == Some(list)
  {
    WrittenSectored(img, extended, left, rest, mbr);
    if left == [] {
      EmptyKeepsChain(img, extended, rest, mbr);
      WalkChains(img, extended, list, 0, CHAIN_LIMIT);
    } else {
      hide ValidLogicals, InOrder, Writable, Chains, Written, Walk;
      forall i | 0 <= i < |list| ensures Chains(Written(img, rest, mbr), extended, list, i) {
        RestStands(img, extended, list, rest, mbr, i);
      }
      WalkChains(Written(img, rest, mbr), extended, list, 0, CHAIN_LIMIT);
    }
    assert list[0..] == list;
  }

  /**
   * Without a record of the list at the front of the container, a partition described there loses the list,
   * and so does an unsigned sector there unless the list is empty.
   */
  lemma ChainLost(img: Image, extended: Partition, list: seq<Logical>, writes: seq<Write>,
      mbr: seq<byte>)
    requires Writable(img, extended, list, writes, mbr) && InReach(img, extended, extended.start)
    requires list != [] ==> list[0].ebr > extended.start
    requires if Signed(img[extended.start]) then ReadSlot(img[extended.start], 0).size != 0 else list != []
    ensures Sectored(Written(img, writes, mbr))
    ensures Walk(Written(img, writes, mbr), extended, extended.start, CHAIN_LIMIT) != Some(list)
  {
    hide ValidLogicals, InOrder, AreRecords, Walk, Written, Signed, ReadSlot;
    ChainReadBack(img, extended, list, writes, mbr);
  }

  // ----- Concrete disks

  /** `n` partitions of one sector each, behind boot records from sector 1 on. */
  function Many(n: nat): (list: seq<Logical>)
    requires n <= 1000
    ensures |list| == n
    ensures forall i :: 0 <= i < n ==> list[i] == Logical(Partition(2 * i + 2, 1, 0x83, false), 2 * i + 1)
  {
    if n == 0 then [] else Many(n - 1) + [Logical(Partition(2 * n, 1, 0x83, false), 2 * n - 1)]
  }

  /** The container that they fill. */
  function Filled(n: nat): Partition
    requires n <= 1000
  {
    Partition(1, 2 * n, 0x05, false)
  }

  /** A disk of zeros with room for the container. */
  function Blank(n: nat): (img: Image)
    ensures |img| == n + 1 && Sectored(img)
  {
    if n == 0 then [Zeros(SECTOR)] else Blank(n - 1) + [Zeros(SECTOR)]
  }

  lemma ManyValid(n: nat)
    requires n <= 1000
    ensures ValidLogicals(Filled(n), Many(n)) && InOrder(Many(n))
  {
    hide Many;
    assert Filled(n) == Partition(1, 2 * n, 0x05, false);
  }

  lemma {:induction false} RecordsExist(extended: Partition, list: seq<Logical>, n: nat) returns (writes: seq<Write>)
    requires AllFit(extended, list) && n <= |list|
    ensures AreRecords(extended, list, writes, n)
  {
    writes := [];
    if n > 0 {
      hide RecordBytes, RecordFits;
      writes := RecordsExist(extended, list, n - 1);
      writes := writes + [Write(list[n - 1].ebr, RecordBytes(extended, list, n - 1))];
    }
  }

  lemma ManyWritten(n: nat, mbr: seq<byte>) returns (writes: seq<Write>)
    requires n <= 1000 && |mbr| == SECTOR
    ensures Writable(Blank(2 * n), Filled(n), Many(n), writes, mbr)
  {
    ManyValid(n);
    ValidFits(Filled(n), Many(n));
    writes := RecordsExist(Filled(n), Many(n), n);
  }

  /** With one partition more than the limit, what was written is not read. */
  lemma TooManyLost(mbr: seq<byte>) returns (writes: seq<Write>)
    requires |mbr| == SECTOR
    ensures Writable(Blank(514), Filled(257), Many(257), writes, mbr) && Sectored(Written(Blank(514), writes, mbr))
    ensures Walk(Written(Blank(514), writes, mbr), Filled(257), 1, CHAIN_LIMIT) == None
  {
    writes := ManyWritten(257, mbr);
    hide Writable, Walk, Blank;
    ChainRoundTrip(Blank(514), Filled(257), Many(257), writes, mbr);
  }

  /**
   * Two partitions are written; then the first is deleted, or both are, and the disk is written again. Either
   * way both are read back.
   */
  lemma DeletionUndone(mbr: seq<byte>) returns (img: Image, rest: seq<Write>)
    requires |mbr| == SECTOR
    ensures Writable(img, Filled(2), Many(2)[1..], rest, mbr) && Writable(img, Filled(2), [], [], mbr)
    ensures Sectored(Written(img, rest, mbr)) && Sectored(Written(img, [], mbr))
    ensures Walk(Written(img, rest, mbr), Filled(2), 1, CHAIN_LIMIT) == Some(Many(2)) != Some(Many(2)[1..])
    ensures Walk(Written(img, [], mbr), Filled(2), 1, CHAIN_LIMIT) == Some(Many(2)) != Some([])
  {
    var writes := ManyWritten(2, mbr);
    img := Written(Blank(4), writes, mbr);
    WrittenSectored(Blank(4), Filled(2), Many(2), writes, mbr);
    WrittenStands(Blank(4), Filled(2), Many(2), writes, mbr);
    ManyValid(2);
    hide Written, Blank, Many, Chains, Walk;
    rest := RestWritable(img, Filled(2), Many(2), mbr);
    EmptyWritable(img, Filled(2), mbr);
    DeletedReturn(img, Filled(2), Many(2), Many(2)[1..], rest, mbr);
    DeletedReturn(img, Filled(2), Many(2), [], [], mbr);
  }

  lemma EmptyWritable(img: Image, extended: Partition, mbr: seq<byte>)
    requires Sectored(img) && |mbr| == SECTOR && 0 < extended.start && 0 < |img| && End(extended) <= |img|
    ensures Writable(img, extended, [], [], mbr)
  {
    NoLogicalsValid(extended);
  }

  lemma RestValid(extended: Partition, list: seq<Logical>)
    requires ValidLogicals(extended, list) && InOrder(list) && list != []
    ensures ValidLogicals(extended, list[1..]) && InOrder(list[1..]) && AllFit(extended, list[1..])
  {
    RemovedLogical(extended, list, 0);
    assert list[..0] + list[1..] == list[1..];
    hide ValidLogicals, InOrder;
    ValidFits(extended, list[1..]);
  }

  /** A list without its first partition can be written. */
  lemma RestWritable(img: Image, extended: Partition, list: seq<Logical>, mbr: seq<byte>)
    returns (rest: seq<Write>)
    requires Sectored(img) && |mbr| == SECTOR && 0 < extended.start && 0 < |img| && End(extended) <= |img|
    requires ValidLogicals(extended, list) && InOrder(list) && list != []
    ensures Writable(img, extended, list[1..], rest, mbr)
  {
    RestValid(extended, list);
    hide ValidLogicals, InOrder, AllFit, AreRecords;
    rest := RecordsExist(extended, list[1..], |list| - 1);
  }

  // ----- Order of what is read

  ghost predicate StartsAscend(list: seq<Logical>) {
    forall i, j :: 0 <= i < j < |list| ==> list[i].part.start < list[j].part.start
  }

  lemma ValidStartsAscend(extended: Partition, list: seq<Logical>)
    requires ValidLogicals(extended, list) && InOrder(list)
    ensures StartsAscend(list)
  {
    OrderChains(extended, list);
    LogicalsBetween(extended, list);
    hide AllApart, InOrder, Chained, Between;
    forall i, j | 0 <= i < j < |list| ensures list[i].part.start < list[j].part.start {
      ChainedReaches(Used(list), i, j, extended.start, End(extended));
      assert LogicalSound(extended, list[i]) && LogicalSound(extended, list[j]);
    }
  }

  lemma FirstOfOrder(a: seq<Logical>, b: seq<Logical>)
    requires StartsAscend(a) && InOrder(b) && multiset(a) == multiset(b) && a != []
    ensures b != [] && a[0] == b[0]
  {
    Sorting.SameMembers(a, b);
    assert b[0] in a && a[0] in b;
    var k: nat :| k < |a| && a[k] == b[0];
    var j: nat :| j < |b| && b[j] == a[0];
    assert b[0].part.start <= b[j].part.start;
  }

  /** A list whose starts ascend has no other order. */
  lemma {:induction false} OrderUnique(a: seq<Logical>, b: seq<Logical>)
    requires StartsAscend(a) && InOrder(b) && multiset(a) == multiset(b)
    ensures a == b
    decreases |a|
  {
    if a == [] {
      Sorting.SameMembers(a, b);
    } else {
      FirstOfOrder(a, b);
      assert a == [a[0]] + a[1..] && b == [b[0]] + b[1..];
      assert multiset(a[1..]) == multiset(a) - multiset{a[0]};
      assert multiset(b[1..]) == multiset(b) - multiset{b[0]};
      OrderTails(a, b);
      hide StartsAscend, InOrder;
      OrderUnique(a[1..], b[1..]);
    }
  }

  lemma OrderTails(a: seq<Logical>, b: seq<Logical>)
    requires StartsAscend(a) && InOrder(b) && a != [] && b != []
    ensures StartsAscend(a[1..]) && InOrder(b[1..])
  {
    assert forall i :: 0 <= i < |a| - 1 ==> a[1..][i] == a[i + 1];
    assert forall i :: 0 <= i < |b| - 1 ==> b[1..][i] == b[i + 1];
  }
}
