/** The GPT pair as bytes: building both copies from a table, and reading them back. */
module GptCodec {
  import opened Bits
  import opened ByteBuffers
  import opened Extents
  import opened GptTable
  import opened GptLayout
  import opened Outcomes

  const HEADER_SIZE := 92
  const SIGNATURE: seq<byte> := [0x45, 0x46, 0x49, 0x20, 0x50, 0x41, 0x52, 0x54]

  /** Where one copy lies, as its header states it. */
  datatype Place = Place(current: uint64, backup: uint64, entriesLba: uint64, firstUsable: uint64, lastUsable: uint64)

  // ----- Headers

  /** A header with its own checksum still zero. */
  function OpenHeader(h: Place, diskGuid: Guid, entryCrc: nat): (b: seq<byte>)
    ensures |b| == SECTOR
  {
    var b := Put(Zeros(SECTOR), 0, SIGNATURE);
    var b := Put(b, 8, Le(0x0001_0000, 4));
    var b := Put(b, 12, Le(HEADER_SIZE, 4));
    var b := Put(b, 24, Le(h.current, 8));
    var b := Put(b, 32, Le(h.backup, 8));
    var b := Put(b, 40, Le(h.firstUsable, 8));
    var b := Put(b, 48, Le(h.lastUsable, 8));
    var b := Put(b, 56, diskGuid);
    var b := Put(b, 72, Le(h.entriesLba, 8));
    var b := Put(b, 80, Le(ENTRY_COUNT, 4));
    var b := Put(b, 84, Le(ENTRY_SIZE, 4));
    Put(b, 88, Le(entryCrc, 4))
  }

  function HeaderBytes(h: Place, diskGuid: Guid, entryCrc: nat): (b: seq<byte>)
    ensures |b| == SECTOR
  {
    var open := OpenHeader(h, diskGuid, entryCrc);
    Put(open, 16, Le(Crc32(Get(open, 0, HEADER_SIZE)), 4))
  }

  method BuildHeader(h: Place, diskGuid: Guid, entryCrc: nat) returns (header: array<byte>)
    ensures fresh(header) && header[..] == HeaderBytes(h, diskGuid, entryCrc)
  {
    hide Put, Le, Get, Crc32;
    header := ZeroBuffer(SECTOR);
    PutBytes(header, 0, SIGNATURE);
    PutBytes(header, 8, Le(0x0001_0000, 4));
    PutBytes(header, 12, Le(HEADER_SIZE, 4));
    PutBytes(header, 24, Le(h.current, 8));
    PutBytes(header, 32, Le(h.backup, 8));
    PutBytes(header, 40, Le(h.firstUsable, 8));
    PutBytes(header, 48, Le(h.lastUsable, 8));
    PutBytes(header, 56, diskGuid);
    PutBytes(header, 72, Le(h.entriesLba, 8));
    PutBytes(header, 80, Le(ENTRY_COUNT, 4));
    PutBytes(header, 84, Le(ENTRY_SIZE, 4));
    PutBytes(header, 88, Le(entryCrc, 4));
    var crc := Crc32(Get(header[..], 0, HEADER_SIZE));
    PutBytes(header, 16, Le(crc, 4));
  }

  method ZeroBuffer(n: nat) returns (a: array<byte>)
    ensures fresh(a) && a[..] == Zeros(n)
  {
    a := new byte[n](_ => 0);
    assert forall k :: 0 <= k < n ==> a[k] == Zeros(n)[k];
  }

  /** The disk identity and the checksum of the entries, as a header states them. */
  datatype Header = Header(diskGuid: Guid, entryCrc: nat)

  predicate Stated(header: seq<byte>, h: Place)
    requires |header| == SECTOR
  {
    && Get(header, 0, 8) == SIGNATURE
    && LeValue(Get(header, 8, 4)) == 0x0001_0000 && LeValue(Get(header, 12, 4)) == HEADER_SIZE
    && LeValue(Get(header, 24, 8)) == h.current && LeValue(Get(header, 32, 8)) == h.backup
    && LeValue(Get(header, 40, 8)) == h.firstUsable && LeValue(Get(header, 48, 8)) == h.lastUsable
    && LeValue(Get(header, 72, 8)) == h.entriesLba
    && LeValue(Get(header, 80, 4)) == ENTRY_COUNT && LeValue(Get(header, 84, 4)) == ENTRY_SIZE
  }

  /** The header's own checksum, taken with its field at zero. */
  predicate Sealed(header: seq<byte>)
    requires |header| == SECTOR
  {
    Crc32(Put(Get(header, 0, HEADER_SIZE), 16, Zeros(4))) == LeValue(Get(header, 16, 4))
  }

  function ParseHeader(header: seq<byte>, h: Place, entries: seq<byte>): Option<Header> {
    if |header| != SECTOR then None
    else if !Stated(header, h) || !Sealed(header) then None
    else if |entries| != ENTRY_COUNT * ENTRY_SIZE || Crc32(entries) != LeValue(Get(header, 88, 4)) then None
    else if AllZero(Get(header, 56, 16)) then None
    else Some(Header(Get(header, 56, 16), LeValue(Get(header, 88, 4))))
  }

  lemma OpenHeaderFields(h: Place, diskGuid: Guid, entryCrc: nat)
    ensures var b := OpenHeader(h, diskGuid, entryCrc);
      && Get(b, 0, 8) == SIGNATURE && Get(b, 8, 4) == Le(0x0001_0000, 4) && Get(b, 12, 4) == Le(HEADER_SIZE, 4)
      && Get(b, 16, 4) == Get(Zeros(SECTOR), 16, 4)
      && Get(b, 24, 8) == Le(h.current, 8) && Get(b, 32, 8) == Le(h.backup, 8)
      && Get(b, 40, 8) == Le(h.firstUsable, 8) && Get(b, 48, 8) == Le(h.lastUsable, 8)
      && Get(b, 56, 16) == diskGuid && Get(b, 72, 8) == Le(h.entriesLba, 8)
      && Get(b, 80, 4) == Le(ENTRY_COUNT, 4) && Get(b, 84, 4) == Le(ENTRY_SIZE, 4) && Get(b, 88, 4) == Le(entryCrc, 4)
  {
    hide Put, Get, Le;
    var b := Zeros(SECTOR);
    PutField(b, 0, SIGNATURE);
    b := Put(b, 0, SIGNATURE);
    PutField(b, 8, Le(0x0001_0000, 4));
    b := Put(b, 8, Le(0x0001_0000, 4));
    PutField(b, 12, Le(HEADER_SIZE, 4));
    b := Put(b, 12, Le(HEADER_SIZE, 4));
    PutField(b, 24, Le(h.current, 8));
    b := Put(b, 24, Le(h.current, 8));
    PutField(b, 32, Le(h.backup, 8));
    b := Put(b, 32, Le(h.backup, 8));
    PutField(b, 40, Le(h.firstUsable, 8));
    b := Put(b, 40, Le(h.firstUsable, 8));
    PutField(b, 48, Le(h.lastUsable, 8));
    b := Put(b, 48, Le(h.lastUsable, 8));
    PutField(b, 56, diskGuid);
    b := Put(b, 56, diskGuid);
    PutField(b, 72, Le(h.entriesLba, 8));
    b := Put(b, 72, Le(h.entriesLba, 8));
    PutField(b, 80, Le(ENTRY_COUNT, 4));
    b := Put(b, 80, Le(ENTRY_COUNT, 4));
    PutField(b, 84, Le(ENTRY_SIZE, 4));
    b := Put(b, 84, Le(ENTRY_SIZE, 4));
    PutField(b, 88, Le(entryCrc, 4));
  }

  lemma ZerosPart(n: nat, at: nat, k: nat)
    requires at + k <= n
    ensures Get(Zeros(n), at, k) == Zeros(k)
  {
  }

  lemma SealBytes(b: seq<byte>, seal: seq<byte>)
    requires |b| == SECTOR && |seal| == 4 && Get(b, 16, 4) == Zeros(4)
    ensures Put(Get(Put(b, 16, seal), 0, HEADER_SIZE), 16, Zeros(4)) == Get(b, 0, HEADER_SIZE)
  {
    var whole := Put(b, 16, seal);
    var left := Put(Get(whole, 0, HEADER_SIZE), 16, Zeros(4));
    forall k | 0 <= k < HEADER_SIZE ensures left[k] == b[k] {
      assert 16 <= k < 20 ==> Zeros(4)[k - 16] == Get(b, 16, 4)[k - 16] == b[k];
    }
    assert left == b[..HEADER_SIZE];
  }

  /** Sealing changes no other field. */
  lemma SealKeeps(b: seq<byte>, seal: seq<byte>)
    requires |b| == SECTOR && |seal| == 4
    ensures var r := Put(b, 16, seal);
      && Get(r, 0, 8) == Get(b, 0, 8) && Get(r, 8, 4) == Get(b, 8, 4) && Get(r, 12, 4) == Get(b, 12, 4)
      && Get(r, 24, 8) == Get(b, 24, 8) && Get(r, 32, 8) == Get(b, 32, 8) && Get(r, 40, 8) == Get(b, 40, 8)
      && Get(r, 48, 8) == Get(b, 48, 8) && Get(r, 56, 16) == Get(b, 56, 16) && Get(r, 72, 8) == Get(b, 72, 8)
      && Get(r, 80, 4) == Get(b, 80, 4) && Get(r, 84, 4) == Get(b, 84, 4) && Get(r, 88, 4) == Get(b, 88, 4)
  {
    hide Put, Get;
    PutField(b, 16, seal);
  }

  lemma HeaderStates(h: Place, diskGuid: Guid, crc: nat)
    requires crc < 0x1_0000_0000
    ensures Stated(HeaderBytes(h, diskGuid, crc), h)
    ensures Get(HeaderBytes(h, diskGuid, crc), 56, 16) == diskGuid
    ensures LeValue(Get(HeaderBytes(h, diskGuid, crc), 88, 4)) == crc
  {
    var open := OpenHeader(h, diskGuid, crc);
    var seal := Le(Crc32(Get(open, 0, HEADER_SIZE)), 4);
    hide Put, Get, Le, Crc32, OpenHeader, AllZero, LeValue, Zeros, Pow256;
    OpenHeaderFields(h, diskGuid, crc);
    SealKeeps(open, seal);
    HeaderNumbers(h, crc, Crc32(Get(open, 0, HEADER_SIZE)));
  }

  lemma HeaderSealed(h: Place, diskGuid: Guid, crc: nat)
    ensures Sealed(HeaderBytes(h, diskGuid, crc))
  {
    var open := OpenHeader(h, diskGuid, crc);
    var sum := Crc32(Get(open, 0, HEADER_SIZE));
    hide Put, Get, Le, Crc32, OpenHeader, AllZero, LeValue, Zeros;
    OpenHeaderFields(h, diskGuid, crc);
    PutField(open, 16, Le(sum, 4));
    ZerosPart(SECTOR, 16, 4);
    SealBytes(open, Le(sum, 4));
    Pow256Values();
    LeRoundTrip(sum, 4);
  }

  /** A built header is read back: place, identity, and the checksum of its entries. */
  lemma HeaderRoundTrip(h: Place, diskGuid: Guid, entries: seq<byte>)
    requires |entries| == ENTRY_COUNT * ENTRY_SIZE && !AllZero(diskGuid)
    ensures ParseHeader(HeaderBytes(h, diskGuid, Crc32(entries)), h, entries) == Some(Header(diskGuid, Crc32(entries)))
  {
    hide Get, Crc32, HeaderBytes, AllZero, LeValue, Stated, Sealed;
    HeaderStates(h, diskGuid, Crc32(entries));
    HeaderSealed(h, diskGuid, Crc32(entries));
  }

  lemma HeaderNumbers(h: Place, crc: nat, seal: nat)
    requires crc < 0x1_0000_0000 && seal < 0x1_0000_0000
    ensures LeValue(Le(0x0001_0000, 4)) == 0x0001_0000 && LeValue(Le(HEADER_SIZE, 4)) == HEADER_SIZE
    ensures LeValue(Le(h.current, 8)) == h.current && LeValue(Le(h.backup, 8)) == h.backup
    ensures LeValue(Le(h.firstUsable, 8)) == h.firstUsable && LeValue(Le(h.lastUsable, 8)) == h.lastUsable
    ensures LeValue(Le(h.entriesLba, 8)) == h.entriesLba && LeValue(Le(ENTRY_COUNT, 4)) == ENTRY_COUNT
    ensures LeValue(Le(ENTRY_SIZE, 4)) == ENTRY_SIZE && LeValue(Le(crc, 4)) == crc && LeValue(Le(seal, 4)) == seal
  {
    Pow256Values();
    hide Le, LeValue, Pow256;
    LeRoundTrip(0x0001_0000, 4);
    LeRoundTrip(HEADER_SIZE, 4);
    LeRoundTrip(h.current, 8);
    LeRoundTrip(h.backup, 8);
    LeRoundTrip(h.firstUsable, 8);
    LeRoundTrip(h.lastUsable, 8);
    LeRoundTrip(h.entriesLba, 8);
    LeRoundTrip(ENTRY_COUNT, 4);
    LeRoundTrip(ENTRY_SIZE, 4);
    LeRoundTrip(crc, 4);
    LeRoundTrip(seal, 4);
  }

  // ----- Entries

  function UnitBytes(units: seq<unit>, n: nat): (b: seq<byte>)
    requires n <= |units|
    ensures |b| == 2 * n
  {
    if n == 0 then [] else UnitBytes(units, n - 1) + Le(units[n - 1], 2)
  }

  function ReadUnits(b: seq<byte>, n: nat): (u: seq<unit>)
    requires 2 * n <= |b|
    ensures |u| == n
  {
    if n == 0 then [] else
      LeBound(Get(b, 2 * (n - 1), 2));
      Pow256Values();
      ReadUnits(b, n - 1) + [LeValue(Get(b, 2 * (n - 1), 2))]
  }

  lemma {:induction false} UnitsRoundTrip(units: seq<unit>, n: nat, rest: seq<byte>)
    requires n <= |units|
    ensures ReadUnits(UnitBytes(units, n) + rest, n) == units[..n]
  {
    if n > 0 {
      var last := Le(units[n - 1], 2);
      var b := UnitBytes(units, n) + rest;
      Assoc(UnitBytes(units, n - 1), last, rest);
      UnitsRoundTrip(units, n - 1, last + rest);
      assert Get(b, 2 * (n - 1), 2) == last;
      Pow256Values();
      LeRoundTrip(units[n - 1], 2);
    }
  }

  function EntryBytes(p: Partition): (b: seq<byte>)
    ensures |b| == ENTRY_SIZE
  {
    var b := Put(Zeros(ENTRY_SIZE), 0, p.kind);
    var b := Put(b, 16, p.unique);
    var b := Put(b, 32, Le(p.start, 8));
    var b := Put(b, 40, Le(p.end, 8));
    var b := Put(b, 48, Le(p.attributes, 8));
    Put(b, 56, UnitBytes(p.name, 36))
  }

  /** An empty slot is all zero, whatever else it holds. */
  function SlotBytes(p: Partition): (b: seq<byte>)
    ensures |b| == ENTRY_SIZE
  {
    if p.Empty() then Zeros(ENTRY_SIZE) else EntryBytes(p)
  }

  /** The bytes of the first `n` slots. */
  function EntriesBytes(parts: seq<Partition>, n: nat): (b: seq<byte>)
    requires n <= |parts|
    ensures |b| == ENTRY_SIZE * n
  {
    if n == 0 then [] else EntriesBytes(parts, n - 1) + SlotBytes(parts[n - 1])
  }

  method FillEntry(a: array<byte>, base: nat, p: Partition, ghost left: seq<byte>, ghost right: seq<byte>)
    requires base + ENTRY_SIZE <= a.Length && |left| == base && a[..] == left + Zeros(ENTRY_SIZE) + right
    modifies a
    ensures a[..] == left + EntryBytes(p) + right
  {
    hide Put, Zeros, Le, UnitBytes;
    ghost var mid := Zeros(ENTRY_SIZE);
    PutInside(left, mid, right, 0, p.kind);
    PutBytes(a, base, p.kind);
    mid := Put(mid, 0, p.kind);
    PutInside(left, mid, right, 16, p.unique);
    PutBytes(a, base + 16, p.unique);
    mid := Put(mid, 16, p.unique);
    PutInside(left, mid, right, 32, Le(p.start, 8));
    PutBytes(a, base + 32, Le(p.start, 8));
    mid := Put(mid, 32, Le(p.start, 8));
    PutInside(left, mid, right, 40, Le(p.end, 8));
    PutBytes(a, base + 40, Le(p.end, 8));
    mid := Put(mid, 40, Le(p.end, 8));
    PutInside(left, mid, right, 48, Le(p.attributes, 8));
    PutBytes(a, base + 48, Le(p.attributes, 8));
    mid := Put(mid, 48, Le(p.attributes, 8));
    PutInside(left, mid, right, 56, UnitBytes(p.name, 36));
    PutBytes(a, base + 56, UnitBytes(p.name, 36));
  }

  lemma ZerosSplit(n: nat, k: nat)
    requires k <= n
    ensures Zeros(n) == Zeros(k) + Zeros(n - k)
  {
  }

  lemma EntriesStep(parts: seq<Partition>, i: nat)
    requires i < |parts|
    ensures EntriesBytes(parts, i + 1)
      == EntriesBytes(parts, i) + SlotBytes(parts[i])
  {
  }

  /** The first `i` entries are written, the others still zero. */
  ghost predicate Filled(s: seq<byte>, parts: Slots, i: nat) {
    i <= ENTRY_COUNT && s == EntriesBytes(parts, i) + Zeros(ENTRY_SIZE * (ENTRY_COUNT - i))
  }

  lemma FilledStart(parts: Slots)
    ensures Filled(Zeros(ENTRY_SIZE * ENTRY_COUNT), parts, 0)
  {
    hide Zeros;
    assert [] + Zeros(ENTRY_SIZE * ENTRY_COUNT) == Zeros(ENTRY_SIZE * ENTRY_COUNT);
  }

  lemma FilledNext(s: seq<byte>, parts: Slots, i: nat)
    requires Filled(s, parts, i) && i < ENTRY_COUNT
    ensures s == EntriesBytes(parts, i) + Zeros(ENTRY_SIZE) + Zeros(ENTRY_SIZE * (ENTRY_COUNT - i - 1))
  {
    ZerosSplit(ENTRY_SIZE * (ENTRY_COUNT - i), ENTRY_SIZE);
    hide Zeros, EntriesBytes;
    Assoc(EntriesBytes(parts, i), Zeros(ENTRY_SIZE), Zeros(ENTRY_SIZE * (ENTRY_COUNT - i - 1)));
  }

  lemma FilledMore(s: seq<byte>, parts: Slots, i: nat)
    requires i < ENTRY_COUNT
    requires s == EntriesBytes(parts, i) + SlotBytes(parts[i])
      + Zeros(ENTRY_SIZE * (ENTRY_COUNT - i - 1))
    ensures Filled(s, parts, i + 1)
  {
    EntriesStep(parts, i);
    hide Zeros, EntriesBytes, SlotBytes;
  }

  lemma FilledAll(s: seq<byte>, parts: Slots)
    requires Filled(s, parts, ENTRY_COUNT)
    ensures s == EntriesBytes(parts, ENTRY_COUNT)
  {
    hide EntriesBytes;
    assert EntriesBytes(parts, ENTRY_COUNT) + Zeros(0) == EntriesBytes(parts, ENTRY_COUNT);
  }

  method BuildEntries(parts: Slots) returns (entries: array<byte>)
    ensures fresh(entries) && entries[..] == EntriesBytes(parts, ENTRY_COUNT)
  {
    entries := ZeroBuffer(ENTRY_COUNT * ENTRY_SIZE);
    hide Zeros, EntryBytes, EntriesBytes, AllZero, Filled;
    FilledStart(parts);
    for i: nat := 0 to ENTRY_COUNT
      invariant entries.Length == ENTRY_COUNT * ENTRY_SIZE && fresh(entries)
      invariant Filled(entries[..], parts, i)
    {
      FilledNext(entries[..], parts, i);
      if !parts[i].Empty() {
        FillEntry(entries, ENTRY_SIZE * i, parts[i], EntriesBytes(parts, i), Zeros(ENTRY_SIZE * (ENTRY_COUNT - i - 1)));
      }
      FilledMore(entries[..], parts, i);
    }
    FilledAll(entries[..], parts);
  }

  /** One entry as read: all zero is an empty slot, data without a type is an error. */
  function ReadEntry(e: seq<byte>): Option<Partition>
    requires |e| == ENTRY_SIZE
  {
    if AllZero(e) then Some(EMPTY)
    else if AllZero(Get(e, 0, 16)) then None
    else
      LeBound(Get(e, 32, 8));
      LeBound(Get(e, 40, 8));
      LeBound(Get(e, 48, 8));
      Pow256Values();
      Some(Partition(Get(e, 0, 16), Get(e, 16, 16), LeValue(Get(e, 32, 8)), LeValue(Get(e, 40, 8)),
        LeValue(Get(e, 48, 8)),
                     ReadUnits(Get(e, 56, 72), 36)))
  }

  function ReadEntries(b: seq<byte>, n: nat): (parts: Option<seq<Partition>>)
    requires |b| >= ENTRY_SIZE * n
    ensures parts.Some? ==> |parts.value| == n
  {
    if n == 0 then Some([])
    else match ReadEntries(b, n - 1)
      case None => None
      case Some(parts) =>
        match ReadEntry(Get(b, ENTRY_SIZE * (n - 1), ENTRY_SIZE))
        case None => None
        case Some(p) => Some(parts + [p])
  }

  lemma EntryFields(p: Partition)
    ensures var b := EntryBytes(p);
      && Get(b, 0, 16) == p.kind && Get(b, 16, 16) == p.unique
      && Get(b, 32, 8) == Le(p.start, 8) && Get(b, 40, 8) == Le(p.end, 8) && Get(b, 48, 8) == Le(p.attributes, 8)
      && Get(b, 56, 72) == UnitBytes(p.name, 36)
  {
    hide Put, Get, Le, UnitBytes;
    var b := Zeros(ENTRY_SIZE);
    PutField(b, 0, p.kind);
    b := Put(b, 0, p.kind);
    PutField(b, 16, p.unique);
    b := Put(b, 16, p.unique);
    PutField(b, 32, Le(p.start, 8));
    b := Put(b, 32, Le(p.start, 8));
    PutField(b, 40, Le(p.end, 8));
    b := Put(b, 40, Le(p.end, 8));
    PutField(b, 48, Le(p.attributes, 8));
    b := Put(b, 48, Le(p.attributes, 8));
    PutField(b, 56, UnitBytes(p.name, 36));
  }

  lemma EntryNumbers(p: Partition)
    ensures LeValue(Le(p.start, 8)) == p.start && LeValue(Le(p.end, 8)) == p.end
    ensures LeValue(Le(p.attributes, 8)) == p.attributes && ReadUnits(UnitBytes(p.name, 36), 36) == p.name
  {
    Pow256Values();
    hide Le, LeValue, Pow256;
    LeRoundTrip(p.start, 8);
    LeRoundTrip(p.end, 8);
    LeRoundTrip(p.attributes, 8);
    UnitsRoundTrip(p.name, 36, []);
    assert UnitBytes(p.name, 36) + [] == UnitBytes(p.name, 36) && p.name[..36] == p.name;
  }

  lemma PartOfZero(e: seq<byte>, at: nat, n: nat)
    requires at + n <= |e| && AllZero(e)
    ensures AllZero(Get(e, at, n))
  {
  }

  lemma EntryRoundTrip(p: Partition)
    requires !p.Empty()
    ensures ReadEntry(EntryBytes(p)) == Some(p)
  {
    EntryFields(p);
    EntryNumbers(p);
    if AllZero(EntryBytes(p)) {
      PartOfZero(EntryBytes(p), 0, 16);
    }
    hide EntryBytes, Get, Le, LeValue, UnitBytes, ReadUnits, Zeros;
  }

  /** An empty slot carries nothing else. */
  predicate Canonical(parts: seq<Partition>, n: nat)
    requires n <= |parts|
  {
    forall i :: 0 <= i < n && parts[i].Empty() ==> parts[i] == EMPTY
  }

  function Cleared(p: Partition): Partition {
    if p.Empty() then EMPTY else p
  }

  function ClearedSlots(parts: seq<Partition>, n: nat): (r: seq<Partition>)
    requires n <= |parts|
    ensures |r| == n && forall i :: 0 <= i < n ==> r[i] == Cleared(parts[i])
  {
    if n == 0 then [] else ClearedSlots(parts, n - 1) + [Cleared(parts[n - 1])]
  }

  lemma LastPart(left: seq<byte>, mid: seq<byte>, right: seq<byte>)
    ensures Get(left + mid + right, |left|, |mid|) == mid
  {
  }

  lemma ZeroEntry()
    ensures ReadEntry(Zeros(ENTRY_SIZE)) == Some(EMPTY)
  {
  }

  lemma SlotRoundTrip(p: Partition)
    ensures ReadEntry(SlotBytes(p)) == Some(Cleared(p))
  {
    hide ReadEntry, EntryBytes, Zeros;
    if p.Empty() {
      ZeroEntry();
    } else {
      EntryRoundTrip(p);
    }
  }

  lemma ReadStep(b: seq<byte>, n: nat, parts: seq<Partition>, p: Partition)
    requires n > 0 && |b| >= ENTRY_SIZE * n && ReadEntries(b, n - 1) == Some(parts)
    requires ReadEntry(Get(b, ENTRY_SIZE * (n - 1), ENTRY_SIZE)) == Some(p)
    ensures ReadEntries(b, n) == Some(parts + [p])
  {
  }

  lemma ClearedStep(parts: seq<Partition>, n: nat)
    requires 0 < n <= |parts|
    ensures ClearedSlots(parts, n) == ClearedSlots(parts, n - 1) + [Cleared(parts[n - 1])]
  {
  }

  lemma EntriesTripStep(parts: seq<Partition>, n: nat, left: seq<byte>, last: seq<byte>, rest: seq<byte>)
    requires 0 < n <= |parts| && |left| == ENTRY_SIZE * (n - 1) && |last| == ENTRY_SIZE
    requires ReadEntries(left + (last + rest), n - 1) == Some(ClearedSlots(parts, n - 1))
    requires ReadEntry(last) == Some(Cleared(parts[n - 1]))
    ensures ReadEntries((left + last) + rest, n) == Some(ClearedSlots(parts, n))
  {
    hide ReadEntry, ReadEntries, ClearedSlots, Cleared, Get;
    LastPart(left, last, rest);
    Assoc(left, last, rest);
    ReadStep(left + last + rest, n, ClearedSlots(parts, n - 1), Cleared(parts[n - 1]));
    ClearedStep(parts, n);
  }

  lemma NoEntriesTrip(parts: seq<Partition>, rest: seq<byte>)
    ensures ReadEntries(EntriesBytes(parts, 0) + rest, 0) == Some(ClearedSlots(parts, 0))
  {
  }

  /** Entries are read back with what empty slots held besides cleared. */
  lemma {:induction false} EntriesRoundTrip(parts: seq<Partition>, n: nat, rest: seq<byte>)
    requires n <= |parts|
    ensures ReadEntries(EntriesBytes(parts, n) + rest, n) == Some(ClearedSlots(parts, n))
  {
    hide *;
    if n == 0 {
      NoEntriesTrip(parts, rest);
    } else {
      var last := SlotBytes(parts[n - 1]);
      EntriesStep(parts, n - 1);
      SlotRoundTrip(parts[n - 1]);
      EntriesRoundTrip(parts, n - 1, last + rest);
      EntriesTripStep(parts, n, EntriesBytes(parts, n - 1), last, rest);
    }
  }

  // ----- The whole state

  function PrimaryPlace(g: Geometry): Place {
    Place(1, g.backupHeader, 2, g.firstUsable, g.lastUsable)
  }

  function BackupPlace(g: Geometry): Place {
    Place(g.backupHeader, 1, g.backupEntries, g.firstUsable, g.lastUsable)
  }

  function ProtectiveEntry(sectors: uint64): (e: seq<byte>)
    ensures |e| == 16
  {
    [0, 0xFE, 0xFF, 0xFF, 0xEE, 0xFE, 0xFF, 0xFF] + Le(1, 4) + Le(ProtectedLength(sectors), 4)
  }

  function ProtectiveMbr(original: seq<byte>, sectors: uint64): (b: seq<byte>)
    requires |original| == SECTOR
    ensures |b| == SECTOR
  {
    Put(Put(Put(original, 446, Zeros(64)), 446, ProtectiveEntry(sectors)), 510, [0x55, 0xAA])
  }

  function ProtectedLength(sectors: uint64): (n: nat)
    ensures sectors >= 1 ==> n <= sectors - 1 && (n == sectors - 1 || n == 0xFFFF_FFFF)
  {
    if sectors - 1 > 0xFFFF_FFFF then 0xFFFF_FFFF else if sectors == 0 then 0 else sectors - 1
  }

  lemma ProtectiveEntryIs(sectors: uint64)
    requires sectors >= 1
    ensures ProtectiveEntry(sectors) == [0, 0xFE, 0xFF, 0xFF, 0xEE, 0xFE, 0xFF, 0xFF, 1, 0, 0, 0]
      + Le(if sectors <= 0x1_0000_0000 then sectors - 1 else 0xFFFF_FFFF, 4)
  {
    assert Le(1, 4) == [1, 0, 0, 0];
    hide Le;
  }

  lemma MbrParts(original: seq<byte>, entry: seq<byte>, b: seq<byte>)
    requires |original| == SECTOR && |entry| == 16
    requires b == Put(Put(Put(original, 446, Zeros(64)), 446, entry), 510, [0x55, 0xAA])
    ensures b[..446] == original[..446] && b[510] == 0x55 && b[511] == 0xAA && Get(b, 446, 16) == entry
    ensures AllZero(Get(b, 462, 48))
  {
    var zeroed := Put(original, 446, Zeros(64));
    assert Get(zeroed, 462, 48) == Zeros(48);
    var step := Put(zeroed, 446, entry);
    assert step[..446] == original[..446];
    assert b[..446] == step[..446];
    PutField(zeroed, 446, entry);
    PutField(step, 510, [0x55, 0xAA]);
    assert Get(b, 446, 16) == Get(step, 446, 16);
    assert Get(b, 462, 48) == Get(step, 462, 48) == Get(zeroed, 462, 48);
  }

  /** The protective record keeps the boot code, claims the disk up to the 32-bit limit, and is recognised. */
  lemma ProtectiveFacts(original: seq<byte>, sectors: uint64)
    requires |original| == SECTOR && sectors >= 1
    ensures ProtectiveLayout(ProtectiveMbr(original, sectors), original, sectors)
  {
    hide Put, Zeros, Le, LeValue, Pow256, ProtectiveEntry, AllZero;
    var length := if sectors <= 0x1_0000_0000 then sectors - 1 else 0xFFFF_FFFF;
    var b, entry := ProtectiveMbr(original, sectors), ProtectiveEntry(sectors);
    MbrParts(original, entry, b);
    ProtectiveEntryIs(sectors);
    assert b[446..458] == Get(b, 446, 16)[..12];
    assert b[458..462] == Get(b, 446, 16)[12..];
    assert b[462..510] == Get(b, 462, 48);
    Pow256Values();
    LeRoundTrip(length, 4);
  }

  /** Both copies of a table, or an error when the disk changed or the table is not valid. */
  ghost function BuildState(original: seq<byte>, sectors: uint64, t: Table): Option<RawState>
    requires |original| == SECTOR
  {
    match GeometryOf(sectors)
    case None => None
    case Some(g) =>
      if t.firstUsable != g.firstUsable || t.lastUsable != g.lastUsable || !ValidTable(t) then None
      else
        Some(Pair(ProtectiveMbr(original, sectors), g, t.diskGuid, EntriesBytes(t.partitions, ENTRY_COUNT)))
  }

  function Pair(mbr: seq<byte>, g: Geometry, diskGuid: Guid, entries: seq<byte>): RawState {
    RawState(mbr, HeaderBytes(PrimaryPlace(g), diskGuid, Crc32(entries)), entries,
             entries, HeaderBytes(BackupPlace(g), diskGuid, Crc32(entries)))
  }

  /** The table that a state holds, when both copies are sound and agree. */
  ghost function ReadState(s: RawState, sectors: uint64): Option<Table> {
    match GeometryOf(sectors)
    case None => None
    case Some(g) =>
      if |s.protectiveMbr| != SECTOR || s.protectiveMbr[510] != 0x55 || s.protectiveMbr[511] != 0xAA
        || s.protectiveMbr[450] != 0xEE then None
      else
        var primary := ParseHeader(s.primaryHeader, PrimaryPlace(g), s.primaryEntries);
        var backup := ParseHeader(s.backupHeader, BackupPlace(g), s.backupEntries);
        if primary.None? || backup.None? || primary != backup || s.primaryEntries != s.backupEntries then None
        else match ReadEntries(s.primaryEntries, ENTRY_COUNT)
          case None => None
          case Some(parts) =>
            var t := Table(primary.value.diskGuid, g.firstUsable, g.lastUsable, parts);
            if ValidTable(t) then Some(t) else None
  }

  lemma ClearedValid(t: Table)
    requires ValidTable(t)
    ensures ValidTable(t.(partitions := ClearedSlots(t.partitions, ENTRY_COUNT)))
  {
    var parts := ClearedSlots(t.partitions, ENTRY_COUNT);
    var t' := t.(partitions := parts);
    assert Spans(parts) == Spans(t.partitions);
    forall i: nat | i < ENTRY_COUNT ensures SlotSound(t', i) && OwnGuid(parts, i) {
      assert SlotSound(t, i) && OwnGuid(t.partitions, i);
    }
  }

  lemma HasIdentity(t: Table)
    ensures ValidTable(t) ==> !AllZero(t.diskGuid)
  {
  }

  /** What the reader finds in a built state, part by part. */
  ghost predicate Holds(s: RawState, g: Geometry, diskGuid: Guid, crc: nat, parts: seq<Partition>) {
    && |s.protectiveMbr| == SECTOR && s.protectiveMbr[510] == 0x55 && s.protectiveMbr[511] == 0xAA
      && s.protectiveMbr[450] == 0xEE
    && ParseHeader(s.primaryHeader, PrimaryPlace(g), s.primaryEntries) == Some(Header(diskGuid, crc))
    && ParseHeader(s.backupHeader, BackupPlace(g), s.backupEntries) == Some(Header(diskGuid, crc))
    && s.primaryEntries == s.backupEntries && |s.primaryEntries| == ENTRY_COUNT * ENTRY_SIZE
    && ReadEntries(s.primaryEntries, ENTRY_COUNT) == Some(parts)
  }

  lemma PairHolds(mbr: seq<byte>, g: Geometry, diskGuid: Guid, entries: seq<byte>, parts: seq<Partition>)
    requires |mbr| == SECTOR && mbr[510] == 0x55 && mbr[511] == 0xAA && mbr[450] == 0xEE && !AllZero(diskGuid)
    requires |entries| == ENTRY_COUNT * ENTRY_SIZE && ReadEntries(entries, ENTRY_COUNT) == Some(parts)
    ensures Holds(Pair(mbr, g, diskGuid, entries), g, diskGuid, Crc32(entries), parts)
  {
    hide HeaderBytes, ParseHeader, ReadEntries, Crc32, AllZero;
    HeaderRoundTrip(PrimaryPlace(g), diskGuid, entries);
    HeaderRoundTrip(BackupPlace(g), diskGuid, entries);
  }

  lemma AllEntriesRoundTrip(parts: Slots, n: nat)
    requires n == ENTRY_COUNT
    ensures ReadEntries(EntriesBytes(parts, n), n) == Some(ClearedSlots(parts, n))
  {
    hide EntriesBytes, ReadEntries, ClearedSlots;
    EntriesRoundTrip(parts, n, []);
    assert EntriesBytes(parts, n) + [] == EntriesBytes(parts, n);
  }

  lemma BuiltHolds(original: seq<byte>, sectors: uint64, t: Table)
    requires |original| == SECTOR && BuildState(original, sectors, t).Some?
    ensures Holds(BuildState(original, sectors, t).value, GeometryOf(sectors).value, t.diskGuid,
                  Crc32(EntriesBytes(t.partitions, ENTRY_COUNT)), ClearedSlots(t.partitions, ENTRY_COUNT))
  {
    HasIdentity(t);
    hide Pair, Holds, EntriesBytes, ReadEntries, ProtectiveMbr, Crc32, AllZero, ValidTable, ClearedSlots, LeValue, Get;
    hide ProtectedLength;
    ProtectiveFacts(original, sectors);
    AllEntriesRoundTrip(t.partitions, ENTRY_COUNT);
    PairHolds(ProtectiveMbr(original, sectors), GeometryOf(sectors).value, t.diskGuid,
      EntriesBytes(t.partitions, ENTRY_COUNT),
              ClearedSlots(t.partitions, ENTRY_COUNT));
  }

  lemma HeldReads(s: RawState, sectors: uint64, g: Geometry, diskGuid: Guid, crc: nat, parts: seq<Partition>)
    requires GeometryOf(sectors) == Some(g) && Holds(s, g, diskGuid, crc, parts) && |parts| == ENTRY_COUNT
    requires ValidTable(Table(diskGuid, g.firstUsable, g.lastUsable, parts))
    ensures ReadState(s, sectors) == Some(Table(diskGuid, g.firstUsable, g.lastUsable, parts))
  {
    hide ParseHeader, ReadEntries, ValidTable;
  }

  lemma BuiltReads(original: seq<byte>, sectors: uint64, t: Table)
    requires |original| == SECTOR && BuildState(original, sectors, t).Some?
    ensures ReadState(BuildState(original, sectors, t).value, sectors)
      == Some(t.(partitions := ClearedSlots(t.partitions, ENTRY_COUNT)))
  {
    BuiltHolds(original, sectors, t);
    ClearedValid(t);
    hide Holds, EntriesBytes, HeaderBytes, ProtectiveMbr, Crc32, ValidTable, ReadState, ClearedSlots;
    HeldReads(BuildState(original, sectors, t).value, sectors, GeometryOf(sectors).value, t.diskGuid,
              Crc32(EntriesBytes(t.partitions, ENTRY_COUNT)), ClearedSlots(t.partitions, ENTRY_COUNT));
  }

  /** What is built is read back: exactly, when and only when empty slots hold nothing. */
  lemma StateRoundTrip(original: seq<byte>, sectors: uint64, t: Table)
    requires |original| == SECTOR && BuildState(original, sectors, t).Some?
    ensures ReadState(BuildState(original, sectors, t).value, sectors) == Some(t)
      <==> Canonical(t.partitions, ENTRY_COUNT)
  {
    hide BuildState, ReadState, ValidTable, AllZero;
    BuiltReads(original, sectors, t);
    var cleared := ClearedSlots(t.partitions, ENTRY_COUNT);
    if Canonical(t.partitions, ENTRY_COUNT) {
      assert cleared == t.partitions;
    } else {
      var i :| 0 <= i < ENTRY_COUNT && t.partitions[i].Empty() && t.partitions[i] != EMPTY;
      assert cleared[i] != t.partitions[i];
    }
  }

  lemma {:induction false} ReadIsCanonical(b: seq<byte>, n: nat)
    requires |b| >= ENTRY_SIZE * n && ReadEntries(b, n).Some?
    ensures Canonical(ReadEntries(b, n).value, n)
  {
    if n > 0 {
      hide Zeros, ReadUnits, LeValue;
      ReadIsCanonical(b, n - 1);
    }
  }

  /** Whatever is read is valid and canonical. */
  lemma ReadIsSound(s: RawState, sectors: uint64)
    requires ReadState(s, sectors).Some?
    ensures ValidTable(ReadState(s, sectors).value) && Canonical(ReadState(s, sectors).value.partitions, ENTRY_COUNT)
  {
    hide ValidTable, ParseHeader, ReadEntries, Canonical;
    var g := GeometryOf(sectors).value;
    EntriesSized(s.primaryHeader, PrimaryPlace(g), s.primaryEntries);
    ReadIsCanonical(s.primaryEntries, ENTRY_COUNT);
  }

  /** A state that is read has a sound backup, with the identity of the table. */
  lemma ReadBackup(s: RawState, sectors: uint64)
    requires ReadState(s, sectors).Some?
    ensures GeometryOf(sectors).Some?
    ensures var header := ParseHeader(s.backupHeader, BackupPlace(GeometryOf(sectors).value), s.backupEntries);
      header.Some? && header.value.diskGuid == ReadState(s, sectors).value.diskGuid
  {
    hide ValidTable, ParseHeader, ReadEntries;
  }

  lemma EntriesSized(header: seq<byte>, h: Place, entries: seq<byte>)
    requires ParseHeader(header, h, entries).Some?
    ensures |entries| == ENTRY_COUNT * ENTRY_SIZE
  {
  }

  lemma StateShape(s: RawState, sectors: uint64)
    requires ReadState(s, sectors).Some?
    ensures |s.protectiveMbr| == SECTOR && GeometryOf(sectors).Some?
    ensures var t, g := ReadState(s, sectors).value, GeometryOf(sectors).value;
      t.firstUsable == g.firstUsable && t.lastUsable == g.lastUsable
  {
    hide ValidTable, ParseHeader, ReadEntries;
  }

  // ----- Byte by byte

  lemma SealedLayout(h: seq<byte>)
    requires |h| == SECTOR
    ensures Put(Get(h, 0, HEADER_SIZE), 16, Zeros(4)) == h[0..16] + [0, 0, 0, 0] + h[20..92]
  {
    assert Zeros(4) == [0, 0, 0, 0];
    hide Zeros;
  }

  /** A header is taken exactly when its bytes say so. */
  lemma ParsedLayout(h: seq<byte>, place: Place, entries: seq<byte>)
    ensures ParseHeader(h, place, entries).Some? <==>
      && Conventional(h) && Checked(h, entries) && |entries| == 16384 && !AllZero(h[56..72])
      && LeValue(h[24..32]) == place.current && LeValue(h[32..40]) == place.backup
      && LeValue(h[40..48]) == place.firstUsable && LeValue(h[48..56]) == place.lastUsable
      && LeValue(h[72..80]) == place.entriesLba
    ensures ParseHeader(h, place, entries).Some?
      ==> ParseHeader(h, place, entries).value == Header(h[56..72], LeValue(h[88..92]))
  {
    if |h| == SECTOR {
      SealedLayout(h);
    }
    hide LeValue, Crc32, AllZero, Put;
  }

  lemma {:induction false} SlotReads(b: seq<byte>, n: nat, i: nat)
    requires |b| == 16384 && i < n <= 128
    ensures ReadEntries(b, n).Some? ==> ReadEntry(SlotAt(b, i)) == Some(ReadEntries(b, n).value[i])
    decreases n
  {
    hide ReadEntry;
    if i < n - 1 {
      SlotReads(b, n - 1, i);
    }
  }

  lemma {:induction false} AllSlotsRead(b: seq<byte>, n: nat)
    requires |b| == 16384 && n <= 128 && forall i: nat :: i < n ==> ReadEntry(SlotAt(b, i)).Some?
    ensures ReadEntries(b, n).Some?
  {
    hide ReadEntry;
    if n > 0 {
      AllSlotsRead(b, n - 1);
      assert ReadEntry(SlotAt(b, n - 1)).Some?;
    }
  }

  lemma {:induction false} UnitsAt(b: seq<byte>, n: nat, k: nat)
    requires 2 * n <= |b| && k < n
    ensures ReadUnits(b, n)[k] == LeValue(b[2 * k..2 * k + 2])
  {
    hide LeValue, Pow256;
    if k < n - 1 {
      UnitsAt(b, n - 1, k);
    }
  }

  /** One slot: what is refused, what is empty, and what the bytes of a partition say. */
  lemma SlotTells(e: seq<byte>)
    requires |e| == 128
    ensures ReadEntry(e).None? <==> AllZero(e[0..16]) && !AllZero(e)
    ensures AllZero(e) ==> ReadEntry(e) == Some(EMPTY)
    ensures ReadEntry(e).Some? && !AllZero(e) ==> Tells(e, ReadEntry(e).value) && !ReadEntry(e).value.Empty()
  {
    hide LeValue, Pow256, ReadUnits;
    if ReadEntry(e).Some? && !AllZero(e) {
      forall k: nat | k < 36 ensures ReadEntry(e).value.name[k] == LeValue(e[56 + 2 * k..58 + 2 * k]) {
        UnitsAt(e[56..128], 36, k);
        assert e[56..128][2 * k..2 * k + 2] == e[56 + 2 * k..58 + 2 * k];
      }
    }
  }

  /** The slots as read, each as its own bytes say. */
  ghost predicate AllTold(entries: seq<byte>, parts: seq<Partition>)
    requires |entries| == 16384 && |parts| == 128
  {
    forall i: nat :: i < 128 ==> Told(SlotAt(entries, i), parts[i])
  }

  ghost predicate Told(e: seq<byte>, p: Partition)
    requires |e| == 128
  {
    if AllZero(e) then p == EMPTY else Tells(e, p) && !p.Empty()
  }

  lemma ReadTold(entries: seq<byte>)
    requires |entries| == 16384 && ReadEntries(entries, 128).Some?
    ensures AllTold(entries, ReadEntries(entries, 128).value)
  {
    hide ReadEntry, ReadEntries, SlotAt, Tells, AllZero;
    var parts := ReadEntries(entries, 128).value;
    forall i: nat | i < 128 ensures Told(SlotAt(entries, i), parts[i]) {
      SlotReads(entries, 128, i);
      SlotTells(SlotAt(entries, i));
    }
  }

  lemma ToldSound(t: Table, entries: seq<byte>, sectors: nat, i: nat)
    requires |entries| == 16384 && i < 128 && AllTold(entries, t.partitions)
    requires t.firstUsable == 34 && t.lastUsable == sectors - 34
    ensures SlotSound(t, i) <==> Acceptable(SlotAt(entries, i), sectors)
  {
    hide SlotAt, LeValue, AllZero;
    assert Told(SlotAt(entries, i), t.partitions[i]);
    assert AllZero(EMPTY.kind) by {
      ZeroSlot();
    }
  }

  lemma ZeroSlot()
    ensures AllZero(EMPTY.kind)
  {
  }

  /** Two slots stand in one table: different identities, and no sector in both. */
  ghost predicate Together(p: Partition, q: Partition) {
    p.Empty() || q.Empty() || (p.unique != q.unique && Apart(p.Span().value, q.Span().value))
  }

  lemma ToldSeparate(entries: seq<byte>, parts: seq<Partition>, i: nat, j: nat)
    requires |entries| == 16384 && |parts| == 128 && AllTold(entries, parts) && i < j < 128
    ensures Together(parts[i], parts[j]) <==> Separate(SlotAt(entries, i), SlotAt(entries, j))
  {
    hide SlotAt, LeValue, AllZero, AllTold;
    assert Told(SlotAt(entries, i), parts[i]) && Told(SlotAt(entries, j), parts[j]) by {
      ToldAt(entries, parts, i);
      ToldAt(entries, parts, j);
    }
    ZeroSlot();
  }

  lemma ToldAt(entries: seq<byte>, parts: seq<Partition>, i: nat)
    requires |entries| == 16384 && |parts| == 128 && AllTold(entries, parts) && i < 128
    ensures Told(SlotAt(entries, i), parts[i])
  {
  }

  lemma ValidTogether(t: Table)
    ensures ValidTable(t) <==>
      && GeometrySound(t) && (forall i: nat :: i < 128 ==> SlotSound(t, i))
      && forall i: nat, j: nat :: i < j < 128 ==> Together(t.partitions[i], t.partitions[j])
  {
    hide AllZero, GeometrySound;
    var spans := Spans(t.partitions);
    if ValidTable(t) {
      forall i: nat, j: nat | i < j < 128 ensures Together(t.partitions[i], t.partitions[j]) {
        assert OwnGuid(t.partitions, j);
        assert spans[i].Some? && spans[j].Some? ==> Apart(spans[i].value, spans[j].value);
      }
    }
    if forall i: nat, j: nat :: i < j < 128 ==> Together(t.partitions[i], t.partitions[j]) {
      forall i: nat | i < 128 ensures OwnGuid(t.partitions, i) {
        assert forall j :: 0 <= j < i ==> Together(t.partitions[j], t.partitions[i]);
      }
      forall i, j | 0 <= i < j < 128 && spans[i].Some? && spans[j].Some? ensures Apart(spans[i].value, spans[j].value) {
        assert Together(t.partitions[i], t.partitions[j]);
      }
      assert SlotsApart(spans, 128);
    }
  }

  lemma TableLayout(t: Table, entries: seq<byte>, sectors: nat)
    requires sectors >= 68 && t.firstUsable == 34 && t.lastUsable == sectors - 34 && !AllZero(t.diskGuid)
    requires |entries| == 16384 && AllTold(entries, t.partitions)
    ensures ValidTable(t) <==> EntriesLayout(entries, sectors)
  {
    ValidTogether(t);
    hide ValidTable, SlotSound, Together, Acceptable, Separate, SlotAt, AllTold, AllZero;
    forall i: nat | i < 128 ensures SlotSound(t, i) <==> Acceptable(SlotAt(entries, i), sectors) {
      ToldSound(t, entries, sectors, i);
    }
    forall i: nat, j: nat | i < j < 128
      ensures Together(t.partitions[i], t.partitions[j]) <==> Separate(SlotAt(entries, i), SlotAt(entries, j)) {
      ToldSeparate(entries, t.partitions, i, j);
    }
  }

  lemma AcceptableRead(entries: seq<byte>, sectors: nat)
    requires |entries| == 16384 && EntriesLayout(entries, sectors)
    ensures ReadEntries(entries, 128).Some?
  {
    hide ReadEntries, ReadEntry, SlotAt, AllZero, LeValue, Separate;
    forall i: nat | i < 128 ensures ReadEntry(SlotAt(entries, i)).Some? {
      SlotTells(SlotAt(entries, i));
      assert Acceptable(SlotAt(entries, i), sectors);
    }
    AllSlotsRead(entries, 128);
  }

  /** The table of a pair whose headers are in order. */
  lemma HeldTable(s: RawState, sectors: uint64, diskGuid: Guid)
    requires sectors >= 68 && |s.primaryHeader| == 512 && s.primaryHeader[56..72] == diskGuid && !AllZero(diskGuid)
    requires |s.primaryEntries| == 16384
    ensures ReadEntries(s.primaryEntries, 128).Some? ==>
      var t := Table(diskGuid, 34, sectors - 34, ReadEntries(s.primaryEntries, 128).value);
      (ValidTable(t) <==> EntriesLayout(s.primaryEntries, sectors)) && HoldsTable(s, sectors, t)
    ensures EntriesLayout(s.primaryEntries, sectors) ==> ReadEntries(s.primaryEntries, 128).Some?
  {
    var entries := s.primaryEntries;
    hide ReadEntries, ValidTable, AllZero, EntriesLayout, LeValue, SlotAt, Tells, AllTold;
    if EntriesLayout(entries, sectors) {
      AcceptableRead(entries, sectors);
    }
    if ReadEntries(entries, 128).Some? {
      var t := Table(diskGuid, 34, sectors - 34, ReadEntries(entries, 128).value);
      ReadTold(entries);
      TableLayout(t, entries, sectors);
      forall i: nat | i < 128 ensures Told(SlotAt(entries, i), t.partitions[i]) {
        ToldAt(entries, t.partitions, i);
      }
      ZeroSlot();
    }
  }

  /** Which pairs of copies are taken, byte by byte, and the table they hold. */
  lemma ReadLayout(s: RawState, sectors: uint64)
    ensures ReadState(s, sectors).Some? <==> Layout(s, sectors)
    ensures Layout(s, sectors) ==> HoldsTable(s, sectors, ReadState(s, sectors).value)
  {
    hide ParseHeader, ReadEntries, ValidTable, Crc32, AllZero, EntriesLayout, LeValue, HoldsTable;
    GeometryFits(sectors);
    if sectors >= 68 {
      var g := GeometryOf(sectors).value;
      ParsedLayout(s.primaryHeader, PrimaryPlace(g), s.primaryEntries);
      ParsedLayout(s.backupHeader, BackupPlace(g), s.backupEntries);
      if |s.primaryHeader| == 512 && |s.primaryEntries| == 16384 && !AllZero(s.primaryHeader[56..72]) {
        HeldTable(s, sectors, s.primaryHeader[56..72]);
      }
    }
  }

  /** What is built is a pair that is taken, and it says what the table says. */
  lemma BuiltLayout(original: seq<byte>, sectors: uint64, t: Table)
    requires |original| == SECTOR
    ensures BuildState(original, sectors, t).Some?
      <==> sectors >= 68 && t.firstUsable == 34 && t.lastUsable == sectors - 34 && ValidTable(t)
    ensures var state := BuildState(original, sectors, t);
      state.Some? ==>
        && Layout(state.value, sectors) && HoldsTable(state.value, sectors, t)
        && ProtectiveLayout(state.value.protectiveMbr, original, sectors)
  {
    GeometryFits(sectors);
    hide ReadState, ValidTable, Layout, HoldsTable, Pair, ClearedSlots, EntriesBytes, ProtectiveLayout, ProtectiveMbr;
    var state := BuildState(original, sectors, t);
    if state.Some? {
      BuiltReads(original, sectors, t);
      ReadLayout(state.value, sectors);
      ClearedTold(state.value, sectors, t);
      ProtectiveFacts(original, sectors);
      PairMbr(ProtectiveMbr(original, sectors), GeometryOf(sectors).value, t.diskGuid,
              EntriesBytes(t.partitions, ENTRY_COUNT));
    }
  }

  lemma PairMbr(mbr: seq<byte>, g: Geometry, diskGuid: Guid, entries: seq<byte>)
    ensures Pair(mbr, g, diskGuid, entries).protectiveMbr == mbr
  {
    hide HeaderBytes, Crc32;
  }

  lemma ClearedTold(s: RawState, sectors: nat, t: Table)
    requires Layout(s, sectors)
    requires HoldsTable(s, sectors, t.(partitions := ClearedSlots(t.partitions, ENTRY_COUNT)))
    ensures HoldsTable(s, sectors, t)
  {
    hide SlotAt, LeValue, AllZero, PrimaryLayout, BackupLayout, Checked, Separate, ClearedSlots;
    forall i: nat | i < 128
      ensures if AllZero(SlotAt(s.primaryEntries, i)) then AllZero(t.partitions[i].kind)
              else Tells(SlotAt(s.primaryEntries, i), t.partitions[i])
    {
      ZeroSlot();
      assert Acceptable(SlotAt(s.primaryEntries, i), sectors);
    }
  }

  /** Building both copies. */
  method BuildGpt(original: seq<byte>, sectors: uint64, t: Table) returns (state: Option<RawState>)
    requires |original| == SECTOR
    ensures state == BuildState(original, sectors, t)
    ensures state.Some? <==> sectors >= 68 && t.firstUsable == 34 && t.lastUsable == sectors - 34 && ValidTable(t)
    ensures state.Some? ==> Layout(state.value, sectors) && HoldsTable(state.value, sectors, t)
    ensures state.Some? ==> ProtectiveLayout(state.value.protectiveMbr, original, sectors)
  {
    hide Layout, HoldsTable, ProtectiveLayout;
    hide HeaderBytes, EntriesBytes, ProtectiveMbr, ValidTable, Crc32;
    var geometry := GeometryOf(sectors);
    if geometry.None? {
      return None;
    }
    var g := geometry.value;
    if t.firstUsable != g.firstUsable || t.lastUsable != g.lastUsable {
      return None;
    }
    var ok := ValidateTable(t);
    if !ok {
      return None;
    }
    var entries := BuildEntries(t.partitions);
    var crc := Crc32(entries[..]);
    var mbr := BuildProtectiveMbr(original, sectors);
    var primary := BuildHeader(Place(1, g.backupHeader, 2, g.firstUsable, g.lastUsable), t.diskGuid, crc);
    var backup := BuildHeader(Place(g.backupHeader, 1, g.backupEntries, g.firstUsable, g.lastUsable), t.diskGuid, crc);
    state := Some(RawState(mbr[..], primary[..], entries[..], entries[..], backup[..]));
    BuiltLayout(original, sectors, t);
  }

  method BuildProtectiveMbr(original: seq<byte>, sectors: uint64) returns (mbr: array<byte>)
    requires |original| == SECTOR
    ensures fresh(mbr) && mbr[..] == ProtectiveMbr(original, sectors)
  {
    hide Put, ProtectiveEntry;
    mbr := ZeroBuffer(SECTOR);
    PutBytes(mbr, 0, original);
    assert Put(Zeros(SECTOR), 0, original) == original by {
      PutWhole(Zeros(SECTOR), original);
    }
    PutBytes(mbr, 446, Zeros(64));
    PutBytes(mbr, 446, ProtectiveEntry(sectors));
    PutBytes(mbr, 510, [0x55, 0xAA]);
  }

  lemma PutWhole(s: seq<byte>, b: seq<byte>)
    requires |s| == |b|
    ensures Put(s, 0, b) == b
  {
  }

  /** Reading and validating both copies. */
  method ReadGpt(s: RawState, sectors: uint64) returns (t: Option<Table>)
    ensures t == ReadState(s, sectors)
    ensures t.Some? <==> Layout(s, sectors)
    ensures t.Some? ==> HoldsTable(s, sectors, t.value)
  {
    hide Layout, HoldsTable;
    ReadLayout(s, sectors);
    hide ParseHeader, ReadEntries, ValidTable;
    var geometry := GeometryOf(sectors);
    if geometry.None? {
      return None;
    }
    var g := geometry.value;
    if |s.protectiveMbr| != SECTOR || s.protectiveMbr[510] != 0x55 || s.protectiveMbr[511] != 0xAA
        || s.protectiveMbr[450] != 0xEE {
      return None;
    }
    var primaryPlace := Place(1, g.backupHeader, 2, g.firstUsable, g.lastUsable);
    var backupPlace := Place(g.backupHeader, 1, g.backupEntries, g.firstUsable, g.lastUsable);
    var primary := ParseHeader(s.primaryHeader, primaryPlace, s.primaryEntries);
    if primary.None? {
      return None;
    }
    var backup := ParseHeader(s.backupHeader, backupPlace, s.backupEntries);
    if backup.None? {
      return None;
    }
    if primary != backup || s.primaryEntries != s.backupEntries {
      return None;
    }
    EntriesSized(s.primaryHeader, primaryPlace, s.primaryEntries);
    var parts := ReadEntries(s.primaryEntries, ENTRY_COUNT);
    if parts.None? {
      return None;
    }
    var table := Table(primary.value.diskGuid, g.firstUsable, g.lastUsable, parts.value);
    var ok := ValidateTable(table);
    return if ok then Some(table) else None;
  }
}
