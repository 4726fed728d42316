/** Writing both copies of a GPT so that a crash at any step leaves one of them whole. */
module GptWrite {
  import opened Bits
  import opened ByteBuffers
  import opened GptTable
  import opened GptLayout
  import opened GptCodec
  import opened Disks
  import opened Extents
  import opened Outcomes

  /** The last sector that a signed 64-bit byte offset reaches. */
  const ADDRESSABLE := 0x3F_FFFF_FFFF_FFFF

  predicate WellSized(s: RawState) {
    && |s.protectiveMbr| == SECTOR && |s.primaryHeader| == SECTOR && |s.backupHeader| == SECTOR
    && |s.primaryEntries| == ENTRY_COUNT * ENTRY_SIZE && |s.backupEntries| == ENTRY_COUNT * ENTRY_SIZE
  }

  /** The raw state that a disk holds. */
  function RawStateAt(img: Image, g: Geometry): RawState
    requires |img| == g.backupHeader + 1 && g.backupEntries + ENTRY_SECTORS == g.backupHeader && 34 <= g.backupEntries
  {
    RawState(ReadAt(img, 0, 1), ReadAt(img, 1, 1), ReadAt(img, 2, ENTRY_SECTORS),
             ReadAt(img, g.backupEntries, ENTRY_SECTORS), ReadAt(img, g.backupHeader, 1))
  }

  ghost predicate Fits(img: Image, sectors: uint64) {
    sectors >= 68 && |img| == sectors
  }

  /** The primary header and entries are as they were. */
  ghost predicate PrimaryKept(img: Image, was: Image) {
    |img| == |was| && forall lba :: 1 <= lba < 2 + ENTRY_SECTORS && lba < |img| ==> img[lba] == was[lba]
  }

  /** The new backup header and entries are complete. */
  ghost predicate BackupWhole(img: Image, sectors: uint64, s: RawState)
    requires Fits(img, sectors)
  {
    var g := GeometryOf(sectors).value;
    ReadAt(img, g.backupEntries, ENTRY_SECTORS) == s.backupEntries && ReadAt(img, g.backupHeader, 1) == s.backupHeader
  }

  /** The sectors for partitions, between the entries of the two copies, are as they were. */
  ghost predicate DataKept(img: Image, was: Image, sectors: uint64)
    requires Fits(was, sectors)
  {
    && |img| == |was|
    && forall lba :: 2 + ENTRY_SECTORS <= lba < GeometryOf(sectors).value.backupEntries && lba < |img| ==>
        img[lba] == was[lba]
  }

  /** Whatever survives a crash in this state holds a whole copy, and the data of all partitions. */
  ghost predicate Recoverable(st: State, was: Image, sectors: uint64, s: RawState)
    requires Fits(was, sectors)
  {
    forall img :: MayRemain(st, img) && |img| == |was| ==>
        (PrimaryKept(img, was) || BackupWhole(img, sectors, s)) && DataKept(img, was, sectors)
  }

  ghost predicate AllRecoverable(history: seq<State>, from: nat, was: Image, sectors: uint64, s: RawState)
    requires Fits(was, sectors)
  {
    forall k :: from <= k < |history| ==> Recoverable(history[k], was, sectors, s)
  }

  // ----- The two halves

  /** Nothing below the backup has been written since `was`. */
  ghost predicate BackupHalf(st: State, was: Image, sectors: uint64) {
    Fits(was, sectors) && st.durable == was && Within(st.pending, GeometryOf(sectors).value.backupEntries, sectors)
  }

  lemma BackupHalfSafe(st: State, was: Image, sectors: uint64, s: RawState)
    requires BackupHalf(st, was, sectors)
    ensures Recoverable(st, was, sectors, s)
  {
    GeometryFits(sectors);
    var g := GeometryOf(sectors).value;
    forall img | MayRemain(st, img) && |img| == |was| ensures PrimaryKept(img, was) && DataKept(img, was, sectors) {
      forall lba | 2 + ENTRY_SECTORS <= lba < g.backupEntries && lba < |img| ensures img[lba] == was[lba] {
        RemainsOutside(st, img, g.backupEntries, sectors, lba);
      }
      forall lba | 1 <= lba < 2 + ENTRY_SECTORS && lba < |img| ensures img[lba] == was[lba] {
        RemainsOutside(st, img, g.backupEntries, sectors, lba);
      }
    }
  }

  /** The new backup is durable, and nothing in it has been written since. */
  ghost predicate PrimaryHalf(st: State, was: Image, sectors: uint64, s: RawState) {
    && Fits(was, sectors) && Fits(st.durable, sectors) && BackupWhole(st.durable, sectors, s)
    && Within(st.pending, 0, 2 + ENTRY_SECTORS) && DataKept(st.durable, was, sectors)
  }

  lemma PrimaryHalfSafe(st: State, was: Image, sectors: uint64, s: RawState)
    requires PrimaryHalf(st, was, sectors, s)
    ensures Recoverable(st, was, sectors, s)
  {
    GeometryFits(sectors);
    var g := GeometryOf(sectors).value;
    forall img | MayRemain(st, img) && |img| == |was|
      ensures BackupWhole(img, sectors, s) && DataKept(img, was, sectors)
    {
      forall lba | 2 + ENTRY_SECTORS <= lba < g.backupEntries && lba < |img| ensures img[lba] == was[lba] {
        RemainsOutside(st, img, 0, 2 + ENTRY_SECTORS, lba);
      }
      forall lba | g.backupEntries <= lba < sectors ensures img[lba] == st.durable[lba] {
        RemainsOutside(st, img, 0, 2 + ENTRY_SECTORS, lba);
      }
      SameRead(img, st.durable, g.backupEntries, ENTRY_SECTORS);
      SameRead(img, st.durable, g.backupHeader, 1);
    }
  }

  lemma WithinJoin(a: seq<Write>, b: seq<Write>, lo: nat, hi: nat)
    requires Within(a, lo, hi) && Within(b, lo, hi)
    ensures Within(a + b, lo, hi)
  {
  }

  lemma WritesInside(lba: nat, data: seq<byte>, n: nat, lo: nat, hi: nat)
    requires SECTOR * n <= |data| && lo <= lba && lba + n <= hi
    ensures Within(Writes(lba, data, n), lo, hi)
  {
    WritesWithin(lba, data, n);
  }

  /** States recorded while writing inside one half are recoverable. */
  lemma BackupWritesSafe(history: seq<State>, from: nat, was: Image, before: seq<Write>, lba: nat, data: seq<byte>,
      sectors: uint64, s: RawState)
    requires BackupHalf(State(was, before), was, sectors) && Recorded(history, from, was, before, lba, data)
    requires GeometryOf(sectors).value.backupEntries <= lba && from <= |history| && lba + (|history| - from) <= sectors
    requires SECTOR * (|history| - from) <= |data|
    ensures AllRecoverable(history, from, was, sectors, s)
    ensures BackupHalf(State(was, before + Writes(lba, data, |history| - from)), was, sectors)
  {
    var lo := GeometryOf(sectors).value.backupEntries;
    forall n: nat | n <= |history| - from
      ensures BackupHalf(State(was, before + Writes(lba, data, n)), was, sectors)
    {
      WritesInside(lba, data, n, lo, sectors);
      WithinJoin(before, Writes(lba, data, n), lo, sectors);
    }
    forall k | from <= k < |history| ensures Recoverable(history[k], was, sectors, s) {
      BackupHalfSafe(history[k], was, sectors, s);
    }
  }

  lemma PrimaryWritesSafe(history: seq<State>, from: nat, was: Image, now: Image, before: seq<Write>, lba: nat,
      data: seq<byte>, sectors: uint64, s: RawState)
    requires PrimaryHalf(State(now, before), was, sectors, s) && Recorded(history, from, now, before, lba, data)
    requires from <= |history| && lba + (|history| - from) <= 2 + ENTRY_SECTORS && SECTOR * (|history| - from) <= |data|
    ensures AllRecoverable(history, from, was, sectors, s)
    ensures PrimaryHalf(State(now, before + Writes(lba, data, |history| - from)), was, sectors, s)
  {
    hide BackupWhole;
    forall n: nat | n <= |history| - from
      ensures PrimaryHalf(State(now, before + Writes(lba, data, n)), was, sectors, s)
    {
      WritesInside(lba, data, n, 0, 2 + ENTRY_SECTORS);
      WithinJoin(before, Writes(lba, data, n), 0, 2 + ENTRY_SECTORS);
    }
    forall k | from <= k < |history| ensures Recoverable(history[k], was, sectors, s) {
      PrimaryHalfSafe(history[k], was, sectors, s);
    }
  }

  // ----- Between the halves, and at the end

  function BackupWrites(g: Geometry, s: RawState): seq<Write>
    requires WellSized(s)
  {
    Writes(g.backupEntries, s.backupEntries, ENTRY_SECTORS) + Writes(g.backupHeader, s.backupHeader, 1)
  }

  function PrimaryWrites(s: RawState): seq<Write>
    requires WellSized(s)
  {
    Writes(2, s.primaryEntries, ENTRY_SECTORS) + Writes(1, s.primaryHeader, 1) + Writes(0, s.protectiveMbr, 1)
  }

  function Synced(img: Image, w: seq<Write>): (r: Image)
    ensures |r| == |img|
  {
    Applied(img, w, |w|)
  }

  lemma ReadWritten(img: Image, before: seq<Write>, lba: nat, data: seq<byte>, n: nat)
    requires |data| == SECTOR * n && lba + n <= |img|
    ensures ReadAt(Synced(img, before + Writes(lba, data, n)), lba, n) == data
  {
    var r := Synced(img, before + Writes(lba, data, n));
    forall k: nat | k < n ensures r[lba + k] == Chunk(data, k) {
      AppliedWrites(img, before, lba, data, n, lba + k);
    }
    ReadChunks(r, lba, data, n);
    assert data[..SECTOR * n] == data;
  }

  /** Writes elsewhere leave what is read. */
  lemma ReadBeside(img: Image, before: seq<Write>, lba: nat, data: seq<byte>, n: nat, from: nat, m: nat)
    requires |data| == SECTOR * n && lba + n <= |img| && from + m <= |img| && (from + m <= lba || lba + n <= from)
    ensures ReadAt(Synced(img, before + Writes(lba, data, n)), from, m) == ReadAt(Synced(img, before), from, m)
  {
    var r := Synced(img, before + Writes(lba, data, n));
    forall x | from <= x < from + m ensures r[x] == Synced(img, before)[x] {
      AppliedWrites(img, before, lba, data, n, x);
    }
    SameRead(r, Synced(img, before), from, m);
  }

  /** Syncing the backup writes makes the new backup whole. */
  lemma BackupSynced(img: Image, sectors: uint64, s: RawState)
    requires Fits(img, sectors) && WellSized(s)
    ensures BackupWhole(Synced(img, BackupWrites(GeometryOf(sectors).value, s)), sectors, s)
  {
    GeometryFits(sectors);
    var g := GeometryOf(sectors).value;
    hide Writes, ReadAt, Synced;
    var first := Writes(g.backupEntries, s.backupEntries, ENTRY_SECTORS);
    assert [] + first == first;
    ReadWritten(img, [], g.backupEntries, s.backupEntries, ENTRY_SECTORS);
    ReadBeside(img, first, g.backupHeader, s.backupHeader, 1, g.backupEntries, ENTRY_SECTORS);
    ReadWritten(img, first, g.backupHeader, s.backupHeader, 1);
  }

  lemma BackupWithin(sectors: uint64, s: RawState)
    requires sectors >= 68 && WellSized(s)
    ensures Within(BackupWrites(GeometryOf(sectors).value, s), GeometryOf(sectors).value.backupEntries, sectors)
  {
    GeometryFits(sectors);
    var g := GeometryOf(sectors).value;
    hide Writes;
    WritesInside(g.backupEntries, s.backupEntries, ENTRY_SECTORS, g.backupEntries, sectors);
    WritesInside(g.backupHeader, s.backupHeader, 1, g.backupEntries, sectors);
  }

  lemma PrimaryWithin(s: RawState)
    requires WellSized(s)
    ensures Within(PrimaryWrites(s), 0, 2 + ENTRY_SECTORS)
  {
    hide Writes;
    WritesInside(2, s.primaryEntries, ENTRY_SECTORS, 0, 2 + ENTRY_SECTORS);
    WritesInside(1, s.primaryHeader, 1, 0, 2 + ENTRY_SECTORS);
    WritesInside(0, s.protectiveMbr, 1, 0, 2 + ENTRY_SECTORS);
  }

  /** Neither half writes where partitions lie. */
  lemma DataSynced(img: Image, was: Image, w: seq<Write>, lo: nat, hi: nat, sectors: uint64)
    requires Fits(was, sectors) && DataKept(img, was, sectors) && Within(w, lo, hi)
    requires GeometryOf(sectors).value.backupEntries <= lo || hi <= 2 + ENTRY_SECTORS
    ensures DataKept(Synced(img, w), was, sectors)
  {
    var g := GeometryOf(sectors).value;
    hide GeometryOf;
    forall lba | 2 + ENTRY_SECTORS <= lba < g.backupEntries && lba < |img| ensures Synced(img, w)[lba] == was[lba] {
      AppliedOutside(img, w, |w|, lo, hi, lba);
    }
  }

  /** Syncing the primary writes on top makes the disk hold the whole new state. */
  lemma PrimarySynced(img: Image, sectors: uint64, s: RawState)
    requires Fits(img, sectors) && WellSized(s) && BackupWhole(img, sectors, s)
    ensures Fits(Synced(img, PrimaryWrites(s)), sectors)
    ensures GeometryOf(sectors).Some? && 34 <= GeometryOf(sectors).value.backupEntries
    ensures RawStateAt(Synced(img, PrimaryWrites(s)), GeometryOf(sectors).value) == s
  {
    GeometryFits(sectors);
    var g := GeometryOf(sectors).value;
    hide Writes, ReadAt;
    var a, b, c :=
      Writes(2, s.primaryEntries, ENTRY_SECTORS), Writes(1, s.primaryHeader, 1), Writes(0, s.protectiveMbr, 1);
    NothingSynced(img);
    hide Synced;
    assert [] + a == a;
    ReadWritten(img, [], 2, s.primaryEntries, ENTRY_SECTORS);
    ReadBeside(img, a, 1, s.primaryHeader, 1, 2, ENTRY_SECTORS);
    ReadBeside(img, a + b, 0, s.protectiveMbr, 1, 2, ENTRY_SECTORS);
    ReadWritten(img, a, 1, s.primaryHeader, 1);
    ReadBeside(img, a + b, 0, s.protectiveMbr, 1, 1, 1);
    ReadWritten(img, a + b, 0, s.protectiveMbr, 1);
    KeptBehind(img, s, g.backupEntries, ENTRY_SECTORS);
    KeptBehind(img, s, g.backupHeader, 1);
  }

  lemma NothingSynced(img: Image)
    ensures Synced(img, []) == img
  {
  }

  lemma KeptBehind(img: Image, s: RawState, from: nat, m: nat)
    requires WellSized(s) && 2 + ENTRY_SECTORS <= from && from + m <= |img|
    ensures ReadAt(Synced(img, PrimaryWrites(s)), from, m) == ReadAt(img, from, m)
  {
    hide Writes, ReadAt;
    var a, b := Writes(2, s.primaryEntries, ENTRY_SECTORS), Writes(1, s.primaryHeader, 1);
    NothingSynced(img);
    hide Synced;
    assert [] + a == a;
    ReadBeside(img, [], 2, s.primaryEntries, ENTRY_SECTORS, from, m);
    ReadBeside(img, a, 1, s.primaryHeader, 1, from, m);
    ReadBeside(img, a + b, 0, s.protectiveMbr, 1, from, m);
  }

  // ----- The protocol

  lemma RecoverableJoin(history: seq<State>, from: nat, mid: nat, was: Image, sectors: uint64, s: RawState)
    requires Fits(was, sectors) && from <= mid <= |history|
    requires AllRecoverable(history[..mid], from, was, sectors, s) && AllRecoverable(history, mid, was, sectors, s)
    ensures AllRecoverable(history, from, was, sectors, s)
  {
    hide Recoverable;
    forall k | from <= k < |history| ensures Recoverable(history[k], was, sectors, s) {
      assert k < mid ==> history[..mid][k] == history[k];
    }
  }

  /** One write of the protocol, refused beyond the addressable sectors. */
  method WriteRegion(disk: Disk, lba: nat, data: seq<byte>, n: nat) returns (ok: bool)
    requires |data| == SECTOR * n && lba + n <= |disk.durable|
    modifies disk
    ensures disk.durable == old(disk.durable)
    ensures old(disk.history) <= disk.history && |disk.history| <= |old(disk.history)| + n
    ensures ok <==> lba <= ADDRESSABLE && n <= old(disk.patience)
    ensures ok ==> |disk.history| == |old(disk.history)| + n && disk.patience == old(disk.patience) - n
    ensures disk.pending == old(disk.pending) + Writes(lba, data, |disk.history| - |old(disk.history)|)
    ensures Recorded(disk.history, |old(disk.history)|, old(disk.durable), old(disk.pending), lba, data)
  {
    if lba > 0x7FFF_FFFF_FFFF_FFFF / 512 {
      assert old(disk.pending) + [] == old(disk.pending);
      return false;
    }
    ok := disk.WriteAt(lba, data, n);
  }

  /** The backup entries, then the backup header, then a sync. */
  method WriteBackup(disk: Disk, sectors: uint64, s: RawState) returns (ok: bool)
    requires Fits(disk.durable, sectors) && disk.pending == [] && WellSized(s)
    modifies disk
    ensures old(disk.history) <= disk.history
    ensures AllRecoverable(disk.history, |old(disk.history)|, old(disk.durable), sectors, s)
    ensures ok <==> sectors - 1 <= ADDRESSABLE && ENTRY_SECTORS + 2 <= old(disk.patience)
    ensures ok ==> disk.patience == old(disk.patience) - (ENTRY_SECTORS + 2)
    ensures ok ==> disk.pending == [] && PrimaryHalf(State(disk.durable, []), old(disk.durable), sectors, s)
  {
    ghost var was, from := disk.durable, |disk.history|;
    GeometryFits(sectors);
    var g := GeometryOf(sectors).value;
    hide Writes, Recorded, AllRecoverable, PrimaryHalf, BackupHalf, BackupWhole;
    StartsInBackup(was, sectors);
    NoneRecoverable(disk.history, was, sectors, s);
    ok := WriteRegion(disk, g.backupEntries, s.backupEntries, ENTRY_SECTORS);
    ghost var mid := |disk.history|;
    BackupWritesSafe(disk.history, from, was, [], g.backupEntries, s.backupEntries, sectors, s);
    if !ok {
      return;
    }
    ghost var before, sofar := disk.pending, disk.history;
    ok := WriteRegion(disk, g.backupHeader, s.backupHeader, 1);
    BackupWritesSafe(disk.history, mid, was, before, g.backupHeader, s.backupHeader, sectors, s);
    assert disk.history[..mid] == sofar;
    RecoverableJoin(disk.history, from, mid, was, sectors, s);
    if !ok {
      return;
    }
    assert [] + Writes(g.backupEntries, s.backupEntries, ENTRY_SECTORS)
      == Writes(g.backupEntries, s.backupEntries, ENTRY_SECTORS);
    assert disk.pending == BackupWrites(g, s);
    mid, sofar := |disk.history|, disk.history;
    ok := disk.Sync();
    if ok {
      BackupSynced(was, sectors, s);
      BackupWithin(sectors, s);
      DataSynced(was, was, BackupWrites(g, s), g.backupEntries, sectors, sectors);
      SyncedHalf(disk.durable, was, sectors, s);
      assert disk.history[..mid] == sofar;
      LastRecoverable(disk.history, mid, disk.durable, was, sectors, s);
      RecoverableJoin(disk.history, from, mid, was, sectors, s);
    }
  }

  lemma StartsInBackup(was: Image, sectors: uint64)
    requires Fits(was, sectors)
    ensures BackupHalf(State(was, []), was, sectors)
  {
  }

  lemma NoneRecoverable(history: seq<State>, was: Image, sectors: uint64, s: RawState)
    requires Fits(was, sectors)
    ensures AllRecoverable(history, |history|, was, sectors, s)
  {
  }

  lemma SyncedHalf(now: Image, was: Image, sectors: uint64, s: RawState)
    requires Fits(was, sectors) && DataKept(now, was, sectors) && BackupWhole(now, sectors, s)
    ensures PrimaryHalf(State(now, []), was, sectors, s)
  {
  }

  lemma LastRecoverable(history: seq<State>, mid: nat, now: Image, was: Image, sectors: uint64, s: RawState)
    requires |history| == mid + 1 && history[mid] == State(now, []) && PrimaryHalf(State(now, []), was, sectors, s)
    ensures AllRecoverable(history, mid, was, sectors, s)
  {
    hide PrimaryHalf, Recoverable;
    PrimaryHalfSafe(history[mid], was, sectors, s);
  }

  /** The primary entries, then the primary header, then the protective record, then a sync. */
  method WritePrimary(disk: Disk, sectors: uint64, s: RawState, ghost was: Image) returns (ok: bool)
    requires PrimaryHalf(State(disk.durable, []), was, sectors, s) && disk.pending == [] && WellSized(s)
    modifies disk
    ensures old(disk.history) <= disk.history && AllRecoverable(disk.history, |old(disk.history)|, was, sectors, s)
    ensures ok <==> ENTRY_SECTORS + 3 <= old(disk.patience)
    ensures ok ==> disk.pending == [] && disk.durable == Synced(old(disk.durable), PrimaryWrites(s))
    ensures ok ==> DataKept(disk.durable, was, sectors)
  {
    ghost var now, from := disk.durable, |disk.history|;
    hide Writes, Recorded, AllRecoverable, BackupWhole;
    ok := WriteRegion(disk, 2, s.primaryEntries, ENTRY_SECTORS);
    ghost var mid := |disk.history|;
    PrimaryWritesSafe(disk.history, from, was, now, [], 2, s.primaryEntries, sectors, s);
    if !ok {
      return;
    }
    ghost var before, sofar := disk.pending, disk.history;
    ok := WriteRegion(disk, 1, s.primaryHeader, 1);
    PrimaryWritesSafe(disk.history, mid, was, now, before, 1, s.primaryHeader, sectors, s);
    assert disk.history[..mid] == sofar;
    RecoverableJoin(disk.history, from, mid, was, sectors, s);
    if !ok {
      return;
    }
    mid, before, sofar := |disk.history|, disk.pending, disk.history;
    ok := WriteRegion(disk, 0, s.protectiveMbr, 1);
    PrimaryWritesSafe(disk.history, mid, was, now, before, 0, s.protectiveMbr, sectors, s);
    assert disk.history[..mid] == sofar;
    RecoverableJoin(disk.history, from, mid, was, sectors, s);
    if !ok {
      return;
    }
    assert [] + Writes(2, s.primaryEntries, ENTRY_SECTORS) == Writes(2, s.primaryEntries, ENTRY_SECTORS);
    assert disk.pending == PrimaryWrites(s);
    mid, sofar := |disk.history|, disk.history;
    ok := disk.Sync();
    if ok {
      FinalHalf(now, was, disk.durable, sectors, s);
      assert disk.history[..mid] == sofar;
      LastRecoverable(disk.history, mid, disk.durable, was, sectors, s);
      RecoverableJoin(disk.history, from, mid, was, sectors, s);
    }
  }

  lemma FinalHalf(now: Image, was: Image, final: Image, sectors: uint64, s: RawState)
    requires PrimaryHalf(State(now, []), was, sectors, s) && WellSized(s) && final == Synced(now, PrimaryWrites(s))
    ensures PrimaryHalf(State(final, []), was, sectors, s)
  {
    hide ReadAt, PrimaryWrites, Synced;
    PrimarySynced(now, sectors, s);
    PrimaryWithin(s);
    DataSynced(now, was, PrimaryWrites(s), 0, 2 + ENTRY_SECTORS, sectors);
  }

  /** The writes of both copies and the two syncs. */
  const STEPS := 2 * ENTRY_SECTORS + 5

  /** Every sector is addressable, and the device takes every step. */
  predicate Lasts(sectors: uint64, patience: nat) {
    sectors - 1 <= ADDRESSABLE && STEPS <= patience
  }

  /** Every area of the new state is in its sectors, and those between the two copies are as they were. */
  ghost predicate Installed(img: Image, was: Image, sectors: nat, s: RawState) {
    && sectors >= 68 && |img| == sectors && |was| == sectors
    && ReadAt(img, 0, 1) == s.protectiveMbr && ReadAt(img, 1, 1) == s.primaryHeader
    && ReadAt(img, 2, 32) == s.primaryEntries
    && ReadAt(img, sectors - 33, 32) == s.backupEntries && ReadAt(img, sectors - 1, 1) == s.backupHeader
    && forall lba :: 34 <= lba < sectors - 33 ==> img[lba] == was[lba]
  }

  /** What is read and what the layout says are the same, and the sizes follow. */
  lemma SizedLayout(s: RawState, sectors: uint64)
    ensures ReadState(s, sectors).Some? <==> Layout(s, sectors)
    ensures Layout(s, sectors) ==> WellSized(s)
  {
    ReadLayout(s, sectors);
    hide ReadState, Checked, EntriesLayout, LeValue, AllZero;
  }

  lemma WrittenInstalled(img: Image, was: Image, sectors: uint64, s: RawState)
    requires sectors >= 68 && |img| == sectors && |was| == sectors && GeometryOf(sectors).Some?
    requires 34 <= GeometryOf(sectors).value.backupEntries
    requires RawStateAt(img, GeometryOf(sectors).value) == s && DataKept(img, was, sectors)
    ensures Installed(img, was, sectors, s)
  {
    GeometryFits(sectors);
    hide ReadAt;
  }

  /**
   * The whole protocol. After every sector write and every sync, wherever the device stops, what a crash
   * leaves holds the old primary or the whole new backup; on success the disk holds exactly the new state.
   * It succeeds exactly on a readable state, an addressable disk, and a device that takes all its steps.
   */
  method WriteGpt(disk: Disk, sectors: uint64, s: RawState) returns (ok: bool)
    requires |disk.durable| == sectors && disk.pending == []
    modifies disk
    ensures old(disk.history) <= disk.history
    ensures ReadState(s, sectors).None? || !WellSized(s) ==>
        !ok && disk.history == old(disk.history) && disk.durable == old(disk.durable)
    ensures sectors >= 68 ==> AllRecoverable(disk.history, |old(disk.history)|, old(disk.durable), sectors, s)
    ensures ok <==> ReadState(s, sectors).Some? && WellSized(s) && Lasts(sectors, old(disk.patience))
    ensures ok ==> sectors >= 68 && disk.pending == [] && |disk.durable| == sectors
    ensures ok ==> 34 <= GeometryOf(sectors).value.backupEntries
    ensures ok ==> RawStateAt(disk.durable, GeometryOf(sectors).value) == s
    ensures ok ==> DataKept(disk.durable, old(disk.durable), sectors)
    ensures ok <==> Layout(s, sectors) && sectors - 1 <= 0x7FFF_FFFF_FFFF_FFFF / 512 && 69 <= old(disk.patience)
    ensures ok ==> Installed(disk.durable, old(disk.durable), sectors, s)
  {
    SizedLayout(s, sectors);
    hide ReadState, Recoverable, BackupWhole, ReadAt, Synced, PrimaryWrites, Layout, HoldsTable;
    hide RawStateAt, DataKept, Installed;
    var geometry := GeometryOf(sectors);
    if ReadState(s, sectors).Some? {
      StateShape(s, sectors);
    }
    if geometry.None? {
      return false;
    }
    GeometryFits(sectors);
    if !WellSized(s) {
      return false;
    }
    var table := ReadGpt(s, sectors);
    if table.None? {
      return false;
    }
    ok := WriteBackup(disk, sectors, s);
    if !ok {
      return;
    }
    ghost var was, from, mid := old(disk.durable), |old(disk.history)|, |disk.history|;
    ghost var now, sofar := disk.durable, disk.history;
    ok := WritePrimary(disk, sectors, s, was);
    assert disk.history[..mid] == sofar;
    RecoverableJoin(disk.history, from, mid, was, sectors, s);
    if ok {
      PrimarySynced(now, sectors, s);
      WrittenInstalled(disk.durable, was, sectors, s);
    }
  }

  // ----- What recovery means

  /** One copy as a reader finds it: its header, checked, and its entries. */
  function CopyAt(img: Image, p: Place): Option<(Header, seq<byte>)>
    requires p.current < |img| && p.entriesLba + ENTRY_SECTORS <= |img|
  {
    var entries := ReadAt(img, p.entriesLba, ENTRY_SECTORS);
    match ParseHeader(ReadAt(img, p.current, 1), p, entries)
    case None => None
    case Some(header) => Some((header, entries))
  }

  lemma KeptReads(img: Image, was: Image, g: Geometry)
    requires PrimaryKept(img, was) && 2 + ENTRY_SECTORS <= |was|
    ensures CopyAt(img, PrimaryPlace(g)) == CopyAt(was, PrimaryPlace(g))
  {
    hide ReadAt, ParseHeader;
    SameRead(img, was, 1, 1);
    SameRead(img, was, 2, ENTRY_SECTORS);
  }

  /** The backup reads as the one that was built for the table of `s`. */
  ghost predicate ReadsNewBackup(img: Image, sectors: uint64, s: RawState)
    requires Fits(img, sectors) && ReadState(s, sectors).Some?
  {
    GeometryFits(sectors);
    var copy := CopyAt(img, BackupPlace(GeometryOf(sectors).value));
    copy.Some? && copy.value.1 == s.backupEntries && copy.value.0.diskGuid == ReadState(s, sectors).value.diskGuid
  }

  lemma WholeReads(img: Image, sectors: uint64, s: RawState)
    requires Fits(img, sectors) && BackupWhole(img, sectors, s) && ReadState(s, sectors).Some?
    ensures ReadsNewBackup(img, sectors, s)
  {
    hide ReadAt, ReadState, ParseHeader;
    ReadBackup(s, sectors);
  }

  /**
   * After a crash in any recoverable state, the old primary reads as before or the new backup reads as built, and
   * the sectors for partitions are as they were.
   */
  lemma CrashLeavesCopy(st: State, was: Image, img: Image, sectors: uint64, s: RawState)
    requires Fits(was, sectors) && Recoverable(st, was, sectors, s) && MayRemain(st, img) && |img| == |was|
    requires ReadState(s, sectors).Some?
    ensures CopyAt(img, PrimaryPlace(GeometryOf(sectors).value)) == CopyAt(was, PrimaryPlace(GeometryOf(sectors).value))
      || ReadsNewBackup(img, sectors, s)
    ensures DataKept(img, was, sectors)
  {
    hide ReadState, ReadAt, MayRemain, CopyAt, PrimaryKept, BackupWhole;
    if PrimaryKept(img, was) {
      KeptReads(img, was, GeometryOf(sectors).value);
    } else {
      WholeReads(img, sectors, s);
    }
  }

  /** Without the first sync, the same five writes can leave neither copy whole. */
  lemma SyncNeeded(was: Image, sectors: uint64, s: RawState) returns (img: Image)
    requires Fits(was, sectors) && WellSized(s)
    requires was[2] != Chunk(s.primaryEntries, 0) && was[sectors - 1] != s.backupHeader
    ensures MayRemain(State(was, BackupWrites(GeometryOf(sectors).value, s) + PrimaryWrites(s)), img)
    ensures |img| == |was| && !PrimaryKept(img, was) && !BackupWhole(img, sectors, s)
  {
    GeometryFits(sectors);
    var g := GeometryOf(sectors).value;
    img := was[2 := Chunk(s.primaryEntries, 0)];
    var w := BackupWrites(g, s) + PrimaryWrites(s);
    assert Write(2, Chunk(s.primaryEntries, 0)) in w by {
      FirstWrite(2, s.primaryEntries, ENTRY_SECTORS);
    }
    assert ReadAt(img, g.backupHeader, 1) == [] + img[g.backupHeader] == img[g.backupHeader];
    assert img[2] != was[2];
  }

  lemma {:induction false} FirstWrite(lba: nat, data: seq<byte>, n: nat)
    requires 0 < n && SECTOR * n <= |data|
    ensures Write(lba, Chunk(data, 0)) in Writes(lba, data, n)
  {
    if n > 1 {
      FirstWrite(lba, data, n - 1);
    }
  }
}
