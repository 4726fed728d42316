/** Writing boot records and the boot record of a disk, and what a crash on the way leaves. */
module DosWrite {
  import opened Bits
  import opened ByteBuffers
  import opened DosTable
  import opened Logicals
  import opened EbrChain
  import opened Disks

  /** The records have sectors of their own, none of them the first. */
  ghost predicate Separate(writes: seq<Write>, limit: nat) {
    && (forall k :: 0 <= k < |writes| ==> 0 < writes[k].lba < limit && |writes[k].data| == SECTOR)
    && forall j, k :: 0 <= j < k < |writes| ==> writes[j].lba != writes[k].lba
  }

  /** Every record is on the disk. */
  ghost predicate Holds(img: Image, writes: seq<Write>) {
    forall k :: 0 <= k < |writes| ==> writes[k].lba < |img| && img[writes[k].lba] == writes[k].data
  }

  predicate HasRecord(lba: nat, writes: seq<Write>) {
    exists k :: 0 <= k < |writes| && writes[k].lba == lba
  }

  /** Sectors other than the first and those of the records are as they were. */
  ghost predicate OthersKept(img: Image, was: Image, writes: seq<Write>) {
    |img| == |was| && forall lba :: 0 < lba < |was| && !HasRecord(lba, writes) ==> img[lba] == was[lba]
  }

  /** Some of the records are pending; or all are durable, and only the first sector is pending. */
  ghost predicate Staged(st: State, was: Image, writes: seq<Write>) {
    || (exists n :: 0 <= n <= |writes| && st == State(was, writes[..n]))
    || (OthersKept(st.durable, was, writes) && Holds(st.durable, writes) && Within(st.pending, 0, 1))
  }

  ghost predicate AllStaged(history: seq<State>, from: nat, was: Image, writes: seq<Write>) {
    forall k :: from <= k < |history| ==> Staged(history[k], was, writes)
  }

  // ----- After a crash

  /** While records are pending, the first sector is the old one, and a record that was there stays. */
  lemma ChainingLeaves(was: Image, writes: seq<Write>, n: nat, img: Image)
    requires n <= |writes| && Separate(writes, |was|) && 0 < |was| && MayRemain(State(was, writes[..n]), img)
    ensures img[0] == was[0] && (Holds(was, writes) ==> Holds(img, writes)) && OthersKept(img, was, writes)
  {
    var st := State(was, writes[..n]);
    assert MayHold(st, 0, img[0]);
    forall lba | 0 < lba < |was| && !HasRecord(lba, writes) ensures img[lba] == was[lba] {
      assert MayHold(st, lba, img[lba]);
    }
    if Holds(was, writes) {
      forall k | 0 <= k < |writes| ensures img[writes[k].lba] == writes[k].data {
        assert MayHold(st, writes[k].lba, img[writes[k].lba]);
      }
    }
  }

  /** Once all are durable, they stay. */
  lemma RootingLeaves(st: State, writes: seq<Write>, img: Image)
    requires Holds(st.durable, writes) && Within(st.pending, 0, 1) && Separate(writes, |st.durable|)
    requires MayRemain(st, img)
    ensures Holds(img, writes) && OthersKept(img, st.durable, writes)
  {
    forall lba | 0 < lba < |img| ensures img[lba] == st.durable[lba] {
      assert MayHold(st, lba, img[lba]);
    }
    forall k | 0 <= k < |writes| ensures img[writes[k].lba] == writes[k].data {
      assert MayHold(st, writes[k].lba, img[writes[k].lba]);
    }
  }

  /** Whenever a crash comes, the disk has its old boot record or the whole chain, and all else is as it was. */
  lemma OldOrWhole(st: State, was: Image, writes: seq<Write>, img: Image)
    requires Staged(st, was, writes) && Separate(writes, |was|) && 0 < |was| && MayRemain(st, img)
    ensures img[0] == was[0] || Holds(img, writes)
    ensures Holds(was, writes) ==> Holds(img, writes)
    ensures OthersKept(img, was, writes)
  {
    if n :| 0 <= n <= |writes| && st == State(was, writes[..n]) {
      ChainingLeaves(was, writes, n, img);
    } else {
      RootingLeaves(st, writes, img);
    }
  }

  /** A boot record with an extended partition at `start`. */
  ghost predicate Points(b: seq<byte>, start: nat) {
    |b| == SECTOR && exists i :: 0 <= i < 4 && ReadSlot(b, i).Extended() && ReadSlot(b, i).start == start
  }

  /** After no crash does a boot record point at a chain that is not all there. */
  ghost predicate NeverDangles(history: seq<State>, from: nat, start: nat, writes: seq<Write>) {
    forall k, img :: from <= k < |history| && MayRemain(history[k], img) && 0 < |img| && Points(img[0], start)
      ==> Holds(img, writes)
  }

  /**
   * Writing the chain first keeps the boot record from pointing at a part of it, except when the old boot record
   * already points there and the chain is not the old one.
   */
  lemma DanglesExactly(history: seq<State>, from: nat, was: Image, start: nat, writes: seq<Write>)
    requires AllStaged(history, from, was, writes) && Separate(writes, |was|) && 0 < |was|
    requires writes != [] ==> from < |history| && history[from] == State(was, writes[..1])
    ensures NeverDangles(history, from, start, writes) <==> !Points(was[0], start) || Holds(was, writes)
  {
    hide Points, Separate, Staged;
    if NeverDangles(history, from, start, writes) && writes != [] {
      NothingYet(State(was, writes[..1]));
    }
    if !Points(was[0], start) || Holds(was, writes) {
      forall k, img | from <= k < |history| && MayRemain(history[k], img) && 0 < |img| && Points(img[0], start)
        ensures Holds(img, writes)
      {
        OldOrWhole(history[k], was, writes, img);
      }
    }
  }

  /** A crash may leave none of what is pending. */
  lemma NothingYet(st: State)
    ensures MayRemain(st, st.durable)
  {
  }

  /** A disk with a container and no partitions in it yet, and the chain of two that is written to it. */
  lemma CrashDangles(mbr: seq<byte>) returns (was: Image, writes: seq<Write>)
    requires |mbr| == SECTOR
    ensures Writable(was, Filled(2), Many(2), writes, mbr) && Points(was[0], Filled(2).start) && !Holds(was, writes)
  {
    var parts: Slots := [Filled(2), NONE, NONE, NONE];
    var first := MbrBytes(Zeros(SECTOR), parts);
    MbrRoundTrip(Zeros(SECTOR), parts, 0);
    assert ReadSlot(first, 0).Extended();
    hide MbrBytes, ReadSlot;
    writes := ManyWritten(2, mbr);
    was := Blank(4)[0 := first];
    SignedRecord(Filled(2), Many(2), writes);
    assert writes[0].lba == 1 && was[1] == Blank(4)[1];
    BlankZero(4, 1);
  }

  lemma {:induction false} BlankZero(n: nat, k: nat)
    requires k <= n
    ensures Blank(n)[k] == Zeros(SECTOR)
  {
    if k < n {
      BlankZero(n - 1, k);
    }
  }

  lemma SignedRecord(extended: Partition, list: seq<Logical>, writes: seq<Write>)
    requires AreRecords(extended, list, writes, |list|) && list != []
    ensures writes[0].lba == list[0].ebr && writes[0].data != Zeros(SECTOR)
  {
    MbrRoundTrip(Zeros(SECTOR), Record(extended, list, 0), 0);
    assert Signed(writes[0].data);
  }

  // ----- The protocol

  lemma OneWrite(lba: nat, data: seq<byte>)
    requires |data| == SECTOR
    ensures Writes(lba, data, 1) == [Write(lba, data)] && Writes(lba, data, 0) == []
  {
    assert Chunk(data, 0) == data;
  }

  lemma {:induction false} AppliedHolds(was: Image, writes: seq<Write>, n: nat, k: nat)
    requires Separate(writes, |was|) && k < n <= |writes|
    ensures Applied(was, writes, n)[writes[k].lba] == writes[k].data
  {
    if k < n - 1 {
      AppliedHolds(was, writes, n - 1, k);
    }
  }

  lemma {:induction false} AppliedOthers(was: Image, writes: seq<Write>, n: nat, lba: nat)
    requires n <= |writes| && lba < |was| && !HasRecord(lba, writes)
    ensures Applied(was, writes, n)[lba] == was[lba]
  {
    if n > 0 {
      AppliedOthers(was, writes, n - 1, lba);
    }
  }

  lemma SyncedHolds(was: Image, writes: seq<Write>)
    requires Separate(writes, |was|)
    ensures Holds(Applied(was, writes, |writes|), writes) && OthersKept(Applied(was, writes, |writes|), was, writes)
  {
    forall lba | 0 < lba < |was| && !HasRecord(lba, writes) ensures Applied(was, writes, |writes|)[lba] == was[lba] {
      AppliedOthers(was, writes, |writes|, lba);
    }
    hide Applied;
    forall k | 0 <= k < |writes| ensures Applied(was, writes, |writes|)[writes[k].lba] == writes[k].data {
      AppliedHolds(was, writes, |writes|, k);
    }
  }

  /** The operations that a device has to take for `n` boot records and the boot record of the disk. */
  function Steps(n: nat): nat {
    if n == 0 then 2 else n + 3
  }

  lemma RecordsSeparate(img: Image, extended: Partition, list: seq<Logical>, writes: seq<Write>,
      mbr: seq<byte>)
    requires Writable(img, extended, list, writes, mbr)
    ensures Separate(writes, |img|)
  {
    ValidAscends(extended, list);
    hide ValidLogicals, InOrder, MbrBytes;
  }

  /** The boot records of a chain, and a sync unless there are none. */
  method WriteRecords(disk: Disk, writes: seq<Write>) returns (ok: bool)
    requires disk.pending == [] && Separate(writes, |disk.durable|)
    modifies disk
    ensures old(disk.history) <= disk.history && AllStaged(disk.history, |old(disk.history)|, old(disk.durable), writes)
    ensures ok <==> Steps(|writes|) - 2 <= old(disk.patience)
    ensures ok ==> disk.patience == old(disk.patience) - (Steps(|writes|) - 2) && disk.pending == []
    ensures ok ==> disk.durable == Applied(old(disk.durable), writes, |writes|)
    ensures ok && writes != [] ==>
        |disk.history| > |old(disk.history)|
          && disk.history[|old(disk.history)|] == State(old(disk.durable), writes[..1])
  {
    ghost var was, from := disk.durable, |disk.history|;
    if writes == [] {
      return true;
    }
    hide Applied, Writes, Separate;
    for i := 0 to |writes|
      invariant disk.durable == was && disk.pending == writes[..i] && disk.patience == old(disk.patience) - i
      invariant old(disk.history) <= disk.history && |disk.history| == from + i
      invariant OneByOne(disk.history, from, was, writes)
    {
      SeparateAt(writes, |was|, i);
      OneWrite(writes[i].lba, writes[i].data);
      assert writes[..i + 1] == writes[..i] + [writes[i]];
      ok := disk.WriteAt(writes[i].lba, writes[i].data, 1);
      if !ok {
        ChainingStaged(disk.history, from, was, writes);
        return;
      }
    }
    ChainingStaged(disk.history, from, was, writes);
    assert disk.history[from] == State(was, writes[..1]);
    assert writes[..|writes|] == writes;
    ghost var sofar := disk.history;
    ok := disk.Sync();
    if ok {
      SyncedHolds(was, writes);
      StagedMore(sofar, disk.history, from, was, writes);
    }
  }

  lemma SeparateAt(writes: seq<Write>, limit: nat, i: nat)
    requires Separate(writes, limit) && i < |writes|
    ensures 0 < writes[i].lba < limit && |writes[i].data| == SECTOR
  {
  }

  /** From number `from` on, each state has one more record pending. */
  ghost predicate OneByOne(history: seq<State>, from: nat, was: Image, writes: seq<Write>) {
    forall k :: from <= k < |history| ==> k - from < |writes| && history[k] == State(was, writes[..k - from + 1])
  }

  lemma ChainingStaged(history: seq<State>, from: nat, was: Image, writes: seq<Write>)
    requires OneByOne(history, from, was, writes)
    ensures AllStaged(history, from, was, writes)
  {
  }

  lemma StagedMore(history: seq<State>, more: seq<State>, from: nat, was: Image, writes: seq<Write>)
    requires AllStaged(history, from, was, writes) && |more| == |history| + 1 && history <= more
    requires Staged(more[|history|], was, writes)
    ensures AllStaged(more, from, was, writes)
  {
    hide Staged;
  }

  /** The boot record of the disk, and a sync. */
  method WriteRoot(disk: Disk, mbr: seq<byte>, ghost from: nat, ghost was: Image, ghost writes: seq<Write>)
    returns (ok: bool)
    requires disk.pending == [] && |disk.durable| == |was| > 0 && |mbr| == SECTOR
    requires Holds(disk.durable, writes) && OthersKept(disk.durable, was, writes)
    requires AllStaged(disk.history, from, was, writes) && Separate(writes, |was|)
    modifies disk
    ensures old(disk.history) <= disk.history && AllStaged(disk.history, from, was, writes)
    ensures ok <==> 2 <= old(disk.patience)
    ensures ok ==> disk.durable == old(disk.durable)[0 := mbr] && disk.pending == []
    ensures ok ==> OthersKept(disk.durable, was, writes)
  {
    hide Applied, Writes, Staged, Separate, Holds, OthersKept;
    OneWrite(0, mbr);
    AppliedOne(disk.durable, mbr);
    RootHolds(disk.durable, was, writes, mbr);
    ghost var sofar := disk.history;
    ok := disk.WriteAt(0, mbr, 1);
    if !ok {
      assert disk.history == sofar;
      return;
    }
    assert disk.pending == [Write(0, mbr)];
    RootStaged(State(disk.durable, disk.pending), was, writes);
    StagedMore(sofar, disk.history, from, was, writes);
    sofar := disk.history;
    ok := disk.Sync();
    if ok {
      RootStaged(State(disk.durable, []), was, writes);
      StagedMore(sofar, disk.history, from, was, writes);
    }
  }

  /** The records, and then the boot record of the disk. */
  method WriteDos(disk: Disk, writes: seq<Write>, mbr: seq<byte>) returns (ok: bool)
    requires disk.pending == [] && Separate(writes, |disk.durable|) && |mbr| == SECTOR && 0 < |disk.durable|
    modifies disk
    ensures old(disk.history) <= disk.history && AllStaged(disk.history, |old(disk.history)|, old(disk.durable), writes)
    ensures ok <==> Steps(|writes|) <= old(disk.patience)
    ensures ok ==> disk.durable == Written(old(disk.durable), writes, mbr) && disk.pending == []
    ensures ok ==> OthersKept(disk.durable, old(disk.durable), writes)
    ensures ok ==> forall start ::
        NeverDangles(disk.history, |old(disk.history)|, start, writes)
        <==> !Points(old(disk.durable)[0], start) || Holds(old(disk.durable), writes)
  {
    ghost var was, from := disk.durable, |disk.history|;
    hide Applied, AllStaged, Separate, Points, NeverDangles, Holds, OthersKept;
    ok := WriteRecords(disk, writes);
    if !ok {
      return;
    }
    SyncedHolds(was, writes);
    ok := WriteRoot(disk, mbr, from, was, writes);
    if ok {
      forall start
        ensures NeverDangles(disk.history, from, start, writes) <==> !Points(was[0], start) || Holds(was, writes)
      {
        DanglesExactly(disk.history, from, was, start, writes);
      }
    }
  }

  lemma RootStaged(st: State, was: Image, writes: seq<Write>)
    requires OthersKept(st.durable, was, writes) && Holds(st.durable, writes) && Within(st.pending, 0, 1)
    ensures Staged(st, was, writes)
  {
  }

  lemma AppliedOne(img: Image, mbr: seq<byte>)
    requires 0 < |img|
    ensures Applied(img, [Write(0, mbr)], 1) == img[0 := mbr]
  {
    assert Applied(img, [Write(0, mbr)], 0) == img;
  }

  lemma RootHolds(img: Image, was: Image, writes: seq<Write>, mbr: seq<byte>)
    requires Separate(writes, |img|) && 0 < |img| && Holds(img, writes) && OthersKept(img, was, writes)
    ensures Holds(img[0 := mbr], writes) && OthersKept(img[0 := mbr], was, writes)
  {
  }
}
