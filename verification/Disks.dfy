/** A disk whose writes are durable only after a sync, and may survive a crash in any subset. */
module Disks {
  import opened Bits
  import opened ByteBuffers

  /** The contents of every sector, by address. */
  type Image = seq<seq<byte>>

  datatype Write = Write(lba: nat, data: seq<byte>)

  datatype State = State(durable: Image, pending: seq<Write>)

  /** What a sector can hold after a crash: its durable contents or anything written to it since. */
  ghost predicate MayHold(s: State, lba: nat, data: seq<byte>)
    requires lba < |s.durable|
  {
    data == s.durable[lba] || Write(lba, data) in s.pending
  }

  ghost predicate MayRemain(s: State, img: Image) {
    |img| == |s.durable| && forall lba: nat {:trigger MayHold(s, lba, img[lba])} :: lba < |img| ==>
        MayHold(s, lba, img[lba])
  }

  /** The contents with the first `n` pending writes made. */
  function Applied(img: Image, pending: seq<Write>, n: nat): (r: Image)
    requires n <= |pending|
    ensures |r| == |img|
  {
    if n == 0 then img
    else
      var r, w := Applied(img, pending, n - 1), pending[n - 1];
      if w.lba < |r| then r[w.lba := w.data] else r
  }

  function Chunk(data: seq<byte>, k: nat): seq<byte>
    requires SECTOR * (k + 1) <= |data|
  {
    data[SECTOR * k..SECTOR * (k + 1)]
  }

  /** The sector writes of the first `n` sectors of `data` at `lba`. */
  function Writes(lba: nat, data: seq<byte>, n: nat): (w: seq<Write>)
    requires SECTOR * n <= |data|
    ensures |w| == n
  {
    if n == 0 then [] else Writes(lba, data, n - 1) + [Write(lba + n - 1, Chunk(data, n - 1))]
  }

  /** The contents of `n` sectors from `lba` on. */
  function ReadAt(img: Image, lba: nat, n: nat): seq<byte>
    requires lba + n <= |img|
  {
    if n == 0 then [] else ReadAt(img, lba, n - 1) + img[lba + n - 1]
  }

  /** From number `from` on, each state has one more sector of `data` written. */
  ghost predicate Recorded(history: seq<State>, from: nat, durable: Image, before: seq<Write>, lba: nat,
      data: seq<byte>) {
    forall k :: from <= k < |history| ==>
      SECTOR * (k + 1 - from) <= |data| && history[k] == State(durable, before + Writes(lba, data, k + 1 - from))
  }

  class Disk {
    var durable: Image
    var pending: seq<Write>
    var patience: nat
    ghost var history: seq<State>

    /** A disk that accepts `patience` more operations before it starts to fail. */
    constructor (contents: Image, patience: nat)
      ensures durable == contents && pending == [] && this.patience == patience && history == []
    {
      durable, pending, this.patience, history := contents, [], patience, [];
    }

    /** `n` sectors of `data` at `lba`; on failure some of the first are written. */
    method WriteAt(lba: nat, data: seq<byte>, n: nat) returns (ok: bool)
      requires |data| == SECTOR * n && lba + n <= |durable|
      modifies this
      ensures durable == old(durable) && (ok <==> n <= old(patience))
      ensures old(history) <= history && |history| == |old(history)| + if ok then n else old(patience)
      ensures patience == if ok then old(patience) - n else 0
      ensures pending == old(pending) + Writes(lba, data, |history| - |old(history)|)
      ensures Recorded(history, |old(history)|, old(durable), old(pending), lba, data)
    {
      var i: nat := 0;
      assert old(pending) + [] == old(pending);
      while i < n
        invariant i <= n && i + patience == old(patience)
        invariant durable == old(durable) && pending == old(pending) + Writes(lba, data, i)
        invariant old(history) <= history && |history| == |old(history)| + i
        invariant Recorded(history, |old(history)|, old(durable), old(pending), lba, data)
      {
        if patience == 0 {
          return false;
        }
        patience := patience - 1;
        Assoc(old(pending), Writes(lba, data, i), [Write(lba + i, Chunk(data, i))]);
        pending := pending + [Write(lba + i, Chunk(data, i))];
        history := history + [State(durable, pending)];
        i := i + 1;
      }
      ok := true;
    }

    /** Makes every pending write durable. */
    method Sync() returns (ok: bool)
      modifies this
      ensures ok <==> 0 < old(patience)
      ensures patience == if ok then old(patience) - 1 else 0
      ensures ok ==> durable == Applied(old(durable), old(pending), |old(pending)|) && pending == []
      ensures ok ==> history == old(history) + [State(durable, [])]
      ensures !ok ==> durable == old(durable) && pending == old(pending) && history == old(history)
    {
      if patience == 0 {
        return false;
      }
      patience := patience - 1;
      durable := Applied(durable, pending, |pending|);
      pending := [];
      history := history + [State(durable, [])];
      ok := true;
    }
  }

  // ----- Facts

  /** Every write falls between `lo` and `hi`. */
  ghost predicate Within(w: seq<Write>, lo: nat, hi: nat) {
    forall k :: 0 <= k < |w| ==> lo <= w[k].lba < hi
  }

  lemma {:induction false} WritesWithin(lba: nat, data: seq<byte>, n: nat)
    requires SECTOR * n <= |data|
    ensures Within(Writes(lba, data, n), lba, lba + n)
  {
    if n > 0 {
      WritesWithin(lba, data, n - 1);
    }
  }

  /** Outside the writes nothing can change. */
  lemma RemainsOutside(s: State, img: Image, lo: nat, hi: nat, lba: nat)
    requires MayRemain(s, img) && Within(s.pending, lo, hi) && lba < |img| && !(lo <= lba < hi)
    ensures img[lba] == s.durable[lba]
  {
    assert MayHold(s, lba, img[lba]);
  }

  lemma {:induction false} AppliedOutside(img: Image, w: seq<Write>, n: nat, lo: nat, hi: nat, lba: nat)
    requires n <= |w| && Within(w, lo, hi) && lba < |img| && !(lo <= lba < hi)
    ensures Applied(img, w, n)[lba] == img[lba]
  {
    if n > 0 {
      AppliedOutside(img, w, n - 1, lo, hi, lba);
    }
  }

  /** After a run of writes, its sectors hold the data and the others what they held before. */
  lemma {:induction false} AppliedWrites(img: Image, before: seq<Write>, lba: nat, data: seq<byte>, n: nat, x: nat)
    requires SECTOR * n <= |data| && lba + n <= |img| && x < |img|
    ensures var w := before + Writes(lba, data, n);
      Applied(img, w, |w|)[x] == if lba <= x < lba + n then Chunk(data, x - lba) else Applied(img, before, |before|)[x]
  {
    if n == 0 {
      assert before + [] == before;
    } else {
      var last := [Write(lba + n - 1, Chunk(data, n - 1))];
      Assoc(before, Writes(lba, data, n - 1), last);
      AppliedWrites(img, before, lba, data, n - 1, x);
      AppliedPrefix(img, before + Writes(lba, data, n - 1), last, |before| + n - 1);
    }
  }

  lemma {:induction false} AppliedPrefix(img: Image, a: seq<Write>, b: seq<Write>, n: nat)
    requires n <= |a|
    ensures Applied(img, a + b, n) == Applied(img, a, n)
  {
    if n > 0 {
      AppliedPrefix(img, a, b, n - 1);
    }
  }

  /** Sectors that hold the chunks of `data` read back as `data`. */
  lemma {:induction false} ReadChunks(img: Image, lba: nat, data: seq<byte>, n: nat)
    requires SECTOR * n <= |data| && lba + n <= |img|
    requires forall k: nat :: k < n ==> img[lba + k] == Chunk(data, k)
    ensures ReadAt(img, lba, n) == data[..SECTOR * n]
  {
    if n > 0 {
      ReadChunks(img, lba, data, n - 1);
      assert img[lba + (n - 1)] == Chunk(data, n - 1);
      assert data[..SECTOR * n] == data[..SECTOR * (n - 1)] + Chunk(data, n - 1);
    }
  }

  lemma {:induction false} SameRead(a: Image, b: Image, lba: nat, n: nat)
    requires lba + n <= |a| && lba + n <= |b| && forall x :: lba <= x < lba + n ==> a[x] == b[x]
    ensures ReadAt(a, lba, n) == ReadAt(b, lba, n)
  {
    if n > 0 {
      SameRead(a, b, lba, n - 1);
    }
  }
}
