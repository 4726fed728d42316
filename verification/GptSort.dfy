/** Ordering the slots of a GPT by start sector. */
module GptSort {
  import opened ByteBuffers
  import opened Extents
  import opened GptTable
  import opened GptCodec
  import Sorting

  /** The used slots among the first `n`, in slot order. */
  function InUse(parts: seq<Partition>, n: nat): (s: seq<Partition>)
    requires n <= |parts|
    ensures |s| <= n
  {
    if n == 0 then [] else InUse(parts, n - 1) + (if parts[n - 1].Empty() then [] else [parts[n - 1]])
  }

  predicate StartsFirst(p: Partition, q: Partition) {
    p.start <= q.start
  }

  lemma StartsFirstOrders()
    ensures Sorting.TotalPreorder(StartsFirst)
  {
  }

  function SortSlots(s: seq<Partition>): (r: seq<Partition>)
    ensures |r| == |s|
  {
    StartsFirstOrders();
    Sorting.SortCorrect(s, StartsFirst);
    Sorting.Sort(s, StartsFirst)
  }

  ghost predicate ByStart(s: seq<Partition>) {
    forall i, j :: 0 <= i < j < |s| ==> s[i].start <= s[j].start
  }

  /** Two used slots can stand in one table. */
  ghost predicate Compatible(p: Partition, q: Partition) {
    !p.Empty() && !q.Empty() && p.unique != q.unique && Apart(p.Span().value, q.Span().value)
  }

  ghost predicate CompatibleFrom(p: Partition, s: seq<Partition>) {
    forall k :: 0 <= k < |s| ==> Compatible(p, s[k])
  }

  ghost predicate AllCompatible(s: seq<Partition>) {
    forall i, j :: 0 <= i < j < |s| ==> Compatible(s[i], s[j])
  }

  ghost predicate SoundIn(t: Table, s: seq<Partition>) {
    forall k :: 0 <= k < |s| ==> SoundPart(t, s[k])
  }

  ghost predicate SoundPart(t: Table, p: Partition) {
    !p.Empty() && !AllZero(p.unique) && t.firstUsable <= p.start <= p.end <= t.lastUsable
  }

  lemma CompatibleBoth(p: Partition, q: Partition)
    ensures Compatible(p, q) <==> Compatible(q, p)
  {
  }

  /** A compatible list holds no partition twice. */
  lemma {:induction false} CompatibleOnce(s: seq<Partition>, p: Partition)
    requires AllCompatible(s)
    ensures multiset(s)[p] <= 1
    decreases |s|
  {
    if s != [] {
      var last := s[|s| - 1];
      assert s == s[..|s| - 1] + [last];
      CompatibleOnce(s[..|s| - 1], p);
      assert forall i :: 0 <= i < |s| - 1 ==> Compatible(s[i], s[|s| - 1]);
      assert last !in s[..|s| - 1];
    }
  }

  lemma PermutedPair(s: seq<Partition>, r: seq<Partition>, i: nat, j: nat)
    requires AllCompatible(s) && multiset(r) == multiset(s) && i < j < |r|
    ensures Compatible(r[i], r[j])
  {
    Sorting.SameMembers(r, s);
    assert r[i] in s && r[j] in s;
    var a: nat :| a < |s| && s[a] == r[i];
    var b: nat :| b < |s| && s[b] == r[j];
    if a == b {
      CompatibleOnce(s, r[i]);
      Sorting.TwoPlaces(r, i, j);
    } else {
      CompatibleBoth(s[a], s[b]);
      assert a < b ==> Compatible(s[a], s[b]);
      assert b < a ==> Compatible(s[b], s[a]);
    }
  }

  /** A permutation can stand in the table as well. */
  lemma PermutedKeeps(t: Table, s: seq<Partition>, r: seq<Partition>)
    requires AllCompatible(s) && SoundIn(t, s) && multiset(r) == multiset(s)
    ensures AllCompatible(r) && SoundIn(t, r)
  {
    hide Compatible, SoundPart;
    forall i, j | 0 <= i < j < |r| ensures Compatible(r[i], r[j]) {
      PermutedPair(s, r, i, j);
    }
    Sorting.SameMembers(r, s);
    forall k | 0 <= k < |r| ensures SoundPart(t, r[k]) {
      assert r[k] in s;
    }
  }

  /** Sorting gives an ordered permutation that can still stand in the table. */
  lemma SortKeeps(t: Table, s: seq<Partition>)
    requires AllCompatible(s) && SoundIn(t, s)
    ensures ByStart(SortSlots(s)) && multiset(SortSlots(s)) == multiset(s)
    ensures AllCompatible(SortSlots(s)) && SoundIn(t, SortSlots(s))
  {
    StartsFirstOrders();
    Sorting.SortCorrect(s, StartsFirst);
    var r := SortSlots(s);
    assert forall i, j :: 0 <= i < j < |r| ==> StartsFirst(r[i], r[j]);
    hide AllCompatible, SoundIn;
    PermutedKeeps(t, s, r);
  }

  // ----- Tables

  lemma PairCompatible(t: Table, i: nat, j: nat)
    requires ValidTable(t) && i < j < ENTRY_COUNT && !t.partitions[i].Empty() && !t.partitions[j].Empty()
    ensures Compatible(t.partitions[i], t.partitions[j])
  {
    assert OwnGuid(t.partitions, j);
    assert Spans(t.partitions)[i].Some? && Spans(t.partitions)[j].Some?;
  }

  lemma {:induction false} InUseFrom(t: Table, n: nat, q: Partition)
    requires n <= ENTRY_COUNT && forall i :: 0 <= i < n && !t.partitions[i].Empty() ==> Compatible(q, t.partitions[i])
    ensures CompatibleFrom(q, InUse(t.partitions, n))
  {
    if n > 0 {
      hide Compatible;
      InUseFrom(t, n - 1, q);
    }
  }

  lemma SnocCompatible(s: seq<Partition>, p: Partition)
    requires AllCompatible(s) && CompatibleFrom(p, s)
    ensures AllCompatible(s + [p])
  {
    var t := s + [p];
    forall i, j | 0 <= i < j < |t| ensures Compatible(t[i], t[j]) {
      if j == |s| {
        CompatibleBoth(p, s[i]);
      }
    }
  }

  /** The used slots of a valid table are sound and pairwise compatible. */
  lemma {:induction false} InUseCompatible(t: Table, n: nat)
    requires ValidTable(t) && n <= ENTRY_COUNT
    ensures AllCompatible(InUse(t.partitions, n)) && SoundIn(t, InUse(t.partitions, n))
  {
    if n > 0 {
      InUseCompatible(t, n - 1);
      var p := t.partitions[n - 1];
      assert SlotSound(t, n - 1);
      if !p.Empty() {
        forall i | 0 <= i < n - 1 && !t.partitions[i].Empty() ensures Compatible(p, t.partitions[i]) {
          PairCompatible(t, i, n - 1);
          CompatibleBoth(p, t.partitions[i]);
        }
        hide ValidTable, Compatible, SlotSound;
        InUseFrom(t, n - 1, p);
        SnocCompatible(InUse(t.partitions, n - 1), p);
      }
    }
  }

  function Padded(s: seq<Partition>): Slots
    requires |s| <= ENTRY_COUNT
  {
    s + NoSlots(ENTRY_COUNT - |s|)
  }

  /** Compatible sound partitions, packed into the first slots, make a valid table. */
  lemma PaddedValid(t: Table, s: seq<Partition>)
    requires GeometrySound(t) && |s| <= ENTRY_COUNT && AllCompatible(s) && SoundIn(t, s)
    ensures ValidTable(t.(partitions := Padded(s)))
  {
    var parts := Padded(s);
    var t' := t.(partitions := parts);
    assert EMPTY.Empty();
    forall i: nat | i < ENTRY_COUNT ensures SlotSound(t', i) && OwnGuid(parts, i) {
      if i < |s| {
        assert parts[i] == s[i] && SoundPart(t, s[i]);
        forall j | 0 <= j < i ensures parts[j].unique != parts[i].unique {
          assert Compatible(s[j], s[i]);
        }
      } else {
        assert parts[i] == EMPTY;
      }
    }
    assert forall k :: |s| <= k < ENTRY_COUNT ==> parts[k] == EMPTY && Spans(parts)[k].None?;
    assert forall i, j :: 0 <= i < j < |s| ==> Compatible(s[i], s[j]) && parts[i] == s[i] && parts[j] == s[j];
  }

  lemma {:induction false} InUsePrefix(s: seq<Partition>, parts: seq<Partition>, n: nat)
    requires |s| <= n <= |parts| && (forall k :: 0 <= k < |s| ==> !s[k].Empty() && parts[k] == s[k])
    requires forall k :: |s| <= k < n ==> parts[k].Empty()
    ensures InUse(parts, n) == s
    decreases n
  {
    if n > |s| {
      InUsePrefix(s, parts, n - 1);
      assert s + [] == s;
    } else if n > 0 {
      InUsePrefix(s[..n - 1], parts, n - 1);
      assert s == s[..n - 1] + [s[n - 1]];
    }
  }

  function SortedTable(t: Table): Table {
    t.(partitions := Padded(SortSlots(InUse(t.partitions, ENTRY_COUNT))))
  }

  /** The sorted table is valid and holds the same partitions, by start sector. */
  lemma SortedTableKeeps(t: Table)
    requires ValidTable(t)
    ensures ValidTable(SortedTable(t)) && Canonical(SortedTable(t).partitions, ENTRY_COUNT)
    ensures multiset(InUse(SortedTable(t).partitions, ENTRY_COUNT)) == multiset(InUse(t.partitions, ENTRY_COUNT))
    ensures ByStart(InUse(SortedTable(t).partitions, ENTRY_COUNT))
    ensures forall i, j :: 0 <= i < j < ENTRY_COUNT && SortedTable(t).partitions[i].Empty() ==>
        SortedTable(t).partitions[j].Empty()
  {
    var s := InUse(t.partitions, ENTRY_COUNT);
    InUseCompatible(t, ENTRY_COUNT);
    SortKeeps(t, s);
    var r := SortSlots(s);
    PaddedValid(t, r);
    assert EMPTY.Empty();
    hide ValidTable, SortSlots, AllCompatible, ByStart, InUse;
    assert forall k :: 0 <= k < |r| ==> SoundPart(t, r[k]);
    InUsePrefix(r, Padded(r), ENTRY_COUNT);
  }
}
