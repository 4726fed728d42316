/** The block sort as the compressor runs it, over three arrays that it updates in place. */
module Bzip2BlockSort {
  import opened Bits
  import opened Sorting
  import opened Bzip2Rotations
  import opened Bzip2Bwt

  predicate KeyBefore(keys: seq<Key>, i: nat, j: nat) {
    var a := if i < |keys| then keys[i] else (0, 0);
    var b := if j < |keys| then keys[j] else (0, 0);
    KeyLess(a, b) || (a == b && i <= j)
  }

  /** The closure handed to `sort.Slice`, made total. */
  function PositionOrder(keys: seq<Key>): (nat, nat) -> bool {
    (i: nat, j: nat) => KeyBefore(keys, i, j)
  }

  lemma PositionOrderTotal(keys: seq<Key>)
    ensures TotalPreorder(PositionOrder(keys))
  {
    var le := PositionOrder(keys);
    forall i, j ensures le(i, j) || le(j, i) {
      assert KeyBefore(keys, i, j) || KeyBefore(keys, j, i);
    }
    forall h, i, j | le(h, i) && le(i, j) ensures le(h, j) {
      assert KeyBefore(keys, h, i) && KeyBefore(keys, i, j) ==> KeyBefore(keys, h, j);
    }
  }

  /** `sort.Slice` on the positions. */
  method SortPositions(positions: array<nat>, keys: seq<Key>)
    requires positions.Length == |keys| && IsPermutation(positions[..], |keys|)
    modifies positions
    ensures IsPermutation(positions[..], |keys|) && Within(positions[..], |keys|)
    ensures SortedBy(keys, positions[..])
  {
    var le := PositionOrder(keys);
    PositionOrderTotal(keys);
    SortCorrect(positions[..], le);
    var ordered := Sort(positions[..], le);
    PermutationFacts(ordered, |keys|);
    forall i | 0 <= i < positions.Length {
      positions[i] := ordered[i];
    }
    assert positions[..] == ordered;
    forall a, b | 0 <= a < b < |ordered| ensures PosBefore(keys, ordered[a], ordered[b]) {
      assert le(ordered[a], ordered[b]);
    }
  }

  /** The classes met in the first `index` places. */
  function ClassCount(keys: seq<Key>, p: seq<nat>, index: nat): (c: nat)
    requires Within(p, |keys|) && index <= |p|
    ensures c <= index
  {
    if index == 0 then 0 else ClassAt(Along(keys, p), index - 1) + 1
  }

  predicate Changes(keys: seq<Key>, p: seq<nat>, index: nat)
    requires Within(p, |keys|) && index < |p|
  {
    index == 0 || keys[p[index]] != keys[p[index - 1]]
  }

  /** One turn of the numbering loop. */
  lemma NumberOne(keys: seq<Key>, p: seq<nat>, next: seq<nat>, index: nat)
    requires Within(p, |keys|) && NumberedTo(keys, p, next, index) && index < |p|
    requires IsPermutation(p, |next|)
    ensures 1 <= ClassCount(keys, p, index + 1)
         == ClassCount(keys, p, index) + (if Changes(keys, p, index) then 1 else 0)
    ensures NumberedTo(keys, p, next[p[index] := ClassCount(keys, p, index + 1) - 1], index + 1)
  {
    var column := Along(keys, p);
    var next' := next[p[index] := ClassAt(column, index)];
    forall m | 0 <= m < index + 1 ensures next'[p[m]] == ClassAt(column, m) {
      DistinctAt(p, |next|, m, index);
    }
  }

  lemma DistinctAt(p: seq<nat>, n: nat, i: nat, j: nat)
    requires IsPermutation(p, n) && i <= j < |p|
    ensures p[i] == p[j] <==> i == j
  {
    PermutationFacts(p, n);
  }

  /** Numbers the classes of first bytes along the sorted positions. */
  method FirstClasses(data: seq<byte>, positions: seq<nat>, next: array<nat>, ghost keys: seq<Key>)
    returns (classes: nat)
    requires |positions| == next.Length == |data| == |keys|
    requires IsPermutation(positions, |data|) && Within(positions, |data|)
    requires forall x :: 0 <= x < |data| ==> keys[x] == (data[x], 0)
    modifies next
    ensures Numbered(keys, positions, next[..])
    ensures classes == ClassCount(keys, positions, |positions|)
  {
    hide IsPermutation, ClassCount;
    classes := 0;
    assert classes == ClassCount(keys, positions, 0) by { NoClasses(keys, positions); }
    for index := 0 to |data|
      invariant classes == ClassCount(keys, positions, index)
      invariant NumberedTo(keys, positions, next[..], index)
    {
      NumberOne(keys, positions, next[..], index);
      if index == 0 || data[positions[index]] != data[positions[index - 1]] {
        classes := classes + 1;
      }
      next[positions[index]] := classes - 1;
    }
  }

  lemma NoClasses(keys: seq<Key>, p: seq<nat>)
    requires Within(p, |keys|)
    ensures ClassCount(keys, p, 0) == 0
  {
  }

  predicate PairChanges(ranks: seq<nat>, step: nat, i: nat, j: nat)
    requires i < |ranks| && j < |ranks| && step < |ranks|
  {
    ranks[i] != ranks[j] || ranks[Wrap(i + step, |ranks|)] != ranks[Wrap(j + step, |ranks|)]
  }

  lemma PairNumberOne(ranks: seq<nat>, step: nat, p: seq<nat>, next: seq<nat>, index: nat)
    requires step < |ranks| && Within(p, |ranks|)
    requires NumberedTo(PairKeys(ranks, step), p, next, index) && index < |p|
    requires IsPermutation(p, |next|)
    ensures 1 <= ClassCount(PairKeys(ranks, step), p, index + 1)
         == ClassCount(PairKeys(ranks, step), p, index)
          + (if index == 0 || PairChanges(ranks, step, p[index], p[index - 1]) then 1 else 0)
    ensures var c := ClassCount(PairKeys(ranks, step), p, index + 1);
      NumberedTo(PairKeys(ranks, step), p, next[p[index] := c - 1], index + 1)
  {
    NumberOne(PairKeys(ranks, step), p, next, index);
  }

  /** Numbers the classes of rank pairs `step` apart along the sorted positions. */
  method PairClasses(positions: seq<nat>, ranks: seq<nat>, next: array<nat>, step: nat)
    returns (classes: nat)
    requires |positions| == |ranks| == next.Length && step < next.Length
    requires IsPermutation(positions, |ranks|) && Within(positions, |ranks|)
    modifies next
    ensures Numbered(PairKeys(ranks, step), positions, next[..])
    ensures classes == ClassCount(PairKeys(ranks, step), positions, |positions|)
  {
    hide *;
    ghost var keys := PairKeys(ranks, step);
    NoClasses(keys, positions);
    NoneNumbered(keys, positions, next[..]);
    classes := 0;
    for index := 0 to |positions|
      invariant classes == ClassCount(keys, positions, index)
      invariant NumberedTo(keys, positions, next[..], index)
    {
      PairNumberOne(ranks, step, positions, next[..], index);
      ghost var was := next[..];
      PlaceWithin(positions, |ranks|, index);
      PlaceWithin(positions, |ranks|, if index == 0 then 0 else index - 1);
      if index == 0 || PairChanges(ranks, step, positions[index], positions[index - 1]) {
        classes := classes + 1;
      }
      var number: nat := classes - 1;
      next[positions[index]] := number;
      assert next[..] == was[positions[index] := number];
    }
    AllNumbered(keys, positions, next[..]);
  }

  lemma PlaceWithin(p: seq<nat>, n: nat, i: nat)
    requires Within(p, n) && i < |p|
    ensures p[i] < n
  {
  }

  lemma NoneNumbered(keys: seq<Key>, p: seq<nat>, next: seq<nat>)
    requires Within(p, |keys|) && |next| == |keys|
    ensures NumberedTo(keys, p, next, 0)
  {
  }

  lemma AllNumbered(keys: seq<Key>, p: seq<nat>, next: seq<nat>)
    requires Within(p, |keys|) && NumberedTo(keys, p, next, |p|)
    ensures Numbered(keys, p, next)
  {
  }

  method Copy(target: array<nat>, source: array<nat>)
    requires target.Length == source.Length
    modifies target
    ensures target[..] == old(source[..])
  {
    forall i | 0 <= i < target.Length {
      target[i] := source[i];
    }
  }

  /** Doubles the compared prefix until it decides every position. */
  method DoublePrefixes(data: seq<byte>, positions: array<nat>, ranks: array<nat>, next: array<nat>, initial: nat)
    requires data != []
    requires positions.Length == ranks.Length == next.Length == |data|
    requires positions != ranks && positions != next && ranks != next
    requires Doubling(data, positions[..], ranks[..], 1, initial) && initial <= |data|
    modifies positions, ranks, next
    ensures positions[..] == Rows(data)
  {
    hide *;
    var length := |data|;
    var step: nat, classes: nat := 1, initial;
    ghost var unsplit := false;
    while step < length && classes < length
      invariant classes <= length
      invariant 1 <= step && Doubling(data, positions[..], ranks[..], step, classes)
      decreases length - step
    {
      ghost var p := positions[..];
      var r := ranks[..];
      DoublingShape(data, p, r, step, classes);
      SortPositions(positions, PairKeys(r, step));
      var p' := positions[..];
      var newClasses := PairClasses(p', r, next, step);
      assert positions[..] == p';
      ghost var r' := next[..];
      Round(data, p, p', r, r', step, classes);
      if newClasses == classes {
        unsplit := true;
        break;
      }
      classes := newClasses;
      Copy(ranks, next);
      step := 2 * step;
      assert positions[..] == p' && ranks[..] == r';
    }
    if !unsplit {
      DoublingDecided(data, positions[..], ranks[..], step, classes);
    }
  }

  lemma DoublingShape(s: seq<byte>, p: seq<nat>, ranks: seq<nat>, k: nat, classes: nat)
    requires s != [] && Doubling(s, p, ranks, k, classes)
    ensures IsPermutation(p, |s|)
  {
  }

  lemma CountLast(keys: seq<Key>, p: seq<nat>)
    requires Within(p, |keys|) && p != []
    ensures ClassCount(keys, p, |p|) == ClassAt(Along(keys, p), |p| - 1) + 1
  {
  }

  /** One turn of the doubling loop: the rows are done, or the invariant holds at twice the step. */
  lemma Round(s: seq<byte>, p: seq<nat>, p': seq<nat>, ranks: seq<nat>, next: seq<nat>, k: nat, classes: nat)
    requires s != [] && Doubling(s, p, ranks, k, classes) && k < |s| == |ranks|
    requires IsPermutation(p', |s|) && Within(p', |s|) && SortedBy(PairKeys(ranks, k), p')
    requires |p'| == |next| == |s| && Numbered(PairKeys(ranks, k), p', next)
    ensures var c := ClassCount(PairKeys(ranks, k), p', |p'|);
      if c == classes then p' == Rows(s) else Doubling(s, p', next, 2 * k, c)
  {
    var keys := PairKeys(ranks, k);
    DoublingShape(s, p, ranks, k, classes);
    CountLast(keys, p');
    hide *;
    if ClassCount(keys, p', |p'|) == classes {
      DoublingDone(s, p, p', ranks, k, classes);
    } else {
      DoublingGoesOn(s, p, p', ranks, next, k, classes);
    }
  }

  /** Reads the last column off the sorted rows and finds the row that starts at 0. */
  method ReadColumn(data: seq<byte>, positions: seq<nat>) returns (output: seq<byte>, original: nat)
    requires positions == Rows(data)
    ensures output == LastColumn(data)
    ensures data != [] ==> original == OriginIndex(data) < |data|
    ensures data == [] ==> original == 0
  {
    var length := |data|;
    ghost var origin := IndexOf(positions, 0);
    RowsShape(data);
    assert origin == OriginIndex(data);
    hide *;
    output, original := [], 0;
    for index := 0 to length
      invariant original == if origin < index then origin else 0
      invariant data != [] ==> output == ColumnOf(data, positions, index)
      invariant data == [] ==> output == []
    {
      var position := positions[index];
      ColumnStep(data, positions, index);
      output := output + [data[Wrap(position + length - 1, length)]];
      OriginAt(positions, length, index);
      if position == 0 {
        original := index;
      }
    }
  }

  lemma RowsShape(s: seq<byte>)
    ensures |Rows(s)| == |s| && forall m :: 0 <= m < |s| ==> Rows(s)[m] < |s|
    ensures IsPermutation(Rows(s), |s|)
    ensures s != [] ==> IndexOf(Rows(s), 0) < |s| && LastColumn(s) == ColumnOf(s, Rows(s), |s|)
    ensures s == [] ==> LastColumn(s) == []
  {
    if s != [] {
      RowsCorrect(s);
      PermutationFacts(Rows(s), |s|);
    }
  }

  lemma ColumnStep(s: seq<byte>, rows: seq<nat>, index: nat)
    requires index < |rows| && rows[index] < |s|
    ensures ColumnOf(s, rows, index + 1)
         == ColumnOf(s, rows, index) + [s[Wrap(rows[index] + |s| - 1, |s|)]]
  {
    LastByte(s, rows[index]);
  }

  lemma OriginAt(p: seq<nat>, n: nat, index: nat)
    requires IsPermutation(p, n) && index < |p|
    ensures p[index] == 0 <==> IndexOf(p, 0) == index
  {
    PermutationFacts(p, n);
    IndexOfFirst(p, index);
  }

  lemma LastByte(s: seq<byte>, i: nat)
    requires i < |s|
    ensures Char(s, i, |s| - 1) == s[Wrap(i + |s| - 1, |s|)]
  {
    if i > 0 {
      assert At(s, i + (|s| - 1)) == At(s, i - 1);
    }
  }

  lemma {:induction false} IndexOfFirst(p: seq<nat>, index: nat)
    requires index < |p| && forall i, j :: 0 <= i < j < |p| ==> p[i] != p[j]
    ensures p[index] == 0 <==> IndexOf(p, 0) == index
  {
    if p[0] == 0 {
    } else if index == 0 {
    } else {
      IndexOfFirst(p[1..], index - 1);
    }
  }

  method Start(data: seq<byte>, positions: array<nat>, ranks: array<nat>)
    requires positions.Length == ranks.Length == |data| && positions != ranks
    modifies positions, ranks
    ensures positions[..] == Range(|data|)
    ensures forall m :: 0 <= m < |data| ==> ranks[m] == data[m]
  {
    for index := 0 to |data|
      invariant forall m :: 0 <= m < index ==> positions[m] == m && ranks[m] == data[m]
    {
      positions[index] := index;
      ranks[index] := data[index];
    }
  }

  /** The first sort, by single bytes, and the numbering of its classes. */
  method FirstSort(data: seq<byte>, positions: array<nat>, ranks: array<nat>, next: array<nat>) returns (classes: nat)
    requires positions.Length == ranks.Length == next.Length == |data|
    requires positions != ranks && positions != next && ranks != next
    modifies positions, ranks, next
    ensures data == [] ==> positions[..] == Rows(data)
    ensures data != [] ==> Doubling(data, positions[..], ranks[..], 1, classes) && classes <= |data|
  {
    hide *;
    Start(data, positions, ranks);
    var r := ranks[..];
    var keys := FirstKeys(r);
    RangeIsPermutation(|data|);
    SortPositions(positions, keys);
    var p := positions[..];
    FirstKeysAre(data, r);
    classes := FirstClasses(data, p, next, keys);
    ghost var n := next[..];
    Copy(ranks, next);
    assert positions[..] == p && ranks[..] == n;
    if data == [] {
      NoRows(data);
    } else {
      FirstRound(data, r, p, n);
    }
  }

  lemma FirstKeysAre(s: seq<byte>, ranks: seq<nat>)
    requires |ranks| == |s| && forall x :: 0 <= x < |s| ==> ranks[x] == s[x]
    ensures |FirstKeys(ranks)| == |s| && forall x :: 0 <= x < |s| ==> FirstKeys(ranks)[x] == (s[x], 0)
  {
  }

  /** The transform: the last column of the sorted rotations and the row of the block. */
  method BlockSort(data: seq<byte>) returns (output: seq<byte>, original: nat)
    ensures output == LastColumn(data)
    ensures data != [] ==> original == OriginIndex(data) < |data|
    ensures data == [] ==> original == 0
  {
    hide *;
    var length := |data|;
    var positions := new nat[length];
    var ranks, next := new nat[length], new nat[length];
    var classes := FirstSort(data, positions, ranks, next);
    if length > 0 {
      DoublePrefixes(data, positions, ranks, next, classes);
    }
    output, original := ReadColumn(data, positions[..]);
  }

  lemma NoRows(s: seq<byte>)
    requires s == []
    ensures Rows(s) == [] == s
  {
  }

  /** The invariant holds on entry. */
  lemma FirstRound(s: seq<byte>, ranks: seq<nat>, p: seq<nat>, next: seq<nat>)
    requires s != [] && |ranks| == |s| && forall x :: 0 <= x < |s| ==> ranks[x] == s[x]
    requires IsPermutation(p, |s|) && |p| == |next| == |s|
    requires Within(p, |s|) && SortedBy(FirstKeys(ranks), p) && Numbered(FirstKeys(ranks), p, next)
    ensures Doubling(s, p, next, 1, ClassCount(FirstKeys(ranks), p, |p|))
  {
    FirstStand(s, ranks);
    Refined(s, FirstKeys(ranks), p, next, 1);
  }

  lemma RangeIsPermutation(n: nat)
    ensures IsPermutation(Range(n), n)
  {
  }
}
