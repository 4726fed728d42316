/** The block sort: prefix doubling with an early exit, against sorting whole rotations. */
module Bzip2Bwt {
  import opened Bits
  import opened Sorting
  import opened Bzip2Rotations

  // ----- What the transform is

  /** The rows of the sorted matrix, each named by where its rotation starts. */
  ghost function Rows(s: seq<byte>): seq<nat> {
    if s == [] then [] else Sort(Range(|s|), RowOrder(s))
  }

  /** The last byte of each of the first `n` rows. */
  function ColumnOf(s: seq<byte>, rows: seq<nat>, n: nat): (r: seq<byte>)
    requires s != [] && n <= |rows|
    ensures |r| == n
    ensures forall m :: 0 <= m < n ==> r[m] == Char(s, rows[m], |s| - 1)
  {
    if n == 0 then [] else ColumnOf(s, rows, n - 1) + [Char(s, rows[n - 1], |s| - 1)]
  }

  ghost function LastColumn(s: seq<byte>): seq<byte> {
    if s == [] then [] else ColumnOf(s, Rows(s), |Rows(s)|)
  }

  ghost function IndexOf(p: seq<nat>, x: nat): (k: nat)
    ensures k <= |p|
    ensures x in p ==> k < |p| && p[k] == x
  {
    if p == [] || p[0] == x then 0 else 1 + IndexOf(p[1..], x)
  }

  /** The row that holds the block itself. */
  ghost function OriginIndex(s: seq<byte>): nat {
    IndexOf(Rows(s), 0)
  }

  ghost predicate RowsSorted(s: seq<byte>, p: seq<nat>)
    requires s != []
  {
    forall a, b {:trigger RowBefore(s, p[a], p[b])} :: 0 <= a < b < |p| ==> RowBefore(s, p[a], p[b])
  }

  lemma RowsCorrect(s: seq<byte>)
    requires s != []
    ensures IsPermutation(Rows(s), |s|) && RowsSorted(s, Rows(s))
    ensures |Rows(s)| == |s|
  {
    var rows, le := Rows(s), RowOrder(s);
    RowOrderTotal(s);
    SortCorrect(Range(|s|), le);
    forall a, b | 0 <= a < b < |rows| ensures RowBefore(s, rows[a], rows[b]) {
      assert le(rows[a], rows[b]);
    }
  }

  /** There is only one way to sort the rows. */
  lemma RowsUnique(s: seq<byte>, p: seq<nat>)
    requires s != []
    requires IsPermutation(p, |s|) && RowsSorted(s, p)
    ensures p == Rows(s)
  {
    var le := RowOrder(s);
    RowOrderTotal(s);
    SortCorrect(Range(|s|), le);
    forall a, b | 0 <= a < b < |p| ensures le(p[a], p[b]) {
      assert RowBefore(s, p[a], p[b]);
    }
    SortedUnique(p, Rows(s), le);
  }

  // ----- Keys and classes

  type Key = (nat, nat)

  predicate KeyLess(a: Key, b: Key) {
    a.0 < b.0 || (a.0 == b.0 && a.1 < b.1)
  }

  /** What the comparison closures compare: key first, position last. */
  predicate PosBefore(keys: seq<Key>, i: nat, j: nat)
    requires i < |keys| && j < |keys|
  {
    KeyLess(keys[i], keys[j]) || (keys[i] == keys[j] && i <= j)
  }

  ghost predicate SortedBy(keys: seq<Key>, p: seq<nat>)
    requires Within(p, |keys|)
  {
    forall a, b {:trigger PosBefore(keys, p[a], p[b])} :: 0 <= a < b < |p| ==> PosBefore(keys, p[a], p[b])
  }

  /** The key of a position in the first sort: its byte. */
  function FirstKeysTo(ranks: seq<nat>, n: nat): (r: seq<Key>)
    requires n <= |ranks|
    ensures |r| == n
    ensures forall i :: 0 <= i < n ==> r[i] == (ranks[i], 0)
  {
    if n == 0 then [] else FirstKeysTo(ranks, n - 1) + [(ranks[n - 1], 0)]
  }

  function FirstKeys(ranks: seq<nat>): (r: seq<Key>)
    ensures |r| == |ranks|
    ensures forall i {:trigger r[i]} :: 0 <= i < |ranks| ==> r[i] == (ranks[i], 0)
  {
    FirstKeysTo(ranks, |ranks|)
  }

  /** The key of a position while doubling: its rank and the rank `step` places on. */
  function PairKey(ranks: seq<nat>, step: nat, i: nat): Key
    requires i < |ranks| && step < |ranks|
  {
    (ranks[i], ranks[Wrap(i + step, |ranks|)])
  }

  function PairKeysTo(ranks: seq<nat>, step: nat, n: nat): (r: seq<Key>)
    requires step < |ranks| && n <= |ranks|
    ensures |r| == n
    ensures forall i :: 0 <= i < n ==> r[i] == PairKey(ranks, step, i)
  {
    if n == 0 then [] else PairKeysTo(ranks, step, n - 1) + [PairKey(ranks, step, n - 1)]
  }

  function PairKeys(ranks: seq<nat>, step: nat): (r: seq<Key>)
    requires step < |ranks|
    ensures |r| == |ranks|
    ensures forall i {:trigger r[i]} :: 0 <= i < |ranks| ==> r[i] == PairKey(ranks, step, i)
  {
    PairKeysTo(ranks, step, |ranks|)
  }

  /** How many times the key has changed on the way to index `m`. */
  function ClassAt(keys: seq<Key>, m: nat): (c: nat)
    requires m < |keys|
    ensures c <= m
  {
    if m == 0 then 0 else ClassAt(keys, m - 1) + (if keys[m] != keys[m - 1] then 1 else 0)
  }

  predicate KeyLe(a: Key, b: Key) {
    a == b || KeyLess(a, b)
  }

  ghost predicate KeysInOrder(column: seq<Key>) {
    forall i, j {:trigger KeyLe(column[i], column[j])} :: 0 <= i < j < |column| ==> KeyLe(column[i], column[j])
  }

  lemma {:induction false} ClassOrder(column: seq<Key>, a: nat, b: nat)
    requires a <= b < |column| && KeysInOrder(column)
    ensures ClassAt(column, a) <= ClassAt(column, b)
    ensures ClassAt(column, a) == ClassAt(column, b) <==> column[a] == column[b]
  {
    if a < b {
      ClassOrder(column, a, b - 1);
      assert KeyLe(column[b - 1], column[b]) && KeyLe(column[a], column[b]);
      assert a < b - 1 ==> KeyLe(column[a], column[b - 1]);
    }
  }

  lemma SortedColumn(keys: seq<Key>, p: seq<nat>)
    requires Within(p, |keys|) && SortedBy(keys, p)
    ensures KeysInOrder(Along(keys, p))
  {
    var column := Along(keys, p);
    forall i, j | 0 <= i < j < |column| ensures KeyLe(column[i], column[j]) {
      assert PosBefore(keys, p[i], p[j]);
    }
  }

  /** `next` numbers the classes of the first `index` positions of `p`. */
  ghost predicate NumberedTo(keys: seq<Key>, p: seq<nat>, next: seq<nat>, index: nat)
    requires Within(p, |keys|)
  {
    index <= |p| && Within(p, |next|) && forall m :: 0 <= m < index ==> next[p[m]] == ClassAt(Along(keys, p), m)
  }

  ghost predicate Numbered(keys: seq<Key>, p: seq<nat>, next: seq<nat>)
    requires Within(p, |keys|)
  {
    NumberedTo(keys, p, next, |p|)
  }

  /** Class numbers compare as the keys they were drawn from. */
  lemma ClassesCompare(keys: seq<Key>, p: seq<nat>, next: seq<nat>, a: nat, b: nat)
    requires Within(p, |keys|) && KeysInOrder(Along(keys, p)) && Numbered(keys, p, next)
    requires a < |p| && b < |p|
    ensures next[p[a]] < next[p[b]] <==> KeyLess(keys[p[a]], keys[p[b]])
  {
    var column := Along(keys, p);
    assert next[p[a]] == ClassAt(column, a) && next[p[b]] == ClassAt(column, b);
    if a <= b {
      ClassOrder(column, a, b);
    } else {
      ClassOrder(column, b, a);
    }
    assert a < b ==> KeyLe(column[a], column[b]);
    assert b < a ==> KeyLe(column[b], column[a]);
  }

  // ----- The loop invariant of the doubling

  ghost predicate RankAgrees(s: seq<byte>, ranks: seq<nat>, k: nat, i: nat, j: nat)
    requires s != [] && i < |ranks| && j < |ranks|
  {
    ranks[i] < ranks[j] <==> LessPrefix(s, i, j, k)
  }

  /** Ranks order positions by their first `k` bytes. */
  ghost predicate RanksAgree(s: seq<byte>, ranks: seq<nat>, k: nat)
    requires s != []
  {
    |ranks| == |s| &&
    forall i, j :: 0 <= i < |s| && 0 <= j < |s| ==> RankAgrees(s, ranks, k, i, j)
  }

  ghost predicate PrefixBefore(s: seq<byte>, i: nat, j: nat, k: nat)
    requires s != []
  {
    LessPrefix(s, i, j, k) || (EqualPrefix(s, i, j, k) && i <= j)
  }

  /** Positions are in the order of their first `k` bytes, ties by position. */
  ghost predicate PrefixSorted(s: seq<byte>, p: seq<nat>, k: nat)
    requires s != []
  {
    forall a, b {:trigger PrefixBefore(s, p[a], p[b], k)} :: 0 <= a < b < |p| ==> PrefixBefore(s, p[a], p[b], k)
  }

  ghost predicate StepsUp(column: seq<nat>, m: nat)
    requires 0 < m < |column|
  {
    column[m] == column[m - 1] || column[m] == column[m - 1] + 1
  }

  /** The column climbs from 0 without gaps. */
  ghost predicate Gapless(column: seq<nat>) {
    && (column != [] ==> column[0] == 0)
    && (forall m :: 0 < m < |column| ==> StepsUp(column, m))
  }

  ghost predicate Doubling(s: seq<byte>, p: seq<nat>, ranks: seq<nat>, k: nat, classes: nat)
    requires s != []
  {
    && k >= 1
    && IsPermutation(p, |s|) && |p| == |s|
    && PrefixSorted(s, p, k)
    && RanksAgree(s, ranks, k)
    && Within(p, |s|) && Gapless(Along(ranks, p))
    && classes == ranks[p[|p| - 1]] + 1
  }

  lemma RanksTied(s: seq<byte>, ranks: seq<nat>, k: nat, i: nat, j: nat)
    requires s != [] && RanksAgree(s, ranks, k) && i < |s| && j < |s|
    ensures ranks[i] == ranks[j] <==> EqualPrefix(s, i, j, k)
    ensures ranks[i] < ranks[j] <==> LessPrefix(s, i, j, k)
  {
    Trichotomy(s, i, j, k);
    assert RankAgrees(s, ranks, k, i, j) && RankAgrees(s, ranks, k, j, i);
    if EqualPrefix(s, i, j, k) {
      Trichotomy(s, j, i, k);
      assert EqualPrefix(s, j, i, k);
    }
  }

  ghost predicate KeyStands(s: seq<byte>, keys: seq<Key>, k: nat, i: nat, j: nat)
    requires s != [] && i < |keys| && j < |keys|
  {
    && (KeyLess(keys[i], keys[j]) <==> LessPrefix(s, i, j, k))
    && (keys[i] == keys[j] <==> EqualPrefix(s, i, j, k))
  }

  /** `keys` compare as `k`-byte prefixes do. */
  ghost predicate StandsFor(s: seq<byte>, keys: seq<Key>, k: nat)
    requires s != []
  {
    |keys| == |s| && forall i, j :: 0 <= i < |s| && 0 <= j < |s| ==> KeyStands(s, keys, k, i, j)
  }

  /** Pairs of ranks `step` apart order positions by twice as many bytes. */
  lemma PairCompares(s: seq<byte>, ranks: seq<nat>, step: nat, i: nat, j: nat)
    requires s != [] && RanksAgree(s, ranks, step) && i < |s| && j < |s| && step < |s|
    ensures KeyStands(s, PairKeys(ranks, step), 2 * step, i, j)
  {
    var i', j' := Wrap(i + step, |s|), Wrap(j + step, |s|);
    PrefixSplit(s, i, j, step, step);
    PrefixWrap(s, i', j', i + step, j + step, step);
    RanksTied(s, ranks, step, i, j);
    RanksTied(s, ranks, step, i', j');
  }

  lemma PairsStand(s: seq<byte>, ranks: seq<nat>, step: nat)
    requires s != [] && RanksAgree(s, ranks, step) && step < |s|
    ensures StandsFor(s, PairKeys(ranks, step), 2 * step)
  {
    forall i, j | 0 <= i < |s| && 0 <= j < |s| ensures KeyStands(s, PairKeys(ranks, step), 2 * step, i, j) {
      PairCompares(s, ranks, step, i, j);
    }
  }

  lemma FirstStand(s: seq<byte>, ranks: seq<nat>)
    requires s != [] && |ranks| == |s| && forall x :: 0 <= x < |s| ==> ranks[x] == s[x]
    ensures StandsFor(s, FirstKeys(ranks), 1)
  {
    var keys := FirstKeys(ranks);
    forall i, j | 0 <= i < |s| && 0 <= j < |s| ensures KeyStands(s, keys, 1, i, j) {
      assert Char(s, i, 0) == s[i] && Char(s, j, 0) == s[j];
      if s[i] < s[j] {
        assert FirstDifference(s, i, j, 0);
      }
    }
  }

  // ----- One round

  lemma NumberedRanks(s: seq<byte>, keys: seq<Key>, p: seq<nat>, next: seq<nat>, k: nat)
    requires s != [] && |next| == |s| && StandsFor(s, keys, k)
    requires IsPermutation(p, |s|) && Within(p, |s|) && KeysInOrder(Along(keys, p)) && Numbered(keys, p, next)
    ensures RanksAgree(s, next, k)
  {
    forall i, j | 0 <= i < |s| && 0 <= j < |s| ensures RankAgrees(s, next, k, i, j) {
      var a := PositionOf(p, |s|, i);
      var b := PositionOf(p, |s|, j);
      ClassesCompare(keys, p, next, a, b);
      assert KeyStands(s, keys, k, i, j);
    }
  }

  lemma NumberedGapless(keys: seq<Key>, p: seq<nat>, next: seq<nat>)
    requires Within(p, |keys|) && Numbered(keys, p, next)
    ensures Gapless(Along(next, p))
  {
    var r, column := Along(next, p), Along(keys, p);
    forall m | 0 < m < |p| ensures StepsUp(r, m) {
      assert next[p[m]] == ClassAt(column, m) && next[p[m - 1]] == ClassAt(column, m - 1);
    }
  }

  lemma SortedPrefixes(s: seq<byte>, keys: seq<Key>, p: seq<nat>, k: nat)
    requires s != [] && StandsFor(s, keys, k) && Within(p, |s|) && SortedBy(keys, p)
    ensures PrefixSorted(s, p, k)
  {
    forall a, b | 0 <= a < b < |p| ensures PrefixBefore(s, p[a], p[b], k) {
      assert PosBefore(keys, p[a], p[b]) && KeyStands(s, keys, k, p[a], p[b]);
    }
  }

  /** Sorting by keys that stand for `k`-byte prefixes, then numbering the classes, gives the
      invariant at `k`. */
  lemma Refined(s: seq<byte>, keys: seq<Key>, p: seq<nat>, next: seq<nat>, k: nat)
    requires s != [] && k >= 1 && StandsFor(s, keys, k)
    requires IsPermutation(p, |s|) && |p| == |next| == |s|
    requires Within(p, |s|) && SortedBy(keys, p) && Numbered(keys, p, next)
    ensures Doubling(s, p, next, k, ClassAt(Along(keys, p), |p| - 1) + 1)
  {
    assert RanksAgree(s, next, k) by {
      SortedColumn(keys, p);
      NumberedRanks(s, keys, p, next, k);
    }
    assert PrefixSorted(s, p, k) by { SortedPrefixes(s, keys, p, k); }
    assert Gapless(Along(next, p)) by { NumberedGapless(keys, p, next); }
    assert next[p[|p| - 1]] == ClassAt(Along(keys, p), |p| - 1);
  }

  // ----- The three ways out of the loop

  /** Positions that agree on `k` bytes agree all the way round. */
  ghost predicate Decides(s: seq<byte>, k: nat)
    requires s != []
  {
    forall i: nat, j: nat :: i < |s| && j < |s| && EqualPrefix(s, i, j, k) ==> EqualPrefix(s, i, j, |s|)
  }

  /** An order by a deciding prefix length is the order of the rows. */
  lemma PrefixOrderIsRowOrder(s: seq<byte>, p: seq<nat>, k: nat)
    requires s != [] && IsPermutation(p, |s|) && PrefixSorted(s, p, k) && Decides(s, k)
    ensures p == Rows(s)
  {
    PermutationFacts(p, |s|);
    forall a, b | 0 <= a < b < |p| ensures RowBefore(s, p[a], p[b]) {
      assert PrefixBefore(s, p[a], p[b], k);
      DecidedRow(s, p[a], p[b], k);
    }
    RowsUnique(s, p);
  }

  lemma DecidedRow(s: seq<byte>, i: nat, j: nat, k: nat)
    requires s != [] && i < |s| && j < |s| && Decides(s, k) && PrefixBefore(s, i, j, k)
    ensures RowBefore(s, i, j)
  {
    RotationOrder(s, i, j);
    if LessPrefix(s, i, j, k) {
      if k >= |s| {
        PrefixSaturates(s, i, j, k);
      } else {
        var t: nat :| t < k && FirstDifference(s, i, j, t);
      }
    }
  }

  lemma LongPrefixDecides(s: seq<byte>, k: nat)
    requires s != [] && k >= |s|
    ensures Decides(s, k)
  {
    forall i: nat, j: nat | i < |s| && j < |s| && EqualPrefix(s, i, j, k) ensures EqualPrefix(s, i, j, |s|) {
      PrefixSaturates(s, i, j, k);
    }
  }

  lemma {:induction false} GaplessBound(column: seq<nat>, m: nat)
    requires Gapless(column) && m < |column|
    ensures column[m] <= m
  {
    if m > 0 {
      GaplessBound(column, m - 1);
      assert StepsUp(column, m);
    }
  }

  lemma {:induction false} GaplessFull(column: seq<nat>, m: nat)
    requires Gapless(column) && m < |column| && column[|column| - 1] == |column| - 1
    ensures column[m] == m
    decreases |column| - m
  {
    if m < |column| - 1 {
      GaplessFull(column, m + 1);
      GaplessBound(column, m);
      assert StepsUp(column, m + 1);
    }
  }

  /** As many classes as positions: no two positions agree. */
  lemma DistinctDecides(s: seq<byte>, p: seq<nat>, ranks: seq<nat>, k: nat)
    requires s != [] && Doubling(s, p, ranks, k, |s|)
    ensures Decides(s, k)
  {
    forall i: nat, j: nat | i < |s| && j < |s| && EqualPrefix(s, i, j, k) ensures EqualPrefix(s, i, j, |s|) {
      RanksTied(s, ranks, k, i, j);
      var a := PositionOf(p, |s|, i);
      var b := PositionOf(p, |s|, j);
      GaplessFull(Along(ranks, p), a);
      GaplessFull(Along(ranks, p), b);
      assert i == j;
    }
  }

  function NatOrder(): (nat, nat) -> bool {
    (a: nat, b: nat) => a <= b
  }

  ghost predicate Climbs(column: seq<nat>) {
    forall a, b :: 0 <= a < b < |column| ==> column[a] <= column[b]
  }

  lemma ClimbingUnique(a: seq<nat>, b: seq<nat>)
    requires Climbs(a) && Climbs(b) && multiset(a) == multiset(b)
    ensures a == b
  {
    SortedUnique(a, b, NatOrder());
  }

  /** Re-sorting by more bytes shuffles positions only within a rank. */
  lemma SameRankColumn(s: seq<byte>, p: seq<nat>, p': seq<nat>, ranks: seq<nat>, k: nat)
    requires s != [] && 0 < k < |s| && RanksAgree(s, ranks, k)
    requires IsPermutation(p, |s|) && IsPermutation(p', |s|) && Within(p, |s|) && Within(p', |s|)
    requires PrefixSorted(s, p, k) && SortedBy(PairKeys(ranks, k), p')
    ensures Along(ranks, p) == Along(ranks, p')
  {
    var r, r' := Along(ranks, p), Along(ranks, p');
    assert multiset(r) == multiset(r') by { AlongPermutation(ranks, p, p'); }
    forall a, b | 0 <= a < b < |r| ensures r[a] <= r[b] {
      assert PrefixBefore(s, p[a], p[b], k);
      RanksTied(s, ranks, k, p[a], p[b]);
    }
    forall a, b | 0 <= a < b < |r'| ensures r'[a] <= r'[b] {
      assert PosBefore(PairKeys(ranks, k), p'[a], p'[b]);
    }
    ClimbingUnique(r, r');
  }

  /** Ranks climb without gaps, and their keys are in order. */
  ghost predicate Follows(r: seq<nat>, column: seq<Key>) {
    && r != [] && |column| == |r| && Gapless(r) && KeysInOrder(column)
    && (forall m :: 0 <= m < |r| ==> column[m].0 == r[m])
  }

  /** The classes end level with the ranks. */
  ghost predicate Level(r: seq<nat>, column: seq<Key>) {
    Follows(r, column) && ClassAt(column, |r| - 1) == r[|r| - 1]
  }

  /** The class number never falls behind the rank, and once ahead stays ahead. */
  lemma {:induction false} ClassesClimb(r: seq<nat>, column: seq<Key>, a: nat, b: nat)
    requires Follows(r, column) && a <= b < |r|
    ensures ClassAt(column, b) - r[b] >= ClassAt(column, a) - r[a] >= 0
    decreases b
  {
    if a < b {
      ClassesClimb(r, column, a, b - 1);
      assert StepsUp(r, b);
    } else if a > 0 {
      ClassesClimb(r, column, a - 1, a - 1);
      assert StepsUp(r, a);
    }
  }

  lemma SameRankSameKey(r: seq<nat>, column: seq<Key>, a: nat, b: nat)
    requires Level(r, column) && a < |r| && b < |r| && r[a] == r[b]
    ensures column[a] == column[b]
  {
    ClassesClimb(r, column, a, |r| - 1);
    ClassesClimb(r, column, b, |r| - 1);
    if a <= b {
      ClassOrder(column, a, b);
    } else {
      ClassOrder(column, b, a);
    }
  }

  /** After a round the ranks of before climb along the positions, and their classes end with the last one. */
  lemma DoublingFollows(s: seq<byte>, p: seq<nat>, p': seq<nat>, ranks: seq<nat>, k: nat, classes: nat)
    requires s != [] && Doubling(s, p, ranks, k, classes) && k < |s|
    requires IsPermutation(p', |s|) && Within(p', |s|) && SortedBy(PairKeys(ranks, k), p') && |p'| == |s|
    ensures Follows(Along(ranks, p'), Along(PairKeys(ranks, k), p'))
    ensures Along(ranks, p')[|p'| - 1] + 1 == classes
  {
    hide IsPermutation;
    var r, column := Along(ranks, p'), Along(PairKeys(ranks, k), p');
    assert KeysInOrder(column) by { SortedColumn(PairKeys(ranks, k), p'); }
    assert r == Along(ranks, p) by { SameRankColumn(s, p, p', ranks, k); }
    assert r[|r| - 1] == ranks[p[|p| - 1]];
    forall m | 0 <= m < |r| ensures column[m].0 == r[m] {
      assert column[m] == PairKey(ranks, k, p'[m]);
    }
  }

  lemma DoublingLevel(s: seq<byte>, p: seq<nat>, p': seq<nat>, ranks: seq<nat>, k: nat, classes: nat)
    requires s != [] && Doubling(s, p, ranks, k, classes) && k < |s|
    requires IsPermutation(p', |s|) && Within(p', |s|) && SortedBy(PairKeys(ranks, k), p')
    requires |p'| == |s| && ClassAt(Along(PairKeys(ranks, k), p'), |p'| - 1) + 1 == classes
    ensures Level(Along(ranks, p'), Along(PairKeys(ranks, k), p'))
  {
    hide *;
    DoublingRanks(s, p, ranks, k, classes);
    DoublingFollows(s, p, p', ranks, k, classes);
    LevelIs(Along(ranks, p'), Along(PairKeys(ranks, k), p'));
  }

  lemma LevelIs(r: seq<nat>, column: seq<Key>)
    requires Follows(r, column) && ClassAt(column, |r| - 1) == r[|r| - 1]
    ensures Level(r, column)
  {
  }

  /** A round never joins classes. */
  lemma DoublingGrows(s: seq<byte>, p: seq<nat>, p': seq<nat>, ranks: seq<nat>, k: nat, classes: nat)
    requires s != [] && Doubling(s, p, ranks, k, classes) && k < |s|
    requires IsPermutation(p', |s|) && Within(p', |s|) && SortedBy(PairKeys(ranks, k), p') && |p'| == |s|
    ensures ClassAt(Along(PairKeys(ranks, k), p'), |p'| - 1) + 1 >= classes
  {
    hide *;
    DoublingRanks(s, p, ranks, k, classes);
    DoublingFollows(s, p, p', ranks, k, classes);
    ClassesClimb(Along(ranks, p'), Along(PairKeys(ranks, k), p'), |p'| - 1, |p'| - 1);
  }

  /** No new class in one doubling: the shorter prefixes already decide, so the order just
      computed is final although its ranks were never copied back. */
  lemma UnsplitDecides(s: seq<byte>, p: seq<nat>, p': seq<nat>, ranks: seq<nat>, k: nat, classes: nat)
    requires s != [] && Doubling(s, p, ranks, k, classes) && k < |s|
    requires IsPermutation(p', |s|) && Within(p', |s|) && SortedBy(PairKeys(ranks, k), p')
    requires |p'| == |s| && ClassAt(Along(PairKeys(ranks, k), p'), |p'| - 1) + 1 == classes
    ensures Decides(s, 2 * k)
  {
    DoublingLevel(s, p, p', ranks, k, classes);
    forall i: nat, j: nat | i < |s| && j < |s| && EqualPrefix(s, i, j, k)
      ensures EqualPrefix(s, i, j, 2 * k)
    {
      RanksTied(s, ranks, k, i, j);
      var a := PositionOf(p', |s|, i);
      var b := PositionOf(p', |s|, j);
      SameRankSameKey(Along(ranks, p'), Along(PairKeys(ranks, k), p'), a, b);
      PairCompares(s, ranks, k, i, j);
    }
    forall i: nat, j: nat | i < |s| && j < |s| && EqualPrefix(s, i, j, 2 * k)
      ensures EqualPrefix(s, i, j, |s|)
    {
      EqualSplit(s, i, j, k, k);
      StableForever(s, k, i, j, |s|);
    }
  }

  /** The early exit leaves the rows sorted. */
  lemma DoublingDone(s: seq<byte>, p: seq<nat>, p': seq<nat>, ranks: seq<nat>, k: nat, classes: nat)
    requires s != [] && Doubling(s, p, ranks, k, classes) && k < |s|
    requires IsPermutation(p', |s|) && Within(p', |s|) && SortedBy(PairKeys(ranks, k), p')
    requires |p'| == |s| && ClassAt(Along(PairKeys(ranks, k), p'), |p'| - 1) + 1 == classes
    ensures p' == Rows(s)
  {
    assert Decides(s, 2 * k) by { UnsplitDecides(s, p, p', ranks, k, classes); }
    assert PrefixSorted(s, p', 2 * k) by {
      PairsStand(s, ranks, k);
      SortedPrefixes(s, PairKeys(ranks, k), p', 2 * k);
    }
    PrefixOrderIsRowOrder(s, p', 2 * k);
  }

  /** Another round keeps the invariant, with no fewer classes. */
  lemma DoublingGoesOn(s: seq<byte>, p: seq<nat>, p': seq<nat>, ranks: seq<nat>, next: seq<nat>, k: nat, classes: nat)
    requires s != [] && Doubling(s, p, ranks, k, classes) && k < |s|
    requires IsPermutation(p', |s|) && Within(p', |s|) && SortedBy(PairKeys(ranks, k), p')
    requires |p'| == |next| == |s| && Numbered(PairKeys(ranks, k), p', next)
    ensures Doubling(s, p', next, 2 * k, ClassAt(Along(PairKeys(ranks, k), p'), |p'| - 1) + 1)
    ensures ClassAt(Along(PairKeys(ranks, k), p'), |p'| - 1) + 1 >= classes
  {
    hide *;
    DoublingRanks(s, p, ranks, k, classes);
    DoublingGrows(s, p, p', ranks, k, classes);
    PairsStand(s, ranks, k);
    Refined(s, PairKeys(ranks, k), p', next, 2 * k);
  }

  lemma DoublingRanks(s: seq<byte>, p: seq<nat>, ranks: seq<nat>, k: nat, classes: nat)
    requires s != [] && Doubling(s, p, ranks, k, classes)
    ensures RanksAgree(s, ranks, k) && |ranks| == |s| && k >= 1
  {
  }

  /** The loop guard fails: the rows are sorted. */
  lemma DoublingDecided(s: seq<byte>, p: seq<nat>, ranks: seq<nat>, k: nat, classes: nat)
    requires s != [] && Doubling(s, p, ranks, k, classes)
    requires k >= |s| || classes == |s|
    ensures p == Rows(s)
  {
    if k >= |s| {
      LongPrefixDecides(s, k);
    } else {
      DistinctDecides(s, p, ranks, k);
    }
    PrefixOrderIsRowOrder(s, p, k);
  }
}
