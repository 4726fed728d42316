/** Undoing the block sort. No decoder is part of the repository; this is the textbook one. */
module Bzip2Unsort {
  import opened Bits
  import opened Sorting
  import opened Bzip2Rotations
  import opened Bzip2Bwt
  import opened Bzip2BlockSort

  /** The rows of the last column in the stable order of their bytes. */
  function ByteOrder(column: seq<byte>): seq<nat> {
    Sort(Range(|column|), PositionOrder(FirstKeys(column)))
  }

  function Walk(column: seq<byte>, order: seq<nat>, row: nat, count: nat): (r: seq<byte>)
    requires |order| == |column| && Within(order, |column|) && (count > 0 ==> row < |column|)
    ensures |r| == count
    decreases count
  {
    if count == 0 then [] else [column[row]] + Walk(column, order, order[row], count - 1)
  }

  lemma ByteOrderCorrect(column: seq<byte>)
    ensures IsPermutation(ByteOrder(column), |column|)
    ensures |ByteOrder(column)| == |column| && Within(ByteOrder(column), |column|)
    ensures SortedBy(FirstKeys(column), ByteOrder(column))
  {
    var keys := FirstKeys(column);
    var le := PositionOrder(keys);
    var order := ByteOrder(column);
    PositionOrderTotal(keys);
    SortCorrect(Range(|column|), le);
    PermutationFacts(order, |column|);
    forall a, b | 0 <= a < b < |order| ensures PosBefore(keys, order[a], order[b]) {
      assert le(order[a], order[b]);
    }
  }

  /** The block whose sorted rotations end in `column`, itself being row `origin`. */
  function Unsort(column: seq<byte>, origin: nat): seq<byte>
    requires origin < |column|
  {
    ByteOrderCorrect(column);
    Walk(column, ByteOrder(column), ByteOrder(column)[origin], |column|)
  }

  // ----- Numbering rotations

  /** How many of the first `m` rotations come before rotation `i`. */
  ghost function CountBefore(s: seq<byte>, i: nat, m: nat): (c: nat)
    requires s != []
  {
    if m == 0 then 0 else CountBefore(s, i, m - 1) + (if LessPrefix(s, m - 1, i, |s|) then 1 else 0)
  }

  lemma {:induction false} CountMonotone(s: seq<byte>, i: nat, j: nat, m: nat)
    requires s != [] && LessPrefix(s, i, j, |s|)
    ensures CountBefore(s, i, m) <= CountBefore(s, j, m)
    ensures i < m ==> CountBefore(s, i, m) < CountBefore(s, j, m)
  {
    if m > 0 {
      CountMonotone(s, i, j, m - 1);
      LessTransitive(s, m - 1, i, j, |s|);
      Trichotomy(s, i, i, |s|);
    }
  }

  lemma {:induction false} CountEqual(s: seq<byte>, i: nat, j: nat, m: nat)
    requires s != [] && EqualPrefix(s, i, j, |s|)
    ensures CountBefore(s, i, m) == CountBefore(s, j, m)
  {
    if m > 0 {
      CountEqual(s, i, j, m - 1);
      assert EqualPrefix(s, j, i, |s|);
      LessTransitive(s, m - 1, i, j, |s|);
      LessTransitive(s, m - 1, j, i, |s|);
    }
  }

  ghost function RotationRanks(s: seq<byte>, n: nat): (r: seq<nat>)
    requires s != []
    ensures |r| == n
    ensures forall i {:trigger r[i]} :: 0 <= i < n ==> r[i] == CountBefore(s, i, |s|)
  {
    if n == 0 then [] else RotationRanks(s, n - 1) + [CountBefore(s, n - 1, |s|)]
  }

  lemma RotationRanksAgree(s: seq<byte>)
    requires s != []
    ensures RanksAgree(s, RotationRanks(s, |s|), |s|)
  {
    var ranks := RotationRanks(s, |s|);
    forall i, j | 0 <= i < |s| && 0 <= j < |s| ensures RankAgrees(s, ranks, |s|, i, j) {
      Trichotomy(s, i, j, |s|);
      if LessPrefix(s, i, j, |s|) {
        CountMonotone(s, i, j, |s|);
      } else if EqualPrefix(s, i, j, |s|) {
        CountEqual(s, i, j, |s|);
      } else {
        CountMonotone(s, j, i, |s|);
      }
    }
  }

  // ----- Turning rows back by one byte

  /** Where the rotation that starts one byte earlier starts. */
  function Before(x: nat, n: nat): (r: nat)
    requires x < n
    ensures r < n
  {
    if x == 0 then n - 1 else x - 1
  }

  function Befores(n: nat): (r: seq<nat>)
    ensures |r| == n
    ensures forall x {:trigger r[x]} :: 0 <= x < n ==> r[x] == Before(x, n)
  {
    if n == 0 then [] else [n - 1] + Range(n - 1)
  }

  lemma BeforesPermute(n: nat)
    ensures IsPermutation(Befores(n), n)
  {
    if n > 0 {
      assert Range(n) == Range(n - 1) + [n - 1];
    }
  }

  lemma ComposePermutations(v: seq<nat>, p: seq<nat>, n: nat)
    requires IsPermutation(v, n) && IsPermutation(p, n)
    ensures |v| == |p| == n && Within(p, n) && IsPermutation(Along(v, p), n)
  {
    PermutationFacts(v, n);
    PermutationFacts(p, n);
    AlongPermutation(v, p, Range(n));
    assert Along(v, Range(n)) == v;
  }

  lemma BeforeChar(s: seq<byte>, x: nat)
    requires x < |s|
    ensures Char(s, Before(x, |s|), 0) == Char(s, x, |s| - 1)
  {
    if x > 0 {
      assert At(s, x + (|s| - 1)) == At(s, x - 1);
    }
  }

  /** Rows that end in the same byte keep their order when that byte is moved to the front. */
  lemma TurnBackTied(s: seq<byte>, x: nat, y: nat)
    requires x < |s| && y < |s| && Char(s, x, |s| - 1) == Char(s, y, |s| - 1)
    requires !LessPrefix(s, y, x, |s|)
    ensures !LessPrefix(s, Before(y, |s|), Before(x, |s|), |s|)
  {
    var n := |s|;
    var x', y' := Before(x, n), Before(y, n);
    BeforeChar(s, x);
    BeforeChar(s, y);
    if LessPrefix(s, y', x', n) {
      PrefixSplit(s, y', x', 1, n - 1);
      PrefixWrap(s, y, x, y' + 1, x' + 1, n - 1);
      PrefixSplit(s, y, x, n - 1, 1);
      OneByte(s, y', x');
    }
  }

  lemma OneByte(s: seq<byte>, i: nat, j: nat)
    requires s != [] && Char(s, i, 0) == Char(s, j, 0)
    ensures !LessPrefix(s, i, j, 1)
  {
  }

  lemma TurnBackLess(s: seq<byte>, x: nat, y: nat)
    requires x < |s| && y < |s| && Char(s, x, |s| - 1) < Char(s, y, |s| - 1)
    ensures !LessPrefix(s, Before(y, |s|), Before(x, |s|), |s|)
  {
    var x', y' := Before(x, |s|), Before(y, |s|);
    BeforeChar(s, x);
    BeforeChar(s, y);
    assert FirstDifference(s, x', y', 0);
    Trichotomy(s, x', y', |s|);
  }

  /** Where each row starts once the byte order of the last column is applied and every row is
      turned back by one. */
  ghost function Turned(rows: seq<nat>, order: seq<nat>, n: nat): (q: seq<nat>)
    requires Within(rows, n) && Within(order, |rows|)
    ensures |q| == |order| && Within(q, n)
    ensures forall m {:trigger q[m]} :: 0 <= m < |q| ==> q[m] == Before(rows[order[m]], n)
  {
    Along(Befores(n), Along(rows, order))
  }

  lemma TurnedIsPermutation(rows: seq<nat>, order: seq<nat>, n: nat)
    requires IsPermutation(rows, n) && IsPermutation(order, n)
    requires Within(rows, n) && Within(order, |rows|)
    ensures IsPermutation(Turned(rows, order, n), n)
  {
    BeforesPermute(n);
    ComposePermutations(rows, order, n);
    ComposePermutations(Befores(n), Along(rows, order), n);
  }

  /** Turning the rows back and ordering them by their new first byte sorts them again. */
  lemma TurnedClimbs(s: seq<byte>, rows: seq<nat>, order: seq<nat>, ranks: seq<nat>, a: nat, b: nat)
    requires s != [] && |rows| == |order| == |s| && Within(rows, |s|) && Within(order, |s|)
    requires RowsSorted(s, rows) && SortedBy(FirstKeys(ColumnOf(s, rows, |s|)), order)
    requires RanksAgree(s, ranks, |s|) && a < b < |s|
    ensures ranks[Turned(rows, order, |s|)[a]] <= ranks[Turned(rows, order, |s|)[b]]
  {
    var i, j := order[a], order[b];
    var x, y := rows[i], rows[j];
    TurnedOrder(s, rows, order, a, b);
    hide LessPrefix, RowsSorted, SortedBy, ColumnOf;
    RanksTied(s, ranks, |s|, Before(y, |s|), Before(x, |s|));
  }

  /** Rows in the order of their last bytes are, turned back by one, in the order of the rows. */
  lemma TurnedOrder(s: seq<byte>, rows: seq<nat>, order: seq<nat>, a: nat, b: nat)
    requires s != [] && |rows| == |order| == |s| && Within(rows, |s|) && Within(order, |s|)
    requires RowsSorted(s, rows) && SortedBy(FirstKeys(ColumnOf(s, rows, |s|)), order) && a < b < |s|
    ensures !LessPrefix(s, Before(rows[order[b]], |s|), Before(rows[order[a]], |s|), |s|)
  {
    var column := ColumnOf(s, rows, |s|);
    var i, j := order[a], order[b];
    assert PosBefore(FirstKeys(column), i, j);
    if column[i] < column[j] {
      TurnBackLess(s, rows[i], rows[j]);
    } else {
      assert RowBefore(s, rows[i], rows[j]);
      NotBefore(s, rows[i], rows[j]);
      TurnBackTied(s, rows[i], rows[j]);
    }
  }

  lemma NotBefore(s: seq<byte>, x: nat, y: nat)
    requires s != [] && x < |s| && y < |s| && RowBefore(s, x, y)
    ensures !LessPrefix(s, y, x, |s|)
  {
    RotationOrder(s, x, y);
    Trichotomy(s, x, y, |s|);
    Trichotomy(s, y, x, |s|);
    NotAfter(s, x, y);
  }

  lemma NotAfter(s: seq<byte>, x: nat, y: nat)
    requires s != []
    requires LessPrefix(s, x, y, |s|) || EqualPrefix(s, x, y, |s|)
    ensures !LessPrefix(s, y, x, |s|)
  {
    Trichotomy(s, y, x, |s|);
    Trichotomy(s, x, y, |s|);
  }

  /** The heart of the inversion: row `m` is row `order[m]` turned back by one byte. */
  lemma TurnedRow(s: seq<byte>, m: nat)
    requires m < |s| && |Rows(s)| == |s| && Within(Rows(s), |s|)
    requires |ByteOrder(LastColumn(s))| == |s| && Within(ByteOrder(LastColumn(s)), |s|)
    ensures EqualPrefix(s, Rows(s)[m], Before(Rows(s)[ByteOrder(LastColumn(s))[m]], |s|), |s|)
  {
    var n := |s|;
    var rows, order := Rows(s), ByteOrder(LastColumn(s));
    var ranks := RotationRanks(s, n);
    var q := Turned(rows, order, n);
    var r, r' := Along(ranks, rows), Along(ranks, q);
    RotationRanksAgree(s);
    assert Climbs(r) by { RowRanksClimb(s, ranks); }
    assert Climbs(r') by { TurnedRanksClimb(s, ranks); }
    assert multiset(r) == multiset(r') by {
      RowsCorrect(s);
      ByteOrderCorrect(LastColumn(s));
      TurnedIsPermutation(rows, order, n);
      AlongPermutation(ranks, rows, q);
    }
    ClimbingUnique(r, r');
    assert r[m] == r'[m];
    RanksTied(s, ranks, n, rows[m], q[m]);
  }

  lemma RowRanksClimb(s: seq<byte>, ranks: seq<nat>)
    requires s != [] && RanksAgree(s, ranks, |s|) && Within(Rows(s), |s|)
    ensures Climbs(Along(ranks, Rows(s)))
  {
    var rows := Rows(s);
    var r := Along(ranks, rows);
    RowsCorrect(s);
    forall a, b | 0 <= a < b < |r| ensures r[a] <= r[b] {
      assert RowBefore(s, rows[a], rows[b]);
      RotationOrder(s, rows[a], rows[b]);
      NotAfter(s, rows[a], rows[b]);
      RanksTied(s, ranks, |s|, rows[b], rows[a]);
    }
  }

  /** No rotation comes after a larger one; equal ones, as in a periodic block, may stand in any order. */
  ghost predicate Climbing(s: seq<byte>, p: seq<nat>)
    requires s != []
  {
    forall a, b :: 0 <= a < b < |p| ==> !LexLess(Rotation(s, p[b]), Rotation(s, p[a]))
  }

  lemma ClimbingRanks(s: seq<byte>, p: seq<nat>, ranks: seq<nat>)
    requires s != [] && RanksAgree(s, ranks, |s|) && Within(p, |s|) && Climbing(s, p)
    ensures Climbs(Along(ranks, p))
  {
    var r := Along(ranks, p);
    forall a, b | 0 <= a < b < |r| ensures r[a] <= r[b] {
      assert !LexLess(Rotation(s, p[b]), Rotation(s, p[a]));
      RotationOrder(s, p[b], p[a]);
      RanksTied(s, ranks, |s|, p[b], p[a]);
    }
  }

  /** Whichever way a sort leaves equal rotations, the last column is the same. */
  lemma ColumnUnique(s: seq<byte>, p: seq<nat>)
    requires s != [] && IsPermutation(p, |s|) && Climbing(s, p)
    ensures ColumnOf(s, p, |p|) == LastColumn(s)
  {
    RotationRanksAgree(s);
    RowsCorrect(s);
    PermutationFacts(p, |s|);
    PermutationFacts(Rows(s), |s|);
    hide *;
    SameRanks(s, p, Rows(s), RotationRanks(s, |s|));
    SameColumn(s, p, Rows(s), RotationRanks(s, |s|));
    ColumnOfRows(s);
  }

  lemma ColumnOfRows(s: seq<byte>)
    requires s != []
    ensures LastColumn(s) == ColumnOf(s, Rows(s), |Rows(s)|)
  {
  }

  lemma SameRanks(s: seq<byte>, p: seq<nat>, rows: seq<nat>, ranks: seq<nat>)
    requires s != [] && RanksAgree(s, ranks, |s|) && Within(p, |s|) && Within(rows, |s|)
    requires IsPermutation(p, |s|) && Climbing(s, p) && IsPermutation(rows, |s|) && rows == Rows(s)
    ensures Along(ranks, p) == Along(ranks, rows)
  {
    hide Rows, RanksAgree, Climbing;
    SamePermutation(p, rows, |s|);
    hide IsPermutation;
    ClimbingRanks(s, p, ranks);
    RowRanksClimb(s, ranks);
    RanksLength(s, ranks);
    AlongPermutation(ranks, p, rows);
    ClimbingUnique(Along(ranks, p), Along(ranks, rows));
  }

  lemma RanksLength(s: seq<byte>, ranks: seq<nat>)
    requires s != [] && RanksAgree(s, ranks, |s|)
    ensures |ranks| == |s|
  {
  }

  /** Positions of equal rank have the same last byte. */
  lemma SameColumn(s: seq<byte>, p: seq<nat>, q: seq<nat>, ranks: seq<nat>)
    requires s != [] && RanksAgree(s, ranks, |s|) && Within(p, |s|) && Within(q, |s|)
    requires |p| == |q| && Along(ranks, p) == Along(ranks, q)
    ensures ColumnOf(s, p, |p|) == ColumnOf(s, q, |q|)
  {
    hide RanksAgree, LessPrefix;
    RanksLength(s, ranks);
    forall m | 0 <= m < |p| ensures Char(s, p[m], |s| - 1) == Char(s, q[m], |s| - 1) {
      assert Along(ranks, p)[m] == Along(ranks, q)[m];
      RanksTied(s, ranks, |s|, p[m], q[m]);
    }
  }

  lemma SamePermutation(p: seq<nat>, q: seq<nat>, n: nat)
    requires IsPermutation(p, n) && IsPermutation(q, n)
    ensures multiset(p) == multiset(q)
  {
  }

  lemma TurnedRanksClimb(s: seq<byte>, ranks: seq<nat>)
    requires s != [] && RanksAgree(s, ranks, |s|) && Within(Rows(s), |s|)
    requires |Rows(s)| == |s| == |ByteOrder(LastColumn(s))| && Within(ByteOrder(LastColumn(s)), |s|)
    ensures Climbs(Along(ranks, Turned(Rows(s), ByteOrder(LastColumn(s)), |s|)))
  {
    var rows, order := Rows(s), ByteOrder(LastColumn(s));
    var r := Along(ranks, Turned(rows, order, |s|));
    RowsCorrect(s);
    ByteOrderCorrect(LastColumn(s));
    forall a, b | 0 <= a < b < |r| ensures r[a] <= r[b] {
      TurnedClimbs(s, rows, order, ranks, a, b);
    }
  }

  /** Following the byte order from row to row reads the block forwards. */
  lemma {:induction false} WalkReads(s: seq<byte>, row: nat, k: nat, count: nat)
    requires s != [] && |Rows(s)| == |s| && Within(Rows(s), |s|)
    requires |LastColumn(s)| == |s| == |ByteOrder(LastColumn(s))| && Within(ByteOrder(LastColumn(s)), |s|)
    requires row < |s| && k + count <= |s|
    requires EqualPrefix(s, Rows(s)[row], k + 1, |s|)
    ensures Walk(LastColumn(s), ByteOrder(LastColumn(s)), row, count) == s[k..k + count]
    decreases count
  {
    hide Rows, LastColumn, ByteOrder, EqualPrefix;
    if count > 0 {
      var next := ByteOrder(LastColumn(s))[row];
      ColumnByte(s, row, k);
      TurnedRow(s, row);
      NextRow(s, Rows(s)[row], Rows(s)[next], k + 1);
      WalkReads(s, next, k + 1, count - 1);
      assert s[k..k + count] == [s[k]] + s[k + 1..k + 1 + (count - 1)];
    }
  }

  lemma ColumnByte(s: seq<byte>, row: nat, k: nat)
    requires row < |s| == |LastColumn(s)| && |Rows(s)| == |s| && k < |s|
    requires EqualPrefix(s, Rows(s)[row], k + 1, |s|)
    ensures LastColumn(s)[row] == s[k]
  {
    assert At(s, (k + 1) + (|s| - 1)) == At(s, k);
    assert Char(s, Rows(s)[row], |s| - 1) == Char(s, k + 1, |s| - 1);
  }

  lemma NextRow(s: seq<byte>, x: nat, y: nat, k: nat)
    requires x < |s| && y < |s|
    requires EqualPrefix(s, x, k, |s|) && EqualPrefix(s, x, Before(y, |s|), |s|)
    ensures EqualPrefix(s, y, k + 1, |s|)
  {
    var n := |s|;
    var z := Before(y, n);
    assert EqualPrefix(s, z, k, n);
    EqualForever(s, z, k, 1 + n);
    EqualSplit(s, z, k, 1, n);
    PrefixWrap(s, y, k + 1, z + 1, k + 1, n);
  }

  lemma LastColumnShape(s: seq<byte>)
    requires s != []
    ensures |LastColumn(s)| == |Rows(s)| == |ByteOrder(LastColumn(s))| == |s|
    ensures Within(Rows(s), |s|) && Within(ByteOrder(LastColumn(s)), |s|)
    ensures OriginIndex(s) < |s| && Rows(s)[OriginIndex(s)] == 0
  {
    RowsShape(s);
    OriginRow(s);
    ByteOrderCorrect(LastColumn(s));
  }

  lemma FirstStep(s: seq<byte>) returns (row: nat)
    requires s != [] && |LastColumn(s)| == |Rows(s)| == |ByteOrder(LastColumn(s))| == |s|
    requires Within(Rows(s), |s|) && Within(ByteOrder(LastColumn(s)), |s|)
    requires OriginIndex(s) < |s| && Rows(s)[OriginIndex(s)] == 0
    ensures row < |s| && row == ByteOrder(LastColumn(s))[OriginIndex(s)]
    ensures EqualPrefix(s, Rows(s)[row], 1, |s|)
  {
    hide OriginIndex, LastColumn, Rows, ByteOrder, EqualPrefix;
    row := ByteOrder(LastColumn(s))[OriginIndex(s)];
    TurnedRow(s, OriginIndex(s));
    SelfEqual(s);
    NextRow(s, 0, Rows(s)[row], 0);
  }

  /** The block sort loses nothing. */
  lemma UnsortSort(s: seq<byte>)
    requires s != []
    ensures |LastColumn(s)| == |s| && OriginIndex(s) < |s|
    ensures Unsort(LastColumn(s), OriginIndex(s)) == s
  {
    hide OriginIndex, LastColumn, Rows, ByteOrder, EqualPrefix;
    LastColumnShape(s);
    var row := FirstStep(s);
    WalkReads(s, row, 0, |s|);
    assert s[0..|s|] == s;
  }

  lemma SelfEqual(s: seq<byte>)
    requires s != []
    ensures EqualPrefix(s, 0, 0, |s|)
  {
  }

  lemma OriginRow(s: seq<byte>)
    requires s != []
    ensures OriginIndex(s) < |Rows(s)| && Rows(s)[OriginIndex(s)] == 0
  {
    RowsCorrect(s);
    PermutationFacts(Rows(s), |s|);
  }
}
