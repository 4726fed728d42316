/** What `sort.Slice` promises: an ordered permutation, whatever it does with ties. */
module Sorting {
  ghost predicate TotalPreorder<T(!new)>(le: (T, T) -> bool) {
    && (forall x, y :: le(x, y) || le(y, x))
    && (forall x, y, z :: le(x, y) && le(y, z) ==> le(x, z))
  }

  ghost predicate Antisymmetric<T(!new)>(le: (T, T) -> bool) {
    forall x, y :: le(x, y) && le(y, x) ==> x == y
  }

  ghost predicate Sorted<T>(s: seq<T>, le: (T, T) -> bool) {
    forall i, j {:trigger le(s[i], s[j])} :: 0 <= i < j < |s| ==> le(s[i], s[j])
  }

  function Insert<T>(x: T, s: seq<T>, le: (T, T) -> bool): seq<T> {
    if s == [] || le(x, s[0]) then [x] + s else [s[0]] + Insert(x, s[1..], le)
  }

  function Sort<T>(s: seq<T>, le: (T, T) -> bool): seq<T> {
    if s == [] then [] else Insert(s[0], Sort(s[1..], le), le)
  }

  lemma {:induction false} InsertKeeps<T(!new)>(x: T, s: seq<T>, le: (T, T) -> bool)
    requires TotalPreorder(le) && Sorted(s, le)
    ensures Sorted(Insert(x, s, le), le)
    ensures multiset(Insert(x, s, le)) == multiset{x} + multiset(s)
  {
    if s == [] || le(x, s[0]) {
      forall i | 0 <= i < |s| ensures le(x, s[i]) {
        assert i > 0 ==> le(s[0], s[i]);
      }
    } else {
      InsertKeeps(x, s[1..], le);
      var t := Insert(x, s[1..], le);
      assert s == [s[0]] + s[1..];
      forall y | y in t ensures le(s[0], y) {
        assert y in multiset(t);
        assert y == x || y in multiset(s[1..]);
        if y in s[1..] {
          var k :| 0 <= k < |s[1..]| && s[1..][k] == y;
          assert s[k + 1] == y;
        }
      }
    }
  }

  /** Sorting gives an ordered permutation. */
  lemma {:induction false} SortCorrect<T(!new)>(s: seq<T>, le: (T, T) -> bool)
    requires TotalPreorder(le)
    ensures Sorted(Sort(s, le), le) && multiset(Sort(s, le)) == multiset(s)
    ensures |Sort(s, le)| == |s|
  {
    if s == [] {
    } else {
      SortCorrect(s[1..], le);
      InsertKeeps(s[0], Sort(s[1..], le), le);
      assert s == [s[0]] + s[1..];
      assert |multiset(Sort(s, le))| == |multiset(s)|;
    }
  }

  lemma SameMembers<T>(a: seq<T>, b: seq<T>)
    requires multiset(a) == multiset(b)
    ensures |a| == |b|
    ensures forall x :: x in a <==> x in b
  {
    assert |multiset(a)| == |a| && |multiset(b)| == |b|;
    forall x ensures x in a <==> x in b {
      assert x in multiset(a) <==> x in multiset(b);
    }
  }

  lemma SameHead<T(!new)>(a: seq<T>, b: seq<T>, le: (T, T) -> bool)
    requires TotalPreorder(le) && Antisymmetric(le)
    requires Sorted(a, le) && Sorted(b, le) && multiset(a) == multiset(b)
    requires a != [] && b != []
    ensures a[0] == b[0]
  {
    SameMembers(a, b);
    assert a[0] in b && b[0] in a;
    var i :| 0 <= i < |b| && b[i] == a[0];
    var j :| 0 <= j < |a| && a[j] == b[0];
    assert le(a[0], a[0]);
    assert le(b[0], b[i]) && le(a[0], a[j]);
  }

  lemma SortedTail<T>(a: seq<T>, le: (T, T) -> bool)
    requires a != [] && Sorted(a, le)
    ensures Sorted(a[1..], le) && a == [a[0]] + a[1..]
    ensures multiset(a[1..]) == multiset(a) - multiset{a[0]}
  {
    var t := a[1..];
    forall i, j | 0 <= i < j < |t| ensures le(t[i], t[j]) {
      assert le(a[i + 1], a[j + 1]);
    }
    assert a == [a[0]] + t;
  }

  /** An antisymmetric order leaves one ordered permutation only. */
  lemma {:induction false} SortedUnique<T(!new)>(a: seq<T>, b: seq<T>, le: (T, T) -> bool)
    requires TotalPreorder(le) && Antisymmetric(le)
    requires Sorted(a, le) && Sorted(b, le) && multiset(a) == multiset(b)
    ensures a == b
    decreases |a|
  {
    hide TotalPreorder, Antisymmetric, Sorted;
    SameMembers(a, b);
    if a != [] {
      SameHead(a, b, le);
      SortedTail(a, le);
      SortedTail(b, le);
      SortedUnique(a[1..], b[1..], le);
    }
  }

  function MapSeq<A, B>(f: A -> B, s: seq<A>): (r: seq<B>)
    ensures |r| == |s|
    ensures forall i :: 0 <= i < |s| ==> r[i] == f(s[i])
  {
    seq(|s|, i requires 0 <= i < |s| => f(s[i]))
  }

  lemma MoveToFront<T>(b: seq<T>, k: nat)
    requires k < |b|
    ensures multiset(b) == multiset{b[k]} + multiset(b[..k] + b[k + 1..])
    ensures multiset(b[..k] + b[k + 1..]) == multiset(b) - multiset{b[k]}
  {
    assert b == b[..k] + [b[k]] + b[k + 1..];
  }

  lemma MatchFirst<T>(a: seq<T>, b: seq<T>) returns (k: nat)
    requires a != [] && multiset(a) == multiset(b)
    ensures k < |b| && b[k] == a[0]
    ensures multiset(a[..0] + a[1..]) == multiset(b[..k] + b[k + 1..])
    ensures |a[..0] + a[1..]| < |a|
  {
    SameMembers(a, b);
    assert a[0] in b;
    k :| 0 <= k < |b| && b[k] == a[0];
    MoveToFront(a, 0);
    MoveToFront(b, k);
  }

  lemma {:induction false} MapPermutation<A, B>(f: A -> B, a: seq<A>, b: seq<A>)
    requires multiset(a) == multiset(b)
    ensures multiset(MapSeq(f, a)) == multiset(MapSeq(f, b))
    decreases |a|
  {
    if a == [] {
      SameMembers(a, b);
      assert MapSeq(f, a) == MapSeq(f, b);
    } else {
      var k := MatchFirst(a, b);
      MapPermutation(f, a[..0] + a[1..], b[..k] + b[k + 1..]);
      MapRemove(f, a, 0);
      MapRemove(f, b, k);
    }
  }

  lemma MapRemove<A, B>(f: A -> B, b: seq<A>, k: nat)
    requires k < |b|
    ensures multiset(MapSeq(f, b)) == multiset{f(b[k])} + multiset(MapSeq(f, b[..k] + b[k + 1..]))
  {
    MoveToFront(MapSeq(f, b), k);
    assert MapSeq(f, b)[..k] + MapSeq(f, b)[k + 1..] == MapSeq(f, b[..k] + b[k + 1..]);
  }

  /** `0, 1, ..., n - 1`. */
  function Range(n: nat): (r: seq<nat>)
    ensures |r| == n && forall i :: 0 <= i < n ==> r[i] == i
  {
    if n == 0 then [] else Range(n - 1) + [n - 1]
  }

  /** The orderings of `0, ..., n - 1`. */
  ghost predicate IsPermutation(p: seq<nat>, n: nat) {
    multiset(p) == multiset(Range(n))
  }

  /** An element in two places counts twice. */
  lemma TwoPlaces<T>(s: seq<T>, i: nat, j: nat)
    requires i < j < |s| && s[i] == s[j]
    ensures multiset(s)[s[i]] >= 2
  {
    assert s == s[..i] + [s[i]] + s[i + 1..j] + [s[j]] + s[j + 1..];
  }

  lemma {:induction false} RangeCounts(n: nat)
    ensures forall x :: multiset(Range(n))[x] <= 1
  {
    if n > 0 {
      RangeCounts(n - 1);
      assert Range(n) == Range(n - 1) + [n - 1];
      assert multiset(Range(n - 1))[n - 1] == 0 by {
        assert n - 1 !in Range(n - 1);
      }
    } else {
      assert Range(n) == [];
    }
  }

  /** A permutation hits each index below `n` once and nothing else. */
  lemma PermutationFacts(p: seq<nat>, n: nat)
    requires IsPermutation(p, n)
    ensures |p| == n
    ensures forall i :: 0 <= i < n ==> p[i] < n
    ensures forall i, j :: 0 <= i < j < n ==> p[i] != p[j]
    ensures forall x :: 0 <= x < n ==> x in p
  {
    SameMembers(p, Range(n));
    RangeCounts(n);
    forall i | 0 <= i < n ensures p[i] < n {
      assert p[i] in p;
      assert p[i] in Range(n);
    }
    forall i, j | 0 <= i < j < n ensures p[i] != p[j] {
      if p[i] == p[j] {
        TwoPlaces(p, i, j);
      }
    }
    forall x: nat | x < n ensures x in p {
      assert Range(n)[x] == x;
    }
  }

  lemma PositionOf(p: seq<nat>, n: nat, x: nat) returns (k: nat)
    requires IsPermutation(p, n) && x < n
    ensures k < |p| == n && p[k] == x
  {
    PermutationFacts(p, n);
    assert x in p;
    k :| 0 <= k < |p| && p[k] == x;
  }

  ghost predicate Within(p: seq<nat>, n: nat) {
    forall m :: 0 <= m < |p| ==> p[m] < n
  }

  function AlongTo<T>(values: seq<T>, p: seq<nat>, n: nat): (r: seq<T>)
    requires Within(p, |values|) && n <= |p|
    ensures |r| == n
    ensures forall m :: 0 <= m < n ==> r[m] == values[p[m]]
  {
    if n == 0 then [] else AlongTo(values, p, n - 1) + [values[p[n - 1]]]
  }

  /** The values that a sequence of indices visits. */
  function Along<T>(values: seq<T>, p: seq<nat>): (r: seq<T>)
    requires Within(p, |values|)
    ensures |r| == |p|
    ensures forall m {:trigger r[m]} :: 0 <= m < |p| ==> r[m] == values[p[m]]
  {
    AlongTo(values, p, |p|)
  }

  lemma AlongPermutation<T>(values: seq<T>, p: seq<nat>, q: seq<nat>)
    requires Within(p, |values|) && Within(q, |values|)
    requires multiset(p) == multiset(q)
    ensures multiset(Along(values, p)) == multiset(Along(values, q))
  {
    if values == [] {
      assert p == [] && q == [];
    } else {
      var f := (i: nat) => if i < |values| then values[i] else values[0];
      MapPermutation(f, p, q);
      assert Along(values, p) == MapSeq(f, p);
      assert Along(values, q) == MapSeq(f, q);
    }
  }
}
