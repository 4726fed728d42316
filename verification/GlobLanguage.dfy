/** What a pattern of wildcards means, without rules for path separators. */
module GlobLanguage {

  /** Characters from `lo` to `hi`. */
  datatype Span = Span(lo: char, hi: char)

  /** One element of a pattern. `Never` is an element that no character satisfies. */
  datatype Item = Star | Any | One(c: char) | Set(spans: seq<Span>, negated: bool) | Never

  predicate InSpans(c: char, spans: seq<Span>) {
    exists k :: 0 <= k < |spans| && spans[k].lo <= c <= spans[k].hi
  }

  /** An element that takes one character takes this one. */
  predicate Admits(item: Item, c: char) {
    match item
    case Star => false
    case Any => true
    case One(x) => c == x
    case Set(spans, negated) => InSpans(c, spans) != negated
    case Never => false
  }

  function Concat(pieces: seq<string>): string {
    if pieces == [] then "" else pieces[0] + Concat(pieces[1..])
  }

  predicate Fits(item: Item, piece: string) {
    item.Star? || (|piece| == 1 && Admits(item, piece[0]))
  }

  /** `name` falls into pieces, one for each element: anything for a star, else one admitted character. */
  ghost predicate Divides(items: seq<Item>, pieces: seq<string>, name: string) {
    && |pieces| == |items| && Concat(pieces) == name
    && forall k :: 0 <= k < |items| ==> Fits(items[k], pieces[k])
  }

  ghost predicate InLanguage(items: seq<Item>, name: string) {
    exists pieces :: Divides(items, pieces, name)
  }

  /** The same from position `n` of the name on, one element at a time. */
  ghost predicate Accepts(items: seq<Item>, name: string, n: nat)
    decreases |items|
  {
    if items == [] then n == |name|
    else if items[0].Star? then exists k: nat :: n <= k <= |name| && Accepts(items[1..], name, k)
    else n < |name| && Admits(items[0], name[n]) && Accepts(items[1..], name, n + 1)
  }

  lemma {:induction false} AcceptsDivides(items: seq<Item>, name: string, n: nat) returns (pieces: seq<string>)
    requires n <= |name| && Accepts(items, name, n)
    ensures Divides(items, pieces, name[n..])
    decreases |items|
  {
    if items == [] {
      pieces := [];
      return;
    }
    var k: nat;
    if items[0].Star? {
      k :| n <= k <= |name| && Accepts(items[1..], name, k);
    } else {
      k := n + 1;
    }
    var rest := AcceptsDivides(items[1..], name, k);
    pieces := [name[n..k]] + rest;
    assert name[n..] == name[n..k] + name[k..];
    DividesCons(items, name[n..k], rest, name[n..]);
  }

  lemma DividesCons(items: seq<Item>, piece: string, rest: seq<string>, name: string)
    requires items != [] && |rest| == |items| - 1 && name == piece + Concat(rest) && Fits(items[0], piece)
    requires forall k :: 0 <= k < |rest| ==> Fits(items[1..][k], rest[k])
    ensures Divides(items, [piece] + rest, name)
  {
    var pieces := [piece] + rest;
    assert pieces[1..] == rest;
    forall k | 0 <= k < |items| ensures Fits(items[k], pieces[k]) {
      assert k > 0 ==> items[1..][k - 1] == items[k] && pieces[k] == rest[k - 1];
    }
  }

  lemma {:induction false} DividesAccepts(items: seq<Item>, pieces: seq<string>, name: string, n: nat)
    requires n <= |name| && Divides(items, pieces, name[n..])
    ensures Accepts(items, name, n)
    decreases |items|
  {
    if items != [] {
      var k := n + |pieces[0]|;
      assert name[n..] == pieces[0] + Concat(pieces[1..]);
      assert name[n..][|pieces[0]|..] == name[k..];
      assert name[n..][|pieces[0]|..] == Concat(pieces[1..]);
      DividesTail(items, pieces);
      DividesAccepts(items[1..], pieces[1..], name, k);
      assert Fits(items[0], pieces[0]);
      if !items[0].Star? {
        assert pieces[0][0] == name[n..][0];
      }
    }
  }

  lemma DividesTail(items: seq<Item>, pieces: seq<string>)
    requires items != [] && |pieces| == |items|
    requires forall k :: 0 <= k < |items| ==> Fits(items[k], pieces[k])
    ensures forall k :: 0 <= k < |items[1..]| ==> Fits(items[1..][k], pieces[1..][k])
  {
  }

  /** The two readings agree. */
  lemma AcceptsIsLanguage(items: seq<Item>, name: string)
    ensures Accepts(items, name, 0) <==> InLanguage(items, name)
  {
    assert name[0..] == name;
    if Accepts(items, name, 0) {
      var pieces := AcceptsDivides(items, name, 0);
    }
    if InLanguage(items, name) {
      var pieces :| Divides(items, pieces, name);
      DividesAccepts(items, pieces, name, 0);
    }
  }
}
