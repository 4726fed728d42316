/** The pattern matcher of `find`, which goes back to its last star only. */
module GlobMatch {
  import opened GlobLanguage
  import opened Outcomes

  // ----- Reading a pattern

  /** The spans of a set up to its closing bracket, and the position after that. */
  datatype Members = Members(spans: seq<Span>, next: nat)

  function Prepend(spans: seq<Span>, rest: Option<Members>): Option<Members> {
    match rest
    case None => None
    case Some(m) => Some(Members(spans + m.spans, m.next))
  }

  /** What one member of a set at `i` stands for, and where the next begins. */
  function Member(pattern: string, i: nat): (m: (Span, nat))
    requires i < |pattern|
    ensures i < m.1 <= |pattern|
  {
    if pattern[i] == '\\' && i + 1 < |pattern| then (Span(pattern[i + 1], pattern[i + 1]), i + 2)
    else if i + 2 < |pattern| && pattern[i + 1] == '-' && pattern[i + 2] != ']' then
      (Span(pattern[i], pattern[i + 2]), i + 3)
    else (Span(pattern[i], pattern[i]), i + 1)
  }

  /** Members from `i` on; a closing bracket in first place is a member. */
  function MembersFrom(pattern: string, i: nat, first: bool): (r: Option<Members>)
    ensures r.Some? ==> i < r.value.next <= |pattern|
    decreases |pattern| - i
  {
    if i >= |pattern| then None
    else if pattern[i] == ']' && !first then Some(Members([], i + 1))
    else Prepend([Member(pattern, i).0], MembersFrom(pattern, Member(pattern, i).1, false))
  }

  predicate Negated(pattern: string, start: nat) {
    start + 1 < |pattern| && (pattern[start + 1] == '!' || pattern[start + 1] == '^')
  }

  function SetAt(pattern: string, start: nat): (r: Option<Members>)
    ensures r.Some? ==> start < r.value.next <= |pattern|
  {
    MembersFrom(pattern, if Negated(pattern, start) then start + 2 else start + 1, true)
  }

  /** The element at `p`, and where the next begins. An unclosed bracket is itself. */
  function ItemAt(pattern: string, p: nat): (r: (Item, nat))
    requires p < |pattern|
    ensures p < r.1 <= |pattern|
  {
    if pattern[p] == '*' then (Star, p + 1)
    else if pattern[p] == '?' then (Any, p + 1)
    else if pattern[p] == '[' && SetAt(pattern, p).Some? then
      (Set(SetAt(pattern, p).value.spans, Negated(pattern, p)), SetAt(pattern, p).value.next)
    else if pattern[p] == '\\' then (if p + 1 < |pattern| then (One(pattern[p + 1]), p + 2) else (Never, p + 1))
    else (One(pattern[p]), p + 1)
  }

  function Items(pattern: string, p: nat): seq<Item>
    decreases |pattern| - p
  {
    if p >= |pattern| then [] else [ItemAt(pattern, p).0] + Items(pattern, ItemAt(pattern, p).1)
  }

  // ----- Sets

  lemma PrependMore(spans: seq<Span>, span: Span, rest: Option<Members>)
    ensures Prepend(spans, Prepend([span], rest)) == Prepend(spans + [span], rest)
  {
    if rest.Some? {
      assert spans + ([span] + rest.value.spans) == (spans + [span]) + rest.value.spans;
    }
  }

  lemma InMore(c: char, spans: seq<Span>, span: Span)
    ensures InSpans(c, spans + [span]) <==> InSpans(c, spans) || span.lo <= c <= span.hi
  {
    var more := spans + [span];
    if InSpans(c, spans) {
      var k :| 0 <= k < |spans| && spans[k].lo <= c <= spans[k].hi;
      assert more[k] == spans[k];
    }
    assert more[|spans|] == span;
  }

  /** Where the scan of a set stands: `spans` are read, `matched` says whether one holds `c`. */
  ghost predicate Scanned(pattern: string, whole: Option<Members>, spans: seq<Span>, c: char, i: nat, first: bool,
      matched: bool) {
    && i <= |pattern| && whole == Prepend(spans, MembersFrom(pattern, i, first))
    && (matched <==> InSpans(c, spans))
  }

  lemma ScanStep(pattern: string, whole: Option<Members>, spans: seq<Span>, c: char, i: nat, first: bool, matched: bool,
      now: bool)
    requires Scanned(pattern, whole, spans, c, i, first, matched)
    requires i < |pattern| && (pattern[i] == ']' ==> first)
    requires now <==> matched || Member(pattern, i).0.lo <= c <= Member(pattern, i).0.hi
    ensures Scanned(pattern, whole, spans + [Member(pattern, i).0], c, Member(pattern, i).1, false, now)
  {
    hide InSpans;
    PrependMore(spans, Member(pattern, i).0, MembersFrom(pattern, Member(pattern, i).1, false));
    InMore(c, spans, Member(pattern, i).0);
  }

  /** One `[...]` against `c`: the position past it, whether `c` is in it, whether it is a set at all. */
  method GlobBracket(pattern: string, start: nat, c: char) returns (next: nat, matches: bool, ok: bool)
    requires start < |pattern|
    ensures ok <==> SetAt(pattern, start).Some?
    ensures ok ==> next == SetAt(pattern, start).value.next
    ensures ok ==> (matches <==> Admits(Set(SetAt(pattern, start).value.spans, Negated(pattern, start)), c))
    ensures !ok ==> next == start && !matches
  {
    var i := start + 1;
    var negated := false;
    if i < |pattern| && (pattern[i] == '!' || pattern[i] == '^') {
      negated := true;
      i := i + 1;
    }
    var matched, first := false, true;
    ghost var whole, spans: seq<Span> := SetAt(pattern, start), [];
    assert whole == Prepend([], MembersFrom(pattern, i, true)) by {
      EmptyPrepend(MembersFrom(pattern, i, true));
    }
    while i < |pattern|
      invariant Scanned(pattern, whole, spans, c, i, first, matched)
      decreases |pattern| - i
    {
      if pattern[i] == ']' && !first {
        assert spans + [] == spans;
        return i + 1, matched != negated, true;
      }
      ghost var was, before, wasFirst := i, matched, first;
      first := false;
      if pattern[i] == '\\' && i + 1 < |pattern| {
        i := i + 1;
        if pattern[i] == c {
          matched := true;
        }
        i := i + 1;
      } else if i + 2 < |pattern| && pattern[i + 1] == '-' && pattern[i + 2] != ']' {
        if c >= pattern[i] && c <= pattern[i + 2] {
          matched := true;
        }
        i := i + 3;
      } else {
        if pattern[i] == c {
          matched := true;
        }
        i := i + 1;
      }
      ScanStep(pattern, whole, spans, c, was, wasFirst, before, matched);
      spans := spans + [Member(pattern, was).0];
    }
    return start, false, false;
  }

  lemma EmptyPrepend(rest: Option<Members>)
    ensures rest == Prepend([], rest)
  {
    if rest.Some? {
      assert [] + rest.value.spans == rest.value.spans;
    }
  }

  // ----- The search

  /** The pattern from `p` on takes the name from `n` on. */
  ghost predicate Takes(pattern: string, p: nat, name: string, n: nat) {
    Accepts(Items(pattern, p), name, n)
  }

  /** The last star could still take more: the pattern `after` it takes the name from some position past `mark`. */
  ghost predicate Later(pattern: string, name: string, after: nat, mark: nat) {
    exists k: nat :: mark < k <= |name| && Takes(pattern, after, name, k)
  }

  /** Between the star and `p` stand elements that each take one character, `step` in all. */
  ghost predicate Carried(pattern: string, name: string, after: nat, mark: nat, p: nat, step: nat) {
    forall k: nat :: mark < k <= |name| && Takes(pattern, after, name, k)
      ==> (k + step <= |name| && Takes(pattern, p, name, k + step))
  }

  ghost predicate Searching(pattern: string, name: string, p: nat, n: nat, star: int, mark: nat) {
    && p <= |pattern| && mark <= n <= |name| && -1 <= star < |pattern| && star < p
    && (Takes(pattern, 0, name, 0)
        <==> Takes(pattern, p, name, n) || (star >= 0 && Later(pattern, name, star + 1, mark)))
    && (star >= 0 ==> Carried(pattern, name, star + 1, mark, p, n - mark))
  }

  lemma ItemsStep(pattern: string, p: nat)
    requires p < |pattern|
    ensures Items(pattern, p) != [] && Items(pattern, p)[0] == ItemAt(pattern, p).0
    ensures Items(pattern, p)[1..] == Items(pattern, ItemAt(pattern, p).1)
  {
    hide ItemAt;
  }

  lemma TakesOne(pattern: string, p: nat, name: string, n: nat)
    requires p < |pattern| && !ItemAt(pattern, p).0.Star?
    ensures Takes(pattern, p, name, n)
      <==> n < |name| && Admits(ItemAt(pattern, p).0, name[n]) && Takes(pattern, ItemAt(pattern, p).1, name, n + 1)
  {
    hide ItemAt, Items, Admits;
    ItemsStep(pattern, p);
  }

  lemma TakesStar(pattern: string, p: nat, name: string, n: nat)
    requires p < |pattern| && ItemAt(pattern, p).0.Star?
    ensures Takes(pattern, p, name, n)
      <==> exists k: nat :: n <= k <= |name| && Takes(pattern, ItemAt(pattern, p).1, name, k)
  {
    hide ItemAt, Items, Admits;
    ItemsStep(pattern, p);
    var tail := Items(pattern, ItemAt(pattern, p).1);
    if Takes(pattern, p, name, n) {
      assert Accepts(Items(pattern, p), name, n);
      var k: nat :| n <= k <= |name| && Accepts(tail, name, k);
      assert Takes(pattern, ItemAt(pattern, p).1, name, k);
    }
    if k: nat :| n <= k <= |name| && Takes(pattern, ItemAt(pattern, p).1, name, k) {
      assert Accepts(tail, name, k);
    }
  }

  lemma StarIsStar(pattern: string, p: nat)
    requires p < |pattern| && pattern[p] == '*'
    ensures ItemAt(pattern, p) == (Star, p + 1)
  {
  }

  /** A new star makes the old one's choices redundant. */
  lemma StarStep(pattern: string, name: string, p: nat, n: nat, star: int, mark: nat)
    requires Searching(pattern, name, p, n, star, mark) && p < |pattern| && pattern[p] == '*'
    ensures Searching(pattern, name, p + 1, n, p, n)
  {
    hide ItemAt, Takes;
    StarIsStar(pattern, p);
    TakesStar(pattern, p, name, n);
    if star >= 0 && Later(pattern, name, star + 1, mark) {
      var after: nat := star + 1;
      var k: nat :| mark < k <= |name| && Takes(pattern, after, name, k);
      TakesStar(pattern, p, name, k + (n - mark));
    }
  }

  lemma CharStep(pattern: string, name: string, p: nat, n: nat, star: int, mark: nat)
    requires Searching(pattern, name, p, n, star, mark) && p < |pattern| && n < |name|
    requires !ItemAt(pattern, p).0.Star? && Admits(ItemAt(pattern, p).0, name[n])
    ensures Searching(pattern, name, ItemAt(pattern, p).1, n + 1, star, mark)
  {
    hide ItemAt, Takes, Later, Admits;
    TakesOne(pattern, p, name, n);
    if star >= 0 {
      var after: nat, next := star + 1, ItemAt(pattern, p).1;
      forall k: nat | mark < k <= |name| && Takes(pattern, after, name, k)
        ensures k + (n + 1 - mark) <= |name| && Takes(pattern, next, name, k + (n + 1 - mark))
      {
        TakesOne(pattern, p, name, k + (n - mark));
      }
    }
  }

  /** The element at `p` does not take the character at `n`, or there is none. */
  ghost predicate Misses(pattern: string, p: nat, name: string, n: nat) {
    n < |name| && (p < |pattern| ==> !ItemAt(pattern, p).0.Star? && !Admits(ItemAt(pattern, p).0, name[n]))
  }

  lemma MissTakes(pattern: string, p: nat, name: string, n: nat)
    requires Misses(pattern, p, name, n) && p <= |pattern|
    ensures !Takes(pattern, p, name, n)
  {
    hide ItemAt;
    if p < |pattern| {
      TakesOne(pattern, p, name, n);
    }
  }

  lemma GiveUp(pattern: string, name: string, p: nat, n: nat, star: int, mark: nat)
    requires Searching(pattern, name, p, n, star, mark) && Misses(pattern, p, name, n) && star < 0
    ensures !Takes(pattern, 0, name, 0)
  {
    hide Takes;
    MissTakes(pattern, p, name, n);
  }

  lemma BackStep(pattern: string, name: string, p: nat, n: nat, star: int, mark: nat)
    requires Searching(pattern, name, p, n, star, mark) && Misses(pattern, p, name, n) && star >= 0
    ensures Searching(pattern, name, star + 1, mark + 1, star, mark + 1)
  {
    hide Takes;
    MissTakes(pattern, p, name, n);
  }

  lemma {:induction false} StarsAtEnd(pattern: string, p: nat, name: string)
    requires p <= |pattern|
    ensures Takes(pattern, p, name, |name|) <==> forall k :: p <= k < |pattern| ==> pattern[k] == '*'
    decreases |pattern| - p
  {
    if p < |pattern| {
      if pattern[p] == '*' {
        StarIsStar(pattern, p);
        hide ItemAt, Takes;
        TakesStar(pattern, p, name, |name|);
        StarsAtEnd(pattern, p + 1, name);
      } else {
        TakesOne(pattern, p, name, |name|);
      }
    }
  }

  lemma SearchEnds(pattern: string, name: string, p: nat, star: int, mark: nat)
    requires Searching(pattern, name, p, |name|, star, mark)
    ensures Takes(pattern, 0, name, 0) <==> forall k :: p <= k < |pattern| ==> pattern[k] == '*'
  {
    hide Takes;
    StarsAtEnd(pattern, p, name);
  }

  /** One character of the pattern against one of the name, other than at a star. */
  method TakeChar(pattern: string, p: nat, c: char) returns (taken: bool, next: nat)
    requires p < |pattern| && pattern[p] != '*'
    ensures !ItemAt(pattern, p).0.Star? && (taken <==> Admits(ItemAt(pattern, p).0, c))
    ensures taken ==> next == ItemAt(pattern, p).1
  {
    next := p + 1;
    if pattern[p] == '?' {
      return true, p + 1;
    }
    if pattern[p] == '[' {
      var after, matched, ok := GlobBracket(pattern, p, c);
      if ok {
        return matched, after;
      }
    }
    if pattern[p] == '\\' {
      return p + 1 < |pattern| && pattern[p + 1] == c, p + 2;
    }
    return pattern[p] == c, p + 1;
  }

  /** The whole loop: it answers whether `name` is in the language of `pattern`. */
  method GlobMatch(pattern: string, name: string) returns (found: bool)
    ensures found <==> InLanguage(Items(pattern, 0), name)
  {
    hide InLanguage, Items, ItemAt, Admits, Searching, Accepts;
    AcceptsIsLanguage(Items(pattern, 0), name);
    var p: nat, n: nat := 0, 0;
    var star: int, mark: nat := -1, 0;
    StartSearch(pattern, name);
    while n < |name|
      invariant p <= |pattern| && mark <= n <= |name| && -1 <= star < p
      invariant Searching(pattern, name, p, n, star, mark)
      decreases |name| - mark, |pattern| - star, |name| - n
    {
      if p < |pattern| {
        if pattern[p] == '*' {
          StarStep(pattern, name, p, n, star, mark);
          star, mark := p, n;
          p := p + 1;
          continue;
        }
        var taken, next := TakeChar(pattern, p, name[n]);
        if taken {
          CharStep(pattern, name, p, n, star, mark);
          p, n := next, n + 1;
          continue;
        }
      }
      if star < 0 {
        GiveUp(pattern, name, p, n, star, mark);
        return false;
      }
      BackStep(pattern, name, p, n, star, mark);
      p := star + 1;
      mark := mark + 1;
      n := mark;
    }
    SearchEnds(pattern, name, p, star, mark);
    while p < |pattern| && pattern[p] == '*'
      invariant p <= |pattern|
      invariant Takes(pattern, 0, name, 0) <==> forall k :: p <= k < |pattern| ==> pattern[k] == '*'
    {
      p := p + 1;
    }
    return p == |pattern|;
  }

  lemma StartSearch(pattern: string, name: string)
    ensures Searching(pattern, name, 0, 0, -1, 0)
  {
  }
}
