/** What the elements of a pattern mean, told by the names that patterns take. */
module GlobLaws {
  import opened GlobLanguage
  import opened GlobMatch
  import opened Outcomes

  // ----- Reading does not depend on what stands before

  function Moved(r: Option<Members>, d: int): (m: Option<(seq<Span>, int)>) {
    if r.None? then None else Some((r.value.spans, r.value.next + d))
  }

  lemma MemberMoves(a: string, b: string, s: string, k: nat)
    requires k < |s|
    ensures Member(a + s, |a| + k).0 == Member(b + s, |b| + k).0
    ensures Member(a + s, |a| + k).1 - |a| == Member(b + s, |b| + k).1 - |b|
  {
    assert forall j: nat :: k <= j < |s| ==> (a + s)[|a| + j] == s[j] == (b + s)[|b| + j];
  }

  lemma {:induction false} MembersMove(a: string, b: string, s: string, k: nat, first: bool)
    requires k <= |s|
    ensures Moved(MembersFrom(a + s, |a| + k, first), -|a|) == Moved(MembersFrom(b + s, |b| + k, first), -|b|)
    decreases |s| - k
  {
    hide Member;
    if k < |s| {
      assert (a + s)[|a| + k] == s[k] == (b + s)[|b| + k];
      if s[k] != ']' || first {
        MemberMoves(a, b, s, k);
        MembersMove(a, b, s, Member(a + s, |a| + k).1 - |a|, false);
      }
    }
  }

  lemma SetMoves(a: string, s: string, k: nat)
    requires k < |s|
    ensures Negated(a + s, |a| + k) == Negated(s, k)
    ensures Moved(SetAt(a + s, |a| + k), -|a|) == Moved(SetAt(s, k), 0)
  {
    hide MembersFrom;
    assert k + 1 < |s| ==> (a + s)[|a| + k + 1] == s[k + 1];
    assert "" + s == s;
    MembersMove(a, "", s, if Negated(s, k) then k + 2 else k + 1, true);
  }

  lemma ItemMoves(a: string, s: string, k: nat)
    requires k < |s|
    ensures ItemAt(a + s, |a| + k).0 == ItemAt(s, k).0 && ItemAt(a + s, |a| + k).1 == |a| + ItemAt(s, k).1
  {
    hide SetAt, Negated;
    assert (a + s)[|a| + k] == s[k] && (k + 1 < |s| ==> (a + s)[|a| + (k + 1)] == s[k + 1]);
    SetMoves(a, s, k);
  }

  lemma {:induction false} ItemsMove(a: string, s: string, k: nat)
    requires k <= |s|
    ensures Items(a + s, |a| + k) == Items(s, k)
    decreases |s| - k
  {
    hide ItemAt;
    if k < |s| {
      ItemMoves(a, s, k);
      ItemsMove(a, s, ItemAt(s, k).1);
    }
  }

  // ----- Names piece by piece

  lemma LaterName(items: seq<Item>, name: string, n: nat)
    requires n <= |name|
    ensures Accepts(items, name, n) <==> InLanguage(items, name[n..])
  {
    if Accepts(items, name, n) {
      var pieces := AcceptsDivides(items, name, n);
    }
    if InLanguage(items, name[n..]) {
      var pieces :| Divides(items, pieces, name[n..]);
      DividesAccepts(items, pieces, name, n);
    }
  }

  lemma Front(a: string, s: string)
    requires a != "" && ItemAt(a + s, 0).1 == |a|
    ensures Items(a + s, 0) == [ItemAt(a + s, 0).0] + Items(s, 0)
  {
    hide ItemAt;
    ItemsMove(a, s, 0);
  }

  /** A pattern whose first element takes one character. */
  lemma FrontTakes(a: string, s: string, name: string)
    requires a != "" && ItemAt(a + s, 0).1 == |a| && !ItemAt(a + s, 0).0.Star?
    ensures InLanguage(Items(a + s, 0), name)
      <==> name != "" && Admits(ItemAt(a + s, 0).0, name[0]) && InLanguage(Items(s, 0), name[1..])
  {
    var items, rest := Items(a + s, 0), Items(s, 0);
    Front(a, s);
    hide ItemAt, Items, Admits, InLanguage;
    AcceptsIsLanguage(items, name);
    assert items[1..] == rest;
    if name != "" {
      LaterName(rest, name, 1);
    }
  }

  /** The empty pattern takes the empty name alone. */
  lemma EmptyLaw(name: string)
    ensures InLanguage(Items("", 0), name) <==> name == ""
  {
    AcceptsIsLanguage([], name);
    hide InLanguage;
  }

  /** A star takes any beginning of the name. */
  lemma StarLaw(s: string, name: string)
    ensures InLanguage(Items("*" + s, 0), name) <==> exists k: nat :: k <= |name| && InLanguage(Items(s, 0), name[k..])
  {
    var items, rest := Items("*" + s, 0), Items(s, 0);
    Front("*", s);
    AcceptsIsLanguage(items, name);
    assert items[0] == Star && items[1..] == rest;
    hide ItemAt, Items, InLanguage;
    forall k: nat | k <= |name| ensures Accepts(rest, name, k) <==> InLanguage(rest, name[k..]) {
      LaterName(rest, name, k);
    }
  }

  /** A question mark takes one character, whatever it is. */
  lemma AnyLaw(s: string, name: string)
    ensures InLanguage(Items("?" + s, 0), name) <==> name != "" && InLanguage(Items(s, 0), name[1..])
  {
    FrontTakes("?", s, name);
  }

  /** Any other character, and any character behind a backslash, takes itself. */
  lemma OneLaw(c: char, s: string, name: string)
    ensures c !in "*?[\\" ==>
        (InLanguage(Items([c] + s, 0), name) <==> name != "" && name[0] == c && InLanguage(Items(s, 0), name[1..]))
    ensures InLanguage(Items(['\\', c] + s, 0), name)
      <==> name != "" && name[0] == c && InLanguage(Items(s, 0), name[1..])
  {
    if c !in "*?[\\" {
      FrontTakes([c], s, name);
    }
    FrontTakes(['\\', c], s, name);
  }

  /** A pattern that is one element for one character. */
  lemma Alone(pattern: string, name: string)
    requires pattern != "" && ItemAt(pattern, 0).1 == |pattern| && !ItemAt(pattern, 0).0.Star?
    ensures InLanguage(Items(pattern, 0), name) <==> |name| == 1 && Admits(ItemAt(pattern, 0).0, name[0])
  {
    hide ItemAt, Items, Admits, InLanguage;
    assert pattern + "" == pattern;
    FrontTakes(pattern, "", name);
    if name != "" {
      EmptyLaw(name[1..]);
    }
  }

  // ----- Sets

  /** `s` without its opening bracket is the text of a set, up to the bracket that closes it, and is not negated. */
  predicate SetText(s: string) {
    && s != "" && s[0] != '!' && s[0] != '^'
    && SetAt("[" + s, 0).Some? && SetAt("[" + s, 0).value.next == |s| + 1
  }

  lemma NegatedText(s: string, mark: char)
    requires SetText(s) && (mark == '!' || mark == '^')
    ensures ItemAt(['[', mark] + s, 0).1 == |s| + 2 && ItemAt("[" + s, 0).1 == |s| + 1
    ensures exists spans ::
        ItemAt("[" + s, 0).0 == Set(spans, false) && ItemAt(['[', mark] + s, 0).0 == Set(spans, true)
  {
    hide MembersFrom;
    assert ("[" + s)[1] == s[0] && (['[', mark] + s)[1] == mark;
    MembersMove("[", ['[', mark], s, 0, true);
  }

  /** A negated set takes exactly the one-character names that the set does not take, and no others. */
  lemma ComplementLaw(s: string, mark: char, name: string)
    requires SetText(s) && (mark == '!' || mark == '^')
    ensures InLanguage(Items("[" + s, 0), name) ==> |name| == 1
    ensures InLanguage(Items(['[', mark] + s, 0), name) <==> |name| == 1 && !InLanguage(Items("[" + s, 0), name)
  {
    NegatedText(s, mark);
    hide ItemAt, SetText, Items, InLanguage, InSpans;
    Alone("[" + s, name);
    Alone(['[', mark] + s, name);
  }

  /** A range takes exactly the characters from its first to its last. */
  lemma RangeLaw(x: char, y: char, name: string)
    requires x !in "!^\\" && y != ']'
    ensures SetText([x, '-', y, ']'])
    ensures InLanguage(Items(['[', x, '-', y, ']'], 0), name) <==> |name| == 1 && x <= name[0] <= y
  {
    var pattern: string := ['[', x, '-', y, ']'];
    assert "[" + [x, '-', y, ']'] == pattern;
    assert MembersFrom(pattern, 4, false) == Some(Members([], 5));
    assert Member(pattern, 1) == (Span(x, y), 4);
    assert [Span(x, y)] + [] == [Span(x, y)];
    assert MembersFrom(pattern, 1, true) == Some(Members([Span(x, y)], 5));
    assert !Negated(pattern, 0);
    assert ItemAt(pattern, 0) == (Set([Span(x, y)], false), 5);
    Alone(pattern, name);
    if |name| == 1 {
      assert InSpans(name[0], [Span(x, y)]) <==> x <= name[0] <= y by {
        assert [Span(x, y)][0] == Span(x, y);
      }
    }
  }

  /** Characters without a meaning of their own in a set. */
  predicate PlainText(s: string) {
    forall k :: 0 <= k < |s| ==> s[k] !in "]\\-!^"
  }

  lemma {:induction false} PlainMembers(s: string, k: nat, first: bool) returns (spans: seq<Span>)
    requires PlainText(s) && k <= |s| && (k == |s| ==> !first)
    ensures MembersFrom("[" + s + "]", k + 1, first) == Some(Members(spans, |s| + 2))
    ensures forall c :: InSpans(c, spans) <==> c in s[k..]
    decreases |s| - k
  {
    var pattern := "[" + s + "]";
    assert forall j :: 0 <= j < |s| ==> pattern[j + 1] == s[j];
    if k == |s| {
      spans := [];
    } else {
      var rest := PlainMembers(s, k + 1, false);
      assert Member(pattern, k + 1) == (Span(s[k], s[k]), k + 2);
      spans := [Span(s[k], s[k])] + rest;
      assert s[k..] == [s[k]] + s[k + 1..];
      InFront(s[k], rest);
    }
  }

  lemma InFront(x: char, rest: seq<Span>)
    ensures forall c :: InSpans(c, [Span(x, x)] + rest) <==> c == x || InSpans(c, rest)
  {
    var spans := [Span(x, x)] + rest;
    forall c ensures InSpans(c, spans) <==> c == x || InSpans(c, rest) {
      assert spans[0] == Span(x, x);
      if InSpans(c, rest) {
        var k :| 0 <= k < |rest| && rest[k].lo <= c <= rest[k].hi;
        assert spans[k + 1] == rest[k];
      }
    }
  }

  /** A set of plain characters takes exactly those. */
  lemma ListLaw(s: string, name: string)
    requires PlainText(s) && s != ""
    ensures SetText(s + "]")
    ensures InLanguage(Items("[" + s + "]", 0), name) <==> |name| == 1 && name[0] in s
  {
    var pattern := "[" + s + "]";
    var spans := PlainMembers(s, 0, true);
    assert pattern == "[" + (s + "]") && pattern[1] == s[0] && s[0..] == s;
    hide MembersFrom, InSpans;
    assert ItemAt(pattern, 0) == (Set(spans, false), |s| + 2);
    Alone(pattern, name);
  }
}
