/** The recursive pattern matcher of `tar --exclude`, and where it agrees with that of `find`. */
module TarMatch {
  import opened GlobLanguage
  import opened GlobMatch
  import opened Outcomes

  // ----- Reading a pattern

  /** The first `c` from `i` on, or the end. */
  function IndexOf(s: string, c: char, i: nat): (k: nat)
    requires i <= |s|
    ensures i <= k <= |s| && (k < |s| ==> s[k] == c)
    ensures forall j :: i <= j < k ==> s[j] != c
    decreases |s| - i
  {
    if i == |s| || s[i] == c then i else IndexOf(s, c, i + 1)
  }

  /** Sets here have no escapes, and end at the first closing bracket. */
  function TarSpans(chars: string, i: nat): seq<Span>
    decreases |chars| - i
  {
    if i >= |chars| then []
    else if i + 2 < |chars| && chars[i + 1] == '-' then [Span(chars[i], chars[i + 2])] + TarSpans(chars, i + 3)
    else [Span(chars[i], chars[i])] + TarSpans(chars, i + 1)
  }

  predicate Denied(chars: string) {
    |chars| > 0 && (chars[0] == '!' || chars[0] == '^')
  }

  function TarSet(chars: string): Item {
    Set(TarSpans(if Denied(chars) then chars[1..] else chars, 0), Denied(chars))
  }

  function TarItemAt(pattern: string, p: nat): (r: (Item, nat))
    requires p < |pattern|
    ensures p < r.1 <= |pattern|
  {
    if pattern[p] == '[' then
      var end := IndexOf(pattern, ']', p + 1);
      if end == |pattern| then (One('['), p + 1) else (TarSet(pattern[p + 1..end]), end + 1)
    else ItemAt(pattern, p)
  }

  function TarItems(pattern: string, p: nat): seq<Item>
    decreases |pattern| - p
  {
    if p >= |pattern| then [] else [TarItemAt(pattern, p).0] + TarItems(pattern, TarItemAt(pattern, p).1)
  }

  // ----- The matcher

  ghost predicate TarTakes(pattern: string, p: nat, name: string, s: nat) {
    Accepts(TarItems(pattern, p), name, s)
  }

  lemma TarItemsStep(pattern: string, p: nat)
    requires p < |pattern|
    ensures TarItems(pattern, p) != [] && TarItems(pattern, p)[0] == TarItemAt(pattern, p).0
    ensures TarItems(pattern, p)[1..] == TarItems(pattern, TarItemAt(pattern, p).1)
  {
    hide TarItemAt;
  }

  lemma TarTakesOne(pattern: string, p: nat, name: string, s: nat)
    requires p < |pattern| && !TarItemAt(pattern, p).0.Star?
    ensures TarTakes(pattern, p, name, s) <==> (s < |name| && Admits(TarItemAt(pattern, p).0, name[s])
      && TarTakes(pattern, TarItemAt(pattern, p).1, name, s + 1))
  {
    hide TarItemAt, TarItems, Admits;
    TarItemsStep(pattern, p);
  }

  lemma TarTakesStar(pattern: string, p: nat, next: nat, name: string, s: nat)
    requires p < |pattern| && pattern[p] == '*' && next == p + 1
    ensures TarTakes(pattern, p, name, s) <==> exists k: nat :: s <= k <= |name| && TarTakes(pattern, next, name, k)
  {
    assert TarItemAt(pattern, p) == (Star, p + 1);
    hide TarItemAt, TarItems, Admits;
    TarItemsStep(pattern, p);
    var tail := TarItems(pattern, p + 1);
    if TarTakes(pattern, p, name, s) {
      assert Accepts(TarItems(pattern, p), name, s);
      var k: nat :| s <= k <= |name| && Accepts(tail, name, k);
      assert TarTakes(pattern, next, name, k);
    }
    if k: nat :| s <= k <= |name| && TarTakes(pattern, next, name, k) {
      assert Accepts(tail, name, k);
    }
  }

  ghost predicate SpansRead(chars: string, c: char, spans: seq<Span>, i: nat, found: bool) {
    spans + TarSpans(chars, i) == TarSpans(chars, 0) && (found <==> InSpans(c, spans))
  }

  lemma SpanStep(chars: string, c: char, spans: seq<Span>, i: nat, found: bool, span: Span, next: nat)
    requires SpansRead(chars, c, spans, i, found) && TarSpans(chars, i) == [span] + TarSpans(chars, next)
    ensures SpansRead(chars, c, spans + [span], next, found || span.lo <= c <= span.hi)
  {
    hide InSpans;
    InMore(c, spans, span);
    assert spans + ([span] + TarSpans(chars, next)) == (spans + [span]) + TarSpans(chars, next);
  }

  method FindInSet(chars: string, c: char) returns (found: bool)
    ensures found <==> InSpans(c, TarSpans(chars, 0))
  {
    found := false;
    var i := 0;
    ghost var spans: seq<Span> := [];
    assert spans + TarSpans(chars, 0) == TarSpans(chars, 0);
    while i < |chars|
      invariant SpansRead(chars, c, spans, i, found)
      decreases |chars| - i
    {
      if i + 2 < |chars| && chars[i + 1] == '-' {
        SpanStep(chars, c, spans, i, found, Span(chars[i], chars[i + 2]), i + 3);
        spans := spans + [Span(chars[i], chars[i + 2])];
        if c >= chars[i] && c <= chars[i + 2] {
          found := true;
        }
        i := i + 3;
      } else {
        SpanStep(chars, c, spans, i, found, Span(chars[i], chars[i]), i + 1);
        spans := spans + [Span(chars[i], chars[i])];
        if chars[i] == c {
          found := true;
        }
        i := i + 1;
      }
    }
    assert spans + [] == spans;
  }

  /** One element other than a star against the next character, if there is one. */
  method TarTakeChar(pattern: string, p: nat, name: string, s: nat) returns (taken: bool, next: nat)
    requires p < |pattern| && pattern[p] != '*' && s <= |name|
    ensures !TarItemAt(pattern, p).0.Star?
    ensures taken <==> s < |name| && Admits(TarItemAt(pattern, p).0, name[s])
    ensures taken ==> next == TarItemAt(pattern, p).1
  {
    if s == |name| {
      return false, p;
    }
    next := p + 1;
    if pattern[p] == '[' {
      var end := IndexOf(pattern, ']', p + 1);
      if end < |pattern| {
        var chars := pattern[p + 1..end];
        var negate := |chars| > 0 && (chars[0] == '!' || chars[0] == '^');
        var found := FindInSet(if negate then chars[1..] else chars, name[s]);
        return found != negate, end + 1;
      }
      return name[s] == '[', p + 1;
    }
    if pattern[p] == '?' {
      return true, p + 1;
    }
    if pattern[p] == '\\' {
      return p + 1 < |pattern| && pattern[p + 1] == name[s], p + 2;
    }
    return pattern[p] == name[s], p + 1;
  }

  /** The pattern from `from` on against the name from `at` on, trying every length for every star. */
  method MatchFrom(pattern: string, from: nat, name: string, at: nat) returns (found: bool)
    requires from <= |pattern| && at <= |name|
    ensures found <==> TarTakes(pattern, from, name, at)
    decreases |pattern| - from, 1
  {
    hide TarItemAt, TarItems, Admits, TarTakes;
    var p: nat, s: nat := from, at;
    while p < |pattern|
      invariant from <= p <= |pattern| && s <= |name|
      invariant TarTakes(pattern, from, name, at) <==> TarTakes(pattern, p, name, s)
      decreases |pattern| - p
    {
      if pattern[p] == '*' {
        found := TryLengths(pattern, p, name, s);
        return;
      }
      var taken, next := TarTakeChar(pattern, p, name, s);
      TarTakesOne(pattern, p, name, s);
      if !taken {
        return false;
      }
      p, s := next, s + 1;
    }
    TarTakesNone(pattern, p, name, s);
    return s == |name|;
  }

  lemma TarTakesNone(pattern: string, p: nat, name: string, s: nat)
    requires p >= |pattern|
    ensures TarTakes(pattern, p, name, s) <==> s == |name|
  {
  }

  method TryLengths(pattern: string, p: nat, name: string, s: nat) returns (found: bool)
    requires p < |pattern| && pattern[p] == '*' && s <= |name|
    ensures found <==> TarTakes(pattern, p, name, s)
    decreases |pattern| - p, 0
  {
    hide TarTakes;
    var i, next: nat := s, p + 1;
    TarTakesStar(pattern, p, next, name, s);
    while i <= |name|
      invariant s <= i <= |name| + 1
      invariant forall k: nat :: s <= k < i ==> !TarTakes(pattern, next, name, k)
    {
      found := MatchFrom(pattern, next, name, i);
      if found {
        return;
      }
      i := i + 1;
    }
    return false;
  }

  /** The empty pattern excludes nothing; any other excludes its language. */
  method TarPatternMatch(pattern: string, name: string) returns (found: bool)
    ensures found <==> pattern != "" && InLanguage(TarItems(pattern, 0), name)
  {
    if pattern == "" {
      return false;
    }
    AcceptsIsLanguage(TarItems(pattern, 0), name);
    found := MatchFrom(pattern, 0, name, 0);
  }

  // ----- Sets that both matchers read alike

  /** No member of the set text up to `end` begins with a backslash. */
  predicate PlainMembers(pattern: string, i: nat, end: nat)
    requires end <= |pattern|
    decreases end - i
  {
    i >= end
    || (pattern[i] != '\\'
        && PlainMembers(pattern, if i + 2 < end && pattern[i + 1] == '-' then i + 3 else i + 1, end))
  }

  function SetStart(pattern: string, p: nat): nat {
    if Negated(pattern, p) then p + 2 else p + 1
  }

  /** A bracket that is never closed, or closes a set with plain members and at least one. */
  predicate PlainSet(pattern: string, p: nat)
    requires p < |pattern|
  {
    var end := IndexOf(pattern, ']', p + 1);
    end < |pattern| ==> SetStart(pattern, p) < end && PlainMembers(pattern, SetStart(pattern, p), end)
  }

  predicate PlainSets(pattern: string, p: nat)
    decreases |pattern| - p
  {
    p < |pattern| ==> (pattern[p] == '[' ==> PlainSet(pattern, p)) && PlainSets(pattern, TarItemAt(pattern, p).1)
  }

  /** `chars` is the set text of the pattern from `start` up to the first closing bracket. */
  ghost predicate SetText(pattern: string, start: nat, end: nat, chars: string) {
    start <= end < |pattern| && pattern[end] == ']' && chars == pattern[start..end] && ']' !in chars
  }

  /** Where a set text has a plain member, both read the same one. */
  lemma PlainMember(pattern: string, start: nat, end: nat, chars: string, k: nat)
    requires SetText(pattern, start, end, chars) && k < |chars| && chars[k] != '\\'
    ensures pattern[start + k] == chars[k] != ']' && start + k < Member(pattern, start + k).1 <= end
    ensures TarSpans(chars, k) == [Member(pattern, start + k).0] + TarSpans(chars, Member(pattern, start + k).1 - start)
    ensures PlainMembers(pattern, start + k, end) == PlainMembers(pattern, Member(pattern, start + k).1, end)
  {
    assert forall i :: 0 <= i < |chars| ==> chars[i] == pattern[start + i];
    assert start + k + 2 == end ==> pattern[start + k + 2] == ']';
  }

  lemma {:induction false} PlainRead(pattern: string, start: nat, end: nat, chars: string, k: nat, first: bool)
    requires SetText(pattern, start, end, chars) && k <= |chars| && PlainMembers(pattern, start + k, end)
    requires first ==> k < |chars|
    ensures MembersFrom(pattern, start + k, first) == Some(Members(TarSpans(chars, k), end + 1))
    decreases |chars| - k
  {
    hide Member;
    if k < |chars| {
      assert chars[k] == pattern[start + k] != ']';
      var (span, next) := Member(pattern, start + k);
      PlainMember(pattern, start, end, chars, k);
      assert MembersFrom(pattern, start + k, first) == Prepend([span], MembersFrom(pattern, next, false));
      hide TarSpans, PlainMembers, MembersFrom;
      PlainRead(pattern, start, end, chars, next - start, false);
    }
  }

  /** A reader that takes two backslashes at a time, and one that takes them singly, never meet again. */
  lemma {:induction false} LagDiffers(pattern: string, start: nat, end: nat, chars: string, k: nat, j: nat)
    requires SetText(pattern, start, end, chars) && k < j <= |chars|
    requires forall i :: k <= i < j ==> chars[i] == '\\'
    ensures MembersFrom(pattern, start + j, false).Some?
      ==> MembersFrom(pattern, start + j, false).value.spans != TarSpans(chars, k)
    decreases |chars| - j
  {
    assert TarSpans(chars, k)[0].lo == '\\';
    if j < |chars| && chars[j] == '\\' && pattern[start + j + 1] == '\\' {
      assert j + 1 < |chars| by {
        assert pattern[end] != '\\';
      }
      LagDiffers(pattern, start, end, chars, k + 1, j + 2);
      assert TarSpans(chars, k)[1..] == TarSpans(chars, k + 1);
    }
  }

  lemma {:induction false} EscapedRead(pattern: string, start: nat, end: nat, chars: string, k: nat, first: bool)
    requires SetText(pattern, start, end, chars) && k <= |chars| && !PlainMembers(pattern, start + k, end)
    ensures MembersFrom(pattern, start + k, first).Some?
      ==> MembersFrom(pattern, start + k, first).value.spans != TarSpans(chars, k)
    decreases |chars| - k
  {
    var (span, next) := Member(pattern, start + k);
    var rest := MembersFrom(pattern, next, false);
    assert chars[k] == pattern[start + k] != ']';
    assert MembersFrom(pattern, start + k, first) == Prepend([span], rest);
    if chars[k] != '\\' {
      hide Member;
      PlainMember(pattern, start, end, chars, k);
      hide TarSpans, PlainMembers;
      EscapedRead(pattern, start, end, chars, next - start, false);
      hide MembersFrom;
      if rest.Some? {
        TailsDiffer(span, rest.value.spans, TarSpans(chars, next - start));
      }
    } else {
      EscapeRead(pattern, start, end, chars, k);
    }
  }

  lemma TailsDiffer(span: Span, a: seq<Span>, b: seq<Span>)
    requires a != b
    ensures [span] + a != [span] + b
  {
    assert ([span] + a)[1..] == a && ([span] + b)[1..] == b;
  }

  /** A member that begins with a backslash is another for each, or else the rest is. */
  lemma EscapeRead(pattern: string, start: nat, end: nat, chars: string, k: nat)
    requires SetText(pattern, start, end, chars) && k < |chars| && chars[k] == '\\'
    ensures var (span, next) := Member(pattern, start + k); var rest := MembersFrom(pattern, next, false);
      rest.Some? ==> [span] + rest.value.spans != TarSpans(chars, k)
  {
    var (span, next) := Member(pattern, start + k);
    assert chars[k] == pattern[start + k];
    assert TarSpans(chars, k)[0].lo == '\\';
    if MembersFrom(pattern, next, false).Some? && pattern[start + k + 1] == '\\' {
      assert k + 1 < |chars| by {
        assert pattern[end] != '\\';
      }
      assert chars[k + 1] == pattern[start + k + 1];
      LagDiffers(pattern, start, end, chars, k + 1, k + 2);
      assert TarSpans(chars, k)[1..] == TarSpans(chars, k + 1);
      assert ([span] + MembersFrom(pattern, next, false).value.spans)[1..]
        == MembersFrom(pattern, next, false).value.spans;
    }
  }

  lemma {:induction false} UnclosedRead(pattern: string, i: nat, first: bool)
    requires forall k :: i <= k < |pattern| ==> pattern[k] != ']'
    ensures MembersFrom(pattern, i, first) == None
    decreases |pattern| - i
  {
    if i < |pattern| {
      UnclosedRead(pattern, Member(pattern, i).1, false);
    }
  }

  lemma SetTextAt(pattern: string, p: nat, end: nat)
    requires p < |pattern| && pattern[p] == '[' && end == IndexOf(pattern, ']', p + 1) < |pattern|
    ensures SetText(pattern, SetStart(pattern, p), end, pattern[SetStart(pattern, p)..end])
    ensures TarItemAt(pattern, p)
      == (Set(TarSpans(pattern[SetStart(pattern, p)..end], 0), Negated(pattern, p)), end + 1)
  {
    hide TarSpans;
    var text := pattern[p + 1..end];
    assert Denied(text) <==> Negated(pattern, p);
    assert pattern[SetStart(pattern, p)..end] == if Denied(text) then text[1..] else text;
  }

  /** A set is read alike, or already its element differs. */
  lemma SetRead(pattern: string, p: nat)
    requires p < |pattern| && pattern[p] == '['
    ensures PlainSet(pattern, p) ==> TarItemAt(pattern, p) == ItemAt(pattern, p)
    ensures !PlainSet(pattern, p) ==> TarItemAt(pattern, p).0 != ItemAt(pattern, p).0
  {
    hide TarSpans, MembersFrom, PlainMembers;
    var end, start := IndexOf(pattern, ']', p + 1), SetStart(pattern, p);
    if end == |pattern| {
      UnclosedRead(pattern, start, true);
    } else {
      SetTextAt(pattern, p, end);
      hide TarItemAt;
      if start == end {
        EmptyRead(pattern, p, end);
      } else if PlainMembers(pattern, start, end) {
        PlainRead(pattern, start, end, pattern[start..end], 0, true);
      } else {
        EscapedRead(pattern, start, end, pattern[start..end], 0, true);
      }
    }
  }

  /** A bracket that closes at once is a member for one matcher and the end for the other. */
  lemma EmptyRead(pattern: string, p: nat, end: nat)
    requires p < |pattern| && SetStart(pattern, p) == end < |pattern|
    ensures TarSpans(pattern[end..end], 0) == []
    ensures SetAt(pattern, p).Some? ==> SetAt(pattern, p).value.spans != []
  {
    hide Member;
  }

  /** Both matchers read a pattern alike if and only if its sets are plain. */
  lemma {:induction false} SameReading(pattern: string, p: nat)
    ensures TarItems(pattern, p) == Items(pattern, p) <==> PlainSets(pattern, p)
    decreases |pattern| - p
  {
    hide PlainSet, TarItemAt, ItemAt;
    if p < |pattern| {
      if pattern[p] == '[' {
        SetRead(pattern, p);
      } else {
        OtherRead(pattern, p);
      }
      SameReading(pattern, TarItemAt(pattern, p).1);
      assert TarItems(pattern, p)[1..] == TarItems(pattern, TarItemAt(pattern, p).1);
      assert Items(pattern, p)[1..] == Items(pattern, ItemAt(pattern, p).1);
    }
  }

  lemma OtherRead(pattern: string, p: nat)
    requires p < |pattern| && pattern[p] != '['
    ensures TarItemAt(pattern, p) == ItemAt(pattern, p)
  {
  }

  // ----- Agreement

  lemma {:induction false} NoSetsPlain(pattern: string, p: nat)
    requires '[' !in pattern
    ensures PlainSets(pattern, p)
    decreases |pattern| - p
  {
    if p < |pattern| {
      NoSetsPlain(pattern, TarItemAt(pattern, p).1);
    }
  }

  lemma EmptyPattern(name: string)
    ensures InLanguage(Items("", 0), name) <==> name == ""
  {
    AcceptsIsLanguage(Items("", 0), name);
  }

  /** With plain sets the two matchers differ on one input only: the empty pattern and the empty name. */
  lemma Agreement(pattern: string, name: string)
    requires PlainSets(pattern, 0)
    ensures (InLanguage(Items(pattern, 0), name) <==> pattern != "" && InLanguage(TarItems(pattern, 0), name))
      <==> !(pattern == "" && name == "")
  {
    SameReading(pattern, 0);
    if pattern == "" {
      EmptyPattern(name);
    }
  }

  /** A set that begins with a closing bracket holds it for one, and is empty for the other. */
  lemma SetsDiffer()
    ensures Items("[]]", 0) == [Set([Span(']', ']')], false)] && InLanguage(Items("[]]", 0), "]")
    ensures TarItems("[]]", 0) == [Set([], false), One(']')] && !InLanguage(TarItems("[]]", 0), "]")
  {
    var pattern := "[]]";
    assert MembersFrom(pattern, 2, false) == Some(Members([], 3));
    assert MembersFrom(pattern, 1, true) == Prepend([Member(pattern, 1).0], MembersFrom(pattern, 2, false));
    assert Member(pattern, 1) == (Span(']', ']'), 2) && !Negated(pattern, 0);
    assert [Span(']', ']')] + [] == [Span(']', ']')];
    assert MembersFrom(pattern, 1, true) == Some(Members([Span(']', ']')], 3));
    assert SetAt(pattern, 0) == Some(Members([Span(']', ']')], 3));
    assert Items(pattern, 3) == [];
    assert IndexOf(pattern, ']', 1) == 1 && pattern[1..1] == "";
    assert TarItemAt(pattern, 0) == (Set([], false), 2);
    assert TarItems(pattern, 3) == [];
    assert TarItems(pattern, 2) == [One(']')] + TarItems(pattern, 3);
    AcceptsIsLanguage(Items(pattern, 0), "]");
    AcceptsIsLanguage(TarItems(pattern, 0), "]");
    var span := [Span(']', ']')];
    assert span[0].lo <= ']' <= span[0].hi;
    assert Accepts([], "]", 1);
  }

  /** An escape in a set stands for the next character to one matcher, and for itself to the other. */
  lemma EscapesDiffer()
    ensures Items("[\\a]", 0) == [Set([Span('a', 'a')], false)] && !InLanguage(Items("[\\a]", 0), "\\")
    ensures TarItems("[\\a]", 0) == [Set([Span('\\', '\\'), Span('a', 'a')], false)]
    ensures InLanguage(TarItems("[\\a]", 0), "\\")
  {
    var pattern, chars := "[\\a]", "\\a";
    var a, both := [Span('a', 'a')], [Span('\\', '\\'), Span('a', 'a')];
    assert MembersFrom(pattern, 3, false) == Some(Members([], 4));
    assert Member(pattern, 1) == (a[0], 3) && !Negated(pattern, 0);
    assert [a[0]] + [] == a;
    assert SetAt(pattern, 0) == Some(Members(a, 4));
    assert Items(pattern, 4) == [] && TarItems(pattern, 4) == [];
    assert IndexOf(pattern, ']', 1) == 3 && pattern[1..3] == chars;
    assert TarSpans(chars, 2) == [] && TarSpans(chars, 1) == a;
    assert TarSpans(chars, 0) == [both[0]] + a == both;
    assert TarItemAt(pattern, 0) == (Set(both, false), 4);
    AcceptsIsLanguage(Items(pattern, 0), "\\");
    AcceptsIsLanguage(TarItems(pattern, 0), "\\");
    assert both[0].lo <= '\\' <= both[0].hi;
    assert Accepts([], "\\", 1);
  }

  // ----- Quoting

  /** Every character behind a backslash. */
  function Quote(name: string): string {
    if name == "" then "" else ['\\', name[0]] + Quote(name[1..])
  }

  lemma {:induction false} QuoteLength(name: string)
    ensures |Quote(name)| == 2 * |name|
    ensures forall k :: 0 <= k < |name| ==> Quote(name)[2 * k] == '\\' && Quote(name)[2 * k + 1] == name[k]
  {
    if name != "" {
      QuoteLength(name[1..]);
      forall k | 0 <= k < |name| ensures Quote(name)[2 * k] == '\\' && Quote(name)[2 * k + 1] == name[k] {
        assert k > 0 ==> Quote(name)[2 * k] == Quote(name[1..])[2 * (k - 1)];
        assert k > 0 ==> Quote(name)[2 * k + 1] == Quote(name[1..])[2 * (k - 1) + 1];
      }
    }
  }

  lemma {:induction false} QuoteTakes(quoted: string, name: string, other: string, k: nat)
    requires |quoted| == 2 * |name| && k <= |name| && k <= |other|
    requires forall i :: 0 <= i < |name| ==> quoted[2 * i] == '\\' && quoted[2 * i + 1] == name[i]
    ensures Takes(quoted, 2 * k, other, k) <==> name[k..] == other[k..]
    decreases |name| - k
  {
    if k < |name| {
      assert quoted[2 * k] == '\\' && quoted[2 * k + 1] == name[k];
      assert ItemAt(quoted, 2 * k) == (One(name[k]), 2 * (k + 1));
      TakesOne(quoted, 2 * k, other, k);
      assert name[k..] == [name[k]] + name[k + 1..];
      if k < |other| {
        assert other[k..] == [other[k]] + other[k + 1..];
        QuoteTakes(quoted, name, other, k + 1);
      }
    } else {
      assert other[k..] == [] <==> k == |other|;
    }
  }

  /** A quoted name matches itself and nothing else. */
  lemma QuotedMatchesItself(name: string, other: string)
    ensures InLanguage(Items(Quote(name), 0), other) <==> other == name
  {
    hide Quote, Items;
    QuoteLength(name);
    QuoteTakes(Quote(name), name, other, 0);
    assert name[0..] == name && other[0..] == other;
    AcceptsIsLanguage(Items(Quote(name), 0), other);
  }
}
