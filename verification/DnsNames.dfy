/** Domain names in DNS messages (sections 3.1 and 4.1.4 of RFC 1035). */
module DnsNames {
  import opened Bits
  import opened Outcomes

  const DOT: byte := 0x2E
  const MAX_DEPTH := 16
  const MAX_STEPS := 128

  type Bytes = seq<byte>

  // ----- Dotted text

  function Join(labels: seq<Bytes>): Bytes {
    if labels == [] then [] else if |labels| == 1 then labels[0] else labels[0] + [DOT] + Join(labels[1..])
  }

  /** The pieces between dots: always at least one. */
  function Split(s: Bytes): (labels: seq<Bytes>)
    ensures labels != []
    decreases |s|
  {
    if s == [] then [[]]
    else
      var rest := Split(s[1..]);
      if s[0] == DOT then [[]] + rest else [[s[0]] + rest[0]] + rest[1..]
  }

  function TrimDot(s: Bytes): Bytes {
    if s != [] && s[|s| - 1] == DOT then s[..|s| - 1] else s
  }

  lemma {:induction false} SplitJoins(s: Bytes)
    ensures Join(Split(s)) == s
    decreases |s|
  {
    if s != [] {
      SplitJoins(s[1..]);
      var rest := Split(s[1..]);
      assert s == [s[0]] + s[1..];
      if s[0] == DOT {
        assert ([[]] + rest)[1..] == rest;
      } else {
        var labels := [[s[0]] + rest[0]] + rest[1..];
        assert labels[1..] == rest[1..];
        if |rest| > 1 {
          assert ([s[0]] + rest[0]) + [DOT] + Join(rest[1..]) == [s[0]] + (rest[0] + [DOT] + Join(rest[1..]));
        }
      }
    }
  }

  /** Pieces hold no dot, so they are the only ones that spell the text. */
  lemma {:induction false} SplitPlain(s: Bytes)
    ensures forall k :: 0 <= k < |Split(s)| ==> DOT !in Split(s)[k]
    ensures DOT == '.' as int
    decreases |s|
  {
    if s != [] {
      SplitPlain(s[1..]);
    }
  }

  lemma {:induction false} JoinAppend(a: seq<Bytes>, b: seq<Bytes>)
    requires a != [] && b != []
    ensures Join(a + b) == Join(a) + [DOT] + Join(b)
    decreases |a|
  {
    if |a| == 1 {
      assert (a + b)[1..] == b;
    } else {
      assert (a + b)[1..] == a[1..] + b;
      JoinAppend(a[1..], b);
      assert a[0] + [DOT] + (Join(a[1..]) + [DOT] + Join(b)) == (a[0] + [DOT] + Join(a[1..])) + [DOT] + Join(b);
    }
  }

  /** A suffix may be joined before the labels in front of it. */
  lemma JoinSuffix(a: seq<Bytes>, b: seq<Bytes>)
    requires b != []
    ensures Join(a + [Join(b)]) == Join(a + b)
  {
    if a == [] {
      assert a + [Join(b)] == [Join(b)] && a + b == b;
    } else {
      JoinAppend(a, [Join(b)]);
      JoinAppend(a, b);
    }
  }

  // ----- Encoding

  predicate GoodLabel(piece: Bytes) {
    0 < |piece| <= 63
  }

  function LabelBytes(piece: Bytes): Bytes
    requires |piece| <= 63
  {
    var n: byte := |piece|;
    [n] + piece
  }

  ghost predicate GoodLabels(labels: seq<Bytes>) {
    forall k :: 0 <= k < |labels| ==> GoodLabel(labels[k])
  }

  function EncodeLabels(labels: seq<Bytes>): Bytes
    requires GoodLabels(labels)
    decreases |labels|
  {
    if labels == [] then [] else EncodeLabels(labels[..|labels| - 1]) + LabelBytes(labels[|labels| - 1])
  }

  /** The wire form, refused for an empty or long label and for a name of 255 bytes or more. */
  ghost function Encode(name: Bytes): Option<Bytes> {
    var trimmed := TrimDot(name);
    if trimmed == [] then Some([0])
    else if !GoodLabels(Split(trimmed)) then None
    else if |EncodeLabels(Split(trimmed))| >= 255 then None
    else Some(EncodeLabels(Split(trimmed)) + [0])
  }

  method EncodeName(name: Bytes) returns (r: Option<Bytes>)
    ensures r == Encode(name)
  {
    var trimmed := name;
    if name != [] && name[|name| - 1] == 0x2E {
      trimmed := name[..|name| - 1];
    }
    if trimmed == [] {
      return Some([0]);
    }
    var labels := Split(trimmed);
    var encoded: Bytes := [];
    for i := 0 to |labels|
      invariant GoodLabels(labels[..i]) && encoded == EncodeLabels(labels[..i])
    {
      var piece := labels[i];
      if |piece| == 0 || |piece| > 63 {
        assert !GoodLabel(labels[i]);
        return None;
      }
      assert labels[..i + 1][..i] == labels[..i];
      var length: byte := |piece|;
      encoded := encoded + [length] + piece;
      assert [length] + piece == LabelBytes(piece);
    }
    assert labels[..|labels|] == labels;
    if |encoded| >= 255 {
      return None;
    }
    return Some(encoded + [0]);
  }

  /** Every label takes two bytes or more, so an accepted name has at most 127. */
  lemma {:induction false} LabelsFit(labels: seq<Bytes>)
    requires GoodLabels(labels)
    ensures 2 * |labels| <= |EncodeLabels(labels)|
    decreases |labels|
  {
    if labels != [] {
      LabelsFit(labels[..|labels| - 1]);
      assert GoodLabel(labels[|labels| - 1]);
    }
  }

  lemma {:induction false} EncodedSize(labels: seq<Bytes>)
    requires GoodLabels(labels) && labels != []
    ensures |EncodeLabels(labels)| == |Join(labels)| + 1
    decreases |labels|
  {
    var front, last := labels[..|labels| - 1], labels[|labels| - 1];
    assert labels == front + [last];
    if front == [] {
      assert EncodeLabels(front) == [] && labels == [last];
    } else {
      EncodedSize(front);
      JoinAppend(front, [last]);
    }
  }

  /** A name is encoded exactly when it is empty, or has labels of 1 to 63 bytes and at most 253 bytes in all. */
  lemma EncodeLimits(name: Bytes)
    ensures var text := if name != [] && name[|name| - 1] == '.' as int then name[..|name| - 1] else name;
      Encode(name).Some? <==>
        text == [] || (|text| <= 253 && forall k :: 0 <= k < |Split(text)| ==> 1 <= |Split(text)[k]| <= 63)
  {
    var text := TrimDot(name);
    if text != [] && GoodLabels(Split(text)) {
      hide Split, EncodeLabels, Join;
      SplitJoins(text);
      EncodedSize(Split(text));
    }
  }

  lemma {:induction false} EncodeFront(piece: Bytes, rest: seq<Bytes>)
    requires GoodLabel(piece) && GoodLabels(rest)
    ensures GoodLabels([piece] + rest)
    ensures LabelBytes(piece) == [|piece| as byte] + piece
    ensures EncodeLabels([piece] + rest) == LabelBytes(piece) + EncodeLabels(rest)
    decreases |rest|
  {
    var all := [piece] + rest;
    forall k | 0 <= k < |all| ensures GoodLabel(all[k]) {
      assert k > 0 ==> GoodLabel(rest[k - 1]);
    }
    hide LabelBytes;
    if rest == [] {
      assert all[..0] == [] && EncodeLabels([]) == [];
    } else {
      EncodeFront(piece, rest[..|rest| - 1]);
      assert all[..|all| - 1] == [piece] + rest[..|rest| - 1];
      Assoc(LabelBytes(piece), EncodeLabels(rest[..|rest| - 1]), LabelBytes(rest[|rest| - 1]));
    }
  }

  // ----- Decoding

  datatype Labels = Labels(labels: seq<Bytes>, next: nat)
  datatype Name = Name(text: Bytes, next: nat)

  function Cons(piece: Bytes, rest: Option<Labels>): Option<Labels> {
    match rest
    case None => None
    case Some(l) => Some(Labels([piece] + l.labels, l.next))
  }

  /** Fourteen bits of offset behind two set bits. */
  function Pointer(high: nat, low: nat): (p: nat)
    requires high >= 0xC0
  {
    (high - 0xC0) * 256 + low
  }

  /** The labels from `offset` on, in at most `steps` steps; a pointer ends them with one joined suffix. */
  function Walk(message: Bytes, offset: nat, depth: nat, steps: nat): Option<Labels>
    requires depth <= MAX_DEPTH
    decreases MAX_DEPTH + 1 - depth, 1, steps
  {
    if steps == 0 || offset >= |message| then None
    else
      var length: nat := message[offset];
      if length >= 0xC0 then Follow(message, offset, depth)
      else if length >= 0x40 || offset + 1 + length > |message| then None
      else if length == 0 then Some(Labels([], offset + 1))
      else Cons(message[offset + 1..offset + 1 + length], Walk(message, offset + 1 + length, depth, steps - 1))
  }

  /** The suffix that the pointer at `offset` leads to. */
  function Follow(message: Bytes, offset: nat, depth: nat): Option<Labels>
    requires depth <= MAX_DEPTH && offset < |message| && message[offset] >= 0xC0
    decreases MAX_DEPTH + 1 - depth, 0, 0
  {
    if offset + 1 >= |message| then None
    else match Decode(message, Pointer(message[offset], message[offset + 1]), depth + 1)
      case None => None
      case Some(name) => Some(Labels([TrimDot(name.text)], offset + 2))
  }

  function Decode(message: Bytes, offset: int, depth: nat): Option<Name>
    decreases if depth <= MAX_DEPTH then MAX_DEPTH + 1 - depth else 0, 2, 0
  {
    if depth > MAX_DEPTH || offset < 0 || offset >= |message| then None
    else match Walk(message, offset, depth, MAX_STEPS)
      case None => None
      case Some(l) => Some(Name(Join(l.labels) + [DOT], l.next))
  }

  function Onto(labels: seq<Bytes>, rest: Option<Labels>): Option<Labels> {
    match rest
    case None => None
    case Some(l) => Some(Labels(labels + l.labels, l.next))
  }

  lemma OntoCons(labels: seq<Bytes>, piece: Bytes, rest: Option<Labels>)
    ensures Onto(labels, Cons(piece, rest)) == Onto(labels + [piece], rest)
  {
    if rest.Some? {
      assert labels + ([piece] + rest.value.labels) == (labels + [piece]) + rest.value.labels;
    }
  }

  lemma OntoNone(rest: Option<Labels>)
    ensures Onto([], rest) == rest
  {
    if rest.Some? {
      assert [] + rest.value.labels == rest.value.labels;
    }
  }

  method FollowPointer(message: Bytes, offset: nat, depth: nat) returns (r: Option<Labels>)
    requires depth <= MAX_DEPTH && offset < |message| && message[offset] >= 0xC0
    ensures r == Follow(message, offset, depth)
    decreases MAX_DEPTH - depth + 1, 0
  {
    hide Decode;
    if offset + 1 >= |message| {
      return None;
    }
    var high: nat := message[offset];
    var pointer := high % 0x40 * 256 + message[offset + 1];
    var name := DecodeName(message, pointer, depth + 1);
    if name.None? {
      return None;
    }
    var text := name.value.text;
    if text != [] && text[|text| - 1] == 0x2E {
      text := text[..|text| - 1];
    }
    return Some(Labels([text], offset + 2));
  }

  /** The loop with its recursion at a pointer. */
  method DecodeName(message: Bytes, start: int, depth: nat) returns (r: Option<Name>)
    ensures r == Decode(message, start, depth)
    decreases if depth <= MAX_DEPTH then MAX_DEPTH - depth + 1 else 0, 1
  {
    if depth > 16 || start < 0 || start >= |message| {
      return None;
    }
    hide Walk, Join, Cons, Onto, Decode, Follow, Reading;
    var labels: seq<Bytes> := [];
    var offset: nat, steps: nat := start, 0;
    ReadStart(message, start, depth);
    while steps < 128
      invariant steps <= MAX_STEPS && Reading(message, start, depth, labels, offset, steps)
    {
      ReadStep(message, start, depth, labels, offset, steps);
      if offset >= |message| {
        return None;
      }
      var length: nat := message[offset];
      if length >= 0xC0 {
        var suffix := FollowPointer(message, offset, depth);
        if suffix.None? {
          return None;
        }
        labels := labels + suffix.value.labels;
        return Some(Name(Join(labels) + [0x2E], suffix.value.next));
      }
      if length >= 0x40 || offset + 1 + length > |message| {
        return None;
      }
      offset := offset + 1;
      if length == 0 {
        return Some(Name(Join(labels) + [0x2E], offset));
      }
      labels := labels + [message[offset..offset + length]];
      offset, steps := offset + length, steps + 1;
    }
    ReadStop(message, start, depth, labels, offset);
    return None;
  }

  /** `labels` are read, and what is left from `offset` on completes the name. */
  ghost predicate Reading(message: Bytes, start: nat, depth: nat, labels: seq<Bytes>, offset: nat, steps: nat) {
    && depth <= MAX_DEPTH && start < |message| && steps <= MAX_STEPS
    && Onto(labels, Walk(message, offset, depth, MAX_STEPS - steps)) == Walk(message, start, depth, MAX_STEPS)
  }

  lemma ReadStart(message: Bytes, start: nat, depth: nat)
    requires depth <= MAX_DEPTH && start < |message|
    ensures Reading(message, start, depth, [], start, 0)
  {
    hide Walk;
    OntoNone(Walk(message, start, depth, MAX_STEPS));
  }

  lemma ReadStop(message: Bytes, start: nat, depth: nat, labels: seq<Bytes>, offset: nat)
    requires Reading(message, start, depth, labels, offset, MAX_STEPS)
    ensures Decode(message, start, depth).None?
  {
    WalkStep(message, offset, depth, 0);
    DecodeDone(message, start, depth, labels, Walk(message, offset, depth, 0));
  }

  lemma ReadStep(message: Bytes, start: nat, depth: nat, labels: seq<Bytes>, offset: nat, steps: nat)
    requires Reading(message, start, depth, labels, offset, steps) && steps < MAX_STEPS
    ensures offset >= |message| ==> Decode(message, start, depth).None?
    ensures (offset < |message| && message[offset] >= 0xC0) ==>
      Decode(message, start, depth) == match Follow(message, offset, depth)
        case None => None
        case Some(s) => Some(Name(Join(labels + s.labels) + [DOT], s.next))
    ensures (offset < |message| && message[offset] < 0xC0
      && (message[offset] >= 0x40 || offset + 1 + message[offset] > |message|)) ==>
      Decode(message, start, depth).None?
    ensures (offset < |message| && message[offset] == 0) ==>
        Decode(message, start, depth) == Some(Name(Join(labels) + [DOT], offset + 1))
    ensures (offset < |message| && 0 < message[offset] < 0x40 && offset + 1 + message[offset] <= |message|) ==>
      Reading(message, start, depth, labels + [message[offset + 1..offset + 1 + message[offset]]],
        offset + 1 + message[offset], steps + 1)
  {
    hide Walk, Join, Follow, Decode, Cons, Onto;
    WalkStep(message, offset, depth, MAX_STEPS - steps);
    DecodeDone(message, start, depth, labels, Walk(message, offset, depth, MAX_STEPS - steps));
    assert labels + [] == labels;
    if offset < |message| && 0 < message[offset] < 0x40 && offset + 1 + message[offset] <= |message| {
      var length: nat := message[offset];
      OntoCons(labels, message[offset + 1..offset + 1 + length],
        Walk(message, offset + 1 + length, depth, MAX_STEPS - steps - 1));
    }
  }

  lemma WalkStep(message: Bytes, offset: nat, depth: nat, steps: nat)
    requires depth <= MAX_DEPTH
    ensures steps == 0 || offset >= |message| ==> Walk(message, offset, depth, steps).None?
    ensures (steps > 0 && offset < |message| && message[offset] >= 0xC0) ==>
      Walk(message, offset, depth, steps) == Follow(message, offset, depth)
    ensures (steps > 0 && offset < |message| && message[offset] < 0xC0) ==>
      Walk(message, offset, depth, steps) == WalkPlain(message, offset, depth, steps)
  {
    hide Cons, Follow;
  }

  function WalkPlain(message: Bytes, offset: nat, depth: nat, steps: nat): Option<Labels>
    requires depth <= MAX_DEPTH && steps > 0 && offset < |message| && message[offset] < 0xC0
  {
    var length: nat := message[offset];
    if length >= 0x40 || offset + 1 + length > |message| then None
    else if length == 0 then Some(Labels([], offset + 1))
    else Cons(message[offset + 1..offset + 1 + length], Walk(message, offset + 1 + length, depth, steps - 1))
  }

  /** Labels read so far, and what is left, make the whole name. */
  lemma DecodeDone(message: Bytes, start: nat, depth: nat, labels: seq<Bytes>, rest: Option<Labels>)
    requires depth <= MAX_DEPTH && start < |message| && Onto(labels, rest) == Walk(message, start, depth, MAX_STEPS)
    ensures Decode(message, start, depth)
      == if rest.None? then None else Some(Name(Join(labels + rest.value.labels) + [DOT], rest.value.next))
  {
    hide Walk, Join;
  }

  /** Whatever the message, what is decoded ends inside it, after where it began. */
  lemma {:induction false} WalkInside(message: Bytes, offset: nat, depth: nat, steps: nat)
    requires depth <= MAX_DEPTH && Walk(message, offset, depth, steps).Some?
    ensures offset < Walk(message, offset, depth, steps).value.next <= |message|
    decreases steps
  {
    var length := message[offset];
    if 0 < length < 0x40 {
      WalkInside(message, offset + 1 + length, depth, steps - 1);
    }
  }

  lemma DecodeInside(message: Bytes, offset: int, depth: nat)
    requires Decode(message, offset, depth).Some?
    ensures 0 <= offset < Decode(message, offset, depth).value.next <= |message|
  {
    WalkInside(message, offset, depth, MAX_STEPS);
  }

  // ----- Where decoding ends

  /** How the labels from some place on end: at the root, at a pointer, or not as a name. */
  datatype Ending = Root | Points(target: nat) | Broken

  function EndFrom(message: Bytes, offset: nat, steps: nat): Ending
    decreases steps
  {
    if steps == 0 || offset >= |message| then Broken
    else
      var length: nat := message[offset];
      if length >= 0xC0 then
        if offset + 1 >= |message| then Broken else Points(Pointer(message[offset], message[offset + 1]))
      else if length >= 0x40 || offset + 1 + length > |message| then Broken
      else if length == 0 then Root
      else EndFrom(message, offset + 1 + length, steps - 1)
  }

  /** At most `hops` pointers lead from here to a root. */
  predicate Grounded(message: Bytes, offset: int, hops: nat)
    decreases hops
  {
    && 0 <= offset < |message|
    && match EndFrom(message, offset, MAX_STEPS)
       case Root => true
       case Points(target) => hops > 0 && Grounded(message, target, hops - 1)
       case Broken => false
  }

  lemma {:induction false} WalkEnds(message: Bytes, offset: nat, depth: nat, steps: nat)
    requires depth <= MAX_DEPTH
    ensures Walk(message, offset, depth, steps).Some? <==> match EndFrom(message, offset, steps)
      case Root => true
      case Points(target) => Decode(message, target, depth + 1).Some?
      case Broken => false
    decreases steps
  {
    hide Decode;
    if steps > 0 && offset < |message| && 0 < message[offset] < 0x40 && offset + 1 + message[offset] <= |message| {
      WalkEnds(message, offset + 1 + message[offset], depth, steps - 1);
    }
  }

  /** A name is decoded if and only if the pointers behind it reach a root before the depth limit. */
  lemma {:induction false} DecodeGrounded(message: Bytes, offset: int, depth: nat)
    ensures Decode(message, offset, depth).Some? <==> depth <= 16 && Grounded(message, offset, 16 - depth)
    decreases if depth <= MAX_DEPTH then MAX_DEPTH - depth + 1 else 0
  {
    hide Walk, EndFrom;
    if depth <= MAX_DEPTH && 0 <= offset < |message| {
      WalkEnds(message, offset, depth, MAX_STEPS);
      var ending := EndFrom(message, offset, MAX_STEPS);
      if ending.Points? {
        DecodeGrounded(message, ending.target, depth + 1);
      }
    }
  }

  /** From each of these places the labels end at a pointer to one of them. */
  ghost predicate Loops(message: Bytes, places: set<nat>) {
    forall p :: p in places ==>
        EndFrom(message, p, MAX_STEPS).Points? && EndFrom(message, p, MAX_STEPS).target in places
  }

  lemma {:induction false} LoopUngrounded(message: Bytes, places: set<nat>, offset: nat, hops: nat)
    requires Loops(message, places) && offset in places
    ensures !Grounded(message, offset, hops)
    decreases hops
  {
    hide EndFrom;
    if hops > 0 {
      LoopUngrounded(message, places, EndFrom(message, offset, MAX_STEPS).target, hops - 1);
    }
  }

  /** A loop through any number of pointers is refused, from each of its places and at every depth. */
  lemma LoopRefused(message: Bytes, places: set<nat>, offset: nat, depth: nat)
    requires Loops(message, places) && offset in places
    ensures Decode(message, offset, depth).None?
  {
    hide Decode, Grounded, EndFrom;
    DecodeGrounded(message, offset, depth);
    if depth <= MAX_DEPTH {
      LoopUngrounded(message, places, offset, MAX_DEPTH - depth);
    }
  }

  // ----- Round trip

  /** `part` stands in the message at `offset`. */
  ghost predicate At(message: Bytes, offset: nat, part: Bytes) {
    offset + |part| <= |message| && message[offset..offset + |part|] == part
  }

  lemma AtParts(message: Bytes, offset: nat, a: Bytes, b: Bytes)
    requires At(message, offset, a + b)
    ensures At(message, offset, a) && At(message, offset + |a|, b)
  {
    var whole := message[offset..offset + |a + b|];
    assert whole[..|a|] == a && whole[|a|..] == b;
  }

  lemma WalkLabel(message: Bytes, offset: nat, depth: nat, steps: nat, piece: Bytes)
    requires depth <= MAX_DEPTH && 0 < steps && GoodLabel(piece) && At(message, offset, LabelBytes(piece))
    ensures Walk(message, offset, depth, steps) == Cons(piece, Walk(message, offset + 1 + |piece|, depth, steps - 1))
  {
    var bytes := message[offset..offset + 1 + |piece|];
    assert bytes == LabelBytes(piece);
    assert message[offset] == bytes[0] && message[offset + 1..offset + 1 + |piece|] == bytes[1..];
  }

  /** Labels in wire form are walked one by one, and the walk goes on behind them. */
  lemma {:induction false} WalkLabels(message: Bytes, offset: nat, depth: nat, steps: nat, labels: seq<Bytes>)
    requires depth <= MAX_DEPTH && |labels| <= steps && GoodLabels(labels) && At(message, offset, EncodeLabels(labels))
    ensures Walk(message, offset, depth, steps)
      == Onto(labels, Walk(message, offset + |EncodeLabels(labels)|, depth, steps - |labels|))
    decreases |labels|
  {
    hide Walk, LabelBytes, EncodeLabels, At, GoodLabels, Onto, Cons;
    if labels == [] {
      NoLabels();
      OntoNone(Walk(message, offset, depth, steps));
    } else {
      var piece, rest := labels[0], labels[1..];
      assert labels == [piece] + rest;
      GoodParts(labels);
      EncodeFront(piece, rest);
      AtParts(message, offset, LabelBytes(piece), EncodeLabels(rest));
      LabelSize(piece);
      WalkLabel(message, offset, depth, steps, piece);
      WalkLabels(message, offset + 1 + |piece|, depth, steps - 1, rest);
      ConsOnto(piece, rest, Walk(message, offset + |EncodeLabels(labels)|, depth, steps - |labels|));
    }
  }

  lemma GoodParts(labels: seq<Bytes>)
    requires labels != [] && GoodLabels(labels)
    ensures GoodLabel(labels[0]) && GoodLabels(labels[1..])
  {
  }

  lemma LabelSize(piece: Bytes)
    requires |piece| <= 63
    ensures |LabelBytes(piece)| == 1 + |piece|
  {
  }

  lemma ConsOnto(piece: Bytes, rest: seq<Bytes>, l: Option<Labels>)
    ensures Cons(piece, Onto(rest, l)) == Onto([piece] + rest, l)
  {
    if l.Some? {
      assert [piece] + (rest + l.value.labels) == ([piece] + rest) + l.value.labels;
    }
  }

  lemma WalkRoot(message: Bytes, offset: nat, depth: nat, steps: nat)
    requires depth <= MAX_DEPTH && 0 < steps && At(message, offset, [0])
    ensures Walk(message, offset, depth, steps) == Some(Labels([], offset + 1))
  {
    assert message[offset] == message[offset..offset + 1][0];
  }

  /** An encoded list of labels decodes to the labels, joined and dotted. */
  lemma LabelsRoundTrip(message: Bytes, offset: nat, depth: nat, labels: seq<Bytes>)
    requires depth <= 16 && |labels| < 128 && GoodLabels(labels)
    requires At(message, offset, EncodeLabels(labels) + [0])
    ensures Decode(message, offset, depth) == Some(Name(Join(labels) + [DOT], offset + |EncodeLabels(labels)| + 1))
  {
    hide Walk, EncodeLabels, Join;
    AtParts(message, offset, EncodeLabels(labels), [0]);
    WalkLabels(message, offset, depth, MAX_STEPS, labels);
    WalkRoot(message, offset + |EncodeLabels(labels)|, depth, MAX_STEPS - |labels|);
    assert labels + [] == labels;
  }

  /** A name of 128 labels or more is refused, whatever follows. */
  lemma TooManyLabels(message: Bytes, offset: nat, depth: nat, labels: seq<Bytes>)
    requires |labels| >= 128 && GoodLabels(labels) && At(message, offset, EncodeLabels(labels))
    ensures Decode(message, offset, depth) == None
  {
    var first, rest := labels[..128], labels[128..];
    if depth <= MAX_DEPTH && offset < |message| {
      hide Walk, EncodeLabels, At, Join, Onto;
      assert labels == first + rest;
      EncodeParts(first, rest);
      AtParts(message, offset, EncodeLabels(first), EncodeLabels(rest));
      WalkLabels(message, offset, depth, MAX_STEPS, first);
      WalkStep(message, offset + |EncodeLabels(first)|, depth, 0);
      NothingOnto(first);
    }
  }

  lemma NothingOnto(labels: seq<Bytes>)
    ensures Onto(labels, None) == None
  {
  }

  lemma {:induction false} EncodeParts(a: seq<Bytes>, b: seq<Bytes>)
    requires GoodLabels(a + b)
    ensures GoodLabels(a) && GoodLabels(b)
    ensures EncodeLabels(a + b) == EncodeLabels(a) + EncodeLabels(b)
    decreases |b|
  {
    hide LabelBytes;
    GoodHalves(a, b);
    if b == [] {
      assert a + b == a && EncodeLabels(b) == [];
    } else {
      var front, last := b[..|b| - 1], b[|b| - 1];
      assert (a + b)[..|a + b| - 1] == a + front && (a + b)[|a + b| - 1] == last;
      EncodeParts(a, front);
      Assoc(EncodeLabels(a), EncodeLabels(front), LabelBytes(last));
    }
  }

  lemma GoodHalves(a: seq<Bytes>, b: seq<Bytes>)
    requires GoodLabels(a + b)
    ensures GoodLabels(a) && GoodLabels(b)
    ensures forall n :: 0 <= n <= |a + b| ==> GoodLabels((a + b)[..n])
  {
    forall k | 0 <= k < |a| ensures GoodLabel(a[k]) {
      assert GoodLabel((a + b)[k]);
    }
    forall k | 0 <= k < |b| ensures GoodLabel(b[k]) {
      assert GoodLabel((a + b)[|a| + k]);
    }
  }

  /** Every name that is encoded is decoded, at any place in any message, up to one trailing dot. */
  lemma RoundTrip(message: Bytes, offset: nat, depth: nat, name: Bytes)
    requires depth <= MAX_DEPTH && Encode(name).Some? && At(message, offset, Encode(name).value)
    ensures Decode(message, offset, depth) == Some(Name(TrimDot(name) + [DOT], offset + |Encode(name).value|))
  {
    var trimmed := TrimDot(name);
    var labels := if trimmed == [] then [] else Split(trimmed);
    hide Walk, EncodeLabels, Split, At, TrimDot, Decode;
    NoLabels();
    if trimmed != [] {
      SplitJoins(trimmed);
      LabelsFit(labels);
    }
    assert EncodeLabels([]) + [0] == [0];
    LabelsRoundTrip(message, offset, depth, labels);
  }

  lemma NoLabels()
    ensures EncodeLabels([]) == [] && Join([]) == []
  {
  }

  // ----- Compression

  lemma WalkPointer(message: Bytes, offset: nat, depth: nat, steps: nat, high: byte, low: byte,
      suffix: Name)
    requires depth <= MAX_DEPTH && 0 < steps && high >= 0xC0 && At(message, offset, [high, low])
    requires Decode(message, Pointer(high, low), depth + 1) == Some(suffix)
    ensures Walk(message, offset, depth, steps) == Some(Labels([TrimDot(suffix.text)], offset + 2))
  {
    var bytes := message[offset..offset + 2];
    assert message[offset] == bytes[0] && message[offset + 1] == bytes[1];
    hide Decode, TrimDot;
  }

  lemma TrimJoined(text: Bytes)
    ensures TrimDot(text + [DOT]) == text
  {
    assert (text + [DOT])[..|text|] == text;
  }

  /**
   * Labels before a pointer to a name that is spelled by `tail`: the pointer reads as those labels would,
   * exactly when there are any, or when nothing stands before it.
   */
  lemma PointerReads(message: Bytes, offset: nat, depth: nat, front: seq<Bytes>, high: byte,
      low: byte, tail: seq<Bytes>, next: nat)
    requires depth <= MAX_DEPTH && |front| < MAX_STEPS && GoodLabels(front) && GoodLabels(tail) && high >= 0xC0
    requires At(message, offset, EncodeLabels(front) + [high, low])
    requires Decode(message, Pointer(high, low), depth + 1) == Some(Name(Join(tail) + [DOT], next))
    ensures Decode(message, offset, depth)
      == Some(Name(Join(front + [Join(tail)]) + [DOT], offset + |EncodeLabels(front)| + 2))
    ensures Join(front + [Join(tail)]) == Join(front + tail) <==> tail != [] || front == []
  {
    PointerSpells(front, tail);
    hide Walk, EncodeLabels, Join, TrimDot;
    AtParts(message, offset, EncodeLabels(front), [high, low]);
    WalkLabels(message, offset, depth, MAX_STEPS, front);
    WalkPointer(message, offset + |EncodeLabels(front)|, depth, MAX_STEPS - |front|, high, low,
      Name(Join(tail) + [DOT], next));
    TrimJoined(Join(tail));
    PointerInside(message, offset, depth, front, high, low);
  }

  lemma PointerInside(message: Bytes, offset: nat, depth: nat, front: seq<Bytes>, high: byte,
      low: byte)
    requires GoodLabels(front) && At(message, offset, EncodeLabels(front) + [high, low])
    ensures offset < |message|
  {
  }

  lemma PointerSpells(front: seq<Bytes>, tail: seq<Bytes>)
    ensures Join(front + [Join(tail)]) == Join(front + tail) <==> tail != [] || front == []
  {
    if tail != [] {
      JoinSuffix(front, tail);
    } else if front == [] {
      assert front + [Join(tail)] == [[]] && front + tail == [];
    } else {
      JoinAppend(front, [[]]);
      assert front + tail == front;
      assert |Join(front + [Join(tail)])| == |Join(front)| + 1;
    }
  }

  /** A label and a pointer to the root: the name ends in two dots. */
  lemma RootPointerReads()
    ensures Decode([0, 1, 97, 0xC0, 0], 1, 0) == Some(Name([97, DOT, DOT], 5))
  {
    var message: Bytes := [0, 1, 97, 0xC0, 0];
    hide Decode, Join, Walk;
    NoLabels();
    assert EncodeLabels([[97]]) == [1, 97] by {
      assert LabelBytes([97]) == [1, 97];
    }
    assert message[0..1] == [0] && message[1..5] == [1, 97] + [0xC0, 0];
    LabelsRoundTrip(message, 0, 1, []);
    PointerReads(message, 1, 0, [[97]], 0xC0, 0, [], 1);
    TwoDots();
    assert |EncodeLabels([[97]])| == 2;
    assert [97, DOT] + [DOT] == [97, DOT, DOT];
  }

  lemma TwoDots()
    ensures Join([[97]] + [[]]) == [97, DOT]
  {
    var labels: seq<Bytes> := [[97]] + [[]];
    assert labels[1..] == [[]] && Join([[]]) == [];
  }

  /** A name whose non-root suffix is replaced by a pointer to it decodes to the same text. */
  lemma CompressedRoundTrip(message: Bytes, offset: nat, depth: nat, front: seq<Bytes>,
      tail: seq<Bytes>, target: nat)
    requires depth < MAX_DEPTH && GoodLabels(front) && GoodLabels(tail) && tail != []
    requires |front| < MAX_STEPS && |tail| < MAX_STEPS && target < 0x4000
    requires At(message, target, EncodeLabels(tail) + [0])
    requires At(message, offset, EncodeLabels(front) + [0xC0 + target / 256, target % 256])
    ensures Decode(message, offset, depth) == Some(Name(Join(front + tail) + [DOT], offset + |EncodeLabels(front)| + 2))
  {
    hide Decode, EncodeLabels, Join, At;
    LabelsRoundTrip(message, target, depth + 1, tail);
    PointerReads(message, offset, depth, front, 0xC0 + target / 256, target % 256, tail,
      target + |EncodeLabels(tail)| + 1);
  }
}
