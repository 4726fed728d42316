/** The fields of a bzip2 block header: how they are written and how a decoder reads them. */
module Bzip2Format {
  import opened Bits
  import opened Outcomes
  import opened Bzip2Mtf

  // ----- Plain fields

  function ReadBits(n: nat, s: seq<bool>): Option<(nat, seq<bool>)> {
    if |s| < n then None else Some((BitsValue(s[..n]), s[n..]))
  }

  lemma ReadField(v: nat, n: nat, rest: seq<bool>)
    requires v < Pow2(n)
    ensures ReadBits(n, FieldBits(v, n) + rest) == Some((v, rest))
  {
    var s := FieldBits(v, n) + rest;
    assert s[..n] == FieldBits(v, n) && s[n..] == rest;
    FieldValue(v, n);
  }

  lemma OneBit(b: bool)
    ensures FieldBits(if b then 1 else 0, 1) == [b]
  {
    assert FieldBits(0, 0) == [];
  }

  // ----- The map of bytes in use

  /** One flag for each of the `count` values from `v` on. */
  function Flags(list: seq<byte>, v: nat, count: nat): (s: seq<bool>)
    ensures |s| == count
    decreases count
  {
    if count == 0 then [] else [v in list] + Flags(list, v + 1, count - 1)
  }

  function GroupUsed(list: seq<byte>, g: nat): bool {
    exists x | x in list :: x / 16 == g
  }

  function GroupFlags(list: seq<byte>, g: nat, count: nat): (s: seq<bool>)
    ensures |s| == count
    ensures forall i :: 0 <= i < count ==> s[i] == GroupUsed(list, g + i)
    decreases count
  {
    if count == 0 then [] else [GroupUsed(list, g)] + GroupFlags(list, g + 1, count - 1)
  }

  /** The flags of the groups from `g` on that hold a used byte. */
  function MemberFlags(list: seq<byte>, g: nat): seq<bool>
    requires g <= 16
    decreases 16 - g
  {
    if g == 16 then []
    else (if GroupUsed(list, g) then Flags(list, 16 * g, 16) else []) + MemberFlags(list, g + 1)
  }

  function InUseBits(list: seq<byte>): seq<bool> {
    GroupFlags(list, 0, 16) + MemberFlags(list, 0)
  }

  /** The values among the `count` from `v` on that are in the list. */
  function UsedRange(list: seq<byte>, v: nat, count: nat): seq<byte>
    requires v + count <= 256
    decreases count
  {
    if count == 0 then [] else (if v in list then [v] else []) + UsedRange(list, v + 1, count - 1)
  }

  function ReadMembers(v: nat, count: nat, s: seq<bool>): Option<(seq<byte>, seq<bool>)>
    requires v + count <= 256
    decreases count
  {
    if count == 0 then Some(([], s))
    else if s == [] then None
    else
      match ReadMembers(v + 1, count - 1, s[1..])
      case None => None
      case Some((list, rest)) => Some(((if s[0] then [v] else []) + list, rest))
  }

  function ReadGroups(flags: seq<bool>, g: nat, s: seq<bool>): Option<(seq<byte>, seq<bool>)>
    requires |flags| == 16 && g <= 16
    decreases 16 - g
  {
    if g == 16 then Some(([], s))
    else if !flags[g] then ReadGroups(flags, g + 1, s)
    else
      match ReadMembers(16 * g, 16, s)
      case None => None
      case Some((members, s')) =>
        match ReadGroups(flags, g + 1, s')
        case None => None
        case Some((list, rest)) => Some((members + list, rest))
  }

  function ReadInUse(s: seq<bool>): Option<(seq<byte>, seq<bool>)> {
    if |s| < 16 then None else ReadGroups(s[..16], 0, s[16..])
  }

  lemma {:induction false} ReadFlags(list: seq<byte>, v: nat, count: nat, rest: seq<bool>)
    requires v + count <= 256
    ensures ReadMembers(v, count, Flags(list, v, count) + rest) == Some((UsedRange(list, v, count), rest))
    decreases count
  {
    if count == 0 {
      assert Flags(list, v, count) + rest == rest;
    } else {
      var s := Flags(list, v, count) + rest;
      assert s[0] == (v in list) && s[1..] == Flags(list, v + 1, count - 1) + rest;
      ReadFlags(list, v + 1, count - 1, rest);
    }
  }

  lemma {:induction false} RangeJoin(list: seq<byte>, v: nat, a: nat, b: nat)
    requires v + a + b <= 256
    ensures UsedRange(list, v, a + b) == UsedRange(list, v, a) + UsedRange(list, v + a, b)
    decreases a
  {
    if a == 0 {
      assert UsedRange(list, v, 0) + UsedRange(list, v, b) == UsedRange(list, v, b);
    } else {
      RangeJoin(list, v + 1, a - 1, b);
      Assoc(if v in list then [v] else [], UsedRange(list, v + 1, a - 1), UsedRange(list, v + a, b));
    }
  }

  lemma {:induction false} EmptyGroup(list: seq<byte>, g: nat, v: nat, count: nat)
    requires !GroupUsed(list, g) && 16 * g <= v && v + count == 16 * g + 16 <= 256
    ensures UsedRange(list, v, count) == []
    decreases count
  {
    if count > 0 {
      assert v / 16 == g;
      EmptyGroup(list, g, v + 1, count - 1);
    }
  }

  lemma {:induction false} ReadGroupsFrom(list: seq<byte>, flags: seq<bool>, g: nat, rest: seq<bool>)
    requires |flags| == 16 && g <= 16
    requires forall i :: 0 <= i < 16 ==> flags[i] == GroupUsed(list, i)
    ensures ReadGroups(flags, g, MemberFlags(list, g) + rest)
         == Some((UsedRange(list, 16 * g, 256 - 16 * g), rest))
    decreases 16 - g
  {
    hide *;
    if g == 16 {
      ReadNoGroups(list, flags, rest);
    } else {
      ReadGroupsFrom(list, flags, g + 1, rest);
      RangeJoin(list, 16 * g, 16, 256 - 16 * (g + 1));
      if GroupUsed(list, g) {
        ReadUsedGroup(list, flags, g, rest);
      } else {
        ReadEmptyGroup(list, flags, g, rest);
      }
    }
  }

  lemma ReadNoGroups(list: seq<byte>, flags: seq<bool>, rest: seq<bool>)
    requires |flags| == 16
    ensures ReadGroups(flags, 16, MemberFlags(list, 16) + rest) == Some((UsedRange(list, 256, 0), rest))
  {
    assert MemberFlags(list, 16) + rest == rest;
  }

  lemma ReadUsedGroup(list: seq<byte>, flags: seq<bool>, g: nat, rest: seq<bool>)
    requires |flags| == 16 && g < 16 && flags[g] && GroupUsed(list, g)
    requires ReadGroups(flags, g + 1, MemberFlags(list, g + 1) + rest)
          == Some((UsedRange(list, 16 * (g + 1), 256 - 16 * (g + 1)), rest))
    ensures ReadGroups(flags, g, MemberFlags(list, g) + rest)
         == Some((UsedRange(list, 16 * g, 16) + UsedRange(list, 16 * (g + 1), 256 - 16 * (g + 1)), rest))
  {
    var members := Flags(list, 16 * g, 16);
    Assoc(members, MemberFlags(list, g + 1), rest);
    assert MemberFlags(list, g) + rest == members + (MemberFlags(list, g + 1) + rest);
    ReadFlags(list, 16 * g, 16, MemberFlags(list, g + 1) + rest);
    hide Flags, MemberFlags, UsedRange, ReadMembers, GroupUsed;
  }

  lemma ReadEmptyGroup(list: seq<byte>, flags: seq<bool>, g: nat, rest: seq<bool>)
    requires |flags| == 16 && g < 16 && !flags[g] && !GroupUsed(list, g)
    requires ReadGroups(flags, g + 1, MemberFlags(list, g + 1) + rest)
          == Some((UsedRange(list, 16 * (g + 1), 256 - 16 * (g + 1)), rest))
    ensures ReadGroups(flags, g, MemberFlags(list, g) + rest)
         == Some((UsedRange(list, 16 * g, 16) + UsedRange(list, 16 * (g + 1), 256 - 16 * (g + 1)), rest))
  {
    assert MemberFlags(list, g) == MemberFlags(list, g + 1);
    EmptyGroup(list, g, 16 * g, 16);
    hide MemberFlags, GroupUsed, UsedRange;
    assert [] + UsedRange(list, 16 * (g + 1), 256 - 16 * (g + 1)) == UsedRange(list, 16 * (g + 1), 256 - 16 * (g + 1));
  }

  lemma {:induction false} RangeOfUsed(data: seq<byte>, v: nat)
    requires v <= 256
    ensures UsedRange(Used(data), v, 256 - v) == UsedFrom(data, v)
    decreases 256 - v
  {
    if v < 256 {
      RangeOfUsed(data, v + 1);
      var b: byte := v;
      assert b in Used(data) <==> b in data;
    }
  }

  /** The map of a block's bytes is read back as the same list. */
  lemma ReadInUseBits(data: seq<byte>, rest: seq<bool>)
    ensures ReadInUse(InUseBits(Used(data)) + rest) == Some((Used(data), rest))
  {
    RangeOfUsed(data, 0);
    UsedWhole(data);
    hide Used, UsedFrom, MemberFlags, GroupFlags, ReadGroups, UsedRange;
    var list := Used(data);
    var flags := GroupFlags(list, 0, 16);
    ReadGroupsFrom(list, flags, 0, rest);
    SplitFlags(flags, MemberFlags(list, 0), rest);
  }

  lemma UsedWhole(data: seq<byte>)
    ensures Used(data) == UsedFrom(data, 0)
  {
  }

  lemma SplitFlags(flags: seq<bool>, members: seq<bool>, rest: seq<bool>)
    requires |flags| == 16
    ensures ((flags + members) + rest)[..16] == flags && ((flags + members) + rest)[16..] == members + rest
  {
  }

  // ----- Code lengths, each as steps from the one before

  const MAX_LENGTH := 20

  function DeltaBits(current: nat, length: nat): seq<bool>
    decreases if current < length then length - current else current - length
  {
    if current < length then [true, false] + DeltaBits(current + 1, length)
    else if current > length then [true, true] + DeltaBits(current - 1, length)
    else [false]
  }

  function DeltasBits(current: nat, lengths: seq<nat>): seq<bool>
    decreases |lengths|
  {
    if lengths == [] then [] else DeltaBits(current, lengths[0]) + DeltasBits(lengths[0], lengths[1..])
  }

  function LengthsBits(lengths: seq<nat>): seq<bool>
    requires lengths != []
  {
    FieldBits(lengths[0], 5) + DeltasBits(lengths[0], lengths)
  }

  function ReadDelta(current: nat, s: seq<bool>): Option<(nat, seq<bool>)>
    decreases |s|
  {
    if !(1 <= current <= MAX_LENGTH) || s == [] then None
    else if !s[0] then Some((current, s[1..]))
    else if |s| < 2 then None
    else ReadDelta(if s[1] then current - 1 else current + 1, s[2..])
  }

  function ReadDeltas(current: nat, count: nat, s: seq<bool>): Option<(seq<nat>, seq<bool>)>
    decreases count
  {
    if count == 0 then Some(([], s))
    else
      match ReadDelta(current, s)
      case None => None
      case Some((length, s')) =>
        match ReadDeltas(length, count - 1, s')
        case None => None
        case Some((lengths, rest)) => Some(([length] + lengths, rest))
  }

  function ReadLengths(count: nat, s: seq<bool>): Option<(seq<nat>, seq<bool>)> {
    match ReadBits(5, s)
    case None => None
    case Some((current, s')) => ReadDeltas(current, count, s')
  }

  lemma {:induction false} ReadDeltaBits(current: nat, length: nat, rest: seq<bool>)
    requires 1 <= current <= MAX_LENGTH && 1 <= length <= MAX_LENGTH
    ensures ReadDelta(current, DeltaBits(current, length) + rest) == Some((length, rest))
    decreases if current < length then length - current else current - length
  {
    var s := DeltaBits(current, length) + rest;
    if current == length {
      assert s[1..] == rest;
    } else {
      var next := if current < length then current + 1 else current - 1;
      assert s[0] && s[1] == (current > length) && s[2..] == DeltaBits(next, length) + rest;
      ReadDeltaBits(next, length, rest);
    }
  }

  lemma {:induction false} ReadDeltasBits(current: nat, lengths: seq<nat>, rest: seq<bool>)
    requires 1 <= current <= MAX_LENGTH
    requires forall i :: 0 <= i < |lengths| ==> 1 <= lengths[i] <= MAX_LENGTH
    ensures ReadDeltas(current, |lengths|, DeltasBits(current, lengths) + rest) == Some((lengths, rest))
    decreases |lengths|
  {
    if lengths == [] {
      assert DeltasBits(current, lengths) + rest == rest;
    } else {
      var head, tail := DeltaBits(current, lengths[0]), DeltasBits(lengths[0], lengths[1..]);
      assert DeltasBits(current, lengths) == head + tail;
      Assoc(head, tail, rest);
      ReadDeltaBits(current, lengths[0], tail + rest);
      ReadDeltasBits(lengths[0], lengths[1..], rest);
      assert lengths == [lengths[0]] + lengths[1..];
      hide DeltasBits, DeltaBits, ReadDelta;
    }
  }

  /** Delta-coded lengths are read back. */
  lemma ReadLengthsBits(lengths: seq<nat>, rest: seq<bool>)
    requires lengths != [] && forall i :: 0 <= i < |lengths| ==> 1 <= lengths[i] <= MAX_LENGTH
    ensures ReadLengths(|lengths|, LengthsBits(lengths) + rest) == Some((lengths, rest))
  {
    var tail := DeltasBits(lengths[0], lengths);
    Assoc(FieldBits(lengths[0], 5), tail, rest);
    assert Pow2(5) == 32 by { Pow2Values(); }
    ReadField(lengths[0], 5, tail + rest);
    ReadDeltasBits(lengths[0], lengths, rest);
  }
}
