/** Writing the parts of a block header bit by bit. */
module Bzip2FieldWriter {
  import opened Bits
  import opened Bzip2BitWriter
  import opened Bzip2Codes
  import opened Bzip2FixedCodes
  import opened Bzip2Format
  import opened Bzip2Coding

  /** The writer has still to emit `rest` to have emitted `target`. */
  ghost predicate Owes(w: BitWriter, rest: seq<bool>, target: seq<bool>)
    reads w
  {
    w.Valid() && w.Written() + rest == target
  }

  method WriteField(w: BitWriter, count: nat, v: nat, ghost rest: seq<bool>, ghost target: seq<bool>)
    requires count <= 57 && v < Bzip2BitWriter.UINT32
    requires Owes(w, FieldBits(v, count) + rest, target)
    modifies w
    ensures Owes(w, rest, target)
  {
    hide FieldBits;
    Assoc(w.Written(), FieldBits(v, count), rest);
    w.WriteBits(count, v);
  }

  method WriteBit(w: BitWriter, b: bool, ghost rest: seq<bool>, ghost target: seq<bool>)
    requires Owes(w, [b] + rest, target)
    modifies w
    ensures Owes(w, rest, target)
  {
    hide FieldBits, Owes;
    OneBit(b);
    if b {
      WriteField(w, 1, 1, rest, target);
    } else {
      WriteField(w, 1, 0, rest, target);
    }
  }

  // ----- The map of bytes in use

  method CollectGroups(used: seq<byte>) returns (present: array<bool>, groups: array<bool>)
    ensures fresh(present) && fresh(groups) && present.Length == 256 && groups.Length == 16
    ensures forall v :: 0 <= v < 256 ==> (present[v] <==> v in used)
    ensures forall g :: 0 <= g < 16 ==> (groups[g] <==> GroupUsed(used, g))
  {
    present := new bool[256](_ => false);
    groups := new bool[16](_ => false);
    for i := 0 to |used|
      invariant forall v :: 0 <= v < 256 ==> (present[v] <==> v in used[..i])
      invariant forall g :: 0 <= g < 16 ==> (groups[g] <==> GroupUsed(used[..i], g))
    {
      var value := used[i];
      present[value] := true;
      groups[value / 16] := true;
      assert used[..i + 1] == used[..i] + [value];
      forall g | 0 <= g < 16 ensures groups[g] <==> GroupUsed(used[..i + 1], g) {
        GroupUsedStep(used[..i], value, g);
      }
    }
    assert used[..|used|] == used;
  }

  lemma GroupUsedStep(list: seq<byte>, value: byte, g: nat)
    ensures GroupUsed(list + [value], g) <==> GroupUsed(list, g) || value / 16 == g
  {
    assert value in list + [value];
    assert forall x :: x in list ==> x in list + [value];
  }

  lemma GroupFlagsStep(list: seq<byte>, g: nat, count: nat, rest: seq<bool>)
    requires count > 0
    ensures GroupFlags(list, g, count) + rest == [GroupUsed(list, g)] + (GroupFlags(list, g + 1, count - 1) + rest)
  {
  }

  lemma FlagsStep(list: seq<byte>, v: nat, count: nat, rest: seq<bool>)
    requires count > 0
    ensures Flags(list, v, count) + rest == [v in list] + (Flags(list, v + 1, count - 1) + rest)
  {
  }

  lemma MemberFlagsStep(list: seq<byte>, g: nat, rest: seq<bool>)
    requires g < 16
    ensures MemberFlags(list, g) + rest
         == if GroupUsed(list, g) then Flags(list, 16 * g, 16) + (MemberFlags(list, g + 1) + rest)
            else MemberFlags(list, g + 1) + rest
  {
    if GroupUsed(list, g) {
      Assoc(Flags(list, 16 * g, 16), MemberFlags(list, g + 1), rest);
    } else {
      assert [] + MemberFlags(list, g + 1) == MemberFlags(list, g + 1);
    }
  }

  lemma NothingLeft(list: seq<byte>, rest: seq<bool>)
    ensures GroupFlags(list, 16, 0) + rest == rest
    ensures MemberFlags(list, 16) + rest == rest
    ensures forall v :: Flags(list, v, 0) + rest == rest
  {
  }

  method WriteGroup(w: BitWriter, used: seq<byte>, present: seq<bool>, group: nat, ghost rest: seq<bool>,
      ghost target: seq<bool>)
    requires group < 16 && |present| == 256 && forall v :: 0 <= v < 256 ==> (present[v] <==> v in used)
    requires Owes(w, Flags(used, 16 * group, 16) + rest, target)
    modifies w
    ensures Owes(w, rest, target)
  {
    hide *;
    for value := 16 * group to 16 * group + 16
      invariant Owes(w, Flags(used, value, 16 * group + 16 - value) + rest, target)
    {
      ghost var left := 16 * group + 16 - value;
      FlagsStep(used, value, left, rest);
      WriteBit(w, present[value], Flags(used, value + 1, left - 1) + rest, target);
    }
    NothingLeft(used, rest);
  }

  method WriteGroupFlags(w: BitWriter, used: seq<byte>, groups: seq<bool>, ghost rest: seq<bool>,
      ghost target: seq<bool>)
    requires |groups| == 16 && forall g :: 0 <= g < 16 ==> (groups[g] <==> GroupUsed(used, g))
    requires Owes(w, GroupFlags(used, 0, 16) + rest, target)
    modifies w
    ensures Owes(w, rest, target)
  {
    hide *;
    for group := 0 to 16
      invariant Owes(w, GroupFlags(used, group, 16 - group) + rest, target)
    {
      ghost var left := 16 - group;
      GroupFlagsStep(used, group, left, rest);
      WriteBit(w, groups[group], GroupFlags(used, group + 1, left - 1) + rest, target);
    }
    NothingLeft(used, rest);
  }

  method WriteMembers(w: BitWriter, used: seq<byte>, present: seq<bool>, groups: seq<bool>, ghost rest: seq<bool>,
      ghost target: seq<bool>)
    requires |present| == 256 && forall v :: 0 <= v < 256 ==> (present[v] <==> v in used)
    requires |groups| == 16 && forall g :: 0 <= g < 16 ==> (groups[g] <==> GroupUsed(used, g))
    requires Owes(w, MemberFlags(used, 0) + rest, target)
    modifies w
    ensures Owes(w, rest, target)
  {
    hide *;
    for group := 0 to 16
      invariant Owes(w, MemberFlags(used, group) + rest, target)
    {
      MemberFlagsStep(used, group, rest);
      if groups[group] {
        WriteGroup(w, used, present, group, MemberFlags(used, group + 1) + rest, target);
      }
    }
    NothingLeft(used, rest);
  }

  method WriteInUse(w: BitWriter, used: seq<byte>, ghost rest: seq<bool>, ghost target: seq<bool>)
    requires Owes(w, InUseBits(used) + rest, target)
    modifies w
    ensures Owes(w, rest, target)
  {
    Assoc(GroupFlags(used, 0, 16), MemberFlags(used, 0), rest);
    assert InUseBits(used) + rest == GroupFlags(used, 0, 16) + (MemberFlags(used, 0) + rest);
    hide *;
    var presentTable, groupTable := CollectGroups(used);
    var present, groups := presentTable[..], groupTable[..];
    WriteGroupFlags(w, used, groups, MemberFlags(used, 0) + rest, target);
    WriteMembers(w, used, present, groups, rest, target);
  }

  // ----- Code lengths

  lemma DeltaStep(current: nat, length: nat, rest: seq<bool>)
    ensures DeltaBits(current, length) + rest
         == if current < length then [true] + ([false] + (DeltaBits(current + 1, length) + rest))
            else if current > length then [true] + ([true] + (DeltaBits(current - 1, length) + rest))
            else [false] + rest
  {
  }

  method WriteDelta(w: BitWriter, start: nat, length: nat, ghost rest: seq<bool>, ghost target: seq<bool>)
    returns (current: nat)
    requires Owes(w, DeltaBits(start, length) + rest, target)
    modifies w
    ensures Owes(w, rest, target) && current == length
  {
    hide *;
    current := start;
    while current < length
      invariant start <= length ==> current <= length
      invariant Owes(w, DeltaBits(current, length) + rest, target)
    {
      DeltaStep(current, length, rest);
      WriteBit(w, true, [false] + (DeltaBits(current + 1, length) + rest), target);
      WriteBit(w, false, DeltaBits(current + 1, length) + rest, target);
      current := current + 1;
    }
    while current > length
      invariant current >= length
      invariant Owes(w, DeltaBits(current, length) + rest, target)
    {
      DeltaStep(current, length, rest);
      WriteBit(w, true, [true] + (DeltaBits(current - 1, length) + rest), target);
      WriteBit(w, true, DeltaBits(current - 1, length) + rest, target);
      current := current - 1;
    }
    DeltaStep(current, length, rest);
    WriteBit(w, false, rest, target);
  }

  lemma DeltasStep(current: nat, lengths: seq<nat>, i: nat, rest: seq<bool>)
    requires i < |lengths|
    ensures DeltasBits(current, lengths[i..]) + rest
         == DeltaBits(current, lengths[i]) + (DeltasBits(lengths[i], lengths[i + 1..]) + rest)
  {
    assert lengths[i..][0] == lengths[i] && lengths[i..][1..] == lengths[i + 1..];
    Assoc(DeltaBits(current, lengths[i]), DeltasBits(lengths[i], lengths[i + 1..]), rest);
  }

  lemma DeltasEnd(current: nat, lengths: seq<nat>, rest: seq<bool>)
    ensures DeltasBits(current, lengths[|lengths|..]) + rest == rest
  {
  }

  lemma LengthsStart(lengths: seq<nat>, rest: seq<bool>)
    requires lengths != []
    ensures LengthsBits(lengths) + rest == FieldBits(lengths[0], 5) + (DeltasBits(lengths[0], lengths[0..]) + rest)
  {
    assert lengths[0..] == lengths;
    Assoc(FieldBits(lengths[0], 5), DeltasBits(lengths[0], lengths), rest);
  }

  method WriteCodeLengths(w: BitWriter, lengths: seq<nat>, ghost rest: seq<bool>, ghost target: seq<bool>)
    requires lengths != [] && lengths[0] < 256
    requires Owes(w, LengthsBits(lengths) + rest, target)
    modifies w
    ensures Owes(w, rest, target)
  {
    hide Owes, LengthsBits, DeltasBits, FieldBits;
    LengthsStart(lengths, rest);
    var current := lengths[0];
    WriteField(w, 5, current, DeltasBits(current, lengths[0..]) + rest, target);
    for i := 0 to |lengths|
      invariant Owes(w, DeltasBits(current, lengths[i..]) + rest, target)
    {
      DeltasStep(current, lengths, i, rest);
      current := WriteDelta(w, current, lengths[i], DeltasBits(lengths[i], lengths[i + 1..]) + rest, target);
    }
    DeltasEnd(current, lengths, rest);
  }

  // ----- Symbols

  lemma SymbolsStep(symbols: seq<nat>, lengths: seq<nat>, i: nat, rest: seq<bool>)
    requires InAlphabet(symbols, |lengths|) && i < |symbols|
    ensures InAlphabet(symbols[i..], |lengths|) && InAlphabet(symbols[i + 1..], |lengths|)
    ensures SymbolsBits(symbols[i..], lengths) + rest
         == CodeBits(lengths, symbols[i]) + (SymbolsBits(symbols[i + 1..], lengths) + rest)
  {
    assert symbols[i..][0] == symbols[i] && symbols[i..][1..] == symbols[i + 1..];
    Assoc(CodeBits(lengths, symbols[i]), SymbolsBits(symbols[i + 1..], lengths), rest);
  }

  /** Each symbol goes out as its code in as many bits as its length says. */
  method WriteSymbols(w: BitWriter, symbols: seq<nat>, lengths: seq<nat>, codes: seq<nat>, ghost rest: seq<bool>,
      ghost target: seq<bool>)
    requires |codes| == |lengths| && InAlphabet(symbols, |lengths|)
    requires forall i :: 0 <= i < |lengths| ==>
      lengths[i] <= 57 && codes[i] == Code(lengths, i) < Bzip2BitWriter.UINT32
    requires Owes(w, SymbolsBits(symbols, lengths) + rest, target)
    modifies w
    ensures Owes(w, rest, target)
  {
    assert symbols[0..] == symbols;
    hide SymbolsBits, Code, CodeBits, FieldBits, Owes;
    for i := 0 to |symbols|
      invariant InAlphabet(symbols[i..], |lengths|)
      invariant Owes(w, SymbolsBits(symbols[i..], lengths) + rest, target)
    {
      var symbol := symbols[i];
      SymbolsStep(symbols, lengths, i, rest);
      CodeField(lengths, symbol);
      WriteField(w, lengths[symbol], codes[symbol], SymbolsBits(symbols[i + 1..], lengths) + rest, target);
    }
    NoSymbols(symbols[|symbols|..], lengths, rest);
  }

  lemma CodeField(lengths: seq<nat>, i: nat)
    requires i < |lengths|
    ensures CodeBits(lengths, i) == FieldBits(Code(lengths, i), lengths[i])
  {
  }

  lemma NoSymbols(symbols: seq<nat>, lengths: seq<nat>, rest: seq<bool>)
    requires |symbols| == 0
    ensures SymbolsBits(symbols, lengths) + rest == rest
  {
  }

  lemma ZerosStep(n: nat, rest: seq<bool>)
    ensures n > 0 ==> Zeros(n) + rest == [false] + (Zeros(n - 1) + rest)
    ensures n == 0 ==> Zeros(n) + rest == rest
  {
  }

  lemma CodingParts(symbols: seq<nat>, alphaSize: nat, rest: seq<bool>)
    requires alphaSize >= 1 && InAlphabet(symbols, alphaSize)
    ensures var n, t := SelectorCount(symbols), TablesBits(symbols, alphaSize);
      CodingBits(symbols, alphaSize) + rest == FieldBits(2, 3) + (FieldBits(n, 15) + (Zeros(n) + (t + rest)))
    ensures var l := Lengths(alphaSize);
      TablesBits(symbols, alphaSize) + rest
        == LengthsBits(l) + (LengthsBits(l) + (SymbolsBits(symbols, l) + rest))
  {
    var n, t, l := SelectorCount(symbols), TablesBits(symbols, alphaSize), Lengths(alphaSize);
    var lb, sb := LengthsBits(l), SymbolsBits(symbols, l);
    assert t == lb + (lb + sb);
    assert CodingBits(symbols, alphaSize) == FieldBits(2, 3) + (FieldBits(n, 15) + (Zeros(n) + t));
    hide *;
    Assoc(lb, lb + sb, rest);
    Assoc(lb, sb, rest);
    Assoc(FieldBits(2, 3), FieldBits(n, 15) + (Zeros(n) + t), rest);
    Assoc(FieldBits(n, 15), Zeros(n) + t, rest);
    Assoc(Zeros(n), t, rest);
  }

  method WriteTables(w: BitWriter, symbols: seq<nat>, alphaSize: nat, ghost rest: seq<bool>, ghost target: seq<bool>)
    requires 2 <= alphaSize <= 258 && InAlphabet(symbols, alphaSize)
    requires Owes(w, TablesBits(symbols, alphaSize) + rest, target)
    modifies w
    ensures Owes(w, rest, target)
  {
    var codeLengths := FixedCodeLengths(alphaSize);
    forall i | 0 <= i < alphaSize
      ensures codeLengths[i] <= 9 && Code(codeLengths, i) < Bzip2FixedCodes.UINT32
      ensures Assigned(codeLengths, i, 255) == Code(codeLengths, i)
    {
      CodesExact(alphaSize, i);
    }
    hide *;
    var codes := CanonicalCodes(codeLengths);
    CodingParts(symbols, alphaSize, rest);
    ghost var lb, sb := LengthsBits(codeLengths), SymbolsBits(symbols, codeLengths) + rest;
    WriteCodeLengths(w, codeLengths, lb + sb, target);
    WriteCodeLengths(w, codeLengths, sb, target);
    WriteSymbols(w, symbols, codeLengths, codes, rest, target);
  }

  method WriteZeros(w: BitWriter, count: nat, ghost rest: seq<bool>, ghost target: seq<bool>)
    requires Owes(w, Zeros(count) + rest, target)
    modifies w
    ensures Owes(w, rest, target)
  {
    hide *;
    for i := 0 to count
      invariant Owes(w, Zeros(count - i) + rest, target)
    {
      ZerosStep(count - i, rest);
      WriteBit(w, false, Zeros(count - i - 1) + rest, target);
    }
    ZerosStep(0, rest);
  }

  /** Two groups, every selector 0, the one table twice, then the symbols. */
  method WriteCoding(w: BitWriter, symbols: seq<nat>, alphaSize: nat, ghost rest: seq<bool>, ghost target: seq<bool>)
    requires 2 <= alphaSize <= 258 && InAlphabet(symbols, alphaSize) && |symbols| <= 1_000_000
    requires Owes(w, CodingBits(symbols, alphaSize) + rest, target)
    modifies w
    ensures Owes(w, rest, target)
  {
    var selectorCount := (|symbols| + 49) / 50;
    if selectorCount == 0 {
      selectorCount := 1;
    }
    assert selectorCount == SelectorCount(symbols) < 0x8000;
    hide Owes, CodingBits, TablesBits, FieldBits, Zeros, SelectorCount, InAlphabet;
    ghost var n, t := selectorCount, TablesBits(symbols, alphaSize) + rest;
    CodingParts(symbols, alphaSize, rest);
    WriteField(w, 3, 2, FieldBits(n, 15) + (Zeros(n) + t), target);
    WriteField(w, 15, selectorCount, Zeros(n) + t, target);
    WriteZeros(w, selectorCount, t, target);
    WriteTables(w, symbols, alphaSize, rest, target);
  }
}
