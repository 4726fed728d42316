/** The coded form of a sorted column, and a reference decoder for it. The decoder takes any
    number of coding tables, any selectors and any code lengths the format allows; it knows
    nothing of the fixed choices that the writer makes. */
module Bzip2Coding {
  import opened Bits
  import opened Outcomes
  import opened Bzip2BitWriter
  import opened Bzip2Mtf
  import opened Bzip2Codes
  import opened Bzip2FixedCodes
  import opened Bzip2Format

  // ----- Coded symbols

  const GROUP_SIZE := 50

  ghost predicate InAlphabet(symbols: seq<nat>, alphaSize: nat) {
    forall i :: 0 <= i < |symbols| ==> symbols[i] < alphaSize
  }

  function SymbolsBits(symbols: seq<nat>, lengths: seq<nat>): seq<bool>
    requires InAlphabet(symbols, |lengths|)
  {
    if symbols == [] then [] else CodeBits(lengths, symbols[0]) + SymbolsBits(symbols[1..], lengths)
  }

  /** Symbols up to the end mark; each group of 50 uses the table that its selector names. */
  function ReadSymbols(tables: seq<seq<nat>>, selectors: seq<nat>, index: nat, end: nat, s: seq<bool>)
    : Option<(seq<nat>, seq<bool>)>
    decreases GROUP_SIZE * |selectors| - index
  {
    if index >= GROUP_SIZE * |selectors| then None
    else
      var t := selectors[index / GROUP_SIZE];
      if t >= |tables| then None
      else
        match DecodeSymbol(tables[t], MAX_LENGTH, s)
        case None => None
        case Some((sym, s')) =>
          if sym == end then Some(([sym], s'))
          else
            match ReadSymbols(tables, selectors, index + 1, end, s')
            case None => None
            case Some((symbols, rest)) => Some(([sym] + symbols, rest))
  }

  /** Symbols are read back exactly when the selectors reach for them, each for 50. */
  lemma {:induction false} ReadSymbolsBits(
    symbols: seq<nat>, lengths: seq<nat>, tables: seq<seq<nat>>, selectors: seq<nat>, index: nat, end: nat,
      rest: seq<bool>)
    requires Kraft(lengths, MAX_LENGTH)
    requires InAlphabet(symbols, |lengths|) && EndsOnce(symbols, end)
    requires tables != [] && tables[0] == lengths
    requires forall i :: 0 <= i < |selectors| ==> selectors[i] == 0
    ensures ReadSymbols(tables, selectors, index, end, SymbolsBits(symbols, lengths) + rest)
      == if index + |symbols| <= 50 * |selectors| then Some((symbols, rest)) else None
    decreases |symbols|
  {
    hide Kraft, CodeBits, DecodeSymbol, SymbolsBits, ReadSymbols;
    if index >= 50 * |selectors| {
      NoSelector(tables, selectors, index, end, SymbolsBits(symbols, lengths) + rest);
      return;
    }
    var sym, tail := symbols[0], symbols[1..];
    OneSymbol(symbols, lengths, tables, selectors, index, end, rest);
    if |symbols| > 1 {
      TailEnds(symbols, end);
      ReadSymbolsBits(tail, lengths, tables, selectors, index + 1, end, rest);
    }
    assert symbols == if |symbols| == 1 then [sym] else [sym] + tail;
  }

  lemma NoSelector(tables: seq<seq<nat>>, selectors: seq<nat>, index: nat, end: nat, s: seq<bool>)
    requires index >= 50 * |selectors|
    ensures ReadSymbols(tables, selectors, index, end, s) == None
  {
  }

  lemma TailEnds(symbols: seq<nat>, end: nat)
    requires EndsOnce(symbols, end) && |symbols| > 1
    ensures EndsOnce(symbols[1..], end) && symbols[0] != end
  {
  }

  /** The first symbol is read, and the rest of them behind it. */
  lemma OneSymbol(
    symbols: seq<nat>, lengths: seq<nat>, tables: seq<seq<nat>>, selectors: seq<nat>, index: nat, end: nat,
      rest: seq<bool>)
    requires Kraft(lengths, MAX_LENGTH)
    requires InAlphabet(symbols, |lengths|) && EndsOnce(symbols, end)
    requires tables != [] && tables[0] == lengths
    requires index < GROUP_SIZE * |selectors|
    requires forall i :: 0 <= i < |selectors| ==> selectors[i] == 0
    ensures InAlphabet(symbols[1..], |lengths|)
    ensures ReadSymbols(tables, selectors, index, end, SymbolsBits(symbols, lengths) + rest)
      == if |symbols| == 1 then Some(([symbols[0]], rest))
         else match ReadSymbols(tables, selectors, index + 1, end, SymbolsBits(symbols[1..], lengths) + rest)
           case None => None
           case Some((more, s)) => Some(([symbols[0]] + more, s))
  {
    hide Kraft, CodeBits, DecodeSymbol;
    var sym, tail := symbols[0], SymbolsBits(symbols[1..], lengths);
    assert selectors[index / GROUP_SIZE] == 0;
    Assoc(CodeBits(lengths, sym), tail, rest);
    DecodeCode(lengths, MAX_LENGTH, sym, tail + rest);
    if |symbols| == 1 {
      assert tail + rest == rest;
    }
  }

  // ----- Selectors and tables

  function ReadUnary(s: seq<bool>, limit: nat): Option<(nat, seq<bool>)>
    decreases limit
  {
    if s == [] then None
    else if !s[0] then Some((0, s[1..]))
    else if limit == 0 then None
    else
      match ReadUnary(s[1..], limit - 1)
      case None => None
      case Some((n, rest)) => Some((n + 1, rest))
  }

  /** Selectors are indices into a move-to-front list of the groups. */
  function ReadSelectors(count: nat, groups: seq<nat>, s: seq<bool>): Option<(seq<nat>, seq<bool>)>
    requires groups != []
    decreases count
  {
    if count == 0 then Some(([], s))
    else
      match ReadUnary(s, |groups| - 1)
      case None => None
      case Some((j, s')) =>
        if j >= |groups| then None
        else
          match ReadSelectors(count - 1, [groups[j]] + groups[..j] + groups[j + 1..], s')
          case None => None
          case Some((selectors, rest)) => Some(([groups[j]] + selectors, rest))
  }

  function ReadTables(count: nat, alphaSize: nat, s: seq<bool>): Option<(seq<seq<nat>>, seq<bool>)>
    decreases count
  {
    if count == 0 then Some(([], s))
    else
      match ReadLengths(alphaSize, s)
      case None => None
      case Some((lengths, s')) =>
        match ReadTables(count - 1, alphaSize, s')
        case None => None
        case Some((tables, rest)) => Some(([lengths] + tables, rest))
  }

  function ZeroSelectors(n: nat): (r: seq<nat>)
    ensures |r| == n && forall i :: 0 <= i < n ==> r[i] == 0
  {
    seq(n, _ => 0)
  }

  lemma {:induction false} ReadZeroSelectors(count: nat, groups: seq<nat>, rest: seq<bool>)
    requires groups != [] && groups[0] == 0
    ensures ReadSelectors(count, groups, Zeros(count) + rest) == Some((ZeroSelectors(count), rest))
    decreases count
  {
    if count == 0 {
      assert Zeros(count) + rest == rest;
    } else {
      var s := Zeros(count) + rest;
      assert !s[0] && s[1..] == Zeros(count - 1) + rest;
      assert [groups[0]] + groups[..0] + groups[1..] == groups;
      ReadZeroSelectors(count - 1, groups, rest);
      assert [0] + ZeroSelectors(count - 1) == ZeroSelectors(count);
    }
  }

  lemma ReadTwoTables(lengths: seq<nat>, rest: seq<bool>)
    requires lengths != [] && forall i :: 0 <= i < |lengths| ==> 1 <= lengths[i] <= MAX_LENGTH
    ensures ReadTables(2, |lengths|, LengthsBits(lengths) + (LengthsBits(lengths) + rest))
      == Some(([lengths, lengths], rest))
  {
    ReadLengthsBits(lengths, LengthsBits(lengths) + rest);
    ReadLengthsBits(lengths, rest);
    hide LengthsBits, ReadLengths;
    assert [lengths] + [] == [lengths] && [lengths] + [lengths] == [lengths, lengths];
    assert ReadTables(0, |lengths|, rest) == Some(([], rest));
    assert ReadTables(1, |lengths|, LengthsBits(lengths) + rest) == Some(([lengths], rest));
  }

  // ----- The coding of a symbol list

  function SelectorCount(symbols: seq<nat>): nat {
    if (|symbols| + 49) / 50 == 0 then 1 else (|symbols| + 49) / 50
  }

  function TablesBits(symbols: seq<nat>, alphaSize: nat): seq<bool>
    requires alphaSize >= 1 && InAlphabet(symbols, alphaSize)
  {
    var lengths := Lengths(alphaSize);
    LengthsBits(lengths) + (LengthsBits(lengths) + SymbolsBits(symbols, lengths))
  }

  /** Group and selector counts, the selectors, two equal tables, the symbols. */
  function CodingBits(symbols: seq<nat>, alphaSize: nat): seq<bool>
    requires alphaSize >= 1 && InAlphabet(symbols, alphaSize)
  {
    FieldBits(2, 3) + (FieldBits(SelectorCount(symbols), 15)
    + (Zeros(SelectorCount(symbols)) + TablesBits(symbols, alphaSize)))
  }

  function GroupNumbers(n: nat): (r: seq<nat>)
    ensures |r| == n && forall i :: 0 <= i < n ==> r[i] == i
  {
    seq(n, i => i)
  }

  function ReadTabled(groups: nat, selectors: seq<nat>, alphaSize: nat, s: seq<bool>): Option<(seq<nat>, seq<bool>)>
    requires alphaSize >= 1
  {
    match ReadTables(groups, alphaSize, s)
    case None => None
    case Some((tables, s1)) => ReadSymbols(tables, selectors, 0, alphaSize - 1, s1)
  }

  function ReadCoded(groups: nat, count: nat, alphaSize: nat, s: seq<bool>): Option<(seq<nat>, seq<bool>)>
    requires groups >= 1 && alphaSize >= 1
  {
    match ReadSelectors(count, GroupNumbers(groups), s)
    case None => None
    case Some((selectors, s1)) => ReadTabled(groups, selectors, alphaSize, s1)
  }

  function ReadCoding(alphaSize: nat, s: seq<bool>): Option<(seq<nat>, seq<bool>)> {
    match ReadBits(3, s)
    case None => None
    case Some((groups, s1)) =>
      if !(2 <= groups <= 6) || alphaSize == 0 then None
      else
        match ReadBits(15, s1)
        case None => None
        case Some((count, s2)) => ReadCoded(groups, count, alphaSize, s2)
  }

  lemma {:induction false} KraftWidens(lengths: seq<nat>, l: nat, m: nat)
    requires Kraft(lengths, l) && l <= m
    ensures Kraft(lengths, m)
    decreases m
  {
    if l < m {
      KraftWidens(lengths, l, m - 1);
      KraftStep(lengths, m, |lengths|);
      NoneThatLong(lengths, m, |lengths|);
    }
  }

  lemma {:induction false} NoneThatLong(lengths: seq<nat>, m: nat, n: nat)
    requires n <= |lengths| && forall i :: 0 <= i < |lengths| ==> lengths[i] < m
    ensures CountTo(lengths, m, n) == 0
  {
    if n > 0 {
      NoneThatLong(lengths, m, n - 1);
    }
  }

  lemma LengthsUsable(alphaSize: nat)
    requires 2 <= alphaSize <= 258
    ensures Kraft(Lengths(alphaSize), MAX_LENGTH)
    ensures forall i :: 0 <= i < alphaSize ==> 1 <= Lengths(alphaSize)[i] <= MAX_LENGTH
  {
    LengthsComplete(alphaSize);
    FloorLogSmall(alphaSize);
    KraftWidens(Lengths(alphaSize), FloorLog(alphaSize) + 1, MAX_LENGTH);
  }

  lemma ReadTabledBits(symbols: seq<nat>, alphaSize: nat, rest: seq<bool>)
    requires 2 <= alphaSize <= 258 && InAlphabet(symbols, alphaSize) && EndsOnce(symbols, alphaSize - 1)
    ensures ReadTabled(2, ZeroSelectors(SelectorCount(symbols)), alphaSize, TablesBits(symbols, alphaSize) + rest)
         == Some((symbols, rest))
  {
    var lengths, count := Lengths(alphaSize), SelectorCount(symbols);
    assert |symbols| <= GROUP_SIZE * count;
    LengthsUsable(alphaSize);
    hide *;
    ReadTabledFields(symbols, lengths, alphaSize, ZeroSelectors(count), rest);
    TablesBitsParts(symbols, alphaSize);
  }

  lemma TablesBitsParts(symbols: seq<nat>, alphaSize: nat)
    requires alphaSize >= 1 && InAlphabet(symbols, alphaSize)
    ensures TablesBits(symbols, alphaSize)
         == LengthsBits(Lengths(alphaSize)) + (
           LengthsBits(Lengths(alphaSize)) + SymbolsBits(symbols, Lengths(alphaSize)))
  {
  }

  lemma ReadTabledFields(symbols: seq<nat>, lengths: seq<nat>, alphaSize: nat, selectors: seq<nat>, rest: seq<bool>)
    requires |lengths| == alphaSize >= 2 && Kraft(lengths, MAX_LENGTH)
    requires forall i :: 0 <= i < alphaSize ==> 1 <= lengths[i] <= MAX_LENGTH
    requires InAlphabet(symbols, alphaSize) && EndsOnce(symbols, alphaSize - 1)
    requires |symbols| <= GROUP_SIZE * |selectors| && forall i :: 0 <= i < |selectors| ==> selectors[i] == 0
    ensures ReadTabled(2, selectors, alphaSize,
        (LengthsBits(lengths) + (LengthsBits(lengths) + SymbolsBits(symbols, lengths))) + rest)
      == Some((symbols, rest))
  {
    hide SymbolsBits, LengthsBits, Kraft, EndsOnce, InAlphabet, ReadTables, ReadSymbols;
    var table, coded := LengthsBits(lengths), SymbolsBits(symbols, lengths);
    Assoc(table, table + coded, rest);
    Assoc(table, coded, rest);
    ReadTwoTables(lengths, coded + rest);
    ReadSymbolsBits(symbols, lengths, [lengths, lengths], selectors, 0, alphaSize - 1, rest);
  }

  lemma ReadCodedBits(symbols: seq<nat>, alphaSize: nat, rest: seq<bool>)
    requires 2 <= alphaSize <= 258 && InAlphabet(symbols, alphaSize) && EndsOnce(symbols, alphaSize - 1)
    ensures var count := SelectorCount(symbols);
      ReadCoded(2, count, alphaSize, (Zeros(count) + TablesBits(symbols, alphaSize)) + rest) == Some((symbols, rest))
  {
    hide SelectorCount, Zeros, TablesBits, EndsOnce, ReadSelectors, ReadTabled;
    var count := SelectorCount(symbols);
    Assoc(Zeros(count), TablesBits(symbols, alphaSize), rest);
    ReadZeroSelectors(count, GroupNumbers(2), TablesBits(symbols, alphaSize) + rest);
    ReadTabledBits(symbols, alphaSize, rest);
  }

  /** A coded symbol list is read back. */
  lemma ReadCodingBits(symbols: seq<nat>, alphaSize: nat, rest: seq<bool>)
    requires 2 <= alphaSize <= 258 && InAlphabet(symbols, alphaSize)
    requires EndsOnce(symbols, alphaSize - 1) && |symbols| <= 1_000_000
    ensures ReadCoding(alphaSize, CodingBits(symbols, alphaSize) + rest) == Some((symbols, rest))
  {
    var count := SelectorCount(symbols);
    var d := Zeros(count) + TablesBits(symbols, alphaSize);
    var c := FieldBits(count, 15) + d;
    assert CodingBits(symbols, alphaSize) == FieldBits(2, 3) + c;
    assert count < 0x8000;
    assert Pow2(3) == 8 && Pow2(15) == 0x8000 by { Pow2Values(); }
    ReadCodedBits(symbols, alphaSize, rest);
    hide CodingBits, SelectorCount, TablesBits, FieldBits, Zeros, Pow2, ReadCoded, EndsOnce;
    Assoc(FieldBits(2, 3), c, rest);
    ReadField(2, 3, c + rest);
    Assoc(FieldBits(count, 15), d, rest);
    ReadField(count, 15, d + rest);
    hide ReadBits;
  }

  // ----- A sorted column

  lemma SymbolsCodable(column: seq<byte>)
    requires column != []
    ensures Used(column) != [] && |Used(column)| <= 256 && AllIn(column, Used(column))
    ensures InAlphabet(Symbols(column, Used(column), 0), |Used(column)| + 2)
    ensures EndsOnce(Symbols(column, Used(column), 0), |Used(column)| + 1)
    ensures |Symbols(column, Used(column), 0)| <= |column| + 1
  {
    ExpandSymbols(column);
    UsedAscending(column, 0);
    SymbolsShape(column, Used(column), 0);
  }

  function ColumnBits(column: seq<byte>): seq<bool>
    requires column != []
  {
    SymbolsCodable(column);
    var used := Used(column);
    InUseBits(used) + CodingBits(Symbols(column, used, 0), |used| + 2)
  }

  function ReadColumn(s: seq<bool>): Option<(seq<byte>, seq<bool>)> {
    match ReadInUse(s)
    case None => None
    case Some((used, s1)) =>
      match ReadCoding(|used| + 2, s1)
      case None => None
      case Some((symbols, s2)) =>
        match Expand(symbols, used, [])
        case None => None
        case Some(column) => Some((column, s2))
  }

  lemma ReadColumnBits(column: seq<byte>, rest: seq<bool>)
    requires 0 < |column| <= 100_000
    ensures ReadColumn(ColumnBits(column) + rest) == Some((column, rest))
  {
    hide InUseBits, CodingBits, Symbols, Used, EndsOnce, InAlphabet, AllIn, ReadInUse, ReadCoding, Expand;
    SymbolsCodable(column);
    var used := Used(column);
    var symbols := Symbols(column, used, 0);
    var coding := CodingBits(symbols, |used| + 2);
    assert ColumnBits(column) == InUseBits(used) + coding;
    hide ColumnBits;
    Assoc(InUseBits(used), coding, rest);
    ReadInUseBits(column, coding + rest);
    ReadCodingBits(symbols, |used| + 2, rest);
    ExpandSymbols(column);
  }
}
