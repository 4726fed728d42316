/** Move-to-front coding with runs of zeros in bijective base 2. */
module Bzip2Mtf {
  import opened Bits
  import opened Outcomes
  import opened Bzip2Rle

  // ----- The bytes a block uses

  /** The byte values from `v` on that occur in `data`, in order. */
  function UsedFrom(data: seq<byte>, v: nat): (r: seq<byte>)
    requires v <= 256
    ensures forall x: byte :: x in r <==> v <= x && x in data
    decreases 256 - v
  {
    if v == 256 then []
    else if v in data then [v] + UsedFrom(data, v + 1)
    else UsedFrom(data, v + 1)
  }

  function Used(data: seq<byte>): (r: seq<byte>)
    ensures forall x: byte :: x in r <==> x in data
  {
    UsedFrom(data, 0)
  }

  ghost predicate Ascending(list: seq<byte>) {
    forall i, j :: 0 <= i < j < |list| ==> list[i] < list[j]
  }

  lemma {:induction false} UsedAscending(data: seq<byte>, v: nat)
    requires v <= 256
    ensures Ascending(UsedFrom(data, v)) && |UsedFrom(data, v)| <= 256 - v
    decreases 256 - v
  {
    if v < 256 {
      UsedAscending(data, v + 1);
      var r := UsedFrom(data, v + 1);
      forall i | 0 <= i < |r| ensures v < r[i] {
        assert r[i] in r;
      }
    }
  }

  // ----- The list

  function Find(list: seq<byte>, x: byte): (p: nat)
    requires x in list
    ensures p < |list| && list[p] == x
    ensures forall i :: 0 <= i < p ==> list[i] != x
  {
    if list[0] == x then 0 else 1 + Find(list[1..], x)
  }

  function MoveFront(list: seq<byte>, p: nat): (r: seq<byte>)
    requires p < |list|
    ensures |r| == |list| && r[0] == list[p]
  {
    [list[p]] + list[..p] + list[p + 1..]
  }

  predicate AllIn(data: seq<byte>, list: seq<byte>) {
    forall x :: x in data ==> x in list
  }

  lemma AllInTail(data: seq<byte>, list: seq<byte>)
    requires AllIn(data, list) && data != []
    ensures data[0] in list && AllIn(data[1..], list)
  {
    assert data[0] in data;
    forall x | x in data[1..] ensures x in list {
      assert x in data;
    }
  }

  lemma AllInMoved(data: seq<byte>, list: seq<byte>, p: nat)
    requires AllIn(data, list) && p < |list|
    ensures AllIn(data, MoveFront(list, p))
  {
    assert list == list[..p] + [list[p]] + list[p + 1..];
  }

  // ----- Runs of zeros

  /** The digits emitted for `value`, least significant first. */
  function ZeroDigits(value: nat): (d: seq<nat>)
    ensures d != [] && |d| <= value + 1
    ensures forall i :: 0 <= i < |d| ==> d[i] < 2
  {
    [value % 2] + (if value < 2 then [] else ZeroDigits((value - 2) / 2))
  }

  function ZeroRun(n: nat): (d: seq<nat>)
    ensures |d| <= n
    ensures forall i :: 0 <= i < |d| ==> d[i] < 2
    ensures n > 0 ==> d != []
  {
    if n == 0 then [] else ZeroDigits(n - 1)
  }

  /** What digits mean: the sum of `(d[i] + 1) * 2^i`. */
  function Bijective(d: seq<nat>): nat {
    if d == [] then 0 else d[0] + 1 + 2 * Bijective(d[1..])
  }

  lemma {:induction false} DigitsMeanValue(value: nat)
    ensures Bijective(ZeroDigits(value)) == value + 1
  {
    var d := ZeroDigits(value);
    if value >= 2 {
      DigitsMeanValue((value - 2) / 2);
      assert d[1..] == ZeroDigits((value - 2) / 2);
    }
  }

  /** A run of zeros is written as the bijective base-2 numeral of its length. */
  lemma ZeroRunMeans(n: nat)
    ensures Bijective(ZeroRun(n)) == n
  {
    if n > 0 {
      DigitsMeanValue(n - 1);
    }
  }

  // ----- The symbols

  /** The symbols for `data` with `zeros` positions 0 pending. */
  function Symbols(data: seq<byte>, list: seq<byte>, zeros: nat): (s: seq<nat>)
    requires AllIn(data, list)
    decreases |data|
  {
    if data == [] then ZeroRun(zeros) + [|list| + 1]
    else
      AllInTail(data, list);
      var p := Find(list, data[0]);
      if p == 0 then Symbols(data[1..], list, zeros + 1)
      else
        AllInMoved(data[1..], list, p);
        ZeroRun(zeros) + [p + 1] + Symbols(data[1..], MoveFront(list, p), 0)
  }

  ghost predicate EndsOnce(symbols: seq<nat>, end: nat) {
    && symbols != [] && symbols[|symbols| - 1] == end
    && forall i :: 0 <= i < |symbols| - 1 ==> symbols[i] < end
  }

  lemma EndsOncePrefix(d: seq<nat>, symbols: seq<nat>, end: nat)
    requires EndsOnce(symbols, end) && forall i :: 0 <= i < |d| ==> d[i] < end
    ensures EndsOnce(d + symbols, end)
  {
  }

  /** The end mark comes last and only there; there is at most one symbol more than bytes. */
  lemma {:induction false} SymbolsShape(data: seq<byte>, list: seq<byte>, zeros: nat)
    requires list != [] && AllIn(data, list)
    ensures EndsOnce(Symbols(data, list, zeros), |list| + 1)
    ensures |Symbols(data, list, zeros)| <= |data| + zeros + 1
    decreases |data|
  {
    if data == [] {
      EndsOncePrefix(ZeroRun(zeros), [|list| + 1], |list| + 1);
    } else {
      AllInTail(data, list);
      var p := Find(list, data[0]);
      if p == 0 {
        SymbolsShape(data[1..], list, zeros + 1);
      } else {
        AllInMoved(data[1..], list, p);
        SymbolsShape(data[1..], MoveFront(list, p), 0);
        EndsOncePrefix(ZeroRun(zeros) + [p + 1], Symbols(data[1..], MoveFront(list, p), 0), |list| + 1);
      }
    }
  }

  // ----- Decoding

  /** The textbook decoder: `digits` are the run digits read since the last position. */
  function Expand(symbols: seq<nat>, list: seq<byte>, digits: seq<nat>): Option<seq<byte>> {
    if symbols == [] || list == [] then None
    else
      var sym := symbols[0];
      if sym < 2 then Expand(symbols[1..], list, digits + [sym])
      else
        var run := Repeat(list[0], Bijective(digits));
        if sym > |list| then if sym == |list| + 1 && |symbols| == 1 then Some(run) else None
        else
          match Expand(symbols[1..], MoveFront(list, sym - 1), [])
          case None => None
          case Some(rest) => Some(run + [list[sym - 1]] + rest)
  }

  lemma {:induction false} ExpandDigits(d: seq<nat>, rest: seq<nat>, list: seq<byte>, digits: seq<nat>)
    requires list != [] && forall i :: 0 <= i < |d| ==> d[i] < 2
    ensures Expand(d + rest, list, digits) == Expand(rest, list, digits + d)
    decreases |d|
  {
    if d == [] {
      assert d + rest == rest && digits + d == digits;
    } else {
      assert (d + rest)[0] == d[0] && (d + rest)[1..] == d[1..] + rest;
      ExpandDigits(d[1..], rest, list, digits + [d[0]]);
      assert digits + [d[0]] + d[1..] == digits + d;
    }
  }

  lemma ExpandRun(zeros: nat, rest: seq<nat>, list: seq<byte>)
    requires list != []
    ensures Expand(ZeroRun(zeros) + rest, list, []) == Expand(rest, list, ZeroRun(zeros))
  {
    ExpandDigits(ZeroRun(zeros), rest, list, []);
    assert [] + ZeroRun(zeros) == ZeroRun(zeros);
  }

  lemma RepeatShift(x: byte, zeros: nat, rest: seq<byte>)
    ensures Repeat(x, zeros + 1) + rest == Repeat(x, zeros) + ([x] + rest)
  {
  }

  lemma {:induction false} ExpandFrom(data: seq<byte>, list: seq<byte>, zeros: nat)
    requires list != [] && AllIn(data, list)
    ensures Expand(Symbols(data, list, zeros), list, []) == Some(Repeat(list[0], zeros) + data)
    decreases |data|
  {
    hide Bijective, ZeroRun, Repeat, MoveFront, AllIn;
    if data == [] {
      ExpandRun(zeros, [|list| + 1], list);
      ZeroRunMeans(zeros);
      assert Repeat(list[0], zeros) + data == Repeat(list[0], zeros);
    } else {
      AllInTail(data, list);
      assert data == [data[0]] + data[1..];
      var p := Find(list, data[0]);
      if p == 0 {
        ExpandFrom(data[1..], list, zeros + 1);
        RepeatShift(list[0], zeros, data[1..]);
      } else {
        AllInMoved(data[1..], list, p);
        var moved := MoveFront(list, p);
        var tail := Symbols(data[1..], moved, 0);
        ExpandFrom(data[1..], moved, 0);
        assert Repeat(moved[0], 0) + data[1..] == data[1..];
        Assoc(ZeroRun(zeros), [p + 1], tail);
        ExpandPosition(list, zeros, p, tail, data[1..]);
        Assoc(Repeat(list[0], zeros), [data[0]], data[1..]);
      }
    }
  }

  lemma ExpandPosition(list: seq<byte>, zeros: nat, p: nat, tail: seq<nat>, data: seq<byte>)
    requires 0 < p < |list|
    requires Expand(tail, MoveFront(list, p), []) == Some(data)
    ensures Expand(ZeroRun(zeros) + ([p + 1] + tail), list, [])
         == Some(Repeat(list[0], zeros) + [list[p]] + data)
  {
    var rest := [p + 1] + tail;
    ExpandRun(zeros, rest, list);
    ZeroRunMeans(zeros);
    assert rest[0] == p + 1 && rest[1..] == tail;
  }

  /** Move-to-front coding loses nothing, given the bytes in use. */
  lemma ExpandSymbols(data: seq<byte>)
    requires data != []
    ensures AllIn(data, Used(data)) && Used(data) != []
    ensures Expand(Symbols(data, Used(data), 0), Used(data), []) == Some(data)
  {
    assert data[0] in Used(data) && AllIn(data, Used(data));
    ExpandFrom(data, Used(data), 0);
    assert Repeat(Used(data)[0], 0) + data == data;
  }

  // ----- The encoder's loops

  /** The bytes in use, found through a table of flags. */
  method CollectUsed(data: seq<byte>) returns (used: seq<byte>)
    ensures used == Used(data)
  {
    var present := new bool[256](_ => false);
    for i := 0 to |data|
      invariant forall v :: 0 <= v < 256 ==> (present[v] <==> v in data[..i])
    {
      present[data[i]] := true;
      assert data[..i + 1] == data[..i] + [data[i]];
    }
    assert data[..|data|] == data;
    used := [];
    for v := 0 to 256
      invariant forall v :: 0 <= v < 256 ==> (present[v] <==> v in data)
      invariant used + UsedFrom(data, v) == Used(data)
    {
      if present[v] {
        Assoc(used, [v], UsedFrom(data, v + 1));
        used := used + [v];
      }
    }
  }

  method LookUp(list: array<byte>, value: byte) returns (position: nat)
    requires value in list[..]
    ensures position < list.Length && position == Find(list[..], value)
  {
    position := 0;
    while list[position] != value
      invariant position < list.Length && value !in list[..position]
      decreases list.Length - position
    {
      position := position + 1;
      assert list[..position] == list[..position - 1] + [list[position - 1]];
      NotYet(list[..], value, position);
    }
    FindUnique(list[..], value, position);
  }

  lemma NotYet(list: seq<byte>, value: byte, position: nat)
    requires value in list && position <= |list| && value !in list[..position]
    ensures position < |list|
  {
    assert list[..|list|] == list;
  }

  lemma FindUnique(list: seq<byte>, value: byte, position: nat)
    requires position < |list| && list[position] == value && value !in list[..position]
    ensures Find(list, value) == position
  {
    forall i | 0 <= i < position ensures list[i] != value {
      assert list[..position][i] == list[i];
    }
  }

  /** Slides the bytes before `position` up by one and puts `value` in front. */
  method ShiftFront(list: array<byte>, position: nat, value: byte)
    requires position < list.Length && list[position] == value
    modifies list
    ensures list[..] == MoveFront(old(list[..]), position)
  {
    forall i | 1 <= i <= position {
      list[i] := list[i - 1];
    }
    list[0] := value;
  }

  /** What is still to be coded, after what has been. */
  ghost predicate Coded(data: seq<byte>, used: seq<byte>, i: nat, symbols: seq<nat>, list: seq<byte>, zeros: nat)
    requires i <= |data|
  {
    && AllIn(data, used) && AllIn(data[i..], list) && |list| == |used|
    && symbols + Symbols(data[i..], list, zeros) == Symbols(data, used, 0)
  }

  lemma SymbolsUnfold(data: seq<byte>, list: seq<byte>, zeros: nat)
    requires data != [] && AllIn(data, list)
    ensures data[0] in list && AllIn(data[1..], list)
    ensures var p := Find(list, data[0]);
      AllIn(data[1..], MoveFront(list, p)) &&
      Symbols(data, list, zeros) ==
        if p == 0 then Symbols(data[1..], list, zeros + 1)
        else (ZeroRun(zeros) + [p + 1]) + Symbols(data[1..], MoveFront(list, p), 0)
  {
    AllInTail(data, list);
    AllInMoved(data[1..], list, Find(list, data[0]));
  }

  lemma CodedStep(data: seq<byte>, used: seq<byte>, i: nat, symbols: seq<nat>, list: seq<byte>, zeros: nat)
    requires i < |data| && Coded(data, used, i, symbols, list, zeros)
    ensures data[i] in list
    ensures var p := Find(list, data[i]);
      if p == 0 then Coded(data, used, i + 1, symbols, list, zeros + 1)
      else Coded(data, used, i + 1, symbols + (ZeroRun(zeros) + [p + 1]), MoveFront(list, p), 0)
  {
    hide Symbols, AllIn, ZeroRun;
    var tail := data[i..];
    assert tail[0] == data[i] && tail[1..] == data[i + 1..];
    SymbolsUnfold(tail, list, zeros);
    var p := Find(list, data[i]);
    if p != 0 {
      Assoc(symbols, ZeroRun(zeros) + [p + 1], Symbols(data[i + 1..], MoveFront(list, p), 0));
    }
  }

  lemma CodedStart(data: seq<byte>)
    ensures Coded(data, Used(data), 0, [], Used(data), 0)
  {
    assert data[0..] == data;
    assert [] + Symbols(data, Used(data), 0) == Symbols(data, Used(data), 0);
  }

  lemma CodedEnd(data: seq<byte>, used: seq<byte>, symbols: seq<nat>, list: seq<byte>, zeros: nat)
    requires Coded(data, used, |data|, symbols, list, zeros)
    ensures AllIn(data, used) && symbols + ZeroRun(zeros) + [|used| + 1] == Symbols(data, used, 0)
  {
    assert data[|data|..] == [];
    Assoc(symbols, ZeroRun(zeros), [|used| + 1]);
  }

  /** The digits of a run of at least one zero. */
  method EmitZeroRun(length: nat) returns (values: seq<nat>)
    requires length > 0
    ensures values == ZeroRun(length)
  {
    values := [];
    var value: nat := length - 1;
    while true
      invariant values + ZeroDigits(value) == ZeroRun(length)
      decreases value
    {
      ghost var digits := ZeroDigits(value);
      var digit := if value % 2 == 0 then 0 else 1;
      assert digits == [digit] + (if value < 2 then [] else ZeroDigits((value - 2) / 2));
      hide ZeroDigits, ZeroRun;
      Assoc(values, [digit], if value < 2 then [] else ZeroDigits((value - 2) / 2));
      values := values + [digit];
      if value < 2 {
        return;
      }
      value := (value - 2) / 2;
    }
  }

  method FlushZeros(symbols: seq<nat>, zeros: nat) returns (flushed: seq<nat>)
    ensures flushed == symbols + ZeroRun(zeros)
  {
    if zeros == 0 {
      return symbols;
    }
    var run := EmitZeroRun(zeros);
    flushed := symbols + run;
  }

  /** Codes one byte and moves it to the front. */
  method EncodeByte(value: byte, list: array<byte>, symbols: seq<nat>, zeros: nat)
    returns (extended: seq<nat>, pending: nat)
    requires value in list[..]
    modifies list
    ensures Find(old(list[..]), value) == 0 ==>
      extended == symbols && pending == zeros + 1 && list[..] == old(list[..])
    ensures Find(old(list[..]), value) != 0 ==>
      extended == symbols + (ZeroRun(zeros) + [Find(old(list[..]), value) + 1]) && pending == 0
      && list[..] == MoveFront(old(list[..]), Find(old(list[..]), value))
  {
    hide *;
    var position := LookUp(list, value);
    if position == 0 {
      return symbols, zeros + 1;
    }
    extended := FlushZeros(symbols, zeros);
    Assoc(symbols, ZeroRun(zeros), [position + 1]);
    extended := extended + [position + 1];
    pending := 0;
    ShiftFront(list, position, value);
  }

  method ListOf(used: seq<byte>) returns (list: array<byte>)
    ensures fresh(list) && list[..] == used
  {
    list := new byte[|used|](i requires 0 <= i < |used| => used[i]);
  }

  /** The move-to-front stage: the symbols and the bytes in use. */
  method MoveToFrontEncode(data: seq<byte>) returns (symbols: seq<nat>, used: seq<byte>)
    ensures used == Used(data)
    ensures AllIn(data, used) && symbols == Symbols(data, used, 0)
  {
    hide *;
    used := CollectUsed(data);
    var list := ListOf(used);
    CodedStart(data);
    symbols := [];
    var zeros := 0;
    for i := 0 to |data|
      invariant Coded(data, used, i, symbols, list[..], zeros)
    {
      CodedStep(data, used, i, symbols, list[..], zeros);
      symbols, zeros := EncodeByte(data[i], list, symbols, zeros);
    }
    CodedEnd(data, used, symbols, list[..], zeros);
    symbols := FlushZeros(symbols, zeros);
    symbols := symbols + [|used| + 1];
  }
}
