/** The first run-length stage: runs of 4 to 259 equal bytes become 4 bytes and a count. */
module Bzip2Rle {
  import opened Bits

  const MAX_RUN := 259

  function Repeat(x: byte, n: nat): (r: seq<byte>)
    ensures |r| == n
    ensures forall i :: 0 <= i < n ==> r[i] == x
  {
    if n == 0 then [] else Repeat(x, n - 1) + [x]
  }

  lemma RepeatFront(x: byte, n: nat)
    requires n > 0
    ensures Repeat(x, n) == [x] + Repeat(x, n - 1)
  {
  }

  lemma RepeatJoin(x: byte, m: nat, n: nat)
    ensures Repeat(x, m) + Repeat(x, n) == Repeat(x, m + n)
  {
  }

  /** How many of the first `limit` bytes equal `x`, counted to the first that does not. */
  function Run(data: seq<byte>, x: byte, limit: nat): (c: nat)
    ensures c <= limit && c <= |data|
    ensures data[..c] == Repeat(x, c)
    ensures c < limit && c < |data| ==> data[c] != x
  {
    if limit == 0 || data == [] || data[0] != x then 0
    else
      var c := Run(data[1..], x, limit - 1);
      assert data[..c + 1] == [x] + data[1..][..c];
      RepeatFront(x, c + 1);
      c + 1
  }

  /** What a run of `count` bytes is written as. */
  function RunCode(x: byte, count: nat): (r: seq<byte>)
    requires 0 < count <= MAX_RUN
  {
    if count < 4 then Repeat(x, count) else Repeat(x, 4) + [count - 4]
  }

  function Rle(data: seq<byte>): seq<byte>
    decreases |data|
  {
    if data == [] then []
    else
      var count := Run(data, data[0], MAX_RUN);
      assert count > 0;
      RunCode(data[0], count) + Rle(data[count..])
  }

  /** The textbook decoder: after four equal bytes the next one is a repeat count. `run` of the
      bytes just read equal `last`. */
  function UnRle(s: seq<byte>, last: byte, run: nat): seq<byte> {
    if s == [] then []
    else if run == 4 then Repeat(last, s[0]) + UnRle(s[1..], last, 0)
    else [s[0]] + UnRle(s[1..], s[0], if run > 0 && s[0] == last then run + 1 else 1)
  }

  lemma UnRleCopies(x: byte, s: seq<byte>, last: byte, run: nat)
    requires run != 4
    ensures UnRle([x] + s, last, run) == [x] + UnRle(s, x, if run > 0 && x == last then run + 1 else 1)
  {
    assert ([x] + s)[1..] == s;
  }

  lemma UnRleRepeats(count: byte, s: seq<byte>, last: byte)
    ensures UnRle([count] + s, last, 4) == Repeat(last, count) + UnRle(s, last, 0)
  {
    assert ([count] + s)[1..] == s;
  }

  lemma UnRleNothing(last: byte, run: nat)
    ensures UnRle([], last, run) == []
  {
  }

  lemma {:induction false} UnRleContinues(x: byte, run: nat, count: nat, rest: seq<byte>)
    requires 0 < run && run + count <= 4
    ensures UnRle(Repeat(x, count) + rest, x, run) == Repeat(x, count) + UnRle(rest, x, run + count)
    decreases count
  {
    hide UnRle, Repeat;
    if count == 0 {
      assert Repeat(x, count) + rest == rest;
    } else {
      RepeatFront(x, count);
      assert Repeat(x, count) + rest == [x] + (Repeat(x, count - 1) + rest);
      UnRleCopies(x, Repeat(x, count - 1) + rest, x, run);
      UnRleContinues(x, run + 1, count - 1, rest);
    }
  }

  /** Up to four equal bytes that start a run are copied, and leave the decoder in that run. */
  lemma UnRleStarts(x: byte, last: byte, run: nat, count: nat, rest: seq<byte>)
    requires 0 < count <= 4 && run < 4 && (run == 0 || last != x)
    ensures UnRle(Repeat(x, count) + rest, last, run) == Repeat(x, count) + UnRle(rest, x, count)
  {
    hide UnRle, Repeat;
    RepeatFront(x, count);
    assert Repeat(x, count) + rest == [x] + (Repeat(x, count - 1) + rest);
    UnRleCopies(x, Repeat(x, count - 1) + rest, last, run);
    UnRleContinues(x, 1, count - 1, rest);
  }

  lemma UnRleRun(x: byte, last: byte, run: nat, count: nat, rest: seq<byte>)
    requires 0 < count <= MAX_RUN && run < 4 && (run == 0 || last != x)
    ensures UnRle(RunCode(x, count) + rest, last, run)
         == Repeat(x, count) + UnRle(rest, x, if count < 4 then count else 0)
  {
    hide UnRle, Repeat;
    if count < 4 {
      UnRleStarts(x, last, run, count, rest);
    } else {
      Assoc(Repeat(x, 4), [count - 4], rest);
      UnRleStarts(x, last, run, 4, [count - 4] + rest);
      UnRleRepeats(count - 4, rest, x);
      RepeatJoin(x, 4, count - 4);
      Assoc(Repeat(x, 4), Repeat(x, count - 4), UnRle(rest, x, 0));
    }
  }

  lemma RleRun(data: seq<byte>, count: nat)
    requires data != [] && count == Run(data, data[0], MAX_RUN)
    ensures 0 < count <= |data| && Rle(data) == RunCode(data[0], count) + Rle(data[count..])
    ensures data == Repeat(data[0], count) + data[count..]
    ensures count < MAX_RUN && count < |data| ==> data[count] != data[0]
  {
    hide Run, RunCode, Repeat;
    RunStarts(data, data[0], MAX_RUN);
    assert data == data[..count] + data[count..];
  }

  lemma RunStarts(data: seq<byte>, x: byte, limit: nat)
    requires data != [] && data[0] == x && limit > 0
    ensures Run(data, x, limit) > 0
  {
  }

  /** Decoding from any state in which no run can be continued gives the data back. */
  lemma {:induction false} UnRleFrom(data: seq<byte>, last: byte, run: nat)
    requires run < 4 && (run == 0 || data == [] || data[0] != last)
    ensures UnRle(Rle(data), last, run) == data
    decreases |data|
  {
    hide Run, Rle, UnRle, RunCode, Repeat;
    if data == [] {
      assert Rle(data) == [] by {
        RleNothing();
      }
      UnRleNothing(last, run);
    } else {
      var x, count := data[0], Run(data, data[0], MAX_RUN);
      RleRun(data, count);
      UnRleRun(x, last, run, count, Rle(data[count..]));
      UnRleFrom(data[count..], x, if count < 4 then count else 0);
    }
  }

  lemma RleNothing()
    ensures Rle([]) == []
  {
  }

  /** The run-length stage loses nothing. */
  lemma UnRleRle(data: seq<byte>)
    ensures UnRle(Rle(data), 0, 0) == data
  {
    UnRleFrom(data, 0, 0);
  }

  lemma {:induction false} RunOf(x: byte, n: nat, rest: seq<byte>, limit: nat)
    requires rest == [] || rest[0] != x
    ensures Run(Repeat(x, n) + rest, x, limit) == if n < limit then n else limit
    decreases limit
  {
    if n > 0 && limit > 0 {
      RepeatFront(x, n);
      assert (Repeat(x, n) + rest)[1..] == Repeat(x, n - 1) + rest;
      RunOf(x, n - 1, rest, limit - 1);
    } else {
      assert Repeat(x, 0) + rest == rest;
    }
  }

  /** What a run of equal bytes becomes: as it is, or four and a count, or the first 259 of it and the rest. */
  lemma RunCoded(x: byte, n: nat, rest: seq<byte>)
    requires n > 0 && (rest == [] || rest[0] != x)
    ensures n < 4 ==> Rle(Repeat(x, n) + rest) == Repeat(x, n) + Rle(rest)
    ensures 4 <= n <= 259 ==> Rle(Repeat(x, n) + rest) == [x, x, x, x, n - 4] + Rle(rest)
    ensures n > 259 ==> Rle(Repeat(x, n) + rest) == [x, x, x, x, 255] + Rle(Repeat(x, n - 259) + rest)
  {
    var data, count := Repeat(x, n) + rest, if n < 259 then n else 259;
    hide Rle, Run;
    RunOf(x, n, rest, 259);
    RepeatFront(x, n);
    RleRun(data, count);
    RepeatJoin(x, count, n - count);
    assert data[count..] == Repeat(x, n - count) + rest;
    assert n == count ==> Repeat(x, 0) + rest == rest;
    assert Repeat(x, 4) == [x, x, x, x];
  }

  /** The stage grows data by a quarter at most. */
  lemma {:induction false} RleGrowth(data: seq<byte>)
    ensures 4 * |Rle(data)| <= 5 * |data|
    ensures data != [] ==> Rle(data) != []
    decreases |data|
  {
    if data != [] {
      RleGrowth(data[Run(data, data[0], MAX_RUN)..]);
    }
  }

  /** The end of the run that starts at `start`. */
  method RunEnd(data: seq<byte>, start: nat) returns (end: nat)
    requires start < |data|
    ensures start < end <= |data| && end - start == Run(data[start..], data[start], MAX_RUN)
  {
    end := start + 1;
    while end < |data| && data[end] == data[start] && end - start < MAX_RUN
      invariant start < end <= |data| && end - start <= MAX_RUN
      invariant forall i :: start <= i < end ==> data[i] == data[start]
    {
      end := end + 1;
    }
    RunFound(data[start..], data[start], MAX_RUN, end - start);
  }

  /** Appends one run to the output. */
  method AppendRun(output: seq<byte>, x: byte, count: nat) returns (extended: seq<byte>)
    requires 0 < count <= MAX_RUN
    ensures extended == output + RunCode(x, count)
  {
    extended := output;
    if count < 4 {
      for i := 0 to count
        invariant extended == output + Repeat(x, i)
      {
        extended := extended + [x];
      }
    } else {
      FourTimes(x);
      extended := extended + [x, x, x, x, count - 4];
    }
  }

  /** The encoder's loop. */
  method RunLengthEncode(data: seq<byte>) returns (output: seq<byte>)
    ensures output == Rle(data)
  {
    hide *;
    output := [];
    var start := 0;
    NoneEmitted(data);
    while start < |data|
      invariant start <= |data| && Emitted(data, output, start)
    {
      var end := RunEnd(data, start);
      RleStep(data, output, start, end - start);
      output := AppendRun(output, data[start], end - start);
      start := end;
    }
    RleEmpty(data, output);
  }

  /** `output` codes the data before `start`. */
  lemma NoneEmitted(data: seq<byte>)
    ensures Emitted(data, [], 0)
  {
    assert data[0..] == data;
  }

  ghost predicate Emitted(data: seq<byte>, output: seq<byte>, start: nat)
    requires start <= |data|
  {
    output + Rle(data[start..]) == Rle(data)
  }

  lemma RleEmpty(data: seq<byte>, output: seq<byte>)
    requires Emitted(data, output, |data|)
    ensures output == Rle(data)
  {
    assert data[|data|..] == [];
  }

  lemma FourTimes(x: byte)
    ensures Repeat(x, 4) == [x, x, x, x]
  {
  }

  lemma RleStep(data: seq<byte>, output: seq<byte>, start: nat, count: nat)
    requires start < |data| && Emitted(data, output, start)
    requires count == Run(data[start..], data[start], MAX_RUN)
    ensures 0 < count <= MAX_RUN && start + count <= |data|
    ensures Emitted(data, output + RunCode(data[start], count), start + count)
  {
    hide Rle, Run, RunCode;
    var tail := data[start..];
    RleUnfold(tail, count);
    assert tail[count..] == data[start + count..];
    Assoc(output, RunCode(data[start], count), Rle(data[start + count..]));
  }

  lemma RleUnfold(data: seq<byte>, count: nat)
    requires data != [] && count == Run(data, data[0], MAX_RUN)
    ensures 0 < count <= MAX_RUN && count <= |data|
    ensures Rle(data) == RunCode(data[0], count) + Rle(data[count..])
  {
  }

  lemma {:induction false} RunFound(data: seq<byte>, x: byte, limit: nat, count: nat)
    requires count <= |data| && count <= limit
    requires forall i :: 0 <= i < count ==> data[i] == x
    requires count == |data| || count == limit || data[count] != x
    ensures Run(data, x, limit) == count
  {
    if count > 0 {
      RunFound(data[1..], x, limit - 1, count - 1);
    }
  }
}
