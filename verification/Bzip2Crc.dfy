/** The 32-bit CRC of a block, and how the stream combines the CRCs of its blocks. */
module Bzip2Crc {
  import opened Bits

  /** The generator without its highest power. */
  const GENERATOR: bv32 := 0x04c11db7

  // Words are combined under names, so that proofs need not look at their bits.

  function Xor(a: bv32, b: bv32): bv32 {
    a ^ b
  }

  function Up(c: bv32): bv32 {
    c << 1
  }

  predicate Leaves(c: bv32) {
    c & 0x80000000 != 0
  }

  /** One step of the register: the bit that leaves it decides whether the generator is taken off. */
  function CrcStep(c: bv32): bv32 {
    if Leaves(c) then Xor(Up(c), GENERATOR) else Up(c)
  }

  function CrcSteps(c: bv32, n: nat): bv32
    decreases n
  {
    if n == 0 then c else CrcSteps(CrcStep(c), n - 1)
  }

  /** A byte in the place where its bits enter the register. */
  function Entering(v: bv32): bv32 {
    v << 24
  }

  /** The register after the first `n` bytes, bit by bit. */
  function Register(data: seq<byte>, n: nat): bv32
    requires n <= |data|
  {
    if n == 0 then 0xffffffff else CrcSteps(Xor(Register(data, n - 1), Entering(data[n - 1] as bv32)), 8)
  }

  function Crc(data: seq<byte>): bv32 {
    !Register(data, |data|)
  }

  /** A CRC as the number its field holds. */
  function Number(crc: bv32): (n: nat)
    ensures n < 0x1_0000_0000
  {
    crc as nat
  }

  // ----- The register is linear

  lemma UpXor(a: bv32, b: bv32)
    ensures Up(Xor(a, b)) == Xor(Up(a), Up(b))
  {
  }

  lemma LeavesXor(a: bv32, b: bv32)
    ensures Leaves(Xor(a, b)) <==> Leaves(a) != Leaves(b)
  {
  }

  lemma XorJoins(x: bv32, y: bv32, g: bv32)
    ensures Xor(x, Xor(y, g)) == Xor(Xor(x, y), g)
  {
  }

  lemma XorSwaps(x: bv32, y: bv32)
    ensures Xor(x, y) == Xor(y, x)
  {
  }

  lemma XorTwice(x: bv32, g: bv32)
    ensures Xor(Xor(x, g), g) == x
  {
  }

  lemma StepXor(a: bv32, b: bv32)
    ensures CrcStep(Xor(a, b)) == Xor(CrcStep(a), CrcStep(b))
  {
    hide Xor, Up, Leaves;
    UpXor(a, b);
    LeavesXor(a, b);
    XorJoins(Up(a), Up(b), GENERATOR);
    XorJoins(Up(b), Up(a), GENERATOR);
    XorSwaps(Up(a), Up(b));
    XorSwaps(Up(b), Xor(Up(a), GENERATOR));
    XorJoins(Xor(Up(a), GENERATOR), Up(b), GENERATOR);
    XorTwice(Xor(Up(a), Up(b)), GENERATOR);
  }

  /** What goes through the register together could go through it apart. */
  lemma {:induction false} StepsXor(a: bv32, b: bv32, n: nat)
    ensures CrcSteps(Xor(a, b), n) == Xor(CrcSteps(a, n), CrcSteps(b, n))
    decreases n
  {
    hide CrcStep, Xor;
    if n > 0 {
      StepXor(a, b);
      StepsXor(CrcStep(a), CrcStep(b), n - 1);
    }
  }

  // ----- The table

  /** What eight steps make of a byte alone. */
  function TableEntry(v: byte): bv32 {
    CrcSteps(Entering(v as bv32), 8)
  }

  /** The index of the table: the byte leaving the register over the one entering it. */
  function Index(crc: bv32, v: bv32): bv32 {
    ((crc >> 24) ^ v) & 0xff
  }

  /** The low 24 bits of the register, which eight steps only move. */
  function Staying(crc: bv32): bv32 {
    crc & 0xffffff
  }

  function UpByte(crc: bv32): bv32 {
    crc << 8
  }

  lemma SplitRegister(crc: bv32, v: bv32)
    ensures Xor(crc, Entering(v)) == Xor(Staying(crc), Entering(Index(crc, v)))
  {
  }

  lemma StayingSteps(crc: bv32)
    ensures CrcSteps(Staying(crc), 8) == UpByte(crc)
  {
  }

  /** One lookup does the work of eight steps. */
  lemma LookupSteps(crc: bv32, v: bv32)
    ensures Xor(UpByte(crc), CrcSteps(Entering(Index(crc, v)), 8)) == CrcSteps(Xor(crc, Entering(v)), 8)
  {
    hide CrcSteps, Index, Xor, Entering, Staying, UpByte;
    SplitRegister(crc, v);
    StepsXor(Staying(crc), Entering(Index(crc, v)), 8);
    StayingSteps(crc);
  }

  lemma IndexFits(crc: bv32, v: bv32)
    ensures 0 <= Index(crc, v) as int < 256 && (Index(crc, v) as int) as bv32 == Index(crc, v)
  {
  }

  ghost predicate Filled(table: array<bv32>, n: nat)
    reads table
  {
    table.Length == 256 && forall i :: 0 <= i < n <= 256 ==> table[i] == TableEntry(i)
  }

  method MakeTable() returns (table: array<bv32>)
    ensures fresh(table) && Filled(table, 256)
  {
    hide CrcStep, Entering;
    table := new bv32[256];
    for value := 0 to 256
      invariant Filled(table, value)
    {
      var crc := Entering(value as bv32);
      for bit := 0 to 8
        invariant Filled(table, value) && CrcSteps(crc, 8 - bit) == TableEntry(value)
      {
        crc := CrcStep(crc);
      }
      table[value] := crc;
    }
  }

  // ----- The loop over a block

  /** What a lookup has to give for the register to take a byte. */
  function Needed(crc: bv32, value: byte): bv32 {
    CrcSteps(Entering(Index(crc, value as bv32)), 8)
  }

  /** Where the register and a byte lead in the table. */
  function Place(crc: bv32, value: byte): (i: byte)
    ensures TableEntry(i) == Needed(crc, value)
  {
    hide CrcSteps, Entering, Index;
    IndexFits(crc, value as bv32);
    Index(crc, value as bv32) as int
  }

  /** A register that has taken `n` bytes takes the next one. */
  lemma RegisterStep(data: seq<byte>, n: nat)
    requires n < |data|
    ensures Xor(UpByte(Register(data, n)), Needed(Register(data, n), data[n])) == Register(data, n + 1)
  {
    hide CrcSteps, Xor, Entering, Index, UpByte;
    LookupSteps(Register(data, n), data[n] as bv32);
  }

  /** The loop with the table computes what the register would bit by bit. */
  method ComputeCrc(data: seq<byte>) returns (crc: bv32)
    ensures crc == Crc(data)
  {
    hide CrcSteps, Index, Xor, Entering, UpByte, TableEntry, Place, Needed;
    var table := MakeTable();
    crc := 0xffffffff;
    for i := 0 to |data|
      invariant Filled(table, 256) && crc == Register(data, i)
    {
      RegisterStep(data, i);
      crc := Xor(UpByte(crc), table[Place(crc, data[i])]);
    }
    crc := !crc;
  }

  /** The register after one more byte. */
  function Next(crc: bv32, value: byte): bv32 {
    CrcSteps(Xor(crc, Entering(value as bv32)), 8)
  }

  lemma DigitsOne()
    ensures Next(0xffffffff, 0x31) == 0x9efbcf93
    ensures Next(0x9efbcf93, 0x32) == 0x3fec5e6a
    ensures Next(0x3fec5e6a, 0x33) == 0xd952f164
  {
  }

  lemma DigitsFour()
    ensures Next(0xd952f164, 0x34) == 0xa695c4aa
    ensures Next(0xa695c4aa, 0x35) == 0xbd9ab747
    ensures Next(0xbd9ab747, 0x36) == 0xd8f06c8f
  {
  }

  lemma DigitsSeven()
    ensures Next(0xd8f06c8f, 0x37) == 0x0d8a14c4
    ensures Next(0x0d8a14c4, 0x38) == 0x49e3c2fb
    ensures Next(0x49e3c2fb, 0x39) == 0x0376e6e7
  {
  }

  /** One more byte of a register whose value is known. */
  lemma RegisterAt(data: seq<byte>, n: nat, before: bv32, value: byte, after: bv32)
    requires n < |data| && Register(data, n) == before && data[n] == value
    requires Next(before, value) == after
    ensures Register(data, n + 1) == after
  {
    hide CrcSteps, Xor, Entering;
  }

  /** The check value of CRC-32/BZIP2: the digits from one to nine. */
  lemma CheckValue()
    ensures Crc([0x31, 0x32, 0x33, 0x34, 0x35, 0x36, 0x37, 0x38, 0x39]) == 0xfc891918
  {
    hide Next, Register, Crc;
    var data: seq<byte> := [0x31, 0x32, 0x33, 0x34, 0x35, 0x36, 0x37, 0x38, 0x39];
    DigitsOne();
    DigitsFour();
    DigitsSeven();
    RegisterStart(data);
    RegisterAt(data, 0, 0xffffffff, 0x31, 0x9efbcf93);
    RegisterAt(data, 1, 0x9efbcf93, 0x32, 0x3fec5e6a);
    RegisterAt(data, 2, 0x3fec5e6a, 0x33, 0xd952f164);
    RegisterAt(data, 3, 0xd952f164, 0x34, 0xa695c4aa);
    RegisterAt(data, 4, 0xa695c4aa, 0x35, 0xbd9ab747);
    RegisterAt(data, 5, 0xbd9ab747, 0x36, 0xd8f06c8f);
    RegisterAt(data, 6, 0xd8f06c8f, 0x37, 0x0d8a14c4);
    RegisterAt(data, 7, 0x0d8a14c4, 0x38, 0x49e3c2fb);
    RegisterAt(data, 8, 0x49e3c2fb, 0x39, 0x0376e6e7);
    Finished(data);
  }

  lemma Finished(data: seq<byte>)
    requires Register(data, |data|) == 0x0376e6e7
    ensures Crc(data) == 0xfc891918
  {
    hide Register;
  }

  lemma RegisterStart(data: seq<byte>)
    ensures Register(data, 0) == 0xffffffff
  {
  }

  /** One block's CRC folded into the stream's. */
  function Combine(combined: bv32, crc: bv32): bv32 {
    ((combined << 1) | (combined >> 31)) ^ crc
  }

  lemma CombineBits(combined: bv32, crc: bv32)
    ensures ((combined << 1) | (combined >> 31)) ^ crc == Combine(combined, crc)
  {
  }

  /** Folding turns what is there by one bit and takes the new CRC over it. */
  lemma CombineTurns(combined: bv32, crc: bv32)
    ensures Combine(combined, crc) == combined.RotateLeft(1) ^ crc
    ensures Combine(combined, crc) == Xor(Turn(combined), crc)
  {
  }

  lemma TurnBits(a: bv32, b: bv32)
    ensures (a ^ b).RotateLeft(1) == a.RotateLeft(1) ^ b.RotateLeft(1)
  {
  }

  function Turn(c: bv32): bv32 {
    c.RotateLeft(1)
  }

  lemma TurnXor(a: bv32, b: bv32)
    ensures Turn(Xor(a, b)) == Xor(Turn(a), Turn(b))
  {
    TurnBits(a, b);
  }
}
