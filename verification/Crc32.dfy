/**
 amiCrc32RCreateTable and amiCrc32RCalc of mxdevices.c: the table-driven CRC-32
 against the bit-by-bit reflected one (polynomial 0xEDB88320, section 8 of
 RFC 1952).
 */
module Crc32 {
  import opened Words

  /** Shifting one bit out of the register. */
  function Step(v: bv32): bv32 {
    if LowBit(v) == 1 then Xor(Half(v), POLY) else Half(v)
  }

  function Steps(v: bv32, n: nat): bv32
    decreases n
  {
    if n == 0 then v else Steps(Step(v), n - 1)
  }

  /** The reference: the n low bits of p enter the register one at a time, low bit first. */
  function Serial(v: bv32, p: bv32, n: nat): bv32
    decreases n
  {
    if n == 0 then v else Serial(Step(Xor(v, LowBit(p))), Half(p), n - 1)
  }

  function Register(v: bv32, data: seq<bv8>): bv32
    decreases |data|
  {
    if data == [] then v else Register(Serial(v, Wide(data[0]), 8), data[1..])
  }

  /** The bit-by-bit CRC of data, continuing from a previous CRC. */
  function Crc(data: seq<bv8>, initial: bv32): bv32 {
    Not(Register(Not(initial), data))
  }

  // ------------------------------------------------------------ linearity

  lemma StepXor(a: bv32, b: bv32)
    ensures Step(Xor(a, b)) == Xor(Step(a), Step(b))
  {
    XorHalves(a, b);
    XorHalves(b, a);
    SmallXor();
    XorComm(Half(b), POLY);
    XorAssoc(Half(a), POLY, Xor(POLY, Half(b)));
    XorAssoc(POLY, POLY, Half(b));
    XorSelf(POLY);
    XorSelf(Half(b));
    XorAside(Half(a), Half(b), POLY);
    XorAssoc(Half(a), Half(b), POLY);
    hide Xor, Half, LowBit;
  }

  lemma {:induction false} StepsXor(a: bv32, b: bv32, n: nat)
    ensures Steps(Xor(a, b), n) == Xor(Steps(a, n), Steps(b, n))
    decreases n
  {
    hide Step, Xor, Half, LowBit;
    if n > 0 {
      StepXor(a, b);
      StepsXor(Step(a), Step(b), n - 1);
    }
  }

  function Shift(p: bv32, n: nat): bv32
    decreases n
  {
    if n == 0 then p else Shift(Half(p), n - 1)
  }

  lemma StepFeed(v: bv32, p: bv32)
    ensures Step(Xor(v, p)) == Xor(Step(Xor(v, LowBit(p))), Half(p))
  {
    hide Xor, Half, LowBit;
    LowBitIn(v, p);
    StepXor(Xor(v, LowBit(p)), Xor(p, LowBit(p)));
  }

  /** Feeding n bits one by one is xoring them in at once and shifting n times. */
  lemma {:induction false} SerialIs(v: bv32, p: bv32, n: nat)
    ensures Steps(Xor(v, p), n) == Xor(Serial(v, p, n), Shift(p, n))
    decreases n
  {
    hide Step, Xor, Half, LowBit;
    if n > 0 {
      StepFeed(v, p);
      SerialIs(Step(Xor(v, LowBit(p))), Half(p), n - 1);
    }
  }

  lemma ShiftEight(p: bv32)
    ensures Shift(p, 8) == DropByte(p)
  {
    hide Half, DropByte;
    HalfEight(p);
    var q := Half(Half(Half(Half(p))));
    assert Shift(p, 8) == Shift(q, 4);
    assert Shift(q, 4) == Half(Half(Half(Half(q))));
  }

  lemma ByteSteps(v: bv32, p: bv8)
    ensures Serial(v, Wide(p), 8) == Steps(Xor(v, Wide(p)), 8)
  {
    hide Steps, Serial, Shift, Xor, Wide, DropByte;
    WideSmall(p);
    HalfEight(Wide(p));
    SerialIs(v, Wide(p), 8);
    ShiftEight(Wide(p));
    XorCancel(Serial(v, Wide(p), 8), 0, 0);
  }

  lemma EvenStep(x: bv32, n: nat)
    requires n >= 1 && LowBit(x) == 0
    ensures Steps(x, n) == Steps(Half(x), n - 1)
  {
  }

  /** Eight shifts of a register with its low byte clear only shift. */
  lemma HighSteps(x: bv32)
    ensures Steps(HighBytes(x), 8) == DropByte(x)
  {
    hide Steps, Half, LowBit, HighBytes, DropByte;
    var y := HighBytes(x);
    EvenEight(x);
    HalfEight(y);
    HalfEight(x);
    EvenStep(y, 8);
    EvenStep(Half(y), 7);
    EvenStep(Half(Half(y)), 6);
    EvenStep(Half(Half(Half(y))), 5);
    var z := Half(Half(Half(Half(y))));
    EvenStep(z, 4);
    EvenStep(Half(z), 3);
    EvenStep(Half(Half(z)), 2);
    EvenStep(Half(Half(Half(z))), 1);
    NoSteps(Half(Half(Half(Half(z)))));
  }

  lemma NoSteps(x: bv32)
    ensures Steps(x, 0) == x
  {
  }

  /** The table step: eight shifts are one shift by a byte and one table entry. */
  lemma TableStep(v: bv32, p: bv8)
    ensures Serial(v, Wide(p), 8) == Xor(DropByte(v), Steps(LowByte(Xor(Wide(p), v)), 8))
  {
    hide Steps, Serial, Xor, Wide, DropByte, LowByte, HighBytes;
    var q := Wide(p);
    WideSmall(p);
    ByteSteps(v, p);
    XorComm(v, q);
    SplitWord(Xor(v, q));
    DropSame(v, q);
    StepsXor(HighBytes(Xor(v, q)), LowByte(Xor(q, v)), 8);
    HighSteps(Xor(v, q));
  }

  // ------------------------------------------------------------ chaining

  lemma {:induction false} RegisterConcat(v: bv32, a: seq<bv8>, b: seq<bv8>)
    ensures Register(v, a + b) == Register(Register(v, a), b)
    decreases |a|
  {
    hide Serial, Wide;
    if a == [] {
      assert a + b == b;
    } else {
      assert (a + b)[1..] == a[1..] + b;
      RegisterConcat(Serial(v, Wide(a[0]), 8), a[1..], b);
    }
  }

  lemma NotNot(x: bv32)
    ensures Not(Not(x)) == x
  {
  }

  /** Checksumming in pieces: the CRC of a prefix is the initial value for the rest. */
  lemma CrcChain(a: seq<bv8>, b: seq<bv8>, initial: bv32)
    ensures Crc(a + b, initial) == Crc(b, Crc(a, initial))
  {
    hide Register, Not;
    RegisterConcat(Not(initial), a, b);
    NotNot(Register(Not(initial), a));
  }

  // ------------------------------------------------------------ the table

  /** The first n table entries are those of the table step. */
  ghost predicate Filled(e: seq<bv32>, n: nat) {
    |e| == 256 && forall j: bv8 | (j as int) < n :: e[j as int] == Steps(Wide(j), 8)
  }

  lemma NothingFilled(e: seq<bv32>)
    requires |e| == 256
    ensures Filled(e, 0)
  {
  }

  lemma FilledStep(e: seq<bv32>, n: nat, w: bv32)
    requires Filled(e, n) && n < 256 && w == Steps(n as bv32, 8)
    ensures Filled(e[n := w], n + 1)
  {
    hide Steps;
    forall j: bv8 | (j as int) < n + 1 ensures e[n := w][j as int] == Steps(Wide(j), 8) {
      if j as int == n { SameIndex(j, n); }
    }
  }

  lemma SameIndex(j: bv8, n: nat)
    requires n < 256 && j as int == n
    ensures Wide(j) == n as bv32
  {
    hide Wide;
    assert j == n as bv8;
    IndexWord(n);
  }

  lemma EntryIs(e: seq<bv32>, i: bv8)
    requires Filled(e, 256)
    ensures e[i as int] == Steps(Wide(i), 8)
  {
    hide Steps;
    assert (i as int) < 256;
  }

  method EightSteps(v0: bv32) returns (v: bv32)
    ensures v == Steps(v0, 8)
  {
    hide Step;
    v := v0;
    for b := 0 to 8
      invariant Steps(v0, 8) == Steps(v, 8 - b)
    {
      v := Step(v);
    }
    NoSteps(v);
  }

  class CrcTable {
    const entry: array<bv32>
    var ready: bool

    constructor ()
      ensures Valid() && fresh(this) && fresh(entry)
    {
      entry := new bv32[256];
      ready := false;
    }

    ghost predicate Valid()
      reads this, entry
    {
      entry.Length == 256 && (ready ==> Filled(entry[..], 256))
    }

    /** amiCrc32RCreateTable. */
    method CreateTable()
      requires Valid()
      modifies this, entry
      ensures Valid() && ready
    {
      hide Steps, Filled;
      NothingFilled(entry[..]);
      for i := 0 to 256
        invariant Filled(entry[..], i)
      {
        var v := EightSteps(i as bv32);
        FilledStep(entry[..], i, v);
        entry[i] := v;
      }
      ready := true;
    }

    /** amiCrc32RCalc: the bit-by-bit CRC, one table lookup per byte. */
    method Calc(data: seq<bv8>, initial: bv32) returns (r: bv32)
      requires Valid()
      modifies this, entry
      ensures Valid() && r == Crc(data, initial)
    {
      hide Steps, Serial, Xor, Wide, DropByte, LowByte, Not, Filled;
      if !ready { CreateTable(); }
      var v := Not(initial);
      for k := 0 to |data|
        invariant Valid() && ready
        invariant Register(Not(initial), data) == Register(v, data[k..])
      {
        TableStep(v, data[k]);
        assert data[k..][1..] == data[k + 1..];
        var i := LowIndex(Xor(Wide(data[k]), v));
        EntryIs(entry[..], i);
        v := Xor(DropByte(v), entry[i as int]);
      }
      r := Not(v);
    }
  }

}
