/**
 32-bit words as the CRC uses them.  The operations are named functions so that
 inductive proofs can hide their bits; the few facts about bits are lemmas here.
 */
module Words {

  /** The reflected CRC-32 polynomial. */
  const POLY: bv32 := 0xEDB88320

  function Xor(a: bv32, b: bv32): bv32 { a ^ b }

  function Not(a: bv32): bv32 { !a }

  function Half(v: bv32): bv32 { v >> 1 }

  function LowBit(v: bv32): bv32 { v & 1 }

  function LowByte(v: bv32): bv32 { v & 0xff }

  function HighBytes(v: bv32): bv32 { v & 0xFFFFFF00 }

  function DropByte(v: bv32): bv32 { v >> 8 }

  function Wide(p: bv8): bv32 { p as bv32 }

  function Up(v: bv32): bv32 { v << 8 }

  function LowIndex(v: bv32): (i: bv8)
    ensures Wide(i) == LowByte(v)
  {
    (v & 0xff) as bv8
  }

  lemma XorHalves(a: bv32, b: bv32)
    ensures LowBit(Xor(a, b)) == Xor(LowBit(a), LowBit(b)) && Half(Xor(a, b)) == Xor(Half(a), Half(b))
    ensures LowBit(a) == 0 || LowBit(a) == 1
  {
  }

  lemma XorAssoc(a: bv32, b: bv32, c: bv32)
    ensures Xor(Xor(a, b), c) == Xor(a, Xor(b, c))
  {
  }

  lemma XorComm(a: bv32, b: bv32)
    ensures Xor(a, b) == Xor(b, a)
  {
  }

  lemma XorSelf(a: bv32)
    ensures Xor(a, a) == 0 && Xor(a, 0) == a && Xor(0, a) == a
  {
  }

  lemma XorAside(x: bv32, y: bv32, p: bv32)
    ensures Xor(Xor(x, p), y) == Xor(Xor(x, y), p)
  {
    hide Xor;
    XorAssoc(x, p, y);
    XorComm(p, y);
    XorAssoc(x, y, p);
  }

  lemma XorCancel(a: bv32, b: bv32, c: bv32)
    ensures Xor(a, c) == Xor(b, c) ==> a == b
    ensures Xor(a, 0) == a
  {
    hide Xor;
    XorAssoc(a, c, c);
    XorAssoc(b, c, c);
    XorSelf(c);
    XorSelf(a);
    XorSelf(b);
  }

  lemma SmallXor()
    ensures Xor(0, 0) == 0 && Xor(0, 1) == 1 && Xor(1, 0) == 1 && Xor(1, 1) == 0
  {
  }

  lemma SplitWord(x: bv32)
    ensures x == Xor(HighBytes(x), LowByte(x))
  {
  }

  lemma DropXor(v: bv32, p: bv32)
    ensures DropByte(Xor(v, p)) == Xor(DropByte(v), DropByte(p))
  {
  }

  lemma DropSmall(p: bv32)
    requires p < 256
    ensures DropByte(p) == 0
  {
  }

  lemma DropSame(v: bv32, p: bv32)
    requires p < 256
    ensures DropByte(Xor(v, p)) == DropByte(v)
  {
    hide Xor, DropByte;
    DropXor(v, p);
    DropSmall(p);
    XorSelf(DropByte(v));
  }

  lemma LowBitIn(v: bv32, p: bv32)
    ensures Xor(v, p) == Xor(Xor(v, LowBit(p)), Xor(p, LowBit(p)))
    ensures LowBit(Xor(p, LowBit(p))) == 0 && Half(Xor(p, LowBit(p))) == Half(p)
  {
  }

  lemma WideSmall(p: bv8)
    ensures Wide(p) < 256
  {
  }

  lemma HalfEight(x: bv32)
    ensures Half(Half(Half(Half(Half(Half(Half(Half(x)))))))) == DropByte(x)
    ensures x < 256 ==> DropByte(x) == 0
    ensures DropByte(HighBytes(x)) == DropByte(x)
  {
  }

  lemma EvenEight(x: bv32)
    ensures var y := HighBytes(x);
            LowBit(y) == 0 && LowBit(Half(y)) == 0 && LowBit(Half(Half(y))) == 0 && LowBit(Half(Half(Half(y)))) == 0
    ensures var y := Half(Half(Half(Half(HighBytes(x)))));
            LowBit(y) == 0 && LowBit(Half(y)) == 0 && LowBit(Half(Half(y))) == 0 && LowBit(Half(Half(Half(y)))) == 0
  {
  }

  /** The top bit of the polynomial is set, so a step can be undone. */
  lemma HalfPoly(x: bv32, y: bv32)
    ensures Half(x) != Xor(Half(y), POLY)
    ensures Half(x) == Half(y) && LowBit(x) == LowBit(y) ==> x == y
  {
  }

  predicate Fits(v: bv32, n: nat) {
    if n == 0 then v == 0 else if n == 1 then v < 0x100 else if n == 2 then v < 0x1_0000 else n > 3 || v < 0x100_0000
  }

  lemma PutByte(p: bv8, v: bv32, n: nat)
    requires Fits(v, n) && n <= 3
    ensures Fits(Xor(Wide(p), Up(v)), n + 1)
  {
    if n == 0 {} else if n == 1 {} else if n == 2 {} else {}
  }

  lemma TakeLow(p: bv8, v: bv32)
    ensures LowByte(Xor(Wide(p), Up(v))) == Wide(p)
  {
  }

  lemma DropUp(v: bv32)
    requires v < 0x100_0000
    ensures HighBytes(Up(v)) == Up(v) && DropByte(Up(v)) == v
  {
  }

  lemma DropPut(p: bv8, v: bv32)
    requires v < 0x100_0000
    ensures DropByte(Xor(Wide(p), Up(v))) == v
  {
    hide Xor, Wide, Up, DropByte, HighBytes;
    DropUp(v);
    WideSmall(p);
    DropXor(Wide(p), Up(v));
    DropSmall(Wide(p));
    XorSelf(v);
  }

  lemma WideInjective(a: bv8, b: bv8)
    ensures Wide(a) == Wide(b) ==> a == b
  {
  }

  lemma NoneFit()
    ensures Fits(0, 0)
  {
  }

  lemma FitsThree(v: bv32, n: nat)
    requires Fits(v, n) && n <= 3
    ensures v < 0x100_0000
  {
  }

  lemma IndexWord(n: nat)
    requires n < 256
    ensures Wide(n as bv8) == n as bv32
  {
  }
}
