/** Which damage a CRC-32 always notices: the error detection the EEPROM check relies on. */
module CrcDetection {
  import opened Words
  import opened Crc32

  lemma StepInjective(a: bv32, b: bv32)
    requires Step(a) == Step(b)
    ensures a == b
  {
    XorHalves(a, b);
    XorHalves(b, a);
    HalfPoly(a, b);
    HalfPoly(b, a);
    XorCancel(Half(a), Half(b), POLY);
    hide Xor, Half, LowBit;
  }

  lemma {:induction false} StepsInjective(a: bv32, b: bv32, n: nat)
    requires Steps(a, n) == Steps(b, n)
    ensures a == b
    decreases n
  {
    hide Step;
    if n > 0 {
      StepsInjective(Step(a), Step(b), n - 1);
      StepInjective(a, b);
    }
  }

  /** The same bytes never make two different registers equal. */
  lemma {:induction false} RegisterInjective(v: bv32, w: bv32, d: seq<bv8>)
    requires Register(v, d) == Register(w, d)
    ensures v == w
    decreases |d|
  {
    hide Serial, Wide, Xor, Steps;
    if d != [] {
      RegisterInjective(Serial(v, Wide(d[0]), 8), Serial(w, Wide(d[0]), 8), d[1..]);
      ByteSteps(v, d[0]);
      ByteSteps(w, d[0]);
      StepsInjective(Xor(v, Wide(d[0])), Xor(w, Wide(d[0])), 8);
      XorCancel(v, w, Wide(d[0]));
    }
  }

  /** Up to four bytes as a word, first byte lowest. */
  function Pack(d: seq<bv8>): bv32
    decreases |d|
  {
    if d == [] then 0 else Xor(Wide(d[0]), Up(Pack(d[1..])))
  }

  lemma {:induction false} PackFits(d: seq<bv8>)
    requires |d| <= 4
    ensures Fits(Pack(d), |d|)
    decreases |d|
  {
    hide Xor, Wide, Up, Fits;
    if d == [] {
      NoneFit();
    } else {
      PackFits(d[1..]);
      PutByte(d[0], Pack(d[1..]), |d| - 1);
    }
  }

  lemma {:induction false} PackInjective(a: seq<bv8>, b: seq<bv8>)
    requires |a| == |b| <= 4 && Pack(a) == Pack(b)
    ensures a == b
    decreases |a|
  {
    hide Xor, Wide, Up, Fits, LowByte, DropByte, HighBytes;
    if a != [] {
      PackFits(a[1..]);
      PackFits(b[1..]);
      FitsThree(Pack(a[1..]), |a| - 1);
      FitsThree(Pack(b[1..]), |a| - 1);
      TakeLow(a[0], Pack(a[1..]));
      TakeLow(b[0], Pack(b[1..]));
      DropPut(a[0], Pack(a[1..]));
      DropPut(b[0], Pack(b[1..]));
      WideInjective(a[0], b[0]);
      PackInjective(a[1..], b[1..]);
      assert a == [a[0]] + a[1..] && b == [b[0]] + b[1..];
    }
  }

  lemma {:induction false} StepsAdd(v: bv32, m: nat, n: nat)
    ensures Steps(v, m + n) == Steps(Steps(v, m), n)
    decreases m
  {
    hide Step;
    if m > 0 { StepsAdd(Step(v), m - 1, n); }
  }

  /** Up to four bytes enter the register as one word. */
  lemma {:induction false} RegisterPack(v: bv32, d: seq<bv8>)
    requires |d| <= 4
    ensures Register(v, d) == Steps(Xor(v, Pack(d)), 8 * |d|)
    decreases |d|
  {
    hide Xor, Wide, Up, Fits, LowByte, DropByte, HighBytes, Steps, Serial;
    if d == [] {
      XorSelf(v);
      NoSteps(v);
    } else {
      var b, r := Wide(d[0]), Pack(d[1..]);
      PackFits(d[1..]);
      FitsThree(r, |d| - 1);
      DropUp(r);
      XorAssoc(v, b, Up(r));
      StepsAdd(Xor(v, Xor(b, Up(r))), 8, 8 * (|d| - 1));
      StepsXor(Xor(v, b), Up(r), 8);
      HighSteps(Up(r));
      ByteSteps(v, d[0]);
      RegisterPack(Serial(v, b, 8), d[1..]);
    }
  }

  /** Damage confined to at most four consecutive bytes always changes the CRC. */
  lemma BurstDetected(p: seq<bv8>, x: seq<bv8>, y: seq<bv8>, s: seq<bv8>, initial: bv32)
    requires |x| == |y| <= 4 && x != y
    ensures Crc(p + x + s, initial) != Crc(p + y + s, initial)
  {
    hide Register, Not, Steps, Xor, Pack;
    var v := Register(Not(initial), p);
    RegisterConcat(Not(initial), p + x, s);
    RegisterConcat(Not(initial), p + y, s);
    RegisterConcat(Not(initial), p, x);
    RegisterConcat(Not(initial), p, y);
    NotNot(Register(Not(initial), p + x + s));
    NotNot(Register(Not(initial), p + y + s));
    if Crc(p + x + s, initial) == Crc(p + y + s, initial) {
      RegisterInjective(Register(v, x), Register(v, y), s);
      RegisterPack(v, x);
      RegisterPack(v, y);
      StepsInjective(Xor(v, Pack(x)), Xor(v, Pack(y)), 8 * |x|);
      XorComm(v, Pack(x));
      XorComm(v, Pack(y));
      XorCancel(Pack(x), Pack(y), v);
      PackInjective(x, y);
      assert false;
    }
  }
}
