/**
 What the CRC of mxdevices.c is, without a shift register: the remainder of a long
 division of polynomials over the integers modulo 2 (section 8 of RFC 1952).  A
 polynomial is written as the list of its coefficients, the highest power first.
 */
module CrcPolynomial {
  import opened Words
  import opened Crc32

  /** The powers of x in the CRC-32 generator. */
  const POWERS: set<nat> := {32, 26, 23, 22, 16, 12, 11, 10, 8, 7, 5, 4, 2, 1, 0}

  function Generator(): (g: seq<bool>)
    ensures |g| == 33 && forall i | 0 <= i < 33 :: g[i] == (32 - i in POWERS)
  {
    seq(33, i requires 0 <= i < 33 => 32 - i in POWERS)
  }

  /** The sum of two polynomials; it is also their difference. */
  function Add(a: seq<bool>, b: seq<bool>): (c: seq<bool>)
    requires |a| == |b|
    ensures |c| == |a| && forall i | 0 <= i < |c| :: c[i] == (a[i] != b[i])
  {
    seq(|a|, i requires 0 <= i < |a| => a[i] != b[i])
  }

  function Zeros(n: nat): (z: seq<bool>)
    ensures |z| == n && forall i | 0 <= i < n :: !z[i]
  {
    seq(n, _ => false)
  }

  /** One line of the division: the generator is subtracted if it goes into the leading power. */
  function Reduced(w: seq<bool>): (r: seq<bool>)
    requires |w| >= 33
    ensures |r| == |w| - 1
  {
    (if w[0] then Add(w[..33], Generator())[1..] else w[1..33]) + w[33..]
  }

  /** Long division by the generator: what is left below its degree. */
  function Remainder(w: seq<bool>): (r: seq<bool>)
    requires |w| >= 32
    ensures |r| == 32
    decreases |w|
  {
    if |w| == 32 then w else Remainder(Reduced(w))
  }

  // ------------------------------------------------------------ it is a remainder

  /** Which multiples of the generator the division subtracts. */
  function Quotient(w: seq<bool>): (q: seq<bool>)
    requires |w| >= 32
    ensures |q| == |w| - 32
    decreases |w|
  {
    if |w| == 32 then [] else [w[0]] + Quotient(Reduced(w))
  }

  /** The product of a polynomial with the generator. */
  function Product(q: seq<bool>): (p: seq<bool>)
    ensures |p| == |q| + 32
    decreases |q|
  {
    if q == [] then Zeros(32)
    else Add(if q[0] then Generator() + Zeros(|q| - 1) else Zeros(|q| + 32), [false] + Product(q[1..]))
  }

  /** The dividend is the quotient times the generator plus the remainder. */
  lemma {:induction false} Division(w: seq<bool>)
    requires |w| >= 32
    ensures w == Add(Product(Quotient(w)), Zeros(|w| - 32) + Remainder(w))
    decreases |w|
  {
    hide Remainder, Generator, Reduced, Product, Quotient, Add, Zeros, Line;
    if |w| > 32 {
      Division(Reduced(w));
      NextLine(w);
      Subtracted(w);
      var z := Zeros(|w| - 33) + Remainder(w);
      OneMoreZero(|w| - 33, Remainder(w));
      Regroup(Line(w), Product(Quotient(Reduced(w))), z);
    } else {
      NoLine(w);
    }
  }

  lemma NoLine(w: seq<bool>)
    requires |w| == 32
    ensures w == Add(Product(Quotient(w)), Zeros(0) + Remainder(w))
  {
  }

  lemma OneMoreZero(n: nat, r: seq<bool>)
    ensures [false] + (Zeros(n) + r) == Zeros(n + 1) + r
  {
  }

  /** What one line of the division subtracts. */
  function Line(w: seq<bool>): (g: seq<bool>)
    requires |w| >= 33
    ensures |g| == |w|
  {
    if w[0] then Generator() + Zeros(|w| - 33) else Zeros(|w|)
  }

  lemma NextLine(w: seq<bool>)
    requires |w| > 32
    ensures Remainder(w) == Remainder(Reduced(w))
    ensures Product(Quotient(w)) == Add(Line(w), [false] + Product(Quotient(Reduced(w))))
  {
    hide Reduced, Generator;
    assert Quotient(w)[1..] == Quotient(Reduced(w));
  }

  lemma Subtracted(w: seq<bool>)
    requires |w| >= 33
    ensures w == Add(Line(w), [false] + Reduced(w))
  {
    assert Generator()[0];
  }

  lemma Regroup(g: seq<bool>, p: seq<bool>, z: seq<bool>)
    requires |g| == |p| + 1 && |p| == |z|
    ensures Add(g, [false] + Add(p, z)) == Add(Add(g, [false] + p), [false] + z)
  {
  }

  // ------------------------------------------------------------ registers and messages as polynomials

  /** The n low bits of a register, low bit first: in the reflected register the lowest bit is the
      coefficient of the highest power. */
  function Coeffs(v: bv32, n: nat): (w: seq<bool>)
    ensures |w| == n
    decreases n
  {
    if n == 0 then [] else [LowBit(v) == 1] + Coeffs(Half(v), n - 1)
  }

  /** The bits of a message in the order they are sent, each byte low bit first. */
  function MessageBits(data: seq<bv8>): (w: seq<bool>)
    ensures |w| == 8 * |data|
    decreases |data|
  {
    if data == [] then [] else Coeffs(Wide(data[0]), 8) + MessageBits(data[1..])
  }

  function Flip(w: seq<bool>): (r: seq<bool>)
    ensures |r| == |w| && forall i | 0 <= i < |r| :: r[i] == !w[i]
  {
    seq(|w|, i requires 0 <= i < |w| => !w[i])
  }

  /** The polynomial divided: the message times x^32, and the initial value added to its front. */
  function Dividend(initial: seq<bool>, message: seq<bool>): (w: seq<bool>)
    requires |initial| == 32
    ensures |w| == |message| + 32
  {
    Add(initial + Zeros(|message|), message + Zeros(32))
  }

  lemma {:induction false} CoeffsAdd(a: bv32, b: bv32, n: nat)
    ensures Coeffs(Xor(a, b), n) == Add(Coeffs(a, n), Coeffs(b, n))
    decreases n
  {
    hide Xor, Half, LowBit;
    if n > 0 {
      XorHalves(a, b);
      XorHalves(b, a);
      SmallXor();
      CoeffsAdd(Half(a), Half(b), n - 1);
    }
  }

  lemma {:induction false} CoeffsSnoc(v: bv32, n: nat)
    ensures Coeffs(v, n + 1) == Coeffs(v, n) + [LowBit(Shift(v, n)) == 1]
    decreases n
  {
    hide Half, LowBit;
    if n > 0 { CoeffsSnoc(Half(v), n - 1); }
  }

  lemma {:induction false} ShiftAdd(v: bv32, m: nat, n: nat)
    ensures Shift(v, m + n) == Shift(Shift(v, m), n)
    decreases m
  {
    hide Half;
    if m > 0 { ShiftAdd(Half(v), m - 1, n); }
  }

  lemma ShiftOut(v: bv32)
    ensures Shift(v, 32) == 0
  {
    hide Shift, DropByte;
    ShiftAdd(v, 8, 24);
    ShiftAdd(Shift(v, 8), 8, 16);
    ShiftAdd(Shift(Shift(v, 8), 8), 8, 8);
    ShiftEight(v);
    ShiftEight(DropByte(v));
    ShiftEight(DropByte(DropByte(v)));
    ShiftEight(DropByte(DropByte(DropByte(v))));
    DropAll(v);
  }

  lemma DropAll(v: bv32)
    ensures DropByte(DropByte(DropByte(DropByte(v)))) == 0
  {
  }

  lemma LowZero()
    ensures LowBit(0) == 0
  {
  }

  /** Halving the register multiplies by x and drops the highest coefficient. */
  lemma CoeffsHalf(v: bv32)
    ensures Coeffs(Half(v), 32) == Coeffs(v, 32)[1..] + [false]
  {
    hide Half, LowBit, Shift;
    CoeffsSnoc(Half(v), 31);
    ShiftOut(v);
    HalfFirst(v, 31);
    LowZero();
    CoeffsTail(v, 31);
  }

  lemma HalfFirst(v: bv32, n: nat)
    ensures Shift(v, n + 1) == Shift(Half(v), n)
  {
  }

  lemma CoeffsTail(v: bv32, n: nat)
    ensures Coeffs(v, n + 1)[1..] == Coeffs(Half(v), n) && Coeffs(v, n + 1)[0] == (LowBit(v) == 1)
  {
    hide Half, LowBit;
  }

  function Bit(b: bool): bv32 {
    if b then 1 else 0
  }

  lemma BitHalf(b: bool)
    ensures LowBit(Bit(b)) == Bit(b) && Half(Bit(b)) == 0 && (Bit(b) == 1 <==> b) && Half(0) == 0 && LowBit(0) == 0
  {
  }

  lemma {:induction false} NoCoeffs(n: nat)
    ensures Coeffs(0, n) == Zeros(n)
    decreases n
  {
    hide Half, LowBit;
    if n > 0 {
      BitHalf(false);
      NoCoeffs(n - 1);
    }
  }

  lemma CoeffsOfBit(b: bool)
    ensures Coeffs(Bit(b), 32) == [b] + Zeros(31)
  {
    hide Half, LowBit, Bit, Coeffs;
    BitHalf(b);
    NoCoeffs(31);
    One(Bit(b), 31);
  }

  lemma AddFirst(c: seq<bool>, b: bool)
    requires |c| == 32
    ensures Add(c, [b] + Zeros(31)) == [c[0] != b] + c[1..]
  {
  }

  /** One bit of the message meets the highest coefficient of the register. */
  lemma CoeffsBit(v: bv32, b: bool)
    ensures Coeffs(Xor(v, Bit(b)), 32) == [(LowBit(v) == 1) != b] + Coeffs(v, 32)[1..]
  {
    hide Half, LowBit, Xor, Bit, Coeffs, Add, Zeros;
    CoeffsAdd(v, Bit(b), 32);
    CoeffsOfBit(b);
    AddFirst(Coeffs(v, 32), b);
    CoeffsTail(v, 31);
  }

  /** The constant of the source is the generator without its leading power. */
  lemma PolyIsGenerator()
    ensures [true] + Coeffs(POLY, 32) == Generator()
  {
    hide Half, LowBit, Generator, Coeffs, DropByte;
    PolyBits0();
    PolyBits1();
    PolyBits2();
    PolyBits3();
    Unroll(POLY, 32);
    Unroll(0xEDB883, 24);
    Unroll(0xEDB8, 16);
    GeneratorLead();
    Generator0();
    Generator1();
    Generator2();
    Generator3();
    var g := Generator();
    assert g == [g[0]] + g[1..9] + g[9..17] + g[17..25] + g[25..33];
  }

  lemma Generator0()
    ensures Generator()[1..9] == [false, false, false, false, false, true, false, false]
  {
    var g := Generator();
    assert !g[1] && !g[2] && !g[3] && !g[4] && !g[5] && g[6] && !g[7] && !g[8];
    SliceEight(g, 1);
  }

  lemma Generator1()
    ensures Generator()[9..17] == [true, true, false, false, false, false, false, true]
  {
    var g := Generator();
    assert g[9] && g[10] && !g[11] && !g[12] && !g[13] && !g[14] && !g[15] && g[16];
    SliceEight(g, 9);
  }

  lemma Generator2()
    ensures Generator()[17..25] == [false, false, false, true, true, true, false, true]
  {
    var g := Generator();
    assert !g[17] && !g[18] && !g[19] && g[20] && g[21] && g[22] && !g[23] && g[24];
    SliceEight(g, 17);
  }

  lemma Generator3()
    ensures Generator()[25..33] == [true, false, true, true, false, true, true, true]
  {
    var g := Generator();
    assert g[25] && !g[26] && g[27] && g[28] && !g[29] && g[30] && g[31] && g[32];
    SliceEight(g, 25);
  }

  lemma SliceEight(g: seq<bool>, i: nat)
    requires i + 8 <= |g|
    ensures g[i..i + 8] == [g[i], g[i + 1], g[i + 2], g[i + 3], g[i + 4], g[i + 5], g[i + 6], g[i + 7]]
  {
  }

  lemma GeneratorLead()
    ensures Generator()[0]
  {
  }

  /** Eight coefficients at once. */
  lemma Unroll(v: bv32, n: nat)
    requires n >= 8
    ensures Coeffs(v, n) == Coeffs(v, 8) + Coeffs(DropByte(v), n - 8)
  {
    hide Half, LowBit, DropByte, Shift;
    CoeffsSplit(v, 8, n - 8);
    ShiftEight(v);
  }

  lemma {:induction false} CoeffsSplit(v: bv32, m: nat, n: nat)
    ensures Coeffs(v, m + n) == Coeffs(v, m) + Coeffs(Shift(v, m), n)
    decreases m
  {
    hide Half, LowBit;
    if m > 0 { CoeffsSplit(Half(v), m - 1, n); }
  }

  lemma One(v: bv32, n: nat)
    ensures Coeffs(v, n + 1) == [LowBit(v) == 1] + Coeffs(Half(v), n) && Coeffs(v, 0) == []
  {
    hide Half, LowBit;
  }

  lemma Four(v: bv32)
    ensures Coeffs(v, 4) == [LowBit(v) == 1, LowBit(Half(v)) == 1, LowBit(Half(Half(v))) == 1, LowBit(Half(Half(Half(v)))) == 1]
  {
    hide Half, LowBit, Coeffs;
    One(v, 3);
    One(Half(v), 2);
    One(Half(Half(v)), 1);
    One(Half(Half(Half(v))), 0);
  }

  lemma ShiftFour(v: bv32)
    ensures Shift(v, 4) == Half(Half(Half(Half(v))))
  {
    hide Half;
  }

  lemma Eight(v: bv32)
    ensures var b := Half(Half(Half(Half(v))));
            Coeffs(v, 8) == [LowBit(v) == 1, LowBit(Half(v)) == 1, LowBit(Half(Half(v))) == 1, LowBit(Half(Half(Half(v)))) == 1]
                            + [LowBit(b) == 1, LowBit(Half(b)) == 1, LowBit(Half(Half(b))) == 1, LowBit(Half(Half(Half(b)))) == 1]
  {
    hide Half, LowBit, Coeffs, Shift;
    CoeffsSplit(v, 4, 4);
    ShiftFour(v);
    Four(v);
    Four(Half(Half(Half(Half(v)))));
  }

  lemma PolyBits0()
    ensures Coeffs(POLY, 8) == [false, false, false, false, false, true, false, false] && DropByte(POLY) == 0xEDB883
  {
    Eight(POLY);
  }

  lemma PolyBits1()
    ensures Coeffs(0xEDB883, 8) == [true, true, false, false, false, false, false, true] && DropByte(0xEDB883) == 0xEDB8
  {
    Eight(0xEDB883);
  }

  lemma PolyBits2()
    ensures Coeffs(0xEDB8, 8) == [false, false, false, true, true, true, false, true] && DropByte(0xEDB8) == 0xED
  {
    Eight(0xEDB8);
  }

  lemma PolyBits3()
    ensures Coeffs(0xED, 8) == [true, false, true, true, false, true, true, true] && DropByte(0xED) == 0
  {
    Eight(0xED);
  }

  // ------------------------------------------------------------ the register divides

  /** The register after the bits of a message. */
  function Feed(v: bv32, message: seq<bool>): bv32
    decreases |message|
  {
    if message == [] then v else Feed(Step(Xor(v, Bit(message[0]))), message[1..])
  }

  lemma StepIs(u: bv32)
    ensures Step(u) == if LowBit(u) == 1 then Xor(Half(u), POLY) else Half(u)
  {
  }

  /** A step of the register is a line of the division. */
  lemma StepReduces(v: bv32, message: seq<bool>)
    requires message != []
    ensures Reduced(Dividend(Coeffs(v, 32), message))
            == Dividend(Coeffs(Step(Xor(v, Bit(message[0]))), 32), message[1..])
  {
    hide Step, Xor, Half, LowBit, Bit, Coeffs, Generator;
    var b, n := message[0], |message|;
    var u := Xor(v, Bit(b));
    var c, d := Coeffs(v, 32), Coeffs(u, 32);
    CoeffsBit(v, b);
    CoeffsTail(v, 31);
    CoeffsTail(u, 31);
    StepIs(u);
    CoeffsHalf(u);
    CoeffsAdd(Half(u), POLY, 32);
    PolyIsGenerator();
    var w := Dividend(c, message);
    assert w[0] == d[0];
    ReducedIs(c, message, d, Coeffs(Step(u), 32));
  }

  lemma ReducedIs(c: seq<bool>, message: seq<bool>, d: seq<bool>, e: seq<bool>)
    requires |c| == 32 && |d| == 32 && |e| == 32 && message != []
    requires d == [c[0] != message[0]] + c[1..]
    requires e == if d[0] then Add(d[1..] + [false], Generator()[1..]) else d[1..] + [false]
    ensures Reduced(Dividend(c, message)) == Dividend(e, message[1..])
  {
    hide Generator;
    var w, r := Dividend(c, message), Dividend(e, message[1..]);
    var s := Reduced(w);
    forall i | 0 <= i < |r| ensures s[i] == r[i] {
      assert message[1..] + Zeros(32) == (message + Zeros(32))[1..];
      assert w[i + 1] == ((c + Zeros(|message|))[i + 1] != (message + Zeros(32))[i + 1]);
    }
  }

  /** The register after a message is the remainder of its dividend. */
  lemma {:induction false} FeedDivides(v: bv32, message: seq<bool>)
    ensures Coeffs(Feed(v, message), 32) == Remainder(Dividend(Coeffs(v, 32), message))
    decreases |message|
  {
    hide Step, Xor, Bit, Coeffs, Reduced;
    if message == [] {
      assert Dividend(Coeffs(v, 32), []) == Coeffs(v, 32);
    } else {
      StepReduces(v, message);
      FeedDivides(Step(Xor(v, Bit(message[0]))), message[1..]);
    }
  }

  lemma {:induction false} SerialFeeds(v: bv32, p: bv32, n: nat)
    ensures Serial(v, p, n) == Feed(v, Coeffs(p, n))
    decreases n
  {
    hide Step, Xor, Half, LowBit;
    if n > 0 {
      XorHalves(p, p);
      SerialFeeds(Step(Xor(v, LowBit(p))), Half(p), n - 1);
      assert Coeffs(p, n)[1..] == Coeffs(Half(p), n - 1);
    }
  }

  lemma {:induction false} FeedConcat(v: bv32, a: seq<bool>, b: seq<bool>)
    ensures Feed(v, a + b) == Feed(Feed(v, a), b)
    decreases |a|
  {
    hide Step, Xor, Bit;
    if a == [] {
      assert a + b == b;
    } else {
      assert (a + b)[1..] == a[1..] + b;
      FeedConcat(Step(Xor(v, Bit(a[0]))), a[1..], b);
    }
  }

  lemma {:induction false} RegisterFeeds(v: bv32, data: seq<bv8>)
    ensures Register(v, data) == Feed(v, MessageBits(data))
    decreases |data|
  {
    hide Serial, Wide, Coeffs, Feed;
    if data == [] {
      FeedNothing(v);
    } else {
      SerialFeeds(v, Wide(data[0]), 8);
      FeedConcat(v, Coeffs(Wide(data[0]), 8), MessageBits(data[1..]));
      RegisterFeeds(Serial(v, Wide(data[0]), 8), data[1..]);
    }
  }

  lemma FeedNothing(v: bv32)
    ensures Feed(v, []) == v
  {
  }

  lemma NotHalves(v: bv32)
    ensures LowBit(Not(v)) == 1 <==> LowBit(v) == 0
    ensures LowBit(v) == 0 || LowBit(v) == 1
  {
  }

  /** Complementing a register flips every coefficient. */
  lemma CoeffsNot(v: bv32)
    ensures Coeffs(Not(v), 32) == Flip(Coeffs(v, 32))
  {
    hide Xor, Not, Coeffs;
    NotXor(v);
    CoeffsAdd(v, 0xFFFFFFFF, 32);
    AllOnes();
  }

  lemma NotXor(v: bv32)
    ensures Not(v) == Xor(v, 0xFFFFFFFF)
  {
  }

  lemma AllOnes()
    ensures forall i | 0 <= i < 32 :: Coeffs(0xFFFFFFFF, 32)[i]
  {
    hide Half, LowBit, Coeffs;
    Ones(0xFFFFFFFF);
    Ones(0xFFFFFF);
    Ones(0xFFFF);
    Ones(0xFF);
    Unroll(0xFFFFFFFF, 32);
    Unroll(0xFFFFFF, 24);
    Unroll(0xFFFF, 16);
    DropOnes();
  }

  lemma DropOnes()
    ensures DropByte(0xFFFFFFFF) == 0xFFFFFF && DropByte(0xFFFFFF) == 0xFFFF && DropByte(0xFFFF) == 0xFF
  {
  }

  lemma Ones(v: bv32)
    requires v == 0xFFFFFFFF || v == 0xFFFFFF || v == 0xFFFF || v == 0xFF
    ensures Coeffs(v, 8) == [true, true, true, true, true, true, true, true]
  {
    Eight(v);
  }

  /** The CRC of any data with any initial value is the complement of the remainder, modulo the CRC-32
      generator, of the message times x^32 with the complemented initial value added to its front. */
  lemma CrcIsRemainder(data: seq<bv8>, initial: bv32)
    ensures Flip(Coeffs(Crc(data, initial), 32)) == Remainder(Dividend(Flip(Coeffs(initial, 32)), MessageBits(data)))
  {
    hide Register, Not, Coeffs, Feed, Remainder, Dividend, MessageBits;
    var v := Not(initial);
    RegisterFeeds(v, data);
    FeedDivides(v, MessageBits(data));
    CoeffsNot(initial);
    CoeffsNot(Register(v, data));
    var r := Coeffs(Register(v, data), 32);
    assert Flip(Flip(r)) == r;
  }

  // ------------------------------------------------------------ the check value

  lemma StepsEight(x: bv32)
    ensures Steps(x, 8) == Step(Step(Step(Step(Step(Step(Step(Step(x))))))))
  {
    hide Step;
    StepsAre(x, 7);
    StepsAre(Step(x), 6);
    StepsAre(Step(Step(x)), 5);
    StepsAre(Step(Step(Step(x))), 4);
    var y := Step(Step(Step(Step(x))));
    StepsAre(y, 3);
    StepsAre(Step(y), 2);
    StepsAre(Step(Step(y)), 1);
    StepsAre(Step(Step(Step(y))), 0);
  }

  lemma StepsAre(x: bv32, n: nat)
    ensures Steps(x, n + 1) == Steps(Step(x), n) && Steps(x, 0) == x
  {
    hide Step;
  }

  /** One byte of a register, spelled out: the table index, the table entry and the new register. */
  lemma ByteIs(v: bv32, p: bv8, index: bv32, entry: bv32, w: bv32, data: seq<bv8>)
    requires data != [] && data[0] == p && LowByte(Xor(Wide(p), v)) == index && Xor(DropByte(v), entry) == w
    requires Step(Step(Step(Step(Step(Step(Step(Step(index)))))))) == entry
    ensures Register(v, data) == Register(w, data[1..])
  {
    hide Step, Steps, Serial, LowByte, DropByte, Xor, Wide;
    StepsEight(index);
    TableStep(v, p);
  }

  lemma Digit1(data: seq<bv8>)
    requires data != [] && data[0] == 0x31
    ensures Register(0xFFFFFFFF, data) == Register(0x7C231048, data[1..])
  {
    hide Register;
    ByteIs(0xFFFFFFFF, 0x31, 0xCE, 0x7CDCEFB7, 0x7C231048, data);
  }

  lemma Digit2(data: seq<bv8>)
    requires data != [] && data[0] == 0x32
    ensures Register(0x7C231048, data) == Register(0xB0ACBB32, data[1..])
  {
    hide Register;
    ByteIs(0x7C231048, 0x32, 0x7A, 0xB0D09822, 0xB0ACBB32, data);
  }

  lemma Digit3(data: seq<bv8>)
    requires data != [] && data[0] == 0x33
    ensures Register(0xB0ACBB32, data) == Register(0x77B79C2D, data[1..])
  {
    hide Register;
    ByteIs(0xB0ACBB32, 0x33, 0x01, 0x77073096, 0x77B79C2D, data);
  }

  lemma Digit4(data: seq<bv8>)
    requires data != [] && data[0] == 0x34
    ensures Register(0x77B79C2D, data) == Register(0x641C1F5C, data[1..])
  {
    hide Register;
    ByteIs(0x77B79C2D, 0x34, 0x19, 0x646BA8C0, 0x641C1F5C, data);
  }

  lemma Digit5(data: seq<bv8>)
    requires data != [] && data[0] == 0x35
    ensures Register(0x641C1F5C, data) == Register(0x340AC5E3, data[1..])
  {
    hide Register;
    ByteIs(0x641C1F5C, 0x35, 0x69, 0x346ED9FC, 0x340AC5E3, data);
  }

  lemma Digit6(data: seq<bv8>)
    requires data != [] && data[0] == 0x36
    ensures Register(0x340AC5E3, data) == Register(0xF68D2C9E, data[1..])
  {
    hide Register;
    ByteIs(0x340AC5E3, 0x36, 0xD5, 0xF6B9265B, 0xF68D2C9E, data);
  }

  lemma Digit7(data: seq<bv8>)
    requires data != [] && data[0] == 0x37
    ensures Register(0xF68D2C9E, data) == Register(0xAFFC9660, data[1..])
  {
    hide Register;
    ByteIs(0xF68D2C9E, 0x37, 0xA9, 0xAF0A1B4C, 0xAFFC9660, data);
  }

  lemma Digit8(data: seq<bv8>)
    requires data != [] && data[0] == 0x38
    ensures Register(0xAFFC9660, data) == Register(0x651F2550, data[1..])
  {
    hide Register;
    ByteIs(0xAFFC9660, 0x38, 0x58, 0x65B0D9C6, 0x651F2550, data);
  }

  lemma Digit9(data: seq<bv8>)
    requires data != [] && data[0] == 0x39
    ensures Register(0x651F2550, data) == Register(0x340BC6D9, data[1..])
  {
    hide Register;
    ByteIs(0x651F2550, 0x39, 0x69, 0x346ED9FC, 0x340BC6D9, data);
  }

  /** The standard check value: the CRC-32 of the nine digits "123456789". */
  lemma CheckValue()
    ensures Crc([0x31, 0x32, 0x33, 0x34, 0x35, 0x36, 0x37, 0x38, 0x39], 0) == 0xCBF43926
  {
    hide Register;
    Digit1([0x31, 0x32, 0x33, 0x34, 0x35, 0x36, 0x37, 0x38, 0x39]);
    Digit2([0x32, 0x33, 0x34, 0x35, 0x36, 0x37, 0x38, 0x39]);
    Digit3([0x33, 0x34, 0x35, 0x36, 0x37, 0x38, 0x39]);
    Digit4([0x34, 0x35, 0x36, 0x37, 0x38, 0x39]);
    Digit5([0x35, 0x36, 0x37, 0x38, 0x39]);
    Digit6([0x36, 0x37, 0x38, 0x39]);
    Digit7([0x37, 0x38, 0x39]);
    Digit8([0x38, 0x39]);
    Digit9([0x39]);
    var none: seq<bv8> := [];
    assert [0x39 as bv8][1..] == none;
    NoData(0x340BC6D9);
  }

  lemma NoData(v: bv32)
    ensures Register(v, []) == v
  {
  }
}
