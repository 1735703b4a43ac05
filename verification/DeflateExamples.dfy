/**
 Known streams: what particular byte strings decode to, one for each block type, as
 other programs write and read them.
 */
module DeflateExamples {
  import opened Bits
  import opened Buffers
  import opened Huffman
  import opened Deflate
  import opened DeflateStream
  import opened FixedCode

  // ------------------------------------------------------------ bits of literal bytes

  lemma LsbStep(v: nat, n: nat)
    ensures Lsb(v, n + 1) == [v % 2] + Lsb(v / 2, n) && Lsb(v, 0) == []
  {
  }

  lemma ByteBits(v: nat, b0: bit, b1: bit, b2: bit, b3: bit, b4: bit, b5: bit, b6: bit, b7: bit)
    requires v == b0 + 2 * b1 + 4 * b2 + 8 * b3 + 16 * b4 + 32 * b5 + 64 * b6 + 128 * b7
    ensures Lsb(v, 8) == [b0, b1, b2, b3, b4, b5, b6, b7]
  {
    hide Lsb;
    var x := b1 + 2 * b2 + 4 * b3 + 8 * b4 + 16 * b5 + 32 * b6 + 64 * b7;
    assert v == 2 * x + b0;
    LsbStep(v, 7);
    LsbSeven(x, b1, b2, b3, b4, b5, b6, b7);
    assert v % 2 == b0 && v / 2 == x;
  }

  /** The bits of byte k of a stream. */
  lemma EightBits(src: seq<byte>, k: nat, b0: bit, b1: bit, b2: bit, b3: bit, b4: bit, b5: bit, b6: bit, b7: bit)
    requires k < |src| && src[k] == b0 + 2 * b1 + 4 * b2 + 8 * b3 + 16 * b4 + 32 * b5 + 64 * b6 + 128 * b7
    ensures var s := BitsOf(src);
            && s[8 * k] == b0 && s[8 * k + 1] == b1 && s[8 * k + 2] == b2 && s[8 * k + 3] == b3
            && s[8 * k + 4] == b4 && s[8 * k + 5] == b5 && s[8 * k + 6] == b6 && s[8 * k + 7] == b7
  {
    hide Lsb;
    var w := [b0, b1, b2, b3, b4, b5, b6, b7];
    ByteBits(src[k], b0, b1, b2, b3, b4, b5, b6, b7);
    forall i: nat | i < 8 ensures BitsOf(src)[8 * k + i] == w[i] { DivUnique(8 * k + i, 8, k, i); }
    assert w[0] == b0 && w[1] == b1 && w[2] == b2 && w[3] == b3 && w[4] == b4 && w[5] == b5 && w[6] == b6 && w[7] == b7;
    assert BitsOf(src)[8 * k + 0] == w[0] && BitsOf(src)[8 * k + 1] == w[1] && BitsOf(src)[8 * k + 2] == w[2];
    assert BitsOf(src)[8 * k + 3] == w[3] && BitsOf(src)[8 * k + 4] == w[4] && BitsOf(src)[8 * k + 5] == w[5];
    assert BitsOf(src)[8 * k + 6] == w[6] && BitsOf(src)[8 * k + 7] == w[7];
  }

  /** A code word given as an integer, in the stream. */
  lemma SymAt(s: seq<bit>, p: nat, lens: seq<nat>, t: nat, w: seq<bit>)
    requires Coded(lens, t) && |w| == lens[t] && MsbVal(w) == Code(lens, t)
    requires At(s, p, w)
    ensures At(s, p, EncodeSym(lens, t))
  {
    hide MsbVal, Msb, Code, At;
    MsbOfVal(w);
  }

  lemma MsbOne(a: bit)
    ensures MsbVal([a]) == a
  {
    assert [a][..0] == [];
  }

  lemma MsbTwo(a: bit, b: bit)
    ensures MsbVal([a, b]) == 2 * a + b
  {
    hide MsbVal;
    MsbOne(a);
    MsbMore([a], b);
    assert [a] + [b] == [a, b];
  }

  lemma MsbThree(a: bit, b: bit, c: bit)
    ensures MsbVal([a, b, c]) == 4 * a + 2 * b + c
  {
    hide MsbVal;
    MsbTwo(a, b);
    MsbMore([a, b], c);
    assert [a, b] + [c] == [a, b, c];
  }

  lemma MsbMore(w: seq<bit>, b: bit)
    ensures MsbVal(w + [b]) == 2 * MsbVal(w) + b
  {
    assert (w + [b])[..|w|] == w;
  }

  lemma LsbTwo(v: nat, a: bit, b: bit)
    requires v == a + 2 * b
    ensures Lsb(v, 2) == [a, b]
  {
    hide Lsb;
    LsbStep(v, 1);
    LsbStep(b, 0);
  }

  lemma LsbThree(v: nat, a: bit, b: bit, c: bit)
    requires v == a + 2 * b + 4 * c
    ensures Lsb(v, 3) == [a, b, c]
  {
    hide Lsb;
    LsbStep(v, 2);
    LsbTwo(b + 2 * c, b, c);
  }

  lemma LsbFour(v: nat, a: bit, b: bit, c: bit, d: bit)
    requires v == a + 2 * b + 4 * c + 8 * d
    ensures Lsb(v, 4) == [a, b, c, d]
  {
    hide Lsb;
    LsbStep(v, 3);
    LsbThree(b + 2 * c + 4 * d, b, c, d);
  }

  lemma LsbFive(v: nat, a: bit, b: bit, c: bit, d: bit, e: bit)
    requires v == a + 2 * b + 4 * c + 8 * d + 16 * e
    ensures Lsb(v, 5) == [a, b, c, d, e]
  {
    hide Lsb;
    LsbStep(v, 4);
    LsbFour(b + 2 * c + 4 * d + 8 * e, b, c, d, e);
  }

  lemma LsbSeven(v: nat, a: bit, b: bit, c: bit, d: bit, e: bit, f: bit, g: bit)
    requires v == a + 2 * b + 4 * c + 8 * d + 16 * e + 32 * f + 64 * g
    ensures Lsb(v, 7) == [a, b, c, d, e, f, g]
  {
    hide Lsb;
    LsbStep(v, 6);
    LsbStep(b + 2 * c + 4 * d + 8 * e + 16 * f + 32 * g, 5);
    LsbFive(c + 2 * d + 4 * e + 8 * f + 16 * g, c, d, e, f, g);
  }

  // ------------------------------------------------------------ a dynamic block

  /** "aaaa" as one literal and a match of length 3 at distance 1, with a header that uses every kind
      of run. */
  const DYNAMIC: seq<byte> := [29, 192, 39, 1, 0, 0, 0, 3, 160, 172, 244, 247, 126, 7, 21]

  lemma Dynamic0(s: seq<bit>)
    requires s == BitsOf(DYNAMIC)
    ensures s[0] == 1 && s[1] == 0 && s[2] == 1 && s[3] == 1 && s[4] == 1 && s[5] == 0 && s[6] == 0 && s[7] == 0
  {
    EightBits(DYNAMIC, 0, 1, 0, 1, 1, 1, 0, 0, 0);
  }

  lemma Dynamic1(s: seq<bit>)
    requires s == BitsOf(DYNAMIC)
    ensures s[8] == 0 && s[9] == 0 && s[10] == 0 && s[11] == 0 && s[12] == 0 && s[13] == 0 && s[14] == 1 && s[15] == 1
  {
    EightBits(DYNAMIC, 1, 0, 0, 0, 0, 0, 0, 1, 1);
  }

  lemma Dynamic2(s: seq<bit>)
    requires s == BitsOf(DYNAMIC)
    ensures s[16] == 1 && s[17] == 1 && s[18] == 1 && s[19] == 0 && s[20] == 0 && s[21] == 1 && s[22] == 0 && s[23] == 0
  {
    EightBits(DYNAMIC, 2, 1, 1, 1, 0, 0, 1, 0, 0);
  }

  lemma Dynamic3(s: seq<bit>)
    requires s == BitsOf(DYNAMIC)
    ensures s[24] == 1 && s[25] == 0 && s[26] == 0 && s[27] == 0 && s[28] == 0 && s[29] == 0 && s[30] == 0 && s[31] == 0
  {
    EightBits(DYNAMIC, 3, 1, 0, 0, 0, 0, 0, 0, 0);
  }

  lemma Dynamic4(s: seq<bit>)
    requires s == BitsOf(DYNAMIC)
    ensures s[32] == 0 && s[33] == 0 && s[34] == 0 && s[35] == 0 && s[36] == 0 && s[37] == 0 && s[38] == 0 && s[39] == 0
  {
    EightBits(DYNAMIC, 4, 0, 0, 0, 0, 0, 0, 0, 0);
  }

  lemma Dynamic5(s: seq<bit>)
    requires s == BitsOf(DYNAMIC)
    ensures s[40] == 0 && s[41] == 0 && s[42] == 0 && s[43] == 0 && s[44] == 0 && s[45] == 0 && s[46] == 0 && s[47] == 0
  {
    EightBits(DYNAMIC, 5, 0, 0, 0, 0, 0, 0, 0, 0);
  }

  lemma Dynamic6(s: seq<bit>)
    requires s == BitsOf(DYNAMIC)
    ensures s[48] == 0 && s[49] == 0 && s[50] == 0 && s[51] == 0 && s[52] == 0 && s[53] == 0 && s[54] == 0 && s[55] == 0
  {
    EightBits(DYNAMIC, 6, 0, 0, 0, 0, 0, 0, 0, 0);
  }

  lemma Dynamic7(s: seq<bit>)
    requires s == BitsOf(DYNAMIC)
    ensures s[56] == 1 && s[57] == 1 && s[58] == 0 && s[59] == 0 && s[60] == 0 && s[61] == 0 && s[62] == 0 && s[63] == 0
  {
    EightBits(DYNAMIC, 7, 1, 1, 0, 0, 0, 0, 0, 0);
  }

  lemma Dynamic8(s: seq<bit>)
    requires s == BitsOf(DYNAMIC)
    ensures s[64] == 0 && s[65] == 0 && s[66] == 0 && s[67] == 0 && s[68] == 0 && s[69] == 1 && s[70] == 0 && s[71] == 1
  {
    EightBits(DYNAMIC, 8, 0, 0, 0, 0, 0, 1, 0, 1);
  }

  lemma Dynamic9(s: seq<bit>)
    requires s == BitsOf(DYNAMIC)
    ensures s[72] == 0 && s[73] == 0 && s[74] == 1 && s[75] == 1 && s[76] == 0 && s[77] == 1 && s[78] == 0 && s[79] == 1
  {
    EightBits(DYNAMIC, 9, 0, 0, 1, 1, 0, 1, 0, 1);
  }

  lemma Dynamic10(s: seq<bit>)
    requires s == BitsOf(DYNAMIC)
    ensures s[80] == 0 && s[81] == 0 && s[82] == 1 && s[83] == 0 && s[84] == 1 && s[85] == 1 && s[86] == 1 && s[87] == 1
  {
    EightBits(DYNAMIC, 10, 0, 0, 1, 0, 1, 1, 1, 1);
  }

  lemma Dynamic11(s: seq<bit>)
    requires s == BitsOf(DYNAMIC)
    ensures s[88] == 1 && s[89] == 1 && s[90] == 1 && s[91] == 0 && s[92] == 1 && s[93] == 1 && s[94] == 1 && s[95] == 1
  {
    EightBits(DYNAMIC, 11, 1, 1, 1, 0, 1, 1, 1, 1);
  }

  lemma Dynamic12(s: seq<bit>)
    requires s == BitsOf(DYNAMIC)
    ensures s[96] == 0 && s[97] == 1 && s[98] == 1 && s[99] == 1 && s[100] == 1 && s[101] == 1 && s[102] == 1 && s[103] == 0
  {
    EightBits(DYNAMIC, 12, 0, 1, 1, 1, 1, 1, 1, 0);
  }

  lemma Dynamic13(s: seq<bit>)
    requires s == BitsOf(DYNAMIC)
    ensures s[104] == 1 && s[105] == 1 && s[106] == 1 && s[107] == 0 && s[108] == 0 && s[109] == 0 && s[110] == 0 && s[111] == 0
  {
    EightBits(DYNAMIC, 13, 1, 1, 1, 0, 0, 0, 0, 0);
  }

  lemma Dynamic14(s: seq<bit>)
    requires s == BitsOf(DYNAMIC)
    ensures s[112] == 1 && s[113] == 0 && s[114] == 1 && s[115] == 0 && s[116] == 1 && s[117] == 0 && s[118] == 0 && s[119] == 0
  {
    EightBits(DYNAMIC, 14, 1, 0, 1, 0, 1, 0, 0, 0);
  }

  /** The lengths of the code for the code lengths. */
  const CL: seq<nat> := [0, 2, 0, 3, 0, 0, 0, 0, 0, 0, 0, 0, 0, 0, 0, 0, 3, 2, 2]

  lemma ThreeAt(s: seq<bit>, p: nat, v: nat, a: bit, b: bit, c: bit)
    requires p + 3 <= |s| && s[p] == a && s[p + 1] == b && s[p + 2] == c && v == a + 2 * b + 4 * c
    ensures At(s, p, Lsb(v, 3))
  {
    LsbThree(v, a, b, c);
  }

  lemma ClMore(s: seq<bit>, p: nat, cl: seq<nat>, k: nat)
    requires |cl| == 19 && k < 19 && At(s, p, EncodeCl(cl, k)) && At(s, p + 3 * k, Lsb(cl[Ord(k)], 3))
    ensures At(s, p, EncodeCl(cl, k + 1))
  {
    hide Lsb, At, Ord;
    AtSplit(s, p, EncodeCl(cl, k), Lsb(cl[Ord(k)], 3));
  }

  lemma ClNone(s: seq<bit>, p: nat, cl: seq<nat>)
    requires |cl| == 19 && p <= |s|
    ensures At(s, p, EncodeCl(cl, 0))
  {
  }

  /** The order in which the lengths are sent. */
  lemma OrdLiterally()
    ensures Ord(0) == 16 && Ord(1) == 17 && Ord(2) == 18 && Ord(3) == 0 && Ord(4) == 8 && Ord(5) == 7 && Ord(6) == 9
    ensures Ord(7) == 6 && Ord(8) == 10 && Ord(9) == 5 && Ord(10) == 11 && Ord(11) == 4 && Ord(12) == 12
    ensures Ord(13) == 3 && Ord(14) == 13 && Ord(15) == 2 && Ord(16) == 14 && Ord(17) == 1 && Ord(18) == 15
  {
  }

  lemma DynamicCl0(s: seq<bit>)
    requires s == BitsOf(DYNAMIC) && At(s, 17, EncodeCl(CL, 0))
    ensures At(s, 17, EncodeCl(CL, 6))
  {
    hide Lsb, At, Ord, EncodeCl, BitsOf;
    OrdLiterally();
    Dynamic2(s);
    Dynamic3(s);
    Dynamic4(s);
    ThreeAt(s, 17, 3, 1, 1, 0);
    ClMore(s, 17, CL, 0);
    ThreeAt(s, 20, 2, 0, 1, 0);
    ClMore(s, 17, CL, 1);
    ThreeAt(s, 23, 2, 0, 1, 0);
    ClMore(s, 17, CL, 2);
    ThreeAt(s, 26, 0, 0, 0, 0);
    ClMore(s, 17, CL, 3);
    ThreeAt(s, 29, 0, 0, 0, 0);
    ClMore(s, 17, CL, 4);
    ThreeAt(s, 32, 0, 0, 0, 0);
    ClMore(s, 17, CL, 5);
  }

  lemma DynamicCl1(s: seq<bit>)
    requires s == BitsOf(DYNAMIC) && At(s, 17, EncodeCl(CL, 6))
    ensures At(s, 17, EncodeCl(CL, 12))
  {
    hide Lsb, At, Ord, EncodeCl, BitsOf;
    OrdLiterally();
    Dynamic4(s);
    Dynamic5(s);
    Dynamic6(s);
    ThreeAt(s, 35, 0, 0, 0, 0);
    ClMore(s, 17, CL, 6);
    ThreeAt(s, 38, 0, 0, 0, 0);
    ClMore(s, 17, CL, 7);
    ThreeAt(s, 41, 0, 0, 0, 0);
    ClMore(s, 17, CL, 8);
    ThreeAt(s, 44, 0, 0, 0, 0);
    ClMore(s, 17, CL, 9);
    ThreeAt(s, 47, 0, 0, 0, 0);
    ClMore(s, 17, CL, 10);
    ThreeAt(s, 50, 0, 0, 0, 0);
    ClMore(s, 17, CL, 11);
  }

  lemma DynamicCl2(s: seq<bit>)
    requires s == BitsOf(DYNAMIC) && At(s, 17, EncodeCl(CL, 12))
    ensures At(s, 17, EncodeCl(CL, 18))
  {
    hide Lsb, At, Ord, EncodeCl, BitsOf;
    OrdLiterally();
    Dynamic6(s);
    Dynamic7(s);
    Dynamic8(s);
    ThreeAt(s, 53, 0, 0, 0, 0);
    ClMore(s, 17, CL, 12);
    ThreeAt(s, 56, 3, 1, 1, 0);
    ClMore(s, 17, CL, 13);
    ThreeAt(s, 59, 0, 0, 0, 0);
    ClMore(s, 17, CL, 14);
    ThreeAt(s, 62, 0, 0, 0, 0);
    ClMore(s, 17, CL, 15);
    ThreeAt(s, 65, 0, 0, 0, 0);
    ClMore(s, 17, CL, 16);
    ThreeAt(s, 68, 2, 0, 1, 0);
    ClMore(s, 17, CL, 17);
  }

  lemma {:induction false} CountZeros(n: nat, l: nat)
    requires l >= 1
    ensures Count(Fill<nat>(n, 0), l) == 0
  {
    CountFill(n, 0, l);
  }

  /** How many of the first symbols of the code length code have each length. */
  lemma ClCounts(l: nat)
    requires l >= 1
    ensures Count(CL[..1], l) == 0 && Count(CL[..3], l) == (if l == 2 then 1 else 0)
    ensures Count(CL[..16], l) == (if l == 2 then 1 else if l == 3 then 1 else 0)
    ensures Count(CL[..17], l) == (if l == 2 then 1 else if l == 3 then 2 else 0)
    ensures Count(CL[..18], l) == (if l == 2 then 2 else if l == 3 then 2 else 0)
    ensures Count(CL, l) == (if l == 2 then 3 else if l == 3 then 2 else 0)
  {
    hide Count;
    assert CL[..1] == Fill<nat>(1, 0);
    CountZeros(1, l);
    CountStep(CL, 1, l);
    CountStep(CL, 2, l);
    CountStep(CL, 3, l);
    assert CL[4..16] == Fill<nat>(12, 0);
    CountZeros(12, l);
    CountSplit(CL[..16], 4, l);
    assert CL[..16][..4] == CL[..4] && CL[..16][4..] == CL[4..16];
    CountStep(CL, 16, l);
    CountStep(CL, 17, l);
    CountStep(CL, 18, l);
    assert CL[..19] == CL;
  }

  lemma ClCodes()
    ensures Code(CL, 1) == 0 && Code(CL, 17) == 1 && Code(CL, 18) == 2 && Code(CL, 3) == 6 && Code(CL, 16) == 7
    ensures Coded(CL, 1) && Coded(CL, 17) && Coded(CL, 18) && Coded(CL, 3) && Coded(CL, 16)
  {
    hide Count, First;
    ClCounts(1);
    ClCounts(2);
    ClCounts(3);
    FirstOne(CL);
    ExampleFirst(CL, 1);
    ExampleFirst(CL, 2);
    assert Pow2(2) == 4 && Pow2(3) == 8;
  }

  lemma ItemAt(s: seq<bit>, p: nat, cl: seq<nat>, it: Item, w: seq<bit>, x: seq<bit>)
    requires |cl| == 19 && it.Valid() && Coded(cl, it.Sym()) && |w| == cl[it.Sym()] && MsbVal(w) == Code(cl, it.Sym())
    requires x == Lsb(it.Run() - RunBase(it.Sym()), RunBits(it.Sym()))
    requires At(s, p, w + x)
    ensures At(s, p, it.Encode(cl)) && |it.Encode(cl)| == |w| + |x|
  {
    hide MsbVal, Msb, Lsb, Code, At;
    AtSplit(s, p, w, x);
    SymAt(s, p, cl, it.Sym(), w);
    AtSplit(s, p, EncodeSym(cl, it.Sym()), x);
  }

  lemma NoExtra(v: nat)
    ensures Lsb(v, 0) == []
  {
  }

  const NONE: seq<bit> := []

  lemma DynamicItem0(s: seq<bit>)
    requires s == BitsOf(DYNAMIC)
    ensures At(s, 71, ManyZeros(97).Encode(CL)) && |ManyZeros(97).Encode(CL)| == 9
  {
    hide Msb, MsbVal, Lsb, Code, BitsOf, Item.Encode;
    Dynamic8(s);
    Dynamic9(s);
    ClCodes();
    MsbTwo(1, 0);
    LsbSeven(86, 0, 1, 1, 0, 1, 0, 1);
    assert s[71..80] == [1, 0] + [0, 1, 1, 0, 1, 0, 1];
    ItemAt(s, 71, CL, ManyZeros(97), [1, 0], [0, 1, 1, 0, 1, 0, 1]);
  }

  lemma DynamicItem1(s: seq<bit>)
    requires s == BitsOf(DYNAMIC)
    ensures At(s, 80, Len(1).Encode(CL)) && |Len(1).Encode(CL)| == 2
  {
    hide Msb, MsbVal, Lsb, Code, BitsOf, Item.Encode;
    Dynamic10(s);
    ClCodes();
    MsbTwo(0, 0);
    NoExtra(0);
    assert s[80..82] == [0, 0] + NONE;
    ItemAt(s, 80, CL, Len(1), [0, 0], NONE);
  }

  lemma DynamicItem2(s: seq<bit>)
    requires s == BitsOf(DYNAMIC)
    ensures At(s, 82, ManyZeros(138).Encode(CL)) && |ManyZeros(138).Encode(CL)| == 9
  {
    hide Msb, MsbVal, Lsb, Code, BitsOf, Item.Encode;
    Dynamic10(s);
    Dynamic11(s);
    ClCodes();
    MsbTwo(1, 0);
    LsbSeven(127, 1, 1, 1, 1, 1, 1, 1);
    assert s[82..91] == [1, 0] + [1, 1, 1, 1, 1, 1, 1];
    ItemAt(s, 82, CL, ManyZeros(138), [1, 0], [1, 1, 1, 1, 1, 1, 1]);
  }

  lemma DynamicItem3(s: seq<bit>)
    requires s == BitsOf(DYNAMIC)
    ensures At(s, 91, Zeros(10).Encode(CL)) && |Zeros(10).Encode(CL)| == 5
  {
    hide Msb, MsbVal, Lsb, Code, BitsOf, Item.Encode;
    Dynamic11(s);
    ClCodes();
    MsbTwo(0, 1);
    LsbThree(7, 1, 1, 1);
    assert s[91..96] == [0, 1] + [1, 1, 1];
    ItemAt(s, 91, CL, Zeros(10), [0, 1], [1, 1, 1]);
  }

  lemma DynamicItem4(s: seq<bit>)
    requires s == BitsOf(DYNAMIC)
    ensures At(s, 96, Zeros(10).Encode(CL)) && |Zeros(10).Encode(CL)| == 5
  {
    hide Msb, MsbVal, Lsb, Code, BitsOf, Item.Encode;
    Dynamic12(s);
    ClCodes();
    MsbTwo(0, 1);
    LsbThree(7, 1, 1, 1);
    assert s[96..101] == [0, 1] + [1, 1, 1];
    ItemAt(s, 96, CL, Zeros(10), [0, 1], [1, 1, 1]);
  }

  lemma DynamicItem5(s: seq<bit>)
    requires s == BitsOf(DYNAMIC)
    ensures At(s, 101, Len(3).Encode(CL)) && |Len(3).Encode(CL)| == 3
  {
    hide Msb, MsbVal, Lsb, Code, BitsOf, Item.Encode;
    Dynamic12(s);
    ClCodes();
    MsbThree(1, 1, 0);
    NoExtra(0);
    assert s[101..104] == [1, 1, 0] + NONE;
    ItemAt(s, 101, CL, Len(3), [1, 1, 0], NONE);
  }

  lemma DynamicItem6(s: seq<bit>)
    requires s == BitsOf(DYNAMIC)
    ensures At(s, 104, Repeat(3).Encode(CL)) && |Repeat(3).Encode(CL)| == 5
  {
    hide Msb, MsbVal, Lsb, Code, BitsOf, Item.Encode;
    Dynamic13(s);
    ClCodes();
    MsbThree(1, 1, 1);
    LsbTwo(0, 0, 0);
    assert s[104..109] == [1, 1, 1] + [0, 0];
    ItemAt(s, 104, CL, Repeat(3), [1, 1, 1], [0, 0]);
  }

  lemma DynamicItem7(s: seq<bit>)
    requires s == BitsOf(DYNAMIC)
    ensures At(s, 109, Len(1).Encode(CL)) && |Len(1).Encode(CL)| == 2
  {
    hide Msb, MsbVal, Lsb, Code, BitsOf, Item.Encode;
    Dynamic13(s);
    ClCodes();
    MsbTwo(0, 0);
    NoExtra(0);
    assert s[109..111] == [0, 0] + NONE;
    ItemAt(s, 109, CL, Len(1), [0, 0], NONE);
  }

  lemma ItemCons(s: seq<bit>, p: nat, cl: seq<nat>, it: Item, rest: seq<Item>)
    requires |cl| == 19 && it.Valid() && Coded(cl, it.Sym()) && ItemsEncodable(cl, rest)
    requires At(s, p, it.Encode(cl)) && At(s, p + |it.Encode(cl)|, EncodeItems(cl, rest))
    ensures ItemsEncodable(cl, [it] + rest) && At(s, p, EncodeItems(cl, [it] + rest))
    ensures |EncodeItems(cl, [it] + rest)| == |it.Encode(cl)| + |EncodeItems(cl, rest)|
  {
    hide Item.Encode, Code, At;
    assert ([it] + rest)[1..] == rest;
    AtSplit(s, p, it.Encode(cl), EncodeItems(cl, rest));
  }

  /** One run more in front of the others. */
  lemma FitsCons(lens: seq<nat>, it: Item, rest: seq<Item>, total: nat, next: seq<nat>)
    requires |lens| < total && it.Valid() && (it.Repeat? ==> lens != []) && Extend(lens, it, total) == next
    requires FitsAll(next, rest, total)
    ensures FitsAll(lens, [it] + rest, total) && UnrollAll(lens, [it] + rest, total) == UnrollAll(next, rest, total)
  {
    assert ([it] + rest)[1..] == rest;
  }

  /** The runs of the header: 97 unused symbols, 'a' with one bit, 158 unused symbols, end-of-block and
      three match lengths with three bits, and one distance with one bit. */
  function DynamicItems(k: nat): (items: seq<Item>)
    requires k <= 8
  {
    [ManyZeros(97), Len(1), ManyZeros(138), Zeros(10), Zeros(10), Len(3), Repeat(3), Len(1)][k..]
  }

  lemma DynamicNext(k: nat)
    requires k < 8
    ensures DynamicItems(k) == [DynamicItems(k)[0]] + DynamicItems(k + 1) && DynamicItems(8) == []
  {
  }

  lemma DynamicItemsAt(s: seq<bit>)
    requires s == BitsOf(DYNAMIC)
    ensures ItemsEncodable(CL, DynamicItems(0)) && At(s, 71, EncodeItems(CL, DynamicItems(0)))
    ensures |EncodeItems(CL, DynamicItems(0))| == 40
  {
    hide Item.Encode, Code, BitsOf, EncodeItems, ItemsEncodable, At;
    ClCodes();
    NoItems(s);
    DynamicItem7(s);
    DynamicNext(7);
    ItemCons(s, 109, CL, Len(1), DynamicItems(8));
    DynamicItem6(s);
    DynamicNext(6);
    ItemCons(s, 104, CL, Repeat(3), DynamicItems(7));
    DynamicItem5(s);
    DynamicNext(5);
    ItemCons(s, 101, CL, Len(3), DynamicItems(6));
    DynamicItem4(s);
    DynamicNext(4);
    ItemCons(s, 96, CL, Zeros(10), DynamicItems(5));
    DynamicItem3(s);
    DynamicNext(3);
    ItemCons(s, 91, CL, Zeros(10), DynamicItems(4));
    DynamicItem2(s);
    DynamicNext(2);
    ItemCons(s, 82, CL, ManyZeros(138), DynamicItems(3));
    DynamicItem1(s);
    DynamicNext(1);
    ItemCons(s, 80, CL, Len(1), DynamicItems(2));
    DynamicItem0(s);
    DynamicNext(0);
    ItemCons(s, 71, CL, ManyZeros(97), DynamicItems(1));
  }

  lemma NoItems(s: seq<bit>)
    requires s == BitsOf(DYNAMIC)
    ensures ItemsEncodable(CL, DynamicItems(8)) && At(s, 111, EncodeItems(CL, DynamicItems(8)))
    ensures EncodeItems(CL, DynamicItems(8)) == []
  {
    hide BitsOf;
  }

  /** The code lengths after k of the runs. */
  function DynamicLens(k: nat): (lens: seq<nat>)
    requires k <= 8
  {
    var a, z := Fill<nat>(97, 0), Fill<nat>(138, 0);
    if k == 0 then []
    else if k == 1 then a
    else if k == 2 then a + [1]
    else if k == 3 then a + [1] + z
    else if k == 4 then a + [1] + z + Fill<nat>(10, 0)
    else if k == 5 then a + [1] + z + Fill<nat>(20, 0)
    else if k == 6 then a + [1] + z + Fill<nat>(20, 0) + [3]
    else if k == 7 then a + [1] + z + Fill<nat>(20, 0) + [3, 3, 3, 3]
    else a + [1] + z + Fill<nat>(20, 0) + [3, 3, 3, 3] + [1]
  }

  lemma DynamicExtend(k: nat)
    requires k < 8
    ensures var it := DynamicItems(k)[0];
            && |DynamicLens(k)| < 261 && it.Valid() && (it.Repeat? ==> DynamicLens(k) != [])
            && Extend(DynamicLens(k), it, 261) == DynamicLens(k + 1)
  {
    if k == 0 {} else if k == 1 {} else if k == 2 {} else if k == 3 {} else if k == 4 {} else if k == 5 {} else if k == 6 {} else {}
  }

  lemma {:induction false} DynamicUnroll(k: nat)
    requires k <= 8
    ensures FitsAll(DynamicLens(k), DynamicItems(k), 261)
    ensures UnrollAll(DynamicLens(k), DynamicItems(k), 261) == DynamicLens(8)
    decreases 8 - k
  {
    hide DynamicItems, DynamicLens, FitsAll, UnrollAll, Extend;
    if k < 8 {
      DynamicUnroll(k + 1);
      DynamicNext(k);
      DynamicExtend(k);
      FitsCons(DynamicLens(k), DynamicItems(k)[0], DynamicItems(k + 1), 261, DynamicLens(k + 1));
    } else {
      DynamicDone();
    }
  }

  lemma DynamicDone()
    ensures FitsAll(DynamicLens(8), DynamicItems(8), 261) && UnrollAll(DynamicLens(8), DynamicItems(8), 261) == DynamicLens(8)
  {
  }

  function DynamicHead(): DynHeader {
    DynHeader(260, 1, 18, CL, DynamicItems(0))
  }

  ghost predicate HeadIs(h: DynHeader, ll: seq<nat>, dl: seq<nat>)
    ensures HeadIs(h, ll, dl) ==> h.Valid()
  {
    h.Valid() && h.LitLens() == ll && h.DistLens() == dl
  }

  /** A header in the stream from p to q, and the two vectors it stands for. */
  ghost predicate HeadAt(s: seq<bit>, p: nat, h: DynHeader, q: nat, ll: seq<nat>, dl: seq<nat>)
  {
    HeadIs(h, ll, dl) && At(s, p, h.Encode()) && q == p + |h.Encode()|
  }

  lemma DynamicHeadAt(s: seq<bit>)
    requires s == BitsOf(DYNAMIC)
    ensures HeadAt(s, 3, DynamicHead(), 111, DynamicLens(7), [1])
  {
    hide BitsOf, Lsb, EncodeCl, EncodeItems, At, DynamicItems, DynamicLens, BitField,
      DynHeader.Valid, DynHeader.Encode, HeadIs;
    DynamicItemsAt(s);
    DynamicValid();
    DynamicClAt(s);
    DynamicSizes(s);
    HeaderAt(s, 3, DynamicHead());
  }

  lemma DynamicValid()
    requires ItemsEncodable(CL, DynamicItems(0))
    ensures HeadIs(DynamicHead(), DynamicLens(7), [1])
  {
    hide ItemsEncodable, FitsAll, UnrollAll, DynamicItems, DynamicLens, Ord, DynHeader.Encode;
    ClIs();
    DynamicUnroll(0);
    DynamicStart();
    HeadOf(CL, DynamicItems(0), DynamicLens(8), DynamicLens(7));
  }

  lemma ClIs()
    ensures |CL| == 19 && (forall j | 0 <= j < 19 :: CL[j] < 8) && CL[Ord(18)] == 0
  {
    hide Ord;
    OrdLiterally();
  }

  lemma HeadOf(cl: seq<nat>, items: seq<Item>, lens: seq<nat>, ll: seq<nat>)
    requires |cl| == 19 && (forall j | 0 <= j < 19 :: cl[j] < 8) && cl[Ord(18)] == 0
    requires ItemsEncodable(cl, items) && FitsAll([], items, 261) && UnrollAll([], items, 261) == lens
    requires |lens| == 261 && lens[..260] == ll && lens[260..] == [1]
    ensures HeadIs(DynHeader(260, 1, 18, cl, items), ll, [1])
  {
    hide ItemsEncodable, FitsAll, UnrollAll, Ord, DynHeader.Encode;
  }

  lemma DynamicStart()
    ensures DynamicLens(0) == [] && |DynamicLens(8)| == 261
    ensures DynamicLens(8)[..260] == DynamicLens(7) && DynamicLens(8)[260..] == [1]
  {
  }

  lemma DynamicClAt(s: seq<bit>)
    requires s == BitsOf(DYNAMIC)
    ensures At(s, 17, EncodeCl(CL, 18))
  {
    hide BitsOf, EncodeCl, At;
    ClNone(s, 17, CL);
    DynamicCl0(s);
    DynamicCl1(s);
    DynamicCl2(s);
  }

  lemma FieldIs(s: seq<bit>, p: nat, v: nat, n: nat)
    requires v < Pow2(n) && At(s, p, Lsb(v, n))
    ensures p + n <= |s| && BitField(s, p, n) == v
  {
    hide Lsb, LsbVal;
    LsbRead(s, p, v, n);
  }

  lemma DynamicSizes(s: seq<bit>)
    requires s == BitsOf(DYNAMIC)
    ensures |s| == 120 && BitField(s, 3, 5) == 3 && BitField(s, 8, 5) == 0 && BitField(s, 13, 4) == 14
  {
    hide BitsOf, Lsb, LsbVal, BitField;
    assert Pow2(5) == 32 && Pow2(4) == 16;
    Dynamic0(s);
    Dynamic1(s);
    Dynamic2(s);
    LsbFive(3, 1, 1, 0, 0, 0);
    LsbFive(0, 0, 0, 0, 0, 0);
    LsbFour(14, 0, 1, 1, 1);
    assert s[3..8] == [1, 1, 0, 0, 0] && s[8..13] == [0, 0, 0, 0, 0] && s[13..17] == [0, 1, 1, 1];
    FieldIs(s, 3, 3, 5);
    FieldIs(s, 8, 0, 5);
    FieldIs(s, 13, 14, 4);
  }

  /** 'a' is coded as 0, end-of-block as 100 and a match of length 3 as 101. */
  lemma DynamicCodes()
    ensures var ll := DynamicLens(7);
            && |ll| == 260 && ll[97] == 1 && ll[256] == 3 && ll[257] == 3
            && Code(ll, 97) == 0 && Code(ll, 256) == 4 && Code(ll, 257) == 5
            && Coded(ll, 97) && Coded(ll, 256) && Coded(ll, 257)
  {
    hide Count, First;
    var ll := DynamicLens(7);
    DynamicCounts(1);
    DynamicCounts(2);
    DynamicCounts(3);
    FirstOne(ll);
    ExampleFirst(ll, 1);
    ExampleFirst(ll, 2);
    assert Pow2(1) == 2 && Pow2(3) == 8;
  }

  lemma DynamicCounts(l: nat)
    requires l >= 1
    ensures var ll := DynamicLens(7);
            && |ll| == 260 && Count(ll[..97], l) == 0 && Count(ll[..256], l) == (if l == 1 then 1 else 0)
            && Count(ll[..257], l) == (if l == 1 then 1 else if l == 3 then 1 else 0)
            && Count(ll, l) == (if l == 1 then 1 else if l == 3 then 4 else 0)
  {
    hide Count;
    var ll := DynamicLens(7);
    assert ll[..97] == Fill<nat>(97, 0);
    CountZeros(97, l);
    CountStep(ll, 97, l);
    assert ll[..256][98..] == Fill<nat>(158, 0) && ll[..256][..98] == ll[..98];
    CountZeros(158, l);
    CountSplit(ll[..256], 98, l);
    CountStep(ll, 256, l);
    CountStep(ll, 257, l);
    CountStep(ll, 258, l);
    CountStep(ll, 259, l);
    assert ll[..260] == ll;
  }

  lemma OneDistance()
    ensures Code([1], 0) == 0 && Coded([1], 0)
  {
    var none: seq<nat> := [];
    assert [1 as nat][..0] == none;
    assert Pow2(1) == 2;
  }

  const THREE: Token := Match(0, 0, 0, 0)

  lemma DynamicTokens(s: seq<bit>)
    requires s == BitsOf(DYNAMIC)
    ensures TokensAt(s, 111, DynamicLens(7), [1], [Lit(97), THREE], 119)
  {
    hide BitsOf, Code, Msb, MsbVal, Lsb, At, DynamicLens;
    var ll := DynamicLens(7);
    DynamicCodes();
    OneDistance();
    DynamicTokenBits(s);
    LiteralAt(s, 111, ll, [1], 97, [0]);
    MatchAt(s, 112, ll, [1], [1, 0, 1], [0]);
    SymAt(s, 116, ll, 256, [1, 0, 0]);
    EndAt(s, 116, ll, [1]);
    TokenCons(s, 112, ll, [1], THREE, [], 119);
    assert [THREE] + [] == [THREE] && [Lit(97)] + [THREE] == [Lit(97), THREE];
    TokenCons(s, 111, ll, [1], Lit(97), [THREE], 119);
  }

  lemma DynamicTokenBits(s: seq<bit>)
    requires s == BitsOf(DYNAMIC)
    ensures At(s, 111, [0]) && At(s, 112, [1, 0, 1]) && At(s, 115, [0]) && At(s, 116, [1, 0, 0])
    ensures MsbVal([0]) == 0 && MsbVal([1, 0, 1]) == 5 && MsbVal([1, 0, 0]) == 4
  {
    hide BitsOf, MsbVal, At;
    Dynamic13(s);
    Dynamic14(s);
    OneAt(s, 111, 0);
    TripleAt(s, 112, 1, 0, 1);
    OneAt(s, 115, 0);
    TripleAt(s, 116, 1, 0, 0);
    MsbOne(0);
    MsbThree(1, 0, 1);
    MsbThree(1, 0, 0);
  }

  lemma LiteralAt(s: seq<bit>, p: nat, ll: seq<nat>, dl: seq<nat>, b: byte, w: seq<bit>)
    requires Coded(ll, b) && |w| == ll[b] && MsbVal(w) == Code(ll, b) && At(s, p, w)
    ensures Lit(b).Encodable(ll, dl) && At(s, p, Lit(b).Encode(ll, dl)) && |Lit(b).Encode(ll, dl)| == |w|
  {
    hide MsbVal, Code, At;
    SymAt(s, p, ll, b, w);
  }

  /** A match whose length and distance have no extra bits. */
  lemma MatchAt(s: seq<bit>, p: nat, ll: seq<nat>, dl: seq<nat>, w: seq<bit>, x: seq<bit>)
    requires Coded(ll, 257) && |w| == ll[257] && MsbVal(w) == Code(ll, 257) && At(s, p, w)
    requires Coded(dl, 0) && |x| == dl[0] && MsbVal(x) == Code(dl, 0) && At(s, p + |w|, x)
    ensures THREE.Encodable(ll, dl) && At(s, p, THREE.Encode(ll, dl)) && |THREE.Encode(ll, dl)| == |w| + |x|
  {
    hide MsbVal, Code, At, Msb;
    SymAt(s, p, ll, 257, w);
    SymAt(s, p + |w|, dl, 0, x);
    TailAt(s, p + |w|, dl, 0);
    AtSplit(s, p, EncodeSym(ll, 257), THREE.EncodeTail(dl));
  }

  lemma TailAt(s: seq<bit>, p: nat, dl: seq<nat>, ds: nat)
    requires Coded(dl, ds) && ds < 4 && At(s, p, EncodeSym(dl, ds))
    ensures var t := Match(0, 0, ds, 0); t.Valid() && At(s, p, t.EncodeTail(dl)) && |t.EncodeTail(dl)| == dl[ds]
  {
    hide At, EncodeSym, Code;
    var t := Match(0, 0, ds, 0);
    assert LExt(0) == 0 && DExt(ds) == 0 && Pow2(0) == 1;
    NoExtra(0);
    assert EncodeSym(dl, ds) + [] == EncodeSym(dl, ds) && t.EncodeTail(dl) == [] + (EncodeSym(dl, ds) + []);
    assert t.EncodeTail(dl) == EncodeSym(dl, ds);
  }

  lemma EndAt(s: seq<bit>, p: nat, ll: seq<nat>, dl: seq<nat>)
    requires Coded(ll, 256) && At(s, p, EncodeSym(ll, 256))
    ensures TokensAt(s, p, ll, dl, [], p + ll[256])
  {
    hide At, Code;
  }

  lemma TokenCons(s: seq<bit>, p: nat, ll: seq<nat>, dl: seq<nat>, t: Token, ts: seq<Token>, q: nat)
    requires t.Encodable(ll, dl) && At(s, p, t.Encode(ll, dl)) && TokensAt(s, p + |t.Encode(ll, dl)|, ll, dl, ts, q)
    ensures TokensAt(s, p, ll, dl, [t] + ts, q)
  {
    hide At, Code, Token.Encode, Token.Encodable;
    assert ([t] + ts)[1..] == ts;
    AtSplit(s, p, t.Encode(ll, dl), EncodeTokens(ts, ll, dl));
  }

  /** The dynamic block decodes to "aaaa". */
  lemma DynamicExample(cap: nat)
    requires cap >= 4
    ensures Inflate(DYNAMIC, 0, [], cap) == Done([97, 97, 97, 97])
  {
    hide BitsOf, At, TokensAt, HeadAt, DynamicAt, DynamicLens, DynamicHead, Inflate, HeaderBits, AllLegal, ExpandAll;
    var s := BitsOf(DYNAMIC);
    var ts := [Lit(97), THREE];
    DynamicFlags(s);
    DynamicHeadAt(s);
    DynamicTokens(s);
    var b := Dynamic(DynamicHead(), ts);
    HeadAndTokens(s, 3, DynamicHead(), 111, DynamicLens(7), [1], ts, 119);
    FourLetters();
    OneBlock(DYNAMIC, b, 119, [97, 97, 97, 97], cap);
  }

  lemma HeadAndTokens(s: seq<bit>, p: nat, h: DynHeader, m: nat, ll: seq<nat>, dl: seq<nat>, ts: seq<Token>, q: nat)
    requires HeadAt(s, p, h, m, ll, dl) && TokensAt(s, m, ll, dl, ts, q)
    ensures DynamicAt(s, p, h, ts, q)
  {
    hide At, TokensAt, DynHeader.Valid, DynHeader.Encode, DynHeader.LitLens, DynHeader.DistLens;
  }

  lemma DynamicFlags(s: seq<bit>)
    requires s == BitsOf(DYNAMIC)
    ensures At(s, 0, HeaderBits(true, 2))
  {
    hide BitsOf;
    Dynamic0(s);
  }

  lemma ExpandCons(out: seq<byte>, t: Token, ts: seq<Token>, next: seq<byte>)
    requires Legal(out, t) && Expand(out, t) == next && AllLegal(next, ts)
    ensures AllLegal(out, [t] + ts) && ExpandAll(out, [t] + ts) == ExpandAll(next, ts)
  {
    hide Legal, Expand;
    assert ([t] + ts)[1..] == ts;
  }

  lemma ExpandNone(out: seq<byte>)
    ensures AllLegal(out, []) && ExpandAll(out, []) == out
  {
  }

  /** A match of length 3 at distance 1 or 2. */
  lemma ThreeMore(out: seq<byte>, ds: nat)
    requires ds < 2 && |out| >= ds + 1
    ensures var t := Match(0, 0, ds, 0);
            && Legal(out, t) && t.Len() == 3 && t.Dist() == ds + 1
            && Expand(out, t) == if ds == 0 then out + [out[|out| - 1], out[|out| - 1], out[|out| - 1]]
                                 else out + [out[|out| - 2], out[|out| - 1], out[|out| - 2]]
  {
    assert LBase(0) == 3 && DBase(0) == 1 && DBase(1) == 2 && Pow2(0) == 1 && LExt(0) == 0 && DExt(ds) == 0;
  }

  lemma FourLetters()
    ensures AllLegal([], [Lit(97), THREE]) && ExpandAll([], [Lit(97), THREE]) == [97, 97, 97, 97]
  {
    hide AllLegal, ExpandAll, Legal, Expand;
    ThreeMore([97], 0);
    ExpandNone([97, 97, 97, 97]);
    ExpandCons([97], THREE, [], [97, 97, 97, 97]);
    assert [THREE] + [] == [THREE] && [Lit(97)] + [THREE] == [Lit(97), THREE];
    OneLetter([], 97);
    ExpandCons([], Lit(97), [THREE], [97]);
  }

  lemma OneLetter(out: seq<byte>, b: byte)
    ensures Legal(out, Lit(b)) && Expand(out, Lit(b)) == out + [b]
  {
  }

  /** A stream of one block. */
  lemma OneBlock(src: seq<byte>, b: Block, q: nat, out: seq<byte>, cap: nat)
    requires BlockAt(src, 0, true, b, q) && LegalBlock([], b) && ExpandBlock([], b) == out && |out| <= cap
    ensures Inflate(src, 0, [], cap) == Done(out)
  {
    hide BlockAt, Inflate, LegalBlock, ExpandBlock;
    var bs := [b];
    assert bs[1..] == [];
    assert ExpandStream(out, []) == out;
    StreamDecode(src, 0, bs, q, [], cap);
  }

  // ------------------------------------------------------------ a fixed block

  lemma MsbFour(a: bit, b: bit, c: bit, d: bit)
    ensures MsbVal([a, b, c, d]) == 8 * a + 4 * b + 2 * c + d
  {
    hide MsbVal;
    MsbThree(a, b, c);
    MsbMore([a, b, c], d);
    assert [a, b, c] + [d] == [a, b, c, d];
  }

  lemma MsbBoth(u: seq<bit>, w: seq<bit>)
    ensures |w| == 3 ==> MsbVal(u + w) == 8 * MsbVal(u) + MsbVal(w)
    ensures |w| == 4 ==> MsbVal(u + w) == 16 * MsbVal(u) + MsbVal(w)
  {
    hide MsbVal;
    MsbValConcat(u, w);
    assert Pow2(3) == 8 && Pow2(4) == 16;
  }

  /** A code word is known by its length and value. */
  lemma WordIs(u: seq<bit>, w: seq<bit>)
    requires |u| == |w| && MsbVal(u) == MsbVal(w)
    ensures u == w
  {
    hide Msb, MsbVal;
    MsbOfVal(u);
    MsbOfVal(w);
  }

  lemma FlagsAt(s: seq<bit>, p: nat, last: bool, kind: nat)
    requires p + 3 <= |s| && kind < 3 && s[p] == (if last then 1 else 0) && s[p + 1] == kind % 2 && s[p + 2] == kind / 2
    ensures At(s, p, HeaderBits(last, kind))
  {
  }

  lemma FourAt(s: seq<bit>, p: nat, a: bit, b: bit, c: bit, d: bit)
    requires p + 4 <= |s| && s[p] == a && s[p + 1] == b && s[p + 2] == c && s[p + 3] == d
    ensures At(s, p, [a, b, c, d])
  {
  }

  lemma TripleAt(s: seq<bit>, p: nat, a: bit, b: bit, c: bit)
    requires p + 3 <= |s| && s[p] == a && s[p + 1] == b && s[p + 2] == c
    ensures At(s, p, [a, b, c])
  {
  }

  lemma OneAt(s: seq<bit>, p: nat, a: bit)
    requires p < |s| && s[p] == a
    ensures At(s, p, [a])
  {
  }

  /** "a" as compressors write it. */
  const FIXED: seq<byte> := [0x4B, 0x04, 0x00]

  lemma FixedBits(s: seq<bit>)
    requires s == BitsOf(FIXED)
    ensures At(s, 0, HeaderBits(true, 1))
    ensures At(s, 3, [1, 0, 0, 1] + [0, 0, 0, 1]) && At(s, 11, [0, 0, 0, 0] + [0, 0, 0])
  {
    hide BitsOf, At, HeaderBits;
    EightBits(FIXED, 0, 1, 1, 0, 1, 0, 0, 1, 0);
    EightBits(FIXED, 1, 0, 0, 1, 0, 0, 0, 0, 0);
    EightBits(FIXED, 2, 0, 0, 0, 0, 0, 0, 0, 0);
    FlagsAt(s, 0, true, 1);
    FourAt(s, 3, 1, 0, 0, 1);
    FourAt(s, 7, 0, 0, 0, 1);
    FourAt(s, 11, 0, 0, 0, 0);
    TripleAt(s, 15, 0, 0, 0);
    AtSplit(s, 3, [1, 0, 0, 1], [0, 0, 0, 1]);
    AtSplit(s, 11, [0, 0, 0, 0], [0, 0, 0]);
  }

  /** The words of 'a' and of end-of-block in the fixed code. */
  lemma FixedWords()
    ensures EncodeSym(FixedLL(), 97) == [1, 0, 0, 1] + [0, 0, 0, 1] && EncodeSym(FixedLL(), 256) == [0, 0, 0, 0] + [0, 0, 0]
    ensures Coded(FixedLL(), 97) && Coded(FixedLL(), 256)
  {
    hide MsbVal, FixedLL, EncodeSym, Code, KraftUpTo;
    FixedLiteral(97);
    FixedLiteral(256);
    MsbFour(1, 0, 0, 1);
    MsbFour(0, 0, 0, 1);
    MsbFour(0, 0, 0, 0);
    MsbThree(0, 0, 0);
    MsbBoth([1, 0, 0, 1], [0, 0, 0, 1]);
    MsbBoth([0, 0, 0, 0], [0, 0, 0]);
    WordIs(EncodeSym(FixedLL(), 97), [1, 0, 0, 1] + [0, 0, 0, 1]);
    WordIs(EncodeSym(FixedLL(), 256), [0, 0, 0, 0] + [0, 0, 0]);
    FixedKraft();
    FixedLength(97);
    FixedLength(256);
    CodeFits(FixedLL(), 97);
    CodeFits(FixedLL(), 256);
  }

  lemma LitAt(s: seq<bit>, p: nat, ll: seq<nat>, dl: seq<nat>, b: byte)
    requires Coded(ll, b) && At(s, p, EncodeSym(ll, b))
    ensures Lit(b).Encodable(ll, dl) && At(s, p, Lit(b).Encode(ll, dl)) && |Lit(b).Encode(ll, dl)| == ll[b]
  {
    hide Code, At, EncodeSym;
  }

  /** The fixed block decodes to "a". */
  lemma FixedExample(cap: nat)
    requires cap >= 1
    ensures Inflate(FIXED, 0, [], cap) == Done([97])
  {
    hide BitsOf, At, TokensAt, FixedLL, FixedDL, Inflate, HeaderBits, AllLegal, ExpandAll, EncodeSym, Code;
    var s, ll, dl := BitsOf(FIXED), FixedLL(), FixedDL();
    FixedBits(s);
    FixedWords();
    FixedLength(97);
    FixedLength(256);
    LitAt(s, 3, ll, dl, 97);
    EndAt(s, 11, ll, dl);
    TokenCons(s, 3, ll, dl, Lit(97), [], 18);
    assert [Lit(97)] + [] == [Lit(97)];
    OneLetter([], 97);
    ExpandNone([97]);
    ExpandCons([], Lit(97), [], [97]);
    OneBlock(FIXED, Fixed([Lit(97)]), 18, [97], cap);
  }

  // ------------------------------------------------------------ a stored block, and a match across blocks

  /** A stored block "ab" followed by a fixed block that repeats three bytes at distance 2. */
  const CROSSING: seq<byte> := [0, 2, 0, 0xFD, 0xFF, 97, 98, 3, 66, 0]

  lemma CrossingBits(s: seq<bit>)
    requires s == BitsOf(CROSSING)
    ensures At(s, 0, HeaderBits(false, 0)) && At(s, 56, HeaderBits(true, 1))
    ensures At(s, 59, [0, 0, 0, 0] + [0, 0, 1]) && At(s, 66, [0] + [0, 0, 0, 1]) && At(s, 71, [0, 0, 0, 0] + [0, 0, 0])
  {
    hide BitsOf, At, HeaderBits;
    EightBits(CROSSING, 0, 0, 0, 0, 0, 0, 0, 0, 0);
    EightBits(CROSSING, 7, 1, 1, 0, 0, 0, 0, 0, 0);
    EightBits(CROSSING, 8, 0, 1, 0, 0, 0, 0, 1, 0);
    EightBits(CROSSING, 9, 0, 0, 0, 0, 0, 0, 0, 0);
    FlagsAt(s, 0, false, 0);
    FlagsAt(s, 56, true, 1);
    FourAt(s, 59, 0, 0, 0, 0);
    TripleAt(s, 63, 0, 0, 1);
    AtSplit(s, 59, [0, 0, 0, 0], [0, 0, 1]);
    OneAt(s, 66, 0);
    FourAt(s, 67, 0, 0, 0, 1);
    AtSplit(s, 66, [0], [0, 0, 0, 1]);
    FourAt(s, 71, 0, 0, 0, 0);
    TripleAt(s, 75, 0, 0, 0);
    AtSplit(s, 71, [0, 0, 0, 0], [0, 0, 0]);
  }

  const BACK: Token := Match(0, 0, 1, 0)

  lemma CrossingWords()
    ensures EncodeSym(FixedLL(), 257) == [0, 0, 0, 0] + [0, 0, 1] && EncodeSym(FixedDL(), 1) == [0] + [0, 0, 0, 1]
    ensures Coded(FixedLL(), 257) && Coded(FixedDL(), 1) && FixedDL()[1] == 5
  {
    hide MsbVal, FixedLL, EncodeSym, Code, KraftUpTo;
    FixedLiteral(257);
    FixedDistance(1);
    MsbFour(0, 0, 0, 0);
    MsbFour(0, 0, 0, 1);
    MsbThree(0, 0, 1);
    MsbOne(0);
    MsbBoth([0, 0, 0, 0], [0, 0, 1]);
    MsbBoth([0], [0, 0, 0, 1]);
    WordIs(EncodeSym(FixedLL(), 257), [0, 0, 0, 0] + [0, 0, 1]);
    WordIs(EncodeSym(FixedDL(), 1), [0] + [0, 0, 0, 1]);
    FixedKraft();
    FixedLength(257);
    CodeFits(FixedLL(), 257);
    CodeFits(FixedDL(), 1);
  }

  lemma BackAt(s: seq<bit>, p: nat, ll: seq<nat>, dl: seq<nat>)
    requires Coded(ll, 257) && At(s, p, EncodeSym(ll, 257)) && Coded(dl, 1) && At(s, p + ll[257], EncodeSym(dl, 1))
    ensures BACK.Encodable(ll, dl) && At(s, p, BACK.Encode(ll, dl)) && |BACK.Encode(ll, dl)| == ll[257] + dl[1]
  {
    hide Code, At, EncodeSym;
    TailAt(s, p + ll[257], dl, 1);
    AtSplit(s, p, EncodeSym(ll, 257), BACK.EncodeTail(dl));
  }

  lemma CrossingTokens(s: seq<bit>)
    requires s == BitsOf(CROSSING)
    ensures TokensAt(s, 59, FixedLL(), FixedDL(), [BACK], 78)
  {
    hide BitsOf, At, TokensAt, FixedLL, FixedDL, HeaderBits, EncodeSym, Code;
    var ll, dl := FixedLL(), FixedDL();
    CrossingBits(s);
    CrossingWords();
    FixedWords();
    FixedLength(256);
    FixedLength(257);
    BackAt(s, 59, ll, dl);
    EndAt(s, 71, ll, dl);
    TokenCons(s, 59, ll, dl, BACK, [], 78);
    assert [BACK] + [] == [BACK];
  }

  lemma CrossingStored()
    ensures StoredAt(CROSSING, NextByte(3), 2, [97, 98], 56)
  {
    assert CROSSING[5..7] == [97, 98];
  }

  lemma StoredIs(src: seq<byte>, p: nat, last: bool, data: seq<byte>, q: nat, out: seq<byte>)
    requires At(BitsOf(src), p, HeaderBits(last, 0)) && StoredAt(src, NextByte(p + 3), |data|, data, q)
    ensures var b := Stored(|data|, data);
            BlockAt(src, p, last, b, q) && LegalBlock(out, b) && ExpandBlock(out, b) == out + data
  {
    hide BitsOf, At, HeaderBits, StoredAt;
  }

  lemma FixedIs(src: seq<byte>, p: nat, last: bool, ts: seq<Token>, q: nat, out: seq<byte>)
    requires At(BitsOf(src), p, HeaderBits(last, 1)) && TokensAt(BitsOf(src), p + 3, FixedLL(), FixedDL(), ts, q)
    requires AllLegal(out, ts)
    ensures var b := Fixed(ts);
            BlockAt(src, p, last, b, q) && LegalBlock(out, b) && ExpandBlock(out, b) == ExpandAll(out, ts)
  {
    hide BitsOf, At, HeaderBits, TokensAt, AllLegal, ExpandAll, FixedLL, FixedDL;
  }

  /** The two blocks together decode to "ababa". */
  lemma CrossingExample(cap: nat)
    requires cap >= 5
    ensures Inflate(CROSSING, 0, [], cap) == Done([97, 98, 97, 98, 97])
  {
    hide BitsOf, At, TokensAt, FixedLL, FixedDL, Inflate, HeaderBits, AllLegal, ExpandAll, StoredAt, NextByte, BlockAt,
      LegalBlock, ExpandBlock;
    var s := BitsOf(CROSSING);
    CrossingBits(s);
    CrossingTokens(s);
    CrossingStored();
    CrossingMeans();
    var none: seq<byte> := [];
    assert none + [97, 98] == [97, 98];
    StoredIs(CROSSING, 0, false, [97, 98], 56, none);
    FixedIs(CROSSING, 56, true, [BACK], 78, [97, 98]);
    TwoBlocks(CROSSING, Stored(2, [97, 98]), 56, Fixed([BACK]), 78, [97, 98], [97, 98, 97, 98, 97], cap);
  }

  lemma CrossingMeans()
    ensures AllLegal([97, 98], [BACK]) && ExpandAll([97, 98], [BACK]) == [97, 98, 97, 98, 97]
  {
    hide AllLegal, ExpandAll, Legal, Expand;
    ThreeMore([97, 98], 1);
    ExpandNone([97, 98, 97, 98, 97]);
    ExpandCons([97, 98], BACK, [], [97, 98, 97, 98, 97]);
    assert [BACK] + [] == [BACK];
  }

  /** A stream of two blocks. */
  lemma TwoBlocks(src: seq<byte>, a: Block, m: nat, b: Block, q: nat, mid: seq<byte>, out: seq<byte>, cap: nat)
    requires BlockAt(src, 0, false, a, m) && LegalBlock([], a) && ExpandBlock([], a) == mid
    requires BlockAt(src, m, true, b, q) && LegalBlock(mid, b) && ExpandBlock(mid, b) == out && |out| <= cap
    ensures Inflate(src, 0, [], cap) == Done(out)
  {
    hide BlockAt, Inflate, LegalBlock, ExpandBlock;
    var bs := [a, b];
    assert bs[1..] == [b] && [b][1..] == [];
    assert LegalStream(out, []) && ExpandStream(out, []) == out;
    assert LegalStream(mid, [b]) && ExpandStream(mid, [b]) == out;
    var none: seq<byte> := [];
    assert LegalStream(none, bs) && ExpandStream(none, bs) == out;
    assert StreamAt(src, m, [b], q);
    StreamDecode(src, 0, bs, q, [], cap);
  }
}
