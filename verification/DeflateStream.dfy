/**
 Whole DEFLATE streams: stored, fixed and dynamic blocks (sections 3.2.4, 3.2.6
 and 3.2.7 of RFC 1951), the decoder's result on an arbitrary byte string, and
 the theorems that it accepts exactly the streams of blocks and that a
 well-formed stream decodes to what its blocks mean.
 */
module DeflateStream {
  import opened Bits
  import opened Buffers
  import opened Huffman
  import opened Deflate

  // ------------------------------------------------------------ code lengths by runs

  /** An element of the run-length coded vector of code lengths. */
  datatype Item = Len(v: nat) | Repeat(n: nat) | Zeros(n: nat) | ManyZeros(n: nat) {

    predicate Valid() {
      match this
      case Len(v) => v <= 15
      case Repeat(n) => 3 <= n <= 6
      case Zeros(n) => 3 <= n <= 10
      case ManyZeros(n) => 11 <= n <= 138
    }

    function Sym(): (s: nat)
      requires Valid()
      ensures s < 19
    {
      match this
      case Len(v) => v
      case Repeat(_) => 16
      case Zeros(_) => 17
      case ManyZeros(_) => 18
    }

    function Run(): nat {
      match this
      case Len(_) => 1
      case Repeat(n) => n
      case Zeros(n) => n
      case ManyZeros(n) => n
    }

    /** Which length the run repeats, given the vector so far. */
    function Value(lens: seq<nat>): nat
      requires Repeat? ==> lens != []
    {
      match this
      case Len(v) => v
      case Repeat(_) => lens[|lens| - 1]
      case Zeros(_) => 0
      case ManyZeros(_) => 0
    }

    function Encode(cl: seq<nat>): seq<bit>
      requires Valid() && |cl| == 19
    {
      EncodeSym(cl, Sym()) + Lsb(Run() - RunBase(Sym()), RunBits(Sym()))
    }
  }

  function RunBits(sym: nat): nat {
    if sym == 16 then 2 else if sym == 17 then 3 else if sym == 18 then 7 else 0
  }

  function RunBase(sym: nat): nat {
    if sym < 16 then 1 else if sym < 18 then 3 else 11
  }

  function MakeItem(sym: nat, x: nat): (it: Item)
    requires sym < 19 && x < Pow2(RunBits(sym))
    ensures it.Valid() && it.Sym() == sym && it.Run() == RunBase(sym) + x
  {
    assert Pow2(2) == 4 && Pow2(3) == 8 && Pow2(7) == 128;
    if sym < 16 then Len(sym) else if sym == 16 then Repeat(3 + x) else if sym == 17 then Zeros(3 + x) else ManyZeros(11 + x)
  }

  /** One more run; the decoder cuts a run off at the announced size. */
  function Extend(lens: seq<nat>, it: Item, total: nat): (r: seq<nat>)
    requires |lens| <= total && (it.Repeat? ==> lens != [])
    ensures |r| <= total
  {
    lens + Fill<nat>(Min(it.Run(), total - |lens|), it.Value(lens))
  }

  /** The items spell a vector of exactly total code lengths, and none of them is superfluous. */
  predicate FitsAll(lens: seq<nat>, items: seq<Item>, total: nat)
    decreases |items|
  {
    if items == [] then |lens| == total
    else
      && |lens| < total && items[0].Valid() && (items[0].Repeat? ==> lens != [])
      && FitsAll(Extend(lens, items[0], total), items[1..], total)
  }

  function UnrollAll(lens: seq<nat>, items: seq<Item>, total: nat): (r: seq<nat>)
    requires FitsAll(lens, items, total)
    ensures |r| == total
    decreases |items|
  {
    if items == [] then lens else UnrollAll(Extend(lens, items[0], total), items[1..], total)
  }

  ghost predicate ItemsEncodable(cl: seq<nat>, items: seq<Item>)
  {
    |cl| == 19 && forall i | 0 <= i < |items| :: items[i].Valid() && Coded(cl, items[i].Sym())
  }

  function EncodeItems(cl: seq<nat>, items: seq<Item>): seq<bit>
    requires |cl| == 19 && forall i | 0 <= i < |items| :: items[i].Valid()
  {
    if items == [] then [] else items[0].Encode(cl) + EncodeItems(cl, items[1..])
  }

  // ------------------------------------------------------------ reading code lengths

  /** ItemShort: the symbol is there but the stream ends within its repeat count. */
  datatype LexedItem = ItemFail | ItemShort(sym: nat) | ItemRead(it: Item, next: nat)

  ghost function LexItem(s: seq<bit>, p: nat, cl: seq<nat>): (x: LexedItem)
    requires |cl| == 19
    ensures x.ItemRead? ==> x.it.Valid() && p < x.next <= |s|
  {
    match DecodeSym(s, p, cl)
    case NoSymbol => ItemFail
    case Symbol(sym, q) =>
      match ReadBits(s, q, RunBits(sym))
      case NoBits => ItemShort(sym)
      case Field(x, q1) => ItemRead(MakeItem(sym, x), q1)
  }

  /** Undefined: the decoder reads outside an array, so its source gives no meaning. */
  datatype LensResult = LensFail | LensUndefined | LensDone(next: nat, lens: seq<nat>)

  ghost function ReadLens(s: seq<bit>, p: nat, cl: seq<nat>, lens: seq<nat>, total: nat): (r: LensResult)
    requires |cl| == 19 && |lens| <= total && ValidLens(lens)
    ensures r.LensDone? ==> |r.lens| == total && ValidLens(r.lens) && p <= r.next
    ensures r.LensDone? && p <= |s| ==> r.next <= |s|
    decreases |s| - p
  {
    if |lens| == total then LensDone(p, lens)
    else
      match LexItem(s, p, cl)
      case ItemFail => LensFail
      case ItemShort(sym) => if sym == 16 && lens == [] then LensUndefined else LensFail
      case ItemRead(it, q) =>
        if it.Repeat? && lens == [] then LensUndefined
        else ReadLens(s, q, cl, Extend(lens, it, total), total)
  }

  lemma LexItemEncode(s: seq<bit>, p: nat, cl: seq<nat>, it: Item)
    requires |cl| == 19 && it.Valid() && Coded(cl, it.Sym()) && At(s, p, it.Encode(cl))
    ensures LexItem(s, p, cl) == ItemRead(it, p + |it.Encode(cl)|)
  {
    hide DecodeSym, EncodeSym, Code;
    var sym := it.Sym();
    var x := it.Run() - RunBase(sym);
    assert Pow2(2) == 4 && Pow2(3) == 8 && Pow2(7) == 128;
    assert x < Pow2(RunBits(sym));
    AtSplit(s, p, EncodeSym(cl, sym), Lsb(x, RunBits(sym)));
    DecodeCoded(s, p, cl, sym);
    LsbRead(s, p + cl[sym], x, RunBits(sym));
    assert MakeItem(sym, x) == it;
  }

  lemma ItemEncodeLex(s: seq<bit>, p: nat, cl: seq<nat>)
    requires |cl| == 19 && LexItem(s, p, cl).ItemRead?
    ensures var x := LexItem(s, p, cl);
            Coded(cl, x.it.Sym()) && At(s, p, x.it.Encode(cl)) && x.next == p + |x.it.Encode(cl)|
  {
    hide DecodeSym, EncodeSym, Code, At, MakeItem, Lsb, LsbVal, Pow2, Matches;
    var d := DecodeSym(s, p, cl);
    EncodeDecode(s, p, cl);
    LsbWrite(s, d.next, RunBits(d.sym));
    var x := ReadBits(s, d.next, RunBits(d.sym)).val;
    AtSplit(s, p, EncodeSym(cl, d.sym), Lsb(x, RunBits(d.sym)));
  }

  /** Any item sequence that spells a vector of the announced size is read back as that vector. */
  lemma {:induction false} LensEncode(s: seq<bit>, p: nat, cl: seq<nat>, lens: seq<nat>, items: seq<Item>, total: nat)
    requires ItemsEncodable(cl, items) && FitsAll(lens, items, total)
    requires |lens| <= total && ValidLens(lens) && At(s, p, EncodeItems(cl, items))
    ensures ReadLens(s, p, cl, lens, total)
            == LensDone(p + |EncodeItems(cl, items)|, UnrollAll(lens, items, total))
    decreases |items|
  {
    hide LexItem, Item.Encode, Coded;
    if items != [] {
      AtSplit(s, p, items[0].Encode(cl), EncodeItems(cl, items[1..]));
      LexItemEncode(s, p, cl, items[0]);
      LensEncode(s, p + |items[0].Encode(cl)|, cl, Extend(lens, items[0], total), items[1..], total);
    }
  }

  /** Conversely, a vector that is read is spelled by a sequence of items in the stream. */
  lemma {:induction false} LensParse(s: seq<bit>, p: nat, cl: seq<nat>, lens: seq<nat>, total: nat)
      returns (items: seq<Item>)
    requires |cl| == 19 && |lens| <= total && ValidLens(lens) && p <= |s|
    requires ReadLens(s, p, cl, lens, total).LensDone?
    ensures ItemsEncodable(cl, items) && FitsAll(lens, items, total) && At(s, p, EncodeItems(cl, items))
    ensures ReadLens(s, p, cl, lens, total)
            == LensDone(p + |EncodeItems(cl, items)|, UnrollAll(lens, items, total))
    decreases |s| - p
  {
    hide LexItem, Item.Encode, Coded;
    if |lens| == total {
      items := [];
    } else {
      var x := LexItem(s, p, cl);
      ItemEncodeLex(s, p, cl);
      var rest := LensParse(s, x.next, cl, Extend(lens, x.it, total), total);
      items := [x.it] + rest;
      assert items[1..] == rest;
      AtSplit(s, p, x.it.Encode(cl), EncodeItems(cl, rest));
    }
  }

  // ------------------------------------------------------------ dynamic header

  /** The order in which code length code lengths are transmitted. */
  function Ord(i: nat): (r: nat)
    requires i < 19
    ensures r < 19
  {
    if i < 3 then 16 + i
    else if i == 3 then 0
    else if i % 2 == 0 then 6 + i / 2
    else 9 - i / 2
  }

  lemma OrdOnto(j: nat) returns (i: nat)
    requires j < 19
    ensures i < 19 && Ord(i) == j
  {
    i := if j >= 16 then j - 16 else if j == 0 then 3 else if j >= 8 then 2 * (j - 6) else 2 * (9 - j) + 1;
  }

  ghost function BitField(s: seq<bit>, p: nat, n: nat): (v: nat)
    requires p + n <= |s|
    ensures v < Pow2(n)
  {
    LsbValBound(s[p..p + n]);
    LsbVal(s[p..p + n])
  }

  ghost function ReadCl(s: seq<bit>, p: nat, k: nat): (cl: seq<nat>)
    requires k <= 19 && p + 3 * k <= |s|
    ensures |cl| == 19 && forall j | 0 <= j < 19 :: cl[j] < 8
  {
    assert Pow2(3) == 8;
    if k == 0 then Fill<nat>(19, 0) else ReadCl(s, p, k - 1)[Ord(k - 1) := BitField(s, p + 3 * (k - 1), 3)]
  }

  function EncodeCl(cl: seq<nat>, k: nat): (w: seq<bit>)
    requires |cl| == 19 && k <= 19
    ensures |w| == 3 * k
  {
    if k == 0 then [] else EncodeCl(cl, k - 1) + Lsb(cl[Ord(k - 1)], 3)
  }

  lemma {:induction false} ClEncode(s: seq<bit>, p: nat, cl: seq<nat>, k: nat, j: nat)
    requires |cl| == 19 && k <= 19 && j < 19 && (forall m | 0 <= m < 19 :: cl[m] < 8)
    requires At(s, p, EncodeCl(cl, k))
    ensures ReadCl(s, p, k)[j] == cl[j] || (ReadCl(s, p, k)[j] == 0 && forall i | 0 <= i < k :: Ord(i) != j)
  {
    hide Ord, Lsb, LsbVal;
    if k > 0 {
      var v := cl[Ord(k - 1)];
      assert Pow2(3) == 8;
      AtSplit(s, p, EncodeCl(cl, k - 1), Lsb(v, 3));
      LsbRead(s, p + 3 * (k - 1), v, 3);
      ClEncode(s, p, cl, k - 1, j);
    }
  }

  lemma OrdInjective(i: nat, j: nat)
    requires i < 19 && j < 19 && i != j
    ensures Ord(i) != Ord(j)
  {
  }

  /** Each length read stands where the transmission order puts it. */
  lemma {:induction false} ClAt(s: seq<bit>, p: nat, k: nat, i: nat)
    requires k <= 19 && i < 19 && p + 3 * k <= |s|
    ensures ReadCl(s, p, k)[Ord(i)] == if i < k then BitField(s, p + 3 * i, 3) else 0
  {
    hide Ord, BitField;
    if k > 0 {
      ClAt(s, p, k - 1, i);
      if i != k - 1 { OrdInjective(i, k - 1); }
    }
  }

  lemma FieldWrite(s: seq<bit>, p: nat, n: nat)
    requires p + n <= |s|
    ensures At(s, p, Lsb(BitField(s, p, n), n))
  {
    hide Lsb, LsbVal;
    LsbOfVal(s[p..p + n]);
  }

  lemma {:induction false} ClParse(s: seq<bit>, p: nat, n: nat, k: nat)
    requires k <= n <= 19 && p + 3 * n <= |s|
    ensures At(s, p, EncodeCl(ReadCl(s, p, n), k))
  {
    hide Ord, Lsb, BitField, ReadCl;
    if k > 0 {
      var cl := ReadCl(s, p, n);
      ClParse(s, p, n, k - 1);
      ClAt(s, p, n, k - 1);
      FieldWrite(s, p + 3 * (k - 1), 3);
      AtSplit(s, p, EncodeCl(cl, k - 1), Lsb(cl[Ord(k - 1)], 3));
    }
  }

  datatype DynHeader = DynHeader(hlit: nat, hdist: nat, hclen: nat, cl: seq<nat>, items: seq<Item>) {

    ghost predicate Valid() {
      && 257 <= hlit <= 288 && 1 <= hdist <= 32 && 4 <= hclen <= 19
      && |cl| == 19 && (forall j | 0 <= j < 19 :: cl[j] < 8)
      && (forall i | hclen <= i < 19 :: cl[Ord(i)] == 0)
      && ItemsEncodable(cl, items) && FitsAll([], items, hlit + hdist)
    }

    function Lens(): (r: seq<nat>)
      requires FitsAll([], items, hlit + hdist)
      ensures |r| == hlit + hdist
    {
      UnrollAll([], items, hlit + hdist)
    }

    function LitLens(): seq<nat>
      requires FitsAll([], items, hlit + hdist)
    {
      Lens()[..hlit]
    }

    function DistLens(): seq<nat>
      requires FitsAll([], items, hlit + hdist)
    {
      Lens()[hlit..]
    }

    ghost function Encode(): seq<bit>
      requires Valid()
    {
      Lsb(hlit - 257, 5) + (Lsb(hdist - 1, 5) + (Lsb(hclen - 4, 4) + (EncodeCl(cl, hclen) + EncodeItems(cl, items))))
    }
  }

  datatype HeaderResult = HeaderFail | HeaderUndefined | HeaderDone(next: nat, ll: seq<nat>, dl: seq<nat>)

  ghost function ReadHeader(s: seq<bit>, p: nat): (h: HeaderResult)
    ensures h.HeaderDone? ==> p < h.next <= |s| && ValidLens(h.ll) && ValidLens(h.dl) && |h.ll| <= 288 && |h.dl| <= 32
  {
    if p + 14 > |s| then HeaderUndefined
    else
      assert Pow2(4) == 16 && Pow2(5) == 32;
      var hlit := BitField(s, p, 5) + 257;
      var hdist := BitField(s, p + 5, 5) + 1;
      var hclen := BitField(s, p + 10, 4) + 4;
      if p + 14 + 3 * hclen > |s| then HeaderUndefined
      else
        match ReadLens(s, p + 14 + 3 * hclen, ReadCl(s, p + 14, hclen), [], hlit + hdist)
        case LensFail => HeaderFail
        case LensUndefined => HeaderUndefined
        case LensDone(q, lens) => HeaderDone(q, lens[..hlit], lens[hlit..])
  }

  lemma ReadClIs(s: seq<bit>, p: nat, h: DynHeader)
    requires h.Valid() && At(s, p, EncodeCl(h.cl, h.hclen))
    ensures ReadCl(s, p, h.hclen) == h.cl
  {
    forall j | 0 <= j < 19 ensures ReadCl(s, p, h.hclen)[j] == h.cl[j] {
      ClEncode(s, p, h.cl, h.hclen, j);
      var i := OrdOnto(j);
    }
  }

  lemma FieldRead(s: seq<bit>, p: nat, v: nat, n: nat, w: seq<bit>)
    requires v < Pow2(n) && At(s, p, Lsb(v, n) + w)
    ensures p + n <= |s| && BitField(s, p, n) == v && At(s, p + n, w)
  {
    hide Lsb, LsbVal;
    AtSplit(s, p, Lsb(v, n), w);
    LsbRead(s, p, v, n);
  }

  /** A dynamic header yields exactly the two vectors of code lengths it was made from. */
  lemma HeaderEncode(s: seq<bit>, p: nat, h: DynHeader)
    requires h.Valid() && At(s, p, h.Encode())
    ensures ReadHeader(s, p) == HeaderDone(p + |h.Encode()|, h.LitLens(), h.DistLens())
  {
    hide ReadLens, ReadCl, EncodeCl, EncodeItems, Lsb, FitsAll, UnrollAll, BitField, At;
    assert Pow2(4) == 16 && Pow2(5) == 32;
    var w4 := EncodeCl(h.cl, h.hclen) + EncodeItems(h.cl, h.items);
    var w3 := Lsb(h.hclen - 4, 4) + w4;
    FieldRead(s, p, h.hlit - 257, 5, Lsb(h.hdist - 1, 5) + w3);
    FieldRead(s, p + 5, h.hdist - 1, 5, w3);
    FieldRead(s, p + 10, h.hclen - 4, 4, w4);
    AtSplit(s, p + 14, EncodeCl(h.cl, h.hclen), EncodeItems(h.cl, h.items));
    ReadClIs(s, p + 14, h);
    AtFits(s, p + 14, EncodeCl(h.cl, h.hclen));
    LensEncode(s, p + 14 + 3 * h.hclen, h.cl, [], h.items, h.hlit + h.hdist);
  }

  /** Conversely, whatever header is accepted has that form. */
  lemma HeaderParse(s: seq<bit>, p: nat) returns (h: DynHeader)
    requires ReadHeader(s, p).HeaderDone?
    ensures h.Valid() && At(s, p, h.Encode())
    ensures ReadHeader(s, p) == HeaderDone(p + |h.Encode()|, h.LitLens(), h.DistLens())
  {
    hide ReadLens, ReadCl, EncodeCl, EncodeItems, Lsb, FitsAll, UnrollAll, BitField, At, Ord, ItemsEncodable;
    assert Pow2(4) == 16 && Pow2(5) == 32;
    var hlit, hdist, hclen := BitField(s, p, 5) + 257, BitField(s, p + 5, 5) + 1, BitField(s, p + 10, 4) + 4;
    var cl := ReadCl(s, p + 14, hclen);
    assert ReadLens(s, p + 14 + 3 * hclen, cl, [], hlit + hdist).LensDone?;
    var items := LensParse(s, p + 14 + 3 * hclen, cl, [], hlit + hdist);
    h := DynHeader(hlit, hdist, hclen, cl, items);
    forall i | hclen <= i < 19 ensures cl[Ord(i)] == 0 { ClAt(s, p + 14, hclen, i); }
    ClParse(s, p + 14, hclen, hclen);
    HeaderAt(s, p, h);
  }

  lemma HeaderAt(s: seq<bit>, p: nat, h: DynHeader)
    requires h.Valid() && p + 14 <= |s|
    requires BitField(s, p, 5) == h.hlit - 257 && BitField(s, p + 5, 5) == h.hdist - 1 && BitField(s, p + 10, 4) == h.hclen - 4
    requires At(s, p + 14, EncodeCl(h.cl, h.hclen)) && At(s, p + 14 + 3 * h.hclen, EncodeItems(h.cl, h.items))
    ensures At(s, p, h.Encode()) && |h.Encode()| == 14 + 3 * h.hclen + |EncodeItems(h.cl, h.items)|
  {
    hide EncodeCl, EncodeItems, Lsb, BitField, At, Ord, FitsAll, Coded;
    FieldWrite(s, p, 5);
    FieldWrite(s, p + 5, 5);
    FieldWrite(s, p + 10, 4);
    var w4 := EncodeCl(h.cl, h.hclen) + EncodeItems(h.cl, h.items);
    var w3 := Lsb(h.hclen - 4, 4) + w4;
    AtSplit(s, p + 14, EncodeCl(h.cl, h.hclen), EncodeItems(h.cl, h.items));
    AtSplit(s, p + 10, Lsb(h.hclen - 4, 4), w4);
    AtSplit(s, p + 5, Lsb(h.hdist - 1, 5), w3);
    AtSplit(s, p, Lsb(h.hlit - 257, 5), Lsb(h.hdist - 1, 5) + w3);
  }

  lemma AtFits(s: seq<bit>, p: nat, w: seq<bit>)
    requires At(s, p, w)
    ensures p + |w| <= |s|
  {
  }

  // ------------------------------------------------------------ the fixed code

  function FixedLL(): (ll: seq<nat>)
    ensures |ll| == 288
  {
    Fill<nat>(144, 8) + Fill<nat>(112, 9) + Fill<nat>(24, 7) + Fill<nat>(8, 8)
  }

  function FixedDL(): (dl: seq<nat>)
    ensures |dl| == 30
  {
    Fill<nat>(30, 5)
  }

  lemma {:induction false} FillKraft(n: nat, v: nat)
    requires 1 <= v <= MAXBITS
    ensures KraftUpTo(Fill<nat>(n, v), MAXBITS) == n * Pow2(MAXBITS - v)
  {
    if n > 0 {
      assert Fill<nat>(n, v)[..n - 1] == Fill<nat>(n - 1, v);
      FillKraft(n - 1, v);
      Distribute1(n - 1, 1, Pow2(MAXBITS - v));
    }
  }

  lemma {:induction false} KraftConcat(a: seq<nat>, b: seq<nat>)
    ensures KraftUpTo(a + b, MAXBITS) == KraftUpTo(a, MAXBITS) + KraftUpTo(b, MAXBITS)
  {
    if b == [] {
      assert a + b == a;
    } else {
      assert (a + b)[..|a + b| - 1] == a + b[..|b| - 1];
      KraftConcat(a, b[..|b| - 1]);
    }
  }

  lemma FixedLLKraft()
    ensures KraftUpTo(FixedLL(), MAXBITS) == 144 * Pow2(7) + 112 * Pow2(6) + 24 * Pow2(8) + 8 * Pow2(7)
  {
    hide KraftUpTo, Pow2, Fill;
    var a, b, c, d := Fill<nat>(144, 8), Fill<nat>(112, 9), Fill<nat>(24, 7), Fill<nat>(8, 8);
    KraftConcat(a + b + c, d);
    KraftConcat(a + b, c);
    KraftConcat(a, b);
    FillKraft(144, 8);
    FillKraft(112, 9);
    FillKraft(24, 7);
    FillKraft(8, 8);
  }

  /** The fixed literal/length code is complete; the fixed distance code of 30 symbols has room to spare. */
  lemma FixedKraft()
    ensures KraftUpTo(FixedLL(), MAXBITS) == Pow2(MAXBITS) && Kraft(FixedLL()) && Kraft(FixedDL())
  {
    hide KraftUpTo;
    FixedLLKraft();
    FillKraft(30, 5);
    assert Pow2(7) == 128 && Pow2(6) == 64 && Pow2(8) == 256 && Pow2(10) == 1024 && Pow2(15) == 32768;
  }

  // ------------------------------------------------------------ blocks

  /** The data of a stored block is as much of the announced length as is taken. */
  datatype Block = Stored(len: nat, data: seq<byte>) | Fixed(ts: seq<Token>) | Dynamic(h: DynHeader, ts: seq<Token>)

  /** A block that can be expanded in full: no byte is left out and no match reaches back too far. */
  predicate LegalBlock(out: seq<byte>, b: Block)
  {
    if b.Stored? then |b.data| == b.len else AllLegal(out, b.ts)
  }

  function ExpandBlock(out: seq<byte>, b: Block): (r: seq<byte>)
    requires LegalBlock(out, b)
    ensures |r| >= |out|
  {
    if b.Stored? then out + b.data else ExpandAll(out, b.ts)
  }

  predicate LegalStream(out: seq<byte>, bs: seq<Block>)
    decreases |bs|
  {
    bs == [] || (LegalBlock(out, bs[0]) && LegalStream(ExpandBlock(out, bs[0]), bs[1..]))
  }

  /** What a stream means: each block appends to everything before it, so a match may
      reach back across block boundaries. */
  function ExpandStream(out: seq<byte>, bs: seq<Block>): (r: seq<byte>)
    requires LegalStream(out, bs)
    ensures |r| >= |out|
    decreases |bs|
  {
    if bs == [] then out else ExpandStream(ExpandBlock(out, bs[0]), bs[1..])
  }

  /** A stored block is taken in full, or as far as there is room. */
  predicate Emits(out: seq<byte>, b: Block, cap: nat)
  {
    && |out| <= cap
    && if b.Stored? then |b.data| == Min(b.len, cap - |out|) else forall i | 0 <= i < |b.ts| :: b.ts[i].Valid()
  }

  /** What a block adds to an output of limited size. */
  function EmitBlock(out: seq<byte>, b: Block, cap: nat): (r: seq<byte>)
    requires Emits(out, b, cap)
    ensures |r| <= cap
  {
    if b.Stored? then out + b.data else EmitAll(out, b.ts, cap)
  }

  predicate EmitsAll(out: seq<byte>, bs: seq<Block>, cap: nat)
    decreases |bs|
  {
    bs == [] || (Emits(out, bs[0], cap) && EmitsAll(EmitBlock(out, bs[0], cap), bs[1..], cap))
  }

  function EmitStream(out: seq<byte>, bs: seq<Block>, cap: nat): (r: seq<byte>)
    requires EmitsAll(out, bs, cap)
    decreases |bs|
  {
    if bs == [] then out else EmitStream(EmitBlock(out, bs[0], cap), bs[1..], cap)
  }

  /** A stored block starts at the next byte boundary. */
  function NextByte(p: nat): nat {
    (p + 7) / 8
  }

  /** Tokens coded with the given lengths occupy the bits from p to q. */
  ghost predicate TokensAt(s: seq<bit>, p: nat, ll: seq<nat>, dl: seq<nat>, ts: seq<Token>, q: nat)
  {
    && AllEncodable(ts, ll, dl) && Coded(ll, EOB)
    && At(s, p, EncodeTokens(ts, ll, dl)) && q == p + |EncodeTokens(ts, ll, dl)|
  }

  /** A stored block whose announced length is len and of which data is taken; the input may not
      end right behind data that is only part of it. */
  ghost predicate StoredAt(src: seq<byte>, k: nat, len: nat, data: seq<byte>, q: nat)
  {
    && |data| <= len < 0x10000 && k + 4 + |data| <= |src| && (|data| < len ==> k + 4 + |data| < |src|)
    && src[k] == len % 256 && src[k + 1] == len / 256
    && src[k + 4..k + 4 + |data|] == data && q == 8 * (k + 4 + |data|)
  }

  /** A dynamic header and the tokens coded with its two vectors of lengths. */
  ghost predicate DynamicAt(s: seq<bit>, p: nat, h: DynHeader, ts: seq<Token>, q: nat)
  {
    && h.Valid() && At(s, p, h.Encode())
    && TokensAt(s, p + |h.Encode()|, h.LitLens(), h.DistLens(), ts, q)
  }

  /** Block b, flagged last or not, occupies the bits of src from p to q.  The bits skipped
      before a stored block and its NLEN field may hold anything: the decoder ignores both. */
  ghost predicate BlockAt(src: seq<byte>, p: nat, last: bool, b: Block, q: nat)
  {
    var s := BitsOf(src);
    match b
    case Stored(len, data) => At(s, p, HeaderBits(last, 0)) && StoredAt(src, NextByte(p + 3), len, data, q)
    case Fixed(ts) => At(s, p, HeaderBits(last, 1)) && TokensAt(s, p + 3, FixedLL(), FixedDL(), ts, q)
    case Dynamic(h, ts) => At(s, p, HeaderBits(last, 2)) && DynamicAt(s, p + 3, h, ts, q)
  }

  function HeaderBits(last: bool, kind: nat): (w: seq<bit>)
    requires kind < 3
    ensures |w| == 3
  {
    [if last then 1 else 0, kind % 2, kind / 2]
  }

  /** The blocks bs, of which exactly the final one is flagged last, lie in src from bit p to bit q. */
  ghost predicate StreamAt(src: seq<byte>, p: nat, bs: seq<Block>, q: nat)
    decreases |bs|
  {
    if bs == [] then false
    else if |bs| == 1 then BlockAt(src, p, true, bs[0], q)
    else exists m :: BlockAt(src, p, false, bs[0], m) && StreamAt(src, m, bs[1..], q)
  }

  // ------------------------------------------------------------ the decoder on any byte string

  /** A two-digit number, low digit first. */
  function LowHigh(lo: nat, hi: nat, radix: nat): nat {
    lo + radix * hi
  }

  datatype Step = StepFail | StepUndefined | StepDone(next: nat, out: seq<byte>)

  /** Copying stops consuming input once the output is full, and fails where the input ends. */
  function DecodeStored(src: seq<byte>, k: nat, out: seq<byte>, cap: nat): (r: Step)
    requires |out| <= cap
    ensures !r.StepUndefined?
    ensures r.StepDone? ==> 8 * k < r.next <= 8 * |src| && |r.out| <= cap
  {
    if k + 4 > |src| then StepFail
    else
      var len := LowHigh(src[k], src[k + 1], 256);
      var room := cap - |out|;
      if len > 0 && k + 4 + Min(len - 1, room) >= |src| then StepFail
      else
        var n := Min(len, room);
        StepDone(8 * (k + 4 + n), out + src[k + 4..k + 4 + n])
  }

  ghost function DecodeTokens(s: seq<bit>, p: nat, ll: seq<nat>, dl: seq<nat>, out: seq<byte>, cap: nat): (r: Step)
    requires |out| <= cap
    ensures r.StepDone? ==> p < r.next <= |s| && |r.out| <= cap
    ensures !r.StepUndefined?
  {
    match DecodeBlock(s, p, ll, dl, out, cap)
    case BlockFail => StepFail
    case BlockDone(q, o) => StepDone(q, o)
  }

  ghost function DecodeDynamic(s: seq<bit>, p: nat, out: seq<byte>, cap: nat): (r: Step)
    requires |out| <= cap
    ensures r.StepDone? ==> p < r.next <= |s| && |r.out| <= cap
  {
    match ReadHeader(s, p)
    case HeaderFail => StepFail
    case HeaderUndefined => StepUndefined
    case HeaderDone(q, ll, dl) => DecodeTokens(s, q, ll, dl, out, cap)
  }

  /** The block of the given kind whose contents start at bit p. */
  ghost function DecodeBody(src: seq<byte>, p: nat, kind: nat, out: seq<byte>, cap: nat): (r: Step)
    requires |out| <= cap
    ensures r.StepDone? ==> p < r.next <= 8 * |src| && |r.out| <= cap
  {
    if kind == 0 then DecodeStored(src, NextByte(p), out, cap)
    else if kind == 1 then DecodeTokens(BitsOf(src), p, FixedLL(), FixedDL(), out, cap)
    else if kind == 2 then DecodeDynamic(BitsOf(src), p, out, cap)
    else StepFail
  }

  datatype Result = Fail | Undefined | Done(out: seq<byte>)

  ghost function Inflate(src: seq<byte>, p: nat, out: seq<byte>, cap: nat): (r: Result)
    requires |out| <= cap
    ensures r.Done? ==> |r.out| <= cap
    decreases 8 * |src| - p
  {
    if p + 3 > 8 * |src| then Fail
    else
      var s := BitsOf(src);
      match DecodeBody(src, p + 3, LowHigh(s[p + 1], s[p + 2], 2), out, cap)
      case StepFail => Fail
      case StepUndefined => Undefined
      case StepDone(q, o) => if s[p] == 1 then Done(o) else Inflate(src, q, o, cap)
  }

  // ------------------------------------------------------------ the theorems

  /** inflate_block succeeds exactly on the encodings of token sequences, whatever the code lengths;
      its output is what those tokens emit and it stops on the bit after end-of-block. */
  lemma BlockIff(s: seq<bit>, p: nat, ll: seq<nat>, dl: seq<nat>, out: seq<byte>, cap: nat, q: nat, r: seq<byte>)
    requires |out| <= cap
    ensures DecodeBlock(s, p, ll, dl, out, cap) == BlockDone(q, r)
            <==> exists ts :: TokensAt(s, p, ll, dl, ts, q) && EmitAll(out, ts, cap) == r
  {
    hide EncodeTokens, DecodeBlock, EmitAll, At, Coded;
    if DecodeBlock(s, p, ll, dl, out, cap) == BlockDone(q, r) {
      var ts := BlockParse(s, p, ll, dl, out, cap);
      assert TokensAt(s, p, ll, dl, ts, q) && EmitAll(out, ts, cap) == r;
    }
    forall ts | TokensAt(s, p, ll, dl, ts, q) && EmitAll(out, ts, cap) == r
      ensures DecodeBlock(s, p, ll, dl, out, cap) == BlockDone(q, r)
    {
      BlockEncode(s, p, ll, dl, ts, out, cap);
    }
  }

  lemma TokensDecode(s: seq<bit>, p: nat, ll: seq<nat>, dl: seq<nat>, ts: seq<Token>, q: nat, out: seq<byte>, cap: nat)
    requires TokensAt(s, p, ll, dl, ts, q) && |out| <= cap
    ensures DecodeTokens(s, p, ll, dl, out, cap) == StepDone(q, EmitAll(out, ts, cap))
  {
    hide EncodeTokens, DecodeBlock, EmitAll, Coded, At;
    BlockEncode(s, p, ll, dl, ts, out, cap);
  }

  lemma TokensParse(s: seq<bit>, p: nat, ll: seq<nat>, dl: seq<nat>, out: seq<byte>, cap: nat) returns (ts: seq<Token>)
    requires |out| <= cap && DecodeTokens(s, p, ll, dl, out, cap).StepDone?
    ensures (forall i | 0 <= i < |ts| :: ts[i].Valid())
            && TokensAt(s, p, ll, dl, ts, DecodeTokens(s, p, ll, dl, out, cap).next)
            && DecodeTokens(s, p, ll, dl, out, cap).out == EmitAll(out, ts, cap)
  {
    hide EncodeTokens, DecodeBlock, EmitAll, Coded, At;
    ts := BlockParse(s, p, ll, dl, out, cap);
  }

  lemma HeaderBitsRead(s: seq<bit>, p: nat, last: bool, kind: nat)
    requires kind < 3
    ensures At(s, p, HeaderBits(last, kind))
            <==> p + 3 <= |s| && s[p] == (if last then 1 else 0) && LowHigh(s[p + 1], s[p + 2], 2) == kind
  {
    var w := HeaderBits(last, kind);
    if p + 3 <= |s| {
      assert s[p..p + 3] == [s[p], s[p + 1], s[p + 2]];
    }
  }

  lemma DynamicDecode(s: seq<bit>, p: nat, h: DynHeader, ts: seq<Token>, q: nat, out: seq<byte>, cap: nat)
    requires DynamicAt(s, p, h, ts, q) && |out| <= cap
    ensures DecodeDynamic(s, p, out, cap) == StepDone(q, EmitAll(out, ts, cap))
  {
    hide TokensAt, DecodeTokens, ReadHeader, EmitAll, DynHeader.Encode, DynHeader.LitLens, DynHeader.DistLens;
    HeaderEncode(s, p, h);
    TokensDecode(s, p + |h.Encode()|, h.LitLens(), h.DistLens(), ts, q, out, cap);
  }

  function Kind(b: Block): (k: nat)
    ensures k < 3
  {
    if b.Stored? then 0 else if b.Fixed? then 1 else 2
  }

  /** One block of any kind decodes to what it emits and leaves the reader at its end. */
  lemma BlockDecode(src: seq<byte>, p: nat, last: bool, b: Block, q: nat, out: seq<byte>, cap: nat)
    requires BlockAt(src, p, last, b, q) && Emits(out, b, cap)
    ensures At(BitsOf(src), p, HeaderBits(last, Kind(b)))
    ensures DecodeBody(src, p + 3, Kind(b), out, cap) == StepDone(q, EmitBlock(out, b, cap))
  {
    hide TokensAt, DynamicAt, DecodeTokens, DecodeDynamic, EmitAll, FixedLL, FixedDL, BitsOf, At, HeaderBits;
    var s := BitsOf(src);
    match b
    case Stored(len, data) => StoredDecode(src, NextByte(p + 3), len, data, q, out, cap);
    case Fixed(ts) => TokensDecode(s, p + 3, FixedLL(), FixedDL(), ts, q, out, cap);
    case Dynamic(h, ts) => DynamicDecode(s, p + 3, h, ts, q, out, cap);
  }

  lemma StoredDecode(src: seq<byte>, k: nat, len: nat, data: seq<byte>, q: nat, out: seq<byte>, cap: nat)
    requires StoredAt(src, k, len, data, q) && |out| <= cap && |data| == Min(len, cap - |out|)
    ensures DecodeStored(src, k, out, cap) == StepDone(q, out + data)
  {
    assert LowHigh(src[k], src[k + 1], 256) == len;
  }

  lemma StoredParse(src: seq<byte>, k: nat, out: seq<byte>, cap: nat) returns (b: Block)
    requires |out| <= cap && DecodeStored(src, k, out, cap).StepDone?
    ensures b.Stored? && Emits(out, b, cap)
    ensures DecodeStored(src, k, out, cap).out == out + b.data
    ensures StoredAt(src, k, b.len, b.data, DecodeStored(src, k, out, cap).next)
  {
    var len := LowHigh(src[k], src[k + 1], 256);
    DivUnique(len, 256, src[k + 1], src[k]);
    var n := Min(len, cap - |out|);
    b := Stored(len, src[k + 4..k + 4 + n]);
  }

  lemma DynamicParse(s: seq<bit>, p: nat, out: seq<byte>, cap: nat) returns (b: Block)
    requires |out| <= cap && DecodeDynamic(s, p, out, cap).StepDone?
    ensures b.Dynamic? && Emits(out, b, cap) && DecodeDynamic(s, p, out, cap).out == EmitAll(out, b.ts, cap)
    ensures DynamicAt(s, p, b.h, b.ts, DecodeDynamic(s, p, out, cap).next)
  {
    hide TokensAt, DecodeTokens, EmitAll, At, ReadHeader, DynHeader.Encode, DynHeader.LitLens, DynHeader.DistLens;
    var h := HeaderParse(s, p);
    var ts := TokensParse(s, p + |h.Encode()|, h.LitLens(), h.DistLens(), out, cap);
    b := Dynamic(h, ts);
  }

  /** Conversely, whatever body is accepted is that of a block. */
  lemma BodyParse(src: seq<byte>, p: nat, last: bool, kind: nat, out: seq<byte>, cap: nat) returns (b: Block)
    requires |out| <= cap && DecodeBody(src, p + 3, kind, out, cap).StepDone?
    requires kind < 3 && At(BitsOf(src), p, HeaderBits(last, kind))
    ensures var x := DecodeBody(src, p + 3, kind, out, cap);
            BlockAt(src, p, last, b, x.next) && Emits(out, b, cap) && x.out == EmitBlock(out, b, cap)
  {
    hide TokensAt, DynamicAt, DecodeTokens, DecodeStored, DecodeDynamic, EmitAll, FixedLL, FixedDL, BitsOf, At, HeaderBits,
      StoredAt;
    var s := BitsOf(src);
    if kind == 0 {
      b := StoredParse(src, NextByte(p + 3), out, cap);
    } else if kind == 1 {
      var ts := TokensParse(s, p + 3, FixedLL(), FixedDL(), out, cap);
      b := Fixed(ts);
    } else {
      b := DynamicParse(s, p + 3, out, cap);
    }
  }

  lemma StepDecode(src: seq<byte>, p: nat, last: bool, b: Block, q: nat, out: seq<byte>, cap: nat)
    requires BlockAt(src, p, last, b, q) && Emits(out, b, cap)
    ensures Inflate(src, p, out, cap)
            == if last then Done(EmitBlock(out, b, cap)) else Inflate(src, q, EmitBlock(out, b, cap), cap)
  {
    hide BlockAt, DecodeBody, Emits, EmitBlock, HeaderBits, LowHigh, At;
    BlockDecode(src, p, last, b, q, out, cap);
    HeaderBitsRead(BitsOf(src), p, last, Kind(b));
  }

  lemma {:induction false} StreamEmits(src: seq<byte>, p: nat, bs: seq<Block>, q: nat, out: seq<byte>, cap: nat)
    requires StreamAt(src, p, bs, q) && EmitsAll(out, bs, cap)
    ensures |out| <= cap && Inflate(src, p, out, cap) == Done(EmitStream(out, bs, cap))
    decreases |bs|
  {
    hide BlockAt, Inflate, EmitBlock;
    var o := EmitBlock(out, bs[0], cap);
    assert EmitStream(out, bs, cap) == EmitStream(o, bs[1..], cap);
    if |bs| == 1 {
      StepDecode(src, p, true, bs[0], q, out, cap);
    } else {
      var m :| BlockAt(src, p, false, bs[0], m) && StreamAt(src, m, bs[1..], q);
      StepDecode(src, p, false, bs[0], m, out, cap);
      StreamEmits(src, m, bs[1..], q, o, cap);
    }
  }

  /** What an accepted stream starts with. */
  lemma StepParse(src: seq<byte>, p: nat, out: seq<byte>, cap: nat) returns (last: bool, b: Block, q: nat)
    requires |out| <= cap && Inflate(src, p, out, cap).Done?
    ensures BlockAt(src, p, last, b, q) && Emits(out, b, cap) && p < q <= 8 * |src|
    ensures Inflate(src, p, out, cap)
            == if last then Done(EmitBlock(out, b, cap)) else Inflate(src, q, EmitBlock(out, b, cap), cap)
  {
    hide BlockAt, DecodeBody, Emits, EmitBlock, HeaderBits, LowHigh, At;
    var s := BitsOf(src);
    last := s[p] == 1;
    var kind := LowHigh(s[p + 1], s[p + 2], 2);
    var x := DecodeBody(src, p + 3, kind, out, cap);
    KindBound(src, p + 3, kind, out, cap);
    q := x.next;
    HeaderBitsRead(s, p, last, kind);
    b := BodyParse(src, p, last, kind, out, cap);
  }

  lemma KindBound(src: seq<byte>, p: nat, kind: nat, out: seq<byte>, cap: nat)
    requires |out| <= cap && DecodeBody(src, p, kind, out, cap).StepDone?
    ensures kind < 3
  {
  }

  lemma {:induction false} StreamParse(src: seq<byte>, p: nat, out: seq<byte>, cap: nat) returns (bs: seq<Block>, q: nat)
    requires |out| <= cap && Inflate(src, p, out, cap).Done?
    ensures StreamAt(src, p, bs, q) && EmitsAll(out, bs, cap)
            && Inflate(src, p, out, cap) == Done(EmitStream(out, bs, cap))
    decreases 8 * |src| - p
  {
    hide BlockAt, Inflate, EmitBlock;
    var last, b, m := StepParse(src, p, out, cap);
    if last {
      bs, q := [b], m;
      assert bs[1..] == [];
    } else {
      var rest, end := StreamParse(src, m, EmitBlock(out, b, cap), cap);
      bs, q := [b] + rest, end;
      assert bs[1..] == rest;
      StreamCons(src, p, b, m, rest, q);
    }
  }

  lemma StreamCons(src: seq<byte>, p: nat, b: Block, m: nat, rest: seq<Block>, q: nat)
    requires BlockAt(src, p, false, b, m) && StreamAt(src, m, rest, q)
    ensures StreamAt(src, p, [b] + rest, q)
  {
    hide BlockAt;
    assert ([b] + rest)[1..] == rest;
  }

  /** The bytes from bit p on are a stream that emits r. */
  ghost predicate EmitsStream(src: seq<byte>, p: nat, bs: seq<Block>, q: nat, out: seq<byte>, cap: nat, r: seq<byte>)
  {
    StreamAt(src, p, bs, q) && EmitsAll(out, bs, cap) && EmitStream(out, bs, cap) == r
  }

  /** inflate_raw succeeds on exactly the sequences of stored, fixed and dynamic blocks of which the
      final one is flagged, and its output is exactly what these blocks emit, for every byte string,
      every output so far and every output size. */
  lemma StreamIff(src: seq<byte>, p: nat, out: seq<byte>, cap: nat, r: seq<byte>)
    requires |out| <= cap
    ensures Inflate(src, p, out, cap) == Done(r) <==> exists bs, q :: EmitsStream(src, p, bs, q, out, cap, r)
  {
    hide StreamAt, Inflate, EmitStream, EmitsAll;
    if Inflate(src, p, out, cap) == Done(r) {
      var bs, q := StreamParse(src, p, out, cap);
      assert EmitsStream(src, p, bs, q, out, cap, r);
    }
    forall bs, q | EmitsStream(src, p, bs, q, out, cap, r) ensures Inflate(src, p, out, cap) == Done(r) {
      StreamEmits(src, p, bs, q, out, cap);
    }
  }

  // ------------------------------------------------------------ streams with room for their meaning

  lemma {:induction false} AllLegalValid(out: seq<byte>, ts: seq<Token>)
    requires AllLegal(out, ts)
    ensures forall i | 0 <= i < |ts| :: ts[i].Valid()
    decreases |ts|
  {
    if ts != [] {
      AllLegalValid(Expand(out, ts[0]), ts[1..]);
      assert forall i | 1 <= i < |ts| :: ts[i] == ts[1..][i - 1];
    }
  }

  lemma BlockEmits(out: seq<byte>, b: Block, cap: nat)
    requires LegalBlock(out, b) && |ExpandBlock(out, b)| <= cap
    ensures Emits(out, b, cap) && EmitBlock(out, b, cap) == ExpandBlock(out, b)
  {
    hide AllLegal, ExpandAll, EmitAll;
    if !b.Stored? {
      AllLegalValid(out, b.ts);
      EmitIsExpand(out, b.ts, cap);
    }
  }

  lemma {:induction false} LegalEmits(out: seq<byte>, bs: seq<Block>, cap: nat)
    requires LegalStream(out, bs) && |ExpandStream(out, bs)| <= cap
    ensures |out| <= cap && EmitsAll(out, bs, cap) && EmitStream(out, bs, cap) == ExpandStream(out, bs)
    decreases |bs|
  {
    hide LegalBlock, ExpandBlock, EmitBlock, Emits;
    if bs != [] {
      LegalEmits(ExpandBlock(out, bs[0]), bs[1..], cap);
      BlockEmits(out, bs[0], cap);
    }
  }

  /** Any well-formed stream of stored, fixed and dynamic blocks, with room for its
      expansion, decodes to exactly that expansion. */
  lemma StreamDecode(src: seq<byte>, p: nat, bs: seq<Block>, q: nat, out: seq<byte>, cap: nat)
    requires StreamAt(src, p, bs, q) && LegalStream(out, bs) && |ExpandStream(out, bs)| <= cap
    ensures |out| <= cap && Inflate(src, p, out, cap) == Done(ExpandStream(out, bs))
  {
    hide StreamAt, Inflate, LegalStream, ExpandStream, EmitStream, EmitsAll;
    LegalEmits(out, bs, cap);
    StreamEmits(src, p, bs, q, out, cap);
  }
}
