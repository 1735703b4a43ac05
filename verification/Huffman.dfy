/**
 Canonical Huffman codes, section 3.2.2 of RFC 1951: a code is given by the
 lengths of its code words alone.  Nothing here mentions the decoding tables;
 module HuffmanTables shows that the tables decode these codes.
 */
module Huffman {
  import opened Bits

  const MAXBITS: nat := 15

  /** Code word lengths by symbol; 0 marks an unused symbol. */
  ghost predicate ValidLens(lens: seq<nat>)
  {
    forall i | 0 <= i < |lens| :: lens[i] <= MAXBITS
  }

  /** How many symbols have code words of length l. */
  function Count(lens: seq<nat>, l: nat): (c: nat)
    ensures c <= |lens|
  {
    if lens == [] then 0
    else Count(lens[..|lens| - 1], l) + if lens[|lens| - 1] == l then 1 else 0
  }

  /** The first code word of length l, as an integer. */
  function First(lens: seq<nat>, l: nat): (c: nat)
  {
    if l <= 1 then 0 else 2 * (First(lens, l - 1) + Count(lens, l - 1))
  }

  /** How many symbols have code words shorter than l. */
  function Shorter(lens: seq<nat>, l: nat): (c: nat)
  {
    if l <= 1 then 0 else Shorter(lens, l - 1) + Count(lens, l - 1)
  }

  /** How many symbols before s have code words as long as that of s. */
  function Rank(lens: seq<nat>, s: nat): (c: nat)
    requires s < |lens|
  {
    Count(lens[..s], lens[s])
  }

  /** The canonical code word of s, as an integer. */
  function Code(lens: seq<nat>, s: nat): (c: nat)
    requires s < |lens|
  {
    First(lens, lens[s]) + Rank(lens, s)
  }

  predicate Used(lens: seq<nat>, s: nat)
  {
    s < |lens| && lens[s] > 0
  }

  /** Symbol t has a code word that can be written: with lengths that take more than the code
      space, some canonical code words do not fit in their length. */
  predicate Coded(lens: seq<nat>, t: nat)
  {
    Used(lens, t) && Code(lens, t) < Pow2(lens[t])
  }

  /** The code word of symbol t stands at position p of the bit stream. */
  ghost predicate Matches(s: seq<bit>, p: nat, lens: seq<nat>, t: nat)
  {
    && Used(lens, t)
    && p + lens[t] <= |s|
    && MsbVal(s[p..p + lens[t]]) == Code(lens, t)
  }

  datatype Decoded = NoSymbol | Symbol(sym: nat, next: nat)

  /** What decoding at position p means: the symbol whose code word is there. */
  ghost function DecodeSym(s: seq<bit>, p: nat, lens: seq<nat>): (d: Decoded)
    ensures d.NoSymbol? <==> forall t :: !Matches(s, p, lens, t)
    ensures d.Symbol? ==> Used(lens, d.sym) && Matches(s, p, lens, d.sym)
    ensures d.Symbol? ==> d.next == p + lens[d.sym] && p < d.next <= |s|
  {
    if t: nat :| Matches(s, p, lens, t) then Symbol(t, p + lens[t]) else NoSymbol
  }

  // ------------------------------------------------------------ counting

  lemma {:induction false} CountConcat(a: seq<nat>, b: seq<nat>, l: nat)
    ensures Count(a + b, l) == Count(a, l) + Count(b, l)
  {
    if b == [] {
      assert a + b == a;
    } else {
      assert (a + b)[..|a + b| - 1] == a + b[..|b| - 1];
      CountConcat(a, b[..|b| - 1], l);
    }
  }

  lemma CountSplit(lens: seq<nat>, k: nat, l: nat)
    requires k <= |lens|
    ensures Count(lens, l) == Count(lens[..k], l) + Count(lens[k..], l)
  {
    assert lens == lens[..k] + lens[k..];
    CountConcat(lens[..k], lens[k..], l);
  }

  lemma CountStep(lens: seq<nat>, k: nat, l: nat)
    requires k < |lens|
    ensures Count(lens[..k + 1], l) == Count(lens[..k], l) + if lens[k] == l then 1 else 0
  {
    assert lens[..k + 1][..k] == lens[..k];
  }

  lemma CountPrefix(lens: seq<nat>, j: nat, k: nat, l: nat)
    requires j <= k <= |lens|
    ensures Count(lens[..j], l) <= Count(lens[..k], l)
  {
    CountSplit(lens[..k], j, l);
    assert lens[..k][..j] == lens[..j];
  }

  /** Symbols of one length have distinct ranks, below the count of that length. */
  lemma RankBound(lens: seq<nat>, s: nat)
    requires s < |lens|
    ensures Rank(lens, s) < Count(lens, lens[s])
  {
    CountStep(lens, s, lens[s]);
    CountPrefix(lens, s + 1, |lens|, lens[s]);
    assert lens[..|lens|] == lens;
  }

  lemma RankStrict(lens: seq<nat>, s: nat, t: nat)
    requires s < t < |lens| && lens[s] == lens[t]
    ensures Rank(lens, s) < Rank(lens, t)
  {
    CountStep(lens, s, lens[s]);
    CountPrefix(lens, s + 1, t, lens[s]);
  }

  /** Every rank below the count is taken. */
  lemma {:induction false} Select(lens: seq<nat>, l: nat, r: nat) returns (s: nat)
    requires r < Count(lens, l)
    ensures s < |lens| && lens[s] == l && Rank(lens, s) == r
  {
    var n := |lens| - 1;
    if lens[n] == l && r == Count(lens[..n], l) {
      s := n;
    } else {
      s := Select(lens[..n], l, r);
      assert lens[..n][..s] == lens[..s];
    }
  }

  /** The used symbols of length below l fit in the alphabet. */
  lemma {:induction false} ShorterBound(lens: seq<nat>, l: nat)
    ensures Shorter(lens, l) <= |lens|
  {
    if lens == [] {
      ShorterEmpty(l);
    } else {
      ShorterBound(lens[..|lens| - 1], l);
      ShorterSnoc(lens, l);
    }
  }

  lemma {:induction false} ShorterEmpty(l: nat)
    ensures Shorter([], l) == 0
  {
    if l > 1 { ShorterEmpty(l - 1); }
  }

  lemma {:induction false} ShorterSnoc(lens: seq<nat>, l: nat)
    requires lens != []
    ensures Shorter(lens, l) == Shorter(lens[..|lens| - 1], l) + if 1 <= lens[|lens| - 1] < l then 1 else 0
  {
    if l > 1 { ShorterSnoc(lens, l - 1); }
  }

  lemma {:induction false} ShorterMono(lens: seq<nat>, k: nat, l: nat)
    requires 1 <= k < l
    ensures Shorter(lens, k) + Count(lens, k) <= Shorter(lens, l)
  {
    if k + 1 < l { ShorterMono(lens, k, l - 1); }
  }

  // ------------------------------------------------------------ prefix freeness

  /** The stream value of the first k bits is below every code word of length k
      once a shorter prefix has matched a code word. */
  lemma {:induction false} Below(s: seq<bit>, p: nat, lens: seq<nat>, j: nat, k: nat)
    requires 1 <= j < k && p + k <= |s|
    requires MsbVal(s[p..p + j]) < First(lens, j) + Count(lens, j)
    ensures MsbVal(s[p..p + k]) < First(lens, k)
  {
    assert s[p..p + k][..k - 1] == s[p..p + k - 1];
    if k > j + 1 { Below(s, p, lens, j, k - 1); }
  }

  /** At most one code word stands at any position, whatever the lengths. */
  lemma MatchUnique(s: seq<bit>, p: nat, lens: seq<nat>, t: nat, u: nat)
    requires Matches(s, p, lens, t) && Matches(s, p, lens, u)
    ensures t == u
  {
    RankBound(lens, t);
    RankBound(lens, u);
    if lens[t] < lens[u] {
      Below(s, p, lens, lens[t], lens[u]);
      assert false;
    } else if lens[u] < lens[t] {
      Below(s, p, lens, lens[u], lens[t]);
      assert false;
    } else if t < u {
      RankStrict(lens, t, u);
      assert false;
    } else if u < t {
      RankStrict(lens, u, t);
      assert false;
    }
  }

  lemma DecodeIs(s: seq<bit>, p: nat, lens: seq<nat>, t: nat)
    requires Matches(s, p, lens, t)
    ensures DecodeSym(s, p, lens) == Symbol(t, p + lens[t])
  {
    MatchUnique(s, p, lens, t, DecodeSym(s, p, lens).sym);
  }

  // ------------------------------------------------------------ Kraft's inequality

  /** The share of the code space, in units of 2^-15, taken by code words of length 1..l. */
  function KraftUpTo(lens: seq<nat>, l: nat): (k: nat)
    requires l <= MAXBITS
  {
    if lens == [] then 0
    else
      var x := lens[|lens| - 1];
      KraftUpTo(lens[..|lens| - 1], l) + if 1 <= x <= l then Pow2(MAXBITS - x) else 0
  }

  /** The lengths leave room for every code word (the code need not be complete). */
  ghost predicate Kraft(lens: seq<nat>)
  {
    ValidLens(lens) && KraftUpTo(lens, MAXBITS) <= Pow2(MAXBITS)
  }

  lemma Distribute1(a: int, b: int, h: int)
    requires b == 0 || b == 1
    ensures (a + b) * h == a * h + if b == 1 then h else 0
  {
  }

  lemma {:induction false} KraftStep(lens: seq<nat>, l: nat)
    requires 1 <= l <= MAXBITS
    ensures KraftUpTo(lens, l) == KraftUpTo(lens, l - 1) + Count(lens, l) * Pow2(MAXBITS - l)
  {
    if lens != [] {
      var n := |lens| - 1;
      KraftStep(lens[..n], l);
      Distribute1(Count(lens[..n], l), if lens[n] == l then 1 else 0, Pow2(MAXBITS - l));
    }
  }

  lemma {:induction false} KraftZero(lens: seq<nat>)
    ensures KraftUpTo(lens, 0) == 0
  {
    if lens != [] { KraftZero(lens[..|lens| - 1]); }
  }

  lemma {:induction false} KraftClosed(lens: seq<nat>, l: nat)
    requires 1 <= l <= MAXBITS
    ensures KraftUpTo(lens, l) == (First(lens, l) + Count(lens, l)) * Pow2(MAXBITS - l)
  {
    KraftStep(lens, l);
    if l == 1 {
      KraftZero(lens);
    } else {
      KraftClosed(lens, l - 1);
      assert Pow2(MAXBITS - (l - 1)) == 2 * Pow2(MAXBITS - l);
      Distribute(First(lens, l - 1) + Count(lens, l - 1), Count(lens, l), Pow2(MAXBITS - l));
    }
  }

  lemma Distribute(w: int, c: int, h: int)
    ensures w * (2 * h) + c * h == (2 * w + c) * h
  {
  }

  lemma {:induction false} KraftMono(lens: seq<nat>, l: nat)
    requires l <= MAXBITS
    ensures KraftUpTo(lens, l) <= KraftUpTo(lens, MAXBITS)
  {
    if lens != [] { KraftMono(lens[..|lens| - 1], l); }
  }

  /** Kraft's inequality makes every canonical code word fit in its length. */
  lemma CodeFits(lens: seq<nat>, s: nat)
    requires Kraft(lens) && Used(lens, s)
    ensures Coded(lens, s)
  {
    hide KraftUpTo, First, Count, Pow2, Rank;
    var l := lens[s];
    RankBound(lens, s);
    KraftClosed(lens, l);
    KraftMono(lens, l);
    PowAdd(l, MAXBITS - l);
    MulCancel(Pow2(MAXBITS - l), First(lens, l) + Count(lens, l), Pow2(l));
  }

  lemma MulCancel(h: nat, a: nat, b: nat)
    requires h > 0 && a * h <= b * h
    ensures a <= b
  {
    if b < a {
      MulStrict(h, b, a);
      assert false;
    }
  }

  lemma MulStrict(h: nat, a: nat, b: nat)
    requires h > 0 && a < b
    ensures a * h < b * h
  {
  }

  lemma MulMono(h: nat, a: nat, b: nat)
    requires a <= b
    ensures a * h <= b * h
  {
  }

  /** Every used symbol's code word fits in its length. */
  ghost predicate AllFit(lens: seq<nat>)
  {
    forall s: nat | Used(lens, s) :: Coded(lens, s)
  }

  lemma LongestFits(lens: seq<nat>, l: nat)
    requires 1 <= l <= MAXBITS && Count(lens, l) > 0 && AllFit(lens)
    ensures KraftUpTo(lens, l) <= Pow2(MAXBITS)
  {
    hide KraftUpTo, First, Count, Pow2, Rank;
    var s := Select(lens, l, Count(lens, l) - 1);
    assert Used(lens, s) && Coded(lens, s);
    KraftClosed(lens, l);
    PowAdd(l, MAXBITS - l);
    MulMono(Pow2(MAXBITS - l), First(lens, l) + Count(lens, l), Pow2(l));
  }

  /** Conversely, code words that all fit obey Kraft's inequality. */
  lemma {:induction false} FitsKraft(lens: seq<nat>, l: nat)
    requires l <= MAXBITS && ValidLens(lens) && AllFit(lens)
    requires KraftUpTo(lens, l) == KraftUpTo(lens, MAXBITS)
    ensures Kraft(lens)
  {
    if l == 0 {
      KraftZero(lens);
    } else if Count(lens, l) == 0 {
      KraftStep(lens, l);
      FitsKraft(lens, l - 1);
    } else {
      LongestFits(lens, l);
    }
  }

  /** Kraft's inequality holds exactly when every canonical code word fits in its length. */
  lemma KraftIff(lens: seq<nat>)
    requires ValidLens(lens)
    ensures Kraft(lens) <==> AllFit(lens)
  {
    if Kraft(lens) {
      forall s: nat | Used(lens, s) ensures Coded(lens, s) { CodeFits(lens, s); }
    }
    if AllFit(lens) {
      FitsKraft(lens, MAXBITS);
    }
  }

  // ------------------------------------------------------------ encoding

  /** The code word of s as it appears in the stream. */
  function EncodeSym(lens: seq<nat>, s: nat): (w: seq<bit>)
    requires s < |lens|
    ensures |w| == lens[s]
  {
    Msb(Code(lens, s), lens[s])
  }

  lemma DecodeCoded(s: seq<bit>, p: nat, lens: seq<nat>, t: nat)
    requires Coded(lens, t) && At(s, p, EncodeSym(lens, t))
    ensures DecodeSym(s, p, lens) == Symbol(t, p + lens[t])
  {
    hide Code, Msb, MsbVal;
    MsbRoundTrip(Code(lens, t), lens[t]);
    DecodeIs(s, p, lens, t);
  }

  /** For lengths obeying Kraft's inequality, decoding the code word of a symbol,
      whatever follows it, gives the symbol back and takes exactly its length. */
  lemma DecodeEncode(s: seq<bit>, p: nat, lens: seq<nat>, t: nat)
    requires Kraft(lens) && Used(lens, t)
    requires At(s, p, EncodeSym(lens, t))
    ensures DecodeSym(s, p, lens) == Symbol(t, p + lens[t])
  {
    CodeFits(lens, t);
    DecodeCoded(s, p, lens, t);
  }

  lemma MatchEncode(s: seq<bit>, p: nat, lens: seq<nat>, t: nat)
    requires Matches(s, p, lens, t)
    ensures Coded(lens, t) && At(s, p, EncodeSym(lens, t))
  {
    hide Code, MsbVal, Msb;
    var w := s[p..p + lens[t]];
    assert |w| == lens[t];
    MsbOfVal(w);
    MsbValBound(w);
  }

  /** Conversely, whatever decodes to a symbol starts with exactly its code word. */
  lemma EncodeDecode(s: seq<bit>, p: nat, lens: seq<nat>)
    requires DecodeSym(s, p, lens).Symbol?
    ensures Coded(lens, DecodeSym(s, p, lens).sym)
    ensures At(s, p, EncodeSym(lens, DecodeSym(s, p, lens).sym))
  {
    MatchEncode(s, p, lens, DecodeSym(s, p, lens).sym);
  }

  /** The canonical code is prefix free. */
  lemma PrefixFree(lens: seq<nat>, t: nat, u: nat)
    requires Kraft(lens) && Used(lens, t) && Used(lens, u) && t != u
    ensures !(EncodeSym(lens, t) <= EncodeSym(lens, u))
  {
    var w := EncodeSym(lens, u);
    if EncodeSym(lens, t) <= w {
      assert w[0..|w|] == w;
      DecodeEncode(w, 0, lens, t);
      DecodeEncode(w, 0, lens, u);
      assert false;
    }
  }
}
