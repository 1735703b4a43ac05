/**
 The Huffman tables of allnet.c: huf_build counts and sorts the symbols,
 huf_decode walks the counts.  Both are proved against the canonical code of
 module Huffman, for any lengths from 0 to 15.
 */
module HuffmanTables {
  import opened Bits
  import opened Huffman
  import opened BitReader

  /** Where a used symbol sits in the symbol table. */
  function Slot(lens: seq<nat>, s: nat): nat
    requires s < |lens|
  {
    Shorter(lens, lens[s]) + Rank(lens, s)
  }

  lemma SlotBound(lens: seq<nat>, s: nat)
    requires Used(lens, s)
    ensures Slot(lens, s) < |lens|
  {
    hide Shorter, Count, Rank;
    RankBound(lens, s);
    ShorterMono(lens, lens[s], lens[s] + 1);
    ShorterBound(lens, lens[s] + 1);
  }

  lemma SlotDistinct(lens: seq<nat>, s: nat, t: nat)
    requires Used(lens, s) && Used(lens, t) && s < t
    ensures Slot(lens, s) != Slot(lens, t)
  {
    hide Shorter, Count, Rank;
    RankBound(lens, s);
    RankBound(lens, t);
    if lens[s] == lens[t] {
      RankStrict(lens, s, t);
    } else if lens[s] < lens[t] {
      ShorterMono(lens, lens[s], lens[t]);
    } else {
      ShorterMono(lens, lens[t], lens[s]);
    }
  }

  class Huf {
    const count: array<nat>
    const symbol: array<nat>

    constructor ()
      ensures fresh(this) && fresh(count) && fresh(symbol) && Shaped()
    {
      count := new nat[16];
      symbol := new nat[288];
    }

    predicate Shaped() {
      count.Length == 16 && symbol.Length == 288 && count != symbol
    }

    ghost predicate Counts(lens: seq<nat>)
      reads count
    {
      count.Length == 16 && count[0] == 0 && forall l | 1 <= l <= 15 :: count[l] == Count(lens, l)
    }

    ghost predicate Symbols(lens: seq<nat>, n: nat)
      reads symbol
    {
      && n <= |lens| <= 288 && symbol.Length == 288
      && forall s: nat | s < n && Used(lens, s) :: Slot(lens, s) < 288 && symbol[Slot(lens, s)] == s
    }

    /** The tables are those of the canonical code with these lengths. */
    ghost predicate Represents(lens: seq<nat>)
      reads count, symbol
    {
      ValidLens(lens) && Shaped() && Counts(lens) && Symbols(lens, |lens|)
    }
  }

  method CountLens(count: array<nat>, lens: seq<nat>)
    requires count.Length == 16 && ValidLens(lens)
    modifies count
    ensures count[0] == 0 && forall l | 1 <= l <= 15 :: count[l] == Count(lens, l)
  {
    for i := 0 to 16
      invariant forall l | 0 <= l < i :: count[l] == 0
    {
      count[i] := 0;
    }
    assert lens[..0] == [];
    for i := 0 to |lens|
      invariant forall l | 0 <= l < 16 :: count[l] == Count(lens[..i], l)
    {
      forall l | 0 <= l < 16 ensures Count(lens[..i + 1], l) == Count(lens[..i], l) + if lens[i] == l then 1 else 0 {
        CountStep(lens, i, l);
      }
      count[lens[i]] := count[lens[i]] + 1;
    }
    assert lens[..|lens|] == lens;
    count[0] := 0;
  }

  lemma ShorterOne(lens: seq<nat>)
    ensures Shorter(lens, 1) == 0
  {
  }

  lemma ShorterNext(lens: seq<nat>, i: nat)
    requires i >= 1
    ensures Shorter(lens, i + 1) == Shorter(lens, i) + Count(lens, i)
  {
  }

  method Offsets(count: array<nat>, ghost lens: seq<nat>) returns (offs: array<nat>)
    requires count.Length == 16 && forall l | 1 <= l <= 15 :: count[l] == Count(lens, l)
    ensures fresh(offs) && offs.Length == 16
    ensures forall l | 1 <= l <= 15 :: offs[l] == Shorter(lens, l)
  {
    hide Count, Shorter;
    offs := new nat[16];
    ShorterOne(lens);
    offs[1] := 0;
    for i := 1 to 15
      invariant forall l | 1 <= l <= i :: offs[l] == Shorter(lens, l)
    {
      ShorterNext(lens, i);
      offs[i + 1] := offs[i] + count[i];
    }
  }

  /** huf_build: the tables of the canonical code, for any lengths up to 15. */
  method HufBuild(h: Huf, lens: seq<nat>)
    requires h.Shaped() && ValidLens(lens) && |lens| <= 288
    modifies h.count, h.symbol
    ensures h.Represents(lens)
  {
    CountLens(h.count, lens);
    var offs := Offsets(h.count, lens);
    Place(h, lens, offs);
  }

  method Place(h: Huf, lens: seq<nat>, offs: array<nat>)
    requires h.Shaped() && ValidLens(lens) && |lens| <= 288
    requires offs.Length == 16 && offs != h.count && offs != h.symbol
    requires forall l | 1 <= l <= 15 :: offs[l] == Shorter(lens, l)
    modifies h.symbol, offs
    ensures h.Symbols(lens, |lens|)
  {
    hide Shorter, Count;
    EmptyCount(lens);
    for i := 0 to |lens|
      invariant forall l | 1 <= l <= 15 :: offs[l] == Shorter(lens, l) + Count(lens[..i], l)
      invariant h.Symbols(lens, i)
    {
      forall l | 1 <= l <= 15 ensures Count(lens[..i + 1], l) == Count(lens[..i], l) + if lens[i] == l then 1 else 0 {
        CountStep(lens, i, l);
      }
      if lens[i] != 0 {
        SlotBound(lens, i);
        forall s: nat | s < i && Used(lens, s) ensures Slot(lens, s) != Slot(lens, i) { SlotDistinct(lens, s, i); }
        assert offs[lens[i]] == Slot(lens, i);
        h.symbol[offs[lens[i]]] := i;
        offs[lens[i]] := offs[lens[i]] + 1;
      }
    }
  }

  lemma EmptyCount(lens: seq<nat>)
    ensures forall l :: Count(lens[..0], l) == 0
  {
  }

  /** The table entry at the offset of the stream value within its length is the matching symbol. */
  lemma TableHit(h: Huf, lens: seq<nat>, s: seq<bit>, p: nat, l: nat) returns (t: nat)
    requires h.Represents(lens) && 1 <= l <= 15 && p + l <= |s|
    requires First(lens, l) <= MsbVal(s[p..p + l]) < First(lens, l) + Count(lens, l)
    ensures Matches(s, p, lens, t) && lens[t] == l
    ensures var i := Shorter(lens, l) + (MsbVal(s[p..p + l]) - First(lens, l)); i < 288 && h.symbol[i] == t
  {
    hide Shorter, Count, First, MsbVal, Rank;
    var v := MsbVal(s[p..p + l]);
    t := Select(lens, l, v - First(lens, l));
    assert Used(lens, t);
  }

  /** A stream value at or past the end of length l matches no code word of that length. */
  lemma TableMiss(lens: seq<nat>, s: seq<bit>, p: nat, l: nat, t: nat)
    requires p + l <= |s| && MsbVal(s[p..p + l]) >= First(lens, l) + Count(lens, l)
    requires t < |lens| && lens[t] == l
    ensures !Matches(s, p, lens, t)
  {
    hide Shorter, Count, First, MsbVal, Rank;
    RankBound(lens, t);
  }

  /** No code word shorter than l matches. */
  ghost predicate NoneBelow(s: seq<bit>, p: nat, lens: seq<nat>, l: nat)
  {
    forall t: nat | t < |lens| && lens[t] < l :: !Matches(s, p, lens, t)
  }

  lemma NoneZero(s: seq<bit>, p: nat, lens: seq<nat>)
    ensures NoneBelow(s, p, lens, 1)
  {
  }

  lemma NoneStep(s: seq<bit>, p: nat, lens: seq<nat>, l: nat)
    requires p + l <= |s| && NoneBelow(s, p, lens, l)
    requires MsbVal(s[p..p + l]) >= First(lens, l) + Count(lens, l)
    ensures NoneBelow(s, p, lens, l + 1)
  {
    hide Matches;
    forall t: nat | t < |lens| && lens[t] < l + 1 ensures !Matches(s, p, lens, t) {
      if lens[t] == l { TableMiss(lens, s, p, l, t); }
    }
  }

  /** No code word matches once the stream ends or all lengths are exhausted. */
  lemma NoneAtAll(s: seq<bit>, p: nat, lens: seq<nat>, l: nat)
    requires ValidLens(lens) && NoneBelow(s, p, lens, l) && (p + l > |s| || l > 15)
    ensures DecodeSym(s, p, lens).NoSymbol?
  {
    forall t: nat ensures !Matches(s, p, lens, t) {
      if t < |lens| && lens[t] < l {
        assert !Matches(s, p, lens, t);
      }
    }
  }

  lemma MsbSnoc(s: seq<bit>, p: nat, l: nat)
    requires p + l < |s|
    ensures MsbVal(s[p..p + l + 1]) == 2 * MsbVal(s[p..p + l]) + s[p + l]
  {
    var w := s[p..p + l + 1];
    assert w[..|w| - 1] == s[p..p + l];
  }

  /** huf_decode returns the symbol whose canonical code word is next in the stream, having
      consumed exactly that code word, and -1 exactly if there is none.  The reads of both
      tables stay in range for any lengths, over-subscribed or incomplete ones included. */
  method HufDecode(b: BitS, h: Huf, ghost lens: seq<nat>) returns (r: int)
    requires b.Valid() && h.Represents(lens)
    modifies b
    ensures b.Valid() && b.At() >= old(b.At())
    ensures r < 0 ==> r == -1 && DecodeSym(BitsOf(b.src), old(b.At()), lens).NoSymbol?
    ensures r >= 0 ==> DecodeSym(BitsOf(b.src), old(b.At()), lens) == Symbol(r, b.At())
  {
    hide Matches, Rank, MsbVal, BitAt, NoneBelow, DecodeSym, BitS.Valid, BitS.At;
    ghost var s, p := BitsOf(b.src), b.At();
    var code, first, idx := 0, 0, 0;
    NoValue(s, p);
    NoneZero(s, p, lens);
    for len := 1 to 16
      invariant b.Valid() && b.At() == p + len - 1 <= |s|
      invariant h.Represents(lens)
      invariant code == 2 * MsbVal(s[p..p + len - 1])
      invariant first == First(lens, len) && idx == Shorter(lens, len) && code >= first
      invariant NoneBelow(s, p, lens, len)
    {
      var bit := b.Gb1();
      if bit < 0 {
        NoneAtAll(s, p, lens, len);
        return -1;
      }
      MsbSnoc(s, p, len - 1);
      code := code + bit;
      var cnt := h.count[len];
      if code - first < cnt {
        ghost var t := TableHit(h, lens, s, p, len);
        DecodeIs(s, p, lens, t);
        return h.symbol[idx + (code - first)];
      }
      NoneStep(s, p, lens, len);
      idx := idx + cnt;
      first := 2 * (first + cnt);
      code := 2 * code;
    }
    NoneAtAll(s, p, lens, 16);
    return -1;
  }
}
