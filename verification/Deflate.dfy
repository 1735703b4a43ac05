/**
 The DEFLATE format, section 3.2 of RFC 1951, in two forms: what an encoder may
 write (tokens, blocks, run-length coded code lengths) and what the decoder of
 allnet.c makes of an arbitrary bit stream.  The theorems connect the two.
 */
module Deflate {
  import opened Bits
  import opened Huffman

  // ------------------------------------------------------------ section 3.2.5 tables
  // Module DeflateTables shows that the literal tables of the decoder are these functions.

  /** Extra bits and least length of length symbol 257 + i. */
  function LExt(i: nat): (n: nat)
    requires i < 29
    ensures n <= 5
  {
    if i < 8 || i == 28 then 0 else i / 4 - 1
  }

  function LBase(i: nat): (v: nat)
    requires i < 29
    ensures v >= 3
  {
    if i == 0 then 3 else if i == 28 then 258 else LBase(i - 1) + Pow2(LExt(i - 1))
  }

  /** Extra bits and least distance of distance symbol i. */
  function DExt(i: nat): (n: nat)
    requires i < 30
    ensures n <= 13
  {
    if i < 4 then 0 else i / 2 - 1
  }

  function DBase(i: nat): (v: nat)
    requires i < 30
    ensures v >= 1
  {
    if i == 0 then 1 else DBase(i - 1) + Pow2(DExt(i - 1))
  }

  const EOB: nat := 256

  // ------------------------------------------------------------ tokens

  /** A literal byte, or a match given by its length and distance symbols and extra bits. */
  datatype Token = Lit(b: byte) | Match(ls: nat, lx: nat, ds: nat, dx: nat) {

    predicate Valid() {
      Match? ==> ls < 29 && lx < Pow2(LExt(ls)) && ds < 30 && dx < Pow2(DExt(ds))
    }

    function Len(): nat
      requires Valid() && Match?
    {
      LBase(ls) + lx
    }

    function Dist(): (d: nat)
      requires Valid() && Match?
      ensures d >= 1
    {
      DBase(ds) + dx
    }

    /** The code lengths assign code words to the symbols the token uses. */
    predicate Uses(ll: seq<nat>, dl: seq<nat>)
    {
      Valid() && match this
                 case Lit(b) => Used(ll, b)
                 case Match(ls, _, ds, _) => Used(ll, 257 + ls) && Used(dl, ds)
    }

    /** ... and these code words fit in their lengths. */
    predicate Encodable(ll: seq<nat>, dl: seq<nat>)
    {
      Valid() && match this
                 case Lit(b) => Coded(ll, b)
                 case Match(ls, _, ds, _) => Coded(ll, 257 + ls) && Coded(dl, ds)
    }

    function Encode(ll: seq<nat>, dl: seq<nat>): seq<bit>
      requires Encodable(ll, dl)
    {
      match this
      case Lit(b) => EncodeSym(ll, b)
      case Match(ls, _, _, _) => EncodeSym(ll, 257 + ls) + EncodeTail(dl)
    }

    /** What follows the length symbol of a match. */
    function EncodeTail(dl: seq<nat>): seq<bit>
      requires Valid() && Match? && Used(dl, ds)
    {
      Lsb(lx, LExt(ls)) + (EncodeSym(dl, ds) + Lsb(dx, DExt(ds)))
    }
  }

  ghost predicate AllEncodable(ts: seq<Token>, ll: seq<nat>, dl: seq<nat>)
  {
    forall i | 0 <= i < |ts| :: ts[i].Encodable(ll, dl)
  }

  /** The tokens, then end-of-block. */
  ghost function EncodeTokens(ts: seq<Token>, ll: seq<nat>, dl: seq<nat>): seq<bit>
    requires AllEncodable(ts, ll, dl) && Coded(ll, EOB)
  {
    if ts == [] then EncodeSym(ll, EOB)
    else ts[0].Encode(ll, dl) + EncodeTokens(ts[1..], ll, dl)
  }

  // ------------------------------------------------------------ meaning of tokens

  /** LZ77: a match repeats the last dist bytes periodically for len bytes. */
  function Periodic(out: seq<byte>, len: nat, dist: nat): (c: seq<byte>)
    requires 1 <= dist <= |out|
    ensures |c| == len
  {
    seq(len, i requires 0 <= i < len => out[|out| - dist + i % dist])
  }

  predicate Legal(out: seq<byte>, t: Token)
  {
    t.Valid() && (t.Match? ==> t.Dist() <= |out|)
  }

  function Expand(out: seq<byte>, t: Token): seq<byte>
    requires Legal(out, t)
  {
    match t
    case Lit(b) => out + [b]
    case Match(_, _, _, _) => out + Periodic(out, t.Len(), t.Dist())
  }

  predicate AllLegal(out: seq<byte>, ts: seq<Token>)
    decreases |ts|
  {
    ts == [] || (Legal(out, ts[0]) && AllLegal(Expand(out, ts[0]), ts[1..]))
  }

  function ExpandAll(out: seq<byte>, ts: seq<Token>): (r: seq<byte>)
    requires AllLegal(out, ts)
    ensures |r| >= |out|
    decreases |ts|
  {
    if ts == [] then out else ExpandAll(Expand(out, ts[0]), ts[1..])
  }

  // ------------------------------------------------------------ the decoder on any stream

  datatype Bounded = NoBits | Field(val: nat, next: nat)

  function ReadBits(s: seq<bit>, p: nat, n: nat): (f: Bounded)
    ensures f.Field? <==> p + n <= |s|
    ensures f.Field? ==> f.next == p + n && f.val < Pow2(n)
  {
    if p + n <= |s| then LsbValBound(s[p..p + n]); Field(LsbVal(s[p..p + n]), p + n) else NoBits
  }

  /** A literal goes to the output only while there is room. */
  function Put(out: seq<byte>, b: byte, cap: nat): (r: seq<byte>)
    requires |out| <= cap
    ensures |r| <= cap
  {
    if |out| < cap then out + [b] else out
  }

  /** A match that reaches back before the output, or past the room left, is cut short. */
  function Copy(out: seq<byte>, len: nat, dist: nat, cap: nat): (r: seq<byte>)
    requires |out| <= cap && dist >= 1
    ensures |r| <= cap
  {
    if dist > |out| then out else out + Periodic(out, Min(len, cap - |out|), dist)
  }

  function Emit(out: seq<byte>, t: Token, cap: nat): (r: seq<byte>)
    requires |out| <= cap && t.Valid()
    ensures |r| <= cap
  {
    match t
    case Lit(b) => Put(out, b, cap)
    case Match(_, _, _, _) => Copy(out, t.Len(), t.Dist(), cap)
  }

  function EmitAll(out: seq<byte>, ts: seq<Token>, cap: nat): (r: seq<byte>)
    requires |out| <= cap && forall i | 0 <= i < |ts| :: ts[i].Valid()
    ensures |r| <= cap
    decreases |ts|
  {
    if ts == [] then out else EmitAll(Emit(out, ts[0], cap), ts[1..], cap)
  }

  datatype BlockResult = BlockFail | BlockDone(next: nat, out: seq<byte>)

  /** Reading one token at p: the token and where it ends, end-of-block, or failure. */
  datatype Lexed = LexFail | LexEnd(next: nat) | LexToken(t: Token, next: nat)

  ghost function LexMatch(s: seq<bit>, q: nat, ls: nat, dl: seq<nat>): (x: Lexed)
    requires ls < 29
    ensures !x.LexEnd?
    ensures x.LexToken? ==> x.t.Match? && x.t.Valid() && q < x.next <= |s|
  {
    match ReadBits(s, q, LExt(ls))
    case NoBits => LexFail
    case Field(lx, q1) =>
      match DecodeSym(s, q1, dl)
      case NoSymbol => LexFail
      case Symbol(ds, q2) =>
        if ds >= 30 then LexFail
        else
          match ReadBits(s, q2, DExt(ds))
          case NoBits => LexFail
          case Field(dx, q3) => LexToken(Match(ls, lx, ds, dx), q3)
  }

  ghost function Lex(s: seq<bit>, p: nat, ll: seq<nat>, dl: seq<nat>): (x: Lexed)
    ensures x.LexToken? ==> x.t.Valid() && p < x.next <= |s|
    ensures x.LexEnd? ==> p < x.next <= |s|
  {
    match DecodeSym(s, p, ll)
    case NoSymbol => LexFail
    case Symbol(sym, q) =>
      if sym == EOB then LexEnd(q)
      else if sym < EOB then LexToken(Lit(sym), q)
      else if sym - 257 >= 29 then LexFail
      else LexMatch(s, q, sym - 257, dl)
  }

  ghost function DecodeBlock(s: seq<bit>, p: nat, ll: seq<nat>, dl: seq<nat>, out: seq<byte>, cap: nat): (r: BlockResult)
    requires |out| <= cap
    ensures r.BlockDone? ==> p < r.next <= |s| && |r.out| <= cap
    decreases |s| - p
  {
    match Lex(s, p, ll, dl)
    case LexFail => BlockFail
    case LexEnd(q) => BlockDone(q, out)
    case LexToken(t, q) => DecodeBlock(s, q, ll, dl, Emit(out, t, cap), cap)
  }

  // ------------------------------------------------------------ tokens: decoder meets encoder

  lemma LsbRead(s: seq<bit>, p: nat, v: nat, n: nat)
    requires v < Pow2(n) && At(s, p, Lsb(v, n))
    ensures ReadBits(s, p, n) == Field(v, p + n)
  {
    LsbRoundTrip(v, n);
  }

  lemma LsbWrite(s: seq<bit>, p: nat, n: nat)
    requires ReadBits(s, p, n).Field?
    ensures At(s, p, Lsb(ReadBits(s, p, n).val, n))
  {
    LsbOfVal(s[p..p + n]);
  }

  lemma LexMatchEncode(s: seq<bit>, q: nat, dl: seq<nat>, t: Token)
    requires t.Valid() && t.Match? && Coded(dl, t.ds)
    requires At(s, q, t.EncodeTail(dl))
    ensures LexMatch(s, q, t.ls, dl) == LexToken(t, q + |t.EncodeTail(dl)|)
  {
    hide DecodeSym, Matches, EncodeSym, Pow2, Lsb, LsbVal, LBase, DBase, LExt, DExt, Code;
    var w3 := Lsb(t.dx, DExt(t.ds));
    var q1 := q + LExt(t.ls);
    AtSplit(s, q, Lsb(t.lx, LExt(t.ls)), EncodeSym(dl, t.ds) + w3);
    LsbRead(s, q, t.lx, LExt(t.ls));
    AtSplit(s, q1, EncodeSym(dl, t.ds), w3);
    DecodeCoded(s, q1, dl, t.ds);
    LsbRead(s, q1 + dl[t.ds], t.dx, DExt(t.ds));
  }

  lemma MatchEncodeLex(s: seq<bit>, q: nat, ls: nat, dl: seq<nat>)
    requires ls < 29 && LexMatch(s, q, ls, dl).LexToken?
    ensures var x := LexMatch(s, q, ls, dl);
            x.t.ls == ls && Coded(dl, x.t.ds) && At(s, q, x.t.EncodeTail(dl)) && x.next == q + |x.t.EncodeTail(dl)|
  {
    hide DecodeSym, Matches, EncodeSym, Pow2, Lsb, LsbVal, LBase, DBase, LExt, DExt, Code;
    var t := LexMatch(s, q, ls, dl).t;
    var q1 := q + LExt(ls);
    var q2 := DecodeSym(s, q1, dl).next;
    LsbWrite(s, q, LExt(ls));
    EncodeDecode(s, q1, dl);
    LsbWrite(s, q2, DExt(t.ds));
    var w3 := Lsb(t.dx, DExt(t.ds));
    AtSplit(s, q1, EncodeSym(dl, t.ds), w3);
    AtSplit(s, q, Lsb(t.lx, LExt(t.ls)), EncodeSym(dl, t.ds) + w3);
  }

  /** What the symbol read decides. */
  lemma LexBySym(s: seq<bit>, p: nat, ll: seq<nat>, dl: seq<nat>)
    ensures var d := DecodeSym(s, p, ll);
            Lex(s, p, ll, dl)
            == if d.NoSymbol? then LexFail
               else if d.sym == EOB then LexEnd(d.next)
               else if d.sym < EOB then LexToken(Lit(d.sym), d.next)
               else if d.sym >= 286 then LexFail
               else LexMatch(s, d.next, d.sym - 257, dl)
  {
    hide DecodeSym, LexMatch;
  }

  lemma LexEncode(s: seq<bit>, p: nat, ll: seq<nat>, dl: seq<nat>, t: Token)
    requires t.Encodable(ll, dl) && At(s, p, t.Encode(ll, dl))
    ensures Lex(s, p, ll, dl) == LexToken(t, p + |t.Encode(ll, dl)|)
  {
    hide DecodeSym, EncodeSym, Lex, LexMatch, Code, Used, Token.EncodeTail, Token.Valid, At;
    LexBySym(s, p, ll, dl);
    match t
    case Lit(b) => DecodeCoded(s, p, ll, b);
    case Match(ls, _, _, _) => LexEncodeMatch(s, p, ll, dl, t);
  }

  lemma LexEncodeMatch(s: seq<bit>, p: nat, ll: seq<nat>, dl: seq<nat>, t: Token)
    requires t.Match? && t.Encodable(ll, dl) && At(s, p, t.Encode(ll, dl))
    ensures Lex(s, p, ll, dl) == LexToken(t, p + |t.Encode(ll, dl)|)
  {
    hide DecodeSym, EncodeSym, Lex, LexMatch, Code, Token.EncodeTail, At;
    LexBySym(s, p, ll, dl);
    AtSplit(s, p, EncodeSym(ll, 257 + t.ls), t.EncodeTail(dl));
    DecodeCoded(s, p, ll, 257 + t.ls);
    LexMatchEncode(s, p + ll[257 + t.ls], dl, t);
  }

  lemma EncodeLex(s: seq<bit>, p: nat, ll: seq<nat>, dl: seq<nat>)
    requires Lex(s, p, ll, dl).LexToken?
    ensures var x := Lex(s, p, ll, dl);
            x.t.Encodable(ll, dl) && At(s, p, x.t.Encode(ll, dl)) && x.next == p + |x.t.Encode(ll, dl)|
  {
    hide DecodeSym, EncodeSym, Lex, LexMatch, Code, Token.EncodeTail, At;
    LexBySym(s, p, ll, dl);
    EncodeDecode(s, p, ll);
    var d := DecodeSym(s, p, ll);
    if d.sym > EOB {
      MatchEncodeLex(s, d.next, d.sym - 257, dl);
      AtSplit(s, p, EncodeSym(ll, d.sym), Lex(s, p, ll, dl).t.EncodeTail(dl));
    }
  }

  lemma LexEob(s: seq<bit>, p: nat, ll: seq<nat>, dl: seq<nat>)
    requires Coded(ll, EOB) && At(s, p, EncodeSym(ll, EOB))
    ensures Lex(s, p, ll, dl) == LexEnd(p + ll[EOB])
  {
    hide LexMatch, Code, EncodeSym, At, DecodeSym;
    DecodeCoded(s, p, ll, EOB);
  }

  lemma EobLex(s: seq<bit>, p: nat, ll: seq<nat>, dl: seq<nat>)
    requires Lex(s, p, ll, dl).LexEnd?
    ensures Coded(ll, EOB) && At(s, p, EncodeSym(ll, EOB)) && Lex(s, p, ll, dl).next == p + ll[EOB]
  {
    hide LexMatch, Code, EncodeSym, At;
    EncodeDecode(s, p, ll);
  }

  /** With lengths that obey Kraft's inequality every token whose symbols are used can be written. */
  lemma KraftEncodable(ts: seq<Token>, ll: seq<nat>, dl: seq<nat>)
    requires Kraft(ll) && Kraft(dl) && forall i | 0 <= i < |ts| :: ts[i].Uses(ll, dl)
    ensures AllEncodable(ts, ll, dl)
  {
    hide KraftUpTo, Code;
    KraftIff(ll);
    KraftIff(dl);
    forall i | 0 <= i < |ts| ensures ts[i].Encodable(ll, dl) {
      assert ts[i].Uses(ll, dl);
    }
  }

  /** Coded tokens are decoded to what they emit, up to the bit after end-of-block. */
  lemma {:induction false} BlockEncode(s: seq<bit>, p: nat, ll: seq<nat>, dl: seq<nat>, ts: seq<Token>,
                                       out: seq<byte>, cap: nat)
    requires AllEncodable(ts, ll, dl) && Coded(ll, EOB)
    requires At(s, p, EncodeTokens(ts, ll, dl)) && |out| <= cap
    ensures DecodeBlock(s, p, ll, dl, out, cap) == BlockDone(p + |EncodeTokens(ts, ll, dl)|, EmitAll(out, ts, cap))
    decreases |ts|
  {
    hide Lex, Emit, Token.Encode, Token.Encodable, Coded;
    if ts == [] {
      LexEob(s, p, ll, dl);
    } else {
      var w := ts[0].Encode(ll, dl);
      AtSplit(s, p, w, EncodeTokens(ts[1..], ll, dl));
      LexEncode(s, p, ll, dl, ts[0]);
      BlockEncode(s, p + |w|, ll, dl, ts[1..], Emit(out, ts[0], cap), cap);
    }
  }

  /** Conversely, whatever the decoder accepts is the code of the tokens it emitted. */
  lemma {:induction false} BlockParse(s: seq<bit>, p: nat, ll: seq<nat>, dl: seq<nat>, out: seq<byte>, cap: nat)
      returns (ts: seq<Token>)
    requires |out| <= cap && DecodeBlock(s, p, ll, dl, out, cap).BlockDone?
    ensures AllEncodable(ts, ll, dl) && Coded(ll, EOB) && At(s, p, EncodeTokens(ts, ll, dl))
    ensures DecodeBlock(s, p, ll, dl, out, cap) == BlockDone(p + |EncodeTokens(ts, ll, dl)|, EmitAll(out, ts, cap))
    decreases |s| - p
  {
    hide Lex, Emit, Token.Encode, Token.Encodable, Coded;
    var x := Lex(s, p, ll, dl);
    if x.LexEnd? {
      EobLex(s, p, ll, dl);
      ts := [];
    } else {
      EncodeLex(s, p, ll, dl);
      var rest := BlockParse(s, x.next, ll, dl, Emit(out, x.t, cap), cap);
      ts := [x.t] + rest;
      assert ts[1..] == rest;
      AtSplit(s, p, x.t.Encode(ll, dl), EncodeTokens(rest, ll, dl));
    }
  }

  /** With room for the expansion and legal distances, what is emitted is the LZ77 expansion. */
  lemma {:induction false} EmitIsExpand(out: seq<byte>, ts: seq<Token>, cap: nat)
    requires AllLegal(out, ts) && |ExpandAll(out, ts)| <= cap
    requires forall i | 0 <= i < |ts| :: ts[i].Valid()
    ensures |out| <= cap && EmitAll(out, ts, cap) == ExpandAll(out, ts)
    decreases |ts|
  {
    if ts != [] {
      EmitIsExpand(Expand(out, ts[0]), ts[1..], cap);
      assert Emit(out, ts[0], cap) == Expand(out, ts[0]);
    }
  }
}
