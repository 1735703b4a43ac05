/**
 inflate_block and inflate_raw of allnet.c, proved against the decoder function
 of module DeflateStream on every input for which the source has a meaning.
 A failed multi-bit read is not checked by the source; it leaves the stream used
 up, so the next symbol read fails and the result is -1 all the same.
 */
module Inflate {
  import opened Bits
  import opened Buffers
  import opened Huffman
  import opened Deflate
  import opened DeflateStream
  import opened DeflateTables
  import opened BitReader
  import opened HuffmanTables

  /** After i steps of the byte-by-byte copy the output has grown periodically. */
  lemma CopyGrow(out: seq<byte>, i: nat, dist: nat, cap: nat)
    requires |out| + i < cap && 1 <= dist <= |out|
    ensures Copy(out, i + 1, dist, cap) == Copy(out, i, dist, cap) + [Copy(out, i, dist, cap)[|out| + i - dist]]
  {
    var c := Copy(out, i, dist, cap);
    if i < dist {
      SmallMod(i, dist);
      assert c[|out| + i - dist] == out[|out| + i - dist];
    } else {
      ModBack(i, dist);
      assert c[|out| + i - dist] == Periodic(out, i, dist)[i - dist];
    }
    assert Periodic(out, i + 1, dist) == Periodic(out, i, dist) + [out[|out| - dist + i % dist]];
  }

  lemma SmallMod(i: nat, d: nat)
    requires i < d
    ensures i % d == i
  {
  }

  lemma ModBack(i: nat, d: nat)
    requires 1 <= d <= i
    ensures i % d == (i - d) % d
  {
    assert i == d * (i / d) + i % d;
    assert i - d == d * (i / d - 1) + i % d;
    DivUnique(i - d, d, i / d - 1, i % d);
  }

  /** Every byte a match adds is the byte its distance before. */
  lemma MatchRepeats(out: seq<byte>, t: Token, k: nat)
    requires t.Match? && Legal(out, t) && |out| <= k < |Expand(out, t)|
    ensures |Expand(out, t)| == |out| + t.Len() && t.Dist() <= k && Expand(out, t)[k] == Expand(out, t)[k - t.Dist()]
    ensures Expand(out, t)[..|out|] == out
  {
    hide Periodic, Token.Len, Token.Dist;
    PeriodicRepeats(out, t.Len(), t.Dist(), k);
  }

  lemma PeriodicRepeats(out: seq<byte>, n: nat, d: nat, k: nat)
    requires 1 <= d <= |out| <= k < |out| + n
    ensures var r := out + Periodic(out, n, d); |r| == |out| + n && r[k] == r[k - d]
  {
    var i := k - |out|;
    if i < d { SmallMod(i, d); } else { ModBack(i, d); }
  }

  lemma CopyStop(out: seq<byte>, i: nat, dist: nat, cap: nat)
    requires |out| <= cap && dist >= 1
    requires dist > |out| || |out| + i >= cap
    ensures Copy(out, i + 1, dist, cap) == Copy(out, i, dist, cap)
  {
  }

  /** The copy loop of inflate_block: byte by byte, so that overlapping matches repeat. */
  method CopyMatch(out: array<byte>, op0: nat, len: nat, dist: nat, cap: nat) returns (op: nat)
    requires op0 <= cap <= out.Length && dist >= 1
    modifies out
    ensures op <= cap && out[..op] == Copy(old(out[..op0]), len, dist, cap)
  {
    hide Periodic;
    ghost var o := out[..op0];
    op := op0;
    for i := 0 to len
      invariant op == if dist > op0 then op0 else Min(op0 + i, cap)
      invariant out[..op] == Copy(o, i, dist, cap)
    {
      if op < cap && op - dist >= 0 {
        CopyGrow(o, i, dist, cap);
        out[op] := out[op - dist];
        op := op + 1;
        assert out[..op] == out[..op - 1] + [out[op - 1]];
      } else {
        CopyStop(o, i, dist, cap);
      }
    }
  }

  lemma FarEnough(ds: nat)
    requires ds < 30
    ensures DBase(ds) >= 1 && (DExt(ds) > 0 ==> DBase(ds) >= 2)
  {
    hide DBase;
    DBaseIs(ds);
  }

  /** Where a match fails, and else what it is. */
  lemma MatchCases(s: seq<bit>, q: nat, ls: nat, dl: seq<nat>)
    requires ls < 29
    ensures var x, q1 := LexMatch(s, q, ls, dl), q + LExt(ls);
            if q1 > |s| then x.LexFail?
            else var d := DecodeSym(s, q1, dl);
              if d.NoSymbol? || d.sym >= 30 || d.next + DExt(d.sym) > |s| then x.LexFail?
              else x == LexToken(Match(ls, BitField(s, q, LExt(ls)), d.sym, BitField(s, d.next, DExt(d.sym))),
                                 d.next + DExt(d.sym))
  {
    hide DecodeSym, LsbVal, LExt, DExt;
  }

  /** The rest of a match after its length symbol ls.  With ok, either the match is there and
      ends at the reader's position, or the stream ends within its extra bits. */
  method ReadMatch(b: BitS, dh: Huf, ghost dl: seq<nat>, ls: nat) returns (ok: bool, len: nat, dist: nat)
    requires b.Valid() && dh.Represents(dl) && ls < 29
    modifies b
    ensures b.Valid() && b.At() >= old(b.At()) && dist >= 1
    ensures var x := LexMatch(BitsOf(b.src), old(b.At()), ls, dl);
            if x.LexFail? then ok ==> b.At() == 8 * |b.src|
            else ok && x.next == b.At() && x.t.Len() == len && x.t.Dist() == dist
  {
    hide DecodeSym, Pow2, LsbVal, LBase, DBase, LExt, DExt, BitS.At, BitS.Valid, Huf.Represents, BitsOf, Used, Matches,
      LexMatch, BitField, ReadBits;
    MatchCases(BitsOf(b.src), b.At(), ls, dl);
    LBaseIs(ls);
    LExtIs(ls);
    var lx := b.Gbn(LEXT[ls]);
    len, dist := LBASE[ls] + lx, 1;
    var ds := HufDecode(b, dh, dl);
    if ds < 0 || ds >= 30 { return false, len, dist; }
    DBaseIs(ds);
    DExtIs(ds);
    FarEnough(ds);
    var dx := b.Gbn(DEXT[ds]);
    dist := DBASE[ds] + dx;
    ok := true;
  }

  /** Decoding goes on as if started here, or is bound to fail because the stream is used up. */
  ghost predicate Follows(r: BlockResult, s: seq<bit>, p: nat, ll: seq<nat>, dl: seq<nat>, out: seq<byte>, cap: nat)
    requires |out| <= cap
  {
    r == DecodeBlock(s, p, ll, dl, out, cap) || (r.BlockFail? && p == |s|)
  }

  lemma FollowsSym(r: BlockResult, s: seq<bit>, p: nat, ll: seq<nat>, dl: seq<nat>, out: seq<byte>, cap: nat)
    requires |out| <= cap && Follows(r, s, p, ll, dl, out, cap)
    ensures var d := DecodeSym(s, p, ll);
            if d.NoSymbol? then r == BlockFail
            else if d.sym == EOB then r == BlockDone(d.next, out)
            else if d.sym < EOB then Follows(r, s, d.next, ll, dl, Put(out, d.sym, cap), cap)
            else if d.sym >= 286 then r == BlockFail
            else var x := LexMatch(s, d.next, d.sym - 257, dl);
                 if x.LexFail? then r == BlockFail
                 else Follows(r, s, x.next, ll, dl, Copy(out, x.t.Len(), x.t.Dist(), cap), cap)
  {
    hide LexMatch, Copy, Put, Token.Len, Token.Dist, Token.Valid;
  }

  /** inflate_block. */
  method InflateBlock(b: BitS, lh: Huf, dh: Huf, ghost ll: seq<nat>, ghost dl: seq<nat>,
                      out: array<byte>, op0: nat, cap: nat) returns (ret: int, op: nat)
    requires b.Valid() && lh.Represents(ll) && dh.Represents(dl) && op0 <= cap <= out.Length
    requires out as object != lh.count && out as object != lh.symbol
    requires out as object != dh.count && out as object != dh.symbol
    modifies b, out
    ensures b.Valid() && op <= cap
    ensures ret == 0 || ret == -1
    ensures var r := DecodeBlock(BitsOf(b.src), old(b.At()), ll, dl, old(out[..op0]), cap);
            if ret == 0 then r == BlockDone(b.At(), out[..op]) else r == BlockFail
  {
    hide DecodeSym, LexMatch, Copy, BitS.At, BitS.Valid, Huf.Represents, BitsOf, Token.Len, Token.Dist, Token.Valid,
      Follows, DecodeBlock, Used, Matches;
    ghost var s := BitsOf(b.src);
    ghost var r := DecodeBlock(s, b.At(), ll, dl, out[..op0], cap);
    op := op0;
    FollowsStart(s, b.At(), ll, dl, out[..op0], cap);
    while true
      invariant b.Valid() && op <= cap && lh.Represents(ll) && dh.Represents(dl)
      invariant Follows(r, s, b.At(), ll, dl, out[..op], cap)
      decreases |s| - b.At()
    {
      ghost var p, o := b.At(), out[..op];
      FollowsSym(r, s, p, ll, dl, o, cap);
      var sym := HufDecode(b, lh, ll);
      if sym < 0 { return -1, op; }
      if sym == 256 { return 0, op; }
      if sym < 256 {
        if op < cap {
          out[op] := sym;
          op := op + 1;
          assert out[..op] == o + [sym];
        }
      } else {
        sym := sym - 257;
        if sym >= 29 { return -1, op; }
        var ok, len, dist := ReadMatch(b, dh, dl, sym);
        if !ok { return -1, op; }
        op := CopyMatch(out, op, len, dist, cap);
        if r.BlockFail? && b.At() == |s| { FollowsEnd(r, s, ll, dl, out[..op], cap); }
      }
    }
  }

  lemma FollowsStart(s: seq<bit>, p: nat, ll: seq<nat>, dl: seq<nat>, out: seq<byte>, cap: nat)
    requires |out| <= cap
    ensures Follows(DecodeBlock(s, p, ll, dl, out, cap), s, p, ll, dl, out, cap)
  {
  }

  lemma FollowsEnd(r: BlockResult, s: seq<bit>, ll: seq<nat>, dl: seq<nat>, out: seq<byte>, cap: nat)
    requires |out| <= cap && r.BlockFail?
    ensures Follows(r, s, |s|, ll, dl, out, cap)
  {
  }

  // ------------------------------------------------------------ dynamic headers

  /** Appends one run to the length vector, stopping at the announced size. */
  method FillRun(lens: array<nat>, n0: nat, total: nat, run: nat, v: nat) returns (nn: nat)
    requires n0 <= total <= lens.Length
    modifies lens
    ensures nn <= total && lens[..nn] == old(lens[..n0]) + Fill<nat>(Min(run, total - n0), v)
  {
    nn := n0;
    var r := run;
    while r != 0 && nn < total
      invariant n0 <= nn <= total && nn - n0 == run - r
      invariant lens[..nn] == old(lens[..n0]) + Fill<nat>(nn - n0, v)
    {
      r := r - 1;
      lens[nn] := v;
      nn := nn + 1;
      assert lens[..nn] == lens[..nn - 1] + [v];
    }
  }

  ghost predicate FollowsLens(r: LensResult, s: seq<bit>, p: nat, cl: seq<nat>, lens: seq<nat>, total: nat)
  {
    && |cl| == 19 && |lens| <= total && ValidLens(lens)
    && (r == ReadLens(s, p, cl, lens, total) || (r.LensFail? && p == |s|))
  }

  lemma FollowsLensSym(r: LensResult, s: seq<bit>, p: nat, cl: seq<nat>, lens: seq<nat>, total: nat)
    requires FollowsLens(r, s, p, cl, lens, total) && |lens| < total && !r.LensUndefined?
    ensures var d := DecodeSym(s, p, cl);
            if d.NoSymbol? then r == LensFail
            else
              && d.sym < 19 && (d.sym == 16 ==> lens != [])
              && var v: nat := if d.sym < 16 then d.sym else if d.sym == 16 then lens[|lens| - 1] else 0;
              if d.sym < 16 then FollowsLens(r, s, d.next, cl, lens + Fill<nat>(1, v), total)
              else match ReadBits(s, d.next, RunBits(d.sym))
              case NoBits => r == LensFail
              case Field(x, q) =>
                FollowsLens(r, s, q, cl, lens + Fill<nat>(Min(RunBase(d.sym) + x, total - |lens|), v), total)
  {
    hide Matches, LsbVal;
    var d := DecodeSym(s, p, cl);
    if d.Symbol? {
      match ReadBits(s, d.next, RunBits(d.sym))
      case NoBits =>
      case Field(x, q) =>
        assert Pow2(0) == 1;
        ExtendIs(lens, MakeItem(d.sym, x), total);
    }
  }

  lemma ExtendIs(lens: seq<nat>, it: Item, total: nat)
    requires it.Valid() && |lens| < total && (it.Repeat? ==> lens != []) && ValidLens(lens)
    ensures Extend(lens, it, total) == lens + Fill<nat>(Min(it.Run(), total - |lens|), it.Value(lens))
    ensures ValidLens(Extend(lens, it, total))
  {
  }

  lemma FollowsLensEnd(r: LensResult, s: seq<bit>, cl: seq<nat>, lens: seq<nat>, total: nat)
    requires r.LensFail? && |cl| == 19 && |lens| <= total && ValidLens(lens)
    ensures FollowsLens(r, s, |s|, cl, lens, total)
  {
  }

  lemma FollowsLensStart(s: seq<bit>, p: nat, cl: seq<nat>, total: nat)
    requires |cl| == 19
    ensures FollowsLens(ReadLens(s, p, cl, [], total), s, p, cl, [], total)
  {
  }

  lemma FollowsLensDone(r: LensResult, s: seq<bit>, p: nat, cl: seq<nat>, lens: seq<nat>, total: nat)
    requires FollowsLens(r, s, p, cl, lens, total) && |lens| == total
    ensures ValidLens(lens) && (r == LensDone(p, lens) || (r == LensFail && p == |s|))
  {
  }

  lemma FillValid(lens: seq<nat>, n: nat, v: nat)
    requires ValidLens(lens) && v <= 15
    ensures ValidLens(lens + Fill<nat>(n, v))
  {
  }

  /** The repeat count and the length repeated; prev is the length before, for symbol 16. */
  method ReadRun(b: BitS, sym: nat, prev: nat) returns (run: nat, v: nat)
    requires b.Valid() && sym < 19
    modifies b
    ensures b.Valid() && b.At() >= old(b.At())
    ensures v == if sym < 16 then sym else if sym == 16 then prev else 0
    ensures if sym < 16 then run == 1 && b.At() == old(b.At())
            else match ReadBits(BitsOf(b.src), old(b.At()), RunBits(sym))
            case NoBits => b.At() == 8 * |b.src|
            case Field(x, q) => run == RunBase(sym) + x && b.At() == q
  {
    hide BitS.At, BitS.Valid, BitsOf, LsbVal, Pow2;
    if sym < 16 { return 1, sym; }
    if sym == 16 {
      var x := b.Gbn(2);
      run, v := x + 3, prev;
    } else if sym == 17 {
      var x := b.Gbn(3);
      run, v := x + 3, 0;
    } else {
      var x := b.Gbn(7);
      run, v := x + 11, 0;
    }
  }

  /** The loop that rebuilds the code length vector. */
  method ReadLengths(b: BitS, clh: Huf, ghost cl: seq<nat>, lens: array<nat>, total: nat) returns (ok: bool)
    requires b.Valid() && clh.Represents(cl) && |cl| == 19 && total <= lens.Length
    requires lens != clh.count && lens != clh.symbol
    requires !ReadLens(BitsOf(b.src), b.At(), cl, [], total).LensUndefined?
    modifies b, lens
    ensures b.Valid() && b.At() >= old(b.At())
    ensures var r := ReadLens(BitsOf(b.src), old(b.At()), cl, [], total);
            if ok then ValidLens(lens[..total])
                       && (r == LensDone(b.At(), lens[..total]) || (r == LensFail && b.At() == 8 * |b.src|))
            else r == LensFail
  {
    hide DecodeSym, FollowsLens, ReadLens, BitS.At, BitS.Valid, Huf.Represents, BitsOf, Used, Matches, LsbVal, Pow2, Fill,
      ValidLens;
    NoneValid();
    ghost var s := BitsOf(b.src);
    ghost var r := ReadLens(s, b.At(), cl, [], total);
    FollowsLensStart(s, b.At(), cl, total);
    var nn: nat := 0;
    assert lens[..0] == [];
    while nn < total
      invariant b.Valid() && b.At() >= old(b.At()) && nn <= total && clh.Represents(cl)
      invariant ValidLens(lens[..nn]) && FollowsLens(r, s, b.At(), cl, lens[..nn], total)
      decreases |s| - b.At()
    {
      ghost var l := lens[..nn];
      FollowsLensSym(r, s, b.At(), cl, l, total);
      var sym := HufDecode(b, clh, cl);
      if sym < 0 { return false; }
      var run, v := ReadRun(b, sym, if sym == 16 then lens[nn - 1] else 0);
      LastValid(l);
      nn := FillRun(lens, nn, total, run, v);
      FillValid(l, Min(run, total - |l|), v);
      if r.LensFail? && b.At() == |s| { FollowsLensEnd(r, s, cl, lens[..nn], total); }
    }
    FollowsLensDone(r, s, b.At(), cl, lens[..total], total);
    ok := true;
  }

  lemma NoneValid()
    ensures ValidLens([])
  {
  }

  lemma LastValid(lens: seq<nat>)
    requires ValidLens(lens)
    ensures lens != [] ==> lens[|lens| - 1] <= 15
  {
  }

  /** The header of a dynamic block: builds both tables.  With ok, either the header is there
      and ends at the reader's position, or the stream ended within it. */
  method ReadDynamic(b: BitS, lh: Huf, dh: Huf) returns (ok: bool, ghost ll: seq<nat>, ghost dl: seq<nat>)
    requires b.Valid() && lh.Shaped() && dh.Shaped()
    requires {lh.count, lh.symbol} !! {dh.count, dh.symbol}
    requires !ReadHeader(BitsOf(b.src), b.At()).HeaderUndefined?
    modifies b, lh.count, lh.symbol, dh.count, dh.symbol
    ensures b.Valid() && b.At() > old(b.At())
    ensures var r := ReadHeader(BitsOf(b.src), old(b.At()));
            if ok then lh.Represents(ll) && dh.Represents(dl)
                       && (r == HeaderDone(b.At(), ll, dl) || (r == HeaderFail && b.At() == 8 * |b.src|))
            else r == HeaderFail
  {
    hide BitS.At, BitS.Valid, Huf.Represents, BitsOf, ReadLens, ReadCl, BitField, ValidLens;
    ll, dl := [], [];
    var hlit, hdist, hclen := ReadSizes(b);
    var cl := ReadClLens(b, hclen);
    var clh := new Huf();
    HufBuild(clh, cl[..]);
    var lens := new nat[320];
    ok := ReadLengths(b, clh, cl[..], lens, hlit + hdist);
    if !ok { return; }
    ll, dl := BuildBoth(lh, dh, lens[..hlit + hdist], hlit);
  }

  method BuildBoth(lh: Huf, dh: Huf, lens: seq<nat>, hlit: nat) returns (ghost ll: seq<nat>, ghost dl: seq<nat>)
    requires lh.Shaped() && dh.Shaped() && {lh.count, lh.symbol} !! {dh.count, dh.symbol}
    requires ValidLens(lens) && hlit <= |lens| && hlit <= 288 && |lens| - hlit <= 32
    modifies lh.count, lh.symbol, dh.count, dh.symbol
    ensures ll == lens[..hlit] && dl == lens[hlit..] && lh.Represents(ll) && dh.Represents(dl)
  {
    ll, dl := lens[..hlit], lens[hlit..];
    HufBuild(lh, lens[..hlit]);
    HufBuild(dh, lens[hlit..]);
  }

  method ReadSizes(b: BitS) returns (hlit: nat, hdist: nat, hclen: nat)
    requires b.Valid() && b.At() + 14 <= 8 * |b.src|
    modifies b
    ensures b.Valid() && b.At() == old(b.At()) + 14
    ensures var s, p := BitsOf(b.src), old(b.At());
            hlit == BitField(s, p, 5) + 257 && hdist == BitField(s, p + 5, 5) + 1 && hclen == BitField(s, p + 10, 4) + 4
    ensures 257 <= hlit <= 288 && 1 <= hdist <= 32 && 4 <= hclen <= 19
  {
    hide BitS.At, BitS.Valid, BitsOf, LsbVal, Pow2;
    assert Pow2(4) == 16 && Pow2(5) == 32 by { PowersOfTwo(); }
    var x := b.Gbn(5);
    var y := b.Gbn(5);
    var z := b.Gbn(4);
    hlit, hdist, hclen := x + 257, y + 1, z + 4;
  }

  method ReadClLens(b: BitS, hclen: nat) returns (cl: array<nat>)
    requires b.Valid() && hclen <= 19 && b.At() + 3 * hclen <= 8 * |b.src|
    modifies b
    ensures b.Valid() && b.At() == old(b.At()) + 3 * hclen
    ensures fresh(cl) && cl[..] == ReadCl(BitsOf(b.src), old(b.At()), hclen) && ValidLens(cl[..])
  {
    hide BitS.At, BitS.Valid, BitsOf, LsbVal, Pow2, Ord, BitField;
    ghost var s, p := BitsOf(b.src), b.At();
    cl := new nat[19](_ => 0);
    assert cl[..] == ReadCl(s, p, 0);
    for i := 0 to hclen
      invariant b.Valid() && b.At() == p + 3 * i
      invariant cl[..] == ReadCl(s, p, i)
    {
      OrdIs(i);
      var v := b.Gbn(3);
      cl[ORD[i]] := v;
    }
  }

  // ------------------------------------------------------------ whole streams

  /** The function-static fixed tables of inflate_raw, built at the first fixed block. */
  class FixedTables {
    const flh: Huf
    const fdh: Huf
    var ready: bool

    constructor ()
      ensures Valid() && fresh(this) && fresh(flh) && fresh(fdh)
      ensures fresh(flh.count) && fresh(flh.symbol) && fresh(fdh.count) && fresh(fdh.symbol)
    {
      flh := new Huf();
      fdh := new Huf();
      ready := false;
    }

    ghost predicate Valid()
      reads this, flh.count, flh.symbol, fdh.count, fdh.symbol
    {
      && flh.Shaped() && fdh.Shaped() && {flh.count, flh.symbol} !! {fdh.count, fdh.symbol}
      && (ready ==> flh.Represents(FixedLL()) && fdh.Represents(FixedDL()))
    }

    method Ensure()
      requires Valid()
      modifies this, flh.count, flh.symbol, fdh.count, fdh.symbol
      ensures Valid() && ready
    {
      hide FixedLL, FixedDL, Huf.Represents;
      if !ready {
        FixedValid();
        HufBuild(flh, FixedLL());
        HufBuild(fdh, FixedDL());
        ready := true;
      }
    }
  }

  lemma FixedValid()
    ensures ValidLens(FixedLL()) && ValidLens(FixedDL())
  {
  }

  /** A stored block, copied from the next byte boundary. */
  method InflateStored(b: BitS, out: array<byte>, op0: nat, cap: nat) returns (ret: int, op: nat)
    requires b.Valid() && op0 <= cap <= out.Length
    modifies b, out
    ensures b.Valid() && op <= cap && (ret == 0 || ret == -1)
    ensures var r := DecodeStored(b.src, NextByte(old(b.At())), old(out[..op0]), cap);
            if ret == 0 then r == StepDone(b.At(), out[..op]) else r == StepFail
  {
    hide Lsb;
    assert NextByte(b.At()) == b.pos;
    ghost var k := b.pos;
    op := op0;
    b.bitcnt := 0;
    if b.pos + 4 > |b.src| { return -1, op; }
    var len := LowHigh(b.src[b.pos], b.src[b.pos + 1], 256);
    b.pos := b.pos + 4;
    var ok;
    ok, op := CopyStored(b, out, op0, cap, len);
    ret := if ok then 0 else -1;
  }

  /** The copy loop of a stored block.  It stops taking input once the output is full, but still
      fails on each byte it counts when the input is used up. */
  method CopyStored(b: BitS, out: array<byte>, op0: nat, cap: nat, len: nat) returns (ok: bool, op: nat)
    requires b.bitcnt == 0 && b.pos <= |b.src| && op0 <= cap <= out.Length
    modifies b`pos, out
    ensures b.pos <= |b.src| && op <= cap
    ensures ok == (len == 0 || old(b.pos) + Min(len - 1, cap - op0) < |b.src|)
    ensures ok ==> b.pos == old(b.pos) + Min(len, cap - op0)
    ensures ok ==> out[..op] == old(out[..op0]) + b.src[old(b.pos)..b.pos]
  {
    ghost var k := b.pos;
    op := op0;
    for i := 0 to len
      invariant b.pos == k + Min(i, cap - op0) <= |b.src| && op == op0 + Min(i, cap - op0)
      invariant i > 0 ==> k + Min(i - 1, cap - op0) < |b.src|
      invariant out[..op] == old(out[..op0]) + b.src[k..b.pos]
    {
      if b.pos >= |b.src| { return false, op; }
      if op < cap {
        ghost var head := out[..op];
        out[op] := b.src[b.pos];
        op := op + 1;
        b.pos := b.pos + 1;
        assert out[..op] == head + [b.src[b.pos - 1]];
      }
    }
    ok := true;
  }

  lemma EndFails(s: seq<bit>, p: nat, ll: seq<nat>, dl: seq<nat>, out: seq<byte>, cap: nat)
    requires |out| <= cap && p >= |s|
    ensures DecodeBlock(s, p, ll, dl, out, cap) == BlockFail
  {
  }

  ghost predicate Apart(out: array<byte>, h: Huf)
  {
    out as object != h.count && out as object != h.symbol
  }

  /** One block of the given kind. */
  method InflateBody(b: BitS, kind: nat, fx: FixedTables, out: array<byte>, op0: nat, cap: nat) returns (ret: int, op: nat)
    requires b.Valid() && fx.Valid() && op0 <= cap <= out.Length && Apart(out, fx.flh) && Apart(out, fx.fdh)
    requires !DecodeBody(b.src, b.At(), kind, out[..op0], cap).StepUndefined?
    modifies b, out, fx, fx.flh.count, fx.flh.symbol, fx.fdh.count, fx.fdh.symbol
    ensures b.Valid() && fx.Valid() && op <= cap && (ret == 0 || ret == -1)
    ensures var r := DecodeBody(b.src, old(b.At()), kind, old(out[..op0]), cap);
            if ret == 0 then r == StepDone(b.At(), out[..op]) else r == StepFail
  {
    hide BitS.At, BitS.Valid, Huf.Represents, BitsOf, ReadHeader, DecodeBlock, FixedLL, FixedDL, DecodeStored;
    ghost var s, o := BitsOf(b.src), out[..op0];
    if kind == 0 {
      ret, op := InflateStored(b, out, op0, cap);
    } else if kind == 1 {
      fx.Ensure();
      ret, op := InflateBlock(b, fx.flh, fx.fdh, FixedLL(), FixedDL(), out, op0, cap);
    } else if kind == 2 {
      var lh := new Huf();
      var dh := new Huf();
      ghost var ll, dl;
      var ok;
      ok, ll, dl := ReadDynamic(b, lh, dh);
      if !ok { return -1, op0; }
      assert out[..op0] == o;
      if b.At() == |s| { EndFails(s, b.At(), ll, dl, o, cap); }
      ret, op := InflateBlock(b, lh, dh, ll, dl, out, op0, cap);
    } else {
      ret, op := -1, op0;
    }
  }

  /** inflate_raw: the length of the output, or -1. */
  method InflateRaw(src: seq<byte>, out: array<byte>, cap: nat, fx: FixedTables) returns (ret: int)
    requires fx.Valid() && cap <= out.Length && Apart(out, fx.flh) && Apart(out, fx.fdh)
    requires !Inflate(src, 0, [], cap).Undefined?
    modifies out, fx, fx.flh.count, fx.flh.symbol, fx.fdh.count, fx.fdh.symbol
    ensures fx.Valid()
    ensures match Inflate(src, 0, [], cap)
            case Done(o) => ret == |o| && out[..ret] == o
            case Fail => ret == -1
            case Undefined => false
  {
    hide BitS.At, BitS.Valid, BitsOf, DecodeBody, DeflateStream.Inflate, LsbVal, FixedTables.Valid, BitField;
    var b := new BitS(src);
    var op: nat := 0;
    assert out[..0] == [];
    while true
      invariant b.Valid() && fx.Valid() && op <= cap && b.src == src
      invariant Inflate(src, b.At(), out[..op], cap) == Inflate(src, 0, [], cap)
      decreases 8 * |src| - b.At()
    {
      ghost var p, s := b.At(), BitsOf(src);
      InflateStep(src, p, out[..op], cap);
      var final := b.Gb1();
      if final < 0 { return -1; }
      var kind := b.Gbn(2);
      if kind < 0 { return -1; }
      var r;
      r, op := InflateBody(b, kind, fx, out, op, cap);
      if r < 0 { return -1; }
      if final != 0 { return op; }
    }
  }

  lemma InflateStep(src: seq<byte>, p: nat, out: seq<byte>, cap: nat)
    requires |out| <= cap && p <= 8 * |src|
    ensures Inflate(src, p, out, cap)
            == if p + 3 > 8 * |src| then Fail
               else match DecodeBody(src, p + 3, BitField(BitsOf(src), p + 1, 2), out, cap)
               case StepFail => Fail
               case StepUndefined => Undefined
               case StepDone(q, o) => if BitAt(src, p) == 1 then Done(o) else Inflate(src, q, o, cap)
  {
    hide DecodeBody, BitField, LsbVal, BitAt, LowHigh;
    if p + 3 <= 8 * |src| { KindBits(BitsOf(src), p + 1); }
  }

  lemma KindBits(s: seq<bit>, p: nat)
    requires p + 2 <= |s|
    ensures BitField(s, p, 2) == LowHigh(s[p], s[p + 1], 2)
  {
    var w := s[p..p + 2];
    assert w[1..] == [s[p + 1]];
    assert LsbVal([s[p + 1]]) == s[p + 1];
  }
}
