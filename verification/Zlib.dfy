/**
 zlib_encode, zlib_decode and adler32_of of allnet.c: section 2.2 of RFC 1950
 over stored DEFLATE blocks, and the round trip through base64 and back.
 */
module Zlib {
  import opened Bits
  import opened Deflate
  import D = DeflateStream
  import opened Inflate
  import Base64

  // ------------------------------------------------------------ Adler-32

  const ADLER: nat := 65521

  /** n*d[0] + (n-1)*d[1] + ... + 1*d[n-1]. */
  function Weighted(d: seq<byte>): (s: nat)
  {
    if d == [] then 0 else |d| * d[0] + Weighted(d[1..])
  }

  /** The closed form of the checksum, section 8.2 of RFC 1950. */
  function Adler(d: seq<byte>): (a: nat)
    ensures a < 0x1_0000_0000
  {
    (|d| + Weighted(d)) % ADLER * 65536 + (1 + ByteSum(d)) % ADLER
  }

  lemma {:induction false} SumCons(x: byte, d: seq<byte>)
    ensures ByteSum([x] + d) == x + ByteSum(d)
  {
    if d == [] {
      assert [x] + d == [x];
      assert [x][..0] == [];
    } else {
      assert ([x] + d)[..|d|] == [x] + d[..|d| - 1];
      SumCons(x, d[..|d| - 1]);
    }
  }

  lemma {:induction false} WeightedSnoc(d: seq<byte>, x: byte)
    ensures Weighted(d + [x]) == Weighted(d) + ByteSum(d) + x
  {
    if d == [] {
      assert d + [x] == [x] && [x][1..] == [];
      assert Weighted([x]) == 1 * x;
    } else {
      assert (d + [x])[1..] == d[1..] + [x];
      WeightedSnoc(d[1..], x);
      SumCons(d[0], d[1..]);
      assert d == [d[0]] + d[1..];
      assert (|d| + 1) * d[0] == |d| * d[0] + d[0];
    }
  }

  lemma NoBytes(d: seq<byte>)
    ensures ByteSum(d[..0]) == 0 && Weighted(d[..0]) == 0
  {
  }

  lemma SumsStep(d: seq<byte>, i: nat)
    requires i < |d|
    ensures ByteSum(d[..i + 1]) == ByteSum(d[..i]) + d[i]
    ensures Weighted(d[..i + 1]) == Weighted(d[..i]) + ByteSum(d[..i + 1])
  {
    assert d[..i + 1] == d[..i] + [d[i]] && d[..i + 1][..i] == d[..i];
    WeightedSnoc(d[..i], d[i]);
  }

  lemma ModSum(x: nat, y: nat)
    ensures (x % ADLER + y) % ADLER == (x + y) % ADLER
  {
  }

  /** adler32_of: the running sums give the closed form. */
  method Adler32(d: seq<byte>) returns (ad: nat)
    ensures ad == Adler(d)
  {
    hide ByteSum, Weighted;
    var a, b := 1, 0;
    NoBytes(d);
    for i := 0 to |d|
      invariant a == (1 + ByteSum(d[..i])) % ADLER && b == (i + Weighted(d[..i])) % ADLER
    {
      SumsStep(d, i);
      ModSum(1 + ByteSum(d[..i]), d[i]);
      a := (a + d[i]) % ADLER;
      ModSum(i + Weighted(d[..i]), a);
      ModSum(1 + ByteSum(d[..i + 1]), b);
      b := (b + a) % ADLER;
      ModSum(1 + ByteSum(d[..i + 1]), i + Weighted(d[..i]));
    }
    assert d[..|d|] == d;
    ad := b * 65536 + a;
  }

  // ------------------------------------------------------------ the encoding

  const CHUNK: nat := 65535

  function StoredBytes(last: bool, c: seq<byte>): (s: seq<byte>)
    requires |c| <= CHUNK
    ensures |s| == 5 + |c|
  {
    [if last then 1 else 0, |c| % 256, |c| / 256, 255 - |c| % 256, 255 - |c| / 256] + c
  }

  /** Stored blocks of at most 65535 bytes, the final one flagged; an empty payload has one empty block. */
  function StoredStream(d: seq<byte>): (s: seq<byte>)
    ensures |s| == |d| + 5 * BlockCount(|d|)
  {
    if |d| <= CHUNK then StoredBytes(true, d)
    else StoredBytes(false, d[..CHUNK]) + StoredStream(d[CHUNK..])
  }

  function BlockCount(n: nat): (k: nat)
    ensures k >= 1 && (k == 1 <==> n <= CHUNK)
  {
    if n <= CHUNK then 1 else 1 + BlockCount(n - CHUNK)
  }

  function Encoded(d: seq<byte>): (s: seq<byte>)
    ensures |s| == 6 + |d| + 5 * BlockCount(|d|)
  {
    [0x78, 0x01] + StoredStream(d) + Big32(Adler(d))
  }

  // ------------------------------------------------------------ it is a DEFLATE stream

  function Chunks(d: seq<byte>): (bs: seq<D.Block>)
    ensures bs != []
  {
    if |d| <= CHUNK then [D.Stored(|d|, d)] else [D.Stored(CHUNK, d[..CHUNK])] + Chunks(d[CHUNK..])
  }

  lemma FlagBits(src: seq<byte>, k: nat, last: bool)
    requires k < |src| && src[k] == if last then 1 else 0
    ensures At(BitsOf(src), 8 * k, D.HeaderBits(last, 0)) && D.NextByte(8 * k + 3) == k + 1
  {
    hide Lsb;
    var s := BitsOf(src);
    FlagByte(src[k]);
    assert (8 * k) / 8 == k && (8 * k + 1) / 8 == k && (8 * k + 2) / 8 == k;
    assert s[8 * k] == src[k] && s[8 * k + 1] == 0 && s[8 * k + 2] == 0;
    assert s[8 * k..8 * k + 3] == [s[8 * k], s[8 * k + 1], s[8 * k + 2]];
  }

  lemma FlagByte(f: byte)
    requires f < 2
    ensures Lsb(f, 8)[0] == f && Lsb(f, 8)[1] == 0 && Lsb(f, 8)[2] == 0
  {
    assert Lsb(f, 8) == [f] + Lsb(0, 7);
    assert Lsb(0, 7) == [0] + Lsb(0, 6);
    assert Lsb(0, 6) == [0] + Lsb(0, 5);
  }

  lemma ChunkAt(src: seq<byte>, k: nat, last: bool, c: seq<byte>)
    requires |c| <= CHUNK && k + 5 + |c| <= |src| && src[k..k + 5 + |c|] == StoredBytes(last, c)
    ensures D.BlockAt(src, 8 * k, last, D.Stored(|c|, c), 8 * (k + 5 + |c|))
  {
    hide BitsOf, D.HeaderBits;
    var w := src[k..k + 5 + |c|];
    assert src[k] == w[0] && src[k + 1] == w[1] && src[k + 2] == w[2];
    assert src[k + 5..k + 5 + |c|] == w[5..] == c;
    FlagBits(src, k, last);
  }

  lemma SplitAt(src: seq<byte>, k: nat, u: seq<byte>, w: seq<byte>)
    requires k + |u| + |w| <= |src| && src[k..k + |u| + |w|] == u + w
    ensures src[k..k + |u|] == u && src[k + |u|..k + |u| + |w|] == w
  {
    var x := src[k..k + |u| + |w|];
    assert src[k..k + |u|] == x[..|u|] && src[k + |u|..k + |u| + |w|] == x[|u|..];
  }

  lemma {:induction false} StreamIs(src: seq<byte>, k: nat, d: seq<byte>)
    requires k + |StoredStream(d)| <= |src| && src[k..k + |StoredStream(d)|] == StoredStream(d)
    ensures D.StreamAt(src, 8 * k, Chunks(d), 8 * (k + |StoredStream(d)|))
    decreases |d|
  {
    hide D.BlockAt, StoredBytes;
    if |d| <= CHUNK {
      ChunkAt(src, k, true, d);
    } else {
      var c, r := d[..CHUNK], d[CHUNK..];
      var w := src[k..k + |StoredStream(d)|];
      var m := k + 5 + CHUNK;
      assert w == StoredBytes(false, c) + StoredStream(r);
      SplitAt(src, k, StoredBytes(false, c), StoredStream(r));
      ChunkAt(src, k, false, c);
      StreamIs(src, m, r);
      assert Chunks(d)[1..] == Chunks(r);
      assert D.BlockAt(src, 8 * k, false, Chunks(d)[0], 8 * m) && D.StreamAt(src, 8 * m, Chunks(d)[1..], 8 * (m + |StoredStream(r)|));
    }
  }

  lemma {:induction false} ChunksExpand(out: seq<byte>, d: seq<byte>)
    ensures D.LegalStream(out, Chunks(d)) && D.ExpandStream(out, Chunks(d)) == out + d
    decreases |d|
  {
    if |d| > CHUNK {
      ChunksExpand(out + d[..CHUNK], d[CHUNK..]);
      assert Chunks(d)[1..] == Chunks(d[CHUNK..]);
      assert out + d[..CHUNK] + d[CHUNK..] == out + d;
    }
  }

  /** Decoding what zlib_encode writes gives the payload back, if the output has room for it. */
  lemma ZlibRoundTrip(d: seq<byte>, cap: nat)
    requires |d| <= cap
    ensures D.Inflate(Encoded(d)[2..], 0, [], cap) == D.Done(d)
  {
    hide StoredStream, Adler, Big32, D.Inflate, D.StreamAt, D.LegalStream, D.ExpandStream, Chunks;
    var src := Encoded(d)[2..];
    assert src == StoredStream(d) + Big32(Adler(d));
    assert src[0..0 + |StoredStream(d)|] == StoredStream(d);
    StreamIs(src, 0, d);
    ChunksExpand([], d);
    assert [] + d == d;
    D.StreamDecode(src, 0, Chunks(d), 8 * |StoredStream(d)|, [], cap);
  }

  /** Payload -> zlib -> base64, with any characters outside the alphabet thrown in, -> back. */
  lemma PayloadRoundTrip(d: seq<byte>, text: seq<byte>, cap: nat)
    requires |d| <= cap && Base64.Keep(text) == Base64.Keep(Base64.Encoded(Encoded(d)))
    ensures Base64.Decoded(text) == Encoded(d)
    ensures D.Inflate(Base64.Decoded(text)[2..], 0, [], cap) == D.Done(d)
  {
    Base64.DecodeAnyLayout(Encoded(d), text);
    ZlibRoundTrip(d, cap);
  }

  // ------------------------------------------------------------ the methods

  /** A buffer that just passes the check n + 11 <= cap of zlib_encode is big enough exactly if the
      payload takes a single stored block. */
  lemma RoomCheck(d: seq<byte>)
    ensures |Encoded(d)| <= |d| + 11 <==> |d| <= 65535
  {
  }

  /** zlib_encode.  Its own check n + 11 <= cap is enough room exactly for payloads of one block;
      longer payloads need five more bytes for each further block. */
  method ZlibEncode(d: seq<byte>, out: array<byte>, cap: nat) returns (o: int)
    requires cap <= out.Length
    requires cap < |d| + 11 || |Encoded(d)| <= cap
    modifies out
    ensures cap < |d| + 11 ==> o == -1 && out[..] == old(out[..])
    ensures cap >= |d| + 11 ==> o == |Encoded(d)| && out[..o] == Encoded(d)
  {
    hide StoredStream, Adler, Big32, BlockCount;
    if cap < |d| + 11 { return -1; }
    out[0], out[1] := 0x78, 0x01;
    assert out[..2] == [0x78, 0x01];
    var n := PutBlocks(out, 2, d);
    var ad := Adler32(d);
    PutWord(out, n, ad);
    o := n + 4;
  }

  /** The loop over the stored blocks. */
  method PutBlocks(out: array<byte>, n0: nat, d: seq<byte>) returns (n: nat)
    requires n0 + |StoredStream(d)| <= out.Length
    modifies out
    ensures n == n0 + |StoredStream(d)| && out[..n] == old(out[..n0]) + StoredStream(d)
  {
    hide StoredStream, StoredBytes, BlockCount;
    ghost var head := out[..n0];
    n := n0;
    var i := 0;
    Whole(d);
    while true
      invariant i <= |d| && n + |StoredStream(d[i..])| == n0 + |StoredStream(d)|
      invariant out[..n] + StoredStream(d[i..]) == head + StoredStream(d)
      decreases |d| - i
    {
      var blk := |d| - i;
      if blk > 65535 { blk := 65535; }
      var last := i + blk >= |d|;
      StreamStep(d, i, blk);
      n := PutBlock(out, n, last, d[i..i + blk]);
      i := i + blk;
      if i >= |d| { break; }
    }
  }

  lemma Whole(d: seq<byte>)
    ensures d[0..] == d
  {
  }

  lemma StreamStep(d: seq<byte>, i: nat, blk: nat)
    requires i <= |d| && blk == Min(|d| - i, 65535)
    ensures StoredStream(d[i..])
            == if i + blk >= |d| then StoredBytes(true, d[i..i + blk])
               else StoredBytes(false, d[i..i + blk]) + StoredStream(d[i + blk..])
  {
    hide StoredBytes;
    assert d[i..][..blk] == d[i..i + blk];
    if i + blk >= |d| { assert d[i..i + blk] == d[i..]; }
    assert d[i..][blk..] == d[i + blk..];
  }

  method PutBlock(out: array<byte>, n0: nat, last: bool, c: seq<byte>) returns (n: nat)
    requires |c| <= CHUNK && n0 + 5 + |c| <= out.Length
    modifies out
    ensures n == n0 + 5 + |c| && out[..n] == old(out[..n0]) + StoredBytes(last, c)
  {
    hide StoredBytes;
    var blk := |c|;
    BlockHead(last, c);
    out[n0] := if last then 1 else 0;
    out[n0 + 1], out[n0 + 2] := blk % 256, blk / 256;
    out[n0 + 3], out[n0 + 4] := 255 - blk % 256, 255 - blk / 256;
    n := n0 + 5;
    for j := 0 to blk
      invariant n == n0 + 5 + j
      invariant out[..n] == old(out[..n0]) + StoredBytes(last, c)[..5 + j]
    {
      out[n] := c[j];
      n := n + 1;
      assert out[..n] == out[..n - 1] + [c[j]];
      BlockNext(last, c, j);
    }
  }

  lemma BlockHead(last: bool, c: seq<byte>)
    requires |c| <= CHUNK
    ensures StoredBytes(last, c)[..5]
            == [if last then 1 else 0, |c| % 256, |c| / 256, 255 - |c| % 256, 255 - |c| / 256]
    ensures StoredBytes(last, c)[..5 + |c|] == StoredBytes(last, c)
  {
  }

  lemma BlockNext(last: bool, c: seq<byte>, j: nat)
    requires |c| <= CHUNK && j < |c|
    ensures StoredBytes(last, c)[..5 + j + 1] == StoredBytes(last, c)[..5 + j] + [c[j]]
  {
  }

  method PutWord(out: array<byte>, n: nat, v: nat)
    requires n + 4 <= out.Length && v < 0x1_0000_0000
    modifies out
    ensures out[..n + 4] == old(out[..n]) + Big32(v)
  {
    out[n], out[n + 1] := v / 0x100_0000, v / 0x1_0000 % 256;
    out[n + 2], out[n + 3] := v / 256 % 256, v % 256;
  }

  /** zlib_decode: skips the two header bytes without looking at them and never reads the checksum. */
  method ZlibDecode(src: seq<byte>, out: array<byte>, cap: nat, fx: FixedTables) returns (ret: int)
    requires fx.Valid() && cap <= out.Length && Apart(out, fx.flh) && Apart(out, fx.fdh)
    requires |src| >= 2 ==> !D.Inflate(src[2..], 0, [], cap).Undefined?
    modifies out, fx, fx.flh.count, fx.flh.symbol, fx.fdh.count, fx.fdh.symbol
    ensures fx.Valid()
    ensures |src| < 2 ==> ret == -1
    ensures |src| >= 2 ==> match D.Inflate(src[2..], 0, [], cap)
                           case Done(o) => ret == |o| && out[..ret] == o
                           case Fail => ret == -1
                           case Undefined => false
  {
    if |src| < 2 { return -1; }
    ret := InflateRaw(src[2..], out, cap, fx);
  }

  // ------------------------------------------------------------ known encodings

  /** The header of section 2.2 of RFC 1950: method 8, a window of at most 32K, and a multiple of 31. */
  lemma HeaderValid(d: seq<byte>)
    ensures var e := Encoded(d); var cmf: nat, flg: nat := e[0], e[1];
            cmf % 16 == 8 && cmf / 16 <= 7 && (cmf * 256 + flg) % 31 == 0 && flg / 32 % 2 == 0
  {
    hide StoredStream, Adler, Big32;
  }

  /** A block header: the flag, the size low byte first, and its complement. */
  lemma StoredLiterally(last: bool, c: seq<byte>)
    requires |c| <= 65535
    ensures var b := StoredBytes(last, c);
            && b[0] == (if last then 1 else 0) && b[1] as nat + 256 * b[2] as nat == |c| && b[5..] == c
            && b[1] as nat + b[3] as nat == 255 && b[2] as nat + b[4] as nat == 255
  {
  }

  /** A payload of more than 65535 bytes begins with a block of so many bytes, which is not the last. */
  lemma LongLiterally(d: seq<byte>)
    requires |d| > 65535
    ensures Encoded(d)[2..65542] == [0, 255, 255, 0, 0] + d[..65535]
    ensures Encoded(d)[65542..|Encoded(d)| - 4] == StoredStream(d[65535..])
  {
    hide Adler, StoredBytes;
    var x, y := StoredBytes(false, d[..65535]), StoredStream(d[65535..]);
    assert x == [0, 255, 255, 0, 0] + d[..65535] by { FullBlock(d[..65535]); }
    assert StoredStream(d) == x + y;
    assert Encoded(d) == [0x78, 0x01] + x + y + Big32(Adler(d));
  }

  lemma FullBlock(c: seq<byte>)
    requires |c| == 65535
    ensures StoredBytes(false, c) == [0, 255, 255, 0, 0] + c
  {
  }

  /** The checksum as section 8.2 of RFC 1950 has it: two sums modulo 65521, from 1 and 0 on, updated byte
      by byte. */
  lemma AdlerStep(d: seq<byte>, x: byte)
    ensures Adler([]) == 1
    ensures var a, b := Adler(d) % 65536, Adler(d) / 65536;
            Adler(d + [x]) == (b + (a + x) % 65521) % 65521 * 65536 + (a + x) % 65521
  {
    hide ByteSum, Weighted;
    var e: seq<byte> := [];
    NoBytes(e);
    assert e[..0] == e;
    var a, b := (1 + ByteSum(d)) % 65521, (|d| + Weighted(d)) % 65521;
    assert (d + [x])[..|d|] == d && (d + [x])[..|d| + 1] == d + [x];
    SumsStep(d + [x], |d|);
    Halves(b, a);
    ModSum(1 + ByteSum(d), x);
    var s, w := 1 + ByteSum(d + [x]), |d| + Weighted(d);
    ModSum(w, s % 65521);
    ModSum(s, w);
  }

  lemma Halves(b: nat, a: nat)
    requires a < 65536
    ensures (b * 65536 + a) / 65536 == b && (b * 65536 + a) % 65536 == a
  {
  }

  /** The checksum of "abc" is 0x024D0127. */
  lemma AdlerExample()
    ensures Adler(Ascii("abc")) == 0x024D_0127
  {
    hide ByteSum, Weighted;
    var d := Ascii("abc");
    assert d == [97, 98, 99] && d[..3] == d;
    NoBytes(d);
    SumsStep(d, 0);
    SumsStep(d, 1);
    SumsStep(d, 2);
  }

  /** The whole encoding of "a". */
  lemma EncodedExample()
    ensures Encoded([97]) == [0x78, 0x01, 0x01, 0x01, 0x00, 0xFE, 0xFF, 97, 0x00, 0x62, 0x00, 0x62]
  {
    hide ByteSum, Weighted;
    var d: seq<byte> := [97];
    NoBytes(d);
    SumsStep(d, 0);
    assert d[..1] == d;
    assert Adler(d) == 0x0062_0062;
    assert StoredStream(d) == [0x01, 0x01, 0x00, 0xFE, 0xFF] + d;
  }
}
